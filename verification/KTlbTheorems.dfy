/** What the generation protocol guarantees, over every run of the machine of module KTlb. */
module KTlbTheorems {
  import opened KTlb

  // ----- stale translations -----

  /** Change number `j` of the entry for `va` has been marked, and processor `c` has recorded its generation. */
  ghost predicate Reached(s: State, c: Cpu, va: Va, j: nat) {
    (va, j) in s.marks && s.marks[(va, j)].gen <= if s.marks[(va, j)].all then c.g else c.n
  }

  /**
    A cached translation is never older than a recorded change, unless the
    translation is global and the change is one of a non-global mapping.
   */
  lemma {:induction false} NoStale(ncpus: nat, run: seq<Step>, i: nat, e: Cached, j: nat)
    requires i < |Exec(Boot(ncpus), run).cpus|
    requires e in Exec(Boot(ncpus), run).cpus[i].tlb && e.ver < j
    ensures var s := Exec(Boot(ncpus), run);
            Reached(s, s.cpus[i], e.va, j) ==> e.global && !s.marks[(e.va, j)].all
  {
    ExecInv(ncpus, run);
    var s := Exec(Boot(ncpus), run);
    assert CpuOk(s, s.cpus[i]);
  }

  /** The change that replaced a cached translation has not been recorded. */
  lemma {:induction false} NotSuperseded(ncpus: nat, run: seq<Step>, i: nat, e: Cached)
    requires i < |Exec(Boot(ncpus), run).cpus| && e in Exec(Boot(ncpus), run).cpus[i].tlb
    ensures var s := Exec(Boot(ncpus), run);
            !Reached(s, s.cpus[i], e.va, e.ver + 1)
  {
    ExecInv(ncpus, run);
    var s := Exec(Boot(ncpus), run);
    assert CpuOk(s, s.cpus[i]);
  }

  /**
    A page table entry whose history lets a stale translation survive: it was global, and a
    later change replaced a mapping that was no longer global by one that is not.
   */
  ghost predicate Risky(h: seq<Pte>) {
    exists a, j :: 0 <= a < j < |h| && RiskyAt(h, a, j)
  }

  predicate RiskyAt(h: seq<Pte>, a: nat, j: nat)
    requires a < j < |h|
  {
    h[a].present && h[a].global && h[j - 1].present && !h[j - 1].global && !h[j].global
  }

  /** Without such a history a cached translation is never older than a recorded change. */
  lemma {:induction false} StaleOnlyIfRisky(ncpus: nat, run: seq<Step>, i: nat, e: Cached, j: nat)
    requires i < |Exec(Boot(ncpus), run).cpus|
    requires e in Exec(Boot(ncpus), run).cpus[i].tlb && e.ver < j
    ensures var s := Exec(Boot(ncpus), run);
            Reached(s, s.cpus[i], e.va, j) ==> j < |Hist(s, e.va)| && RiskyAt(Hist(s, e.va), e.ver, j)
  {
    NoStale(ncpus, run, i, e, j);
    ExecInv(ncpus, run);
    var s := Exec(Boot(ncpus), run);
    assert CpuOk(s, s.cpus[i]) && LogOk(s);
    if Reached(s, s.cpus[i], e.va, j) {
      assert (e.va, j) in s.marks;
    }
  }

  /** A caller that never changes the global bit of a present mapping has no such history. */
  lemma {:induction false} SameBitNotRisky(h: seq<Pte>, global: bool)
    requires forall k :: 0 <= k < |h| && h[k].present ==> h[k].global == global
    ensures !Risky(h)
  {
  }

  /** When all changes are marked, a processor that has recorded both generations caches only current translations. */
  lemma {:induction false} Coherent(ncpus: nat, run: seq<Step>, i: nat)
    requires i < |Exec(Boot(ncpus), run).cpus|
    ensures var s := Exec(Boot(ncpus), run);
            var c := s.cpus[i];
            s.pending == {} && c.g == s.kg && c.n == s.kn ==>
              forall e :: e in c.tlb ==> e.ver == |Hist(s, e.va)| - 1
  {
    ExecInv(ncpus, run);
    var s := Exec(Boot(ncpus), run);
    CaughtUp(s, s.cpus[i]);
  }

  lemma {:induction false} CaughtUp(s: State, c: Cpu)
    requires LogOk(s) && CpuOk(s, c)
    ensures s.pending == {} && c.g == s.kg && c.n == s.kn ==>
              forall e :: e in c.tlb ==> e.ver == |Hist(s, e.va)| - 1
  {
    if s.pending == {} && c.g == s.kg && c.n == s.kn {
      forall e | e in c.tlb
        ensures e.ver == |Hist(s, e.va)| - 1
      {
        assert (e.va, e.ver + 1) !in s.pending;
      }
    }
  }

  // ----- an update that is not interrupted -----

  function Steps(kg: nat, kn: nat, c: Cpu, n: nat): Cpu
    requires |c.stack| >= 1
    decreases n
  {
    if n == 0 then c
    else
      var d := CpuStep(kg, kn, c);
      if |d.stack| < |c.stack| || d.stack == [] then d else Steps(kg, kn, d, n - 1)
  }

  lemma {:induction false} OneStep(kg: nat, kn: nat, c: Cpu, d: Cpu, n: nat)
    requires c.stack != [] && n > 0 && d == CpuStep(kg, kn, c) && |d.stack| == |c.stack|
    ensures Steps(kg, kn, c, n) == Steps(kg, kn, d, n - 1)
  {
  }

  /** A processor whose activation on top is `f`. */
  function Running(c: Cpu, st: seq<Frame>, f: Frame): Cpu {
    c.(stack := st + [f])
  }

  lemma {:induction false} ReplaceTop(c: Cpu, st: seq<Frame>, f: Frame, g: Frame)
    ensures var r := Running(c, st, f);
            r.stack[|r.stack| - 1] == f && Replace(r, g) == Running(c, st, g) && Pop(r) == c.(stack := st)
  {
    OnTop(st, f, g);
  }

  /** The four loads of an update. */
  lemma {:induction false} UpdateLoads(kg: nat, kn: nat, c: Cpu, st: seq<Frame>)
    ensures Steps(kg, kn, Running(c, st, UPDATE_START), 7) == Steps(kg, kn, Running(c, st, Update(4, c.g, c.n, kg, kn)), 3)
  {
    ReplaceTop(c, st, UPDATE_START, Update(1, c.g, 0, 0, 0));
    OneStep(kg, kn, Running(c, st, UPDATE_START), Running(c, st, Update(1, c.g, 0, 0, 0)), 7);
    ReplaceTop(c, st, Update(1, c.g, 0, 0, 0), Update(2, c.g, c.n, 0, 0));
    OneStep(kg, kn, Running(c, st, Update(1, c.g, 0, 0, 0)), Running(c, st, Update(2, c.g, c.n, 0, 0)), 6);
    ReplaceTop(c, st, Update(2, c.g, c.n, 0, 0), Update(3, c.g, c.n, kg, 0));
    OneStep(kg, kn, Running(c, st, Update(2, c.g, c.n, 0, 0)), Running(c, st, Update(3, c.g, c.n, kg, 0)), 5);
    ReplaceTop(c, st, Update(3, c.g, c.n, kg, 0), Update(4, c.g, c.n, kg, kn));
    OneStep(kg, kn, Running(c, st, Update(3, c.g, c.n, kg, 0)), Running(c, st, Update(4, c.g, c.n, kg, kn)), 4);
  }

  /** The last compare-and-swap. */
  lemma {:induction false} UpdateLast(kg: nat, kn: nat, c: Cpu, st: seq<Frame>, cg: nat, n: nat)
    requires n > 0
    ensures Steps(kg, kn, Running(c, st, Update(6, cg, c.n, kg, kn)), n) == c.(n := kn, stack := st)
  {
    ReplaceTop(c.(n := kn), st, Update(6, cg, c.n, kg, kn), UPDATE_START);
    ReplaceTop(c, st, Update(6, cg, c.n, kg, kn), UPDATE_START);
  }

  /** What an update leaves in the TLB: all, without new generations; the global part, with a new normal one only. */
  function KeptBy(kg: nat, kn: nat, c: Cpu): set<Cached> {
    if GenAfter(kg, c.g) then {} else if GenAfter(kn, c.n) then Globals(c.tlb) else c.tlb
  }

  /** cpu_ktlb_update on its own ends within seven steps, records the current generations and flushes no more than they ask for. */
  lemma {:induction false} UpdateAlone(kg: nat, kn: nat, c: Cpu)
    requires c.g <= kg && c.n <= kn
    ensures var d := Steps(kg, kn, Running(c, c.stack, UPDATE_START), 7);
            d.stack == c.stack && d.g == kg && d.n == kn && d.tlb == KeptBy(kg, kn, c)
  {
    var st := c.stack;
    UpdateLoads(kg, kn, c, st);
    var f := Update(4, c.g, c.n, kg, kn);
    if GenAfter(kg, c.g) {
      var d := FlushAll(c);
      ReplaceTop(d, st, f, Update(5, c.g, c.n, kg, kn));
      ReplaceTop(c, st, f, f);
      OneStep(kg, kn, Running(c, st, f), Running(d, st, Update(5, c.g, c.n, kg, kn)), 3);
      ReplaceTop(d.(g := kg), st, Update(5, c.g, c.n, kg, kn), Update(6, c.g, c.n, kg, kn));
      ReplaceTop(d, st, Update(5, c.g, c.n, kg, kn), f);
      OneStep(kg, kn, Running(d, st, Update(5, c.g, c.n, kg, kn)), Running(d.(g := kg), st, Update(6, c.g, c.n, kg, kn)), 2);
      UpdateLast(kg, kn, d.(g := kg), st, c.g, 1);
    } else if GenAfter(kn, c.n) {
      var d := FlushLocal(c);
      ReplaceTop(d, st, f, Update(6, c.g, c.n, kg, kn));
      ReplaceTop(c, st, f, f);
      OneStep(kg, kn, Running(c, st, f), Running(d, st, Update(6, c.g, c.n, kg, kn)), 3);
      UpdateLast(kg, kn, d, st, c.g, 2);
    } else {
      ReplaceTop(c, st, f, f);
    }
  }

  /**
    cpu_tlbflush_local on its own ends in four steps: the normal counter is recorded, exactly the
    global translations stay cached, and nothing else changes.
   */
  lemma {:induction false} LocalAlone(kg: nat, kn: nat, c: Cpu)
    ensures var d := Steps(kg, kn, Running(c, c.stack, Local(0, 0, 0)), 4);
            d == c.(n := kn, tlb := Globals(c.tlb))
  {
    var st := c.stack;
    ReplaceTop(c, st, Local(0, 0, 0), Local(1, kn, 0));
    OneStep(kg, kn, Running(c, st, Local(0, 0, 0)), Running(c, st, Local(1, kn, 0)), 4);
    ReplaceTop(c, st, Local(1, kn, 0), Local(2, kn, c.n));
    OneStep(kg, kn, Running(c, st, Local(1, kn, 0)), Running(c, st, Local(2, kn, c.n)), 3);
    var d := FlushLocal(c);
    ReplaceTop(c, st, Local(2, kn, c.n), UPDATE_START);
    ReplaceTop(d, st, Local(2, kn, c.n), Local(3, kn, c.n));
    OneStep(kg, kn, Running(c, st, Local(2, kn, c.n)), Running(d, st, Local(3, kn, c.n)), 2);
    ReplaceTop(d, st, Local(3, kn, c.n), UPDATE_START);
    ReplaceTop(d.(n := kn), st, Local(3, kn, c.n), UPDATE_START);
  }

  /** After kmap_commit has made a processor run cpu_ktlb_update, it caches no stale translation. */
  lemma {:induction false} CommitCoherent(ncpus: nat, run: seq<Step>, i: nat)
    requires i < |Exec(Boot(ncpus), run).cpus| && Exec(Boot(ncpus), run).pending == {}
    ensures var s := Exec(Boot(ncpus), run);
            var c := s.cpus[i];
            var d := Steps(s.kg, s.kn, Running(c, c.stack, UPDATE_START), 7);
            forall e :: e in d.tlb ==> e.ver == |Hist(s, e.va)| - 1
  {
    ExecInv(ncpus, run);
    var s := Exec(Boot(ncpus), run);
    var c := s.cpus[i];
    assert CpuOk(s, c);
    UpdateAlone(s.kg, s.kn, c);
    assert FrameOk(s, c.tlb, UPDATE_START);
    StepsOk(s, Running(c, c.stack, UPDATE_START), 7);
    CaughtUp(s, Steps(s.kg, s.kn, Running(c, c.stack, UPDATE_START), 7));
  }

  lemma {:induction false} StepsOk(s: State, c: Cpu, n: nat)
    requires CpuOk(s, c) && c.stack != []
    ensures CpuOk(s, Steps(s.kg, s.kn, c, n))
    decreases n
  {
    if n > 0 {
      RunOk(s, c);
      var d := CpuStep(s.kg, s.kn, c);
      if !(|d.stack| < |c.stack| || d.stack == []) {
        StepsOk(s, d, n - 1);
      }
    }
  }

  // ----- recorded generations do not go back -----

  lemma {:induction false} CpusKept(s: State, a: Step)
    ensures |Apply(s, a).cpus| == |s.cpus|
  {
  }

  /** The global generation of a processor never decreases. */
  lemma {:induction false} GlobalMonotone(s: State, a: Step, i: nat)
    requires Inv(s) && i < |s.cpus|
    ensures Apply(s, a).cpus[i].g >= s.cpus[i].g
  {
    if Enabled(s, a) && a == Run(i) {
      var c := s.cpus[i];
      assert CpuOk(s, c);
      assert FrameOk(s, c.tlb, c.stack[|c.stack| - 1]);
    }
  }

  lemma {:induction false} GlobalNeverBack(ncpus: nat, run: seq<Step>, more: seq<Step>, i: nat)
    requires i < ncpus
    ensures |Exec(Boot(ncpus), run).cpus| == |Exec(Boot(ncpus), run + more).cpus| == ncpus
    ensures Exec(Boot(ncpus), run).cpus[i].g <= Exec(Boot(ncpus), run + more).cpus[i].g
    decreases |run| + 2 * |more|
  {
    if more == [] {
      assert run + more == run;
      CpuCount(ncpus, run);
    } else {
      var m := more[..|more| - 1];
      GlobalNeverBack(ncpus, run, m, i);
      assert (run + more)[..|run + more| - 1] == run + m;
      var s := Exec(Boot(ncpus), run + m);
      ExecInv(ncpus, run + m);
      CpusKept(s, more[|more| - 1]);
      GlobalMonotone(s, more[|more| - 1], i);
    }
  }

  lemma {:induction false} CpuCount(ncpus: nat, run: seq<Step>)
    ensures |Exec(Boot(ncpus), run).cpus| == ncpus
    decreases |run|
  {
    if run != [] {
      CpuCount(ncpus, run[..|run| - 1]);
      CpusKept(Exec(Boot(ncpus), run[..|run| - 1]), run[|run| - 1]);
    }
  }

  /**
    cpu_tlbflush_local about to store a generation older than the recorded one: it read the
    global counter first, and another activation updated the recorded generation before it read that.
   */
  predicate Late(c: Cpu) {
    && c.stack != []
    && var f := c.stack[|c.stack| - 1];
       f.Local? && f.pc >= 3 && f.cn == c.n && f.kn < f.cn
  }

  /** The normal generation of a processor decreases in a step exactly when it is such a store. */
  lemma {:induction false} NormalBackIff(s: State, a: Step, i: nat)
    requires Inv(s) && i < |s.cpus|
    ensures Apply(s, a).cpus[i].n < s.cpus[i].n <==> a == Run(i) && Late(s.cpus[i])
  {
    if Enabled(s, a) && a == Run(i) {
      var c := s.cpus[i];
      assert CpuOk(s, c);
      assert FrameOk(s, c.tlb, c.stack[|c.stack| - 1]);
    }
  }

  /** cpu_tlbflush_local is between its two loads: it has read the counter, but not the recorded generation. */
  predicate Open(c: Cpu) {
    c.stack != [] && c.stack[|c.stack| - 1].Local? && c.stack[|c.stack| - 1].pc == 1
  }

  /** No activation starts on a processor between the two loads of its cpu_tlbflush_local. */
  predicate Masked(s: State, a: Step) {
    a.Enter? && a.cpu < |s.cpus| ==> !Open(s.cpus[a.cpu])
  }

  ghost predicate MaskedFrom(s: State, run: seq<Step>)
    decreases |run|
  {
    run == [] || (MaskedFrom(s, run[..|run| - 1]) && Masked(Exec(s, run[..|run| - 1]), run[|run| - 1]))
  }

  ghost predicate MaskedRun(ncpus: nat, run: seq<Step>) {
    MaskedFrom(Boot(ncpus), run)
  }

  /** In a masked run an interrupted flush has either read nothing, or a pair of generations in order. */
  ghost predicate InOrder(c: Cpu) {
    forall k :: 0 <= k < |c.stack| && c.stack[k].Local? ==>
      var f := c.stack[k];
      (f.pc == 1 ==> k == |c.stack| - 1 && c.n <= f.kn) && (f.pc >= 2 ==> f.cn <= f.kn)
  }

  lemma {:induction false} InOrderStep(s: State, a: Step, i: nat)
    requires Inv(s) && i < |s.cpus| && InOrder(s.cpus[i]) && Masked(s, a)
    ensures InOrder(Apply(s, a).cpus[i])
  {
    if Enabled(s, a) && a == Run(i) {
      var c := s.cpus[i];
      assert CpuOk(s, c);
      InOrderRun(s.kg, s.kn, c);
    }
  }

  lemma {:induction false} InOrderRun(kg: nat, kn: nat, c: Cpu)
    requires c.stack != [] && InOrder(c) && c.n <= kn
    ensures InOrder(CpuStep(kg, kn, c))
  {
    var d := CpuStep(kg, kn, c);
    forall k | 0 <= k < |d.stack| && d.stack[k].Local?
      ensures var f := d.stack[k];
              (f.pc == 1 ==> k == |d.stack| - 1 && d.n <= f.kn) && (f.pc >= 2 ==> f.cn <= f.kn)
    {
      if k < |c.stack| - 1 {
        assert d.stack[k] == c.stack[k];
      } else {
        assert c.stack[k].Local?;
      }
    }
  }

  /** The normal generation of a processor never decreases in a masked run. */
  lemma {:induction false} NormalNeverBack(ncpus: nat, run: seq<Step>, more: seq<Step>, i: nat)
    requires i < ncpus && MaskedRun(ncpus, run + more)
    ensures |Exec(Boot(ncpus), run).cpus| == |Exec(Boot(ncpus), run + more).cpus| == ncpus
    ensures InOrder(Exec(Boot(ncpus), run + more).cpus[i])
    ensures Exec(Boot(ncpus), run).cpus[i].n <= Exec(Boot(ncpus), run + more).cpus[i].n
    decreases |run| + 2 * |more|
  {
    CpuCount(ncpus, run);
    if more == [] {
      assert run + more == run;
      if run != [] {
        var r := run[..|run| - 1];
        assert r + [] == r;
        NormalNeverBack(ncpus, r, [], i);
        ExecInv(ncpus, r);
        InOrderStep(Exec(Boot(ncpus), r), run[|run| - 1], i);
      }
    } else {
      var m := more[..|more| - 1];
      assert (run + more)[..|run + more| - 1] == run + m;
      NormalNeverBack(ncpus, run, m, i);
      var s := Exec(Boot(ncpus), run + m);
      ExecInv(ncpus, run + m);
      CpusKept(s, more[|more| - 1]);
      InOrderStep(s, more[|more| - 1], i);
      NormalBackIff(s, more[|more| - 1], i);
    }
  }

  lemma {:induction false} ExecConcat(s: State, run: seq<Step>, more: seq<Step>)
    ensures Exec(s, run + more) == Exec(Exec(s, run), more)
    decreases |more|
  {
    if more == [] {
      assert run + more == run;
    } else {
      assert (run + more)[..|run + more| - 1] == run + more[..|more| - 1];
      ExecConcat(s, run, more[..|more| - 1]);
    }
  }

  lemma {:induction false} MaskedConcat(s: State, run: seq<Step>, more: seq<Step>)
    requires MaskedFrom(s, run) && MaskedFrom(Exec(s, run), more)
    ensures MaskedFrom(s, run + more)
    decreases |more|
  {
    if more == [] {
      assert run + more == run;
    } else {
      assert (run + more)[..|run + more| - 1] == run + more[..|more| - 1];
      MaskedConcat(s, run, more[..|more| - 1]);
      ExecConcat(s, run, more[..|more| - 1]);
    }
  }

  ghost predicate NoEnter(run: seq<Step>) {
    forall k :: 0 <= k < |run| ==> !run[k].Enter?
  }

  lemma {:induction false} NoEnterMasked(s: State, run: seq<Step>)
    requires NoEnter(run)
    ensures MaskedFrom(s, run)
    decreases |run|
  {
    if run != [] {
      NoEnterMasked(s, run[..|run| - 1]);
    }
  }

  lemma {:induction false} ExecOne(s: State, a: Step)
    ensures Exec(s, [a]) == Apply(s, a)
  {
    assert [a][..0] == [];
  }

  /** The activation on top of processor `i` runs until it returns, or for `n` steps. */
  lemma {:induction false} RunSteps(s: State, i: nat, n: nat) returns (more: seq<Step>)
    requires i < |s.cpus| && s.cpus[i].stack != []
    ensures NoEnter(more) && Exec(s, more) == WithCpu(s, i, Steps(s.kg, s.kn, s.cpus[i], n))
    ensures |more| <= n && forall k :: 0 <= k < |more| ==> more[k] == Run(i)
    decreases n
  {
    hide CpuStep;
    more := [];
    if n > 0 {
      var t := Apply(s, Run(i));
      ExecOne(s, Run(i));
      more := [Run(i)];
      if |t.cpus[i].stack| >= |s.cpus[i].stack| {
        var rest := RunSteps(t, i, n - 1);
        ExecConcat(s, more, rest);
        more := more + rest;
      }
    }
  }

  /** A change of a non-global mapping raises the normal counter. */
  lemma {:induction false} RaiseNormal(s: State) returns (more: seq<Step>)
    ensures var t := Exec(s, more);
            NoEnter(more) && t.kg == s.kg && t.kn == s.kn + 1 && t.cpus == s.cpus
  {
    var w := WritePte(0, Pte(true, false, 0));
    var m := MarkDirty(0, |Hist(s, 0)| + 1);
    var s1 := Apply(s, w);
    var s2 := Apply(s1, w);
    ExecOne(s, w);
    ExecOne(s1, w);
    ExecOne(s2, m);
    ExecConcat(s, [w], [w]);
    ExecConcat(s, [w] + [w], [m]);
    more := [w] + [w] + [m];
    assert Hist(s1, 0) == Hist(s, 0) + [w.pte] && Hist(s2, 0) == Hist(s1, 0) + [w.pte];
  }

  /** The rest of a flush whose recorded generation was raised in the window: the store of an older one is next. */
  lemma {:induction false} LateStore(s: State, i: nat) returns (more: seq<Step>)
    requires i < |s.cpus| && Open(s.cpus[i])
    ensures var c := s.cpus[i];
            var t := Exec(s, more);
            && NoEnter(more) && |t.cpus| == |s.cpus| && t.cpus[i].n == c.n && t.cpus[i].stack != []
            && t.cpus[i].stack[|t.cpus[i].stack| - 1] == Local(3, c.stack[|c.stack| - 1].kn, c.n)
  {
    var c := s.cpus[i];
    var st, f := c.stack[..|c.stack| - 1], c.stack[|c.stack| - 1];
    assert c == Running(c, st, f);
    ReplaceTop(c, st, f, Local(2, f.kn, c.n));
    var d := Running(c, st, Local(2, f.kn, c.n));
    OneStep(s.kg, s.kn, c, d, 2);
    ReplaceTop(c, st, Local(2, f.kn, c.n), UPDATE_START);
    ReplaceTop(FlushLocal(c), st, Local(2, f.kn, c.n), Local(3, f.kn, c.n));
    var e := Running(FlushLocal(c), st, Local(3, f.kn, c.n));
    OneStep(s.kg, s.kn, d, e, 1);
    more := RunSteps(s, i, 2);
  }

  /** In a run that goes on from `s` with `more`, step `a` lowers the normal generation of processor `i`. */
  ghost predicate GoesBack(s: State, i: nat, more: seq<Step>, a: Step) {
    var t := Exec(s, more);
    i < |t.cpus| && i < |Apply(t, a).cpus| && Apply(t, a).cpus[i].n < t.cpus[i].n
  }

  lemma {:induction false} StoresOlder(s: State, i: nat)
    requires i < |s.cpus| && Late(s.cpus[i])
    ensures i < |Apply(s, Run(i)).cpus| && Apply(s, Run(i)).cpus[i].n < s.cpus[i].n
  {
  }

  lemma {:induction false} OpenBounds(s: State, i: nat)
    requires Inv(s) && i < |s.cpus| && Open(s.cpus[i])
    ensures var c := s.cpus[i];
            c.g <= s.kg && c.n <= s.kn && c.stack[|c.stack| - 1].kn <= s.kn
  {
    var c := s.cpus[i];
    assert CpuOk(s, c) && FrameOk(s, c.tlb, c.stack[|c.stack| - 1]);
  }

  /** Wherever a run has the window open, an update that comes in there makes the normal generation go back. */
  lemma {:induction false} NormalBackIfOpen(ncpus: nat, run: seq<Step>, i: nat) returns (more: seq<Step>, a: Step)
    requires i < |Exec(Boot(ncpus), run).cpus| && Open(Exec(Boot(ncpus), run).cpus[i])
    ensures NoEnter(more + [a]) && GoesBack(Apply(Exec(Boot(ncpus), run), Enter(i, UPDATE_START)), i, more, a)
  {
    hide Exec, Inv, Steps, CpuStep;
    ExecInv(ncpus, run);
    var s := Exec(Boot(ncpus), run);
    var c := s.cpus[i];
    OpenBounds(s, i);
    var s0 := Apply(s, Enter(i, UPDATE_START));
    var raise := RaiseNormal(s0);
    var s1 := Exec(s0, raise);
    UpdateAlone(s1.kg, s1.kn, c);
    var update := RunSteps(s1, i, 7);
    var s2 := Exec(s1, update);
    assert s2.cpus[i].stack == c.stack && s2.cpus[i].n == s.kn + 1;
    var flush := LateStore(s2, i);
    ExecConcat(s0, raise, update);
    ExecConcat(s0, raise + update, flush);
    more := raise + update + flush;
    a := Run(i);
    StoresOlder(Exec(s0, more), i);
  }

  /**
    The exact condition: in a run masked so far, an update that comes in on a processor can make its
    normal generation go back, all else staying masked, if and only if it comes in between the two loads.
   */
  lemma {:induction false} WindowExact(ncpus: nat, run: seq<Step>, i: nat)
    requires i < |Exec(Boot(ncpus), run).cpus| && MaskedRun(ncpus, run)
    ensures var s := Exec(Boot(ncpus), run);
            var t := Apply(s, Enter(i, UPDATE_START));
            Open(s.cpus[i]) <==> exists more, a :: MaskedFrom(t, more + [a]) && GoesBack(t, i, more, a)
  {
    var s := Exec(Boot(ncpus), run);
    var e := Enter(i, UPDATE_START);
    var t := Apply(s, e);
    if Open(s.cpus[i]) {
      var more, a := NormalBackIfOpen(ncpus, run, i);
      NoEnterMasked(t, more + [a]);
    } else {
      forall more, a | MaskedFrom(t, more + [a])
        ensures !GoesBack(t, i, more, a)
      {
        StillMasked(ncpus, run, i, more, a);
      }
    }
  }

  lemma {:induction false} StillMasked(ncpus: nat, run: seq<Step>, i: nat, more: seq<Step>, a: Step)
    requires i < |Exec(Boot(ncpus), run).cpus| && MaskedRun(ncpus, run) && !Open(Exec(Boot(ncpus), run).cpus[i])
    requires MaskedFrom(Apply(Exec(Boot(ncpus), run), Enter(i, UPDATE_START)), more + [a])
    ensures !GoesBack(Apply(Exec(Boot(ncpus), run), Enter(i, UPDATE_START)), i, more, a)
  {
    CpuCount(ncpus, run);
    var e := Enter(i, UPDATE_START);
    var r := run + [e];
    assert r[..|r| - 1] == run;
    ExecConcat(Boot(ncpus), run, [e]);
    ExecOne(Exec(Boot(ncpus), run), e);
    MaskedConcat(Boot(ncpus), r, more + [a]);
    assert r + (more + [a]) == (r + more) + [a];
    NormalNeverBack(ncpus, r + more, [a], i);
    ExecConcat(Boot(ncpus), r, more);
    ExecConcat(Boot(ncpus), r + more, [a]);
    ExecOne(Exec(Boot(ncpus), r + more), a);
  }

  // ----- cpu_ktlb_reach -----

  /** What activation `f` may still store as generations is at least `g` and `n`. */
  predicate Stores(f: Frame, g: nat, n: nat) {
    && (f.Update? && f.pc >= 3 ==> f.kg >= g)
    && (f.Update? && f.pc >= 4 ==> f.kn >= n)
    && (f.Local? && f.pc >= 1 ==> f.kn >= n)
  }

  predicate StoresAtLeast(f: Frame, target: nat) {
    Stores(f, 0, target)
  }

  /** A step changes the activation on top, may call one more, and stores no less than it may. */
  lemma {:induction false} TopEffect(kg: nat, kn: nat, c: Cpu, g: nat, n: nat)
    requires c.stack != [] && g <= kg && n <= kn && Stores(c.stack[|c.stack| - 1], g, n)
    ensures var d := CpuStep(kg, kn, c);
            var top := |c.stack| - 1;
            && top <= |d.stack| <= top + 2
            && (forall k :: 0 <= k < top ==> d.stack[k] == c.stack[k])
            && (forall k :: top <= k < |d.stack| ==> Stores(d.stack[k], g, n))
            && (d.g == c.g || d.g >= g) && (d.n == c.n || d.n >= n)
  {
  }

  /** The update called by cpu_ktlb_reach has still to compare-and-swap, or its target is reached. */
  predicate Underway(f: Frame, n: nat, target: nat) {
    f.Update? && (f.pc >= 2 ==> f.cn == n || n >= target)
  }

  ghost predicate ReachAt(c: Cpu, j: nat)
    requires j < |c.stack| && c.stack[j].Reach?
  {
    var f := c.stack[j];
    && (forall k :: j < k < |c.stack| ==> StoresAtLeast(c.stack[k], f.target))
    && (f.pc == 1 ==> c.n == f.cn || c.n >= f.target)
    && (f.pc >= 2 ==> c.n >= f.target || (j + 1 < |c.stack| && Underway(c.stack[j + 1], c.n, f.target)))
  }

  ghost predicate ReachOk(c: Cpu) {
    forall j :: 0 <= j < |c.stack| && c.stack[j].Reach? ==> ReachAt(c, j)
  }

  lemma {:induction false} ReachStep(s: State, a: Step, i: nat)
    requires Inv(s) && i < |s.cpus| && ReachOk(s.cpus[i])
    ensures ReachOk(Apply(s, a).cpus[i])
  {
    var c := s.cpus[i];
    var d := Apply(s, a).cpus[i];
    if Enabled(s, a) && a == Run(i) {
      assert CpuOk(s, c);
      ReachRun(s, c);
    } else if Enabled(s, a) && a.Enter? && a.cpu == i {
      forall j | 0 <= j < |d.stack| && d.stack[j].Reach?
        ensures ReachAt(d, j)
      {
        if j < |c.stack| {
          assert ReachAt(c, j);
        }
      }
    } else {
      assert d.stack == c.stack && d.n == c.n;
      forall j | 0 <= j < |d.stack| && d.stack[j].Reach?
        ensures ReachAt(d, j)
      {
        assert ReachAt(c, j);
      }
    }
  }

  lemma {:induction false} ReachRun(s: State, c: Cpu)
    requires CpuOk(s, c) && c.stack != [] && ReachOk(c)
    ensures ReachOk(CpuStep(s.kg, s.kn, c))
  {
    var d := CpuStep(s.kg, s.kn, c);
    var top := |c.stack| - 1;
    assert FrameOk(s, c.tlb, c.stack[top]);
    forall j | 0 <= j < |d.stack| && d.stack[j].Reach?
      ensures ReachAt(d, j)
    {
      if j < top {
        assert d.stack[j] == c.stack[j];
        assert ReachAt(c, j);
        assert FrameOk(s, c.tlb, c.stack[j]);
        ReachBelow(s, c, j);
      } else {
        assert ReachAt(c, top);
      }
    }
  }

  /** A step of the activation on top, seen from a cpu_ktlb_reach below it. */
  lemma {:induction false} ReachBelow(s: State, c: Cpu, j: nat)
    requires CpuOk(s, c) && j < |c.stack| - 1 && c.stack[j].Reach? && ReachAt(c, j)
    requires c.stack[j].target <= s.kn
    ensures var d := CpuStep(s.kg, s.kn, c);
            j < |d.stack| && d.stack[j] == c.stack[j] && ReachAt(d, j)
  {
    var d := CpuStep(s.kg, s.kn, c);
    var top := |c.stack| - 1;
    var target := c.stack[j].target;
    assert StoresAtLeast(c.stack[top], target);
    TopEffect(s.kg, s.kn, c, 0, target);
    forall k | j < k < |d.stack|
      ensures StoresAtLeast(d.stack[k], target)
    {
      if k < top {
        assert d.stack[k] == c.stack[k];
      }
    }
    if j + 1 == top && c.stack[j].pc >= 2 && c.n < target {
      UnderwayStep(s, c, target);
    }
  }

  /** A step of the update that cpu_ktlb_reach called. */
  lemma {:induction false} UnderwayStep(s: State, c: Cpu, target: nat)
    requires CpuOk(s, c) && c.stack != [] && target <= s.kn
    requires var f := c.stack[|c.stack| - 1];
             Underway(f, c.n, target) && StoresAtLeast(f, target)
    ensures var d := CpuStep(s.kg, s.kn, c);
            d.n >= target || (|d.stack| == |c.stack| && Underway(d.stack[|d.stack| - 1], d.n, target))
  {
    assert FrameOk(s, c.tlb, c.stack[|c.stack| - 1]);
  }

  lemma {:induction false} ExecReach(ncpus: nat, run: seq<Step>, i: nat)
    requires i < ncpus
    ensures |Exec(Boot(ncpus), run).cpus| == ncpus && ReachOk(Exec(Boot(ncpus), run).cpus[i])
    decreases |run|
  {
    CpuCount(ncpus, run);
    if run != [] {
      var r := run[..|run| - 1];
      ExecReach(ncpus, r, i);
      ExecInv(ncpus, r);
      ReachStep(Exec(Boot(ncpus), r), run[|run| - 1], i);
    }
  }

  /** When cpu_ktlb_reach returns, whatever interrupted it, the normal generation is at least its target. */
  lemma {:induction false} ReachReturns(ncpus: nat, run: seq<Step>, i: nat)
    requires i < ncpus && |Exec(Boot(ncpus), run).cpus| == ncpus
    requires var c := Exec(Boot(ncpus), run).cpus[i];
             c.stack != [] && c.stack[|c.stack| - 1].Reach?
    ensures var s := Exec(Boot(ncpus), run);
            var c := s.cpus[i];
            var d := Apply(s, Run(i)).cpus[i];
            |d.stack| < |c.stack| ==> d.n >= c.stack[|c.stack| - 1].target
  {
    ExecReach(ncpus, run, i);
    var c := Exec(Boot(ncpus), run).cpus[i];
    assert ReachAt(c, |c.stack| - 1);
  }

  // ----- cpu_ktlb_update in any run -----

  /** An update begun at generations `g` and `n` has what it loaded, or later activations stored enough. */
  predicate Begun(f: Frame, c: Cpu, g: nat, n: nat) {
    && f.Update? && Stores(f, g, n)
    && (f.pc >= 1 ==> f.cg == c.g || c.g >= g)
    && (f.pc >= 2 ==> f.cn == c.n || c.n >= n)
    && (f.pc >= 6 ==> c.g >= g)
  }

  /** Activation `j` is such an update, and those above it started later. */
  ghost predicate UpdateAt(c: Cpu, j: nat, g: nat, n: nat) {
    && j < |c.stack| && Begun(c.stack[j], c, g, n)
    && forall k :: j < k < |c.stack| ==> Stores(c.stack[k], g, n)
  }

  /** A step of the update itself: it goes on, or it returns with both generations recorded. */
  lemma {:induction false} BegunStep(s: State, c: Cpu, g: nat, n: nat)
    requires CpuOk(s, c) && c.stack != [] && g <= s.kg && n <= s.kn && Begun(c.stack[|c.stack| - 1], c, g, n)
    ensures var d := CpuStep(s.kg, s.kn, c);
            if |d.stack| < |c.stack| then d.g >= g && d.n >= n
            else |d.stack| == |c.stack| && Begun(d.stack[|d.stack| - 1], d, g, n)
  {
    assert FrameOk(s, c.tlb, c.stack[|c.stack| - 1]);
  }

  /** A step of the processor, seen from the update. */
  lemma {:induction false} UpdateRun(s: State, c: Cpu, j: nat, g: nat, n: nat)
    requires CpuOk(s, c) && UpdateAt(c, j, g, n) && g <= s.kg && n <= s.kn
    ensures var d := CpuStep(s.kg, s.kn, c);
            if |d.stack| == j then d.g >= g && d.n >= n else |d.stack| > j && UpdateAt(d, j, g, n)
  {
    var top := |c.stack| - 1;
    assert Stores(c.stack[top], g, n);
    TopEffect(s.kg, s.kn, c, g, n);
    if j == top {
      BegunStep(s, c, g, n);
    } else {
      var d := CpuStep(s.kg, s.kn, c);
      assert d.stack[j] == c.stack[j];
      forall k | j < k < |d.stack|
        ensures Stores(d.stack[k], g, n)
      {
        if k < top {
          assert d.stack[k] == c.stack[k];
        }
      }
    }
  }

  lemma {:induction false} UpdateStep(s: State, a: Step, i: nat, j: nat, g: nat, n: nat)
    requires Inv(s) && i < |s.cpus| && UpdateAt(s.cpus[i], j, g, n) && g <= s.kg && n <= s.kn
    ensures var t := Apply(s, a);
            && |t.cpus| == |s.cpus| && g <= t.kg && n <= t.kn
            && if |t.cpus[i].stack| == j then t.cpus[i].g >= g && t.cpus[i].n >= n
               else |t.cpus[i].stack| > j && UpdateAt(t.cpus[i], j, g, n)
  {
    var c, d := s.cpus[i], Apply(s, a).cpus[i];
    if Enabled(s, a) && a == Run(i) {
      assert CpuOk(s, c);
      UpdateRun(s, c, j, g, n);
    } else if Enabled(s, a) && a.Enter? && a.cpu == i {
      assert forall k :: 0 <= k < |c.stack| ==> d.stack[k] == c.stack[k];
    } else {
      assert d.stack == c.stack && d.n == c.n && d.g == c.g;
    }
  }

  /** In all states of `more` but the last, processor `i` has more than `j` activations. */
  ghost predicate StaysAbove(s: State, more: seq<Step>, i: nat, j: nat)
    decreases |more|
  {
    more == [] ||
    (var t := Exec(s, more[..|more| - 1]);
     i < |t.cpus| && |t.cpus[i].stack| > j && StaysAbove(s, more[..|more| - 1], i, j))
  }

  lemma {:induction false} InvExec(s: State, more: seq<Step>)
    requires Inv(s)
    ensures Inv(Exec(s, more))
    decreases |more|
  {
    if more != [] {
      InvExec(s, more[..|more| - 1]);
      StepInv(Exec(s, more[..|more| - 1]), more[|more| - 1]);
    }
  }

  lemma {:induction false} UpdateInside(s: State, more: seq<Step>, i: nat, j: nat, g: nat, n: nat)
    requires Inv(s) && i < |s.cpus| && UpdateAt(s.cpus[i], j, g, n) && g <= s.kg && n <= s.kn
    requires StaysAbove(s, more, i, j)
    ensures var t := Exec(s, more);
            && |t.cpus| == |s.cpus| && g <= t.kg && n <= t.kn
            && if |t.cpus[i].stack| == j then t.cpus[i].g >= g && t.cpus[i].n >= n
               else |t.cpus[i].stack| > j && UpdateAt(t.cpus[i], j, g, n)
    decreases |more|
  {
    if more != [] {
      var m := more[..|more| - 1];
      UpdateInside(s, m, i, j, g, n);
      InvExec(s, m);
      UpdateStep(Exec(s, m), more[|more| - 1], i, j, g, n);
    }
  }

  /**
    An update that begins when the counters are `s.kg` and `s.kn` returns with at least these
    generations recorded, whatever runs and interrupts it meanwhile.
   */
  lemma {:induction false} UpdateReturns(ncpus: nat, run: seq<Step>, more: seq<Step>, i: nat)
    requires i < ncpus && |Exec(Boot(ncpus), run).cpus| == ncpus
    requires var s := Exec(Boot(ncpus), run);
             StaysAbove(Apply(s, Enter(i, UPDATE_START)), more, i, |s.cpus[i].stack|)
    ensures var s := Exec(Boot(ncpus), run);
            var t := Exec(Apply(s, Enter(i, UPDATE_START)), more);
            && |t.cpus| == ncpus
            && (|t.cpus[i].stack| <= |s.cpus[i].stack| ==> t.cpus[i].g >= s.kg && t.cpus[i].n >= s.kn)
  {
    ExecInv(ncpus, run);
    var s := Exec(Boot(ncpus), run);
    var s' := Apply(s, Enter(i, UPDATE_START));
    StepInv(s, Enter(i, UPDATE_START));
    assert UpdateAt(s'.cpus[i], |s.cpus[i].stack|, s.kg, s.kn);
    UpdateInside(s', more, i, |s.cpus[i].stack|, s.kg, s.kn);
  }

  /** So the processor then caches no translation that a change marked before replaced. */
  lemma {:induction false} CommitReturns(ncpus: nat, run: seq<Step>, more: seq<Step>, i: nat, e: Cached)
    requires i < ncpus && |Exec(Boot(ncpus), run).cpus| == ncpus
    requires var s := Exec(Boot(ncpus), run);
             StaysAbove(Apply(s, Enter(i, UPDATE_START)), more, i, |s.cpus[i].stack|)
    ensures var s := Exec(Boot(ncpus), run);
            var t := Exec(Apply(s, Enter(i, UPDATE_START)), more);
            && |t.cpus| == ncpus
            && (|t.cpus[i].stack| <= |s.cpus[i].stack| && e in t.cpus[i].tlb ==> (e.va, e.ver + 1) !in s.marks)
  {
    UpdateReturns(ncpus, run, more, i);
    ExecInv(ncpus, run);
    var s := Exec(Boot(ncpus), run);
    var s' := Apply(s, Enter(i, UPDATE_START));
    var t := Exec(s', more);
    StepInv(s, Enter(i, UPDATE_START));
    InvExec(s', more);
    MarksKept(s', more);
    if |t.cpus[i].stack| <= |s.cpus[i].stack| && e in t.cpus[i].tlb {
      assert CpuOk(t, t.cpus[i]) && LogOk(t) && LogOk(s);
      Fresh1(s, t, t.cpus[i], e);
    }
  }

  lemma {:induction false} Fresh1(s: State, t: State, c: Cpu, e: Cached)
    requires LogOk(s) && LogOk(t) && CpuOk(t, c) && e in c.tlb && c.g >= s.kg && c.n >= s.kn
    requires forall k :: k in s.marks ==> k in t.marks && t.marks[k] == s.marks[k]
    ensures (e.va, e.ver + 1) !in s.marks
  {
  }

  /** Marks stay. */
  lemma {:induction false} MarksKept(s: State, more: seq<Step>)
    requires Inv(s)
    ensures forall k :: k in s.marks ==> k in Exec(s, more).marks && Exec(s, more).marks[k] == s.marks[k]
    decreases |more|
  {
    if more != [] {
      var m := more[..|more| - 1];
      MarksKept(s, m);
      InvExec(s, m);
      MarksStep(Exec(s, m), more[|more| - 1]);
    }
  }

  lemma {:induction false} MarksStep(s: State, a: Step)
    requires LogOk(s)
    ensures forall k :: k in s.marks ==> k in Apply(s, a).marks && Apply(s, a).marks[k] == s.marks[k]
  {
  }

  // ----- a local flush in any run -----

  /** The flush at index `j` has not come to its TLB operation, or `e` is gone. */
  ghost predicate FlushAt(c: Cpu, j: nat, e: Cached) {
    j < |c.stack| && c.stack[j].Local? && (c.stack[j].pc >= 3 ==> e !in c.tlb)
  }

  /** No step caches the page of `e` on processor `i`. */
  ghost predicate NotFilled(run: seq<Step>, i: nat, va: Va) {
    forall k :: 0 <= k < |run| ==> run[k] != Fill(i, va)
  }

  /** A processor's own step, seen from the flush. */
  lemma {:induction false} FlushRun(kg: nat, kn: nat, c: Cpu, j: nat, e: Cached)
    requires FlushAt(c, j, e) && !e.global
    ensures var d := CpuStep(kg, kn, c);
            if |d.stack| == j then e !in d.tlb else |d.stack| > j && FlushAt(d, j, e)
  {
  }

  lemma {:induction false} FlushStep(s: State, a: Step, i: nat, j: nat, e: Cached)
    requires i < |s.cpus| && FlushAt(s.cpus[i], j, e) && !e.global && a != Fill(i, e.va)
    ensures var t := Apply(s, a);
            && |t.cpus| == |s.cpus|
            && if |t.cpus[i].stack| == j then e !in t.cpus[i].tlb else |t.cpus[i].stack| > j && FlushAt(t.cpus[i], j, e)
  {
    CpusKept(s, a);
    if Enabled(s, a) && a == Run(i) {
      FlushRun(s.kg, s.kn, s.cpus[i], j, e);
    }
  }

  lemma {:induction false} FlushInside(s: State, more: seq<Step>, i: nat, j: nat, e: Cached)
    requires i < |s.cpus| && FlushAt(s.cpus[i], j, e) && !e.global && NotFilled(more, i, e.va) && StaysAbove(s, more, i, j)
    ensures var t := Exec(s, more);
            && |t.cpus| == |s.cpus|
            && if |t.cpus[i].stack| == j then e !in t.cpus[i].tlb else |t.cpus[i].stack| > j && FlushAt(t.cpus[i], j, e)
    decreases |more|
  {
    if more != [] {
      var m := more[..|more| - 1];
      FlushInside(s, m, i, j, e);
      FlushStep(Exec(s, m), more[|more| - 1], i, j, e);
    }
  }

  /**
    In any run, when cpu_tlbflush_local returns, whatever interrupted it and whatever other processors
    did, a non-global translation is cached only if its page was cached again after the call began.
   */
  lemma {:induction false} LocalReturns(ncpus: nat, run: seq<Step>, more: seq<Step>, i: nat, e: Cached)
    requires i < ncpus && |Exec(Boot(ncpus), run).cpus| == ncpus && !e.global && NotFilled(more, i, e.va)
    requires var s := Exec(Boot(ncpus), run);
             StaysAbove(Apply(s, Enter(i, Local(0, 0, 0))), more, i, |s.cpus[i].stack|)
    ensures var s := Exec(Boot(ncpus), run);
            var t := Exec(Apply(s, Enter(i, Local(0, 0, 0))), more);
            |t.cpus| == ncpus && (|t.cpus[i].stack| <= |s.cpus[i].stack| ==> e !in t.cpus[i].tlb)
  {
    var s := Exec(Boot(ncpus), run);
    var s' := Apply(s, Enter(i, Local(0, 0, 0)));
    assert FlushAt(s'.cpus[i], |s.cpus[i].stack|, e);
    FlushInside(s', more, i, |s.cpus[i].stack|, e);
  }

  // ----- cpu_ktlb_reach on its own -----

  /** Its first two steps: load the recorded generation, then return or call cpu_ktlb_update. */
  lemma {:induction false} ReachTest(s: State, i: nat, target: nat)
    requires i < |s.cpus| && target <= s.kn
    ensures var c := s.cpus[i];
            var t := Exec(Apply(s, Enter(i, Reach(0, target, 0))), [Run(i)] + [Run(i)]);
            var d := Running(c, c.stack, Reach(2, target, c.n));
            t == WithCpu(s, i, if GenAfter(target, c.n) then Running(d, d.stack, UPDATE_START) else c)
  {
    var c := s.cpus[i];
    var s0 := Apply(s, Enter(i, Reach(0, target, 0)));
    var s1 := Apply(s0, Run(i));
    ReplaceTop(c, c.stack, Reach(0, target, 0), Reach(1, target, c.n));
    assert s1.cpus[i] == Running(c, c.stack, Reach(1, target, c.n));
    ReplaceTop(c, c.stack, Reach(1, target, c.n), Reach(2, target, c.n));
    ExecOne(s0, Run(i));
    ExecOne(s1, Run(i));
    ExecConcat(s0, [Run(i)], [Run(i)]);
    assert Apply(s1, Run(i)).cpus == s.cpus[i := Apply(s1, Run(i)).cpus[i]];
  }

  /** Its last step. */
  lemma {:induction false} ReachEnd(s: State, i: nat, st: seq<Frame>, target: nat, cn: nat)
    requires i < |s.cpus| && s.cpus[i].stack == st + [Reach(2, target, cn)]
    ensures Exec(s, [Run(i)]) == WithCpu(s, i, s.cpus[i].(stack := st))
  {
    var c := s.cpus[i].(stack := st);
    ReplaceTop(c, st, Reach(2, target, cn), UPDATE_START);
    assert s.cpus[i] == Running(c, st, Reach(2, target, cn));
    ExecOne(s, Run(i));
  }

  /**
    cpu_ktlb_reach on its own returns within ten steps: it leaves a processor that has recorded the
    target alone, and otherwise records both counters.
   */
  lemma {:induction false} ReachAlone(ncpus: nat, run: seq<Step>, i: nat, target: nat) returns (more: seq<Step>)
    requires i < |Exec(Boot(ncpus), run).cpus| && target <= Exec(Boot(ncpus), run).kn
    ensures |more| <= 10 && forall k :: 0 <= k < |more| ==> more[k] == Run(i)
    ensures var s := Exec(Boot(ncpus), run);
            var t := Exec(Apply(s, Enter(i, Reach(0, target, 0))), more);
            var c := s.cpus[i];
            && |t.cpus| == |s.cpus| && t.cpus[i].stack == c.stack && t.cpus[i].n >= target
            && (if GenAfter(target, c.n) then t.cpus[i].g == s.kg && t.cpus[i].n == s.kn && t.cpus[i].tlb == KeptBy(s.kg, s.kn, c)
                else t.cpus[i] == c)
  {
    ExecInv(ncpus, run);
    hide Exec, Inv, Apply, CpuStep, Steps;
    var s := Exec(Boot(ncpus), run);
    var c := s.cpus[i];
    Recorded(s, i);
    var s0 := Apply(s, Enter(i, Reach(0, target, 0)));
    ReachTest(s, i, target);
    more := [Run(i)] + [Run(i)];
    if GenAfter(target, c.n) {
      var s2 := Exec(s0, more);
      var d := Running(c, c.stack, Reach(2, target, c.n));
      UpdateAlone(s2.kg, s2.kn, d);
      var update := RunSteps(s2, i, 7);
      var s3 := Exec(s2, update);
      ReachEnd(s3, i, c.stack, target, c.n);
      ExecConcat(s0, more, update);
      ExecConcat(s0, more + update, [Run(i)]);
      more := more + update + [Run(i)];
    }
  }

  lemma {:induction false} Recorded(s: State, i: nat)
    requires Inv(s) && i < |s.cpus|
    ensures s.cpus[i].g <= s.kg && s.cpus[i].n <= s.kn
  {
    assert CpuOk(s, s.cpus[i]);
  }

  // ----- what the protocol does not guarantee -----

  lemma {:induction false} Extend(s: State, run: seq<Step>, a: Step)
    ensures Exec(s, run + [a]) == Apply(Exec(s, run), a)
  {
    assert (run + [a])[..|run|] == run;
  }

  /** One processor in state `c`, and the history `h` of page 0. */
  ghost predicate At(s: State, kg: nat, kn: nat, h: seq<Pte>, c: Cpu) {
    s.kg == kg && s.kn == kn && Hist(s, 0) == h && s.cpus == [c]
  }

  lemma {:induction false} ThenWrite(run: seq<Step>, kg: nat, kn: nat, h: seq<Pte>, c: Cpu, p: Pte) returns (run': seq<Step>)
    requires At(Exec(Boot(1), run), kg, kn, h, c)
    ensures var s, t := Exec(Boot(1), run), Exec(Boot(1), run');
            && At(t, kg, kn, h + [p], c) && t.marks == s.marks
            && h != [] && (!TlbOpOf(Last(h), p).OpNone? ==> (0, |h|) in t.pending)
  {
    run' := run + [WritePte(0, p)];
    Extend(Boot(1), run, WritePte(0, p));
  }

  lemma {:induction false} ThenMark(run: seq<Step>, kg: nat, kn: nat, h: seq<Pte>, c: Cpu, ver: nat) returns (run': seq<Step>)
    requires At(Exec(Boot(1), run), kg, kn, h, c) && (0, ver) in Exec(Boot(1), run).pending && 0 < ver < |h|
    ensures var s, t := Exec(Boot(1), run), Exec(Boot(1), run');
            var all := TlbOpOf(h[ver - 1], h[ver]).OpFlushAll?;
            && At(t, if all then kg + 1 else kg, if all then kn else kn + 1, h, c)
            && t.marks == s.marks[(0, ver) := Mark(all, if all then kg + 1 else kn + 1)]
  {
    run' := run + [MarkDirty(0, ver)];
    Extend(Boot(1), run, MarkDirty(0, ver));
  }

  lemma {:induction false} ThenFill(run: seq<Step>, kg: nat, kn: nat, h: seq<Pte>, c: Cpu) returns (run': seq<Step>)
    requires At(Exec(Boot(1), run), kg, kn, h, c) && h != [] && Last(h).present
    ensures At(Exec(Boot(1), run'), kg, kn, h, c.(tlb := c.tlb + {Cached(0, |h| - 1, Last(h).global)}))
    ensures Exec(Boot(1), run').marks == Exec(Boot(1), run).marks
  {
    run' := run + [Fill(0, 0)];
    Extend(Boot(1), run, Fill(0, 0));
    var d := c.(tlb := c.tlb + {Cached(0, |h| - 1, Last(h).global)});
    assert [c][0 := d] == [d];
  }

  lemma {:induction false} ThenEnter(run: seq<Step>, kg: nat, kn: nat, h: seq<Pte>, c: Cpu, f: Frame) returns (run': seq<Step>)
    requires At(Exec(Boot(1), run), kg, kn, h, c) && (f == UPDATE_START || f == Local(0, 0, 0))
    ensures At(Exec(Boot(1), run'), kg, kn, h, c.(stack := c.stack + [f]))
    ensures Exec(Boot(1), run').marks == Exec(Boot(1), run).marks
  {
    run' := run + [Enter(0, f)];
    Extend(Boot(1), run, Enter(0, f));
    var d := c.(stack := c.stack + [f]);
    assert [c][0 := d] == [d];
  }

  lemma {:induction false} ThenRun(run: seq<Step>, kg: nat, kn: nat, h: seq<Pte>, c: Cpu) returns (run': seq<Step>)
    requires At(Exec(Boot(1), run), kg, kn, h, c) && c.stack != []
    ensures run' == run + [Run(0)]
    ensures At(Exec(Boot(1), run'), kg, kn, h, CpuStep(kg, kn, c))
    ensures Exec(Boot(1), run').marks == Exec(Boot(1), run).marks
  {
    run' := run + [Run(0)];
    Extend(Boot(1), run, Run(0));
    var d := CpuStep(kg, kn, c);
    assert [c][0 := d] == [d];
  }

  lemma {:induction false} OnTop(st: seq<Frame>, f: Frame, f': Frame)
    ensures var stack := st + [f];
            stack[|stack| - 1] == f && stack[..|stack| - 1] + [f'] == st + [f'] && stack[..|stack| - 1] == st
  {
    assert (st + [f])[..|st|] == st;
  }

  /** The loads of cpu_ktlb_update up to the global counter, which is still 0. */
  lemma {:induction false} ThenLoads(run: seq<Step>, kn: nat, h: seq<Pte>, tlb: set<Cached>, st: seq<Frame>) returns (run': seq<Step>)
    requires At(Exec(Boot(1), run), 0, kn, h, Cpu(0, 0, tlb, st + [UPDATE_START]))
    ensures At(Exec(Boot(1), run'), 0, kn, h, Cpu(0, 0, tlb, st + [Update(3, 0, 0, 0, 0)]))
    ensures Exec(Boot(1), run').marks == Exec(Boot(1), run).marks
  {
    OnTop(st, UPDATE_START, Update(1, 0, 0, 0, 0));
    run' := ThenRun(run, 0, kn, h, Cpu(0, 0, tlb, st + [UPDATE_START]));
    OnTop(st, Update(1, 0, 0, 0, 0), Update(2, 0, 0, 0, 0));
    run' := ThenRun(run', 0, kn, h, Cpu(0, 0, tlb, st + [Update(1, 0, 0, 0, 0)]));
    OnTop(st, Update(2, 0, 0, 0, 0), Update(3, 0, 0, 0, 0));
    run' := ThenRun(run', 0, kn, h, Cpu(0, 0, tlb, st + [Update(2, 0, 0, 0, 0)]));
  }

  /** The rest of cpu_ktlb_update, when it finds that only the normal generation is new. */
  lemma {:induction false} ThenRecord(run: seq<Step>, kg: nat, h: seq<Pte>, tlb: set<Cached>, st: seq<Frame>) returns (run': seq<Step>)
    requires At(Exec(Boot(1), run), kg, 1, h, Cpu(0, 0, tlb, st + [Update(3, 0, 0, 0, 0)]))
    ensures At(Exec(Boot(1), run'), kg, 1, h, Cpu(0, 1, Globals(tlb), st))
    ensures Exec(Boot(1), run').marks == Exec(Boot(1), run).marks
  {
    var kept := Globals(tlb);
    OnTop(st, Update(3, 0, 0, 0, 0), Update(4, 0, 0, 0, 1));
    run' := ThenRun(run, kg, 1, h, Cpu(0, 0, tlb, st + [Update(3, 0, 0, 0, 0)]));
    OnTop(st, Update(4, 0, 0, 0, 1), Update(6, 0, 0, 0, 1));
    run' := ThenRun(run', kg, 1, h, Cpu(0, 0, tlb, st + [Update(4, 0, 0, 0, 1)]));
    OnTop(st, Update(6, 0, 0, 0, 1), UPDATE_START);
    run' := ThenRun(run', kg, 1, h, Cpu(0, 0, kept, st + [Update(6, 0, 0, 0, 1)]));
  }

  /** The normal generation goes back when an update interrupts cpu_tlbflush_local between its loads. */
  lemma {:induction false} NormalCanGoBack() returns (run: seq<Step>, a: Step)
    ensures GoesBack(Boot(1), 0, run, a)
  {
    run := [];
    assert Boot(1).cpus == [IDLE_CPU];
    run := ThenEnter(run, 0, 0, [ABSENT], IDLE_CPU, Local(0, 0, 0));
    OnTop([], Local(0, 0, 0), Local(1, 0, 0));
    run := ThenRun(run, 0, 0, [ABSENT], Cpu(0, 0, {}, [] + [Local(0, 0, 0)]));
    var more;
    more, a := NormalBackIfOpen(1, run, 0);
    Extend(Boot(1), run, Enter(0, UPDATE_START));
    ExecConcat(Boot(1), run + [Enter(0, UPDATE_START)], more);
    run := run + [Enter(0, UPDATE_START)] + more;
  }

  /**
    A global translation can outlive a later recorded change of its page: the update reads the
    global counter, the page loses its global bit and changes again, then it reads the normal counter.
   */
  lemma {:induction false} GlobalCanBeOlder() returns (run: seq<Step>, e: Cached)
    ensures var s := Exec(Boot(1), run);
            |s.cpus| == 1 && e in s.cpus[0].tlb && e.ver < 3 && Reached(s, s.cpus[0], e.va, 3)
  {
    var p, q, r := Pte(true, true, 1), Pte(true, false, 2), Pte(true, false, 3);
    e := Cached(0, 1, true);
    var tlb := {} + {e};
    var h1 := [ABSENT] + [p];
    run := [];
    assert Boot(1).cpus == [IDLE_CPU];
    run := ThenWrite(run, 0, 0, [ABSENT], IDLE_CPU, p);
    run := ThenFill(run, 0, 0, h1, IDLE_CPU);
    run := ThenEnter(run, 0, 0, h1, Cpu(0, 0, tlb, []), UPDATE_START);
    run := ThenLoads(run, 0, h1, tlb, []);
    var c := Cpu(0, 0, tlb, [] + [Update(3, 0, 0, 0, 0)]);
    run := ThenWrite(run, 0, 0, h1, c, q);
    run := ThenMark(run, 0, 0, h1 + [q], c, 2);
    run := ThenWrite(run, 1, 0, h1 + [q], c, r);
    run := ThenMark(run, 1, 0, h1 + [q] + [r], c, 3);
    run := ThenRecord(run, 1, h1 + [q] + [r], tlb, []);
  }

  /** Writes take the history of page 0 from its first `k` values to its first `m`; nothing needs to be marked. */
  lemma {:induction false} ThenWrites(run: seq<Step>, kg: nat, kn: nat, h: seq<Pte>, k: nat, m: nat, c: Cpu) returns (run': seq<Step>)
    requires 1 <= k <= m <= |h| && At(Exec(Boot(1), run), kg, kn, h[..k], c)
    ensures At(Exec(Boot(1), run'), kg, kn, h[..m], c) && Exec(Boot(1), run').marks == Exec(Boot(1), run).marks
    ensures m > k && !TlbOpOf(h[m - 2], h[m - 1]).OpNone? ==> (0, m - 1) in Exec(Boot(1), run').pending
    decreases m
  {
    if k == m {
      run' := run;
    } else {
      var r := ThenWrites(run, kg, kn, h, k, m - 1, c);
      run' := ThenWrite(r, kg, kn, h[..m - 1], c, h[m - 1]);
      assert h[..m - 1] + [h[m - 1]] == h[..m];
    }
  }

  /** Every such history has a run in which a processor keeps the global translation after it recorded the later change. */
  lemma {:induction false} StaleIfRisky(h: seq<Pte>, a: nat, j: nat) returns (run: seq<Step>, e: Cached)
    requires h != [] && h[0] == ABSENT && a < j < |h| && RiskyAt(h, a, j)
    ensures var s := Exec(Boot(1), run);
            && Hist(s, 0) == h && |s.cpus| == 1
            && e == Cached(0, a, true) && e in s.cpus[0].tlb && Reached(s, s.cpus[0], 0, j)
  {
    e := Cached(0, a, true);
    var c := Cpu(0, 0, {} + {e}, [] + [Update(3, 0, 0, 0, 0)]);
    run := CachedGlobal(h, a);
    hide Exec;
    run := ThenWrites(run, 0, 0, h, a + 1, j + 1, c);
    run := ThenMark(run, 0, 0, h[..j + 1], c, j);
    run := ThenRecord(run, 0, h[..j + 1], {} + {e}, []);
    run := ThenWrites(run, 0, 1, h, j + 1, |h|, Cpu(0, 1, Globals({} + {e}), []));
    assert h[..|h|] == h;
  }

  /** The global version is cached, and an update has read the global counter. */
  lemma {:induction false} CachedGlobal(h: seq<Pte>, a: nat) returns (run: seq<Step>)
    requires h != [] && h[0] == ABSENT && a < |h| && h[a].present && h[a].global
    ensures At(Exec(Boot(1), run), 0, 0, h[..a + 1], Cpu(0, 0, {} + {Cached(0, a, true)}, [] + [Update(3, 0, 0, 0, 0)]))
  {
    var tlb := {} + {Cached(0, a, true)};
    run := [];
    assert Boot(1).cpus == [IDLE_CPU] && h[..1] == [ABSENT];
    assert At(Exec(Boot(1), run), 0, 0, h[..1], IDLE_CPU);
    hide Exec;
    run := ThenWrites(run, 0, 0, h, 1, a + 1, IDLE_CPU);
    run := ThenFill(run, 0, 0, h[..a + 1], IDLE_CPU);
    run := ThenEnter(run, 0, 0, h[..a + 1], Cpu(0, 0, tlb, []), UPDATE_START);
    run := ThenLoads(run, 0, h[..a + 1], tlb, []);
  }
}
