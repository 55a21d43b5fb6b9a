/**
  The kernel TLB generation protocol: libnux/ktlbgen.c, libnux/cpu.c and the page
  table writes of libnux/kmap.c, as a machine whose steps are the single memory
  accesses and TLB operations of the source, interleaved in any order.

  Every processor has a stack of activations: an interrupt may start
  cpu_ktlb_update, cpu_tlbflush_local or cpu_ktlb_reach between any two steps of
  the activation that runs.
 */
module KTlb {

  type Va = nat

  /** A leaf page table entry: the bits PTE_P and PTE_G, and all the others. */
  datatype Pte = Pte(present: bool, global: bool, rest: nat)

  const ABSENT := Pte(false, false, 0)

  datatype TlbOp = OpNone | OpFlush | OpFlushAll

  /** hal_l1e_tlbop */
  function TlbOpOf(was: Pte, now: Pte): TlbOp {
    if !was.present then OpNone
    else if was.global || now.global then OpFlushAll
    else OpFlush
  }

  /** tlbgen_cmp(a, b) > 0; the wrap count is taken from the low six bits. */
  predicate GenAfter(a: nat, b: nat) {
    if a % 64 == b % 64 then a > b else true
  }

  /** It sees every newer generation, and takes an older one for newer exactly when their wrap counts differ. */
  lemma {:induction false} GenAfterIs(a: nat, b: nat)
    ensures a > b ==> GenAfter(a, b)
    ensures !GenAfter(a, a)
    ensures a < b ==> (GenAfter(a, b) <==> (b - a) % 64 != 0)
  {
  }

  /** A cached translation: version `ver` of the entry for `va`. */
  datatype Cached = Cached(va: Va, ver: nat, global: bool)

  datatype Frame =
    | Update(pc: nat, cg: nat, cn: nat, kg: nat, kn: nat)   // cpu_ktlb_update
    | Local(pc: nat, kn: nat, cn: nat)                      // cpu_tlbflush_local
    | Reach(pc: nat, target: nat, cn: nat)                  // cpu_ktlb_reach

  /** Recorded generations, cached translations and activations of a processor. */
  datatype Cpu = Cpu(g: nat, n: nat, tlb: set<Cached>, stack: seq<Frame>)

  /** The generation that ktlbgen_markdirty gave to a change. */
  datatype Mark = Mark(all: bool, gen: nat)

  /** The k-th element of a history is the k-th value of the page table entry. */
  datatype State = State(kg: nat, kn: nat, log: map<Va, seq<Pte>>, marks: map<(Va, nat), Mark>,
                         pending: set<(Va, nat)>, cpus: seq<Cpu>)

  function Hist(s: State, va: Va): (h: seq<Pte>)
    ensures va in s.log && s.log[va] != [] ==> h == s.log[va]
    ensures h != []
  {
    if va in s.log && s.log[va] != [] then s.log[va] else [ABSENT]
  }

  // ----- one step of a processor -----

  function Replace(c: Cpu, f: Frame): Cpu
    requires c.stack != []
  {
    c.(stack := c.stack[..|c.stack| - 1] + [f])
  }

  function Pop(c: Cpu): Cpu
    requires c.stack != []
  {
    c.(stack := c.stack[..|c.stack| - 1])
  }

  function Globals(tlb: set<Cached>): set<Cached> {
    set e | e in tlb && e.global
  }

  function FlushLocal(c: Cpu): Cpu {
    c.(tlb := Globals(c.tlb))
  }

  function FlushAll(c: Cpu): Cpu {
    c.(tlb := {})
  }

  function CasGlobal(c: Cpu, expected: nat, desired: nat): Cpu {
    if c.g == expected then c.(g := desired) else c
  }

  function CasNormal(c: Cpu, expected: nat, desired: nat): Cpu {
    if c.n == expected then c.(n := desired) else c
  }

  const UPDATE_START := Update(0, 0, 0, 0, 0)

  /** The next memory access or TLB operation of the activation on top of the stack. */
  function CpuStep(kg: nat, kn: nat, c: Cpu): Cpu
    requires c.stack != []
  {
    match c.stack[|c.stack| - 1]
    case Update(pc, cg, cn, rg, rn) =>
      if pc == 0 then Replace(c, Update(1, c.g, cn, rg, rn))
      else if pc == 1 then Replace(c, Update(2, cg, c.n, rg, rn))
      else if pc == 2 then Replace(c, Update(3, cg, cn, kg, rn))
      else if pc == 3 then Replace(c, Update(4, cg, cn, rg, kn))
      else if pc == 4 then
        if GenAfter(rg, cg) then Replace(FlushAll(c), Update(5, cg, cn, rg, rn))
        else if GenAfter(rn, cn) then Replace(FlushLocal(c), Update(6, cg, cn, rg, rn))
        else Pop(c)
      else if pc == 5 then Replace(CasGlobal(c, cg, rg), Update(6, cg, cn, rg, rn))
      else Pop(CasNormal(c, cn, rn))
    case Local(pc, rn, cn) =>
      if pc == 0 then Replace(c, Local(1, kn, cn))
      else if pc == 1 then Replace(c, Local(2, rn, c.n))
      else if pc == 2 then Replace(FlushLocal(c), Local(3, rn, cn))
      else Pop(CasNormal(c, cn, rn))
    case Reach(pc, target, cn) =>
      if pc == 0 then Replace(c, Reach(1, target, c.n))
      else if pc == 1 && GenAfter(target, cn) then
        var d := Replace(c, Reach(2, target, cn));
        d.(stack := d.stack + [UPDATE_START])
      else Pop(c)
  }

  // ----- steps of the machine -----

  datatype Step =
    | WritePte(va: Va, pte: Pte)                 // hal_l1e_set
    | MarkDirty(va: Va, ver: nat)                // ktlbgen_markdirty for that write
    | Fill(cpu: nat, va: Va)                     // the hardware caches the current translation
    | Evict(cpu: nat, gone: set<Cached>)         // the hardware drops translations
    | Enter(cpu: nat, f: Frame)                  // a call, or an interrupt on top of another activation
    | Run(cpu: nat)

  predicate Fresh(s: State, f: Frame) {
    match f
    case Update(_, _, _, _, _) => f == UPDATE_START
    case Local(pc, _, _) => pc == 0
    case Reach(pc, target, _) => pc == 0 && target <= s.kn    // a generation read earlier from ktlbgen_normal
  }

  predicate Enabled(s: State, a: Step) {
    match a
    case WritePte(_, _) => true
    case MarkDirty(va, ver) => (va, ver) in s.pending && 0 < ver < |Hist(s, va)|
    case Fill(cpu, va) => cpu < |s.cpus| && Last(Hist(s, va)).present
    case Evict(cpu, _) => cpu < |s.cpus|
    case Enter(cpu, f) => cpu < |s.cpus| && Fresh(s, f)
    case Run(cpu) => cpu < |s.cpus| && s.cpus[cpu].stack != []
  }

  function Last(h: seq<Pte>): Pte
    requires h != []
  {
    h[|h| - 1]
  }

  function WithCpu(s: State, i: nat, c: Cpu): State
    requires i < |s.cpus|
  {
    s.(cpus := s.cpus[i := c])
  }

  /** A step that is not enabled has no effect, so every sequence of steps is a run. */
  function Apply(s: State, a: Step): State {
    if !Enabled(s, a) then s else
    match a
    case WritePte(va, pte) =>
      var h := Hist(s, va);
      s.(log := s.log[va := h + [pte]],
         pending := if TlbOpOf(Last(h), pte).OpNone? then s.pending else s.pending + {(va, |h|)})
    case MarkDirty(va, ver) =>
      var h := Hist(s, va);
      var t := s.(pending := s.pending - {(va, ver)});
      if TlbOpOf(h[ver - 1], h[ver]).OpFlushAll? then
        t.(kg := s.kg + 1, marks := s.marks[(va, ver) := Mark(true, s.kg + 1)])
      else
        t.(kn := s.kn + 1, marks := s.marks[(va, ver) := Mark(false, s.kn + 1)])
    case Fill(i, va) =>
      var h := Hist(s, va);
      var c := s.cpus[i];
      WithCpu(s, i, c.(tlb := c.tlb + {Cached(va, |h| - 1, Last(h).global)}))
    case Evict(i, gone) =>
      WithCpu(s, i, s.cpus[i].(tlb := s.cpus[i].tlb - gone))
    case Enter(i, f) =>
      WithCpu(s, i, s.cpus[i].(stack := s.cpus[i].stack + [f]))
    case Run(i) =>
      WithCpu(s, i, CpuStep(s.kg, s.kn, s.cpus[i]))
  }

  function Exec(s: State, run: seq<Step>): State
    decreases |run|
  {
    if run == [] then s else Apply(Exec(s, run[..|run| - 1]), run[|run| - 1])
  }

  const IDLE_CPU := Cpu(0, 0, {}, [])

  function Boot(ncpus: nat): State {
    State(0, 0, map[], map[], {}, seq(ncpus, i => IDLE_CPU))
  }

  // ----- the invariant -----

  /** No cached translation is older than a change of a global mapping up to generation `g`. */
  ghost predicate FreshG(m: map<(Va, nat), Mark>, tlb: set<Cached>, g: nat) {
    forall e, j :: e in tlb && (e.va, j) in m && e.ver < j && m[(e.va, j)].all ==> m[(e.va, j)].gen > g
  }

  /** No cached non-global translation is older than a change of a non-global mapping up to generation `n`. */
  ghost predicate FreshN(m: map<(Va, nat), Mark>, tlb: set<Cached>, n: nat) {
    forall e, j :: e in tlb && (e.va, j) in m && e.ver < j && !e.global && !m[(e.va, j)].all ==> m[(e.va, j)].gen > n
  }

  ghost predicate FrameOk(s: State, tlb: set<Cached>, f: Frame) {
    match f
    case Update(pc, cg, cn, kg, kn) =>
      && (pc >= 1 ==> cg <= s.kg) && (pc >= 2 ==> cn <= s.kn)
      && (pc >= 3 ==> cg <= kg <= s.kg) && (pc >= 4 ==> cn <= kn <= s.kn)
      && (pc == 5 ==> FreshG(s.marks, tlb, kg) && FreshN(s.marks, tlb, kn))
      && (pc >= 6 ==> FreshN(s.marks, tlb, kn))
    case Local(pc, kn, cn) =>
      && (pc >= 1 ==> kn <= s.kn)
      && (pc >= 3 ==> FreshN(s.marks, tlb, kn))
    case Reach(pc, target, cn) => target <= s.kn
  }

  ghost predicate CpuOk(s: State, c: Cpu) {
    && c.g <= s.kg && c.n <= s.kn
    && FreshG(s.marks, c.tlb, c.g) && FreshN(s.marks, c.tlb, c.n)
    && (forall e :: e in c.tlb ==> e.ver < |Hist(s, e.va)| && Hist(s, e.va)[e.ver].present && Hist(s, e.va)[e.ver].global == e.global)
    && (forall i :: 0 <= i < |c.stack| ==> FrameOk(s, c.tlb, c.stack[i]))
  }

  /** A marked change needed its flush, and has a generation of its counter. */
  ghost predicate MarksOk(s: State) {
    forall k :: k in s.marks ==> && 0 < k.1 < |Hist(s, k.0)|
                                 && s.marks[k].gen <= (if s.marks[k].all then s.kg else s.kn)
                                 && TlbOpOf(Hist(s, k.0)[k.1 - 1], Hist(s, k.0)[k.1]) == (if s.marks[k].all then OpFlushAll else OpFlush)
  }

  /** A pending change needs a flush and has no mark. */
  ghost predicate PendingOk(s: State) {
    forall k :: k in s.pending ==> 0 < k.1 < |Hist(s, k.0)| && k !in s.marks
                                   && !TlbOpOf(Hist(s, k.0)[k.1 - 1], Hist(s, k.0)[k.1]).OpNone?
  }

  /** Every change that needs a flush is still to be marked or has its generation. */
  ghost predicate LogOk(s: State) {
    && MarksOk(s) && PendingOk(s)
    && (forall va: Va, j: nat {:trigger (va, j) in s.pending} {:trigger (va, j) in s.marks} :: 0 < j < |Hist(s, va)| && !TlbOpOf(Hist(s, va)[j - 1], Hist(s, va)[j]).OpNone?
                        ==> (va, j) in s.pending || (va, j) in s.marks)
  }

  ghost predicate Inv(s: State) {
    LogOk(s) && forall i :: 0 <= i < |s.cpus| ==> CpuOk(s, s.cpus[i])
  }

  // ----- every step keeps the invariant -----

  /** A processor that does not take part in a step. */
  lemma {:induction false} CpuKept(s: State, t: State, c: Cpu)
    requires CpuOk(s, c)
    requires t.kg >= s.kg && t.kn >= s.kn && t.marks == s.marks
    requires forall va: Va :: Hist(s, va) <= Hist(t, va)
    ensures CpuOk(t, c)
  {
    forall i | 0 <= i < |c.stack|
      ensures FrameOk(t, c.tlb, c.stack[i])
    {
      assert FrameOk(s, c.tlb, c.stack[i]);
    }
  }

  lemma {:induction false} StepWrite(s: State, va: Va, pte: Pte)
    requires Inv(s)
    ensures Inv(Apply(s, WritePte(va, pte)))
  {
    var t := Apply(s, WritePte(va, pte));
    assert Hist(t, va) == Hist(s, va) + [pte];
    assert forall w: Va :: w != va ==> Hist(t, w) == Hist(s, w);
    forall i | 0 <= i < |t.cpus|
      ensures CpuOk(t, t.cpus[i])
    {
      assert CpuOk(s, s.cpus[i]);
      CpuKept(s, t, s.cpus[i]);
    }
  }

  lemma {:induction false} StepMark(s: State, va: Va, ver: nat)
    requires Inv(s) && Enabled(s, MarkDirty(va, ver))
    ensures Inv(Apply(s, MarkDirty(va, ver)))
  {
    var t := Apply(s, MarkDirty(va, ver));
    assert forall w: Va :: Hist(t, w) == Hist(s, w);
    forall i | 0 <= i < |t.cpus|
      ensures CpuOk(t, t.cpus[i])
    {
      var c := s.cpus[i];
      assert CpuOk(s, c);
      MarkedG(s, t, va, ver, c.tlb, c.g);
      MarkedN(s, t, va, ver, c.tlb, c.n);
      forall k | 0 <= k < |c.stack|
        ensures FrameOk(t, c.tlb, c.stack[k])
      {
        assert FrameOk(s, c.tlb, c.stack[k]);
        MarkedFrame(s, t, va, ver, c.tlb, c.stack[k]);
      }
    }
    MarkedLog(s, va, ver);
  }

  /** A processor that has neither recorded nor loaded generation `m.gen` of its counter. */
  ghost predicate Behind(c: Cpu, m: Mark) {
    && (if m.all then c.g else c.n) < m.gen
    && forall k :: 0 <= k < |c.stack| ==> match c.stack[k]
         case Update(pc, _, _, kg, kn) => if m.all then pc >= 3 ==> kg < m.gen else pc >= 4 ==> kn < m.gen
         case Local(pc, kn, _) => !m.all && pc >= 1 ==> kn < m.gen
         case Reach(_, target, _) => !m.all ==> target < m.gen
  }

  /**
    In every run, a mark gives a change a generation that no processor has recorded or loaded: the next
    global one if the old or the new mapping is global, the next normal one otherwise.
   */
  lemma {:induction false} MarkAhead(ncpus: nat, run: seq<Step>, va: Va, ver: nat)
    requires Enabled(Exec(Boot(ncpus), run), MarkDirty(va, ver))
    ensures var t := Apply(Exec(Boot(ncpus), run), MarkDirty(va, ver));
            (va, ver) in t.marks && forall i :: 0 <= i < |t.cpus| ==> Behind(t.cpus[i], t.marks[(va, ver)])
    ensures var s := Exec(Boot(ncpus), run);
            var t := Apply(s, MarkDirty(va, ver));
            var h := Hist(s, va);
            && h[ver - 1].present && t.cpus == s.cpus && t.log == s.log
            && (if h[ver - 1].global || h[ver].global then t.kg == s.kg + 1 && t.kn == s.kn
                else t.kg == s.kg && t.kn == s.kn + 1)
  {
    ExecInv(ncpus, run);
    var s := Exec(Boot(ncpus), run);
    var t := Apply(s, MarkDirty(va, ver));
    forall i | 0 <= i < |t.cpus|
      ensures Behind(t.cpus[i], t.marks[(va, ver)])
    {
      assert CpuOk(s, s.cpus[i]);
      forall k | 0 <= k < |s.cpus[i].stack|
        ensures FrameOk(s, s.cpus[i].tlb, s.cpus[i].stack[k])
      {
      }
    }
  }

  lemma {:induction false} MarkedMarks(s: State, va: Va, ver: nat)
    requires LogOk(s) && Enabled(s, MarkDirty(va, ver))
    ensures MarksOk(Apply(s, MarkDirty(va, ver))) && PendingOk(Apply(s, MarkDirty(va, ver)))
  {
    var t := Apply(s, MarkDirty(va, ver));
    assert forall w: Va :: Hist(t, w) == Hist(s, w);
  }

  lemma {:induction false} MarkedLog(s: State, va: Va, ver: nat)
    requires LogOk(s) && Enabled(s, MarkDirty(va, ver))
    ensures LogOk(Apply(s, MarkDirty(va, ver)))
  {
    MarkedMarks(s, va, ver);
    hide MarksOk, PendingOk;
    var t := Apply(s, MarkDirty(va, ver));
    assert forall w: Va :: Hist(t, w) == Hist(s, w);
  }

  lemma {:induction false} MarkedFrame(s: State, t: State, va: Va, ver: nat, tlb: set<Cached>, f: Frame)
    requires Enabled(s, MarkDirty(va, ver)) && t == Apply(s, MarkDirty(va, ver))
    requires FrameOk(s, tlb, f)
    ensures FrameOk(t, tlb, f)
  {
    match f
    case Update(pc, cg, cn, kg, kn) =>
      if pc == 5 { MarkedG(s, t, va, ver, tlb, kg); }
      if pc >= 5 { MarkedN(s, t, va, ver, tlb, kn); }
    case Local(pc, kn, cn) =>
      if pc >= 3 { MarkedN(s, t, va, ver, tlb, kn); }
    case Reach(pc, target, cn) =>
  }

  lemma {:induction false} MarkedG(s: State, t: State, va: Va, ver: nat, tlb: set<Cached>, g: nat)
    requires Enabled(s, MarkDirty(va, ver)) && t == Apply(s, MarkDirty(va, ver))
    requires FreshG(s.marks, tlb, g) && g <= s.kg
    ensures FreshG(t.marks, tlb, g)
  {
  }

  lemma {:induction false} MarkedN(s: State, t: State, va: Va, ver: nat, tlb: set<Cached>, n: nat)
    requires Enabled(s, MarkDirty(va, ver)) && t == Apply(s, MarkDirty(va, ver))
    requires FreshN(s.marks, tlb, n) && n <= s.kn
    ensures FreshN(t.marks, tlb, n)
  {
  }

  lemma {:induction false} OthersKept(s: State, t: State, i: nat)
    requires Inv(s) && i < |s.cpus| && |t.cpus| == |s.cpus|
    requires t == s.(cpus := t.cpus)
    requires forall k :: 0 <= k < |s.cpus| && k != i ==> t.cpus[k] == s.cpus[k]
    requires CpuOk(s, t.cpus[i])
    ensures Inv(t)
  {
    assert forall w: Va :: Hist(t, w) == Hist(s, w);
    forall k | 0 <= k < |t.cpus|
      ensures CpuOk(t, t.cpus[k])
    {
      assert k != i ==> CpuOk(s, s.cpus[k]);
      CpuKept(s, t, t.cpus[k]);
    }
  }

  /** A translation that is filled now is the newest version. */
  lemma {:induction false} StepFill(s: State, i: nat, va: Va)
    requires Inv(s) && Enabled(s, Fill(i, va))
    ensures Inv(Apply(s, Fill(i, va)))
  {
    hide TlbOpOf, Hist;
    var c := s.cpus[i];
    var h := Hist(s, va);
    var c' := c.(tlb := c.tlb + {Cached(va, |h| - 1, Last(h).global)});
    assert CpuOk(s, c);
    forall k | 0 <= k < |c.stack|
      ensures FrameOk(s, c'.tlb, c.stack[k])
    {
      assert FrameOk(s, c.tlb, c.stack[k]);
    }
    OthersKept(s, Apply(s, Fill(i, va)), i);
  }

  lemma {:induction false} StepEvict(s: State, i: nat, gone: set<Cached>)
    requires Inv(s) && i < |s.cpus|
    ensures Inv(Apply(s, Evict(i, gone)))
  {
    var c := s.cpus[i];
    assert CpuOk(s, c);
    SmallerTlb(s, c, c.tlb - gone);
    OthersKept(s, Apply(s, Evict(i, gone)), i);
  }

  lemma {:induction false} SmallerTlb(s: State, c: Cpu, tlb: set<Cached>)
    requires CpuOk(s, c) && tlb <= c.tlb
    ensures CpuOk(s, c.(tlb := tlb))
  {
    forall k | 0 <= k < |c.stack|
      ensures FrameOk(s, tlb, c.stack[k])
    {
      assert FrameOk(s, c.tlb, c.stack[k]);
    }
  }

  lemma {:induction false} StepEnter(s: State, i: nat, f: Frame)
    requires Inv(s) && Enabled(s, Enter(i, f))
    ensures Inv(Apply(s, Enter(i, f)))
  {
    var c := s.cpus[i];
    assert CpuOk(s, c);
    assert FrameOk(s, c.tlb, f);
    OthersKept(s, Apply(s, Enter(i, f)), i);
  }

  /** The recorded generations only change to values that the TLB has been flushed for. */
  lemma {:induction false} StepRun(s: State, i: nat)
    requires Inv(s) && Enabled(s, Run(i))
    ensures Inv(Apply(s, Run(i)))
  {
    assert CpuOk(s, s.cpus[i]);
    RunOk(s, s.cpus[i]);
    OthersKept(s, Apply(s, Run(i)), i);
  }

  /** `d` is `c` after a flush or a compare-and-swap. */
  ghost predicate Acted(s: State, c: Cpu, d: Cpu) {
    && CpuOk(s, c) && c.stack != [] && d.stack == c.stack && d.tlb <= c.tlb
    && d.g <= s.kg && d.n <= s.kn && FreshG(s.marks, d.tlb, d.g) && FreshN(s.marks, d.tlb, d.n)
  }

  lemma {:induction false} ReplaceOk(s: State, c: Cpu, d: Cpu, f: Frame)
    requires Acted(s, c, d) && FrameOk(s, d.tlb, f)
    ensures CpuOk(s, Replace(d, f))
  {
    PopOk(s, c, d);
  }

  lemma {:induction false} PopOk(s: State, c: Cpu, d: Cpu)
    requires Acted(s, c, d)
    ensures CpuOk(s, Pop(d))
  {
    SmallerTlb(s, c, d.tlb);
    forall k | 0 <= k < |Pop(d).stack|
      ensures FrameOk(s, d.tlb, Pop(d).stack[k])
    {
      assert FrameOk(s, d.tlb, c.(tlb := d.tlb).stack[k]);
    }
  }

  lemma {:induction false} RunUpdate(s: State, c: Cpu)
    requires CpuOk(s, c) && c.stack != [] && c.stack[|c.stack| - 1].Update?
    ensures CpuOk(s, CpuStep(s.kg, s.kn, c))
  {
    var f := c.stack[|c.stack| - 1];
    var Update(pc, cg, cn, rg, rn) := f;
    assert FrameOk(s, c.tlb, f);
    if pc == 0 {
      ReplaceOk(s, c, c, Update(1, c.g, cn, rg, rn));
    } else if pc == 1 {
      ReplaceOk(s, c, c, Update(2, cg, c.n, rg, rn));
    } else if pc == 2 {
      ReplaceOk(s, c, c, Update(3, cg, cn, s.kg, rn));
    } else if pc == 3 {
      ReplaceOk(s, c, c, Update(4, cg, cn, rg, s.kn));
    } else if pc == 4 {
      if GenAfter(rg, cg) {
        ReplaceOk(s, c, FlushAll(c), Update(5, cg, cn, rg, rn));
      } else if GenAfter(rn, cn) {
        ReplaceOk(s, c, FlushLocal(c), Update(6, cg, cn, rg, rn));
      } else {
        PopOk(s, c, c);
      }
    } else if pc == 5 {
      ReplaceOk(s, c, CasGlobal(c, cg, rg), Update(6, cg, cn, rg, rn));
    } else {
      PopOk(s, c, CasNormal(c, cn, rn));
    }
  }

  lemma {:induction false} RunLocal(s: State, c: Cpu)
    requires CpuOk(s, c) && c.stack != [] && c.stack[|c.stack| - 1].Local?
    ensures CpuOk(s, CpuStep(s.kg, s.kn, c))
  {
    var f := c.stack[|c.stack| - 1];
    var Local(pc, rn, cn) := f;
    assert FrameOk(s, c.tlb, f);
    if pc == 0 {
      ReplaceOk(s, c, c, Local(1, s.kn, cn));
    } else if pc == 1 {
      ReplaceOk(s, c, c, Local(2, rn, c.n));
    } else if pc == 2 {
      ReplaceOk(s, c, FlushLocal(c), Local(3, rn, cn));
    } else {
      PopOk(s, c, CasNormal(c, cn, rn));
    }
  }

  lemma {:induction false} RunReach(s: State, c: Cpu)
    requires CpuOk(s, c) && c.stack != [] && c.stack[|c.stack| - 1].Reach?
    ensures CpuOk(s, CpuStep(s.kg, s.kn, c))
  {
    var f := c.stack[|c.stack| - 1];
    var Reach(pc, target, cn) := f;
    assert FrameOk(s, c.tlb, f);
    ReplaceOk(s, c, c, Reach(1, target, c.n));
    ReplaceOk(s, c, c, Reach(2, target, cn));
    PopOk(s, c, c);
    assert FrameOk(s, c.tlb, UPDATE_START);
  }

  lemma {:induction false} RunOk(s: State, c: Cpu)
    requires CpuOk(s, c) && c.stack != []
    ensures CpuOk(s, CpuStep(s.kg, s.kn, c))
  {
    match c.stack[|c.stack| - 1]
    case Update(_, _, _, _, _) => RunUpdate(s, c);
    case Local(_, _, _) => RunLocal(s, c);
    case Reach(_, _, _) => RunReach(s, c);
  }

  lemma {:induction false} StepInv(s: State, a: Step)
    requires Inv(s)
    ensures Inv(Apply(s, a))
  {
    if Enabled(s, a) {
      match a
      case WritePte(va, pte) => StepWrite(s, va, pte);
      case MarkDirty(va, ver) => StepMark(s, va, ver);
      case Fill(i, va) => StepFill(s, i, va);
      case Evict(i, gone) => StepEvict(s, i, gone);
      case Enter(i, f) => StepEnter(s, i, f);
      case Run(i) => StepRun(s, i);
    }
  }

  lemma {:induction false} ExecInv(ncpus: nat, run: seq<Step>)
    ensures Inv(Exec(Boot(ncpus), run))
    decreases |run|
  {
    if run != [] {
      ExecInv(ncpus, run[..|run| - 1]);
      StepInv(Exec(Boot(ncpus), run[..|run| - 1]), run[|run| - 1]);
    }
  }
}
