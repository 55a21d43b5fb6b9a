/**
  The reader/writer lock of include/nux/locks.h as a state machine: any number of threads, one
  atomic access of shared memory in a step, steps of different threads in any order.
 */
module RwLock {

  type Tid = nat

  /** Where a thread stands; `v` is the value of `r` it has loaded. */
  datatype Pc =
    | Idle
    // readlock: spin on lr, load r, store r + 1, spin on lg if the first, release lr
    | ReadSpin | ReadLoad | ReadStore(v: nat) | ReadFirst | ReadDone
    | Reading
    // readunlock: spin on lr, load r, store r - 1, release lg if the last, release lr
    | LeaveSpin | LeaveLoad | LeaveStore(v: nat) | LeaveLast | LeaveDone
    // writelock: spin on lg
    | WriteSpin
    | Writing

  /** The lock words and all threads. */
  datatype State = State(r: int, lr: bool, lg: bool, pc: map<Tid, Pc>)

  /** A thread goes on; `want` says what an idle thread starts and when one inside leaves. */
  datatype Step = Step(t: Tid, want: Want)
  datatype Want = WantRead | WantWrite | WantLeave | WantNothing

  function Goto(s: State, t: Tid, pc: Pc): State {
    State(s.r, s.lr, s.lg, s.pc[t := pc])
  }

  function Run(s: State, a: Step): State {
    var t := a.t;
    if t !in s.pc then s else
    match s.pc[t]
    case Idle =>
      if a.want == WantRead then Goto(s, t, ReadSpin) else if a.want == WantWrite then Goto(s, t, WriteSpin) else s
    case ReadSpin => if s.lr then s else State(s.r, true, s.lg, s.pc[t := ReadLoad])
    case ReadLoad => if s.r < 0 then s else Goto(s, t, ReadStore(s.r))
    case ReadStore(v) => State(v + 1, s.lr, s.lg, s.pc[t := if v == 0 then ReadFirst else ReadDone])
    case ReadFirst => if s.lg then s else State(s.r, s.lr, true, s.pc[t := ReadDone])
    case ReadDone => State(s.r, false, s.lg, s.pc[t := Reading])
    case Reading => if a.want == WantLeave then Goto(s, t, LeaveSpin) else s
    case LeaveSpin => if s.lr then s else State(s.r, true, s.lg, s.pc[t := LeaveLoad])
    case LeaveLoad => if s.r < 0 then s else Goto(s, t, LeaveStore(s.r))
    case LeaveStore(v) => State(v - 1, s.lr, s.lg, s.pc[t := if v == 1 then LeaveLast else LeaveDone])
    case LeaveLast => State(s.r, s.lr, false, s.pc[t := LeaveDone])
    case LeaveDone => State(s.r, false, s.lg, s.pc[t := Idle])
    case WriteSpin => if s.lg then s else State(s.r, s.lr, true, s.pc[t := Writing])
    case Writing => if a.want == WantLeave then State(s.r, s.lr, false, s.pc[t := Idle]) else s
  }

  function Exec(s: State, steps: seq<Step>): State
    decreases |steps|
  {
    if steps == [] then s else Run(Exec(s, steps[..|steps| - 1]), steps[|steps| - 1])
  }

  /** rwlock_init, all threads outside. */
  ghost predicate Initial(s: State) {
    s.r == 0 && !s.lr && !s.lg && forall t :: t in s.pc ==> s.pc[t] == Idle
  }

  // ----- what a place in the code implies -----

  predicate HoldsLr(pc: Pc) {
    pc.ReadLoad? || pc.ReadStore? || pc.ReadFirst? || pc.ReadDone? || pc.LeaveLoad? || pc.LeaveStore? || pc.LeaveLast? || pc.LeaveDone?
  }

  /** The readers that `r` counts. */
  predicate Counts(pc: Pc) {
    pc.ReadFirst? || pc.ReadDone? || pc.Reading? || pc.LeaveSpin? || pc.LeaveLoad? || pc.LeaveStore?
  }

  /** The readers for which the readers' side holds lg. */
  predicate Covered(pc: Pc) {
    pc.ReadDone? || pc.Reading? || pc.LeaveSpin? || pc.LeaveLoad? || pc.LeaveStore? || pc.LeaveLast?
  }

  /** A reader is inside its critical section. */
  predicate Inside(pc: Pc) {
    pc.Reading? || pc.LeaveSpin?
  }

  ghost function Counted(s: State): set<Tid> {
    set t | t in s.pc && Counts(s.pc[t])
  }

  ghost function Readers(s: State): set<Tid> {
    set t | t in s.pc && Inside(s.pc[t])
  }

  // ----- the invariant -----

  /** lr is held by the one thread that is in its sections. */
  ghost predicate LrInv(s: State) {
    && (forall t :: t in s.pc && HoldsLr(s.pc[t]) ==> s.lr)
    && (forall t, u :: t in s.pc && u in s.pc && HoldsLr(s.pc[t]) && HoldsLr(s.pc[u]) ==> t == u)
  }

  /** r counts the readers, also in the values that threads have loaded. */
  ghost predicate CountInv(s: State) {
    && s.r == |Counted(s)|
    && (forall t :: t in s.pc && s.pc[t].ReadStore? ==> s.pc[t].v == s.r)
    && (forall t :: t in s.pc && s.pc[t].LeaveStore? ==> s.pc[t].v == s.r)
    && (forall t :: t in s.pc && s.pc[t].ReadFirst? ==> s.r == 1)
    && (forall t :: t in s.pc && s.pc[t].LeaveLast? ==> s.r == 0)
  }

  /** lg is held by one writer or for the readers, not both. */
  ghost predicate LgInv(s: State) {
    && (forall t :: t in s.pc && (s.pc[t].Writing? || Covered(s.pc[t])) ==> s.lg)
    && (forall t, u :: t in s.pc && u in s.pc && s.pc[t].Writing? ==> !Covered(s.pc[u]) && (s.pc[u].Writing? ==> t == u))
  }

  /** A lock that is taken has a thread that will release it. */
  ghost predicate HeldInv(s: State) {
    && (s.lr ==> exists t :: t in s.pc && HoldsLr(s.pc[t]))
    && (s.lg ==> exists t :: t in s.pc && (s.pc[t].Writing? || Covered(s.pc[t])))
  }

  ghost predicate Inv(s: State) {
    LrInv(s) && CountInv(s) && LgInv(s) && HeldInv(s)
  }

  // ----- every step keeps it -----

  /** What a step can do to lr and r, seen from the places of the thread before and after. */
  lemma {:induction false} StepEffect(s: State, a: Step)
    requires a.t in s.pc
    ensures var u := Run(s, a);
            var p, q := s.pc[a.t], u.pc[a.t];
            && u.pc == s.pc[a.t := q]
            && (!HoldsLr(p) && HoldsLr(q) ==> !s.lr && u.lr)
            && (HoldsLr(p) == HoldsLr(q) ==> u.lr == s.lr)
            && (HoldsLr(p) && !HoldsLr(q) ==> !u.lr)
            && (u.r != s.r ==> HoldsLr(p) && HoldsLr(q))
  {
  }

  /** lr keeps its sections exclusive. */
  lemma {:induction false} LrStep(s: State, a: Step)
    requires LrInv(s)
    ensures LrInv(Run(s, a))
  {
    if a.t in s.pc {
      StepEffect(s, a);
    }
  }

  lemma {:induction false} Recount(s: State, u: State, t: Tid)
    requires t in s.pc && t in u.pc && u.pc == s.pc[t := u.pc[t]]
    ensures |Counted(u)| == |Counted(s)| - (if Counts(s.pc[t]) then 1 else 0) + if Counts(u.pc[t]) then 1 else 0
  {
    var others := Counted(s) - {t};
    assert Counted(s) == if Counts(s.pc[t]) then others + {t} else others;
    assert Counted(u) == if Counts(u.pc[t]) then others + {t} else others;
  }

  /** What a step can do to r. */
  lemma {:induction false} CountEffect(s: State, a: Step)
    requires a.t in s.pc
    ensures var u := Run(s, a);
            var p, q := s.pc[a.t], u.pc[a.t];
            && (p.ReadStore? ==> u.r == p.v + 1 && !Counts(p) && Counts(q))
            && (p.LeaveStore? ==> u.r == p.v - 1 && Counts(p) && !Counts(q))
            && (!p.ReadStore? && !p.LeaveStore? ==> u.r == s.r && Counts(p) == Counts(q))
  {
  }

  /** r stays the number of counted readers. */
  lemma {:induction false} CardStep(s: State, a: Step)
    requires LrInv(s) && CountInv(s)
    ensures Run(s, a).r == |Counted(Run(s, a))|
  {
    if a.t in s.pc {
      StepEffect(s, a);
      CountEffect(s, a);
      Recount(s, Run(s, a), a.t);
    }
  }

  /** Nobody else relies on r while it is being changed. */
  lemma {:induction false} CountStep(s: State, a: Step)
    requires LrInv(s) && CountInv(s)
    ensures CountInv(Run(s, a))
  {
    hide Counted;
    CardStep(s, a);
    if a.t in s.pc {
      StepEffect(s, a);
      var u := Run(s, a);
      forall x | x in u.pc && x != a.t
        ensures u.pc[x] == s.pc[x]
        ensures u.r != s.r ==> !HoldsLr(s.pc[x])
      {
      }
    }
  }

  /** A reader that is not the first finds lg held for readers already inside. */
  lemma {:induction false} Joins(s: State, t: Tid)
    requires Inv(s) && t in s.pc && s.pc[t].ReadStore? && s.pc[t].v > 0
    ensures s.lg && forall u :: u in s.pc ==> !s.pc[u].Writing?
  {
    assert Counted(s) != {};
    var u :| u in Counted(s);
    assert Covered(s.pc[u]);
  }

  /** When the last reader releases lg, no other reader is covered by it. */
  lemma {:induction false} LastOut(s: State, t: Tid)
    requires Inv(s) && t in s.pc && s.pc[t].LeaveLast?
    ensures forall u :: u in s.pc && u != t ==> !Covered(s.pc[u])
  {
    assert Counted(s) == {};
    forall u | u in s.pc && u != t
      ensures !Covered(s.pc[u])
    {
      assert !Counts(s.pc[u]) by { assert u !in Counted(s); }
    }
  }

  lemma {:induction false} LgStep(s: State, a: Step)
    requires Inv(s)
    ensures LgInv(Run(s, a))
  {
    var t := a.t;
    if t in s.pc {
      var u := Run(s, a);
      StepEffect(s, a);
      var p := s.pc[t];
      if p.ReadStore? && p.v > 0 {
        Joins(s, t);
      } else if p.LeaveLast? {
        LastOut(s, t);
      }
      LgEffect(s, a);
    }
  }

  /** What a step can do to lg. */
  lemma {:induction false} LgEffect(s: State, a: Step)
    requires a.t in s.pc
    ensures var u := Run(s, a);
            var p, q := s.pc[a.t], u.pc[a.t];
            && (q.Writing? && !p.Writing? ==> !s.lg && u.lg)
            && (Covered(q) && !Covered(p) ==> (!s.lg && u.lg) || (p.ReadStore? && p.v > 0 && u.lg == s.lg))
            && (u.lg != s.lg ==> if u.lg then q.Writing? || Covered(q) else p.Writing? || p.LeaveLast?)
            && (q.Writing? ==> !Covered(q))
            && (!u.lg && s.lg ==> !q.Writing? && !Covered(q))
            && (u.lg && (p.Writing? || Covered(p)) && !q.Writing? && !Covered(q) ==> (p.LeaveStore? && p.v != 1))
  {
  }

  /** A reader that leaves others behind leaves lg to them. */
  lemma {:induction false} LeftBehind(s: State, t: Tid) returns (u: Tid)
    requires Inv(s) && t in s.pc && s.pc[t].LeaveStore? && s.pc[t].v != 1
    ensures u in s.pc && u != t && Covered(s.pc[u])
  {
    assert t in Counted(s);
    var others := Counted(s) - {t};
    assert |others| != 0;
    u :| u in others;
  }

  lemma {:induction false} HeldStep(s: State, a: Step)
    requires Inv(s)
    ensures HeldInv(Run(s, a))
  {
    var t := a.t;
    if t in s.pc {
      var u := Run(s, a);
      StepEffect(s, a);
      LgEffect(s, a);
      if u.lr && s.lr {
        var h :| h in s.pc && HoldsLr(s.pc[h]);
        assert h in u.pc && HoldsLr(u.pc[h]);
      }
      if u.lg && s.lg {
        var h :| h in s.pc && (s.pc[h].Writing? || Covered(s.pc[h]));
        if h == t && !u.pc[t].Writing? && !Covered(u.pc[t]) {
          h := LeftBehind(s, t);
        }
        assert h in u.pc && (u.pc[h].Writing? || Covered(u.pc[h]));
      } else if u.lg {
        assert t in u.pc && (u.pc[t].Writing? || Covered(u.pc[t]));
      }
      if u.lr && !s.lr {
        assert t in u.pc && HoldsLr(u.pc[t]);
      }
    }
  }

  lemma {:induction false} InvStep(s: State, a: Step)
    requires Inv(s)
    ensures Inv(Run(s, a))
  {
    LrStep(s, a);
    CountStep(s, a);
    LgStep(s, a);
    HeldStep(s, a);
  }

  lemma {:induction false} InvExec(s: State, steps: seq<Step>)
    requires Initial(s)
    ensures Inv(Exec(s, steps))
    decreases |steps|
  {
    if steps == [] {
      assert Counted(s) == {};
    } else {
      InvExec(s, steps[..|steps| - 1]);
      InvStep(Exec(s, steps[..|steps| - 1]), steps[|steps| - 1]);
    }
  }

  // ----- the promises -----

  /** No writer is inside together with a reader or another writer, in any interleaving. */
  lemma {:induction false} Exclusion(s: State, steps: seq<Step>, t: Tid, u: Tid)
    requires Initial(s)
    ensures var e := Exec(s, steps);
            t in e.pc && u in e.pc && e.pc[t].Writing? && t != u ==> !e.pc[u].Writing? && !Inside(e.pc[u])
  {
    InvExec(s, steps);
  }

  /** Whenever lr is free, r is the number of readers inside, and lg is held exactly when they or a writer are inside. */
  lemma {:induction false} CountExact(s: State, steps: seq<Step>)
    requires Initial(s)
    ensures var e := Exec(s, steps);
            !e.lr ==> e.r == |Readers(e)| && (e.lg <==> Readers(e) != {} || exists t :: t in e.pc && e.pc[t].Writing?)
  {
    InvExec(s, steps);
    var e := Exec(s, steps);
    if !e.lr {
      assert Counted(e) == Readers(e);
      if Readers(e) != {} {
        var t :| t in Readers(e);
      }
      if e.lg {
        var t :| t in e.pc && (e.pc[t].Writing? || Covered(e.pc[t]));
        assert Covered(e.pc[t]) ==> t in Readers(e);
      }
    }
  }

  /** r never goes below zero: a reader that leaves has loaded a positive count. */
  lemma {:induction false} NoUnderflow(s: State, steps: seq<Step>, t: Tid)
    requires Initial(s)
    ensures var e := Exec(s, steps);
            e.r >= 0 && (t in e.pc && e.pc[t].LeaveStore? ==> e.pc[t].v > 0)
  {
    InvExec(s, steps);
    var e := Exec(s, steps);
    if t in e.pc && e.pc[t].LeaveStore? {
      assert t in Counted(e);
    }
  }

  /** The thread can take a step that changes the state. */
  ghost predicate CanMove(s: State, t: Tid) {
    t in s.pc && exists w :: Run(s, Step(t, w)) != s
  }

  /** There is no deadlock: as long as some thread is not outside, some thread that is not outside can move. */
  lemma {:induction false} NoDeadlock(s: State, steps: seq<Step>, t: Tid) returns (u: Tid)
    requires Initial(s) && t in Exec(s, steps).pc && Exec(s, steps).pc[t] != Idle
    ensures var e := Exec(s, steps);
            u in e.pc && e.pc[u] != Idle && CanMove(e, u)
  {
    InvExec(s, steps);
    var e := Exec(s, steps);
    u := t;
    if e.lr {
      u :| u in e.pc && HoldsLr(e.pc[u]);
    }
    if (e.pc[u].ReadFirst? || e.pc[u].WriteSpin?) && e.lg {
      var h :| h in e.pc && (e.pc[h].Writing? || Covered(e.pc[h]));
      if e.pc[u].ReadFirst? {
        FirstAlone(e, u, h);
      }
      u := h;
    }
    Moves(e, u);
  }

  /** A first reader that waits for lg waits for a writer. */
  lemma {:induction false} FirstAlone(e: State, u: Tid, h: Tid)
    requires Inv(e) && u in e.pc && h in e.pc && e.pc[u].ReadFirst?
    ensures !Covered(e.pc[h])
  {
    assert u in Counted(e);
    var others := Counted(e) - {u};
    assert |others| == 0;
    assert h !in others;
  }

  /** A thread that waits for no lock can move. */
  lemma {:induction false} Moves(e: State, u: Tid)
    requires CountInv(e) && u in e.pc && e.pc[u] != Idle
    requires e.lr ==> !e.pc[u].ReadSpin? && !e.pc[u].LeaveSpin?
    requires e.lg ==> !e.pc[u].ReadFirst? && !e.pc[u].WriteSpin?
    ensures CanMove(e, u)
  {
    var f := Run(e, Step(u, WantLeave));
    assert f.pc[u] != e.pc[u];
  }

  // ----- everybody gets in -----

  lemma {:induction false} ExecConcat(s: State, a: seq<Step>, b: seq<Step>)
    ensures Exec(s, a + b) == Exec(Exec(s, a), b)
    decreases |b|
  {
    if b == [] {
      assert a + b == a;
    } else {
      assert (a + b)[..|a + b| - 1] == a + b[..|b| - 1];
      ExecConcat(s, a, b[..|b| - 1]);
    }
  }

  lemma {:induction false} ExecOne(s: State, a: Step)
    ensures Exec(s, [a]) == Run(s, a)
  {
    assert [a][..0] == [];
  }

  lemma {:induction false} ExecMore(s: State, a: Step, more: seq<Step>)
    ensures Exec(s, [a] + more) == Exec(Run(s, a), more)
  {
    ExecConcat(s, [a], more);
    ExecOne(s, a);
  }

  /** Where a thread that is not outside is heading: inside, or out again. */
  function Goal(pc: Pc): Pc {
    if pc.ReadSpin? || pc.ReadLoad? || pc.ReadStore? || pc.ReadFirst? || pc.ReadDone? then Reading
    else if pc.WriteSpin? then Writing
    else Idle
  }

  /** `n` steps of thread `t` alone. */
  function Alone(t: Tid, n: nat): (steps: seq<Step>)
    ensures |steps| == n && forall k :: 0 <= k < n ==> steps[k] == Step(t, WantNothing)
  {
    seq(n, _ => Step(t, WantNothing))
  }

  lemma {:induction false} AloneMore(s: State, t: Tid, n: nat)
    requires n > 0
    ensures Exec(s, Alone(t, n)) == Exec(Run(s, Step(t, WantNothing)), Alone(t, n - 1))
  {
    assert Alone(t, n) == [Step(t, WantNothing)] + Alone(t, n - 1);
    ExecMore(s, Step(t, WantNothing), Alone(t, n - 1));
  }

  /** Readers share: while one is inside and lr is free, another gets in by four steps of its own. */
  lemma {:induction false} ReadersShare(s: State, steps: seq<Step>, t: Tid, u: Tid)
    requires Initial(s)
    requires var e := Exec(s, steps);
             t in e.pc && u in e.pc && e.pc[t].Reading? && e.pc[u].ReadSpin? && !e.lr
    ensures var e := Exec(s, steps);
            var f := Exec(e, Alone(u, 4));
            f.pc == e.pc[u := Reading] && f.pc[t].Reading? && f.r == e.r + 1 && !f.lr && f.lg
  {
    InvExec(s, steps);
    var e := Exec(s, steps);
    assert t in Counted(e);
    var w := Step(u, WantNothing);
    var e1 := Run(e, w);
    var e2 := Run(e1, w);
    var e3 := Run(e2, w);
    AloneMore(e, u, 4);
    AloneMore(e1, u, 3);
    AloneMore(e2, u, 2);
    AloneMore(e3, u, 1);
    assert Exec(Run(e3, w), Alone(u, 0)) == Run(e3, w);
  }

  /** With both locks free, a reader gets in by five steps of its own. */
  lemma {:induction false} FirstEnters(s: State, steps: seq<Step>, u: Tid)
    requires Initial(s)
    requires var e := Exec(s, steps);
             u in e.pc && e.pc[u].ReadSpin? && !e.lr && !e.lg
    ensures var e := Exec(s, steps);
            var f := Exec(e, Alone(u, 5));
            f.pc == e.pc[u := Reading] && f.r == 1 && !f.lr && f.lg
  {
    InvExec(s, steps);
    var e := Exec(s, steps);
    CountExact(s, steps);
    assert e.r == 0;
    var w := Step(u, WantNothing);
    var e1 := Run(e, w);
    var e2 := Run(e1, w);
    var e3 := Run(e2, w);
    var e4 := Run(e3, w);
    AloneMore(e, u, 5);
    AloneMore(e1, u, 4);
    AloneMore(e2, u, 3);
    AloneMore(e3, u, 2);
    AloneMore(e4, u, 1);
    assert Exec(Run(e4, w), Alone(u, 0)) == Run(e4, w);
  }

  /** With lr free, a reader inside gets out by steps of its own, whoever else is inside, and the last one frees lg. */
  lemma {:induction false} ReaderLeaves(s: State, steps: seq<Step>, u: Tid)
    requires Initial(s)
    requires var e := Exec(s, steps);
             u in e.pc && e.pc[u].Reading? && !e.lr
    ensures var e := Exec(s, steps);
            var f := Exec(Run(e, Step(u, WantLeave)), Alone(u, 5));
            f.pc == e.pc[u := Idle] && f.r == e.r - 1 && !f.lr && (f.lg <==> Readers(e) != {u})
  {
    InvExec(s, steps);
    var e := Exec(s, steps);
    CountExact(s, steps);
    OnlyReader(e, u);
    hide *;
    LeaveSteps(e, u);
  }

  lemma {:induction false} LeaveSteps(e: State, u: Tid)
    requires u in e.pc && e.pc[u].Reading? && !e.lr && e.r >= 1
    ensures Exec(Run(e, Step(u, WantLeave)), Alone(u, 5)) == State(e.r - 1, false, e.lg && e.r > 1, e.pc[u := Idle])
  {
    LeaveCounts(e, u);
    LeaveEnds(e, u);
    hide Run, Exec;
    var e0 := Run(e, Step(u, WantLeave));
    var e2 := State(e.r, true, e.lg, e.pc[u := LeaveStore(e.r)]);
    var e3 := State(e.r - 1, true, e.lg, e.pc[u := if e.r == 1 then LeaveLast else LeaveDone]);
    AloneMore(e0, u, 5);
    AloneMore(Run(e0, Step(u, WantNothing)), u, 4);
    AloneMore(e2, u, 3);
    AloneMore(e3, u, 2);
    AloneMore(Run(e3, Step(u, WantNothing)), u, 1);
    ExecNone(Run(Run(e3, Step(u, WantNothing)), Step(u, WantNothing)), u);
  }

  lemma {:induction false} ExecNone(s: State, u: Tid)
    ensures Exec(s, Alone(u, 0)) == s
  {
  }

  lemma {:induction false} LeaveCounts(e: State, u: Tid)
    requires u in e.pc && e.pc[u].Reading? && !e.lr && e.r >= 1
    ensures var w := Step(u, WantNothing);
            var e2 := State(e.r, true, e.lg, e.pc[u := LeaveStore(e.r)]);
            && Run(Run(Run(e, Step(u, WantLeave)), w), w) == e2
            && Run(e2, w) == State(e.r - 1, true, e.lg, e.pc[u := if e.r == 1 then LeaveLast else LeaveDone])
  {
    var e1 := State(e.r, true, e.lg, e.pc[u := LeaveLoad]);
    assert Run(Run(e, Step(u, WantLeave)), Step(u, WantNothing)) == e1;
  }

  lemma {:induction false} LeaveEnds(e: State, u: Tid)
    requires u in e.pc && e.r >= 1
    ensures var w := Step(u, WantNothing);
            var e3 := State(e.r - 1, true, e.lg, e.pc[u := if e.r == 1 then LeaveLast else LeaveDone]);
            Run(Run(e3, w), w) == State(e.r - 1, false, e.lg && e.r > 1, e.pc[u := Idle])
  {
    var e3 := State(e.r - 1, true, e.lg, e.pc[u := if e.r == 1 then LeaveLast else LeaveDone]);
    if e.r == 1 {
      assert Run(e3, Step(u, WantNothing)) == State(0, true, false, e.pc[u := LeaveDone]);
    } else {
      assert Run(e3, Step(u, WantNothing)) == State(e.r - 1, false, e.lg, e.pc[u := Idle]);
    }
  }

  lemma {:induction false} OnlyReader(s: State, u: Tid)
    requires u in s.pc && s.pc[u].Reading?
    ensures |Readers(s)| >= 1 && (|Readers(s)| == 1 <==> Readers(s) == {u})
  {
    var rest := Readers(s) - {u};
    assert Readers(s) == rest + {u};
  }

  /** With lg free, a waiting writer is inside after its next step. */
  lemma {:induction false} WriterEnters(s: State, steps: seq<Step>, t: Tid, w: Want)
    requires Initial(s)
    requires var e := Exec(s, steps);
             t in e.pc && e.pc[t].WriteSpin? && !e.lg
    ensures var e := Exec(s, steps);
            var f := Run(e, Step(t, w));
            f.pc == e.pc[t := Writing] && f.lg && f.r == e.r && f.lr == e.lr
  {
  }

  /** The thread in the section of lr still has to get lg. */
  predicate NeedsLg(s: State, t: Tid)
    requires t in s.pc
  {
    s.pc[t].ReadFirst? || (s.pc[t].ReadStore? && s.pc[t].v == 0) || (s.pc[t].ReadLoad? && s.r == 0)
  }

  /** How many steps of the section of lr are left at most. */
  function Left(pc: Pc): nat {
    if pc.ReadLoad? || pc.LeaveLoad? then 4
    else if pc.ReadStore? || pc.LeaveStore? then 3
    else if pc.ReadFirst? || pc.LeaveLast? then 2
    else 1
  }

  /** A thread in the section of lr that need not wait for lg comes to its end. */
  lemma {:induction false} Finish(s: State, t: Tid) returns (more: seq<Step>)
    requires Inv(s) && t in s.pc && HoldsLr(s.pc[t]) && (NeedsLg(s, t) ==> !s.lg)
    ensures var f := Exec(s, more);
            Inv(f) && f.pc == s.pc[t := Goal(s.pc[t])] && !f.lr
    decreases Left(s.pc[t])
  {
    hide Inv, Run;
    var a := Step(t, WantNothing);
    var u := Run(s, a);
    InvStep(s, a);
    FinishStep(s, t);
    if HoldsLr(u.pc[t]) {
      var rest := Finish(u, t);
      ExecMore(s, a, rest);
      more := [a] + rest;
    } else {
      ExecOne(s, a);
      more := [a];
    }
  }

  lemma {:induction false} FinishStep(s: State, t: Tid)
    requires Inv(s) && t in s.pc && HoldsLr(s.pc[t]) && (NeedsLg(s, t) ==> !s.lg)
    ensures var u := Run(s, Step(t, WantNothing));
            && u.pc == s.pc[t := u.pc[t]]
            && (HoldsLr(u.pc[t]) ==> Left(u.pc[t]) < Left(s.pc[t]) && (NeedsLg(u, t) ==> !u.lg) && Goal(u.pc[t]) == Goal(s.pc[t]))
            && (!HoldsLr(u.pc[t]) ==> u.pc[t] == Goal(s.pc[t]) && !u.lr)
  {
  }

  /** Who needs lg in the section of lr and finds it taken waits for a writer inside. */
  lemma {:induction false} WaitsForWriter(s: State, t: Tid) returns (w: Tid)
    requires Inv(s) && t in s.pc && HoldsLr(s.pc[t]) && NeedsLg(s, t) && s.lg
    ensures w in s.pc && s.pc[w].Writing? && w != t
  {
    if !s.pc[t].ReadFirst? {
      assert Counted(s) == {};
    }
    forall x | x in s.pc
      ensures !Covered(s.pc[x])
    {
      if s.pc[t].ReadFirst? {
        FirstAlone(s, t, x);
      } else {
        assert x !in Counted(s);
      }
    }
    w :| w in s.pc && (s.pc[w].Writing? || Covered(s.pc[w]));
  }

  /** What others do for it: at most, writers leave. */
  ghost predicate Aside(s: State, f: State, t: Tid) {
    && f.pc.Keys == s.pc.Keys
    && forall x :: x in s.pc && x != t ==> f.pc[x] == s.pc[x] || (s.pc[x].Writing? && f.pc[x] == Idle)
  }

  /** A thread in the section of lr comes to its end, once a writer inside has left. */
  lemma {:induction false} FinishAny(s: State, t: Tid) returns (more: seq<Step>)
    requires Inv(s) && t in s.pc && HoldsLr(s.pc[t])
    ensures var f := Exec(s, more);
            Inv(f) && Aside(s, f, t) && f.pc[t] == Goal(s.pc[t]) && !f.lr
  {
    hide Inv;
    if NeedsLg(s, t) && s.lg {
      var w := WaitsForWriter(s, t);
      var a := Step(w, WantLeave);
      InvStep(s, a);
      var rest := Finish(Run(s, a), t);
      ExecMore(s, a, rest);
      more := [a] + rest;
    } else {
      more := Finish(s, t);
    }
  }

  /** lr becomes free: the thread in its section, if there is one, comes to its end. */
  lemma {:induction false} FreeLr(s: State, t: Tid) returns (more: seq<Step>)
    requires Inv(s) && t in s.pc && !HoldsLr(s.pc[t]) && !s.pc[t].Writing?
    ensures var f := Exec(s, more);
            Inv(f) && !f.lr && t in f.pc && f.pc[t] == s.pc[t]
  {
    more := [];
    if s.lr {
      var h :| h in s.pc && HoldsLr(s.pc[h]);
      more := FinishAny(s, h);
    }
  }

  /** A thread that waits for lr goes through its section. */
  lemma {:induction false} ThroughLr(s: State, t: Tid) returns (more: seq<Step>)
    requires Inv(s) && t in s.pc && (s.pc[t].ReadSpin? || s.pc[t].LeaveSpin?) && !s.lr
    ensures var f := Exec(s, more);
            Inv(f) && Aside(s, f, t) && f.pc[t] == Goal(s.pc[t]) && !f.lr
  {
    hide Inv;
    var a := Step(t, WantNothing);
    var u := Run(s, a);
    InvStep(s, a);
    var rest := FinishAny(u, t);
    ExecMore(s, a, rest);
    more := [a] + rest;
  }

  /** A thread inside leaves. */
  lemma {:induction false} Leaves(s: State, t: Tid) returns (more: seq<Step>)
    requires Inv(s) && t in s.pc && s.pc[t].Reading? && !s.lr
    ensures var f := Exec(s, more);
            Inv(f) && Aside(s, f, t) && f.pc[t] == Idle && !f.lr
  {
    hide Inv;
    var a := Step(t, WantLeave);
    var u := Run(s, a);
    InvStep(s, a);
    var rest := ThroughLr(u, t);
    ExecMore(s, a, rest);
    more := [a] + rest;
  }

  /** lg becomes free for a waiting writer: a writer or all readers inside leave. */
  lemma {:induction false} FreeLg(s: State, t: Tid) returns (more: seq<Step>)
    requires Inv(s) && t in s.pc && s.pc[t].WriteSpin? && !s.lr
    ensures var f := Exec(s, more);
            Inv(f) && !f.lg && t in f.pc && f.pc[t] == s.pc[t]
    decreases |Counted(s)|
  {
    more := [];
    if s.lg {
      var h :| h in s.pc && (s.pc[h].Writing? || Covered(s.pc[h]));
      if s.pc[h].Writing? {
        var a := Step(h, WantLeave);
        InvStep(s, a);
        ExecOne(s, a);
        more := [a];
      } else {
        var first;
        if s.pc[h].Reading? {
          first := Leaves(s, h);
        } else {
          first := ThroughLr(s, h);
        }
        var u := Exec(s, first);
        FewerReaders(s, u, h);
        var rest := FreeLg(u, t);
        ExecConcat(s, first, rest);
        more := first + rest;
      }
    }
  }

  lemma {:induction false} FewerReaders(s: State, f: State, h: Tid)
    requires h in s.pc && Counts(s.pc[h]) && Aside(s, f, h) && f.pc[h] == Idle
    ensures |Counted(f)| < |Counted(s)|
  {
    assert Counted(f) == Counted(s) - {h};
  }

  /**
    Every thread that is not outside has a continuation of the run in which it reaches its goal: a
    reader or writer that waits gets inside, a thread inside or on its way out gets out.
   */
  lemma {:induction false} Progress(s: State, steps: seq<Step>, t: Tid) returns (more: seq<Step>)
    requires Initial(s) && t in Exec(s, steps).pc && Exec(s, steps).pc[t] != Idle
    ensures var e := Exec(s, steps);
            var f := Exec(s, steps + more);
            t in f.pc && f.pc[t] == Goal(e.pc[t])
  {
    InvExec(s, steps);
    var e := Exec(s, steps);
    hide Inv, Exec;
    more := Reaches(e, t);
    ExecConcat(s, steps, more);
  }

  lemma {:induction false} Reaches(e: State, t: Tid) returns (more: seq<Step>)
    requires Inv(e) && t in e.pc && e.pc[t] != Idle
    ensures var f := Exec(e, more);
            t in f.pc && f.pc[t] == Goal(e.pc[t])
  {
    if HoldsLr(e.pc[t]) {
      more := FinishAny(e, t);
    } else if e.pc[t].Writing? {
      ExecOne(e, Step(t, WantLeave));
      more := [Step(t, WantLeave)];
    } else {
      var first := FreeLr(e, t);
      var u := Exec(e, first);
      var rest;
      if e.pc[t].WriteSpin? {
        var free := FreeLg(u, t);
        var a := Step(t, WantNothing);
        ExecOne(Exec(u, free), a);
        ExecConcat(u, free, [a]);
        rest := free + [a];
      } else if e.pc[t].Reading? {
        rest := Leaves(u, t);
      } else {
        rest := ThroughLr(u, t);
      }
      ExecConcat(e, first, rest);
      more := first + rest;
    }
  }
}
