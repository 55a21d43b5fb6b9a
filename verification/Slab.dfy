/** The slab allocator of libnux/slabinc.c and libnux/slab.c. */
module Slab {
  import opened Lists
  import Powers

  /** SLAB_SIZE */
  const SLAB: nat := 8192

  /** What struct slabhdr says of its slab: the count and the list of free objects. */
  datatype Slabhdr = Slabhdr(freecnt: nat, freeq: seq<nat>)

  /** ___slabobjs, for a header of `header` bytes. */
  function Objs(header: nat, objsize: nat): nat
    requires objsize > 0 && 2 * header <= SLAB
  {
    (SLAB - 2 * header) / objsize
  }

  /** A slab holds at least two objects exactly when two fit beside two headers. */
  lemma {:induction false} TwoObjects(header: nat, objsize: nat)
    requires objsize > 0 && 2 * header <= SLAB
    ensures Objs(header, objsize) >= 2 <==> 2 * objsize + 2 * header <= SLAB
  {
    var room := SLAB - 2 * header;
    var q := room / objsize;
    Powers.DivBounds(room, objsize);
    if q >= 2 {
      Powers.LeMul(2, q, objsize);
    } else {
      Powers.LeMul(q + 1, 2, objsize);
    }
  }

  /** As many objects as fit beside two headers, and not one more. */
  lemma {:induction false} MostObjects(header: nat, objsize: nat)
    requires objsize > 0 && 2 * header <= SLAB
    ensures Objs(header, objsize) * objsize + 2 * header <= SLAB < (Objs(header, objsize) + 1) * objsize + 2 * header
  {
    Powers.DivBounds(SLAB - 2 * header, objsize);
  }

  /** ___slabgethdr: the slab of an address. */
  function Home(a: nat): nat {
    a / SLAB * SLAB
  }

  /** Object `i` of slab `h`. */
  function Obj(h: nat, header: nat, objsize: nat, i: nat): nat {
    h + header + i * objsize
  }

  /** The objects of a slab lie inside it and do not overlap, and each leads back to its slab. */
  lemma {:induction false} ObjHome(h: nat, header: nat, objsize: nat, i: nat, j: nat)
    requires objsize > 0 && header > 0 && 2 * header <= SLAB && h % SLAB == 0
    requires i < j < Objs(header, objsize)
    ensures Home(Obj(h, header, objsize, i)) == h && Home(Obj(h, header, objsize, j)) == h
    ensures h + header <= Obj(h, header, objsize, i) && Obj(h, header, objsize, i) + objsize <= Obj(h, header, objsize, j)
    ensures Obj(h, header, objsize, j) + objsize <= h + SLAB - header
  {
    var n := Objs(header, objsize);
    Steps(i, j, objsize);
    Steps(j, n, objsize);
    assert n * objsize <= SLAB - 2 * header;
    assert i * objsize >= 0;
    Inside(h, header + i * objsize);
    Inside(h, header + j * objsize);
  }

  lemma {:induction false} Steps(i: nat, j: nat, k: nat)
    requires i < j
    ensures i * k + k <= j * k
  {
    assert (i + 1) * k <= j * k;
  }

  lemma {:induction false} Inside(h: nat, d: nat)
    requires h % SLAB == 0 && d < SLAB
    ensures Home(h + d) == h
  {
  }

  // ----- queues -----

  datatype Kind = Empty | Partial | Full

  /** The queue that a count of free objects dictates. */
  function KindOf(freecnt: nat, objs: nat): Kind {
    if freecnt == 0 then Full else if freecnt == objs then Empty else Partial
  }

  /** Where alloc_opq leaves a slab that it takes from the partial or the empty queue. */
  function AfterAlloc(from: Kind, freecnt: nat): Kind {
    if from == Partial && freecnt == 1 then Full else Partial
  }

  /** Where free leaves a slab whose count it has raised to `freecnt`. */
  function AfterFree(from: Kind, freecnt: nat, objs: nat): Kind {
    if freecnt == 1 then Partial else if freecnt == objs then Empty else from
  }

  /** The queues follow the counts exactly when a slab does not hold just one object. */
  lemma {:induction false} QueuesExact(objs: nat)
    requires objs >= 1
    ensures (forall n :: 1 <= n <= objs ==> AfterAlloc(KindOf(n, objs), n) == KindOf(n - 1, objs)) <==> objs >= 2
    ensures (forall n :: 0 <= n < objs ==> AfterFree(KindOf(n, objs), n + 1, objs) == KindOf(n + 1, objs)) <==> objs >= 2
  {
    if objs == 1 {
      assert AfterAlloc(KindOf(1, 1), 1) != KindOf(0, 1);
      assert AfterFree(KindOf(0, 1), 1, 1) != KindOf(1, 1);
    }
  }

  /** A queue holds the slabs of its kind, each once. */
  ghost predicate Queued(q: seq<nat>, hdr: map<nat, Slabhdr>, objs: nat, kind: Kind) {
    NoDup(q) && forall h :: h in q <==> h in hdr && KindOf(hdr[h].freecnt, objs) == kind
  }

  /** A slab gets a new header: it leaves the queue of its old kind and joins that of its new one. */
  lemma {:induction false} QueueLeave(q: seq<nat>, hdr: map<nat, Slabhdr>, objs: nat, kind: Kind, h: nat, s: Slabhdr)
    requires Queued(q, hdr, objs, kind) && KindOf(s.freecnt, objs) != kind
    ensures Queued(Without(q, h), hdr[h := s], objs, kind)
  {
    WithoutElements(q, h);
  }

  lemma {:induction false} QueueJoin(q: seq<nat>, hdr: map<nat, Slabhdr>, objs: nat, kind: Kind, h: nat, s: Slabhdr)
    requires Queued(q, hdr, objs, kind) && KindOf(s.freecnt, objs) == kind
    ensures Queued(if h in q then q else [h] + q, hdr[h := s], objs, kind)
  {
  }

  lemma {:induction false} QueueOther(q: seq<nat>, hdr: map<nat, Slabhdr>, objs: nat, kind: Kind, h: nat, s: Slabhdr)
    requires Queued(q, hdr, objs, kind) && h !in q && KindOf(s.freecnt, objs) != kind
    ensures Queued(q, hdr[h := s], objs, kind)
  {
  }

  // ----- objects -----

  /** The layout of a cache: the size of the slab header and of its objects. */
  datatype Layout = Layout(header: nat, objsize: nat)

  /** The size that slab_register gives to objects: room for the list entry, and whole cache lines if asked. */
  function ObjSize(objsize: nat, cachealign: bool, objhdr: nat): (r: nat)
    ensures objsize <= r && objhdr <= r
    ensures cachealign ==> r == objhdr || (r % 64 == 0 && r < objsize + 64)
    ensures !cachealign ==> r == objhdr || r == objsize
  {
    var a := if cachealign then (objsize + 63) / 64 * 64 else objsize;
    if a >= objhdr then a else objhdr
  }

  ghost predicate LayoutOk(g: Layout) {
    g.objsize > 0 && g.header > 0 && 2 * g.header <= SLAB && ObjsOf(g) >= 2
  }

  function ObjsOf(g: Layout): nat {
    if g.objsize > 0 && 2 * g.header <= SLAB then Objs(g.header, g.objsize) else 0
  }

  ghost predicate OnGrid(g: Layout, h: nat, o: nat) {
    exists i: nat :: i < ObjsOf(g) && o == Obj(h, g.header, g.objsize, i)
  }

  lemma {:induction false} GridHome(g: Layout, h: nat, o: nat)
    requires LayoutOk(g) && h % SLAB == 0 && OnGrid(g, h, o)
    ensures Home(o) == h
  {
    var i: nat :| i < ObjsOf(g) && o == Obj(h, g.header, g.objsize, i);
    if i == 0 {
      ObjHome(h, g.header, g.objsize, 0, 1);
    } else {
      ObjHome(h, g.header, g.objsize, 0, i);
    }
  }

  lemma {:induction false} GridInside(g: Layout, h: nat, o: nat)
    requires LayoutOk(g) && h % SLAB == 0 && OnGrid(g, h, o)
    ensures h <= o && o + g.objsize <= h + SLAB
  {
    var i: nat :| i < ObjsOf(g) && o == Obj(h, g.header, g.objsize, i);
    if i == 0 {
      ObjHome(h, g.header, g.objsize, 0, 1);
    } else {
      ObjHome(h, g.header, g.objsize, 0, i);
    }
  }

  /** Two objects of a slab do not overlap. */
  lemma {:induction false} GridApart(g: Layout, h: nat, o: nat, p: nat)
    requires LayoutOk(g) && h % SLAB == 0 && OnGrid(g, h, o) && OnGrid(g, h, p) && o != p
    ensures o + g.objsize <= p || p + g.objsize <= o
  {
    var i: nat :| i < ObjsOf(g) && o == Obj(h, g.header, g.objsize, i);
    var j: nat :| j < ObjsOf(g) && p == Obj(h, g.header, g.objsize, j);
    if i < j {
      ObjHome(h, g.header, g.objsize, i, j);
    } else {
      ObjHome(h, g.header, g.objsize, j, i);
    }
  }

  ghost function LiveIn(live: set<nat>, h: nat): set<nat> {
    set o | o in live && Home(o) == h
  }

  /** The objects of a slab are free or live, and the header accounts for the free ones. */
  ghost predicate SlabOk(g: Layout, h: nat, s: Slabhdr, live: set<nat>) {
    && h % SLAB == 0
    && NoDup(s.freeq) && s.freecnt == |s.freeq|
    && |LiveIn(live, h)| + s.freecnt == ObjsOf(g)
    && forall o :: o in s.freeq ==> o !in live && OnGrid(g, h, o)
  }

  ghost predicate ObjectsOk(g: Layout, hdr: map<nat, Slabhdr>, live: set<nat>) {
    && (forall h :: h in hdr ==> SlabOk(g, h, hdr[h], live))
    && (forall o :: o in live ==> Home(o) in hdr && OnGrid(g, Home(o), o))
  }

  /** Taking the first free object of a slab. */
  lemma {:induction false} TakeObject(g: Layout, hdr: map<nat, Slabhdr>, live: set<nat>, h: nat)
    requires LayoutOk(g) && ObjectsOk(g, hdr, live) && h in hdr && hdr[h].freecnt > 0
    ensures hdr[h].freecnt == |hdr[h].freeq| <= ObjsOf(g)
    ensures var o := hdr[h].freeq[0];
            var s := Slabhdr(hdr[h].freecnt - 1, hdr[h].freeq[1..]);
            o !in live && Home(o) == h && ObjectsOk(g, hdr[h := s], live + {o})
  {
    assert SlabOk(g, h, hdr[h], live);
    var o := hdr[h].freeq[0];
    var s := Slabhdr(hdr[h].freecnt - 1, hdr[h].freeq[1..]);
    assert o in hdr[h].freeq;
    GridHome(g, h, o);
    LiveAdd(live, o);
    forall k | k in hdr
      ensures SlabOk(g, k, hdr[h := s][k], live + {o})
    {
      assert SlabOk(g, k, hdr[k], live);
      if k == h {
        assert forall x :: x in s.freeq ==> x in hdr[h].freeq && x != o;
      } else {
        assert LiveIn(live + {o}, k) == LiveIn(live, k);
        forall x | x in hdr[k].freeq
          ensures x != o
        {
          GridHome(g, k, x);
        }
      }
    }
  }

  lemma {:induction false} LiveAdd(live: set<nat>, o: nat)
    requires o !in live
    ensures |LiveIn(live + {o}, Home(o))| == |LiveIn(live, Home(o))| + 1
  {
    assert LiveIn(live + {o}, Home(o)) == LiveIn(live, Home(o)) + {o};
  }

  /** Putting a live object back. */
  lemma {:induction false} PutObject(g: Layout, hdr: map<nat, Slabhdr>, live: set<nat>, o: nat)
    requires LayoutOk(g) && ObjectsOk(g, hdr, live) && o in live
    ensures var h := Home(o);
            && h in hdr && hdr[h].freecnt < ObjsOf(g)
            && ObjectsOk(g, hdr[h := Slabhdr(hdr[h].freecnt + 1, [o] + hdr[h].freeq)], live - {o})
  {
    var h := Home(o);
    assert SlabOk(g, h, hdr[h], live);
    var s := Slabhdr(hdr[h].freecnt + 1, [o] + hdr[h].freeq);
    LiveAdd(live - {o}, o);
    assert live - {o} + {o} == live;
    forall k | k in hdr
      ensures SlabOk(g, k, hdr[h := s][k], live - {o})
    {
      assert SlabOk(g, k, hdr[k], live);
      if k != h {
        assert LiveIn(live - {o}, k) == LiveIn(live, k);
      }
    }
  }

  /** A slab without live objects can come or go. */
  lemma {:induction false} AddSlab(g: Layout, hdr: map<nat, Slabhdr>, live: set<nat>, h: nat, s: Slabhdr)
    requires ObjectsOk(g, hdr, live) && h !in hdr && h % SLAB == 0
    requires NoDup(s.freeq) && s.freecnt == |s.freeq| == ObjsOf(g) && forall o :: o in s.freeq ==> OnGrid(g, h, o) && Home(o) == h
    ensures ObjectsOk(g, hdr[h := s], live)
  {
    assert LiveIn(live, h) == {};
    forall o | o in s.freeq
      ensures o !in live
    {
      assert o in live ==> Home(o) in hdr;
    }
    assert SlabOk(g, h, s, live);
    forall k | k in hdr
      ensures SlabOk(g, k, hdr[h := s][k], live)
    {
      assert SlabOk(g, k, hdr[k], live);
    }
  }

  lemma {:induction false} DropSlab(g: Layout, hdr: map<nat, Slabhdr>, live: set<nat>, h: nat)
    requires ObjectsOk(g, hdr, live) && h in hdr && hdr[h].freecnt == ObjsOf(g)
    ensures ObjectsOk(g, hdr - {h}, live) && LiveIn(live, h) == {}
  {
    assert SlabOk(g, h, hdr[h], live);
    forall o | o in live
      ensures Home(o) != h
    {
      assert o !in LiveIn(live, h);
    }
    forall k | k in hdr - {h}
      ensures SlabOk(g, k, (hdr - {h})[k], live)
    {
      assert SlabOk(g, k, hdr[k], live);
    }
  }

  lemma {:induction false} QueueDrop(q: seq<nat>, hdr: map<nat, Slabhdr>, objs: nat, kind: Kind, h: nat)
    requires Queued(q, hdr, objs, kind)
    ensures Queued(Without(q, h), hdr - {h}, objs, kind)
    ensures h !in q ==> Queued(q, hdr - {h}, objs, kind)
  {
    WithoutElements(q, h);
  }

  /** The three queues share out the slabs. */
  ghost predicate Sorted(e: seq<nat>, p: seq<nat>, f: seq<nat>, hdr: map<nat, Slabhdr>, objs: nat) {
    Queued(e, hdr, objs, Empty) && Queued(p, hdr, objs, Partial) && Queued(f, hdr, objs, Full)
  }

  lemma {:induction false} InQueue(e: seq<nat>, p: seq<nat>, f: seq<nat>, hdr: map<nat, Slabhdr>, objs: nat)
    requires Sorted(e, p, f, hdr, objs)
    ensures e != [] ==> e[0] in hdr && hdr[e[0]].freecnt == objs && (objs > 0 ==> hdr[e[0]].freecnt > 0)
    ensures p != [] ==> p[0] in hdr && 0 < hdr[p[0]].freecnt && hdr[p[0]].freecnt != objs
  {
    if e != [] {
      assert e[0] in e;
    }
    if p != [] {
      assert p[0] in p;
    }
  }

  lemma {:induction false} FillPartial(e: seq<nat>, p: seq<nat>, f: seq<nat>, hdr: map<nat, Slabhdr>, objs: nat, s: Slabhdr)
    requires Sorted(e, p, f, hdr, objs) && p != [] && objs >= 2
    ensures s.freecnt == 0 ==> Sorted(e, p[1..], [p[0]] + f, hdr[p[0] := s], objs)
    ensures 0 < s.freecnt < objs ==> Sorted(e, p, f, hdr[p[0] := s], objs)
  {
    var h := p[0];
    assert h in p;
    assert Without(p, h) == p[1..];
    if s.freecnt == 0 {
      QueueOther(e, hdr, objs, Empty, h, s);
      QueueLeave(p, hdr, objs, Partial, h, s);
      QueueJoin(f, hdr, objs, Full, h, s);
    } else if s.freecnt < objs {
      QueueOther(e, hdr, objs, Empty, h, s);
      QueueJoin(p, hdr, objs, Partial, h, s);
      QueueOther(f, hdr, objs, Full, h, s);
    }
  }

  lemma {:induction false} OpenEmpty(e: seq<nat>, p: seq<nat>, f: seq<nat>, hdr: map<nat, Slabhdr>, objs: nat, s: Slabhdr)
    requires Sorted(e, p, f, hdr, objs) && e != [] && objs >= 2 && s.freecnt == objs - 1
    ensures Sorted(e[1..], [e[0]] + p, f, hdr[e[0] := s], objs)
  {
    var h := e[0];
    assert h in e;
    assert Without(e, h) == e[1..];
    QueueLeave(e, hdr, objs, Empty, h, s);
    QueueJoin(p, hdr, objs, Partial, h, s);
    QueueOther(f, hdr, objs, Full, h, s);
  }

  /** A slab gets one more free object. */
  lemma {:induction false} Refill(e: seq<nat>, p: seq<nat>, f: seq<nat>, hdr: map<nat, Slabhdr>, objs: nat, h: nat, s: Slabhdr)
    requires Sorted(e, p, f, hdr, objs) && h in hdr && objs >= 2 && s.freecnt == hdr[h].freecnt + 1 <= objs
    ensures s.freecnt == 1 ==> Sorted(e, [h] + p, Without(f, h), hdr[h := s], objs) && |Without(f, h)| == |f| - 1
    ensures s.freecnt == objs ==> Sorted([h] + e, Without(p, h), f, hdr[h := s], objs) && |Without(p, h)| == |p| - 1
    ensures 1 < s.freecnt < objs ==> Sorted(e, p, f, hdr[h := s], objs)
  {
    WithoutElements(f, h);
    WithoutElements(p, h);
    if s.freecnt == 1 {
      QueueOther(e, hdr, objs, Empty, h, s);
      QueueJoin(p, hdr, objs, Partial, h, s);
      QueueLeave(f, hdr, objs, Full, h, s);
    } else if s.freecnt == objs {
      QueueJoin(e, hdr, objs, Empty, h, s);
      QueueLeave(p, hdr, objs, Partial, h, s);
      QueueOther(f, hdr, objs, Full, h, s);
    } else {
      QueueOther(e, hdr, objs, Empty, h, s);
      QueueJoin(p, hdr, objs, Partial, h, s);
      QueueOther(f, hdr, objs, Full, h, s);
    }
  }

  lemma {:induction false} AddEmpty(e: seq<nat>, p: seq<nat>, f: seq<nat>, hdr: map<nat, Slabhdr>, objs: nat, h: nat, s: Slabhdr)
    requires Sorted(e, p, f, hdr, objs) && h !in hdr && objs >= 2 && s.freecnt == objs
    ensures Sorted([h] + e, p, f, hdr[h := s], objs)
  {
    QueueJoin(e, hdr, objs, Empty, h, s);
    QueueOther(p, hdr, objs, Partial, h, s);
    QueueOther(f, hdr, objs, Full, h, s);
  }

  lemma {:induction false} DropEmpty(e: seq<nat>, p: seq<nat>, f: seq<nat>, hdr: map<nat, Slabhdr>, objs: nat)
    requires Sorted(e, p, f, hdr, objs) && e != [] && objs >= 2
    ensures Sorted(e[1..], p, f, hdr - {e[0]}, objs)
  {
    assert e[0] in e;
    QueueDrop(e, hdr, objs, Empty, e[0]);
    QueueDrop(p, hdr, objs, Partial, e[0]);
    QueueDrop(f, hdr, objs, Full, e[0]);
  }

  // ----- the code on its queues, for any number of objects -----

  datatype Queues = Queues(emptyq: seq<nat>, freeq: seq<nat>, fullq: seq<nat>, hdr: map<nat, Slabhdr>)

  /** Fault: the code takes the head of an empty list of objects. */
  datatype Taken = Taken(q: Queues, obj: nat) | NoSlab | Fault

  /** What slab_alloc_opq does to the queues when it finds a slab. */
  function TakeCode(q: Queues): Taken {
    if q.freeq == [] && q.emptyq == [] then NoSlab else
    var from := if q.freeq != [] then Partial else Empty;
    var sh := if q.freeq != [] then q.freeq[0] else q.emptyq[0];
    if sh !in q.hdr || q.hdr[sh].freeq == [] || q.hdr[sh].freecnt == 0 then Fault else
    var s := q.hdr[sh];
    var hdr := q.hdr[sh := Slabhdr(s.freecnt - 1, s.freeq[1..])];
    if from == Empty then Taken(Queues(q.emptyq[1..], [sh] + q.freeq, q.fullq, hdr), s.freeq[0])
    else if AfterAlloc(from, s.freecnt) == Full then Taken(Queues(q.emptyq, q.freeq[1..], [sh] + q.fullq, hdr), s.freeq[0])
    else Taken(Queues(q.emptyq, q.freeq, q.fullq, hdr), s.freeq[0])
  }

  /** What slab_free does to them; LIST_REMOVE takes the slab off the queue it is in. */
  function FreeCode(q: Queues, o: nat, objs: nat): Queues
    requires Home(o) in q.hdr
  {
    var sh := Home(o);
    var s := Slabhdr(q.hdr[sh].freecnt + 1, [o] + q.hdr[sh].freeq);
    var hdr := q.hdr[sh := s];
    if AfterFree(KindOf(q.hdr[sh].freecnt, objs), s.freecnt, objs) == KindOf(q.hdr[sh].freecnt, objs)
    then Queues(q.emptyq, q.freeq, q.fullq, hdr)
    else if AfterFree(KindOf(q.hdr[sh].freecnt, objs), s.freecnt, objs) == Partial
    then Queues(Without(q.emptyq, sh), [sh] + Without(q.freeq, sh), Without(q.fullq, sh), hdr)
    else Queues([sh] + Without(q.emptyq, sh), Without(q.freeq, sh), Without(q.fullq, sh), hdr)
  }

  /** With one object in a slab, its allocation leaves the full slab in the partial queue, and the next one faults. */
  lemma {:induction false} OneObjectFaults(h: nat, o: nat)
    ensures var q := Queues([h], [], [], map[h := Slabhdr(1, [o])]);
            var t := TakeCode(q);
            && t.Taken? && t.obj == o && t.q.freeq == [h] && t.q.fullq == [] && t.q.hdr[h].freecnt == 0
            && TakeCode(t.q) == Fault
  {
  }

  /** With no object in a slab, the first allocation takes the head of its empty list. */
  lemma {:induction false} NoObjectFaults(h: nat)
    ensures TakeCode(Queues([h], [], [], map[h := Slabhdr(0, [])])) == Fault
  {
  }

  /** From a new slab with the objects `q`, two allocations are served if and only if it has two. */
  lemma {:induction false} TwoTakes(h: nat, q: seq<nat>)
    ensures var t := TakeCode(Queues([h], [], [], map[h := Slabhdr(|q|, q)]));
            (t.Taken? && TakeCode(t.q).Taken?) <==> |q| >= 2
  {
    if q == [] {
      NoObjectFaults(h);
    } else if |q| == 1 {
      assert q == [q[0]];
      OneObjectFaults(h, q[0]);
    }
  }

  /** The slab of an object that is freed is in the queue its count dictates, and in no other. */
  lemma {:induction false} OtherQueues(e: seq<nat>, p: seq<nat>, f: seq<nat>, hdr: map<nat, Slabhdr>, objs: nat, h: nat)
    requires Sorted(e, p, f, hdr, objs) && h in hdr
    ensures KindOf(hdr[h].freecnt, objs) != Empty ==> Without(e, h) == e
    ensures KindOf(hdr[h].freecnt, objs) != Partial ==> Without(p, h) == p
    ensures KindOf(hdr[h].freecnt, objs) != Full ==> Without(f, h) == f
  {
    if KindOf(hdr[h].freecnt, objs) != Empty {
      WithoutNone(e, h);
    }
    if KindOf(hdr[h].freecnt, objs) != Partial {
      WithoutNone(p, h);
    }
    if KindOf(hdr[h].freecnt, objs) != Full {
      WithoutNone(f, h);
    }
  }

  /** slab_free undoes slab_alloc_opq: the queues, their order and the lists of free objects are what they were. */
  lemma {:induction false} FreeUndoesTake(g: Layout, q: Queues, live: set<nat>)
    requires LayoutOk(g) && ObjectsOk(g, q.hdr, live) && Sorted(q.emptyq, q.freeq, q.fullq, q.hdr, ObjsOf(g))
    requires q.freeq != [] || q.emptyq != []
    ensures var t := TakeCode(q);
            t.Taken? && Home(t.obj) in t.q.hdr && FreeCode(t.q, t.obj, ObjsOf(g)) == q
  {
    hide Sorted, ObjectsOk, ObjsOf, Home, Without;
    var objs := ObjsOf(g);
    InQueue(q.emptyq, q.freeq, q.fullq, q.hdr, objs);
    var sh := if q.freeq != [] then q.freeq[0] else q.emptyq[0];
    TakeObject(g, q.hdr, live, sh);
    var s := Slabhdr(q.hdr[sh].freecnt - 1, q.hdr[sh].freeq[1..]);
    assert [q.hdr[sh].freeq[0]] + s.freeq == q.hdr[sh].freeq;
    if q.freeq != [] {
      FillPartial(q.emptyq, q.freeq, q.fullq, q.hdr, objs, s);
    } else {
      OpenEmpty(q.emptyq, q.freeq, q.fullq, q.hdr, objs, s);
    }
    var t := TakeCode(q).q;
    OtherQueues(t.emptyq, t.freeq, t.fullq, t.hdr, objs, sh);
    WithoutFirst(sh, q.freeq);
    WithoutFirst(sh, q.fullq);
    assert t.hdr[sh := q.hdr[sh]] == q.hdr;
  }

  /** struct slab with the headers of its slabs. */
  class Cache {
    const g: Layout
    var emptyq: seq<nat>
    var freeq: seq<nat>
    var fullq: seq<nat>
    var emptycnt: nat
    var freecnt: nat
    var fullcnt: nat
    /** The header of each slab, by its address. */
    var hdr: map<nat, Slabhdr>
    /** The objects handed out. */
    ghost var live: set<nat>

    /** The queues and headers as a value. */
    function View(): Queues
      reads this
    {
      Queues(emptyq, freeq, fullq, hdr)
    }

    ghost predicate Counted()
      reads this
    {
      && Sorted(emptyq, freeq, fullq, hdr, ObjsOf(g))
      && emptycnt == |emptyq| && freecnt == |freeq| && fullcnt == |fullq|
    }

    ghost predicate Valid()
      reads this
    {
      LayoutOk(g) && Counted() && ObjectsOk(g, hdr, live)
    }

    /** slab_register; `objhdr` is the size of the list entry that a free object holds. */
    constructor (header: nat, objhdr: nat, objsize: nat, cachealign: bool)
      requires LayoutOk(Layout(header, ObjSize(objsize, cachealign, objhdr)))
      ensures Valid() && g == Layout(header, ObjSize(objsize, cachealign, objhdr)) && live == {} && hdr == map[]
    {
      g := Layout(header, ObjSize(objsize, cachealign, objhdr));
      emptyq, freeq, fullq := [], [], [];
      emptycnt, freecnt, fullcnt := 0, 0, 0;
      hdr, live := map[], {};
    }

    /** The loop of slab_grow that chains the objects of a new slab. */
    method Chain(h: nat) returns (q: seq<nat>)
      requires LayoutOk(g) && h % SLAB == 0
      ensures NoDup(q) && |q| == ObjsOf(g) && forall o :: o in q ==> OnGrid(g, h, o) && Home(o) == h
      ensures forall k :: 0 <= k < |q| ==> q[k] == Obj(h, g.header, g.objsize, |q| - 1 - k)
    {
      q := [];
      var ptr := h + g.header;
      var i := 0;
      while i < ObjsOf(g)
        invariant i <= ObjsOf(g) && ptr == Obj(h, g.header, g.objsize, i)
        invariant NoDup(q) && |q| == i && forall o :: o in q ==> OnGrid(g, h, o) && o < ptr
        invariant forall k :: 0 <= k < i ==> q[k] == Obj(h, g.header, g.objsize, i - 1 - k)
      {
        assert OnGrid(g, h, ptr);
        q := [ptr] + q;
        NextObj(h, g.header, g.objsize, i);
        ptr := ptr + g.objsize;
        i := i + 1;
      }
      forall o | o in q
        ensures Home(o) == h
      {
        GridHome(g, h, o);
      }
    }

    /** slab_grow from the header on: a slab without live objects joins the empty queue. */
    method Attach(h: nat)
      requires Valid() && h % SLAB == 0 && h !in hdr
      modifies this
      ensures Valid() && live == old(live) && emptyq == [h] + old(emptyq) && freeq == old(freeq) && fullq == old(fullq)
      ensures hdr.Keys == old(hdr).Keys + {h}
    {
      var q := Chain(h);
      var s := Slabhdr(ObjsOf(g), q);
      AddSlab(g, hdr, live, h, s);
      AddEmpty(emptyq, freeq, fullq, hdr, ObjsOf(g), h, s);
      hdr := hdr[h := s];
      emptyq := [h] + emptyq;
      emptycnt := emptycnt + 1;
    }

    /** One round of slab_shrink: the first slab of the empty queue leaves, and it has no live objects. */
    method Detach() returns (h: nat)
      requires Valid() && emptyq != []
      modifies this
      ensures Valid() && live == old(live) && emptyq == old(emptyq)[1..] && freeq == old(freeq) && fullq == old(fullq)
      ensures h == old(emptyq)[0] && h in old(hdr) && hdr.Keys == old(hdr).Keys - {h} && LiveIn(live, h) == {}
    {
      hide Sorted, ObjectsOk, ObjsOf;
      h := emptyq[0];
      InQueue(emptyq, freeq, fullq, hdr, ObjsOf(g));
      DropEmpty(emptyq, freeq, fullq, hdr, ObjsOf(g));
      DropSlab(g, hdr, live, h);
      emptyq := emptyq[1..];
      emptycnt := emptycnt - 1;
      hdr := hdr - {h};
    }

    /** The rest of slab_alloc_opq: an object of the first partial slab, else of the first empty one. */
    method Take() returns (o: nat)
      requires Valid() && (freeq != [] || emptyq != [])
      modifies this
      ensures Valid() && o !in old(live) && live == old(live) + {o} && OnGrid(g, Home(o), o) && Home(o) in hdr
      ensures TakeCode(old(View())) == Taken(View(), o) && hdr.Keys == old(hdr).Keys
      ensures Home(o) == (if old(freeq) != [] then old(freeq)[0] else old(emptyq)[0])
      ensures Home(o) in old(hdr) && old(hdr)[Home(o)].freeq != [] && o == old(hdr)[Home(o)].freeq[0]
      ensures old(freeq) != [] ==> emptyq == old(emptyq)
    {
      hide Sorted, ObjectsOk, ObjsOf;
      InQueue(emptyq, freeq, fullq, hdr, ObjsOf(g));
      var sh := if freeq != [] then freeq[0] else emptyq[0];
      TakeObject(g, hdr, live, sh);
      var s := Slabhdr(hdr[sh].freecnt - 1, hdr[sh].freeq[1..]);
      if freeq != [] {
        FillPartial(emptyq, freeq, fullq, hdr, ObjsOf(g), s);
        if AfterAlloc(Partial, hdr[sh].freecnt) == Full {
          freeq := freeq[1..];
          fullq := [sh] + fullq;
          freecnt := freecnt - 1;
          fullcnt := fullcnt + 1;
        }
      } else {
        OpenEmpty(emptyq, freeq, fullq, hdr, ObjsOf(g), s);
        emptyq := emptyq[1..];
        freeq := [sh] + freeq;
        emptycnt := emptycnt - 1;
        freecnt := freecnt + 1;
      }
      o := hdr[sh].freeq[0];
      hdr := hdr[sh := s];
      live := live + {o};
      LiveOnGrid(g, hdr, live, o);
    }

    /** slab_free: a pointer that leads to no slab is ignored, an object of a slab must be live. */
    method Free(o: nat)
      requires Valid() && (Home(o) in hdr ==> o in live)
      modifies this
      ensures Valid() && hdr.Keys == old(hdr).Keys
      ensures Home(o) !in old(hdr) ==> live == old(live) && View() == old(View())
      ensures Home(o) in old(hdr) ==> live == old(live) - {o} && View() == FreeCode(old(View()), o, ObjsOf(g))
    {
      hide Sorted, ObjectsOk, ObjsOf, Home;
      var sh := Home(o);
      if sh !in hdr {
        return;
      }
      PutObject(g, hdr, live, o);
      var s := Slabhdr(hdr[sh].freecnt + 1, [o] + hdr[sh].freeq);
      Refill(emptyq, freeq, fullq, hdr, ObjsOf(g), sh, s);
      OtherQueues(emptyq, freeq, fullq, hdr, ObjsOf(g), sh);
      if s.freecnt == 1 {
        fullq := Without(fullq, sh);
        freeq := [sh] + freeq;
        fullcnt := fullcnt - 1;
        freecnt := freecnt + 1;
      } else if s.freecnt == ObjsOf(g) {
        freeq := Without(freeq, sh);
        emptyq := [sh] + emptyq;
        freecnt := freecnt - 1;
        emptycnt := emptycnt + 1;
      }
      hdr := hdr[sh := s];
      live := live - {o};
    }
  }

  lemma {:induction false} LiveOnGrid(g: Layout, hdr: map<nat, Slabhdr>, live: set<nat>, o: nat)
    requires ObjectsOk(g, hdr, live) && o in live
    ensures Home(o) in hdr && OnGrid(g, Home(o), o)
  {
  }

  lemma {:induction false} NextObj(h: nat, header: nat, objsize: nat, i: nat)
    ensures Obj(h, header, objsize, i + 1) == Obj(h, header, objsize, i) + objsize
  {
    assert (i + 1) * objsize == i * objsize + objsize;
  }
}
