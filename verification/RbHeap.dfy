/**
  The memory of libec/rbtree.h: one record for each node, and what it means for
  the records to hold a given tree.
 */
module RbHeap {
  import opened RbShape

  /** struct rb_node; the word rb_info is kept unpacked as father, position and colour. */
  datatype Rec = Rec(left: Ptr, right: Ptr, father: Ptr, pos: Dir, red: bool) {
    function Kid(d: Dir): Ptr { if d.L? then left else right }
    function SetKid(d: Dir, p: Ptr): Rec { if d.L? then this.(left := p) else this.(right := p) }
  }

  type Heap = map<Ptr, Rec>

  // ----- the macros of rbtree.h -----

  predicate Red(h: Heap, p: Ptr)
    requires p == NULL || p in h
  {
    p != NULL && h[p].red
  }

  function SetKid(h: Heap, p: Ptr, d: Dir, q: Ptr): Heap
    requires p in h
  {
    h[p := h[p].SetKid(d, q)]
  }

  function SetFather(h: Heap, p: Ptr, f: Ptr): Heap
    requires p in h
  {
    h[p := h[p].(father := f)]
  }

  function SetPosition(h: Heap, p: Ptr, d: Dir): Heap
    requires p in h
  {
    h[p := h[p].(pos := d)]
  }

  function Mark(h: Heap, p: Ptr, red: bool): Heap
    requires p in h
  {
    h[p := h[p].(red := red)]
  }

  function SwapProperties(h: Heap, a: Ptr, b: Ptr): Heap
    requires a in h && b in h
  {
    h[a := h[a].(pos := h[b].pos, red := h[b].red)][b := h[b].(pos := h[a].pos, red := h[a].red)]
  }

  function CopyProperties(h: Heap, dst: Ptr, src: Ptr): Heap
    requires dst in h && src in h
  {
    h[dst := h[dst].(pos := h[src].pos, red := h[src].red)]
  }

  // ----- records that hold a tree -----

  ghost predicate Rep(h: Heap, t: Tree, f: Ptr, p: Dir)
  {
    t.Node? ==>
      && t.x != NULL && t.x != HEAD && t.x in h
      && h[t.x] == Rec(Root(t.left), Root(t.right), f, p, t.red)
      && Rep(h, t.left, t.x, L) && Rep(h, t.right, t.x, R)
  }

  ghost predicate RepC(h: Heap, c: Ctx, hole: Ptr)
  {
    match c
    case Top => HEAD in h && h[HEAD].left == hole
    case Down(up, d, x, red, sib) =>
      && x != NULL && x != HEAD && x in h
      && h[x].Kid(d) == hole && h[x].Kid(d.Other()) == Root(sib)
      && h[x].father == Father(up) && h[x].pos == Position(up) && h[x].red == red
      && Rep(h, sib, x, d.Other())
      && RepC(h, up, x)
  }

  /** Memory holds `Plug(c, t)`, seen from the root of `t`. */
  ghost predicate At(h: Heap, c: Ctx, t: Tree) {
    && Rep(h, t, Father(c), Position(c))
    && RepC(h, c, Root(t))
    && Uq(t) && UqC(c) && Ids(t) !! IdsC(c)
  }

  ghost predicate Same(h: Heap, h': Heap, s: set<Ptr>) {
    forall i :: i in s && i in h ==> i in h' && h'[i] == h[i]
  }

  /** Only nodes of `s` and the root pointer may differ; the rest of the tree header does not. */
  ghost predicate Within(h: Heap, h': Heap, s: set<Ptr>) {
    && h'.Keys == h.Keys
    && (forall i :: i in h && i !in s && i != HEAD ==> h'[i] == h[i])
    && (HEAD in h ==> h'[HEAD] == h[HEAD].(left := h'[HEAD].left))
  }

  lemma {:induction false} WithinTrans(h: Heap, h': Heap, h'': Heap, s: set<Ptr>)
    requires Within(h, h', s) && Within(h', h'', s)
    ensures Within(h, h'', s)
  {
  }

  lemma {:induction false} MarkWithin(h: Heap, x: Ptr, red: bool, s: set<Ptr>)
    requires x in s && x in h && x != HEAD
    ensures Within(h, Mark(h, x, red), s)
  {
  }

  lemma {:induction false} FrameT(h: Heap, h': Heap, t: Tree, f: Ptr, p: Dir)
    requires Rep(h, t, f, p) && Same(h, h', Ids(t))
    ensures Rep(h', t, f, p)
    decreases t
  {
    if t.Node? {
      FrameT(h, h', t.left, t.x, L);
      FrameT(h, h', t.right, t.x, R);
    }
  }

  lemma {:induction false} FrameC(h: Heap, h': Heap, c: Ctx, hole: Ptr)
    requires RepC(h, c, hole) && Same(h, h', IdsC(c) + {HEAD})
    ensures RepC(h', c, hole)
    decreases c
  {
    if c.Down? {
      FrameT(h, h', c.sib, c.x, c.d.Other());
      FrameC(h, h', c.up, c.x);
    }
  }

  lemma {:induction false} RepIds(h: Heap, t: Tree, f: Ptr, p: Dir)
    requires Rep(h, t, f, p)
    ensures Ids(t) <= h.Keys && NULL !in Ids(t) && HEAD !in Ids(t)
    decreases t
  {
    if t.Node? {
      RepIds(h, t.left, t.x, L);
      RepIds(h, t.right, t.x, R);
    }
  }

  lemma {:induction false} RepIdsC(h: Heap, c: Ctx, hole: Ptr)
    requires RepC(h, c, hole)
    ensures IdsC(c) <= h.Keys && NULL !in IdsC(c) && HEAD !in IdsC(c)
    ensures HEAD in h
    decreases c
  {
    if c.Down? {
      RepIds(h, c.sib, c.x, c.d.Other());
      RepIdsC(h, c.up, c.x);
    }
  }

  /** The view can move freely between a node and its child. */
  lemma {:induction false} Move(h: Heap, c: Ctx, d: Dir, near: Tree, x: Ptr, red: bool, far: Tree)
    ensures At(h, c, Mk(d, near, x, red, far)) <==> At(h, Down(c, d, x, red, far), near)
  {
    var e := Down(c, d, x, red, far);
    var u := Mk(d, near, x, red, far);
    assert Ids(u) == Ids(near) + {x} + Ids(far);
    assert IdsC(e) == IdsC(c) + {x} + Ids(far);
  }

  lemma {:induction false} MoveTop(h: Heap, c: Ctx, t: Tree)
    ensures At(h, c, t) <==> At(h, Top, Plug(c, t))
    decreases c
  {
    if c.Down? {
      Move(h, c.up, c.d, t, c.x, c.red, c.sib);
      MoveTop(h, c.up, Mk(c.d, t, c.x, c.red, c.sib));
    }
  }

  /** Storing a new child pointer in the father re-targets the hole. */
  lemma {:induction false} Rehole(h: Heap, h': Heap, c: Ctx, hole: Ptr, hole': Ptr)
    requires RepC(h, c, hole) && UqC(c)
    requires Same(h, h', IdsC(c) + {HEAD} - {Father(c)})
    requires Father(c) in h'
    requires Father(c) in h ==> h'[Father(c)] == h[Father(c)].SetKid(Position(c), hole')
    ensures RepC(h', c, hole')
  {
    if c.Down? {
      RepIdsC(h, c, hole);
      FrameT(h, h', c.sib, c.x, c.d.Other());
      FrameC(h, h', c.up, c.x);
    }
  }

  /** Changing the father, position or colour of the root of a subtree. */
  lemma {:induction false} Reroot(h: Heap, h': Heap, t: Tree, f: Ptr, p: Dir, f': Ptr, p': Dir, red: bool)
    requires Rep(h, t, f, p) && Uq(t) && t.Node?
    requires Same(h, h', Ids(t) - {t.x})
    requires t.x in h' && h'[t.x] == h[t.x].(father := f', pos := p', red := red)
    ensures Rep(h', t.(red := red), f', p')
  {
    FrameT(h, h', t.left, t.x, L);
    FrameT(h, h', t.right, t.x, R);
  }

  /** RB_MARK_RED and RB_MARK_BLACK on the node in view. */
  lemma {:induction false} Recolour(h: Heap, c: Ctx, t: Tree, red: bool)
    requires At(h, c, t) && t.Node?
    ensures t.x in h && At(Mark(h, t.x, red), c, t.(red := red))
  {
    var h' := Mark(h, t.x, red);
    Reroot(h, h', t, Father(c), Position(c), Father(c), Position(c), red);
    RepIdsC(h, c, t.x);
    FrameC(h, h', c, t.x);
  }

  /** Storing a childless node in an empty place. */
  lemma {:induction false} Attach(h: Heap, h': Heap, c: Ctx, x: Ptr, red: bool)
    requires At(h, c, Leaf) && x != NULL && x != HEAD && x !in IdsC(c)
    requires x in h' && h'[x] == Rec(NULL, NULL, Father(c), Position(c), red)
    requires Same(h, h', IdsC(c) + {HEAD} - {Father(c)})
    requires Father(c) in h && Father(c) in h' && h'[Father(c)] == h[Father(c)].SetKid(Position(c), x)
    ensures At(h', c, Node(Leaf, x, red, Leaf))
  {
    Rehole(h, h', c, NULL, x);
    assert Rep(h', Leaf, x, L) && Rep(h', Leaf, x, R);
    assert Rep(h', Node(Leaf, x, red, Leaf), Father(c), Position(c));
  }

  lemma {:induction false} RepFather(h: Heap, c: Ctx, hole: Ptr)
    requires RepC(h, c, hole)
    ensures Father(c) in h && h[Father(c)].Kid(Position(c)) == hole
    ensures Father(c) == HEAD || Father(c) in IdsC(c)
  {
  }

  /**
    The stores of rb_tree_reparent_nodes, for a father `p`, its child `x`, the
    grandfather `g` and the grandchild `v` that changes sides.
   */
  lemma {:induction false} ReparentRecords(h: Heap, g: Ptr, p: Ptr, x: Ptr, v: Ptr, w: Dir)
    requires NULL !in h && g in h && p in h && x in h && (v == NULL || v in h)
    requires g != p && g != x && p != x && v != g && v != p && v != x
    requires h[p].Kid(w) == x && h[p].father == g && h[x].Kid(w.Other()) == v
    ensures var o := w.Other();
            var h1 := SetKid(h, g, h[p].pos, x);
            var h2 := SetKid(SetKid(h1, p, w, v), x, o, p);
            var h3 := SetFather(SetFather(h2, x, g), p, x);
            var h4 := SetPosition(SwapProperties(h3, x, p), p, o);
            var h5 := if v == NULL then h4 else SetPosition(SetFather(h4, v, p), v, w);
            && h5.Keys == h.Keys
            && h4[p].Kid(w) == v
            && h5[p] == Rec(NULL, NULL, x, o, h[x].red).SetKid(w, v).SetKid(o, h[p].Kid(o))
            && h5[x] == Rec(NULL, NULL, g, h[p].pos, h[p].red).SetKid(o, p).SetKid(w, h[x].Kid(w))
            && h5[g] == h[g].SetKid(h[p].pos, x)
            && (forall i :: i in h && i !in {p, x, g, v} ==> h5[i] == h[i])
            && (v != NULL ==> h5[v] == h[v].(father := p, pos := w))
  {
  }

  /** The record change of a rotation: the child `x` of `p` in direction `w` takes the place and colour of `p`. */
  ghost predicate Rotated(h: Heap, h': Heap, c: Ctx, w: Dir, inner: Tree, x: Ptr, xred: bool, outer: Tree,
                          p: Ptr, pred: bool, other: Tree)
    requires p in h && x in h && Father(c) in h
  {
    && h'.Keys == h.Keys
    && h'[p] == Rec(NULL, NULL, x, w.Other(), xred).SetKid(w, Root(inner)).SetKid(w.Other(), Root(other))
    && h'[x] == Rec(NULL, NULL, Father(c), Position(c), pred).SetKid(w.Other(), p).SetKid(w, Root(outer))
    && h'[Father(c)] == h[Father(c)].SetKid(Position(c), x)
    && (forall i :: i in h && i !in {p, x, Father(c), Root(inner)} ==> h'[i] == h[i])
    && (inner.Node? && inner.x in h ==> h'[inner.x] == h[inner.x].(father := p, pos := w))
  }

  /** `Rep` and `Uq` of a node in terms of its parts, whatever the direction. */
  lemma {:induction false} RepMk(h: Heap, d: Dir, near: Tree, x: Ptr, red: bool, far: Tree, f: Ptr, p: Dir)
    ensures Ids(Mk(d, near, x, red, far)) == Ids(near) + {x} + Ids(far)
    ensures Uq(Mk(d, near, x, red, far)) <==>
            x !in Ids(near) && x !in Ids(far) && Ids(near) !! Ids(far) && Uq(near) && Uq(far)
    ensures Rep(h, Mk(d, near, x, red, far), f, p) <==>
            && x != NULL && x != HEAD && x in h
            && h[x] == Rec(NULL, NULL, f, p, red).SetKid(d, Root(near)).SetKid(d.Other(), Root(far))
            && Rep(h, near, x, d) && Rep(h, far, x, d.Other())
  {
  }

  lemma {:induction false} AtMk(h: Heap, c: Ctx, d: Dir, near: Tree, x: Ptr, red: bool, far: Tree)
    ensures At(h, c, Mk(d, near, x, red, far)) <==>
            && x != NULL && x != HEAD && x in h
            && h[x] == Rec(NULL, NULL, Father(c), Position(c), red).SetKid(d, Root(near)).SetKid(d.Other(), Root(far))
            && Rep(h, near, x, d) && Rep(h, far, x, d.Other()) && RepC(h, c, x)
            && x !in Ids(near) && x !in Ids(far) && x !in IdsC(c)
            && Ids(near) !! Ids(far) && Ids(near) !! IdsC(c) && Ids(far) !! IdsC(c)
            && Uq(near) && Uq(far) && UqC(c)
  {
    RepMk(h, d, near, x, red, far, Father(c), Position(c));
  }

  lemma {:induction false} RotateParts(h: Heap, h': Heap, c: Ctx, w: Dir, inner: Tree, x: Ptr, xred: bool, outer: Tree,
                    p: Ptr, pred: bool, other: Tree)
    requires RepC(h, c, p) && Rep(h, inner, x, w.Other()) && Rep(h, outer, x, w) && Rep(h, other, p, w.Other())
    requires UqC(c) && Uq(inner)
    requires p != HEAD && x != HEAD && p !in IdsC(c) && x !in IdsC(c)
    requires p !in Ids(inner) && p !in Ids(outer) && p !in Ids(other)
    requires x !in Ids(inner) && x !in Ids(outer) && x !in Ids(other)
    requires Ids(inner) !! Ids(outer) && Ids(inner) !! Ids(other)
    requires Ids(inner) !! IdsC(c) && Ids(outer) !! IdsC(c) && Ids(other) !! IdsC(c)
    requires p in h && x in h && Father(c) in h
    requires Rotated(h, h', c, w, inner, x, xred, outer, p, pred, other)
    ensures RepC(h', c, x) && Rep(h', inner, p, w) && Rep(h', outer, x, w) && Rep(h', other, p, w.Other())
  {
    RotateKeeps(h, h', c, w, inner, x, xred, outer, p, pred, other);
    hide Rep, RepC, Uq, UqC, Ids, IdsC, Same, Rotated;
    FrameT(h, h', other, p, w.Other());
    FrameT(h, h', outer, x, w);
    Rehole(h, h', c, p, x);
    if inner.Node? {
      Reroot(h, h', inner, x, w.Other(), p, w, inner.red);
      assert inner.(red := inner.red) == inner;
    }
  }

  lemma {:induction false} RotateAway(h: Heap, h': Heap, c: Ctx, w: Dir, inner: Tree, x: Ptr, xred: bool, outer: Tree,
                    p: Ptr, pred: bool, other: Tree, s: set<Ptr>)
    requires p in h && x in h && Father(c) in h && Rotated(h, h', c, w, inner, x, xred, outer, p, pred, other)
    requires p !in s && x !in s && Father(c) !in s && Root(inner) !in s
    ensures Same(h, h', s)
  {
  }

  /** What a rotation leaves as it was, and what it does to the nodes that hang elsewhere. */
  lemma {:induction false} RotateKeeps(h: Heap, h': Heap, c: Ctx, w: Dir, inner: Tree, x: Ptr, xred: bool, outer: Tree,
                    p: Ptr, pred: bool, other: Tree)
    requires RepC(h, c, p) && Rep(h, inner, x, w.Other()) && Rep(h, outer, x, w) && Rep(h, other, p, w.Other())
    requires p != HEAD && x != HEAD && p !in IdsC(c) && x !in IdsC(c)
    requires p !in Ids(inner) && p !in Ids(outer) && p !in Ids(other)
    requires x !in Ids(inner) && x !in Ids(outer) && x !in Ids(other)
    requires Ids(inner) !! Ids(outer) && Ids(inner) !! Ids(other)
    requires Ids(inner) !! IdsC(c) && Ids(outer) !! IdsC(c) && Ids(other) !! IdsC(c)
    requires p in h && x in h && Father(c) in h
    requires Rotated(h, h', c, w, inner, x, xred, outer, p, pred, other)
    ensures Same(h, h', Ids(other)) && Same(h, h', Ids(outer)) && Same(h, h', IdsC(c) + {HEAD} - {Father(c)})
    ensures Father(c) in h' && h'[Father(c)] == h[Father(c)].SetKid(Position(c), x)
    ensures inner.Node? ==>
              && Same(h, h', Ids(inner) - {inner.x})
              && inner.x in h && inner.x in h' && h'[inner.x] == h[inner.x].(father := p, pos := w, red := h[inner.x].red)
              && h[inner.x].red == inner.red
  {
    assert Root(inner) == NULL || Root(inner) in Ids(inner);
    assert Father(c) == HEAD || Father(c) in IdsC(c);
    RepIds(h, other, p, w.Other());
    RepIds(h, outer, x, w);
    RepIds(h, inner, x, w.Other());
    RepIdsC(h, c, p);
    RotateAway(h, h', c, w, inner, x, xred, outer, p, pred, other, Ids(other));
    RotateAway(h, h', c, w, inner, x, xred, outer, p, pred, other, Ids(outer));
    RotateAway(h, h', c, w, inner, x, xred, outer, p, pred, other, IdsC(c) + {HEAD} - {Father(c)});
    if inner.Node? {
      RotateAway(h, h', c, w, inner, x, xred, outer, p, pred, other, Ids(inner) - {inner.x});
    }
  }

  lemma {:induction false} RotateRep(h: Heap, h': Heap, c: Ctx, w: Dir, inner: Tree, x: Ptr, xred: bool, outer: Tree,
                  p: Ptr, pred: bool, other: Tree)
    requires At(h, c, Mk(w, Mk(w.Other(), inner, x, xred, outer), p, pred, other))
    requires p in h && x in h && Father(c) in h
    requires Rotated(h, h', c, w, inner, x, xred, outer, p, pred, other)
    ensures At(h', c, Mk(w.Other(), Mk(w, inner, p, xred, other), x, pred, outer))
  {
    hide Rep, RepC, Uq, UqC, Ids, IdsC, At;
    AtMk(h, c, w, Mk(w.Other(), inner, x, xred, outer), p, pred, other);
    RepMk(h, w.Other(), inner, x, xred, outer, p, w);
    RotateParts(h, h', c, w, inner, x, xred, outer, p, pred, other);
    RepMk(h', w, inner, p, xred, other, x, w.Other());
    AtMk(h', c, w.Other(), Mk(w, inner, p, xred, other), x, pred, outer);
  }

  lemma {:induction false} RotateTree(h: Heap, h': Heap, c: Ctx, t: Tree, w: Dir)
    requires At(h, c, t) && t.Node? && Kid(t, w).Node?
    requires t.x in h && Kid(t, w).x in h && Father(c) in h
    requires var u := Kid(t, w);
             Rotated(h, h', c, w, Kid(u, w.Other()), u.x, u.red, Kid(u, w), t.x, t.red, Kid(t, w.Other()))
    ensures At(h', c, Rotate(t, w))
  {
    var u := Kid(t, w);
    assert t == Mk(w, Mk(w.Other(), Kid(u, w.Other()), u.x, u.red, Kid(u, w)), t.x, t.red, Kid(t, w.Other()));
    RotateRep(h, h', c, w, Kid(u, w.Other()), u.x, u.red, Kid(u, w), t.x, t.red, Kid(t, w.Other()));
  }

  /** What can be read off the records of a node and its child before a rotation. */
  lemma {:induction false} RotateView(h: Heap, c: Ctx, t: Tree, w: Dir)
    requires At(h, c, t) && t.Node? && Kid(t, w).Node?
    ensures var u := Kid(t, w);
            && t.x in h && u.x in h && Father(c) in h
            && h[t.x] == Rec(NULL, NULL, Father(c), Position(c), t.red).SetKid(w, u.x).SetKid(w.Other(), Root(Kid(t, w.Other())))
            && h[u.x] == Rec(NULL, NULL, t.x, w, u.red).SetKid(w, Root(Kid(u, w))).SetKid(w.Other(), Root(Kid(u, w.Other())))
            && (Kid(u, w.Other()).Node? ==> Root(Kid(u, w.Other())) in h)
            && t.x != u.x && Father(c) != t.x && Father(c) != u.x
            && Root(Kid(u, w.Other())) != t.x && Root(Kid(u, w.Other())) != u.x && Root(Kid(u, w.Other())) != Father(c)
            && NULL != t.x && NULL != u.x && NULL != Father(c)
            && (Kid(u, w.Other()).Node? ==> Root(Kid(u, w.Other())) != NULL)
  {
    RepFather(h, c, t.x);
    RepIdsC(h, c, t.x);
    RepIds(h, t, Father(c), Position(c));
    var u := Kid(t, w);
    assert Uq(u) && Rep(h, u, t.x, w);
    var v := Kid(u, w.Other());
    assert Rep(h, v, u.x, w.Other());
    assert Root(v) == NULL || Root(v) in Ids(v);
  }

  lemma {:induction false} RotateWithin(h: Heap, h': Heap, c: Ctx, t: Tree, w: Dir)
    requires NULL !in h
    requires At(h, c, t) && t.Node? && Kid(t, w).Node?
    requires t.x in h && Kid(t, w).x in h && Father(c) in h
    requires var u := Kid(t, w);
             Rotated(h, h', c, w, Kid(u, w.Other()), u.x, u.red, Kid(u, w), t.x, t.red, Kid(t, w.Other()))
    ensures Within(h, h', IdsC(c) + Ids(t))
  {
    var u := Kid(t, w);
    var v := Kid(u, w.Other());
    assert Root(v) == NULL || Root(v) in Ids(v);
    assert u.x in Ids(u) && Ids(v) <= Ids(u) <= Ids(t);
    RotateView(h, c, t, w);
    RepFather(h, c, t.x);
    RepIds(h, t, Father(c), Position(c));
    RepIdsC(h, c, t.x);
  }

  /** Case 1 of insertion: uncle and father become black, the grandfather red. */
  lemma {:induction false} RecolourUncle(h: Heap, g: Ctx, w: Dir, gp: Ptr, u: Tree, d: Dir, f: Ptr, s: Tree, t: Tree)
    requires At(h, Down(Down(g, w, gp, false, u), d, f, true, s), t) && u.Node?
    ensures u.x in h && f in h && gp in h
    ensures var h2 := Mark(Mark(h, u.x, false), f, false);
            var v := Mk(w, Mk(d, t, f, false, s), gp, false, u.(red := false));
            At(h2, g, v) && At(Mark(h2, gp, true), g, v.(red := true))
  {
    var o := w.Other();
    var ft := Mk(d, t, f, true, s);
    var u' := u.(red := false);
    Move(h, Down(g, w, gp, false, u), d, t, f, true, s);
    Move(h, g, w, ft, gp, false, u);
    assert Mk(w, ft, gp, false, u) == Mk(o, u, gp, false, ft);
    Move(h, g, o, u, gp, false, ft);
    Recolour(h, Down(g, o, gp, false, ft), u, false);
    var h1 := Mark(h, u.x, false);
    Move(h1, g, o, u', gp, false, ft);
    assert Mk(w, ft, gp, false, u') == Mk(o, u', gp, false, ft);
    Move(h1, g, w, ft, gp, false, u');
    Recolour(h1, Down(g, w, gp, false, u'), ft, false);
    var h2 := Mark(h1, f, false);
    Move(h2, g, w, Mk(d, t, f, false, s), gp, false, u');
    Recolour(h2, g, Mk(w, Mk(d, t, f, false, s), gp, false, u'), true);
  }
}
