/** The proof steps of removal (libec/rb.c). */
module RbRemoval {
  import opened RbShape
  import opened RbHeap
  import opened RbOrder
  import opened RbInsertion

  // ----- rebalancing -----

  /** The state of the loop of rb_tree_removal_rebalance: the subtree in view is one black node short. */
  ghost predicate Shorting(h0: Heap, h: Heap, ids: set<Ptr>, s: seq<Ptr>, c: Ctx, t: Tree, n: int) {
    && At(h, c, t) && Short(c, t, n)
    && In(Plug(c, t)) == s && IdsC(c) + Ids(t) == ids
    && NULL !in h && Within(h0, h, ids)
  }

  lemma {:induction false} ColourOf(h: Heap, t: Tree, f: Ptr, p: Dir)
    requires Rep(h, t, f, p)
    ensures Root(t) == NULL || Root(t) in h
    ensures Red(h, Root(t)) <==> IsRed(t)
    ensures Root(t) != HEAD
  {
  }

  /** What the loop reads. */
  lemma {:induction false} ShortView(h: Heap, c: Ctx, t: Tree, n: int)
    requires At(h, c, t) && Short(c, t, n)
    ensures c.Down? && c.sib.Node?
    ensures var b := c.sib;
            && c.x in h && b.x in h && HEAD in h && c.x != HEAD && b.x != HEAD
            && h[c.x].Kid(c.d) == Root(t) && h[c.x].Kid(c.d.Other()) == b.x && h[c.x].red == c.red
            && h[c.x].father == Father(c.up) && h[c.x].pos == Position(c.up)
            && (Root(t) == NULL || Root(t) in h) && !Red(h, Root(t))
            && h[b.x].left == Root(b.left) && h[b.x].right == Root(b.right) && h[b.x].red == b.red
            && (Root(b.left) == NULL || Root(b.left) in h) && (Red(h, Root(b.left)) <==> IsRed(b.left))
            && (Root(b.right) == NULL || Root(b.right) in h) && (Red(h, Root(b.right)) <==> IsRed(b.right))
            && b.x != NULL && (b.red ==> !c.red && BlackKids(b))
            && (h[HEAD].left == c.x <==> c.up.Top?)
  {
    ShortBrother(c, t, n);
    var b := c.sib;
    RepIdsC(h, c, Root(t));
    ColourOf(h, t, c.x, c.d);
    ColourOf(h, b.left, b.x, L);
    ColourOf(h, b.right, b.x, R);
    Move(h, c.up, c.d, t, c.x, c.red, b);
    RootIsTop(h, c.up, Mk(c.d, t, c.x, c.red, b));
  }

  /** Recolouring the brother of the subtree in view. */
  lemma {:induction false} RecolourSib(h: Heap, c: Ctx, t: Tree, red: bool)
    requires At(h, c, t) && c.Down? && c.sib.Node?
    ensures c.sib.x in h && At(Mark(h, c.sib.x, red), Down(c.up, c.d, c.x, c.red, c.sib.(red := red)), t)
  {
    var o := c.d.Other();
    SwapView(h, c, t);
    Recolour(h, Down(c.up, o, c.x, c.red, t), c.sib, red);
    SwapView(Mark(h, c.sib.x, red), Down(c.up, c.d, c.x, c.red, c.sib.(red := red)), t);
  }

  /** The view can move from a node to its brother. */
  lemma {:induction false} SwapView(h: Heap, c: Ctx, t: Tree)
    requires c.Down?
    ensures At(h, c, t) <==> At(h, Down(c.up, c.d.Other(), c.x, c.red, t), c.sib)
    ensures Plug(Down(c.up, c.d.Other(), c.x, c.red, t), c.sib) == Plug(c, t)
    ensures IdsC(Down(c.up, c.d.Other(), c.x, c.red, t)) + Ids(c.sib) == IdsC(c) + Ids(t)
  {
    var o := c.d.Other();
    assert Mk(c.d, t, c.x, c.red, c.sib) == Mk(o, c.sib, c.x, c.red, t);
    Move(h, c.up, c.d, t, c.x, c.red, c.sib);
    Move(h, c.up, o, c.sib, c.x, c.red, t);
  }

  /** Changing colours in a frame changes neither the sequence nor the nodes. */
  lemma {:induction false} SameSib(c: Ctx, c': Ctx, t: Tree)
    requires c.Down? && c'.Down? && c'.up == c.up && c'.d == c.d && c'.x == c.x && In(c'.sib) == In(c.sib)
    ensures In(Plug(c', t)) == In(Plug(c, t))
  {
    var u, u' := Mk(c.d, t, c.x, c.red, c.sib), Mk(c.d, t, c.x, c'.red, c'.sib);
    assert In(u') == In(u);
    SameIn(c.up, u', u);
  }

  lemma {:induction false} AllBlackStep(h0: Heap, h: Heap, ids: set<Ptr>, s: seq<Ptr>, c: Ctx, t: Tree, n: int)
    requires Shorting(h0, h, ids, s, c, t, n) && c.Down?
    requires !c.red && !IsRed(c.sib) && BlackKids(c.sib) && c.sib.x in h && c.x in h
    ensures var h' := Mark(h, c.sib.x, true);
            var v := Mk(c.d, t, c.x, false, c.sib.(red := true));
            && HEAD in h' && (h'[HEAD].left == c.x <==> c.up.Top?)
            && (c.up.Top? ==> Settled(h0, h', ids, s, v))
            && (c.up.Down? ==> && Shorting(h0, h', ids, s, c.up, v, n + 1)
                               && c.x in h' && h'[c.x].pos == c.up.d && h'[c.x].father == c.up.x)
  {
    var h' := Mark(h, c.sib.x, true);
    var b' := c.sib.(red := true);
    var v := Mk(c.d, t, c.x, false, b');
    ShortView(h, c, t, n);
    RecolourSib(h, c, t, true);
    RemoveAllBlack(c.up, c.d, c.x, c.sib, t, n);
    Move(h', c.up, c.d, t, c.x, false, b');
    SameSib(c, Down(c.up, c.d, c.x, false, b'), t);
    assert Ids(v) == Ids(t) + {c.x} + Ids(b') && Ids(b') == Ids(c.sib);
    assert IdsC(c.up) + Ids(v) == ids;
    MarkWithin(h, c.sib.x, true, ids);
    WithinTrans(h0, h, h', ids);
    RootIsTop(h', c.up, v);
    if c.up.Top? {
      Settle(h0, h', ids, s, c.up, v, n + 1);
    }
  }

  lemma {:induction false} RedBrotherStep(h0: Heap, h: Heap, h': Heap, ids: set<Ptr>, s: seq<Ptr>, c: Ctx, t: Tree, n: int)
    requires Shorting(h0, h, ids, s, c, t, n) && c.Down? && !c.red && IsRed(c.sib)
    requires var u := Mk(c.d, t, c.x, false, c.sib);
             && Kid(u, c.d.Other()).Node?
             && At(h', c.up, Rotate(u, c.d.Other())) && Within(h, h', IdsC(c.up) + Ids(u))
    ensures var e := Down(Down(c.up, c.d, c.sib.x, false, Kid(c.sib, c.d.Other())), c.d, c.x, true, Kid(c.sib, c.d));
            Shorting(h0, h', ids, s, e, t, n) && e.sib.Node? && !IsRed(e.sib)
  {
    hide Rep, RepC, Uq, UqC, At, In, Pre, Post;
    var o, b := c.d.Other(), c.sib;
    var u := Mk(c.d, t, c.x, false, b);
    var e1 := Down(c.up, c.d, b.x, false, Kid(b, o));
    var e := Down(e1, c.d, c.x, true, Kid(b, c.d));
    RemoveRedBrother(c.up, c.d, c.x, b, t, n);
    Move(h', c.up, c.d, Mk(c.d, t, c.x, true, Kid(b, c.d)), b.x, false, Kid(b, o));
    Move(h', e1, c.d, t, c.x, true, Kid(b, c.d));
    RotateIn(u, o);
    SameIn(c.up, u, Rotate(u, o));
    assert Plug(e, t) == Plug(c.up, Rotate(u, o)) && Plug(c, t) == Plug(c.up, u);
    assert Ids(u) == Ids(t) + {c.x} + Ids(b);
    assert Ids(b) == Ids(Kid(b, c.d)) + {b.x} + Ids(Kid(b, o));
    assert IdsC(e) + Ids(t) == ids;
    WithinTrans(h0, h, h', ids);
  }

  lemma {:induction false} RedFatherStep(h0: Heap, h: Heap, ids: set<Ptr>, s: seq<Ptr>, c: Ctx, t: Tree, n: int) returns (t': Tree)
    requires Shorting(h0, h, ids, s, c, t, n) && c.Down? && c.red && !IsRed(c.sib) && BlackKids(c.sib)
    requires c.x in h && c.sib.x in h
    ensures Settled(h0, Mark(Mark(h, c.x, false), c.sib.x, true), ids, s, t')
  {
    var b' := c.sib.(red := true);
    var u := Mk(c.d, t, c.x, true, c.sib);
    var v := Mk(c.d, t, c.x, false, b');
    ShortView(h, c, t, n);
    var h1 := Mark(h, c.x, false);
    var h2 := Mark(h1, c.sib.x, true);
    Move(h, c.up, c.d, t, c.x, true, c.sib);
    Recolour(h, c.up, u, false);
    Move(h1, c.up, c.d, t, c.x, false, c.sib);
    RecolourSib(h1, Down(c.up, c.d, c.x, false, c.sib), t, true);
    Move(h2, c.up, c.d, t, c.x, false, b');
    RemoveRedFather(c.up, c.d, c.x, c.sib, t, n);
    SameSib(c, Down(c.up, c.d, c.x, false, b'), t);
    MarkWithin(h, c.x, false, ids);
    MarkWithin(h1, c.sib.x, true, ids);
    WithinTrans(h0, h, h1, ids);
    WithinTrans(h0, h1, h2, ids);
    Settle(h0, h2, ids, s, c.up, v, n + 1);
    t' := Plug(c.up, v);
  }

  lemma {:induction false} InnerNephewStep(h0: Heap, h: Heap, h': Heap, ids: set<Ptr>, s: seq<Ptr>, c: Ctx, t: Tree, n: int)
    requires Shorting(h0, h, ids, s, c, t, n) && c.Down? && c.sib.Node? && !IsRed(c.sib)
    requires IsRed(Kid(c.sib, c.d)) && !IsRed(Kid(c.sib, c.d.Other()))
    requires var e := Down(c.up, c.d.Other(), c.x, c.red, t);
             At(h', e, Rotate(c.sib, c.d)) && Within(h, h', IdsC(e) + Ids(c.sib))
    ensures var e := Down(c.up, c.d, c.x, c.red, Rotate(c.sib, c.d));
            Shorting(h0, h', ids, s, e, t, n) && !IsRed(e.sib) && IsRed(Kid(e.sib, c.d.Other()))
  {
    var b' := Rotate(c.sib, c.d);
    var e := Down(c.up, c.d, c.x, c.red, b');
    RemoveInnerNephew(c.up, c.d, c.x, c.red, c.sib, t, n);
    SwapView(h, c, t);
    SwapView(h', e, t);
    RotateIn(c.sib, c.d);
    SameSib(c, e, t);
    RotateIds(c.sib, c.d);
    assert IdsC(e) + Ids(t) == ids;
    WithinTrans(h0, h, h', ids);
  }

  lemma {:induction false} RotateIds(t: Tree, w: Dir)
    requires t.Node? && Kid(t, w).Node?
    ensures Ids(Rotate(t, w)) == Ids(t)
  {
    var u, o := Kid(t, w), w.Other();
    assert Ids(u) == Ids(Kid(u, o)) + {u.x} + Ids(Kid(u, w));
    assert Ids(t) == Ids(u) + {t.x} + Ids(Kid(t, o));
    var v := Mk(w, Kid(u, o), t.x, u.red, Kid(t, o));
    assert Ids(v) == Ids(Kid(u, o)) + {t.x} + Ids(Kid(t, o));
    assert Ids(Rotate(t, w)) == Ids(v) + {u.x} + Ids(Kid(u, w));
  }

  /** Case 4, first store: the far nephew becomes black. */
  lemma {:induction false} OuterNephewMark(h0: Heap, h: Heap, ids: set<Ptr>, c: Ctx, t: Tree)
    requires At(h, c, t) && Within(h0, h, ids) && IdsC(c) + Ids(t) == ids && NULL !in h
    requires c.Down? && c.sib.Node? && Kid(c.sib, c.d.Other()).Node?
    ensures var o, b := c.d.Other(), c.sib;
            var k := Kid(b, o);
            var b' := Mk(o, k.(red := false), b.x, b.red, Kid(b, c.d));
            && k.x in h && b.x in h && h[b.x].Kid(o) == k.x
            && At(Mark(h, k.x, false), c.up, Mk(c.d, t, c.x, c.red, b')) && Within(h0, Mark(h, k.x, false), ids)
            && Ids(b') == Ids(b) && In(b') == In(b)
  {
    var o, b := c.d.Other(), c.sib;
    var k := Kid(b, o);
    var b' := Mk(o, k.(red := false), b.x, b.red, Kid(b, c.d));
    var e := Down(c.up, o, c.x, c.red, t);
    SwapView(h, c, t);
    assert b == Mk(o, k, b.x, b.red, Kid(b, c.d));
    Move(h, e, o, k, b.x, b.red, Kid(b, c.d));
    Recolour(h, Down(e, o, b.x, b.red, Kid(b, c.d)), k, false);
    var h' := Mark(h, k.x, false);
    Move(h', e, o, k.(red := false), b.x, b.red, Kid(b, c.d));
    Move(h', c.up, o, b', c.x, c.red, t);
    assert Mk(c.d, t, c.x, c.red, b') == Mk(o, b', c.x, c.red, t);
    assert k.x in Ids(k) && Ids(k) <= Ids(b);
    MarkWithin(h, k.x, false, ids);
    WithinTrans(h0, h, h', ids);
  }

  lemma {:induction false} OuterNephewStep(h0: Heap, h: Heap, h': Heap, ids: set<Ptr>, s: seq<Ptr>, c: Ctx, t: Tree, b': Tree, n: int)
    requires In(Plug(c, t)) == s && IdsC(c) + Ids(t) == ids && NULL !in h
    requires Short(c, t, n) && c.Down? && c.sib.Node? && !IsRed(c.sib) && IsRed(Kid(c.sib, c.d.Other()))
    requires b' == Mk(c.d.Other(), Kid(c.sib, c.d.Other()).(red := false), c.sib.x, false, Kid(c.sib, c.d))
    requires Ids(b') == Ids(c.sib) && In(b') == In(c.sib) && Kid(Mk(c.d, t, c.x, c.red, b'), c.d.Other()) == b'
    requires Within(h0, h, ids) && Within(h, h', IdsC(c.up) + Ids(Mk(c.d, t, c.x, c.red, b')))
    requires At(h', c.up, Rotate(Mk(c.d, t, c.x, c.red, b'), c.d.Other()))
    ensures Settled(h0, h', ids, s, Plug(c.up, Rotate(Mk(c.d, t, c.x, c.red, b'), c.d.Other())))
  {
    hide Rep, RepC, Uq, UqC, At, In, Pre, Post;
    var o := c.d.Other();
    var u := Mk(c.d, t, c.x, c.red, b');
    RemoveOuterNephew(c.up, c.d, c.x, c.red, c.sib, t, n);
    RotateIn(u, o);
    SameIn(c.up, u, Rotate(u, o));
    SameSib(c, Down(c.up, c.d, c.x, c.red, b'), t);
    assert IdsC(c.up) + Ids(u) == ids by { assert Ids(u) == Ids(t) + {c.x} + Ids(b'); }
    WithinTrans(h0, h, h', ids);
    Settle(h0, h', ids, s, c.up, Rotate(u, o), if c.red then n + 1 else n + 2);
  }

  // ----- unlinking a node -----

  /** A node with at most one child is black with a red leaf below it, or childless. */
  lemma {:induction false} OneChild(c: Ctx, t: Tree, n: int, d: Dir)
    requires Good(c, t, n) && t.Node? && Kid(t, d.Other()).Leaf?
    ensures Kid(t, d).Node? ==> !t.red && n == 1 && Kid(t, d) == Node(Leaf, Kid(t, d).x, true, Leaf)
    ensures Kid(t, d).Leaf? ==> n == if t.red then 0 else 1
  {
    var k := Kid(t, d);
    var m := if t.red then n else n - 1;
    assert Bal(Kid(t, d.Other()), m) && Bal(k, m) && m == 0;
    if k.Node? {
      assert k.red && Bal(k.left, 0) && Bal(k.right, 0);
      assert NoRR(k);
      assert !IsRed(k.left) && !IsRed(k.right);
    }
  }

  /** What replaces a node with at most one child: its child, painted black. */
  function Heir(t: Tree, d: Dir): Tree
    requires t.Node?
  {
    var k := Kid(t, d);
    if k.Node? then k.(red := false) else Leaf
  }

  /** The colours after the heir has moved up: all is well, or the place is one black node short. */
  lemma {:induction false} HeirBalance(c: Ctx, t: Tree, n: int, d: Dir)
    requires Good(c, t, n) && t.Node? && Kid(t, d.Other()).Leaf?
    ensures var k := Heir(t, d);
            && (k.Node? || t.red || c.Top? ==> Good(c, k, if k.Node? then 1 else 0))
            && (!(k.Node? || t.red || c.Top?) ==> Short(c, k, 0))
  {
    OneChild(c, t, n, d);
  }

  /** Storing the heir in the place of a node. */
  lemma {:induction false} HeirRep(h: Heap, h': Heap, c: Ctx, t: Tree, d: Dir)
    requires At(h, c, t) && t.Node? && Kid(t, d.Other()).Leaf?
    requires Father(c) in h && Father(c) in h'
    requires h'[Father(c)] == h[Father(c)].SetKid(Position(c), Root(Kid(t, d)))
    requires var k := Kid(t, d);
             && Same(h, h', IdsC(c) + {HEAD} - {Father(c)})
             && Same(h, h', Ids(k) - {Root(k)})
             && (k.Node? ==> k.x in h && k.x in h' && h'[k.x] == h[k.x].(father := Father(c), pos := Position(c), red := false))
    ensures At(h', c, Heir(t, d))
  {
    var k := Kid(t, d);
    AtMk(h, c, d, k, t.x, t.red, Leaf);
    assert t == Mk(d, k, t.x, t.red, Leaf);
    Rehole(h, h', c, t.x, Root(k));
    if k.Node? {
      Reroot(h, h', k, t.x, d, Father(c), Position(c), false);
    }
    assert Ids(Heir(t, d)) == Ids(k);
  }

  /** What can be read off the record of the node in view. */
  lemma {:induction false} NodeView(h: Heap, c: Ctx, t: Tree)
    requires At(h, c, t) && t.Node?
    ensures t.x in h && t.x != NULL && t.x != HEAD
    ensures h[t.x] == Rec(Root(t.left), Root(t.right), Father(c), Position(c), t.red)
    ensures Father(c) in h && Father(c) != NULL && Father(c) != t.x && h[Father(c)].Kid(Position(c)) == t.x
    ensures HEAD in h && (h[HEAD].left == t.x <==> c.Top?)
    ensures forall d: Dir :: Kid(t, d).Node? ==>
              var k := Kid(t, d);
              && k.x in h && k.x != NULL && k.x != HEAD && k.x != t.x && k.x != Father(c)
              && h[k.x] == Rec(Root(k.left), Root(k.right), t.x, d, k.red)
  {
    RootIsTop(h, c, t);
    RepFather(h, c, t.x);
    RepIdsC(h, c, t.x);
    forall d: Dir | Kid(t, d).Node?
      ensures var k := Kid(t, d);
              && k.x in h && k.x != NULL && k.x != HEAD && k.x != t.x && k.x != Father(c)
              && h[k.x] == Rec(Root(k.left), Root(k.right), t.x, d, k.red)
    {
      assert Rep(h, Kid(t, d), t.x, d) && Kid(t, d).x in Ids(Kid(t, d));
    }
  }

  lemma {:induction false} HeirIn(t: Tree, d: Dir)
    requires t.Node? && Kid(t, d.Other()).Leaf?
    ensures In(t) == if d.L? then In(Heir(t, d)) + [t.x] else [t.x] + In(Heir(t, d))
    ensures Ids(t) == Ids(Heir(t, d)) + {t.x}
  {
  }

  /**
    After the stores that put the heir `k` in the place of the node in view, memory
    holds a red-black tree without that node, or one whose place in view is short.
   */
  lemma {:induction false} Unlinked(h: Heap, h': Heap, c: Ctx, t: Tree, d: Dir, n: int)
    requires At(h, c, t) && Good(c, t, n) && t.Node? && Kid(t, d.Other()).Leaf? && NULL !in h
    requires At(h', c, Heir(t, d)) && Within(h, h', Ids(Plug(c, t)))
    ensures var k := Heir(t, d);
            var ids, s := IdsC(c) + Ids(k), Pre(c) + In(k) + Post(c);
            && (k.Node? || t.red || c.Top? ==> Settled(h', h', ids, s, Plug(c, k)))
            && (!(k.Node? || t.red || c.Top?) ==> Shorting(h', h', ids, s, c, k, 0))
            && ids <= Ids(Plug(c, t))
  {
    var k := Heir(t, d);
    var ids, s := IdsC(c) + Ids(k), Pre(c) + In(k) + Post(c);
    HeirBalance(c, t, n, d);
    HeirIn(t, d);
    IdsPlug(c, t);
    InPlug(c, k);
    if k.Node? || t.red || c.Top? {
      Settle(h', h', ids, s, c, k, if k.Node? then 1 else 0);
    }
  }

  lemma {:induction false} WithinMore(h: Heap, h': Heap, h'': Heap, s: set<Ptr>, s': set<Ptr>)
    requires Within(h, h', s) && Within(h', h'', s') && s' <= s
    ensures Within(h, h'', s)
  {
  }

  // ----- extreme nodes -----

  /** rb_tree_prune_node: if the removed leaf was extreme on its side, its father takes over. */
  lemma {:induction false} PruneMinMax(cmp: Comparator, m: map<Dir, Ptr>, c: Ctx, x: Ptr)
    requires Ordered(cmp) && Sorted(cmp, Pre(c) + [x] + Post(c)) && MinMax(m, Pre(c) + [x] + Post(c))
    ensures var m1 := if m[Position(c)] == x then m[Position(c) := Father(c)] else m;
            var m2 := if m[Position(c)] == x && c.Top? then m1[R := Father(c)] else m1;
            MinMax(m2, Pre(c) + Post(c))
  {
    var a, b := Pre(c), Post(c);
    var s := a + [x] + b;
    assert s[|a|] == x;
    if c.Down? {
      if c.d.L? {
        assert b[0] == c.x;
        if m[L] == x {
          SortedDistinct(cmp, s, 0, |a|);
        }
      } else {
        assert a[|a| - 1] == c.x;
        if m[R] == x {
          SortedDistinct(cmp, s, |s| - 1, |a|);
        }
      }
    }
  }

  /** rb_tree_prune_blackred_branch: if the removed node was extreme on its side, its only child takes over. */
  lemma {:induction false} BlackRedMinMax(cmp: Comparator, m: map<Dir, Ptr>, c: Ctx, x: Ptr, y: Ptr, d: Dir)
    requires Ordered(cmp)
    requires var e := if d.L? then [y] + [x] else [x] + [y];
             Sorted(cmp, Pre(c) + e + Post(c)) && MinMax(m, Pre(c) + e + Post(c))
    ensures var m' := if c.Top? then m[d.Other() := y] else if m[Position(c)] == x then m[Position(c) := y] else m;
            MinMax(m', Pre(c) + [y] + Post(c))
  {
    var a, b := Pre(c), Post(c);
    var e := if d.L? then [y] + [x] else [x] + [y];
    var s := a + e + b;
    var k := if d.L? then |a| + 1 else |a|;
    assert s[k] == x && s[2 * |a| + 1 - k] == y;
    if c.Down? {
      if c.d.L? {
        assert b[0] == c.x;
        if m[L] == x {
          SortedDistinct(cmp, s, 0, k);
        }
      } else {
        assert a[|a| - 1] == c.x;
        if m[R] == x {
          SortedDistinct(cmp, s, |s| - 1, k);
        }
      }
    }
  }

  /** A node between two others is not extreme. */
  lemma {:induction false} InnerMinMax(cmp: Comparator, m: map<Dir, Ptr>, a: seq<Ptr>, x: Ptr, b: seq<Ptr>)
    requires Ordered(cmp) && Sorted(cmp, a + [x] + b) && MinMax(m, a + [x] + b) && a != [] && b != []
    ensures m[L] != x && m[R] != x && MinMax(m, a + b)
  {
    var s := a + [x] + b;
    assert s[|a|] == x;
    if m[L] == x {
      SortedDistinct(cmp, s, 0, |a|);
    }
    if m[R] == x {
      SortedDistinct(cmp, s, |s| - 1, |a|);
    }
  }

  /** The stores of rb_tree_prune_node. */
  lemma {:induction false} PruneRecords(h: Heap, c: Ctx, t: Tree)
    requires At(h, c, t) && t.Node? && t.left.Leaf? && t.right.Leaf?
    requires t.x in h && Father(c) in h && Father(c) != t.x && NULL !in h
    ensures var h' := SetFather(SetKid(h, Father(c), Position(c), NULL), t.x, NULL);
            At(h', c, Leaf) && Within(h, h', Ids(Plug(c, t)))
  {
    var h' := SetFather(SetKid(h, Father(c), Position(c), NULL), t.x, NULL);
    RepIdsC(h, c, t.x);
    RepFather(h, c, t.x);
    assert t.x !in IdsC(c) && t.x != HEAD;
    HeirRep(h, h', c, t, L);
    IdsPlug(c, t);
  }

  /** Removing the node in view, which has at most one child, keeps the order. */
  lemma {:induction false} RemovalSorted(cmp: Comparator, c: Ctx, t: Tree, d: Dir)
    requires Sorted(cmp, In(Plug(c, t))) && t.Node? && Kid(t, d.Other()).Leaf?
    ensures var k := In(Heir(t, d));
            && In(Plug(c, t)) == Pre(c) + (if d.L? then k + [t.x] else [t.x] + k) + Post(c)
            && Sorted(cmp, Pre(c) + k + Post(c))
  {
    var k := In(Heir(t, d));
    InPlug(c, t);
    HeirIn(t, d);
    if d.L? {
      SortedDropLast(cmp, Pre(c), k, t.x, Post(c));
    } else {
      SortedDropFirst(cmp, Pre(c), t.x, k, Post(c));
    }
  }

  lemma {:induction false} NoHeir(a: seq<Ptr>, x: Ptr, b: seq<Ptr>)
    ensures a + ([] + [x]) + b == a + [x] + b && a + [] + b == a + b
  {
    assert [] + [x] == [x] && a + [] == a;
  }

  /** The stores of rb_tree_prune_blackred_branch. */
  lemma {:induction false} BlackRedRecords(h: Heap, h1: Heap, h': Heap, c: Ctx, t: Tree, d: Dir)
    requires At(h, c, t) && t.Node? && Kid(t, d).Node? && Kid(t, d.Other()).Leaf? && !t.red && NULL !in h
    requires var x, y, f := t.x, Kid(t, d).x, Father(c);
             && x in h && y in h && f in h && f != x && f != y && x != y
             && h1 == CopyProperties(h, y, x)
             && h' == SetFather(SetFather(SetKid(h1, f, h[x].pos, y), y, f), x, NULL)
    ensures At(h', c, Heir(t, d)) && Within(h, h', Ids(Plug(c, t)))
  {
    var x, k := t.x, Kid(t, d);
    assert t == Mk(d, k, x, false, Leaf);
    AtMk(h, c, d, k, x, false, Leaf);
    RepIdsC(h, c, x);
    RepFather(h, c, x);
    assert k.x in Ids(k);
    assert HEAD !in Ids(k) by { RepIds(h, k, x, d); }
    HeirRep(h, h', c, t, d);
    IdsPlug(c, t);
  }

  /** rb_tree_prune_blackred_branch on the sequence of nodes. */
  lemma {:induction false} BlackRedIn(cmp: Comparator, m: map<Dir, Ptr>, c: Ctx, t: Tree, d: Dir)
    requires Ordered(cmp) && Sorted(cmp, In(Plug(c, t))) && MinMax(m, In(Plug(c, t)))
    requires t.Node? && Kid(t, d.Other()).Leaf? && Kid(t, d).Node? && Kid(t, d) == Node(Leaf, Kid(t, d).x, true, Leaf)
    ensures var y := Kid(t, d).x;
            && Ids(Heir(t, d)) == {y}
            && Pre(c) + In(Heir(t, d)) + Post(c) == Pre(c) + [y] + Post(c)
            && Sorted(cmp, Pre(c) + [y] + Post(c))
            && MinMax(if c.Top? then m[d.Other() := y] else if m[Position(c)] == t.x then m[Position(c) := y] else m,
                      Pre(c) + [y] + Post(c))
  {
    assert In(Heir(t, d)) == [Kid(t, d).x];
    RemovalSorted(cmp, c, t, d);
    BlackRedMinMax(cmp, m, c, t.x, Kid(t, d).x, d);
  }
}
