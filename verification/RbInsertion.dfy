/** The proof steps of insertion (libec/rb.c): what each stage of rb_tree_insert_node leaves in memory. */
module RbInsertion {
  import opened RbShape
  import opened RbHeap
  import opened RbOrder

  /** rbt_minmax holds the first and the last node, if there is one. */
  ghost predicate MinMax(m: map<Dir, Ptr>, s: seq<Ptr>) {
    && L in m && R in m
    && (s != [] ==> m[L] == s[0] && m[R] == s[|s| - 1])
  }

  lemma {:induction false} DescendView(h: Heap, c: Ctx, t: Tree)
    requires At(h, c, t) && t.Node?
    ensures t.x in h
    ensures forall d: Dir :: h[t.x].Kid(d) == Root(Kid(t, d)) && At(h, Descend(c, t, d), Kid(t, d))
                             && Plug(Descend(c, t, d), Kid(t, d)) == Plug(c, t)
  {
    forall d: Dir
      ensures h[t.x].Kid(d) == Root(Kid(t, d)) && At(h, Descend(c, t, d), Kid(t, d))
              && Plug(Descend(c, t, d), Kid(t, d)) == Plug(c, t)
    {
      assert t == Mk(d, Kid(t, d), t.x, t.red, Kid(t, d.Other()));
      Move(h, c, d, Kid(t, d), t.x, t.red, Kid(t, d.Other()));
    }
  }

  /** One comparison settles the order of everything on one side of the node in view. */
  lemma {:induction false} InsertDescend(cmp: Comparator, c: Ctx, t: Tree, self: Ptr)
    requires Ordered(cmp) && t.Node? && Sorted(cmp, In(Plug(c, t)))
    requires Below(cmp, Pre(c), self) && Above(cmp, Post(c), self)
    ensures cmp(t.x, self) < 0 ==> Below(cmp, Pre(Descend(c, t, R)), self) && Above(cmp, Post(Descend(c, t, R)), self)
    ensures cmp(t.x, self) > 0 ==> Below(cmp, Pre(Descend(c, t, L)), self) && Above(cmp, Post(Descend(c, t, L)), self)
  {
    Place(c, t);
    PlaceOther(c, t);
    var s, k := In(Plug(c, t)), |Pre(c)| + |In(t.left)|;
    if cmp(t.x, self) < 0 {
      BelowPrefix(cmp, s, k, self);
    } else if cmp(t.x, self) > 0 {
      AboveSuffix(cmp, s, k, self);
    }
  }

  /** The new node equals no other, and is in order between what is below and what is above it. */
  lemma {:induction false} InsertPoint(cmp: Comparator, c: Ctx, self: Ptr)
    requires Ordered(cmp) && Sorted(cmp, In(Plug(c, Leaf)))
    requires Below(cmp, Pre(c), self) && Above(cmp, Post(c), self)
    ensures var a, b := Pre(c), Post(c);
            var s := In(Plug(c, Leaf));
            && s == a + b && |a| <= |s|
            && (forall y :: y in s ==> cmp(y, self) != 0)
            && self !in IdsC(c)
            && Sorted(cmp, a + [self] + b)
            && a + [self] + b == s[..|a|] + [self] + s[|a|..]
  {
    var a, b := Pre(c), Post(c);
    var s := In(Plug(c, Leaf));
    InPlug(c, Leaf);
    assert s == a + b;
    Chain(cmp, self, self, self);
    SortedInsert(cmp, a, self, b);
    assert s[..|a|] == a && s[|a|..] == b;
    IdsPlug(c, Leaf);
    InIds(Plug(c, Leaf), self);
  }

  lemma {:induction false} LinkView(h: Heap, c: Ctx, self: Ptr)
    requires At(h, c, Leaf) && self !in IdsC(c) && self != HEAD
    ensures Father(c) in h && Father(c) != self && Father(c) != NULL && h[Father(c)].Kid(Position(c)) == NULL
    ensures c.Top? <==> Father(c) == HEAD
    ensures c.Down? ==> h[c.x].red == c.red
  {
    RepFather(h, c, NULL);
    RepIdsC(h, c, NULL);
  }

  lemma {:induction false} LinkRecords(h: Heap, self: Ptr, parent: Ptr, d: Dir, red: bool)
    requires self in h && parent in h && self != parent && h[parent].Kid(d) == NULL
    ensures var h1 := Mark(SetPosition(SetFather(h, self, parent), self, d), self, red);
            var h2 := SetKid(h1, self, L, h1[parent].Kid(d));
            var h3 := SetKid(h2, self, R, h2[parent].Kid(d));
            SetKid(h3, parent, d, self) ==
              h[self := Rec(NULL, NULL, parent, d, red)][parent := h[parent].SetKid(d, self)]
  {
  }

  /** Everything that an insertion touches is part of the new tree. */
  lemma {:induction false} LinkIds(c: Ctx, leaf: Tree, t: Tree)
    requires In(t) == In(Plug(c, leaf))
    ensures IdsC(c) + Ids(leaf) == Ids(t)
  {
    IdsPlug(c, leaf);
    forall y: Ptr
      ensures y in Ids(t) <==> y in Ids(Plug(c, leaf))
    {
      InIds(t, y);
      InIds(Plug(c, leaf), y);
    }
  }

  /** Only a child on the outer side of an extreme node is a new extreme node. */
  lemma {:induction false} InsertMinMax(cmp: Comparator, m: map<Dir, Ptr>, c: Ctx, self: Ptr)
    requires c.Down? && Ordered(cmp) && Sorted(cmp, Pre(c) + Post(c)) && MinMax(m, Pre(c) + Post(c))
    ensures MinMax(if c.x == m[c.d] then m[c.d := self] else m, Pre(c) + [self] + Post(c))
  {
    var a, b := Pre(c), Post(c);
    var s := a + b;
    if c.d.L? {
      assert b[0] == c.x == s[|a|];
      if c.x == m[L] {
        SortedDistinct(cmp, s, 0, |a|);
      }
    } else {
      assert a[|a| - 1] == c.x == s[|a| - 1];
      if c.x == m[R] {
        SortedDistinct(cmp, s, |s| - 1, |a| - 1);
      }
    }
  }

  /** After the stores of rb_tree_insert_node the new node is a leaf of the tree, and may clash with its father. */
  lemma {:induction false} LinkLeaf(h: Heap, h': Heap, c: Ctx, self: Ptr, shape: Tree)
    requires At(h, c, Leaf) && Plug(c, Leaf) == shape && RedBlack(shape) && NULL !in h
    requires self in h && self != HEAD && self !in IdsC(c) && Father(c) in h && self != Father(c)
    requires h' == h[self := Rec(NULL, NULL, Father(c), Position(c), c.Down?)]
                    [Father(c) := h[Father(c)].SetKid(Position(c), self)]
    ensures var leaf := Node(Leaf, self, c.Down?, Leaf);
            && At(h', c, leaf) && NULL !in h' && Within(h, h', IdsC(c) + {self})
            && (IsRedC(c) ==> Clash(c, leaf, 0))
            && (!IsRedC(c) ==> Settled(h, h', IdsC(c) + {self}, Pre(c) + [self] + Post(c), Plug(c, leaf)))
            && In(Plug(c, leaf)) == Pre(c) + [self] + Post(c)
            && Ids(leaf) == {self}
  {
    var leaf := Node(Leaf, self, c.Down?, Leaf);
    RepFather(h, c, NULL);
    RepIdsC(h, c, NULL);
    Attach(h, h', c, self, c.Down?);
    var n := GoodUnplug(c, Leaf);
    InPlug(c, leaf);
    assert In(leaf) == [self];
    if !IsRedC(c) {
      Settle(h, h', IdsC(c) + {self}, In(Plug(c, leaf)), c, leaf, if c.Top? then 1 else 0);
    }
  }

  /** What the loop of rb_tree_insert_rebalance reads. */
  lemma {:induction false} ClashView(h: Heap, c: Ctx, t: Tree, n: int)
    requires At(h, c, t) && Clash(c, t, n)
    ensures c.Down? && c.up.Down? && !c.up.red
    ensures t.x in h && h[t.x].father == c.x && c.x in h && h[c.x].father == c.up.x && c.up.x in h
    ensures h[c.up.x].Kid(c.up.d.Other()) == Root(c.up.sib)
    ensures (c.x == h[c.up.x].right) <==> c.up.d.R?
    ensures c.up.sib.Node? ==> c.up.sib.x != NULL && c.up.sib.x in h && h[c.up.sib.x].red == c.up.sib.red
    ensures HEAD in h && t.x != HEAD && c.x != HEAD && c.up.x != HEAD && Root(c.up.sib) != HEAD
    ensures {t.x, c.x, c.up.x} <= IdsC(c) + Ids(t)
    ensures c.up.sib.Node? ==> c.up.sib.x in IdsC(c)
  {
    RepIdsC(h, c, t.x);
    assert RepC(h, c.up, c.x);
    assert Root(c.up.sib) != c.x;
  }

  /** RB_ROOT_P: the node in view is the root exactly when no frame is above it. */
  lemma {:induction false} RootIsTop(h: Heap, c: Ctx, t: Tree)
    requires At(h, c, t) && t.Node?
    ensures HEAD in h && (h[HEAD].left == t.x <==> c.Top?)
    ensures t.x in h && h[t.x].father == Father(c) && h[t.x].pos == Position(c) && h[t.x].red == t.red
    ensures c.Down? ==> c.x in h && h[c.x].red == c.red
  {
    if c.Down? {
      MoveTop(h, c, t);
      TopId(c, t);
    }
  }

  lemma {:induction false} TopId(c: Ctx, t: Tree)
    requires c.Down?
    ensures Plug(c, t).Node? && Plug(c, t).x in IdsC(c)
    decreases c
  {
    if c.up.Down? {
      TopId(c.up, Mk(c.d, t, c.x, c.red, c.sib));
    }
  }

  /** Which child of its father the node in view is. */
  lemma {:induction false} SideOf(h: Heap, c: Ctx, t: Tree, side: Dir)
    requires At(h, c, t) && t.Node? && c.Down?
    ensures c.x in h && (t.x == h[c.x].Kid(side) <==> c.d == side)
  {
    assert Root(c.sib) == NULL || Root(c.sib) in Ids(c.sib);
  }

  /** The state of the loop of rb_tree_insert_rebalance: one red-red edge at the node in view. */
  ghost predicate Clashing(h0: Heap, h: Heap, ids: set<Ptr>, s: seq<Ptr>, c: Ctx, t: Tree, n: int) {
    && At(h, c, t) && Clash(c, t, n)
    && In(Plug(c, t)) == s && IdsC(c) + Ids(t) == ids
    && NULL !in h && Within(h0, h, ids)
  }

  /** Memory holds a red-black tree with nodes `s`, and nothing else has changed. */
  ghost predicate Settled(h0: Heap, h: Heap, ids: set<Ptr>, s: seq<Ptr>, t: Tree) {
    At(h, Top, t) && RedBlack(t) && In(t) == s && NULL !in h && Within(h0, h, ids)
  }

  lemma {:induction false} SettledTrans(h0: Heap, h: Heap, h': Heap, ids: set<Ptr>, s: seq<Ptr>, t: Tree)
    requires Within(h0, h, ids) && Settled(h, h', ids, s, t)
    ensures Settled(h0, h', ids, s, t)
  {
    WithinTrans(h0, h, h', ids);
  }

  /** The subtree of the grandfather after case 1. */
  ghost function AfterRedUncle(c: Ctx, t: Tree): Tree
    requires c.Down? && c.up.Down? && c.up.sib.Node?
  {
    Mk(c.up.d, Mk(c.d, t, c.x, false, c.sib), c.up.x, true, c.up.sib.(red := false))
  }

  lemma {:induction false} RedUncleStep(h0: Heap, h: Heap, ids: set<Ptr>, s: seq<Ptr>, c: Ctx, t: Tree, n: int)
    requires Clashing(h0, h, ids, s, c, t, n)
    requires c.Down? && c.up.Down? && !c.up.red && IsRed(c.up.sib)
    ensures c.up.sib.x in h && c.x in h && c.up.x in h && HEAD in h
    ensures var h2 := Mark(Mark(h, c.up.sib.x, false), c.x, false);
            var h3 := Mark(h2, c.up.x, true);
            var g := c.up.up;
            var v := AfterRedUncle(c, t);
            && (h2[HEAD].left == c.up.x <==> g.Top?)
            && (g.Top? ==> Settled(h0, h2, ids, s, v.(red := false)))
            && v.Node? && v.x == c.up.x
            && (g.Down? ==> && h3[v.x].father == g.x && g.x in h3 && g.x != NULL
                            && (h3[g.x].red <==> IsRedC(g))
                            && (IsRedC(g) ==> Clashing(h0, h3, ids, s, g, v, n + 1))
                            && (!IsRedC(g) ==> Settled(h0, h3, ids, s, Plug(g, v))))
  {
    var g, u := c.up.up, c.up.sib;
    var v := AfterRedUncle(c, t);
    ClashView(h, c, t, n);
    RecolourUncle(h, g, c.up.d, c.up.x, u, c.d, c.x, c.sib, t);
    InsertRedUncle(g, c.up.d, c.up.x, u, c.d, c.x, c.sib, t, n);
    RedUncleSame(g, c.up.d, c.up.x, u, c.d, c.x, c.sib, t);
    var h1 := Mark(h, u.x, false);
    var h2 := Mark(h1, c.x, false);
    var h3 := Mark(h2, v.x, true);
    MarkWithin(h, u.x, false, ids);
    MarkWithin(h1, c.x, false, ids);
    MarkWithin(h2, v.x, true, ids);
    WithinTrans(h0, h, h1, ids);
    WithinTrans(h0, h1, h2, ids);
    WithinTrans(h0, h2, h3, ids);
    RootIsTop(h2, g, v.(red := false));
    if g.Top? {
      GoodPlug(g, v.(red := false), n + 2);
    } else {
      RootIsTop(h3, g, v);
      if !IsRedC(g) {
        GoodPlug(g, v, n + 1);
        MoveTop(h3, g, v);
      }
    }
  }

  lemma {:induction false} Settle(h0: Heap, h: Heap, ids: set<Ptr>, s: seq<Ptr>, c: Ctx, t: Tree, n: int)
    requires At(h, c, t) && Good(c, t, n) && In(Plug(c, t)) == s && NULL !in h && Within(h0, h, ids)
    ensures Settled(h0, h, ids, s, Plug(c, t))
  {
    GoodPlug(c, t, n);
    MoveTop(h, c, t);
  }

  /** Case 2: the node in view and its red father have been rotated. */
  lemma {:induction false} InnerStep(h: Heap, h': Heap, ids: set<Ptr>, s: seq<Ptr>, c: Ctx, t: Tree, n: int)
    requires Clashing(h, h, ids, s, c, t, n) && c.Down? && c.red && t.Node?
    requires At(h', c.up, Rotate(Mk(c.d, t, c.x, true, c.sib), c.d))
    requires Within(h, h', IdsC(c.up) + Ids(Mk(c.d, t, c.x, true, c.sib)))
    ensures var w := c.d.Other();
            var e := Down(c.up, w, t.x, true, Kid(t, c.d));
            var f := Mk(c.d, Kid(t, w), c.x, true, c.sib);
            Clashing(h, h', ids, s, e, f, n) && f.Node? && f.x == c.x && c.x in h' && h'[c.x].father == t.x
  {
    var w := c.d.Other();
    var e := Down(c.up, w, t.x, true, Kid(t, c.d));
    var f := Mk(c.d, Kid(t, w), c.x, true, c.sib);
    var ft := Mk(c.d, t, c.x, true, c.sib);
    InsertInner(c.up, c.d, c.x, c.sib, t, n);
    RotateIn(ft, c.d);
    SameIn(c.up, ft, Rotate(ft, c.d));
    Move(h', c.up, w, f, t.x, true, Kid(t, c.d));
    assert Ids(ft) == Ids(t) + {c.x} + Ids(c.sib);
    assert Ids(t) == Ids(Kid(t, w)) + {t.x} + Ids(Kid(t, c.d));
    assert Ids(f) == Ids(Kid(t, w)) + {c.x} + Ids(c.sib);
    assert IdsC(e) + Ids(f) == ids;
  }

  /** Case 3: father and grandfather have been rotated. */
  lemma {:induction false} OuterStep(h0: Heap, h: Heap, h': Heap, ids: set<Ptr>, s: seq<Ptr>, c: Ctx, t: Tree, n: int)
    requires Clashing(h0, h, ids, s, c, t, n) && c.Down? && c.red && c.up.Down? && c.d == c.up.d
    requires !c.up.red && !IsRed(c.up.sib)
    requires var gt := Mk(c.d, Mk(c.d, t, c.x, true, c.sib), c.up.x, false, c.up.sib);
             && At(h', c.up.up, Rotate(gt, c.d))
             && Within(h, h', IdsC(c.up.up) + Ids(gt))
    ensures var gt := Mk(c.d, Mk(c.d, t, c.x, true, c.sib), c.up.x, false, c.up.sib);
            var t' := Plug(c.up.up, Rotate(gt, c.d));
            Settled(h0, h', ids, s, t') && t'.Node? && !t'.red
  {
    hide Rep, RepC, Uq;
    var ft := Mk(c.d, t, c.x, true, c.sib);
    var gt := Mk(c.d, ft, c.up.x, false, c.up.sib);
    var g := c.up.up;
    InsertOuter(g, c.d, c.up.x, c.up.sib, c.x, c.sib, t, n);
    RotateIn(gt, c.d);
    SameIn(g, gt, Rotate(gt, c.d));
    assert Plug(c, t) == Plug(c.up, ft) == Plug(g, gt);
    assert Ids(ft) == Ids(t) + {c.x} + Ids(c.sib);
    assert Ids(gt) == Ids(ft) + {c.up.x} + Ids(c.up.sib);
    assert IdsC(g) + Ids(gt) == ids;
    WithinTrans(h0, h, h', ids);
    Settle(h0, h', ids, s, g, Rotate(gt, c.d), n + 1);
    PlugNode(g, Rotate(gt, c.d));
  }

  lemma {:induction false} PlugNode(c: Ctx, t: Tree)
    requires t.Node?
    ensures Plug(c, t).Node?
    decreases c
  {
    if c.Down? {
      PlugNode(c.up, Mk(c.d, t, c.x, c.red, c.sib));
    }
  }

  /** Marking a black root black changes nothing. */
  lemma {:induction false} RootMark(h: Heap, t: Tree)
    requires At(h, Top, t) && t.Node? && !t.red
    ensures HEAD in h && h[HEAD].left in h && Mark(h, h[HEAD].left, false) == h
  {
  }

  lemma {:induction false} RedUncleSame(g: Ctx, w: Dir, gp: Ptr, u: Tree, d: Dir, f: Ptr, s: Tree, t: Tree)
    requires u.Node?
    ensures var c := Down(Down(g, w, gp, false, u), d, f, true, s);
            var v := Mk(w, Mk(d, t, f, false, s), gp, false, u.(red := false));
            && In(Plug(g, v)) == In(Plug(c, t)) == In(Plug(g, v.(red := true)))
            && IdsC(g) + Ids(v) == IdsC(c) + Ids(t) == IdsC(g) + Ids(v.(red := true))
  {
    var v := Mk(w, Mk(d, t, f, false, s), gp, false, u.(red := false));
    var v0 := Mk(w, Mk(d, t, f, true, s), gp, false, u);
    assert In(Mk(d, t, f, false, s)) == In(Mk(d, t, f, true, s));
    SameIn(g, v, v0);
    SameIn(g, v.(red := true), v0);
    assert Ids(Mk(d, t, f, false, s)) == Ids(t) + {f} + Ids(s);
  }

  // ----- search by key -----

  ghost function First(s: seq<Ptr>): Ptr { if s == [] then NULL else s[0] }

  ghost function Last(s: seq<Ptr>): Ptr { if s == [] then NULL else s[|s| - 1] }

  /** The key belongs in the subtree in the hole of `c`. */
  ghost predicate KeyHere(key: KeyComparator, c: Ctx) {
    KeyLow(key, Pre(c)) && KeyHigh(key, Post(c))
  }

  lemma {:induction false} KeyDescend(key: KeyComparator, c: Ctx, t: Tree)
    requires t.Node? && KeyOrdered(key, In(Plug(c, t))) && KeyHere(key, c)
    ensures key(t.x) < 0 ==> KeyHere(key, Descend(c, t, R))
                             && First(Post(Descend(c, t, R))) == First(Post(c)) && Last(Pre(Descend(c, t, R))) == t.x
    ensures key(t.x) > 0 ==> KeyHere(key, Descend(c, t, L))
                             && First(Post(Descend(c, t, L))) == t.x && Last(Pre(Descend(c, t, L))) == Last(Pre(c))
    ensures t.x in In(Plug(c, t))
  {
    Place(c, t);
    PlaceOther(c, t);
    KeyPrefix(key, In(Plug(c, t)), |Pre(c)| + |In(t.left)|);
  }

  /** The search has ended in the one gap where the key would go. */
  lemma {:induction false} KeyGap(key: KeyComparator, c: Ctx)
    requires KeyHere(key, c)
    ensures var s, i := In(Plug(c, Leaf)), |Pre(c)|;
            && Gap(key, s, i)
            && i <= |s|
            && First(Post(c)) == (if i < |s| then s[i] else NULL)
            && Last(Pre(c)) == (if i > 0 then s[i - 1] else NULL)
  {
    InPlug(c, Leaf);
    assert Pre(c) + [] == Pre(c);
    var s, i := In(Plug(c, Leaf)), |Pre(c)|;
    assert s[..i] == Pre(c) && s[i..] == Post(c);
  }
}
