/** The proof steps of rb_tree_swap_prune_and_rebalance and rb_tree_iterate (libec/rb.c). */
module RbSwap {
  import opened RbShape
  import opened RbHeap
  import opened RbOrder
  import opened RbInsertion
  import opened RbRemoval

  // ----- spines -----

  /** `c` is `base` extended by frames that all turn in direction `o`. */
  ghost predicate Spine(c: Ctx, base: Ctx, o: Dir) {
    c == base || (c.Down? && c.d == o && Spine(c.up, base, o))
  }

  /** The part of `Plug(c, t)` that sits in the hole of `base`. */
  ghost function PlugTo(c: Ctx, base: Ctx, t: Tree): Tree
    decreases c
  {
    if c == base || c.Top? then t else PlugTo(c.up, base, Mk(c.d, t, c.x, c.red, c.sib))
  }

  /** `c` with the node of its frame `base` exchanged for `y`. */
  ghost function Subst(c: Ctx, base: Ctx, y: Ptr): Ctx
    requires base.Down?
  {
    if c == base then Down(base.up, base.d, y, base.red, base.sib)
    else if c.Top? then Top
    else Down(Subst(c.up, base, y), c.d, c.x, c.red, c.sib)
  }

  lemma {:induction false} SpinePlug(c: Ctx, base: Ctx, o: Dir, t: Tree)
    requires Spine(c, base, o)
    ensures Plug(c, t) == Plug(base, PlugTo(c, base, t))
    decreases c
  {
    if c != base {
      SpinePlug(c.up, base, o, Mk(c.d, t, c.x, c.red, c.sib));
    }
  }

  lemma {:induction false} SubstPlug(c: Ctx, base: Ctx, o: Dir, y: Ptr, t: Tree)
    requires Spine(c, base, o) && base.Down?
    ensures Plug(Subst(c, base, y), t) == Plug(base.up, Mk(base.d, PlugTo(c, base, t), y, base.red, base.sib))
    decreases c
  {
    if c != base {
      SubstPlug(c.up, base, o, y, Mk(c.d, t, c.x, c.red, c.sib));
    }
  }

  /** Exchanging a node keeps the colours. */
  lemma {:induction false} SubstColours(c: Ctx, base: Ctx, o: Dir, y: Ptr, n: int)
    requires Spine(c, base, o) && base.Down?
    ensures var e := Subst(c, base, y);
            && e.Down? && e.d == c.d
            && (BalC(c, n) <==> BalC(e, n)) && (NoRRC(c) <==> NoRRC(e)) && (BlackTop(c) <==> BlackTop(e))
            && IsRedC(c) == IsRedC(e)
            && (c == base ==> e.x == y) && (c != base ==> e.x == c.x)
    decreases c
  {
    if c != base {
      SubstColours(c.up, base, o, y, if c.red then n else n + 1);
    }
  }

  /** What comes before and after the hole of a spine, before and after the exchange. */
  lemma {:induction false} SpineIn(c: Ctx, base: Ctx, o: Dir, y: Ptr)
    requires Spine(c, base, o) && base.Down? && base.d == o.Other()
    ensures var e := Subst(c, base, y);
            && (o.L? ==> Pre(c) == Pre(base) && Pre(e) == Pre(base.up) + (In(base.sib) + [y]) && Post(e) == Post(c))
            && (o.R? ==> Post(c) == Post(base) && Post(e) == ([y] + In(base.sib)) + Post(base.up) && Pre(e) == Pre(c))
    decreases c
  {
    if c != base {
      SpineIn(c.up, base, o, y);
    }
  }

  lemma {:induction false} SpineIds(c: Ctx, base: Ctx, o: Dir, t: Tree)
    requires Spine(c, base, o)
    ensures IdsC(c) + Ids(t) == IdsC(base) + Ids(PlugTo(c, base, t))
    decreases c
  {
    if c != base {
      var u := Mk(c.d, t, c.x, c.red, c.sib);
      SpineIds(c.up, base, o, u);
      assert Ids(u) == Ids(t) + {c.x} + Ids(c.sib);
    }
  }

  // ----- records -----

  ghost predicate Placed(h: Heap, h': Heap, x: Ptr, y: Ptr, k: Ptr, g: Ptr, o: Dir)
    requires x in h && y in h && k in h && g in h
  {
    && h'.Keys == h.Keys
    && h'[y] == h[y].SetKid(o, k).(father := g, pos := h[x].pos, red := h[x].red)
    && h'[k] == h[k].(father := y)
    && h'[g] == h[g].SetKid(h[x].pos, y)
    && (forall i :: i in h && i !in {y, k, g} ==> h'[i] == h[i])
  }

  /** The last stores of rb_tree_swap_prune_and_rebalance: `y` adopts the child `k` of `x` and takes its place. */
  lemma {:induction false} PlaceRecords(h: Heap, h1: Heap, h2: Heap, h3: Heap, h4: Heap, h5: Heap, x: Ptr, y: Ptr, k: Ptr, g: Ptr, o: Dir)
    requires x in h && y in h && k in h && g in h
    requires x != y && x != k && x != g && y != k && y != g && k != g
    requires h[x].Kid(o) == k && h[x].father == g
    requires h1 == SetKid(h, y, o, k)
    requires h2 == SetFather(h1, k, y)
    requires h3 == CopyProperties(h2, y, x)
    requires h4 == SetFather(h3, y, g)
    requires h5 == SetKid(h4, g, h[x].pos, y)
    ensures h1[x] == h[x] && h1[y].Kid(o) == k && h3[x] == h[x] && h4[y].father == g && h4[y].pos == h[x].pos
    ensures Placed(h, h5, x, y, k, g, o)
  {
  }

  /** The exchange of `x` for `y`, where `y` is not in the tree and already points to the child `w` of `x`. */
  lemma {:induction false} ReplaceRep(h: Heap, h': Heap, c: Ctx, d: Dir, w: Tree, x: Ptr, red: bool, k: Tree, y: Ptr)
    requires At(h, c, Mk(d, w, x, red, k)) && w.Node? && k.Node?
    requires y != NULL && y != HEAD && y in h' && y !in Ids(w) && y !in Ids(k) && y !in IdsC(c)
    requires h'[y] == Rec(NULL, NULL, Father(c), Position(c), red).SetKid(d, w.x).SetKid(d.Other(), k.x)
    requires w.x in h && k.x in h && Father(c) in h && h.Keys == h'.Keys
    requires h'[w.x] == h[w.x].(father := y) && h'[k.x] == h[k.x].(father := y)
    requires h'[Father(c)] == h[Father(c)].SetKid(Position(c), y)
    requires forall i :: i in h && i !in {x, y, w.x, k.x, Father(c)} ==> h'[i] == h[i]
    ensures At(h', c, Mk(d, w, y, red, k))
  {
    hide At, Uq, UqC;
    AtMk(h, c, d, w, x, red, k);
    RepIdsC(h, c, x);
    RepIds(h, w, x, d);
    RepIds(h, k, x, d.Other());
    RepFather(h, c, x);
    assert w.x in Ids(w) && k.x in Ids(k);
    Reroot(h, h', w, x, d, y, d, w.red);
    Reroot(h, h', k, x, d.Other(), y, d.Other(), k.red);
    Rehole(h, h', c, x, y);
    AtMk(h', c, d, w, y, red, k);
  }

  /** The exchange of `x` for its own child `y`, which keeps its subtree `s`. */
  lemma {:induction false} NearRep(h: Heap, h': Heap, c: Ctx, d: Dir, s: Tree, y: Ptr, yred: bool, x: Ptr, red: bool, k: Tree)
    requires At(h, c, Mk(d, Mk(d, s, y, yred, Leaf), x, red, k)) && k.Node?
    requires y in h' && k.x in h && y in h && Father(c) in h && h.Keys == h'.Keys
    requires h'[y] == Rec(NULL, NULL, Father(c), Position(c), red).SetKid(d, Root(s)).SetKid(d.Other(), k.x)
    requires h'[k.x] == h[k.x].(father := y)
    requires h'[Father(c)] == h[Father(c)].SetKid(Position(c), y)
    requires forall i :: i in h && i !in {x, y, k.x, Father(c)} ==> h'[i] == h[i]
    ensures At(h', c, Mk(d, s, y, red, k))
  {
    AtMk(h, c, d, Mk(d, s, y, yred, Leaf), x, red, k);
    RepMk(h, d, s, y, yred, Leaf, x, d);
    RepIdsC(h, c, x);
    RepIds(h, s, y, d);
    RepIds(h, k, x, d.Other());
    RepFather(h, c, x);
    assert k.x in Ids(k);
    FrameT(h, h', s, y, d);
    Reroot(h, h', k, x, d.Other(), y, d.Other(), k.red);
    Rehole(h, h', c, x, y);
    AtMk(h', c, d, s, y, red, k);
  }

  // ----- the whole exchange -----

  /**
    The situation of rb_tree_swap_prune_and_rebalance: the node of the frame `base` is to be
    removed, and the node `t` at the end of the spine `c` stands in for it.
   */
  ghost predicate StandIn(c: Ctx, base: Ctx, t: Tree, n: int) {
    && base.Down? && Spine(c, base, base.d.Other()) && c.Down?
    && t.Node? && Kid(t, base.d.Other()).Leaf? && base.sib.Node?
    && Good(c, t, n)
  }

  /** The tree in the place of the removed node once the stand-in has taken it. */
  ghost function Exchanged(c: Ctx, base: Ctx, t: Tree): Tree
    requires base.Down? && t.Node?
  {
    Mk(base.d, PlugTo(c, base, Heir(t, base.d)), t.x, base.red, base.sib)
  }

  lemma {:induction false} Swapped(h': Heap, c: Ctx, base: Ctx, t: Tree, n: int)
    requires StandIn(c, base, t, n) && NULL !in h' && At(h', base.up, Exchanged(c, base, t))
    ensures var e, k := Subst(c, base, t.x), Heir(t, base.d);
            var ids, s := IdsC(e) + Ids(k), Pre(e) + In(k) + Post(e);
            && (k.Node? || t.red ==> Settled(h', h', ids, s, Plug(e, k)))
            && (!(k.Node? || t.red) ==> Shorting(h', h', ids, s, e, k, 0))
            && ids <= Ids(Plug(c, t))
  {
    var o := base.d.Other();
    var e, k := Subst(c, base, t.x), Heir(t, base.d);
    var ids, s := IdsC(e) + Ids(k), Pre(e) + In(k) + Post(e);
    HeirBalance(c, t, n, base.d);
    SubstColours(c, base, o, t.x, if k.Node? then 1 else if t.red then 0 else 1);
    SubstPlug(c, base, o, t.x, k);
    MoveTop(h', base.up, Exchanged(c, base, t));
    MoveTop(h', e, k);
    InPlug(e, k);
    SwappedIds(c, base, t);
    if k.Node? || t.red {
      Settle(h', h', ids, s, e, k, if k.Node? then 1 else 0);
    }
  }

  lemma {:induction false} SwappedIds(c: Ctx, base: Ctx, t: Tree)
    requires base.Down? && t.Node? && Spine(c, base, base.d.Other()) && Kid(t, base.d.Other()).Leaf?
    ensures IdsC(Subst(c, base, t.x)) + Ids(Heir(t, base.d)) <= Ids(Plug(c, t))
    ensures Ids(Plug(c, t)) == IdsC(base) + Ids(PlugTo(c, base, Heir(t, base.d))) + {t.x}
    ensures Uq(Plug(c, t)) ==> t.x !in IdsC(base) && t.x !in Ids(PlugTo(c, base, Heir(t, base.d)))
  {
    var o := base.d.Other();
    var e, k := Subst(c, base, t.x), Heir(t, base.d);
    var w := PlugTo(c, base, k);
    HeirIn(t, base.d);
    IdsPlug(c, t);
    SpineIds(c, base, o, k);
    SubstPlug(c, base, o, t.x, k);
    IdsPlug(e, k);
    IdsPlug(base.up, Exchanged(c, base, t));
    assert Ids(Exchanged(c, base, t)) == Ids(w) + {t.x} + Ids(base.sib);
    if Uq(Plug(c, t)) {
      assert t.x !in Ids(k) by { assert t == Mk(base.d, Kid(t, base.d), t.x, t.red, Leaf); }
    }
  }

  lemma {:induction false} RegroupRight(p: seq<Ptr>, k: seq<Ptr>, x: Ptr, y: Ptr, s: seq<Ptr>, q: seq<Ptr>)
    ensures (p + (k + [x])) + ([y] + s) + q == (p + k) + [x] + ([y] + s + q)
    ensures (p + (k + [y])) + s + q == (p + k) + ([y] + s + q)
  {
  }

  lemma {:induction false} RegroupLeft(p: seq<Ptr>, s: seq<Ptr>, y: Ptr, x: Ptr, k: seq<Ptr>, q: seq<Ptr>)
    ensures p + (s + [y]) + (([x] + k) + q) == (p + s + [y]) + [x] + (k + q)
    ensures p + s + (([y] + k) + q) == (p + s + [y]) + (k + q)
  {
  }

  /** The exchange removes one node from the sequence, and it is not an extreme one. */
  lemma {:induction false} SwappedIn(cmp: Comparator, m: map<Dir, Ptr>, c: Ctx, base: Ctx, t: Tree, n: int) returns (a: seq<Ptr>, b: seq<Ptr>)
    requires StandIn(c, base, t, n)
    requires Ordered(cmp) && Sorted(cmp, In(Plug(c, t))) && MinMax(m, In(Plug(c, t)))
    ensures In(Plug(c, t)) == a + [base.x] + b
    ensures var e, k := Subst(c, base, t.x), Heir(t, base.d);
            Pre(e) + In(k) + Post(e) == a + b
    ensures Sorted(cmp, a + b) && MinMax(m, a + b) && m[L] != base.x && m[R] != base.x
  {
    var o := base.d.Other();
    var k := Heir(t, base.d);
    InPlug(c, t);
    HeirIn(t, base.d);
    SpineIn(c, base, o, t.x);
    var p, q := Pre(base.up), Post(base.up);
    if o.L? {
      RegroupRight(p, In(base.sib), base.x, t.x, In(k), Post(c));
      a, b := p + In(base.sib), [t.x] + In(k) + Post(c);
    } else {
      RegroupLeft(Pre(c), In(k), t.x, base.x, In(base.sib), q);
      a, b := Pre(c) + In(k) + [t.x], In(base.sib) + q;
    }
    SortedRemove(cmp, a, base.x, b);
    InnerMinMax(cmp, m, a, base.x, b);
  }

  // ----- what the stores find and leave -----

  /** A node outside the tree does not matter. */
  lemma {:induction false} Forget(h: Heap, c: Ctx, t: Tree, x: Ptr)
    requires At(h, c, t) && x in h && x != HEAD && x !in IdsC(c) && x !in Ids(t)
    ensures At(SetFather(h, x, NULL), c, t)
  {
    FrameT(h, SetFather(h, x, NULL), t, Father(c), Position(c));
    FrameC(h, SetFather(h, x, NULL), c, Root(t));
  }

  /** The removed node, seen from its stand-in. */
  lemma {:induction false} StandInView(h: Heap, c: Ctx, base: Ctx, t: Tree, n: int)
    requires At(h, c, t) && StandIn(c, base, t, n)
    ensures c.x == base.x <==> c == base
    ensures c.d == if c == base then base.d else base.d.Other()
    ensures At(h, base.up, Mk(base.d, PlugTo(c, base, t), base.x, base.red, base.sib))
    ensures PlugTo(c, base, t).Node?
  {
    SpinePlug(c, base, base.d.Other(), t);
    MoveTop(h, c, t);
    MoveTop(h, base, PlugTo(c, base, t));
    Move(h, base.up, base.d, PlugTo(c, base, t), base.x, base.red, base.sib);
    if c != base {
      SpineFrame(c.up, base, base.d.Other());
    }
    PlugToNode(c, base, t);
  }

  lemma {:induction false} SpineFrame(c: Ctx, base: Ctx, o: Dir)
    requires Spine(c, base, o) && base.Down?
    ensures base.x in IdsC(c)
    decreases c
  {
    if c != base {
      SpineFrame(c.up, base, o);
    }
  }

  lemma {:induction false} PlugToNode(c: Ctx, base: Ctx, t: Tree)
    requires t.Node? || (c != base && c.Down?)
    ensures PlugTo(c, base, t).Node?
    decreases c
  {
    if c != base && c.Down? {
      PlugToNode(c.up, base, Mk(c.d, t, c.x, c.red, c.sib));
    }
  }

  /** Stand-in is a child of the removed node: painting its son black. */
  lemma {:induction false} NearPaint(h: Heap, base: Ctx, t: Tree, n: int)
    requires At(h, base, t) && StandIn(base, base, t, n)
    ensures var k := Kid(t, base.d);
            && (k.Node? ==> k.x in h)
            && var h1 := if k.Node? then Mark(h, k.x, false) else h;
               At(h1, base.up, Mk(base.d, Mk(base.d, Heir(t, base.d), t.x, t.red, Leaf), base.x, base.red, base.sib))
  {
    var d, k := base.d, Kid(t, base.d);
    assert t == Mk(d, k, t.x, t.red, Leaf);
    var h1 := h;
    if k.Node? {
      Move(h, base, d, k, t.x, t.red, Leaf);
      Recolour(h, Down(base, d, t.x, t.red, Leaf), k, false);
      h1 := Mark(h, k.x, false);
      Move(h1, base, d, k.(red := false), t.x, t.red, Leaf);
    }
    Move(h1, base.up, d, Mk(d, Heir(t, d), t.x, t.red, Leaf), base.x, base.red, base.sib);
  }

  /** Stand-in further down: its son takes its place. */
  lemma {:induction false} FarDetach(h: Heap, h1: Heap, c: Ctx, base: Ctx, t: Tree, n: int)
    requires At(h, c, t) && StandIn(c, base, t, n) && c != base
    requires c.x in h && h1.Keys == h.Keys
    requires var k := Kid(t, base.d);
             && (k.Node? ==> k.x in h && k.x != c.x && h1[k.x] == h[k.x].(father := c.x, pos := c.d, red := false))
             && h1[c.x] == h[c.x].SetKid(c.d, Root(k))
             && (forall i :: i in h && i != c.x && i != Root(k) ==> h1[i] == h[i])
    ensures var w := PlugTo(c, base, Heir(t, base.d));
            && At(h1, base.up, Mk(base.d, w, base.x, base.red, base.sib)) && w.Node?
            && w.x == Root(PlugTo(c, base, t))
  {
    var d, k := base.d, Kid(t, base.d);
    assert t == Mk(d, k, t.x, t.red, Leaf);
    AtMk(h, c, d, k, t.x, t.red, Leaf);
    assert Root(k) == NULL || Root(k) in Ids(k);
    RepIds(h, k, t.x, d);
    RepIdsC(h, c, t.x);
    HeirRep(h, h1, c, t, d);
    var k' := Heir(t, d);
    SpinePlug(c, base, d.Other(), k');
    MoveTop(h1, c, k');
    MoveTop(h1, base, PlugTo(c, base, k'));
    Move(h1, base.up, d, PlugTo(c, base, k'), base.x, base.red, base.sib);
    PlugToNode(c, base, k');
    PlugToRoot(c, base, t, k');
  }

  lemma {:induction false} PlugToRoot(c: Ctx, base: Ctx, t: Tree, t': Tree)
    requires (t.Node? && t'.Node? && t.x == t'.x) || (c != base && c.Down?)
    ensures PlugTo(c, base, t).Node? && PlugTo(c, base, t').Node? && PlugTo(c, base, t).x == PlugTo(c, base, t').x
    decreases c
  {
    if c != base && c.Down? {
      PlugToRoot(c.up, base, Mk(c.d, t, c.x, c.red, c.sib), Mk(c.d, t', c.x, c.red, c.sib));
    }
  }

  lemma {:induction false} NearPlaced(h: Heap, h': Heap, base: Ctx, t: Tree)
    requires base.Down? && base.sib.Node? && t.Node?
    requires At(h, base.up, Mk(base.d, Mk(base.d, Heir(t, base.d), t.x, t.red, Leaf), base.x, base.red, base.sib))
    requires base.x in h && t.x in h && base.sib.x in h && Father(base.up) in h
    requires Placed(h, h', base.x, t.x, base.sib.x, Father(base.up), base.d.Other())
    ensures At(h', base.up, Exchanged(base, base, t))
  {
    var d, k := base.d, Heir(t, base.d);
    AtMk(h, base.up, d, Mk(d, k, t.x, t.red, Leaf), base.x, base.red, base.sib);
    RepMk(h, d, k, t.x, t.red, Leaf, base.x, d);
    NearRep(h, h', base.up, d, k, t.x, t.red, base.x, base.red, base.sib);
  }

  /** `h1` is `h` after the stand-in `y` has adopted the child `w` of the removed node. */
  lemma {:induction false} FarPlaced(h: Heap, h1: Heap, h': Heap, base: Ctx, w: Tree, y: Ptr)
    requires base.Down? && base.sib.Node? && w.Node? && NULL !in h
    requires At(h, base.up, Mk(base.d, w, base.x, base.red, base.sib))
    requires y in h && y != HEAD && y !in IdsC(base) && y !in Ids(w)
    requires base.x in h && base.sib.x in h && Father(base.up) in h && w.x in h
    requires h1 == SetFather(SetKid(h, y, base.d, w.x), w.x, y)
    requires Placed(h1, h', base.x, y, base.sib.x, Father(base.up), base.d.Other())
    ensures At(h', base.up, Mk(base.d, w, y, base.red, base.sib))
  {
    var d := base.d;
    AtMk(h, base.up, d, w, base.x, base.red, base.sib);
    RepFather(h, base.up, base.x);
    RepIds(h, w, base.x, d);
    RepIds(h, base.sib, base.x, d.Other());
    assert w.x in Ids(w) && base.sib.x in Ids(base.sib);
    ReplaceRep(h, h', base.up, d, w, base.x, base.red, base.sib, y);
  }

  /** The records that the exchange reads and writes belong to different nodes. */
  lemma {:induction false} ExchangeView(h: Heap, c: Ctx, base: Ctx, t: Tree, n: int)
    requires At(h, c, t) && StandIn(c, base, t, n)
    ensures var x, y, g, s := base.x, t.x, Father(base.up), base.sib.x;
            && x in h && y in h && g in h && s in h && HEAD in h && x != HEAD && y != HEAD
            && x != y && x != g && x != s && y != g && y != s && g != s
            && h[x].father == g && h[x].Kid(base.d.Other()) == s && h[x].Kid(base.d) == Root(PlugTo(c, base, t))
            && h[x].pos == Position(base.up) && c.x != y
  {
    StandInView(h, c, base, t, n);
    var w := PlugTo(c, base, t);
    NodeView(h, base.up, Mk(base.d, w, base.x, base.red, base.sib));
    MoveTop(h, c, t);
    SwappedIds(c, base, t);
    AtMk(h, base.up, base.d, w, base.x, base.red, base.sib);
    assert base.sib.x in Ids(base.sib);
    assert Father(base.up) == HEAD || Father(base.up) in IdsC(base.up);
    NodeView(h, c, t);
  }

  lemma {:induction false} PlacedWithin(h: Heap, h': Heap, x: Ptr, y: Ptr, k: Ptr, g: Ptr, o: Dir, s: set<Ptr>)
    requires x in h && y in h && k in h && g in h && y != HEAD && k != HEAD && y != g && k != g
    requires Placed(h, h', x, y, k, g, o) && y in s && k in s && (g == HEAD || g in s) && (g == HEAD ==> h[x].pos.L?)
    ensures Within(h, h', s)
  {
  }

  /** A node with two children and its surroundings. */
  lemma {:induction false} TwoChildView(h: Heap, c: Ctx, d: Dir, w: Tree, x: Ptr, red: bool, k: Tree)
    requires At(h, c, Mk(d, w, x, red, k)) && w.Node? && k.Node?
    ensures var g := Father(c);
            && x in h && g in h && w.x in h && k.x in h
            && x != HEAD && w.x != HEAD && k.x != HEAD
            && x != g && x != w.x && x != k.x && w.x != k.x && w.x != g && k.x != g
            && h[x].Kid(d) == w.x && h[x].Kid(d.Other()) == k.x && h[x].father == g && h[x].pos == Position(c)
  {
    AtMk(h, c, d, w, x, red, k);
    RepFather(h, c, x);
    RepIdsC(h, c, x);
    assert w.x in Ids(w) && k.x in Ids(k);
  }

  /** The nodes that the exchange touches are in the tree. */
  lemma {:induction false} ExchangeIds(c: Ctx, base: Ctx, t: Tree)
    requires base.Down? && c.Down? && t.Node? && base.sib.Node? && Spine(c, base, base.d.Other())
    ensures var ids := Ids(Plug(c, t));
            && base.x in ids && t.x in ids && base.sib.x in ids && c.x in ids
            && (Father(base.up) == HEAD || Father(base.up) in ids)
            && (Kid(t, base.d).Node? ==> Kid(t, base.d).x in ids)
            && Root(PlugTo(c, base, t)) in ids
  {
    IdsPlug(c, t);
    SpineIds(c, base, base.d.Other(), t);
    PlugToNode(c, base, t);
    var k := Kid(t, base.d);
    assert base.sib.x in Ids(base.sib) && (k.Node? ==> k.x in Ids(k) && Ids(k) <= Ids(t));
    assert base.sib.x in IdsC(base) && base.x in IdsC(base) && IdsC(base.up) <= IdsC(base);
  }

  /** The removed node is not in the tree afterwards. */
  lemma {:induction false} ExchangeGone(h: Heap, c: Ctx, base: Ctx, t: Tree, n: int)
    requires At(h, c, t) && StandIn(c, base, t, n)
    ensures base.x !in IdsC(base.up) && base.x !in Ids(Exchanged(c, base, t))
    ensures t.x !in IdsC(base) && t.x !in Ids(PlugTo(c, base, Heir(t, base.d)))
  {
    var o, k := base.d.Other(), Heir(t, base.d);
    var w := PlugTo(c, base, k);
    MoveTop(h, c, t);
    SwappedIds(c, base, t);
    SpineIds(c, base, o, k);
    SpineIds(c, base, o, t);
    SpinePlug(c, base, o, t);
    IdsPlug(base, PlugTo(c, base, t));
    HeirIn(t, base.d);
    SpineLess(c, base, o, t, k);
    assert Ids(Exchanged(c, base, t)) == Ids(w) + {t.x} + Ids(base.sib);
  }

  /** A smaller tree at the end of a spine gives a smaller subtree. */
  lemma {:induction false} SpineLess(c: Ctx, base: Ctx, o: Dir, t: Tree, k: Tree)
    requires Spine(c, base, o) && Ids(k) <= Ids(t)
    ensures Ids(PlugTo(c, base, k)) <= Ids(PlugTo(c, base, t))
    ensures Ids(t) <= Ids(PlugTo(c, base, t))
    decreases c
  {
    if c != base {
      var u, v := Mk(c.d, t, c.x, c.red, c.sib), Mk(c.d, k, c.x, c.red, c.sib);
      assert Ids(u) == Ids(t) + {c.x} + Ids(c.sib) && Ids(v) == Ids(k) + {c.x} + Ids(c.sib);
      SpineLess(c.up, base, o, u, v);
    }
  }

  lemma {:induction false} AdoptWithin(h: Heap, y: Ptr, d: Dir, w: Ptr, s: set<Ptr>)
    requires y in h && w in h && y in s && w in s && y != HEAD && w != HEAD
    ensures Within(h, SetFather(SetKid(h, y, d, w), w, y), s)
  {
  }

  lemma {:induction false} CutAt(a: seq<Ptr>, x: Ptr, b: seq<Ptr>)
    ensures var s := a + [x] + b;
            s[|a|] == x && s[..|a|] + s[|a| + 1..] == a + b
  {
    assert (a + [x] + b)[..|a|] == a && (a + [x] + b)[|a| + 1..] == b;
  }

  /** `r` is `s` without its element `x` at position `i`. */
  ghost predicate Cut(s: seq<Ptr>, i: nat, x: Ptr, r: seq<Ptr>) {
    i < |s| && s[i] == x && s[..i] + s[i + 1..] == r
  }

  /** The position of a node with at most one child, which is itself childless. */
  lemma {:induction false} PrunedAt(c: Ctx, t: Tree, d: Dir) returns (i: nat)
    requires t.Node? && Kid(t, d.Other()).Leaf?
    requires Kid(t, d).Leaf? || Kid(t, d) == Node(Leaf, Kid(t, d).x, true, Leaf)
    ensures Cut(In(Plug(c, t)), i, t.x, Pre(c) + (if Kid(t, d).Leaf? then [] else [Kid(t, d).x]) + Post(c))
    ensures Pre(c) + [] + Post(c) == Pre(c) + Post(c)
  {
    var k := if Kid(t, d).Leaf? then [] else [Kid(t, d).x];
    InPlug(c, t);
    InPruned(t, d);
    NoMiddle(Pre(c), Post(c));
    hide Cut, In, Pre, Post, Plug;
    if d.L? {
      CutLast(Pre(c), k, t.x, Post(c));
      i := |Pre(c)| + |k|;
    } else {
      CutFirst(Pre(c), t.x, k, Post(c));
      i := |Pre(c)|;
    }
  }

  lemma {:induction false} NoMiddle(a: seq<Ptr>, b: seq<Ptr>)
    ensures a + [] + b == a + b
  {
    assert a + [] == a;
  }

  lemma {:induction false} InPruned(t: Tree, d: Dir)
    requires t.Node? && Kid(t, d.Other()).Leaf?
    requires Kid(t, d).Leaf? || Kid(t, d) == Node(Leaf, Kid(t, d).x, true, Leaf)
    ensures var k := if Kid(t, d).Leaf? then [] else [Kid(t, d).x];
            In(t) == if d.L? then k + [t.x] else [t.x] + k
  {
  }

  lemma {:induction false} CutLast(a: seq<Ptr>, k: seq<Ptr>, x: Ptr, b: seq<Ptr>)
    ensures Cut(a + (k + [x]) + b, |a| + |k|, x, a + k + b)
  {
    assert a + (k + [x]) + b == (a + k) + [x] + b;
    CutAt(a + k, x, b);
  }

  lemma {:induction false} CutFirst(a: seq<Ptr>, x: Ptr, k: seq<Ptr>, b: seq<Ptr>)
    ensures Cut(a + ([x] + k) + b, |a|, x, a + k + b)
  {
    assert a + ([x] + k) + b == a + [x] + (k + b);
    CutAt(a, x, k + b);
    assert a + (k + b) == a + k + b;
  }

  // ----- iteration -----

  /** The neighbour of position `k` of `s` in direction `d`. */
  ghost function Neighbour(s: seq<Ptr>, k: int, d: Dir): Ptr
    requires 0 <= k < |s|
  {
    if d.R? then (if k + 1 < |s| then s[k + 1] else NULL) else (if k > 0 then s[k - 1] else NULL)
  }

  /** What lies beyond the hole of `c` in direction `d` is what lies beyond position `k` of `s`. */
  ghost predicate Beyond(c: Ctx, s: seq<Ptr>, k: int, d: Dir)
    requires 0 <= k < |s|
  {
    if d.R? then Post(c) == s[k + 1..] else Pre(c) == s[..k]
  }

  /** The last node of the inner spine of a child is the neighbour of the node above it. */
  lemma {:induction false} DownNeighbour(c: Ctx, t: Tree, d: Dir, c': Ctx, t': Tree)
    requires t.Node? && t'.Node? && Spine(c', Descend(c, t, d), d.Other()) && Kid(t', d.Other()).Leaf?
    requires Plug(c', t') == Plug(c, t)
    ensures var s, k := In(Plug(c, t)), |Pre(c)| + |In(t.left)|;
            k < |s| && s[k] == t.x && t'.x == Neighbour(s, k, d)
  {
    Place(c, t);
    var s, k := In(Plug(c, t)), |Pre(c)| + |In(t.left)|;
    if d.L? {
      assert |Post(c')| == |s| - k by { SpineIn(c', Descend(c, t, L), R, t'.x); }
      PlaceEnd(c', t');
    } else {
      assert |Pre(c')| == k + 1 by { SpineIn(c', Descend(c, t, R), L, t'.x); }
      PlaceStart(c', t');
    }
  }

  lemma {:induction false} PlaceStart(c: Ctx, t: Tree)
    requires t.Node? && t.left.Leaf?
    ensures |Pre(c)| < |In(Plug(c, t))| && In(Plug(c, t))[|Pre(c)|] == t.x
  {
    Place(c, t);
  }

  lemma {:induction false} PlaceEnd(c: Ctx, t: Tree)
    requires t.Node? && t.right.Leaf?
    ensures var s := In(Plug(c, t));
            |Post(c)| < |s| && s[|s| - 1 - |Post(c)|] == t.x
  {
    Place(c, t);
    assert |Post(Descend(c, t, L))| == 1 + |Post(c)|;
  }

  /** Without a child in direction `d`, the neighbour is what lies beyond the subtree. */
  lemma {:induction false} UpStart(c: Ctx, t: Tree, d: Dir)
    requires t.Node? && Kid(t, d).Leaf?
    ensures var s, k := In(Plug(c, t)), |Pre(c)| + |In(t.left)|;
            k < |s| && s[k] == t.x && Beyond(c, s, k, d)
  {
    Place(c, t);
    InPlug(c, t);
    UpSplit(Pre(c), In(t.left), t.x, In(t.right), Post(c));
  }

  lemma {:induction false} UpSplit(a: seq<Ptr>, l: seq<Ptr>, x: Ptr, r: seq<Ptr>, b: seq<Ptr>)
    ensures var s, k := a + (l + [x] + r) + b, |a| + |l|;
            && k < |s| && s[k] == x
            && (r == [] ==> b == s[k + 1..])
            && (l == [] ==> a == s[..k])
  {
  }

  lemma {:induction false} UpEnd(c: Ctx, s: seq<Ptr>, k: int, d: Dir)
    requires 0 <= k < |s| && Beyond(c, s, k, d)
    ensures c.Down? && c.d == d.Other() ==> c.x == Neighbour(s, k, d)
    ensures c.Top? ==> Neighbour(s, k, d) == NULL
    ensures c.Down? && c.d == d ==> Beyond(c.up, s, k, d)
  {
    if c.Down? && c.d == d.Other() {
      if d.R? {
        assert Post(c)[0] == c.x;
      } else {
        assert Pre(c)[|Pre(c)| - 1] == c.x;
      }
    }
  }
}
