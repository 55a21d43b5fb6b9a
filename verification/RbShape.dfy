/**
  Red-black trees as values: the shapes that the pointer structure of libec/rb.c
  denotes, together with the "zipper" contexts that describe a tree with one
  subtree taken out.  A context lists the frames on the way from the hole to the
  root, so a walk along father pointers is a structural descent of the context.
 */
module RbShape {

  /** A node address. */
  type Ptr = nat

  /** RB_SENTINEL_NODE. */
  const NULL: Ptr := 0

  /** The address of the root pointer of the tree, used by the source as if it were the root's father. */
  const HEAD: Ptr := 1

  /** RB_DIR_LEFT and RB_DIR_RIGHT. */
  datatype Dir = L | R {
    function Other(): Dir { if L? then R else L }
  }

  datatype Tree = Leaf | Node(left: Tree, x: Ptr, red: bool, right: Tree)

  datatype Ctx = Top | Down(up: Ctx, d: Dir, x: Ptr, red: bool, sib: Tree)

  /** The node `x` with `near` in direction `d` and `far` on the other side. */
  function Mk(d: Dir, near: Tree, x: Ptr, red: bool, far: Tree): Tree {
    if d.L? then Node(near, x, red, far) else Node(far, x, red, near)
  }

  function Kid(t: Tree, d: Dir): Tree
    requires t.Node?
  {
    if d.L? then t.left else t.right
  }

  function Root(t: Tree): Ptr {
    if t.Leaf? then NULL else t.x
  }

  predicate IsRed(t: Tree) { t.Node? && t.red }

  function Plug(c: Ctx, t: Tree): Tree
    decreases c
  {
    match c
    case Top => t
    case Down(up, d, x, red, sib) => Plug(up, Mk(d, t, x, red, sib))
  }

  function Father(c: Ctx): Ptr {
    if c.Top? then HEAD else c.x
  }

  function Position(c: Ctx): Dir {
    if c.Top? then L else c.d
  }

  // ----- in-order sequence -----

  function In(t: Tree): seq<Ptr> {
    match t
    case Leaf => []
    case Node(l, x, _, r) => In(l) + [x] + In(r)
  }

  function Pre(c: Ctx): seq<Ptr> {
    match c
    case Top => []
    case Down(up, d, x, _, sib) => Pre(up) + if d.R? then In(sib) + [x] else []
  }

  function Post(c: Ctx): seq<Ptr> {
    match c
    case Top => []
    case Down(up, d, x, _, sib) => (if d.L? then [x] + In(sib) else []) + Post(up)
  }

  lemma {:induction false} InPlug(c: Ctx, t: Tree)
    ensures In(Plug(c, t)) == Pre(c) + In(t) + Post(c)
    decreases c
  {
    if c.Down? {
      var u := Mk(c.d, t, c.x, c.red, c.sib);
      InPlug(c.up, u);
      Regroup(Pre(c.up), In(t), [c.x], In(c.sib), Post(c.up));
      Regroup(Pre(c.up), In(c.sib), [c.x], In(t), Post(c.up));
    }
  }

  lemma {:induction false} Regroup(a: seq<Ptr>, b: seq<Ptr>, x: seq<Ptr>, e: seq<Ptr>, f: seq<Ptr>)
    ensures a + (b + x + e) + f == (a + []) + b + ((x + e) + f)
    ensures a + (b + x + e) + f == (a + (b + x)) + e + ([] + f)
  {
  }

  ghost function Descend(c: Ctx, t: Tree, d: Dir): Ctx
    requires t.Node?
  {
    Down(c, d, t.x, t.red, Kid(t, d.Other()))
  }

  /** Where the node in view stands in the sequence, and what is before and after it. */
  lemma {:induction false} Place(c: Ctx, t: Tree)
    requires t.Node?
    ensures var s := In(Plug(c, t));
            var k := |Pre(c)| + |In(t.left)|;
            && k < |s| && s[k] == t.x
            && Pre(Descend(c, t, R)) == s[..k + 1] && Post(Descend(c, t, L)) == s[k..]
  {
    InPlug(c, t);
    Split(Pre(c), In(t.left), t.x, In(t.right), Post(c));
  }

  lemma {:induction false} Split(a: seq<Ptr>, l: seq<Ptr>, x: Ptr, r: seq<Ptr>, b: seq<Ptr>)
    ensures var s := a + (l + [x] + r) + b;
            var k := |a| + |l|;
            s[k] == x && a + (l + [x]) == s[..k + 1] && ([x] + r) + b == s[k..]
  {
  }

  lemma {:induction false} PlaceOther(c: Ctx, t: Tree)
    requires t.Node?
    ensures Pre(Descend(c, t, L)) == Pre(c) && Post(Descend(c, t, R)) == Post(c)
  {
  }

  // ----- black heights -----

  /** Every path from the root of `t` to a leaf meets exactly `n` black nodes. */
  ghost predicate Bal(t: Tree, n: int) {
    match t
    case Leaf => n == 0
    case Node(l, _, red, r) => var m := if red then n else n - 1; m >= 0 && Bal(l, m) && Bal(r, m)
  }

  /** With a tree of black height `n` in the hole, all paths are balanced. */
  ghost predicate BalC(c: Ctx, n: int) {
    match c
    case Top => true
    case Down(up, _, _, red, sib) => Bal(sib, n) && BalC(up, if red then n else n + 1)
  }

  ghost function HeightC(c: Ctx, n: int): int {
    match c
    case Top => n
    case Down(up, _, _, red, _) => HeightC(up, if red then n else n + 1)
  }

  lemma {:induction false} BalPlug(c: Ctx, t: Tree, n: int)
    requires Bal(t, n) && BalC(c, n)
    ensures Bal(Plug(c, t), HeightC(c, n))
    decreases c
  {
    BalNat(t, n);
    if c.Down? {
      BalPlug(c.up, Mk(c.d, t, c.x, c.red, c.sib), if c.red then n else n + 1);
    }
  }

  lemma {:induction false} BalNat(t: Tree, n: int)
    requires Bal(t, n)
    ensures n >= 0
  {
  }

  lemma {:induction false} BalUnplug(c: Ctx, t: Tree, m: int) returns (n: int)
    requires Bal(Plug(c, t), m)
    ensures Bal(t, n) && BalC(c, n) && HeightC(c, n) == m
    decreases c
  {
    if c.Top? {
      n := m;
    } else {
      n := BalUnplug(c.up, Mk(c.d, t, c.x, c.red, c.sib), m);
      n := if c.red then n else n - 1;
    }
  }

  // ----- no two adjacent red nodes -----

  ghost predicate NoRR(t: Tree) {
    t.Node? ==> (t.red ==> !IsRed(t.left) && !IsRed(t.right)) && NoRR(t.left) && NoRR(t.right)
  }

  predicate IsRedC(c: Ctx) { c.Down? && c.red }

  /** No red-red edge in the context, the edge into the hole aside. */
  ghost predicate NoRRC(c: Ctx) {
    c.Down? ==> (c.red ==> !IsRed(c.sib) && !IsRedC(c.up)) && NoRR(c.sib) && NoRRC(c.up)
  }

  lemma {:induction false} NoRRPlug(c: Ctx, t: Tree)
    requires NoRR(t) && NoRRC(c) && !(IsRed(t) && IsRedC(c))
    ensures NoRR(Plug(c, t))
    decreases c
  {
    if c.Down? {
      NoRRPlug(c.up, Mk(c.d, t, c.x, c.red, c.sib));
    }
  }

  lemma {:induction false} NoRRUnplug(c: Ctx, t: Tree)
    requires NoRR(Plug(c, t))
    ensures NoRR(t) && NoRRC(c) && !(IsRed(t) && IsRedC(c))
    decreases c
  {
    if c.Down? {
      NoRRUnplug(c.up, Mk(c.d, t, c.x, c.red, c.sib));
    }
  }

  /** The outermost frame, which is the root of any tree plugged in, is black. */
  ghost predicate BlackTop(c: Ctx) {
    c.Down? ==> (c.up.Top? ==> !c.red) && BlackTop(c.up)
  }

  lemma {:induction false} BlackTopPlug(c: Ctx, t: Tree)
    ensures c.Down? ==> (BlackTop(c) <==> !IsRed(Plug(c, t)))
    decreases c
  {
    if c.Down? && c.up.Down? {
      BlackTopPlug(c.up, Mk(c.d, t, c.x, c.red, c.sib));
    }
  }

  /** The red-black invariants: black root, no adjacent red nodes, equal black heights. */
  ghost predicate RedBlack(t: Tree) {
    !IsRed(t) && NoRR(t) && exists n :: Bal(t, n)
  }

  /** What a context and the tree in its hole must satisfy for the whole to be red-black. */
  ghost predicate Good(c: Ctx, t: Tree, n: int) {
    && Bal(t, n) && BalC(c, n)
    && NoRR(t) && NoRRC(c) && !(IsRed(t) && IsRedC(c))
    && BlackTop(c) && (c.Top? ==> !IsRed(t))
  }

  lemma {:induction false} GoodPlug(c: Ctx, t: Tree, n: int)
    requires Good(c, t, n)
    ensures RedBlack(Plug(c, t))
  {
    BalPlug(c, t, n);
    NoRRPlug(c, t);
    BlackTopPlug(c, t);
  }

  lemma {:induction false} GoodUnplug(c: Ctx, t: Tree) returns (n: int)
    requires RedBlack(Plug(c, t))
    ensures Good(c, t, n)
  {
    var m :| Bal(Plug(c, t), m);
    n := BalUnplug(c, t, m);
    NoRRUnplug(c, t);
    BlackTopPlug(c, t);
  }

  // ----- node identities -----

  ghost function Ids(t: Tree): set<Ptr> {
    if t.Leaf? then {} else Ids(t.left) + {t.x} + Ids(t.right)
  }

  ghost function IdsC(c: Ctx): set<Ptr> {
    if c.Top? then {} else IdsC(c.up) + {c.x} + Ids(c.sib)
  }

  /** No node occurs twice in `t`. */
  ghost predicate Uq(t: Tree) {
    t.Node? ==>
      && t.x !in Ids(t.left) && t.x !in Ids(t.right) && Ids(t.left) !! Ids(t.right)
      && Uq(t.left) && Uq(t.right)
  }

  ghost predicate UqC(c: Ctx) {
    c.Down? ==>
      && c.x !in Ids(c.sib) && c.x !in IdsC(c.up) && Ids(c.sib) !! IdsC(c.up)
      && Uq(c.sib) && UqC(c.up)
  }

  lemma {:induction false} IdsPlug(c: Ctx, t: Tree)
    ensures Ids(Plug(c, t)) == IdsC(c) + Ids(t)
    ensures Uq(Plug(c, t)) <==> Uq(t) && UqC(c) && Ids(t) !! IdsC(c)
    decreases c
  {
    if c.Down? {
      IdsPlug(c.up, Mk(c.d, t, c.x, c.red, c.sib));
    }
  }

  lemma {:induction false} InIds(t: Tree, y: Ptr)
    ensures y in In(t) <==> y in Ids(t)
  {
    if t.Node? {
      InIds(t.left, y);
      InIds(t.right, y);
    }
  }

  /** The place of a node of `t`: the context around it. */
  lemma {:induction false} Locate(c: Ctx, t: Tree, y: Ptr) returns (c': Ctx, t': Tree)
    requires y in Ids(t)
    ensures t'.Node? && t'.x == y && Plug(c', t') == Plug(c, t)
    decreases t
  {
    if y == t.x {
      c', t' := c, t;
    } else if y in Ids(t.left) {
      c', t' := Locate(Down(c, L, t.x, t.red, t.right), t.left, y);
    } else {
      c', t' := Locate(Down(c, R, t.x, t.red, t.left), t.right, y);
    }
  }

  // ----- rotation -----

  /** rb_tree_reparent_nodes: the child in direction `w` and its father exchange places and colours. */
  function Rotate(t: Tree, w: Dir): Tree
    requires t.Node? && Kid(t, w).Node?
  {
    var u := Kid(t, w);
    Mk(w.Other(), Mk(w, Kid(u, w.Other()), t.x, u.red, Kid(t, w.Other())), u.x, t.red, Kid(u, w))
  }

  lemma {:induction false} RotateIn(t: Tree, w: Dir)
    requires t.Node? && Kid(t, w).Node?
    ensures In(Rotate(t, w)) == In(t)
  {
    var u := Kid(t, w);
    Regroup([], In(u.left), [u.x], In(u.right), [t.x] + In(t.right));
    Regroup(In(t.left) + [t.x], In(u.left), [u.x], In(u.right), []);
  }

  /** Trees with the same in-order sequence are interchangeable in a context. */
  lemma {:induction false} SameIn(c: Ctx, t: Tree, t': Tree)
    requires In(t) == In(t')
    ensures In(Plug(c, t)) == In(Plug(c, t'))
  {
    InPlug(c, t);
    InPlug(c, t');
  }

  // ----- insertion: a red node under a red father -----

  /** Red-black but for the edge between the red root of `t` and its red father. */
  ghost predicate Clash(c: Ctx, t: Tree, n: int) {
    && Bal(t, n) && BalC(c, n)
    && NoRR(t) && NoRRC(c) && IsRed(t) && IsRedC(c)
    && BlackTop(c)
  }

  /** Case 1, red uncle `u`: the clash is gone or has moved to the grandfather. */
  lemma {:induction false} InsertRedUncle(g: Ctx, w: Dir, gp: Ptr, u: Tree, d: Dir, f: Ptr, s: Tree, t: Tree, n: int)
    requires Clash(Down(Down(g, w, gp, false, u), d, f, true, s), t, n) && IsRed(u)
    ensures var v := Mk(w, Mk(d, t, f, false, s), gp, true, u.(red := false));
            && (g.Top? ==> Good(g, v.(red := false), n + 2))
            && (g.Down? && !IsRedC(g) ==> Good(g, v, n + 1))
            && (IsRedC(g) ==> Clash(g, v, n + 1))
  {
    assert BalC(Down(g, w, gp, false, u), n) && NoRRC(Down(g, w, gp, false, u)) && BlackTop(Down(g, w, gp, false, u));
    assert Bal(Mk(d, t, f, false, s), n + 1);
  }

  /** Case 2: after the first rotation the clash is between the former father and its new father. */
  lemma {:induction false} InsertInner(c: Ctx, o: Dir, f: Ptr, s: Tree, t: Tree, n: int)
    requires Clash(Down(c, o, f, true, s), t, n)
    ensures var w := o.Other();
            && Rotate(Mk(o, t, f, true, s), o) == Mk(w, Mk(o, Kid(t, w), f, true, s), t.x, true, Kid(t, o))
            && Clash(Down(c, w, t.x, true, Kid(t, o)), Mk(o, Kid(t, w), f, true, s), n)
  {
  }

  /** Case 3: the second rotation removes the clash. */
  lemma {:induction false} InsertOuter(g: Ctx, w: Dir, gp: Ptr, u: Tree, f: Ptr, s: Tree, t: Tree, n: int)
    requires Clash(Down(Down(g, w, gp, false, u), w, f, true, s), t, n) && !IsRed(u)
    ensures Good(g, Rotate(Mk(w, Mk(w, t, f, true, s), gp, false, u), w), n + 1)
  {
    assert BalC(Down(g, w, gp, false, u), n) && NoRRC(Down(g, w, gp, false, u)) && BlackTop(Down(g, w, gp, false, u));
    assert Bal(Mk(w, s, gp, true, u), n) && NoRR(Mk(w, s, gp, true, u));
  }

  // ----- removal: a subtree that is one black node short -----

  /** Red-black but for the black height of `t`, which is one less than its context needs. */
  ghost predicate Short(c: Ctx, t: Tree, n: int) {
    && Bal(t, n) && BalC(c, n + 1)
    && NoRR(t) && NoRRC(c) && !IsRed(t)
    && BlackTop(c) && c.Down?
  }

  ghost predicate BlackKids(b: Tree) {
    b.Node? && !IsRed(b.left) && !IsRed(b.right)
  }

  /** All black: recolouring the brother makes the whole subtree short. */
  lemma {:induction false} RemoveAllBlack(g: Ctx, w: Dir, p: Ptr, b: Tree, t: Tree, n: int)
    requires Short(Down(g, w, p, false, b), t, n) && !IsRed(b) && BlackKids(b)
    ensures var v := Mk(w, t, p, false, b.(red := true));
            && !IsRed(v)
            && (g.Top? ==> Good(g, v, n + 1))
            && (g.Down? ==> Short(g, v, n + 1))
  {
  }

  /** Case 1, red brother: after the rotation the father is red and the new brother is black. */
  lemma {:induction false} RemoveRedBrother(g: Ctx, w: Dir, p: Ptr, b: Tree, t: Tree, n: int)
    requires Short(Down(g, w, p, false, b), t, n) && IsRed(b)
    ensures var e := Down(Down(g, w, b.x, false, Kid(b, w.Other())), w, p, true, Kid(b, w));
            && Short(e, t, n) && e.sib.Node? && !IsRed(e.sib)
            && Rotate(Mk(w, t, p, false, b), w.Other()) == Mk(w, Mk(w, t, p, true, Kid(b, w)), b.x, false, Kid(b, w.Other()))
  {
  }

  /** Case 2b: red father, black brother with black children. */
  lemma {:induction false} RemoveRedFather(g: Ctx, w: Dir, p: Ptr, b: Tree, t: Tree, n: int)
    requires Short(Down(g, w, p, true, b), t, n) && !IsRed(b) && BlackKids(b)
    ensures Good(g, Mk(w, t, p, false, b.(red := true)), n + 1)
  {
  }

  /** Case 3: black brother whose far child is black gets a red far child. */
  lemma {:induction false} RemoveInnerNephew(g: Ctx, w: Dir, p: Ptr, red: bool, b: Tree, t: Tree, n: int)
    requires Short(Down(g, w, p, red, b), t, n) && b.Node? && !IsRed(b) && IsRed(Kid(b, w)) && !IsRed(Kid(b, w.Other()))
    ensures var b' := Rotate(b, w);
            Short(Down(g, w, p, red, b'), t, n) && b'.Node? && !IsRed(b') && IsRed(Kid(b', w.Other()))
  {
    var o := w.Other();
    var k := Kid(b, w);
    assert Bal(k, n) && NoRR(k);
    assert Bal(Mk(w, Kid(k, o), b.x, true, Kid(b, o)), n);
  }

  /** Case 4: black brother whose far child is red. */
  lemma {:induction false} RemoveOuterNephew(g: Ctx, w: Dir, p: Ptr, red: bool, b: Tree, t: Tree, n: int)
    requires Short(Down(g, w, p, red, b), t, n) && b.Node? && !IsRed(b) && IsRed(Kid(b, w.Other()))
    ensures var o := w.Other();
            var b' := Mk(o, Kid(b, o).(red := false), b.x, false, Kid(b, w));
            Good(g, Rotate(Mk(w, t, p, red, b'), o), if red then n + 1 else n + 2)
  {
    var o := w.Other();
    assert Bal(Kid(b, o), n) && Bal(Kid(b, w), n) && NoRR(Kid(b, o)) && NoRR(Kid(b, w));
    assert Bal(Mk(o, Kid(b, w), p, false, t), n + 1) && Bal(Kid(b, o).(red := false), n + 1);
  }

  /** The brother of a short subtree is a node. */
  lemma {:induction false} ShortBrother(c: Ctx, t: Tree, n: int)
    requires Short(c, t, n)
    ensures c.sib.Node?
  {
    BalNat(t, n);
  }
}
