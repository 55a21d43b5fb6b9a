/**
  The red-black tree of libec/rb.c: insertion, removal, iteration and search on
  nodes linked by child and father pointers.
 */
module Rb {
  import opened RbShape
  import opened RbHeap
  import opened RbOrder
  import opened RbInsertion
  import opened RbRemoval
  import opened RbSwap

  class RbTree {
    var cmp: Comparator                // rbto_compare_nodes, as the contents of the nodes make it
    var heap: Heap                     // all nodes; the root pointer is the left child of HEAD
    var minmax: map<Dir, Ptr>          // rbt_minmax
    ghost var shape: Tree      // the tree that the nodes form

    ghost predicate Valid()
      reads this
    {
      && Ordered(cmp)
      && NULL !in heap
      && At(heap, Top, shape)
      && RedBlack(shape)
      && Sorted(cmp, In(shape))
      && MinMax(minmax, In(shape))
    }

    /** The nodes in ascending order. */
    ghost function Nodes(): seq<Ptr>
      reads this
    {
      In(shape)
    }

    /** rb_tree_init */
    constructor (cmp: Comparator, heap: Heap)
      requires Ordered(cmp) && NULL !in heap && HEAD in heap
      ensures Valid() && Nodes() == []
      ensures this.cmp == cmp && Within(heap, this.heap, {})
    {
      this.cmp := cmp;
      this.heap := SetKid(heap, HEAD, L, NULL);
      this.minmax := map[L := NULL, R := NULL];
      this.shape := Leaf;
      assert Bal(Leaf, 0);
    }

    /** rb_tree_reparent_nodes */
    method ReparentNodes(oldFather: Ptr, which: Dir, ghost c: Ctx, ghost t: Tree)
      requires NULL !in heap
      requires At(heap, c, t) && t.Node? && t.x == oldFather && Kid(t, which).Node?
      modifies this`heap
      ensures At(heap, c, Rotate(t, which))
      ensures Within(old(heap), heap, IdsC(c) + Ids(t))
    {
      RotateView(heap, c, t, which);
      assert heap[heap[oldFather].Kid(which)].Kid(which.Other()) == Root(Kid(Kid(t, which), which.Other()));
      var other := which.Other();
      var grandpa := heap[oldFather].father;
      var oldChild := heap[oldFather].Kid(which);
      var newFather := oldChild;
      var newChild := oldFather;

      heap := SetKid(heap, grandpa, heap[oldFather].pos, newFather);
      heap := SetKid(heap, newChild, which, heap[oldChild].Kid(other));
      heap := SetKid(heap, newFather, other, newChild);

      heap := SetFather(heap, newFather, grandpa);
      heap := SetFather(heap, newChild, newFather);

      heap := SwapProperties(heap, newFather, newChild);
      heap := SetPosition(heap, newChild, other);

      var moved := heap[newChild].Kid(which);
      if moved != NULL {
        heap := SetFather(heap, moved, newChild);
        heap := SetPosition(heap, moved, which);
      }

      ReparentRecords(old(heap), grandpa, oldFather, oldChild, moved, which);
      RotateTree(old(heap), heap, c, t, which);
      RotateWithin(old(heap), heap, c, t, which);
    }

    /** The search loop of rb_tree_insert_node. */
    method FindPlace(self: Ptr) returns (found: Ptr, parent: Ptr, position: Dir, ghost c: Ctx)
      requires Valid()
      ensures found != NULL ==> found in Nodes() && cmp(found, self) == 0
      ensures found == NULL ==>
                && At(heap, c, Leaf) && Plug(c, Leaf) == shape
                && parent == Father(c) && position == Position(c)
                && Below(cmp, Pre(c), self) && Above(cmp, Post(c), self)
    {
      ghost var t := shape;
      c := Top;
      found := heap[HEAD].left;
      parent := HEAD;
      position := L;
      while found != NULL
        invariant At(heap, c, t) && Plug(c, t) == shape
        invariant found == Root(t) && parent == Father(c) && position == Position(c)
        invariant Below(cmp, Pre(c), self) && Above(cmp, Post(c), self)
        decreases t
      {
        DescendView(heap, c, t);
        var diff := cmp(found, self);
        if diff == 0 {
          Place(c, t);
          return;
        }
        InsertDescend(cmp, c, t, self);
        parent := found;
        position := if diff < 0 then R else L;
        found := heap[parent].Kid(position);
        c, t := Descend(c, t, position), Kid(t, position);
      }
    }

    /**
      rb_tree_insert_node: an equal node is returned and nothing changes, or the
      node is inserted at the one place that keeps the order.
     */
    method Insert(self: Ptr) returns (r: Ptr, ghost i: nat)
      requires Valid() && self in heap && self != HEAD
      modifies this`heap, this`minmax, this`shape
      ensures Valid()
      ensures (exists y :: y in old(Nodes()) && cmp(y, self) == 0) ==>
                && r in old(Nodes()) && cmp(r, self) == 0
                && heap == old(heap) && minmax == old(minmax) && Nodes() == old(Nodes())
      ensures !(exists y :: y in old(Nodes()) && cmp(y, self) == 0) ==>
                && r == self && i <= |old(Nodes())|
                && Nodes() == old(Nodes())[..i] + [self] + old(Nodes())[i..]
      ensures Within(old(heap), heap, Ids(shape))
    {
      var found, parent, position, c := FindPlace(self);
      i := 0;
      if found != NULL {
        return found, i;
      }
      InsertPoint(cmp, c, self);
      i := |Pre(c)|;
      Link(self, parent, position, c);
      r := self;
    }

    /** The stores of rb_tree_insert_node: the node becomes a leaf. */
    method StoreLeaf(self: Ptr, parent: Ptr, position: Dir, ghost c: Ctx) returns (rebalance: bool)
      requires Ordered(cmp) && NULL !in heap && self in heap && self != HEAD && self !in IdsC(c)
      requires At(heap, c, Leaf) && parent == Father(c) && position == Position(c)
      requires Sorted(cmp, Pre(c) + Post(c)) && MinMax(minmax, Pre(c) + Post(c))
      modifies this`heap, this`minmax
      ensures parent in old(heap)
      ensures heap == old(heap)[self := Rec(NULL, NULL, parent, position, c.Down?)]
                               [parent := old(heap)[parent].SetKid(position, self)]
      ensures MinMax(minmax, Pre(c) + [self] + Post(c))
      ensures rebalance <==> IsRedC(c)
    {
      LinkView(heap, c, self);
      LinkRecords(heap, self, parent, position, c.Down?);
      heap := SetFather(heap, self, parent);
      heap := SetPosition(heap, self, position);
      if parent == HEAD {
        heap := Mark(heap, self, false);
        minmax := map[L := self, R := self];
        rebalance := false;
      } else {
        InsertMinMax(cmp, minmax, c, self);
        if parent == minmax[position] {
          minmax := minmax[position := self];
        }
        heap := Mark(heap, self, true);
        rebalance := Red(heap, parent);
      }
      heap := SetKid(heap, self, L, heap[parent].Kid(position));
      heap := SetKid(heap, self, R, heap[parent].Kid(position));
      heap := SetKid(heap, parent, position, self);
    }

    /** The rest of rb_tree_insert_node: the node is stored as a leaf and the tree rebalanced. */
    method Link(self: Ptr, parent: Ptr, position: Dir, ghost c: Ctx)
      requires Valid() && self in heap && self != HEAD && self !in IdsC(c)
      requires At(heap, c, Leaf) && Plug(c, Leaf) == shape && parent == Father(c) && position == Position(c)
      requires Sorted(cmp, Pre(c) + [self] + Post(c)) && Nodes() == Pre(c) + Post(c)
      modifies this`heap, this`minmax, this`shape
      ensures Valid() && Nodes() == Pre(c) + [self] + Post(c)
      ensures Within(old(heap), heap, Ids(shape))
    {
      hide At, Uq, Sorted, Pre, Post;
      LinkView(heap, c, self);
      var rebalance := StoreLeaf(self, parent, position, c);
      LinkLeaf(old(heap), heap, c, self, shape);
      ghost var leaf := Node(Leaf, self, c.Down?, Leaf);
      ghost var t := Plug(c, leaf);
      if rebalance {
        ghost var h := heap;
        t := InsertRebalance(self, c, leaf, 0);
        SettledTrans(old(heap), h, heap, IdsC(c) + {self}, Pre(c) + [self] + Post(c), t);
      }
      LinkIds(c, leaf, t);
      shape := t;
    }

    /** rb_tree_insert_rebalance */
    method InsertRebalance(self0: Ptr, ghost c0: Ctx, ghost t0: Tree, ghost n0: int)
      returns (ghost t': Tree)
      requires NULL !in heap
      requires At(heap, c0, t0) && Clash(c0, t0, n0) && t0.x == self0
      modifies this`heap
      ensures Settled(old(heap), heap, IdsC(c0) + Ids(t0), In(Plug(c0, t0)), t')
    {
      var self := self0;
      var father := heap[self].father;
      var grandpa := heap[father].father;
      var uncle := NULL;
      var which, other := L, R;
      ghost var c, t, n := c0, t0, n0;
      ghost var s, ids := In(Plug(c0, t0)), IdsC(c0) + Ids(t0);
      while true
        invariant Clashing(old(heap), heap, ids, s, c, t, n) && t.x == self && c.Down? && c.x == father
        decreases c
      {
        ClashView(heap, c, t, n);
        grandpa := heap[father].father;
        which := if father == heap[grandpa].right then R else L;
        other := which.Other();
        uncle := heap[grandpa].Kid(other);
        if !Red(heap, uncle) {
          break;
        }
        RedUncleStep(old(heap), heap, ids, s, c, t, n);
        heap := Mark(heap, uncle, false);
        heap := Mark(heap, father, false);
        if heap[HEAD].left == grandpa {
          return AfterRedUncle(c, t).(red := false);
        }
        heap := Mark(heap, grandpa, true);
        c, t, n := c.up.up, AfterRedUncle(c, t), n + 1;
        self := grandpa;
        father := heap[self].father;
        if !Red(heap, father) {
          return Plug(c, t);
        }
      }
      ClashView(heap, c, t, n);
      ghost var h := heap;
      t' := InsertRotate(self, father, grandpa, which, s, ids, c, t, n);
      WithinTrans(old(heap), h, heap, ids);
    }

    /** Cases 2 and 3 of rb_tree_insert_rebalance: the uncle is black. */
    method InsertRotate(self0: Ptr, father0: Ptr, grandpa: Ptr, which: Dir,
                        ghost s: seq<Ptr>, ghost ids: set<Ptr>, ghost c0: Ctx, ghost t0: Tree, ghost n: int)
      returns (ghost t': Tree)
      requires Clashing(heap, heap, ids, s, c0, t0, n) && t0.x == self0 && c0.Down? && c0.x == father0
      requires c0.up.Down? && c0.up.x == grandpa && c0.up.d == which && !c0.up.red && !IsRed(c0.up.sib)
      modifies this`heap
      ensures Settled(old(heap), heap, ids, s, t')
    {
      var self, father := self0, father0;
      var other := which.Other();
      ghost var c, t := c0, t0;
      ghost var g, u := c.up.up, c.up.sib;
      SideOf(heap, c, t, other);
      if self == heap[father].Kid(other) {
        ghost var ft := Mk(other, t, father, true, c.sib);
        Move(heap, c.up, other, t, father, true, c.sib);
        ReparentNodes(father, other, c.up, ft);
        InnerStep(old(heap), heap, ids, s, c, t, n);
        c, t := Down(c.up, which, t.x, true, Kid(t, other)), Mk(other, Kid(t, which), father, true, c.sib);
        self := father;
        father := heap[self].father;
      }
      ghost var gt := Mk(which, Mk(which, t, father, true, c.sib), grandpa, false, u);
      Move(heap, c.up, which, t, father, true, c.sib);
      Move(heap, g, which, Mk(which, t, father, true, c.sib), grandpa, false, u);
      ghost var h := heap;
      ReparentNodes(grandpa, which, g, gt);
      OuterStep(old(heap), h, heap, ids, s, c, t, n);
      t' := Plug(g, Rotate(gt, which));
      RootMark(heap, t');
      heap := Mark(heap, heap[HEAD].left, false);
    }

    /** rb_tree_removal_rebalance */
    method RemovalRebalance(parent0: Ptr, which0: Dir, ghost ids: set<Ptr>, ghost s: seq<Ptr>,
                            ghost c0: Ctx, ghost t0: Tree, ghost n0: int)
      returns (ghost t': Tree)
      requires Shorting(heap, heap, ids, s, c0, t0, n0) && c0.Down? && c0.x == parent0 && c0.d == which0
      modifies this`heap
      ensures Settled(old(heap), heap, ids, s, t')
    {
      hide At, Uq;
      var parent, which := parent0, which0;
      ghost var c, t, n := c0, t0, n0;
      ShortView(heap, c, t, n);
      while !Red(heap, heap[parent].Kid(which))
        invariant Shorting(old(heap), heap, ids, s, c, t, n) && c.Down? && c.x == parent && c.d == which
        invariant parent in heap && heap[parent].Kid(which) == Root(t) && (Root(t) == NULL || Root(t) in heap)
        decreases c
      {
        ShortView(heap, c, t, n);
        var other := which.Other();
        var brother := heap[parent].Kid(other);
        if !Red(heap, parent) && !Red(heap, heap[brother].left) && !Red(heap, heap[brother].right) {
          if Red(heap, brother) {
            ghost var u, h := Mk(which, t, parent, false, c.sib), heap;
            Move(heap, c.up, which, t, parent, false, c.sib);
            ReparentNodes(parent, other, c.up, u);
            RedBrotherStep(old(heap), h, heap, ids, s, c, t, n);
            c := Down(Down(c.up, which, c.sib.x, false, Kid(c.sib, other)), which, parent, true, Kid(c.sib, which));
            ShortView(heap, c, t, n);
            brother := heap[parent].Kid(other);
          } else {
            AllBlackStep(old(heap), heap, ids, s, c, t, n);
            heap := Mark(heap, brother, true);
            t := Mk(which, t, parent, false, c.sib.(red := true));
            if heap[HEAD].left == parent {
              return t;
            }
            which := heap[parent].pos;
            parent := heap[parent].father;
            c, n := c.up, n + 1;
            ShortView(heap, c, t, n);
            continue;
          }
        }
        ghost var h := heap;
        t' := RemovalFinish(parent, which, brother, ids, s, c, t, n);
        SettledTrans(old(heap), h, heap, ids, s, t');
        return;
      }
      ShortView(heap, c, t, n);
      assert false;
    }

    /** Cases 2b, 3 and 4 of rb_tree_removal_rebalance, which end the loop. */
    method RemovalFinish(parent: Ptr, which: Dir, brother0: Ptr, ghost ids: set<Ptr>, ghost s: seq<Ptr>,
                         ghost c0: Ctx, ghost t: Tree, ghost n: int)
      returns (ghost t': Tree)
      requires Shorting(heap, heap, ids, s, c0, t, n) && c0.Down? && c0.x == parent && c0.d == which
      requires c0.sib.Node? && c0.sib.x == brother0 && !IsRed(c0.sib) && (c0.red || !BlackKids(c0.sib))
      modifies this`heap
      ensures Settled(old(heap), heap, ids, s, t')
    {
      ShortView(heap, c0, t, n);
      ghost var c := c0;
      var other := which.Other();
      var brother := brother0;
      if Red(heap, parent) && !Red(heap, brother)
         && !Red(heap, heap[brother].left) && !Red(heap, heap[brother].right) {
        t' := RedFatherStep(heap, heap, ids, s, c, t, n);
        heap := Mark(heap, parent, false);
        heap := Mark(heap, brother, true);
      } else {
        if !Red(heap, heap[brother].Kid(other)) {
          SwapView(heap, c, t);
          ReparentNodes(brother, which, Down(c.up, other, parent, c.red, t), c.sib);
          InnerNephewStep(old(heap), old(heap), heap, ids, s, c, t, n);
          c := Down(c.up, which, parent, c.red, Rotate(c.sib, which));
          ShortView(heap, c, t, n);
          brother := heap[parent].Kid(other);
        }
        OuterNephewMark(old(heap), heap, ids, c, t);
        heap := Mark(heap, heap[brother].Kid(other), false);
        ghost var b' := Mk(other, Kid(c.sib, other).(red := false), c.sib.x, false, Kid(c.sib, which));
        ghost var u, h := Mk(which, t, parent, c.red, b'), heap;
        ReparentNodes(parent, other, c.up, u);
        OuterNephewStep(old(heap), h, heap, ids, s, c, t, b', n);
        t' := Plug(c.up, Rotate(u, other));
      }
    }

    /** The stores of rb_tree_prune_node. */
    method PruneStores(self: Ptr, ghost c: Ctx, ghost t: Tree) returns (father: Ptr, which: Dir)
      requires NULL !in heap && L in minmax && R in minmax && At(heap, c, t)
      requires t.Node? && t == Node(Leaf, self, t.red, Leaf)
      modifies this`heap, this`minmax
      ensures father == Father(c) && which == Position(c)
      ensures At(heap, c, Leaf) && Within(old(heap), heap, Ids(Plug(c, t)))
      ensures var m1 := if old(minmax)[Position(c)] == self then old(minmax)[Position(c) := Father(c)] else old(minmax);
              minmax == if old(minmax)[Position(c)] == self && c.Top? then m1[R := Father(c)] else m1
    {
      NodeView(heap, c, t);
      PruneRecords(heap, c, t);
      which := heap[self].pos;
      father := heap[self].father;
      var wasRoot := heap[HEAD].left == self;
      heap := SetKid(heap, father, which, heap[self].left);
      if minmax[heap[self].pos] == self {
        minmax := minmax[heap[self].pos := father];
        if wasRoot {
          minmax := minmax[R := father];
        }
      }
      heap := SetFather(heap, self, NULL);
    }

    /** rb_tree_prune_node */
    method PruneNode(self: Ptr, rebalance: bool, ghost c: Ctx, ghost t: Tree, ghost n: int)
      requires Valid() && At(heap, c, t) && Plug(c, t) == shape && Good(c, t, n)
      requires t.Node? && t == Node(Leaf, self, t.red, Leaf)
      requires rebalance <==> !t.red && c.Down?
      modifies this`heap, this`minmax, this`shape
      ensures Valid() && Nodes() == Pre(c) + Post(c)
      ensures Within(old(heap), heap, Ids(old(shape)))
    {
      hide Uq, Sorted, At;
      RemovalSorted(cmp, c, t, L);
      NoHeir(Pre(c), self, Post(c));
      PruneMinMax(cmp, minmax, c, self);
      var father, which := PruneStores(self, c, t);
      ghost var h := heap;
      Unlinked(old(heap), heap, c, t, L, n);
      ghost var t' := Plug(c, Leaf);
      if rebalance {
        t' := RemovalRebalance(father, which, IdsC(c), Pre(c) + Post(c), c, Leaf, 0);
      }
      WithinMore(old(heap), h, heap, Ids(shape), IdsC(c));
      shape := t';
    }

    /** The stores of rb_tree_prune_blackred_branch. */
    method BlackRedStores(self: Ptr, which: Dir, ghost c: Ctx, ghost t: Tree)
      requires NULL !in heap && L in minmax && R in minmax && At(heap, c, t)
      requires t.Node? && t.x == self && !t.red && Kid(t, which).Node? && Kid(t, which.Other()).Leaf?
      modifies this`heap, this`minmax
      ensures At(heap, c, Heir(t, which)) && Within(old(heap), heap, Ids(Plug(c, t)))
      ensures var y, m := Kid(t, which).x, old(minmax);
              minmax == if c.Top? then m[which.Other() := y] else if m[Position(c)] == self then m[Position(c) := y] else m
    {
      NodeView(heap, c, t);
      var father := heap[self].father;
      var son := heap[self].Kid(which);
      var wasRoot := heap[HEAD].left == self;
      heap := CopyProperties(heap, son, self);
      ghost var h1 := heap;
      heap := SetKid(heap, father, heap[son].pos, son);
      heap := SetFather(heap, son, father);
      if wasRoot {
        minmax := minmax[which.Other() := son];
      } else if minmax[heap[self].pos] == self {
        minmax := minmax[heap[self].pos := son];
      }
      heap := SetFather(heap, self, NULL);
      BlackRedRecords(old(heap), h1, heap, c, t, which);
    }

    /** rb_tree_prune_blackred_branch */
    method PruneBlackRed(self: Ptr, which: Dir, ghost c: Ctx, ghost t: Tree, ghost n: int)
      requires Valid() && At(heap, c, t) && Plug(c, t) == shape && Good(c, t, n)
      requires t.Node? && t.x == self && Kid(t, which).Node? && Kid(t, which.Other()).Leaf?
      modifies this`heap, this`minmax, this`shape
      ensures Valid() && Nodes() == Pre(c) + [Kid(t, which).x] + Post(c)
      ensures Within(old(heap), heap, Ids(old(shape)))
    {
      hide Uq, Sorted, At;
      OneChild(c, t, n, which);
      BlackRedIn(cmp, minmax, c, t, which);
      ghost var son := Kid(t, which).x;
      BlackRedStores(self, which, c, t);
      Unlinked(old(heap), heap, c, t, which, n);
      WithinMore(old(heap), heap, heap, Ids(shape), IdsC(c) + {son});
      shape := Plug(c, Heir(t, which));
    }

    /** The stand-in adopts the child of `self` in direction `o` and takes the place of `self`. */
    method TakePlace(self: Ptr, standin: Ptr, o: Dir)
      requires self in heap && standin in heap && heap[self].Kid(o) in heap && heap[self].father in heap
      requires var k, g := heap[self].Kid(o), heap[self].father;
               self != standin && self != k && self != g && standin != k && standin != g && k != g
      modifies this`heap
      ensures Placed(old(heap), heap, self, standin, old(heap[self].Kid(o)), old(heap[self].father), o)
    {
      ghost var h, k, g := heap, heap[self].Kid(o), heap[self].father;
      heap := SetKid(heap, standin, o, heap[self].Kid(o));
      ghost var h1 := heap;
      heap := SetFather(heap, heap[standin].Kid(o), standin);
      ghost var h2 := heap;
      heap := CopyProperties(heap, standin, self);
      ghost var h3 := heap;
      heap := SetFather(heap, standin, heap[self].father);
      ghost var h4 := heap;
      heap := SetKid(heap, heap[standin].father, heap[standin].pos, standin);
      PlaceRecords(h, h1, h2, h3, h4, heap, self, standin, k, g, o);
    }

    /** rb_tree_swap_prune_and_rebalance */
    method SwapPruneAndRebalance(self: Ptr, standin: Ptr, ghost c: Ctx, ghost base: Ctx, ghost t: Tree, ghost n: int)
      returns (ghost a: seq<Ptr>, ghost b: seq<Ptr>)
      requires Valid() && At(heap, c, t) && Plug(c, t) == shape && StandIn(c, base, t, n)
      requires t.x == standin && base.x == self
      modifies this`heap, this`minmax, this`shape
      ensures Valid() && old(Nodes()) == a + [self] + b && Nodes() == a + b
      ensures Within(old(heap), heap, Ids(old(shape)))
    {
      hide Ids, IdsC;
      hide Rep, RepC, Uq, UqC, At, In, Pre, Post;
      a, b := SwappedIn(cmp, minmax, c, base, t, n);
      ExchangeGone(heap, c, base, t, n);
      ExchangeView(heap, c, base, t, n);
      ExchangeIds(c, base, t);
      var rebalance, father, which := SwapStores(self, standin, c, base, t, n);
      var position := heap[self].pos;
      assert position == L || position == R;
      if minmax[position] == self {
        // a node with two children is not extreme
        assert false;
      }
      ghost var h := heap;
      heap := SetFather(heap, self, NULL);
      Forget(h, base.up, Exchanged(c, base, t), self);
      Swapped(heap, c, base, t, n);
      ghost var e, k := Subst(c, base, standin), Heir(t, base.d);
      ghost var t' := Plug(e, k);
      h := heap;
      if rebalance {
        t' := RemovalRebalance(father, which, IdsC(e) + Ids(k), a + b, e, k, 0);
      }
      WithinMore(old(heap), h, heap, Ids(shape), IdsC(e) + Ids(k));
      shape := t';
    }

    /** The stores of rb_tree_swap_prune_and_rebalance: the stand-in takes the place of `self`. */
    method SwapStores(self: Ptr, standin: Ptr, ghost c: Ctx, ghost base: Ctx, ghost t: Tree, ghost n: int)
      returns (rebalance: bool, father: Ptr, which: Dir)
      requires NULL !in heap && At(heap, c, t) && StandIn(c, base, t, n) && t.x == standin && base.x == self
      modifies this`heap
      ensures At(heap, base.up, Exchanged(c, base, t)) && Within(old(heap), heap, Ids(Plug(c, t)))
      ensures rebalance <==> Heir(t, base.d).Leaf? && !t.red
      ensures Subst(c, base, standin).Down? && father == Subst(c, base, standin).x && which == Subst(c, base, standin).d
    {
      StandInView(heap, c, base, t, n);
      NodeView(heap, c, t);
      which := heap[standin].pos;
      father := heap[standin].father;
      if father == self {
        rebalance := SwapNear(self, standin, which, base, t, n);
        father := standin;
      } else {
        rebalance := SwapFar(self, standin, which, father, c, base, t, n);
      }
    }

    /** The stand-in is a child of `self`. */
    method SwapNear(self: Ptr, standin: Ptr, which: Dir, ghost base: Ctx, ghost t: Tree, ghost n: int)
      returns (rebalance: bool)
      requires NULL !in heap && At(heap, base, t) && StandIn(base, base, t, n) && t.x == standin && base.x == self
      requires which == base.d
      modifies this`heap
      ensures At(heap, base.up, Exchanged(base, base, t)) && Within(old(heap), heap, Ids(Plug(base, t)))
      ensures rebalance <==> Heir(t, base.d).Leaf? && !t.red
    {
      ExchangeView(heap, base, base, t, n);
      ExchangeIds(base, base, t);
      NodeView(heap, base, t);
      OneChild(base, t, n, which);
      NearPaint(heap, base, t, n);
      ghost var ids := Ids(Plug(base, t));
      var son := heap[standin].Kid(which);
      rebalance := !Red(heap, standin);
      if Red(heap, son) {
        MarkWithin(heap, son, false, ids);
        heap := Mark(heap, son, false);
        rebalance := false;
      }
      ghost var h := heap;
      TakePlace(self, standin, which.Other());
      NearPlaced(h, heap, base, t);
      PlacedWithin(h, heap, self, standin, base.sib.x, Father(base.up), which.Other(), ids);
      WithinTrans(old(heap), h, heap, ids);
    }

    /** The stand-in is further down, below `father`. */
    method SwapFar(self: Ptr, standin: Ptr, which: Dir, father: Ptr,
                   ghost c: Ctx, ghost base: Ctx, ghost t: Tree, ghost n: int)
      returns (rebalance: bool)
      requires NULL !in heap && At(heap, c, t) && StandIn(c, base, t, n) && t.x == standin && base.x == self
      requires c != base && c.x == father && which == c.d && which == base.d.Other()
      modifies this`heap
      ensures At(heap, base.up, Exchanged(c, base, t)) && Within(old(heap), heap, Ids(Plug(c, t)))
      ensures rebalance <==> Heir(t, base.d).Leaf? && !t.red
    {
      ExchangeIds(c, base, t);
      ExchangeGone(heap, c, base, t, n);
      ghost var ids := Ids(Plug(c, t));
      rebalance := FarSever(standin, which, father, c, base, t, n);
      ghost var h, w := heap, PlugTo(c, base, Heir(t, base.d));
      TwoChildView(h, base.up, base.d, w, self, base.red, base.sib);
      var other := which.Other();
      heap := SetKid(heap, standin, other, heap[self].Kid(other));
      heap := SetFather(heap, heap[standin].Kid(other), standin);
      ghost var h1 := heap;
      TakePlace(self, standin, which);
      FarPlaced(h, h1, heap, base, w, standin);
      PlacedWithin(h1, heap, self, standin, base.sib.x, Father(base.up), which, ids);
      AdoptWithin(h, standin, other, w.x, ids);
      WithinTrans(old(heap), h, h1, ids);
      WithinTrans(old(heap), h1, heap, ids);
    }

    /** The son of the stand-in, painted black, moves into its place. */
    method FarSever(standin: Ptr, which: Dir, father: Ptr, ghost c: Ctx, ghost base: Ctx, ghost t: Tree, ghost n: int)
      returns (rebalance: bool)
      requires NULL !in heap && At(heap, c, t) && StandIn(c, base, t, n) && t.x == standin
      requires c != base && c.x == father && which == c.d && which == base.d.Other()
      modifies this`heap
      ensures var w := PlugTo(c, base, Heir(t, base.d));
              w.Node? && At(heap, base.up, Mk(base.d, w, base.x, base.red, base.sib)) && w.x == Root(PlugTo(c, base, t))
      ensures Within(old(heap), heap, Ids(Plug(c, t)))
      ensures standin in heap && standin != HEAD && standin != Father(base.up) && standin != base.sib.x && standin != base.x
      ensures rebalance <==> Heir(t, base.d).Leaf? && !t.red
    {
      hide Mk, Ids, Rep;
      ExchangeView(heap, c, base, t, n);
      ExchangeIds(c, base, t);
      NodeView(heap, c, t);
      OneChild(c, t, n, base.d);
      var other := which.Other();
      var son := heap[standin].Kid(other);
      rebalance := !Red(heap, standin);
      if Red(heap, son) {
        heap := Mark(heap, son, false);
        rebalance := false;
        heap := SetFather(heap, son, father);
        heap := SetPosition(heap, son, which);
      }
      heap := SetKid(heap, father, which, son);
      FarDetach(old(heap), heap, c, base, t, n);
    }

    /** rb_tree_find_node */
    method Find(key: KeyComparator) returns (r: Ptr, ghost i: nat)
      requires Valid() && KeyOrdered(key, Nodes())
      ensures Hit(key, Nodes(), r) || (Gap(key, Nodes(), i) && i <= |Nodes()| && r == NULL)
    {
      ghost var c, t := Top, shape;
      var parent := heap[HEAD].left;
      r := NULL;
      i := 0;
      while parent != NULL
        invariant At(heap, c, t) && Plug(c, t) == shape && parent == Root(t)
        invariant KeyHere(key, c)
        decreases t
      {
        DescendView(heap, c, t);
        KeyDescend(key, c, t);
        var diff := key(parent);
        if diff == 0 {
          return parent, i;
        }
        var d := if diff < 0 then R else L;
        parent := heap[parent].Kid(d);
        c, t := Descend(c, t, d), Kid(t, d);
      }
      KeyGap(key, c);
      i := |Pre(c)|;
    }

    /** rb_tree_find_node_geq: a node equal to the key, or the least one above it. */
    method FindGeq(key: KeyComparator) returns (r: Ptr, ghost i: nat)
      requires Valid() && KeyOrdered(key, Nodes())
      ensures Hit(key, Nodes(), r) || (Gap(key, Nodes(), i) && i <= |Nodes()| && r == if i < |Nodes()| then Nodes()[i] else NULL)
    {
      ghost var c, t := Top, shape;
      var parent := heap[HEAD].left;
      r := NULL;
      i := 0;
      while parent != NULL
        invariant At(heap, c, t) && Plug(c, t) == shape && parent == Root(t)
        invariant KeyHere(key, c) && r == First(Post(c))
        decreases t
      {
        DescendView(heap, c, t);
        KeyDescend(key, c, t);
        var diff := key(parent);
        if diff == 0 {
          return parent, i;
        }
        if diff > 0 {
          r := parent;
        }
        var d := if diff < 0 then R else L;
        parent := heap[parent].Kid(d);
        c, t := Descend(c, t, d), Kid(t, d);
      }
      KeyGap(key, c);
      i := |Pre(c)|;
    }

    /** rb_tree_find_node_leq: a node equal to the key, or the greatest one below it. */
    method FindLeq(key: KeyComparator) returns (r: Ptr, ghost i: nat)
      requires Valid() && KeyOrdered(key, Nodes())
      ensures Hit(key, Nodes(), r) || (Gap(key, Nodes(), i) && i <= |Nodes()| && r == if i > 0 then Nodes()[i - 1] else NULL)
    {
      ghost var c, t := Top, shape;
      var parent := heap[HEAD].left;
      r := NULL;
      i := 0;
      while parent != NULL
        invariant At(heap, c, t) && Plug(c, t) == shape && parent == Root(t)
        invariant KeyHere(key, c) && r == Last(Pre(c))
        decreases t
      {
        DescendView(heap, c, t);
        KeyDescend(key, c, t);
        var diff := key(parent);
        if diff == 0 {
          return parent, i;
        }
        if diff < 0 {
          r := parent;
        }
        var d := if diff < 0 then R else L;
        parent := heap[parent].Kid(d);
        c, t := Descend(c, t, d), Kid(t, d);
      }
      KeyGap(key, c);
      i := |Pre(c)|;
    }

    /** rb_tree_iterate: the next node in a direction, or the extreme node on that side. */
    method Iterate(item: Ptr, direction: Dir, ghost k: nat) returns (r: Ptr)
      requires Valid() && (item != NULL ==> k < |Nodes()| && item == Nodes()[k])
      ensures item != NULL ==> r == Neighbour(Nodes(), k, direction)
      ensures item == NULL && Nodes() == [] ==> r == NULL
      ensures item == NULL && Nodes() != [] ==> r == if direction.L? then Nodes()[0] else Nodes()[|Nodes()| - 1]
    {
      hide Pre, Post;
      if item == NULL {
        if heap[HEAD].left == NULL {
          return NULL;
        }
        assert direction == L || direction == R;
        return minmax[direction];
      }
      InIds(shape, item);
      ghost var c, t := Locate(Top, shape, item);
      MoveTop(heap, c, t);
      NodeView(heap, c, t);
      Place(c, t);
      SortedDistinct(cmp, Nodes(), k, |Pre(c)| + |In(t.left)|);
      if heap[item].Kid(direction) == NULL {
        r := StepUp(item, direction, Nodes(), k, c, t);
      } else {
        ghost var c', t';
        r, c', t' := StepDown(item, direction, c, t);
        DownNeighbour(c, t, direction, c', t');
      }
    }

    /** The ascending loop of rb_tree_iterate. */
    method StepUp(item: Ptr, direction: Dir, ghost s: seq<Ptr>, ghost k: nat, ghost c0: Ctx, ghost t0: Tree)
      returns (r: Ptr)
      requires At(heap, c0, t0) && In(Plug(c0, t0)) == s && t0.Node? && t0.x == item && Kid(t0, direction).Leaf?
      requires k == |Pre(c0)| + |In(t0.left)| && k < |s|
      ensures r == Neighbour(s, k, direction)
    {
      var self := item;
      var other := direction.Other();
      ghost var c, t := c0, t0;
      UpStart(c, t, direction);
      RootIsTop(heap, c, t);
      while heap[HEAD].left != self
        invariant At(heap, c, t) && t.Node? && t.x == self && self in heap && HEAD in heap
        invariant heap[HEAD].left == self <==> c.Top?
        invariant Beyond(c, s, k, direction)
        decreases c
      {
        RootIsTop(heap, c, t);
        UpEnd(c, s, k, direction);
        if other == heap[self].pos {
          return heap[self].father;
        }
        Move(heap, c.up, c.d, t, c.x, c.red, c.sib);
        self := heap[self].father;
        t, c := Mk(c.d, t, c.x, c.red, c.sib), c.up;
        RootIsTop(heap, c, t);
      }
      UpEnd(c, s, k, direction);
      r := NULL;
    }

    /** The descending loop of rb_tree_iterate. */
    method StepDown(item: Ptr, direction: Dir, ghost c: Ctx, ghost t: Tree) returns (r: Ptr, ghost c': Ctx, ghost t': Tree)
      requires HEAD in heap && NULL !in heap
      requires At(heap, c, t) && t.Node? && t.x == item && Kid(t, direction).Node?
      ensures At(heap, c', t') && t'.Node? && t'.x == r && Kid(t', direction.Other()).Leaf?
      ensures Plug(c', t') == Plug(c, t) && Spine(c', Descend(c, t, direction), direction.Other())
    {
      DescendView(heap, c, t);
      var other := direction.Other();
      r := heap[item].Kid(direction);
      c', t' := Descend(c, t, direction), Kid(t, direction);
      NodeView(heap, c', t');
      while heap[r].Kid(other) != NULL
        invariant At(heap, c', t') && t'.Node? && t'.x == r && r in heap
        invariant heap[r].Kid(other) == Root(Kid(t', other))
        invariant Plug(c', t') == Plug(c, t) && Spine(c', Descend(c, t, direction), other)
        decreases t'
      {
        DescendView(heap, c', t');
        r := heap[r].Kid(other);
        c', t' := Descend(c', t', other), Kid(t', other);
        NodeView(heap, c', t');
      }
      NodeView(heap, c', t');
      if Kid(t', other).Node? {
        assert false;
      }
    }

    /** rb_tree_remove_node: the tree without the node, still red-black, sorted and with exact extreme nodes. */
    method Remove(self: Ptr) returns (ghost i: nat)
      requires Valid() && self in Nodes()
      modifies this`heap, this`minmax, this`shape
      ensures Valid()
      ensures i < |old(Nodes())| && old(Nodes())[i] == self && Nodes() == old(Nodes())[..i] + old(Nodes())[i + 1..]
      ensures Within(old(heap), heap, Ids(old(shape)))
    {
      hide Sorted, Ordered;
      hide Rep, RepC, Uq, UqC, At, In, Pre, Post;
      InIds(shape, self);
      ghost var c, t := Locate(Top, shape, self);
      MoveTop(heap, c, t);
      NodeView(heap, c, t);
      ghost var n := GoodUnplug(c, t);
      if heap[self].left == NULL && heap[self].right == NULL {
        var rebalance := !Red(heap, self) && heap[HEAD].left != self;
        i := PrunedAt(c, t, L);
        PruneNode(self, rebalance, c, t, n);
        return;
      }
      if heap[self].left == NULL || heap[self].right == NULL {
        var which := if heap[self].left == NULL then R else L;
        OneChild(c, t, n, which);
        i := PrunedAt(c, t, which);
        PruneBlackRed(self, which, c, t, n);
        return;
      }
      var which := heap[self].pos.Other();
      var standin, c', t' := StepDown(self, which, c, t);
      ghost var n' := GoodUnplug(c', t');
      ghost var a, b := SwapPruneAndRebalance(self, standin, c', Descend(c, t, which), t', n');
      i := |a|;
      CutAt(a, self, b);
    }
  }
}
