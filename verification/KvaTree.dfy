/**
  The comparisons that libnux/kva.c gives to the red-black tree, and why the tree serves the zone as
  a set of ranges that can be searched by address.
 */
module KvaTree {
  import opened RbShape
  import opened RbHeap
  import opened RbOrder
  import opened Rb
  import opened RbInsertion
  import Zone

  /** vmap_compare_nodes, after its asserts. */
  function CompareNodes(a: Zone.Range, b: Zone.Range): int {
    if a.addr < b.addr then -1 else if a.addr > b.addr then 1 else 0
  }

  /** vmap_compare_key */
  function CompareKey(r: Zone.Range, va: nat): int {
    if va < r.addr then 1 else if va > r.addr + (r.size - 1) then -1 else 0
  }

  /** The range of each tree node. */
  type Ranges = Ptr -> Zone.Range

  function NodeOrder(ranges: Ranges): Comparator {
    (p: Ptr, q: Ptr) => CompareNodes(ranges(p), ranges(q))
  }

  function KeyOrder(ranges: Ranges, va: nat): KeyComparator {
    (p: Ptr) => CompareKey(ranges(p), va)
  }

  ghost function Held(ranges: Ranges, nodes: seq<Ptr>): set<Zone.Range> {
    set p | p in nodes :: ranges(p)
  }

  /** The comparison of nodes meets the laws of the tree. */
  lemma {:induction false} NodesOrdered(ranges: Ranges)
    ensures Ordered(NodeOrder(ranges))
  {
    var cmp := NodeOrder(ranges);
    forall a: Ptr, b: Ptr, c: Ptr
      ensures Lawful(cmp, a, b, c)
    {
      assert cmp(a, b) == CompareNodes(ranges(a), ranges(b)) && cmp(b, a) == CompareNodes(ranges(b), ranges(a));
      assert cmp(b, c) == CompareNodes(ranges(b), ranges(c)) && cmp(a, c) == CompareNodes(ranges(a), ranges(c));
    }
  }

  /** On ranges that do not touch, the comparison with an address grows along the nodes. */
  lemma {:induction false} KeysOrdered(ranges: Ranges, nodes: seq<Ptr>, va: nat)
    requires Sorted(NodeOrder(ranges), nodes) && Zone.AllApart(Held(ranges, nodes))
    ensures KeyOrdered(KeyOrder(ranges, va), nodes)
  {
    forall i, j | 0 <= i < j < |nodes|
      ensures Zone.End(ranges(nodes[i])) < ranges(nodes[j]).addr
    {
      var a, b := ranges(nodes[i]), ranges(nodes[j]);
      assert NodeOrder(ranges)(nodes[i], nodes[j]) < 0;
      assert a in Held(ranges, nodes) && b in Held(ranges, nodes);
      assert Zone.Apart(a, b);
    }
  }

  /** A search by address finds the range that holds it, and nothing when no range does. */
  lemma {:induction false} FindsRange(ranges: Ranges, nodes: seq<Ptr>, va: nat, r: Ptr, i: nat)
    requires Zone.AllApart(Held(ranges, nodes))
    ensures Hit(KeyOrder(ranges, va), nodes, r) ==> Zone.Finds(Held(ranges, nodes), va, Zone.Entry(ranges(r)))
    ensures i <= |nodes| && Gap(KeyOrder(ranges, va), nodes, i) ==> Zone.Finds(Held(ranges, nodes), va, Zone.Nothing)
  {
    if i <= |nodes| && Gap(KeyOrder(ranges, va), nodes, i) {
      GapMeansNone(KeyOrder(ranges, va), nodes, i);
    }
  }

  /** Along the nodes the ranges lie in ascending order, with gaps between them. */
  lemma {:induction false} Ascending(ranges: Ranges, nodes: seq<Ptr>, i: nat, j: nat)
    requires Sorted(NodeOrder(ranges), nodes) && Zone.AllApart(Held(ranges, nodes)) && i < j < |nodes|
    ensures Zone.End(ranges(nodes[i])) < ranges(nodes[j]).addr
  {
    assert nodes[i] in nodes && nodes[j] in nodes;
    assert NodeOrder(ranges)(nodes[i], nodes[j]) < 0;
    assert ranges(nodes[i]) in Held(ranges, nodes) && ranges(nodes[j]) in Held(ranges, nodes);
  }

  /** A node whose range touches no other satisfies the asserts against every node, and has no equal in the tree. */
  lemma {:induction false} InsertAsserts(ranges: Ranges, nodes: seq<Ptr>, p: Ptr, q: Ptr)
    requires q in nodes && ranges(p) !in Held(ranges, nodes) && Zone.AllApart(Held(ranges, nodes) + {ranges(p)})
    ensures var a, b := ranges(q), ranges(p);
            && (a.addr < b.addr || a.addr > b.addr + b.size)
            && (b.addr < a.addr || b.addr > a.addr + a.size)
            && NodeOrder(ranges)(q, p) != 0
  {
    assert ranges(q) in Held(ranges, nodes);
    assert Zone.Apart(ranges(q), ranges(p));
  }

  // ----- how the set of ranges changes -----

  function WithRange(ranges: Ranges, p: Ptr, r: Zone.Range): Ranges {
    (q: Ptr) => if q == p then r else ranges(q)
  }

  /** The contents of a node that is not in the tree do not matter to its order. */
  lemma {:induction false} SortedSame(ranges: Ranges, p: Ptr, r: Zone.Range, nodes: seq<Ptr>)
    requires Sorted(NodeOrder(ranges), nodes) && p !in nodes
    ensures Sorted(NodeOrder(WithRange(ranges, p, r)), nodes)
    ensures Held(WithRange(ranges, p, r), nodes) == Held(ranges, nodes)
  {
    var changed := WithRange(ranges, p, r);
    forall i, j | 0 <= i < j < |nodes|
      ensures NodeOrder(changed)(nodes[i], nodes[j]) < 0
    {
      assert nodes[i] in nodes && nodes[j] in nodes;
      assert NodeOrder(ranges)(nodes[i], nodes[j]) < 0;
    }
    assert forall q :: q in nodes ==> changed(q) == ranges(q);
  }

  lemma {:induction false} HeldInsert(ranges: Ranges, nodes: seq<Ptr>, i: nat, p: Ptr)
    requires i <= |nodes|
    ensures Held(ranges, nodes[..i] + [p] + nodes[i..]) == Held(ranges, nodes) + {ranges(p)}
    ensures forall q :: q in nodes[..i] + [p] + nodes[i..] <==> q in nodes || q == p
  {
    Elements(nodes, i, p);
  }

  lemma {:induction false} Elements(nodes: seq<Ptr>, i: nat, p: Ptr)
    requires i <= |nodes|
    ensures forall q :: q in nodes[..i] + [p] + nodes[i..] <==> q in nodes || q == p
  {
    assert nodes == nodes[..i] + nodes[i..];
  }

  /** What is left without element `i` is at some other position. */
  lemma {:induction false} Elsewhere(nodes: seq<Ptr>, i: nat, q: Ptr) returns (j: nat)
    requires i < |nodes| && q in nodes[..i] + nodes[i + 1..]
    ensures j < |nodes| && j != i && nodes[j] == q
  {
    var rest := nodes[..i] + nodes[i + 1..];
    var k :| 0 <= k < |rest| && rest[k] == q;
    j := if k < i then k else k + 1;
  }

  lemma {:induction false} StillThere(nodes: seq<Ptr>, i: nat, j: nat)
    requires i < |nodes| && j < |nodes| && i != j
    ensures nodes[j] in nodes[..i] + nodes[i + 1..]
  {
    if j < i {
      assert nodes[j] in nodes[..i];
    } else {
      assert nodes[j] == nodes[i + 1..][j - i - 1];
    }
  }

  lemma {:induction false} RangesDiffer(ranges: Ranges, nodes: seq<Ptr>, i: nat, j: nat)
    requires Sorted(NodeOrder(ranges), nodes) && i < |nodes| && j < |nodes| && i != j
    ensures ranges(nodes[i]) != ranges(nodes[j])
  {
    if i < j {
      assert NodeOrder(ranges)(nodes[i], nodes[j]) < 0;
    } else {
      assert NodeOrder(ranges)(nodes[j], nodes[i]) < 0;
    }
  }

  lemma {:induction false} HeldRemove(ranges: Ranges, nodes: seq<Ptr>, i: nat)
    requires i < |nodes| && Sorted(NodeOrder(ranges), nodes)
    ensures Held(ranges, nodes[..i] + nodes[i + 1..]) == Held(ranges, nodes) - {ranges(nodes[i])}
    ensures forall q :: q in nodes[..i] + nodes[i + 1..] ==> q in nodes
  {
    var rest := nodes[..i] + nodes[i + 1..];
    forall q | q in rest
      ensures q in nodes && ranges(q) != ranges(nodes[i])
    {
      var j := Elsewhere(nodes, i, q);
      RangesDiffer(ranges, nodes, i, j);
    }
    forall q | q in nodes
      ensures q in rest || q == nodes[i]
    {
      var j :| 0 <= j < |nodes| && nodes[j] == q;
      if j != i {
        StillThere(nodes, i, j);
      }
    }
    SetsAgree(ranges, nodes, rest, nodes[i]);
  }

  lemma {:induction false} SetsAgree(ranges: Ranges, nodes: seq<Ptr>, rest: seq<Ptr>, x: Ptr)
    requires forall q :: q in rest ==> q in nodes && ranges(q) != ranges(x)
    requires forall q :: q in nodes ==> q in rest || q == x
    ensures Held(ranges, rest) == Held(ranges, nodes) - {ranges(x)}
  {
  }

  /** A new record in memory does not touch the tree. */
  lemma {:induction false} AtGrows(h: Heap, t: Tree, p: Ptr, rec: Rec)
    requires At(h, Top, t) && p !in h
    ensures At(h[p := rec], Top, t)
  {
    RepIds(h, t, HEAD, L);
    FrameT(h, h[p := rec], t, HEAD, L);
  }

  // ----- the tree of free ranges -----

  /** vmap_rbtree with the contents of its nodes. */
  class Vmap {
    const tree: RbTree
    var ranges: Ranges
    /** kmem_alloc gives nodes that were never used. */
    var next: Ptr

    ghost function Set(): set<Zone.Range>
      reads this, tree
    {
      Held(ranges, tree.Nodes())
    }

    ghost predicate Valid()
      reads this, tree
    {
      && tree.Valid() && tree.cmp == NodeOrder(ranges) && Zone.AllApart(Set())
      && next > HEAD && (forall p :: p in tree.heap ==> p < next) && forall p :: p in tree.Nodes() ==> p < next
    }

    constructor ()
      ensures Valid() && fresh(tree) && Set() == {}
    {
      var none: Ranges := (q: Ptr) => Zone.Range(0, 0);
      NodesOrdered(none);
      ranges, next := none, HEAD + 1;
      tree := new RbTree(NodeOrder(none), map[HEAD := Rec(NULL, NULL, NULL, L, false)]);
    }

    /** vmap_find */
    method Find(va: nat) returns (p: Ptr, f: Zone.Found)
      requires Valid()
      ensures Zone.Finds(Set(), va, f)
      ensures f == Zone.Nothing <==> p == NULL
      ensures p != NULL ==> p in tree.Nodes() && f == Zone.Entry(ranges(p))
    {
      KeysOrdered(ranges, tree.Nodes(), va);
      ghost var i;
      p, i := tree.Find(KeyOrder(ranges, va));
      FindsRange(ranges, tree.Nodes(), va, p, i);
      NotNull(tree);
      f := if p == NULL then Zone.Nothing else Zone.Entry(ranges(p));
    }

    /** vmap_insert: the asserts of the comparison hold against every node. */
    method Insert(r: Zone.Range)
      requires Valid() && r !in Set() && Zone.AllApart(Set() + {r})
      modifies this, tree
      ensures Valid() && Set() == old(Set()) + {r}
    {
      hide Sorted, At, RedBlack, MinMax, In, Ordered, RbHeap.Within, Zone.AllApart;
      var p := next;
      next := next + 1;
      ghost var nodes := tree.Nodes();
      AtGrows(tree.heap, tree.shape, p, Rec(NULL, NULL, NULL, L, false));
      SortedSame(ranges, p, r, nodes);
      tree.heap := tree.heap[p := Rec(NULL, NULL, NULL, L, false)];
      ranges := WithRange(ranges, p, r);
      NodesOrdered(ranges);
      tree.cmp := NodeOrder(ranges);
      forall q | q in nodes
        ensures tree.cmp(q, p) != 0
      {
        InsertAsserts(ranges, nodes, p, q);
      }
      label grown:
      var x, i := tree.Insert(p);
      HeldInsert(ranges, nodes, i, p);
      KeysKept(old@grown(tree.heap), tree.heap, Ids(tree.shape));
    }

    /** vmap_remove */
    method Remove(p: Ptr)
      requires Valid() && p in tree.Nodes()
      modifies this, tree
      ensures Valid() && Set() == old(Set()) - {old(ranges(p))}
    {
      hide Sorted, At, RedBlack, MinMax, In, Ordered, RbHeap.Within, Zone.AllApart;
      ghost var nodes := tree.Nodes();
      ghost var i := tree.Remove(p);
      HeldRemove(ranges, nodes, i);
      assert forall q :: q in tree.Nodes() ==> q in nodes;
      assert Set() == old(Set()) - {ranges(p)};
      KeysKept(old(tree.heap), tree.heap, Ids(old(tree.shape)));
      SmallerApart(old(Set()), Set());
    }
  }

  lemma {:induction false} KeysKept(h: Heap, h': Heap, s: set<Ptr>)
    requires RbHeap.Within(h, h', s)
    ensures h'.Keys == h.Keys && forall p :: p in h' <==> p in h
  {
  }

  lemma {:induction false} SmallerApart(a: set<Zone.Range>, b: set<Zone.Range>)
    requires Zone.AllApart(a) && b <= a
    ensures Zone.AllApart(b)
  {
  }

  lemma {:induction false} NotNull(tree: RbTree)
    requires tree.Valid()
    ensures NULL !in tree.Nodes()
  {
    RepIds(tree.heap, tree.shape, HEAD, L);
    InAll(tree.shape);
  }

  lemma {:induction false} InAll(t: Tree)
    ensures forall x :: x in In(t) ==> x in Ids(t)
    decreases t
  {
    if t.Node? {
      InAll(t.left);
      InAll(t.right);
    }
  }
}
