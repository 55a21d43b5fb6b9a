/**
  The zone allocator of libnux/alloc.h on values: free ranges, their lists by the highest bit of the
  size, the occupancy word, and how ranges are merged.
 */
module Zone {
  import opened Lists
  import opened Powers
  import opened STreeLayout

  datatype Range = Range(addr: nat, size: nat)

  function End(r: Range): nat {
    r.addr + r.size
  }

  /** What the asserts of vmap_compare_nodes demand: the ranges do not even touch. */
  predicate Apart(a: Range, b: Range) {
    End(a) < b.addr || End(b) < a.addr
  }

  ghost predicate AllApart(tree: set<Range>) {
    && (forall r :: r in tree ==> r.size > 0)
    && (forall a, b :: a in tree && b in tree && a != b ==> Apart(a, b))
  }

  // ----- addresses -----

  predicate Within(a: nat, addr: nat, size: nat) {
    addr <= a < addr + size
  }

  ghost function Block(addr: nat, size: nat): set<nat> {
    set a: nat | a < addr + size && Within(a, addr, size)
  }

  ghost function Addrs(tree: set<Range>): set<nat> {
    set r, a | r in tree && a in Block(r.addr, r.size) :: a
  }

  lemma {:induction false} AddrsAdd(tree: set<Range>, r: Range)
    ensures Addrs(tree + {r}) == Addrs(tree) + Block(r.addr, r.size)
  {
    forall a
      ensures a in Addrs(tree + {r}) <==> a in Addrs(tree) + Block(r.addr, r.size)
    {
      if a in Addrs(tree + {r}) {
        var x :| x in tree + {r} && a in Block(x.addr, x.size);
      }
      if a in Addrs(tree) {
        var x :| x in tree && a in Block(x.addr, x.size);
        assert x in tree + {r};
      }
      if a in Block(r.addr, r.size) {
        assert r in tree + {r};
      }
    }
  }

  lemma {:induction false} AddrsRemove(tree: set<Range>, r: Range)
    requires AllApart(tree) && r in tree
    ensures Addrs(tree - {r}) == Addrs(tree) - Block(r.addr, r.size)
  {
    AddrsAdd(tree - {r}, r);
    assert tree - {r} + {r} == tree;
    forall a | a in Addrs(tree - {r})
      ensures a !in Block(r.addr, r.size)
    {
      var x :| x in tree - {r} && a in Block(x.addr, x.size);
      assert Apart(x, r);
    }
  }

  // ----- sizes -----

  ghost function Sum(tree: set<Range>): nat
    decreases |tree|
  {
    if tree == {} then 0 else
      var r :| r in tree;
      r.size + Sum(tree - {r})
  }

  lemma {:induction false} SumAdd(tree: set<Range>, r: Range)
    requires r !in tree
    ensures Sum(tree + {r}) == Sum(tree) + r.size
    decreases |tree|
  {
    var all := tree + {r};
    var x :| x in all && Sum(all) == x.size + Sum(all - {x});
    if x == r {
      assert all - {r} == tree;
    } else {
      SumAdd(tree - {x}, r);
      assert all - {x} == tree - {x} + {r};
      assert tree == tree - {x} + {x};
      SumAdd(tree - {x}, x);
    }
  }

  lemma {:induction false} BlockSize(addr: nat, size: nat)
    ensures |Block(addr, size)| == size
    decreases size
  {
    if size == 0 {
      assert Block(addr, size) == {};
    } else {
      BlockSize(addr, size - 1);
      assert Block(addr, size) == Block(addr, size - 1) + {addr + size - 1};
    }
  }

  /** The sizes of the free ranges add up to the number of free addresses. */
  lemma {:induction false} SumCounts(tree: set<Range>)
    requires AllApart(tree)
    ensures |Addrs(tree)| == Sum(tree)
    decreases |tree|
  {
    if tree == {} {
      assert Addrs(tree) == {};
    } else {
      var r :| r in tree;
      SumCounts(tree - {r});
      AddrsRemove(tree, r);
      BlockSize(r.addr, r.size);
      SumAdd(tree - {r}, r);
      assert tree - {r} + {r} == tree;
      assert Block(r.addr, r.size) <= Addrs(tree);
    }
  }

  // ----- the lists -----

  /** The list a range belongs to, msbit of its size. */
  function Class(r: Range): nat {
    if r.size == 0 then 0 else HighBit(r.size)
  }

  /** List `k` holds the ranges of the tree that belong to it, each once; its bit tells if there are any. */
  ghost predicate Listed(lists: seq<seq<Range>>, bmap: set<nat>, tree: set<Range>) {
    && |lists| == 64
    && (forall k, r :: 0 <= k < 64 ==> (r in lists[k] <==> r in tree && Class(r) == k))
    && (forall k :: 0 <= k < 64 ==> NoDup(lists[k]))
    && (forall k :: k in bmap <==> 0 <= k < 64 && lists[k] != [])
  }

  lemma {:induction false} ListedRemove(lists: seq<seq<Range>>, bmap: set<nat>, tree: set<Range>, r: Range)
    requires Listed(lists, bmap, tree) && r in tree && Class(r) < 64
    ensures var k := Class(r);
            var l := Without(lists[k], r);
            Listed(lists[k := l], if l == [] then bmap - {k} else bmap, tree - {r})
  {
    WithoutElements(lists[Class(r)], r);
  }

  lemma {:induction false} ListedAdd(lists: seq<seq<Range>>, bmap: set<nat>, tree: set<Range>, r: Range)
    requires Listed(lists, bmap, tree) && r !in tree && Class(r) < 64
    ensures var k := Class(r);
            Listed(lists[k := [r] + lists[k]], bmap + {k}, tree + {r})
  {
    var k := Class(r);
    assert r !in lists[k];
    assert NoDup([r] + lists[k]);
  }

  // ----- the search -----

  /** The first list whose ranges are all large enough: the exponent of the least power of two not below `size`. */
  function MinBit(size: nat): nat
    requires size > 0
  {
    var m := HighBit(size);
    if size != Pow2(m) then m + 1 else m
  }

  lemma {:induction false} MinBitBounds(size: nat)
    requires size > 0
    ensures size <= Pow2(MinBit(size)) <= 2 * size - 1
  {
    HighBitBounds(size);
    assert Pow2(HighBit(size) + 1) == 2 * Pow2(HighBit(size));
  }

  lemma {:induction false} ClassBound(r: Range, m: nat)
    requires r.size > 0
    ensures Class(r) >= m <==> r.size >= Pow2(m)
  {
    HighBitBounds(r.size);
    var h := HighBit(r.size);
    assert Pow2(h + 1) == 2 * Pow2(h);
    if h >= m {
      Pow2Mono(m, h);
    } else {
      Pow2Mono(h + 1, m);
    }
  }

  lemma {:induction false} ClassFits(r: Range)
    requires r.size < LIMIT
    ensures Class(r) < 64
  {
    if r.size > 0 {
      ClassBound(r, 64);
      Limit();
    }
  }

  const LIMIT := 0x1_0000_0000_0000_0000

  lemma {:induction false} Limit()
    ensures Pow2(64) == LIMIT
  {
    assert Pow2(16) == 0x1_0000 by { Pow2Add(8, 8); assert Pow2(8) == 256; }
    assert Pow2(32) == 0x1_0000_0000 by { Pow2Add(16, 16); }
    Pow2Add(32, 32);
  }

  // ----- coalescing -----

  datatype Found = Nothing | Entry(r: Range)

  /** `f` is the range of the tree that holds address `a`. */
  ghost predicate Finds(tree: set<Range>, a: nat, f: Found) {
    match f
    case Nothing => forall r :: r in tree ==> !Within(a, r.addr, r.size)
    case Entry(r) => r in tree && Within(a, r.addr, r.size)
  }

  /** The neighbours of a range that is not free: those that touch it. */
  ghost predicate Neighbors(tree: set<Range>, addr: nat, size: nat, p: Found, n: Found) {
    && (if addr == 0 then p == Nothing else Finds(tree, addr - 1, p))
    && Finds(tree, addr + size, n)
  }

  function Drop(tree: set<Range>, f: Found): set<Range> {
    if f == Nothing then tree else tree - {f.r}
  }

  function Merged(addr: nat, size: nat, p: Found, n: Found): Range {
    var first := if p == Nothing then addr else p.r.addr;
    var last := if n == Nothing then addr + size else End(n.r);
    Range(first, if last >= first then last - first else 0)
  }

  /** A neighbour ends where the range begins, or begins where it ends. */
  lemma {:induction false} NeighborsTouch(tree: set<Range>, addr: nat, size: nat, p: Found, n: Found)
    requires AllApart(tree) && size > 0 && Addrs(tree) !! Block(addr, size) && Neighbors(tree, addr, size, p, n)
    ensures p != Nothing ==> End(p.r) == addr
    ensures n != Nothing ==> n.r.addr == addr + size
    ensures forall r :: r in Drop(Drop(tree, p), n) ==> End(r) < addr || r.addr > addr + size
  {
    forall r | r in tree
      ensures End(r) <= addr || r.addr >= addr + size
    {
      var x := if r.addr >= addr then r.addr else addr;
      assert Within(x, r.addr, r.size) ==> x in Block(r.addr, r.size) && x in Addrs(tree);
      assert Within(x, addr, size) ==> x in Block(addr, size);
    }
    forall r | r in Drop(Drop(tree, p), n)
      ensures End(r) != addr && r.addr != addr + size
    {
      if addr > 0 {
        OneHolds(tree, addr - 1, p, r);
      }
      OneHolds(tree, addr + size, n, r);
    }
  }

  /** Only one range of the tree can hold an address. */
  lemma {:induction false} OneHolds(tree: set<Range>, a: nat, f: Found, r: Range)
    requires AllApart(tree) && Finds(tree, a, f) && r in tree
    ensures Within(a, r.addr, r.size) <==> f == Entry(r)
  {
    assert f.Entry? && f.r != r ==> Apart(f.r, r);
  }

  /** Dropping the neighbours and adding the merged range frees exactly the new addresses, and nothing touches. */
  lemma {:induction false} MergedApart(tree: set<Range>, addr: nat, size: nat, p: Found, n: Found)
    requires AllApart(tree) && size > 0 && Addrs(tree) !! Block(addr, size) && Neighbors(tree, addr, size, p, n)
    ensures var rest := Drop(Drop(tree, p), n);
            var r := Merged(addr, size, p, n);
            && AllApart(rest + {r}) && r !in rest && r.size > 0
            && (n != Nothing ==> n.r in Drop(tree, p))
            && Addrs(rest + {r}) == Addrs(tree) + Block(addr, size)
            && End(r) == (if n == Nothing then addr + size else End(n.r))
  {
    var rest := Drop(Drop(tree, p), n);
    var r := Merged(addr, size, p, n);
    NeighborsTouch(tree, addr, size, p, n);
    MergedBlock(addr, size, p, n);
    forall x | x in rest
      ensures Apart(x, r)
    {
      assert x in tree;
      assert p != Nothing ==> Apart(x, p.r);
      assert n != Nothing ==> Apart(x, n.r);
    }
    AddrsAdd(rest, r);
    if p != Nothing {
      AddrsRemove(tree, p.r);
      assert p.r.addr in Block(p.r.addr, p.r.size);
    }
    assert AllApart(Drop(tree, p));
    if n != Nothing {
      AddrsRemove(Drop(tree, p), n.r);
    }
  }

  lemma {:induction false} MergedBlock(addr: nat, size: nat, p: Found, n: Found)
    requires p != Nothing ==> End(p.r) == addr
    requires n != Nothing ==> n.r.addr == addr + size
    ensures var r := Merged(addr, size, p, n);
            && End(r) == (if n == Nothing then addr + size else End(n.r))
            && Block(r.addr, r.size) == (if p == Nothing then {} else Block(p.r.addr, p.r.size)) + Block(addr, size)
                                        + (if n == Nothing then {} else Block(n.r.addr, n.r.size))
  {
  }

  // ----- the allocator -----

  const UINT := 0x1_0000_0000

  ghost predicate Fits(tree: set<Range>) {
    forall r :: r in tree ==> End(r) < LIMIT
  }

  predicate PageAligned(a: nat) {
    a % 4096 == 0
  }

  /** All free ranges are made of whole pages. */
  ghost predicate Paged(tree: set<Range>) {
    forall r :: r in tree ==> PageAligned(r.addr) && PageAligned(r.size)
  }

  lemma {:induction false} PagedMerge(tree: set<Range>, addr: nat, size: nat, p: Found, n: Found)
    requires Paged(tree) && PageAligned(addr) && PageAligned(size)
    requires (p != Nothing ==> p.r in tree && End(p.r) == addr) && (n != Nothing ==> n.r in tree && n.r.addr == addr + size)
    ensures Paged(Drop(Drop(tree, p), n) + {Merged(addr, size, p, n)})
  {
    var first := if p == Nothing then addr else p.r.addr;
    var last := if n == Nothing then addr + size else End(n.r);
    AlignedSum(addr, size);
    if n != Nothing {
      AlignedSum(n.r.addr, n.r.size);
    }
    AlignedGap(first, last);
    hide PageAligned;
  }

  lemma {:induction false} AlignedSum(a: nat, b: nat)
    requires PageAligned(a) && PageAligned(b)
    ensures PageAligned(a + b)
  {
  }

  lemma {:induction false} AlignedGap(a: nat, b: nat)
    requires PageAligned(a) && PageAligned(b) && a <= b
    ensures PageAligned(b - a)
  {
  }

  lemma {:induction false} PagedTaken(tree: set<Range>, r: Range, size: nat)
    requires r in tree && size <= r.size
    ensures Paged(tree) ==> Paged(tree - {r}) && PageAligned(r.addr)
    ensures Paged(tree) && PageAligned(size) ==> PageAligned(r.addr + size) && PageAligned(r.size - size)
  {
  }

  /** Lists, bits, tree and counters describe the same free ranges, and none touch. */
  ghost predicate Consistent(lists: seq<seq<Range>>, bmap: set<nat>, tree: set<Range>, nfree: nat, size: nat) {
    && Listed(lists, bmap, tree)
    && AllApart(tree) && Fits(tree)
    && size == Sum(tree) && nfree == Sum(tree) % UINT
  }

  lemma {:induction false} ConsistentParts(lists: seq<seq<Range>>, bmap: set<nat>, tree: set<Range>, nfree: nat, size: nat)
    requires Consistent(lists, bmap, tree, nfree, size)
    ensures Listed(lists, bmap, tree) && AllApart(tree) && Fits(tree) && |lists| == 64
    ensures size == Sum(tree) && nfree == Sum(tree) % UINT
    ensures forall r :: r in tree ==> r.size > 0 && Within(r.addr, r.addr, r.size) && End(r) < LIMIT
  {
  }

  lemma {:induction false} CountsRemove(tree: set<Range>, nfree: nat, r: Range)
    requires r in tree && nfree == Sum(tree) % UINT
    ensures Sum(tree) == Sum(tree - {r}) + r.size && (nfree - r.size) % UINT == Sum(tree - {r}) % UINT
  {
    SumAdd(tree - {r}, r);
    assert tree - {r} + {r} == tree;
    WrapAround(Sum(tree - {r}), r.size);
  }

  lemma {:induction false} CountsAdd(tree: set<Range>, nfree: nat, r: Range)
    requires r !in tree && nfree == Sum(tree) % UINT
    ensures Sum(tree + {r}) == Sum(tree) + r.size && (nfree + r.size) % UINT == Sum(tree + {r}) % UINT
  {
    SumAdd(tree, r);
    WrapAround(Sum(tree), r.size);
  }

  lemma {:induction false} WrapAround(s: nat, x: nat)
    ensures (s % UINT + x) % UINT == (s + x) % UINT
    ensures ((s + x) % UINT - x) % UINT == s % UINT
  {
  }

  lemma {:induction false} ConsistentRemove(lists: seq<seq<Range>>, bmap: set<nat>, tree: set<Range>, nfree: nat, size: nat, r: Range)
    requires Consistent(lists, bmap, tree, nfree, size) && r in tree
    ensures r.size > 0 && HighBit(r.size) < 64 == |lists| && size >= r.size
    ensures var k := HighBit(r.size);
            var l := Without(lists[k], r);
            Consistent(lists[k := l], if l == [] then bmap - {k} else bmap, tree - {r}, (nfree - r.size) % UINT, size - r.size)
  {
    assert Fits(tree - {r}) && AllApart(tree - {r});
    hide Listed, AllApart, Fits, Sum, HighBit, Without;
    ConsistentParts(lists, bmap, tree, nfree, size);
    ClassFits(r);
    ListedRemove(lists, bmap, tree, r);
    CountsRemove(tree, nfree, r);
  }

  lemma {:induction false} ConsistentAdd(lists: seq<seq<Range>>, bmap: set<nat>, tree: set<Range>, nfree: nat, size: nat, r: Range)
    requires Consistent(lists, bmap, tree, nfree, size) && r !in tree
    requires r.size > 0 && End(r) < LIMIT && AllApart(tree + {r})
    ensures HighBit(r.size) < 64 == |lists|
    ensures var k := HighBit(r.size);
            Consistent(lists[k := [r] + lists[k]], bmap + {k}, tree + {r}, (nfree + r.size) % UINT, size + r.size)
  {
    assert Fits(tree + {r});
    hide Listed, AllApart, Fits, Sum, HighBit;
    ConsistentParts(lists, bmap, tree, nfree, size);
    ClassFits(r);
    ListedAdd(lists, bmap, tree, r);
    CountsAdd(tree, nfree, r);
  }

  /** `r` can serve `size`, and no range that can is of a lower class. */
  ghost predicate LowestClass(tree: set<Range>, size: nat, r: Range)
    requires size > 0
  {
    && r in tree && r.size >= Pow2(MinBit(size))
    && forall x :: x in tree && x.size >= Pow2(MinBit(size)) ==> x.size > 0 && HighBit(r.size) <= HighBit(x.size)
  }

  /** So it is less than twice as large as any that can. */
  lemma {:induction false} NotMuchLarger(tree: set<Range>, size: nat, r: Range, x: Range)
    requires size > 0 && LowestClass(tree, size, r) && x in tree && x.size >= Pow2(MinBit(size))
    ensures r.size < 2 * x.size
  {
    HighBitBounds(r.size);
    HighBitBounds(x.size);
    Pow2Mono(HighBit(r.size), HighBit(x.size));
    assert Pow2(HighBit(r.size) + 1) == 2 * Pow2(HighBit(r.size));
  }

  /** What _zone_findfree sees in the occupancy word and takes from a list. */
  lemma {:induction false} ListHeads(lists: seq<seq<Range>>, bmap: set<nat>, tree: set<Range>, m: nat)
    requires Listed(lists, bmap, tree) && AllApart(tree) && Fits(tree)
    ensures forall b :: b in bmap ==> b < 64 && lists[b] != [] && lists[b][0] in tree && lists[b][0].size >= Pow2(b)
    ensures forall b :: b in bmap ==> lists[b][0].size > 0 && HighBit(lists[b][0].size) == b
    ensures forall r :: r in tree && r.size >= Pow2(m) ==> r.size > 0 && HighBit(r.size) in bmap && HighBit(r.size) >= m
  {
    forall b | b in bmap
      ensures lists[b][0] in tree && lists[b][0].size >= Pow2(b)
    {
      assert lists[b][0] in lists[b];
      ClassBound(lists[b][0], b);
    }
    forall r | r in tree && r.size >= Pow2(m)
      ensures r.size > 0 && HighBit(r.size) in bmap && HighBit(r.size) >= m
    {
      ClassFits(r);
      ClassBound(r, m);
      assert r in lists[Class(r)];
    }
  }

  /** trunc_page: the page boundary at or before an address. */
  function TruncPage(addr: nat): (r: nat)
    ensures PageAligned(r) && r <= addr < r + 4096
  {
    addr / 4096 * 4096
  }

  /** round_page: the least number of whole pages that holds `size`. */
  function RoundPage(size: nat): (r: nat)
    ensures PageAligned(r) && size <= r < size + 4096
  {
    (size + 4095) / 4096 * 4096
  }

  lemma {:induction false} RoundCovers(addr: nat, size: nat)
    ensures Block(addr, size) <= Block(addr, RoundPage(size))
  {
  }

  /** The pages that kva_free frees hold the given bytes if and only if these end on the pages counted from the first. */
  lemma {:induction false} TruncCovers(va: nat, size: nat)
    requires size > 0
    ensures Block(va, size) <= Block(TruncPage(va), RoundPage(size)) <==> va - TruncPage(va) + size <= RoundPage(size)
    ensures PageAligned(va) ==> TruncPage(va) == va
  {
    assert va in Block(va, size) && va + size - 1 in Block(va, size);
  }

  lemma {:induction false} ConsistentNone(lists: seq<seq<Range>>)
    requires |lists| == 64 && forall k :: 0 <= k < 64 ==> lists[k] == []
    ensures Consistent(lists, {}, {}, 0, 0) && Addrs({}) == {}
  {
  }

  lemma {:induction false} BlockWithin(addr: nat, size: nat, base: nat, extent: nat)
    requires size > 0 && Block(addr, size) <= Block(base, extent)
    ensures base <= addr && addr + size <= base + extent
  {
    assert addr in Block(addr, size) && addr + size - 1 in Block(addr, size);
  }

  lemma {:induction false} PagedNone()
    ensures Paged({})
  {
  }

  lemma {:induction false} BlockSplit(addr: nat, size: nat, k: nat)
    requires k <= size
    ensures Block(addr, size) == Block(addr, k) + Block(addr + k, size - k)
    ensures Block(addr, k) !! Block(addr + k, size - k)
    ensures k < size ==> addr + size - 1 in Block(addr, size)
  {
  }

  lemma {:induction false} AddrsHas(tree: set<Range>, r: Range)
    requires r in tree
    ensures Block(r.addr, r.size) <= Addrs(tree)
  {
  }
}
