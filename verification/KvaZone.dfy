/**
  The allocator of kernel virtual addresses, libnux/kva.c on libnux/alloc.h.  Free ranges are kept
  twice: in lists by the highest bit of their size, and in the red-black tree of module Rb.
 */
module KvaZone {
  import opened Lists
  import opened Powers
  import opened STreeLayout
  import opened Zone
  import opened KvaTree
  import STree

  /** The zone and the interval tree of the kernel virtual area [`base`, `base + extent`). */
  class Kva {
    const base: nat
    const extent: nat
    /** struct zone; `bmap` is the set of its bits. */
    var bmap: set<nat>
    const zlist: array<seq<Range>>
    var nfree: nat
    /** vmap_rbtree, the ranges in it, and vmap_size. */
    const vmap: Vmap
    ghost var tree: set<Range>
    var vmapSize: nat
    /** The addresses handed out. */
    ghost var live: set<nat>

    /** Lists, bits, tree and counters describe the same free ranges, and none touch. */
    ghost predicate Indexed()
      reads this, zlist, vmap, vmap.tree
    {
      Consistent(zlist[..], bmap, tree, nfree, vmapSize) && vmap.Valid() && vmap.Set() == tree
    }

    /** Free and live addresses partition the area. */
    ghost predicate Valid()
      reads this, zlist, vmap, vmap.tree
    {
      && 0 < base && base + extent < LIMIT
      && Indexed()
      && live !! Addrs(tree) && live + Addrs(tree) == Block(base, extent)
    }

    /** kvainit: an empty zone, into which the whole area is freed. */
    constructor (kvabase: nat, kvasize: nat)
      requires 0 < TruncPage(kvabase) && 0 < RoundPage(kvasize) && TruncPage(kvabase) + RoundPage(kvasize) < LIMIT
      ensures Valid() && live == {} && base == TruncPage(kvabase) && extent == RoundPage(kvasize) && Paged(tree)
      ensures fresh(zlist) && fresh(vmap) && fresh(vmap.tree)
    {
      base, extent := TruncPage(kvabase), RoundPage(kvasize);
      bmap, nfree, tree, vmapSize, live := {}, 0, {}, 0, {};
      zlist := new seq<Range>[64](_ => []);
      vmap := new Vmap();
      new;
      FreeArea(kvabase, kvasize);
    }

    /** The end of kvainit: the area is not in use, and freed. */
    method FreeArea(kvabase: nat, kvasize: nat)
      requires 0 < TruncPage(kvabase) == base && 0 < RoundPage(kvasize) == extent && base + extent < LIMIT
      requires zlist.Length == 64 && (forall k :: 0 <= k < 64 ==> zlist[k] == []) && bmap == {} && nfree == 0
      requires vmap.Valid() && vmap.Set() == tree == {} && vmapSize == 0
      modifies this, zlist, vmap, vmap.tree
      ensures Valid() && live == {} && Paged(tree)
    {
      hide Vmap.Valid, Vmap.Set, Consistent, Addrs, Block, Paged, PageAligned, TruncPage, RoundPage;
      ConsistentNone(zlist[..]);
      PagedNone();
      live := Block(base, extent);
      KvaFree(kvabase, kvasize);
    }

    /** The size of the tree accounts for every address that is not live. */
    lemma {:induction false} Conserved()
      requires Valid()
      ensures vmapSize + |live| == extent
    {
      SumCounts(tree);
      BlockSize(base, extent);
    }

    /** _zone_detachentry: the range leaves its list, and an empty list its bit. */
    method DetachEntry(r: Range)
      requires zlist.Length == 64 && r.size > 0 && HighBit(r.size) < 64
      modifies this`bmap, this`nfree, zlist
      ensures var k := HighBit(r.size);
              var l := Without(old(zlist[k]), r);
              && zlist[..] == old(zlist[..])[k := l] && bmap == (if l == [] then old(bmap) - {k} else old(bmap))
              && nfree == (old(nfree) - r.size) % UINT
    {
      hide HighBit, Without;
      var msb := HighBit(r.size);
      zlist[msb] := Without(zlist[msb], r);
      if zlist[msb] == [] {
        bmap := bmap - {msb};
      }
      nfree := (nfree - r.size) % UINT;
    }

    /** ___freeptr: the node that holds the range leaves the tree. */
    method FreePtr(r: Range)
      requires vmap.Valid() && r in vmap.Set() && AllApart(vmap.Set()) && Within(r.addr, r.addr, r.size) && vmapSize >= r.size
      modifies this`tree, this`vmapSize, vmap, vmap.tree
      ensures vmap.Valid() && vmap.Set() == old(vmap.Set()) - {r} && tree == old(tree) - {r} && vmapSize == old(vmapSize) - r.size
    {
      hide Vmap.Valid, Vmap.Set, AllApart;
      var p, f := vmap.Find(r.addr);
      OneHolds(vmap.Set(), r.addr, f, r);
      vmap.Remove(p);
      tree := tree - {r};
      vmapSize := vmapSize - r.size;
    }

    /** zone_remove: _zone_detachentry and ___freeptr. */
    method ZoneRemove(r: Range)
      requires Indexed() && r in tree
      modifies this`bmap, this`nfree, this`tree, this`vmapSize, zlist, vmap, vmap.tree
      ensures Indexed() && tree == old(tree) - {r}
    {
      hide Vmap.Valid, Vmap.Set, Consistent, Listed, AllApart, Fits, Sum, HighBit, Without;
      ConsistentParts(zlist[..], bmap, tree, nfree, vmapSize);
      ConsistentRemove(zlist[..], bmap, tree, nfree, vmapSize, r);
      DetachEntry(r);
      FreePtr(r);
    }

    /** ___mkptr and _zone_attachentry, for a range that touches no other: the asserts of the comparison hold. */
    method ZoneAttach(r: Range)
      requires Indexed() && r.size > 0 && End(r) < LIMIT && r !in tree && AllApart(tree + {r})
      modifies this`bmap, this`nfree, this`tree, this`vmapSize, zlist, vmap, vmap.tree
      ensures Indexed() && tree == old(tree) + {r}
      ensures HighBit(r.size) < 64 == zlist.Length
      ensures zlist[..] == old(zlist[..])[HighBit(r.size) := [r] + old(zlist[..])[HighBit(r.size)]]
    {
      hide Vmap.Valid, Vmap.Set, Consistent, Listed, AllApart, Fits, Addrs, Block, Paged, Sum;
      ConsistentParts(zlist[..], bmap, tree, nfree, vmapSize);
      ConsistentAdd(zlist[..], bmap, tree, nfree, vmapSize, r);
      vmap.Insert(r);
      tree := tree + {r};
      vmapSize := vmapSize + r.size;
      var msb := HighBit(r.size);
      ghost var lists := zlist[..];
      bmap := bmap + {msb};
      zlist[msb] := [r] + zlist[msb];
      assert zlist[..] == lists[msb := [r] + lists[msb]];
      nfree := (nfree + r.size) % UINT;
    }

    /** zone_create: frees a range, merged with the free ranges that touch it. */
    method ZoneCreate(addr: nat, size: nat)
      requires Indexed() && size > 0 && addr + size < LIMIT && Addrs(tree) !! Block(addr, size)
      modifies this`bmap, this`nfree, this`tree, this`vmapSize, zlist, vmap, vmap.tree
      ensures Indexed() && Addrs(tree) == old(Addrs(tree)) + Block(addr, size)
      ensures old(Paged(tree)) && PageAligned(addr) && PageAligned(size) ==> Paged(tree)
    {
      hide Vmap.Valid, Vmap.Set, Consistent, Listed, AllApart, Fits, Addrs, Block, Paged, Sum, PageAligned;
      ConsistentParts(zlist[..], bmap, tree, nfree, vmapSize);
      var p, node := Nothing, 0;
      if addr != 0 {
        node, p := vmap.Find(addr - 1);
      }
      var next, n := vmap.Find(addr + size);
      MergedApart(tree, addr, size, p, n);
      NeighborsTouch(tree, addr, size, p, n);
      if Paged(tree) && PageAligned(addr) && PageAligned(size) {
        PagedMerge(tree, addr, size, p, n);
      }
      var first, last := addr, addr + size;
      if p != Nothing {
        first := p.r.addr;
        ZoneRemove(p.r);
      }
      if n != Nothing {
        last := n.r.addr + n.r.size;
        ZoneRemove(n.r);
      }
      ZoneAttach(Range(first, last - first));
    }

    /** _zone_findfree, for sizes whose power of two fits an int: the head of the lowest list that can serve. */
    method FindFree(size: nat) returns (f: Found)
      requires Indexed() && 0 < size < 0x8000_0000
      ensures f == Nothing <==> forall r :: r in tree ==> r.size < Pow2(MinBit(size))
      ensures f.Entry? ==> f.r.size >= size && LowestClass(tree, size, f.r) && HighBit(f.r.size) < 64 == zlist.Length
      ensures f.Entry? ==> zlist[HighBit(f.r.size)] != [] && f.r == zlist[HighBit(f.r.size)][0]
    {
      hide Vmap.Valid, Vmap.Set, Consistent, Listed, AllApart, Fits, Sum, HighBit, MinBit, Pow2;
      ConsistentParts(zlist[..], bmap, tree, nfree, vmapSize);
      var m := MinBit(size);
      MinBitBounds(size);
      ListHeads(zlist[..], bmap, tree, m);
      var tmp := set b | b in bmap && b >= m;
      assert forall b :: b in bmap && b >= m ==> b in tmp;
      if tmp == {} {
        return Nothing;
      }
      var k := STree.Ctz(tmp, m);
      Pow2Mono(m, k);
      return Entry(zlist[k][0]);
    }

    /**
      zone_alloc: succeeds exactly when some free range has the least power of two not below `size`,
      and then hands out the start of a range of the lowest class that can serve, and no more than asked for.
     */
    method Alloc(size: nat) returns (r: int, ghost from: Range)
      requires Valid() && 0 < size < 0x8000_0000
      modifies this, zlist, vmap, vmap.tree
      ensures Valid()
      ensures r == -1 <==> forall x :: x in old(tree) ==> x.size < Pow2(MinBit(size))
      ensures r == -1 ==> live == old(live) && tree == old(tree)
      ensures r != -1 ==> r >= 0 && Block(r, size) <= old(Addrs(tree)) && live == old(live) + Block(r, size)
      ensures r != -1 ==> LowestClass(old(tree), size, from) && from.addr == r
      ensures old(Paged(tree)) && PageAligned(size) ==> Paged(tree) && (r != -1 ==> PageAligned(r))
    {
      hide Vmap.Valid, Vmap.Set, Consistent, Listed, AllApart, Fits, Block, Paged, Sum, PageAligned, Addrs;
      ConsistentParts(zlist[..], bmap, tree, nfree, vmapSize);
      var f := FindFree(size);
      if f == Nothing {
        return -1, Range(0, 0);
      }
      var addr, diff := f.r.addr, f.r.size - size;
      BlockSplit(f.r.addr, f.r.size, size);
      AddrsRemove(tree, f.r);
      AddrsHas(tree, f.r);
      PagedTaken(tree, f.r, size);
      ZoneRemove(f.r);
      if diff > 0 {
        ZoneCreate(addr + size, diff);
      }
      live := live + Block(addr, size);
      return addr, f.r;
    }

    lemma {:induction false} LiveFree()
      requires Valid()
      ensures live !! Addrs(tree)
    {
    }

    /** A free range of twice the size less one is always enough. */
    lemma {:induction false} Suffices(size: nat, r: Range)
      requires Indexed() && size > 0 && r in tree && r.size >= 2 * size - 1
      ensures !(forall x :: x in tree ==> x.size < Pow2(MinBit(size)))
    {
      MinBitBounds(size);
    }

    /** kva_alloc: whole pages for `size` bytes; failure is VADDR_INVALID, which is what zone_alloc returns. */
    method KvaAlloc(size: nat) returns (va: int)
      requires Valid() && 0 < RoundPage(size) < 0x8000_0000
      modifies this, zlist, vmap, vmap.tree
      ensures Valid()
      ensures va == -1 <==> forall x :: x in old(tree) ==> x.size < Pow2(MinBit(RoundPage(size)))
      ensures va == -1 ==> live == old(live) && tree == old(tree)
      ensures va != -1 ==> va > 0 && Block(va, RoundPage(size)) <= old(Addrs(tree)) && live == old(live) + Block(va, RoundPage(size))
      ensures va != -1 ==> Block(va, size) <= live - old(live)
      ensures old(Paged(tree)) ==> Paged(tree) && (va != -1 ==> PageAligned(va))
    {
      hide Vmap.Valid, Vmap.Set, Consistent, Addrs, Block, Paged, RoundPage;
      ghost var from;
      LiveFree();
      va, from := Alloc(RoundPage(size));
      if va != -1 {
        RoundCovers(va, size);
        BlockWithin(va, RoundPage(size), base, extent);
      }
      if va == 0 {
        return -1;
      }
    }

    /**
      zone_free of addresses that are not free.  The code does not check that they are live: free and
      live addresses go on to partition the area exactly when they were.
     */
    method Free(addr: nat, size: nat)
      requires Indexed() && size != 0 && addr + size < LIMIT && Addrs(tree) !! Block(addr, size)
      modifies this, zlist, vmap, vmap.tree
      ensures Indexed() && Addrs(tree) == old(Addrs(tree)) + Block(addr, size) && live == old(live) - Block(addr, size)
      ensures old(Valid()) ==> (Valid() <==> Block(addr, size) <= old(live))
      ensures old(Paged(tree)) && PageAligned(addr) && PageAligned(size) ==> Paged(tree)
    {
      hide Vmap.Valid, Vmap.Set, Consistent, Addrs, Block, Paged, PageAligned;
      ZoneCreate(addr, size);
      live := live - Block(addr, size);
    }

    /**
      kva_free: zone_free of the pages.  They hold the given bytes exactly when these do not reach
      beyond the pages counted from the first, which is so when `va` is the start of a page.
     */
    method KvaFree(va: nat, size: nat)
      requires Indexed() && RoundPage(size) != 0 && TruncPage(va) + RoundPage(size) < LIMIT
      requires Addrs(tree) !! Block(TruncPage(va), RoundPage(size))
      modifies this, zlist, vmap, vmap.tree
      ensures Indexed() && Addrs(tree) == old(Addrs(tree)) + Block(TruncPage(va), RoundPage(size))
      ensures live == old(live) - Block(TruncPage(va), RoundPage(size))
      ensures old(Valid()) ==> (Valid() <==> Block(TruncPage(va), RoundPage(size)) <= old(live))
      ensures Block(va, size) <= Addrs(tree) - old(Addrs(tree)) <==> va - TruncPage(va) + size <= RoundPage(size)
      ensures old(Paged(tree)) ==> Paged(tree)
    {
      hide Vmap.Valid, Vmap.Set, Consistent, Addrs, Block, Paged, TruncPage, RoundPage;
      TruncCovers(va, size);
      Free(TruncPage(va), RoundPage(size));
    }
  }
}
