/**
  Slab caches on the kernel virtual area: ___slaballoc and ___slabfree of libnux/slab.c, and the
  functions of libnux/slabinc.c that call them.
 */
module SlabMemory {
  import opened Zone
  import opened KvaZone
  import opened Slab
  import Powers

  // ----- ___slaballoc -----

  /** The bytes asked for, so that an aligned slab fits wherever they start. */
  const ASKED: nat := 2 * SLAB - 4096

  const VADDR_INVALID: nat := LIMIT - 1

  /** What kva_alloc returns, as a vaddr_t. */
  function Vaddr(va: int): nat
    requires va >= -1
  {
    if va == -1 then VADDR_INVALID else va
  }

  /** The first slab boundary from `una` on, in the arithmetic of vaddr_t. */
  function SlabStart(una: nat): nat {
    if una % SLAB != 0 then (una + SLAB - 1) % LIMIT / SLAB * SLAB else una
  }

  function SlabEnd(una: nat): nat {
    (SlabStart(una) + SLAB) % LIMIT
  }

  function AskedEnd(una: nat): nat {
    (una + ASKED) % LIMIT
  }

  lemma {:induction false} NoWrap(a: nat)
    requires a < LIMIT
    ensures a % LIMIT == a
  {
  }

  lemma {:induction false} NextBoundary(una: nat)
    requires PageAligned(una)
    ensures var start := if una % SLAB != 0 then (una + SLAB - 1) / SLAB * SLAB else una;
            && start % SLAB == 0 && PageAligned(start) && PageAligned(start + SLAB) && PageAligned(una + ASKED)
            && una <= start && start + SLAB <= una + ASKED
  {
    var n := una / 4096;
    var k := n / 2;
    Multiple(2 * k);
    Multiple(2 * k + 2);
    Multiple(2 * k + 4);
    Multiple(n + 3);
    if n == 2 * k {
      SlabMultiple(k, 0);
    } else {
      SlabMultiple(k, 4096);
      SlabMultiple(k + 1, 4095);
      SlabMultiple(k + 1, 0);
    }
  }

  lemma {:induction false} Multiple(n: nat)
    ensures PageAligned(4096 * n)
  {
  }

  lemma {:induction false} SlabMultiple(k: nat, r: nat)
    requires r < SLAB
    ensures (SLAB * k + r) / SLAB == k && (SLAB * k + r) % SLAB == r
  {
  }

  /** From a page boundary, an aligned slab and whole pages before and after it make up what was asked for. */
  lemma {:induction false} SlabFits(una: nat)
    requires PageAligned(una) && una + ASKED < LIMIT
    ensures var start := SlabStart(una);
            && start % SLAB == 0 && PageAligned(start) && una <= start
            && SlabEnd(una) == start + SLAB <= AskedEnd(una) == una + ASKED
            && PageAligned(start + SLAB) && PageAligned(una + ASKED)
  {
    hide PageAligned;
    NextBoundary(una);
    NoWrap(una + SLAB - 1);
    NoWrap(SlabStart(una) + SLAB);
    NoWrap(una + ASKED);
  }

  /** From VADDR_INVALID the slab starts at 0, and the page after it seems to be left over. */
  lemma {:induction false} SlabOfNothing()
    ensures Given(VADDR_INVALID, 0) == {} && Given(8192, 12287) == Block(8192, 4096) && PageAligned(8192) && 8192 + RoundPage(4095) < LIMIT
    ensures 0 % SLAB == 0 && SlabStart(VADDR_INVALID) == 0 && SlabEnd(VADDR_INVALID) == 8192 && AskedEnd(VADDR_INVALID) == 12287
  {
  }

  lemma {:induction false} WholePages(a: nat)
    requires PageAligned(a)
    ensures RoundPage(a) == a && TruncPage(a) == a
  {
  }

  lemma {:induction false} AskedPages()
    ensures 0 < RoundPage(ASKED) == ASKED < 0x8000_0000
  {
  }

  lemma {:induction false} WholeSlab(start: nat)
    requires start % SLAB == 0
    ensures TruncPage(start) == start && RoundPage(SLAB) == SLAB > 0
  {
    var k := start / SLAB;
    assert start == 4096 * (2 * k);
  }

  /** What is left of the block once both ends are given back. */
  lemma {:induction false} TrimBlock(una: nat, start: nat)
    requires una <= start && start + SLAB <= una + ASKED
    ensures Block(una, ASKED) == Block(una, start - una) + Block(start, SLAB) + Block(start + SLAB, una + ASKED - (start + SLAB))
    ensures Block(una, start - una) !! Block(start, SLAB)
    ensures Block(start, SLAB) !! Block(start + SLAB, una + ASKED - (start + SLAB))
    ensures Block(una, start - una) !! Block(start + SLAB, una + ASKED - (start + SLAB))
  {
  }

  /** The addresses that kva_free of [`first`, `last`) frees. */
  ghost function Given(first: nat, last: nat): set<nat> {
    if first < last then Block(first, RoundPage(last - first)) else {}
  }

  lemma {:induction false} GivenWhole(first: nat, last: nat)
    requires PageAligned(first) && PageAligned(last) && first <= last
    ensures Given(first, last) == Block(first, last - first)
    ensures first < last ==> first + RoundPage(last - first) == last
  {
    AlignedGap(first, last);
    WholePages(last - first);
  }

  /** kva_free of the pages outside the slab, if there are any. */
  method GiveBack(kva: Kva, first: nat, last: nat)
    requires kva.Indexed() && Paged(kva.tree) && Addrs(kva.tree) !! Given(first, last)
    requires first < last ==> PageAligned(first) && first + RoundPage(last - first) < LIMIT
    modifies kva, kva.zlist, kva.vmap, kva.vmap.tree
    ensures kva.Indexed() && Paged(kva.tree)
    ensures Addrs(kva.tree) == old(Addrs(kva.tree)) + Given(first, last) && kva.live == old(kva.live) - Given(first, last)
    ensures old(kva.Valid()) ==> (kva.Valid() <==> Given(first, last) <= old(kva.live))
  {
    hide Kva.Indexed, Kva.Valid, Paged, PageAligned, Addrs, Block, RoundPage, TruncPage;
    if first < last {
      WholePages(first);
      SomePages(last - first);
      kva.KvaFree(first, last - first);
    }
  }

  lemma {:induction false} SomePages(n: nat)
    requires n > 0
    ensures RoundPage(n) > 0
  {
  }

  lemma {:induction false} Trimmed(live: set<nat>, head: set<nat>, slab: set<nat>, rest: set<nat>)
    requires live !! head + slab + rest && head !! slab && slab !! rest && head !! rest
    ensures live + (head + slab + rest) - head - rest == live + slab
    ensures head <= live + (head + slab + rest) && rest <= live + (head + slab + rest) - head
  {
  }

  lemma {:induction false} LiveApart(kva: Kva)
    requires kva.Valid()
    ensures kva.live !! Addrs(kva.tree) && kva.live + Addrs(kva.tree) == Block(kva.base, kva.extent)
    ensures kva.Indexed() && kva.base + kva.extent < LIMIT
  {
  }

  /** The area has a free range of the least power of two for what is asked. */
  ghost predicate Room(tree: set<Range>) {
    exists r :: r in tree && r.size >= Powers.Pow2(MinBit(ASKED))
  }

  /** ___slaballoc after kva_alloc, which returned the start of a block or VADDR_INVALID. */
  method Trim(kva: Kva, una: nat) returns (start: nat)
    requires kva.Valid() && Paged(kva.tree) && kva.base >= 12288
    requires una == VADDR_INVALID || (PageAligned(una) && Block(una, ASKED) <= kva.live)
    modifies kva, kva.zlist, kva.vmap, kva.vmap.tree
    ensures start % SLAB == 0 && kva.Indexed() && Paged(kva.tree) && (kva.Valid() <==> una != VADDR_INVALID)
    ensures una != VADDR_INVALID ==>
              && start >= una && Block(start, SLAB) <= Block(una, ASKED)
              && kva.live == old(kva.live) - Block(una, ASKED) + Block(start, SLAB)
    ensures una == VADDR_INVALID ==>
              start == 0 && kva.live == old(kva.live) && Addrs(kva.tree) == old(Addrs(kva.tree)) + Block(8192, 4096)
  {
    hide *;
    start := SlabStart(una);
    LiveApart(kva);
    if una == VADDR_INVALID {
      SlabOfNothing();
      OutsidePage(kva);
    } else {
      AskedPages();
      BlockWithin(una, ASKED, kva.base, kva.extent);
      SlabFits(una);
      TrimBlock(una, start);
      GivenWhole(una, start);
      GivenWhole(SlabEnd(una), AskedEnd(una));
      ghost var rest := old(kva.live) - Block(una, ASKED);
      Trimmed(rest, Given(una, start), Block(start, SLAB), Given(SlabEnd(una), AskedEnd(una)));
      assert rest + Block(una, ASKED) == kva.live;
    }
    GiveBack(kva, una, start);
    if una != VADDR_INVALID {
      LiveApart(kva);
    }
    GiveBack(kva, SlabEnd(una), AskedEnd(una));
  }

  /** A block that kva_alloc gave is inside the area, and not at the last address. */
  lemma {:induction false} InArea(kva: Kva, va: int)
    requires kva.Valid() && va >= -1 && (va != -1 ==> Block(va, ASKED) <= kva.live)
    ensures va != -1 ==> va != VADDR_INVALID && va >= kva.base
  {
    if va != -1 {
      LiveApart(kva);
      BlockWithin(va, ASKED, kva.base, kva.extent);
    }
  }

  lemma {:induction false} OutsidePage(kva: Kva)
    requires kva.Valid() && kva.base >= 12288
    ensures kva.Indexed() && RoundPage(4095) == 4096
    ensures Block(8192, 4096) !! kva.live && Block(8192, 4096) !! Addrs(kva.tree) && !(Block(8192, 4096) <= kva.live)
  {
    assert 8192 in Block(8192, 4096);
    assert kva.live + Addrs(kva.tree) == Block(kva.base, kva.extent);
  }

  /**
    ___slaballoc on an area above the first three pages.  It does not look at the result of kva_alloc:
    the area stays partitioned if and only if there was room.  Then an aligned slab becomes live and
    nothing else does; without room it returns null, after freeing the page at 8192.
   */
  method SlabAlloc(kva: Kva) returns (start: nat)
    requires kva.Valid() && Paged(kva.tree) && kva.base >= 12288
    modifies kva, kva.zlist, kva.vmap, kva.vmap.tree
    ensures (start != 0 <==> old(Room(kva.tree))) && (kva.Valid() <==> old(Room(kva.tree)))
    ensures start % SLAB == 0 && kva.Indexed() && Paged(kva.tree)
    ensures start != 0 ==> Block(start, SLAB) !! old(kva.live) && kva.live == old(kva.live) + Block(start, SLAB)
    ensures start == 0 ==> kva.live == old(kva.live) && Addrs(kva.tree) == old(Addrs(kva.tree)) + Block(8192, 4096)
  {
    hide Kva.Indexed, Kva.Valid, Paged, PageAligned, Addrs, Block, RoundPage, MinBit, Powers.Pow2;
    AskedPages();
    LiveApart(kva);
    var va := kva.KvaAlloc(ASKED);
    InArea(kva, va);
    start := Trim(kva, Vaddr(va));
  }

  /** ___slabfree of a live slab. */
  method SlabFree(kva: Kva, start: nat)
    requires kva.Valid() && Paged(kva.tree) && start % SLAB == 0 && Block(start, SLAB) <= kva.live
    modifies kva, kva.zlist, kva.vmap, kva.vmap.tree
    ensures kva.Valid() && Paged(kva.tree) && kva.live == old(kva.live) - Block(start, SLAB)
  {
    hide *;
    WholeSlab(start);
    LiveApart(kva);
    BlockWithin(start, SLAB, kva.base, kva.extent);
    kva.KvaFree(start, SLAB);
  }

  // ----- slab caches -----

  /** The bytes of a slab are those that lead to its header. */
  lemma {:induction false} SlabBytes(h: nat, a: nat)
    requires h % SLAB == 0
    ensures a in Block(h, SLAB) <==> Home(a) == h
  {
    if Home(a) == h {
      assert h <= a < h + SLAB;
    }
    if a in Block(h, SLAB) {
      Inside(h, a - h);
    }
  }

  lemma {:induction false} SlabsApart(h: nat, k: nat)
    requires h % SLAB == 0 && k % SLAB == 0 && h != k
    ensures Block(h, SLAB) !! Block(k, SLAB)
  {
    forall a | a in Block(h, SLAB)
      ensures a !in Block(k, SLAB)
    {
      SlabBytes(h, a);
      SlabBytes(k, a);
    }
  }

  lemma {:induction false} SlabLive(h: nat)
    ensures h in Block(h, SLAB)
  {
  }

  datatype Got = Object(o: nat) | OutOfMemory

  /** A cache whose slabs come from the kernel virtual area. */
  class SlabCache {
    const cache: Cache
    const kva: Kva

    /** The slabs of the cache are live parts of the area. */
    ghost predicate Owns()
      reads this, cache, kva
    {
      forall h :: h in cache.hdr ==> h % SLAB == 0 && Block(h, SLAB) <= kva.live
    }

    ghost predicate Valid()
      reads this, cache, kva, kva.zlist, kva.vmap, kva.vmap.tree
    {
      cache.Valid() && kva.Valid() && Paged(kva.tree) && kva.base >= 12288 && Owns()
    }

    /** slab_register */
    constructor (kva: Kva, header: nat, objhdr: nat, objsize: nat, cachealign: bool)
      requires kva.Valid() && Paged(kva.tree) && kva.base >= 12288
      requires LayoutOk(Layout(header, ObjSize(objsize, cachealign, objhdr)))
      ensures Valid() && this.kva == kva && fresh(cache) && cache.live == {} && cache.hdr == map[]
      ensures cache.g == Layout(header, ObjSize(objsize, cachealign, objhdr))
    {
      this.kva := kva;
      cache := new Cache(header, objhdr, objsize, cachealign);
    }

    /**
      slab_grow: a new slab with all its objects free.  0 stands for SLABFATAL, which it meets exactly
      when the area has no room, and by then the area is damaged.
     */
    method Grow() returns (h: nat)
      requires Valid()
      modifies cache, kva, kva.zlist, kva.vmap, kva.vmap.tree
      ensures h == 0 <==> !old(Room(kva.tree))
      ensures h == 0 ==> !kva.Valid() && unchanged(cache) && kva.live == old(kva.live)
      ensures h != 0 ==> && Valid() && h % SLAB == 0 && h !in old(cache.hdr) && kva.live == old(kva.live) + Block(h, SLAB)
                         && cache.live == old(cache.live) && cache.emptyq == [h] + old(cache.emptyq)
                         && cache.freeq == old(cache.freeq) && cache.fullq == old(cache.fullq)
                         && cache.hdr.Keys == old(cache.hdr).Keys + {h}
    {
      hide Cache.Valid, Kva.Valid, Kva.Indexed, Paged, Addrs, Block, Room;
      h := SlabAlloc(kva);
      if h != 0 {
        SlabLive(h);
        cache.Attach(h);
      }
    }

    /** slab_shrink: exactly the slabs of the empty queue go back to the area, and no live object is in them. */
    method Shrink() returns (shrunk: nat)
      requires Valid()
      modifies cache, kva, kva.zlist, kva.vmap, kva.vmap.tree
      ensures Valid() && shrunk == |old(cache.emptyq)|
      ensures cache.live == old(cache.live) && cache.emptyq == [] && cache.freeq == old(cache.freeq) && cache.fullq == old(cache.fullq)
      ensures forall a :: a in kva.live <==> a in old(kva.live) && Home(a) !in old(cache.emptyq)
      ensures forall h :: h in old(cache.emptyq) ==> LiveIn(cache.live, h) == {}
    {
      hide Cache.Valid, Kva.Valid, Kva.Indexed, Paged, Addrs, Block, LiveIn, Home;
      shrunk := 0;
      ghost var all := cache.emptyq;
      while cache.emptyq != []
        invariant Valid() && cache.live == old(cache.live) && cache.freeq == old(cache.freeq) && cache.fullq == old(cache.fullq)
        invariant shrunk <= |all| && cache.emptyq == all[shrunk..]
        invariant forall a :: a in kva.live <==> a in old(kva.live) && Home(a) !in all[..shrunk]
        invariant forall h :: h in all[..shrunk] ==> LiveIn(cache.live, h) == {}
        decreases |cache.emptyq|
      {
        assert all[..shrunk + 1] == all[..shrunk] + [all[shrunk]];
        ShrinkOne();
        shrunk := shrunk + 1;
      }
      assert all[..shrunk] == all;
    }

    /** One round of slab_shrink. */
    method ShrinkOne()
      requires Valid() && cache.emptyq != []
      modifies cache, kva, kva.zlist, kva.vmap, kva.vmap.tree
      ensures Valid() && cache.emptyq == old(cache.emptyq)[1..]
      ensures cache.live == old(cache.live) && cache.freeq == old(cache.freeq) && cache.fullq == old(cache.fullq)
      ensures forall a :: a in kva.live <==> a in old(kva.live) && Home(a) != old(cache.emptyq)[0]
      ensures LiveIn(cache.live, old(cache.emptyq)[0]) == {}
    {
      hide Cache.Valid, Kva.Valid, Kva.Indexed, Paged, Addrs, Block, LiveIn, Home;
      var h := cache.Detach();
      forall k | k in cache.hdr
        ensures Block(k, SLAB) <= kva.live - Block(h, SLAB)
      {
        SlabsApart(h, k);
      }
      forall a: nat
        ensures a in Block(h, SLAB) <==> Home(a) == h
      {
        SlabBytes(h, a);
      }
      SlabFree(kva, h);
    }

    /**
      slab_alloc_opq: an object that was not live.  It fails exactly when no slab has a free object and
      the area has no room.  The loop never comes round twice, so its count of tries never ends it.
     */
    method Alloc() returns (r: Got)
      requires Valid()
      modifies cache, kva, kva.zlist, kva.vmap, kva.vmap.tree
      ensures r == OutOfMemory <==> old(cache.freeq == [] && cache.emptyq == [] && !Room(kva.tree))
      ensures r == OutOfMemory ==> !kva.Valid() && unchanged(cache)
      ensures old(cache.freeq != [] || cache.emptyq != []) ==> unchanged(kva) && cache.hdr.Keys == old(cache.hdr).Keys
      ensures old(cache.freeq) != [] && r.Object? ==> Home(r.o) == old(cache.freeq)[0]
      ensures r.Object? ==> && Valid() && r.o !in old(cache.live) && cache.live == old(cache.live) + {r.o}
                            && OnGrid(cache.g, Home(r.o), r.o) && Home(r.o) in cache.hdr && old(kva.live) <= kva.live
    {
      hide Cache.Valid, Kva.Valid, Kva.Indexed, Paged, Addrs, Block, Room, Home;
      var tries := 0;
      while cache.freeq == [] && cache.emptyq == [] && tries <= 3
        invariant Valid() && tries <= 1 && cache.live == old(cache.live) && old(kva.live) <= kva.live
        invariant tries == 0 ==> unchanged(cache) && unchanged(kva)
        invariant tries == 1 ==> cache.emptyq != [] && old(Room(kva.tree)) && old(cache.freeq == [] && cache.emptyq == [])
        decreases 4 - tries
      {
        tries := tries + 1;
        var h := Grow();
        if h == 0 {
          return OutOfMemory;
        }
      }
      var o := cache.Take();
      return Object(o);
    }

    /** slab_free of a live object, or of a pointer that leads to no slab. */
    method Free(o: nat)
      requires Valid() && (Home(o) in cache.hdr ==> o in cache.live)
      modifies cache
      ensures Valid() && cache.live == old(cache.live) - (if Home(o) in old(cache.hdr) then {o} else {})
    {
      hide Cache.Valid, Kva.Valid, Paged, Block, Home;
      cache.Free(o);
    }

    /** Live objects are live bytes of the area, and no two share one. */
    lemma {:induction false} ObjectsApart(o: nat, p: nat)
      requires Valid() && o in cache.live && p in cache.live && o != p
      ensures Block(o, cache.g.objsize) <= kva.live && Block(o, cache.g.objsize) !! Block(p, cache.g.objsize)
    {
      hide Cache.Valid, Kva.Valid, Paged, Block, Home, OnGrid, LayoutOk;
      ObjectBytes(cache, o);
      ObjectBytes(cache, p);
      var h := Home(o);
      if h == Home(p) {
        GridApart(cache.g, h, o, p);
        BlocksApart(o, p, cache.g.objsize);
      } else {
        SlabsApart(h, Home(p));
      }
    }
  }

  lemma {:induction false} BlocksApart(o: nat, p: nat, size: nat)
    requires o + size <= p || p + size <= o
    ensures Block(o, size) !! Block(p, size)
  {
  }

  /** A live object is part of its slab. */
  lemma {:induction false} ObjectBytes(c: Cache, o: nat)
    requires c.Valid() && o in c.live
    ensures LayoutOk(c.g) && Home(o) in c.hdr && Home(o) % SLAB == 0 && OnGrid(c.g, Home(o), o)
    ensures Block(o, c.g.objsize) <= Block(Home(o), SLAB)
  {
    LiveOnGrid(c.g, c.hdr, c.live, o);
    assert SlabOk(c.g, Home(o), c.hdr[Home(o)], c.live);
    GridInside(c.g, Home(o), o);
  }

  /** Two caches on one area with different slabs never hand out the same byte. */
  lemma {:induction false} CachesApart(c: SlabCache, d: SlabCache, o: nat, p: nat)
    requires c.Valid() && d.Valid() && c.cache.hdr.Keys !! d.cache.hdr.Keys && o in c.cache.live && p in d.cache.live
    ensures Block(o, c.cache.g.objsize) !! Block(p, d.cache.g.objsize)
  {
    hide Cache.Valid, Kva.Valid, Paged, Block, Home, OnGrid, LayoutOk;
    ObjectBytes(c.cache, o);
    ObjectBytes(d.cache, p);
    SlabsApart(Home(o), Home(p));
  }
}
