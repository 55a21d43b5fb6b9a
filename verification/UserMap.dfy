/**
  User address spaces, libhal_x86/amd64/pae64.c: walk with allocation, next mapped address, free.
  The maps are those that are not loaded; Linmap has the walk of the loaded one.
 */
module UserMap {
  import opened Frames
  import opened Lists
  import opened PageTree
  import opened SelfMap

  const UMAP_L4PTES := 8

  /** A pointer to a leaf entry, marked as foreign by its lowest bit. */
  datatype L1p = Ptep(p: nat) | PtepInvalid

  /** mkptep_fgn */
  function MkptepFgn(pfn: nat, index: nat): nat {
    pfn * 4096 + index * 8 + 1
  }

  /** What get_pte and set_pte take from a foreign pointer. */
  function PtepFrame(p: nat): nat {
    p / 4096
  }

  function PtepIndex(p: nat): nat {
    p / 8 % 512
  }

  lemma {:induction false} ForeignPointer(pfn: nat, index: nat)
    requires index < 512
    ensures var p := MkptepFgn(pfn, index);
            p % 2 == 1 && PtepFrame(p) == pfn && PtepIndex(p) == index && p - 1 == 4096 * pfn + 8 * index
  {
    var p := MkptepFgn(pfn, index);
    assert p / 8 == pfn * 512 + index;
  }

  /** Distinct pages have distinct leaf slots. */
  lemma {:induction false} DistinctSlots(s: Pt, owner: map<nat, Place>, va: nat, vb: nat, f: nat, g: nat)
    requires Owned(s, owner) && Page(va) != Page(vb)
    requires Reached(s, 1, EntryNo(va, 2), f) && Reached(s, 1, EntryNo(vb, 2), g)
    ensures MkptepFgn(f, Off(va, 1)) != MkptepFgn(g, Off(vb, 1))
  {
    OffDigit(va, 1);
    OffDigit(vb, 1);
    ForeignPointer(f, Off(va, 1));
    ForeignPointer(g, Off(vb, 1));
    assert EntryNo(va, 2) == Page(va) / 512 && EntryNo(vb, 2) == Page(vb) / 512 by {
      AncStep(Page(va), 0);
      AncStep(Page(vb), 0);
    }
    if f == g {
      OneWay(s, owner, 1, EntryNo(va, 2), 1, EntryNo(vb, 2), f);
    }
  }

  // ----- the next mapped page -----

  /** Page `n` has a non-zero leaf entry. */
  predicate InUse(s: Pt, n: nat) {
    EntryAt(s, 1, n) != ZERO
  }

  /** The pointer and the value that the scans return of a leaf entry. */
  datatype Leaf = Leaf(p: nat, e: Pte)

  const NO_LEAF := Leaf(0, ZERO)

  /** A foreign pointer to the leaf slot of page `n`, and its entry. */
  ghost predicate LeafOf(s: Pt, n: nat, leaf: Leaf) {
    && leaf.p % 2 == 1 && Reached(s, 1, n / 512, PtepFrame(leaf.p)) && PtepIndex(leaf.p) == n % 512
    && leaf.e == EntryAt(s, 1, n)
  }

  /** A page in use under table (`l`, `p`), from index `off` of that table on. */
  ghost predicate Hit(s: Pt, l: nat, p: nat, off: nat, n: nat) {
    l >= 1 && Anc(n, l) == p && Anc(n, l - 1) >= p * 512 + off && InUse(s, n)
  }

  ghost predicate NoHit(s: Pt, l: nat, p: nat, off: nat) {
    forall n: nat :: !Hit(s, l, p, off, n)
  }

  ghost predicate LeastHit(s: Pt, l: nat, p: nat, off: nat, n: nat) {
    Hit(s, l, p, off, n) && forall m: nat :: Hit(s, l, p, off, m) ==> n <= m
  }

  /** No page in use is below an entry of the table before `i`. */
  ghost predicate Passed(s: Pt, l: nat, p: nat, off: nat, i: nat) {
    l >= 1 && forall n: nat :: Hit(s, l, p, off, n) ==> Anc(n, l - 1) >= p * 512 + i
  }

  lemma {:induction false} PassedStart(s: Pt, l: nat, p: nat, off: nat)
    requires l >= 1
    ensures Passed(s, l, p, off, off)
  {
  }

  lemma {:induction false} AncLess(n: nat, m: nat, k: nat)
    requires Anc(n, k) < Anc(m, k)
    ensures n < m
  {
    if m <= n {
      AncMono(m, n, k);
    }
  }

  /** Where entry `i` of the table leads nowhere, the scan goes on. */
  lemma {:induction false} ScanPast(s: Pt, l: nat, p: nat, i: nat, off: nat)
    requires 2 <= l <= 4 && off <= i
    requires Passed(s, l, p, off, i)
    requires Pointer(EntryAt(s, l, p * 512 + i)) ==> NoHit(s, l - 1, p * 512 + i, 0)
    ensures Passed(s, l, p, off, i + 1)
  {
    var q := p * 512 + i;
    forall n: nat | Hit(s, l, p, off, n) && Anc(n, l - 1) == q
      ensures false
    {
      AncStep(n, l - 2);
      if Pointer(EntryAt(s, l, q)) {
        assert Hit(s, l - 1, q, 0, n);
      } else {
        Barren(s, l, 1, n);
      }
    }
  }

  /** The least page in use below entry `i` is the least of the table when the entries before lead nowhere. */
  lemma {:induction false} ScanFound(s: Pt, l: nat, p: nat, i: nat, off: nat, n: nat)
    requires 2 <= l <= 4 && off <= i < 512
    requires Passed(s, l, p, off, i)
    requires LeastHit(s, l - 1, p * 512 + i, 0, n)
    ensures LeastHit(s, l, p, off, n)
  {
    var q := p * 512 + i;
    AncStep(n, l - 1);
    forall m: nat | Hit(s, l, p, off, m)
      ensures n <= m
    {
      if Anc(m, l - 1) == q {
        AncStep(m, l - 2);
        assert Hit(s, l - 1, q, 0, m);
      } else {
        AncLess(n, m, l - 1);
      }
    }
  }

  /** The scan is over: a table has 512 entries. */
  lemma {:induction false} ScanDone(s: Pt, l: nat, p: nat, off: nat)
    requires 1 <= l <= 4
    requires exists i :: i >= 512 && Passed(s, l, p, off, i)
    ensures NoHit(s, l, p, off)
  {
    forall n: nat
      ensures !Hit(s, l, p, off, n)
    {
      AncStep(n, l - 1);
    }
  }

  /** One offset for each of `l` levels. */
  predicate Offsets(offs: seq<nat>, l: nat) {
    |offs| == l && forall i :: 0 <= i < |offs| ==> offs[i] < 512
  }

  /** The page number that offsets stand for below prefix `p`. */
  function Number(p: nat, offs: seq<nat>): nat
    decreases |offs|
  {
    if offs == [] then p else Number(p * 512 + offs[0], offs[1..])
  }

  /** The pages that repeated calls of pt_umap_next give after page `n`, until UADDR_INVALID. */
  ghost predicate Enumeration(s: Pt, n: nat, pages: seq<nat>)
    decreases |pages|
  {
    if pages == [] then IsNext(s, n, None)
    else IsNext(s, n, Some(pages[0])) && Enumeration(s, pages[0], pages[1..])
  }

  /** Repeated calls give all later pages in use, in strictly increasing order. */
  lemma {:induction false} EnumerationComplete(s: Pt, n: nat, pages: seq<nat>)
    requires Enumeration(s, n, pages)
    ensures forall m: nat :: m in pages <==> m > n && InUse(s, m)
    ensures forall i, j :: 0 <= i < j < |pages| ==> pages[i] < pages[j]
    decreases |pages|
  {
    if pages != [] {
      var a, rest := pages[0], pages[1..];
      EnumerationComplete(s, a, rest);
      assert pages == [a] + rest;
      forall j | 0 < j < |pages|
        ensures a < pages[j]
      {
        assert pages[j] in rest;
      }
    }
  }

  /** The calls come to an end. */
  lemma {:induction false} EnumerationEnds(s: Pt, n: nat) returns (pages: seq<nat>)
    requires |s.root| == UMAP_L4PTES
    ensures Enumeration(s, n, pages)
    decreases if n < USER_PAGES then USER_PAGES - n else 0
  {
    hide EntryAt;
    forall m: nat | InUse(s, m)
      ensures m < USER_PAGES
    {
      UserPage(s, m);
    }
    if n >= USER_PAGES {
      return [];
    }
    var rest := EnumerationEnds(s, n + 1);
    if InUse(s, n + 1) {
      return [n + 1] + rest;
    }
    return rest;
  }

  const USER_PAGES := 0x4000_0000

  lemma {:induction false} UserPage(s: Pt, m: nat)
    requires |s.root| == UMAP_L4PTES && InUse(s, m)
    ensures m < USER_PAGES
  {
    Barren(s, 4, 1, m);
    assert Anc(m, 3) < 8;
    AncStep(m, 0);
    AncStep(m, 1);
    AncStep(m, 2);
  }

  // ----- freeing the tables -----

  /** The place is in the subtree of table (`l`, `p`). */
  ghost predicate Under(t: Place, l: nat, p: nat) {
    t.level <= l && Anc(t.prefix, l - t.level) == p
  }

  /** The place is below one of the first `i` entries of table (`l`, `p`). */
  ghost predicate UnderFirst(t: Place, l: nat, p: nat, i: nat) {
    t.level < l && Anc(t.prefix, l - t.level) == p && Anc(t.prefix, l - 1 - t.level) < p * 512 + i
  }

  /** Table `t` is below table `u`. */
  ghost predicate Below(t: Place, u: Place) {
    t.level < u.level && Anc(t.prefix, u.level - t.level) == u.prefix
  }

  /** No table comes before one that is below it. */
  ghost predicate BottomUp(x: seq<nat>, owner: map<nat, Place>) {
    forall i, j :: 0 <= i < j < |x| && x[i] in owner && x[j] in owner ==> !Below(owner[x[j]], owner[x[i]])
  }

  /** `x` lists the tables in the subtree of (`l`, `p`), each once, from the bottom up. */
  ghost predicate ListsUnder(x: seq<nat>, owner: map<nat, Place>, l: nat, p: nat) {
    NoDup(x) && BottomUp(x, owner) && forall g :: g in x <==> g in owner && Under(owner[g], l, p)
  }

  ghost predicate ListsFirst(x: seq<nat>, owner: map<nat, Place>, l: nat, p: nat, i: nat) {
    NoDup(x) && BottomUp(x, owner) && forall g :: g in x <==> g in owner && UnderFirst(owner[g], l, p, i)
  }

  lemma {:induction false} ListsNone(owner: map<nat, Place>, l: nat, p: nat)
    ensures ListsFirst([], owner, l, p, 0)
  {
    forall g | g in owner
      ensures !UnderFirst(owner[g], l, p, 0)
    {
      if owner[g].level < l {
        AncStep(owner[g].prefix, l - 1 - owner[g].level);
      }
    }
  }

  lemma {:induction false} ListsMore(x: seq<nat>, y: seq<nat>, owner: map<nat, Place>, l: nat, p: nat, i: nat)
    requires l >= 1 && i < 512 && ListsFirst(x, owner, l, p, i) && ListsUnder(y, owner, l - 1, p * 512 + i)
    ensures ListsFirst(x + y, owner, l, p, i + 1)
  {
    forall g | g in owner
      ensures UnderFirst(owner[g], l, p, i + 1) <==> UnderFirst(owner[g], l, p, i) || Under(owner[g], l - 1, p * 512 + i)
      ensures !(UnderFirst(owner[g], l, p, i) && Under(owner[g], l - 1, p * 512 + i))
    {
      if owner[g].level < l {
        AncStep(owner[g].prefix, l - 1 - owner[g].level);
      }
    }
    forall a, b | a in x && b in y
      ensures !Below(owner[b], owner[a])
    {
      ApartBelow(owner[b], owner[a], l, p, i);
    }
    DistinctConcat(x, y);
    BottomUpConcat(x, y, owner);
  }

  /** What is below one entry is not below a table under another. */
  lemma {:induction false} ApartBelow(t: Place, u: Place, l: nat, p: nat, i: nat)
    requires l >= 1 && UnderFirst(u, l, p, i) && Under(t, l - 1, p * 512 + i)
    ensures !Below(t, u)
  {
    if t.level < u.level {
      AncSum(t.prefix, u.level - t.level, l - 1 - u.level);
    }
  }

  lemma {:induction false} BottomUpConcat(x: seq<nat>, y: seq<nat>, owner: map<nat, Place>)
    requires BottomUp(x, owner) && BottomUp(y, owner)
    requires forall a, b :: a in x && b in y && a in owner && b in owner ==> !Below(owner[b], owner[a])
    ensures BottomUp(x + y, owner)
  {
    forall i, j | 0 <= i < j < |x + y| && (x + y)[i] in owner && (x + y)[j] in owner
      ensures !Below(owner[(x + y)[j]], owner[(x + y)[i]])
    {
      assert i < |x| <= j ==> x[i] in x && y[j - |x|] in y;
    }
  }

  lemma {:induction false} DistinctConcat(x: seq<nat>, y: seq<nat>)
    requires NoDup(x) && NoDup(y) && forall g :: g in x ==> g !in y
    ensures NoDup(x + y)
  {
    forall i, j | 0 <= i < j < |x + y|
      ensures (x + y)[i] != (x + y)[j]
    {
      assert i < |x| <= j ==> x[i] in x && y[j - |x|] in y;
    }
  }

  /** Below an absent entry there are no tables. */
  lemma {:induction false} ListsAbsent(s: Pt, owner: map<nat, Place>, l: nat, q: nat)
    requires Owned(s, owner) && 2 <= l <= 4 && !Pointer(EntryAt(s, l, q))
    ensures ListsUnder([], owner, l - 1, q)
  {
    forall g | g in owner && Under(owner[g], l - 1, q)
      ensures false
    {
      var t := owner[g];
      assert Reached(s, t.level, t.prefix, g);
      if t.level + 1 < l {
        Barren(s, l, t.level + 1, t.prefix);
      }
    }
  }

  /** A table comes after all tables below it. */
  lemma {:induction false} ListsTable(s: Pt, owner: map<nat, Place>, x: seq<nat>, l: nat, p: nat, f: nat)
    requires Owned(s, owner) && Reached(s, l, p, f)
    requires if l == 1 then x == [] else ListsFirst(x, owner, l, p, 512)
    ensures ListsUnder(x + [f], owner, l, p)
  {
    forall g | g in owner
      ensures Under(owner[g], l, p) <==> g == f || (l > 1 && UnderFirst(owner[g], l, p, 512))
    {
      var t := owner[g];
      assert Reached(s, t.level, t.prefix, g);
      if t.level < l {
        AncStep(t.prefix, l - 1 - t.level);
      }
    }
    DistinctConcat(x, [f]);
    BottomUpConcat(x, [f], owner);
  }

  /** All tables are below the user slots of the root. */
  lemma {:induction false} ListsAll(s: Pt, owner: map<nat, Place>, x: seq<nat>)
    requires Owned(s, owner) && |s.root| == UMAP_L4PTES && ListsFirst(x, owner, 4, 0, UMAP_L4PTES)
    ensures NoDup(x) && BottomUp(x, owner) && forall g :: g in x <==> g in owner
  {
    forall g | g in owner
      ensures UnderFirst(owner[g], 4, 0, UMAP_L4PTES)
    {
      var t := owner[g];
      assert Reached(s, t.level, t.prefix, g);
      if t.level < 3 {
        Barren(s, 4, t.level + 1, t.prefix);
      }
      AncStep(t.prefix, 3 - t.level);
    }
  }

  /** An extension keeps the slots in use, and table `i` is in use if the walk reaches it. */
  lemma {:induction false} SlotsKept(s: Pt, t: Pt, i: nat)
    requires Extends(s, t, true) && |s.root| == |t.root| == UMAP_L4PTES && s.hole == t.hole == UMAP_L4PTES && i < UMAP_L4PTES
    ensures forall j :: 0 <= j < UMAP_L4PTES && s.root[j].present ==> t.root[j].present
    ensures forall j :: 0 <= j < UMAP_L4PTES ==> t.root[j] == s.root[j] || NewTable(t.root[j], true)
    ensures Pointer(EntryAt(t, 4, i)) ==> t.root[i].present
  {
    assert forall j: nat :: EntryAt(t, 4, j) == EntryAt(s, 4, j) || NewTable(EntryAt(t, 4, j), true);
    assert forall j: nat :: j < UMAP_L4PTES ==> EntryAt(s, 4, j) == s.root[j] && EntryAt(t, 4, j) == t.root[j];
  }

  class Umap {
    const l4: array<Pte>
    /** The contents of all frames, and the frames that the frame allocator will hand out. */
    var mem: map<nat, Table>
    var pool: seq<nat>
    ghost var owner: map<nat, Place>

    ghost function Space(): Pt
      reads this, l4
    {
      Pt(l4[..], mem, UMAP_L4PTES)
    }

    /** The frames that are tables or can become tables. */
    ghost function Stock(): set<nat>
      reads this
    {
      owner.Keys + set f | f in pool
    }

    ghost predicate Valid()
      reads this, l4
    {
      l4.Length == UMAP_L4PTES && Owned(Space(), owner) && NoBig(Space()) && Spare(pool, owner)
    }

    /** hal_umap_init: a table for each slot, as long as there are frames; no page is in use. */
    constructor (frames: map<nat, Table>, spare: seq<nat>)
      requires NoDup(spare)
      ensures Valid() && Stock() == (set f | f in spare) && forall n: nat :: !InUse(Space(), n)
      ensures |spare| >= UMAP_L4PTES ==> forall i :: 0 <= i < UMAP_L4PTES ==> l4[i].present
      ensures forall i :: 0 <= i < UMAP_L4PTES && l4[i].present ==> NewTable(l4[i], true)
      ensures fresh(l4)
    {
      l4 := new Pte[UMAP_L4PTES](_ => ZERO);
      mem, pool, owner := frames, spare, map[];
      new;
      EmptyTables(Space());
      InitTables();
    }

    /** The loop of hal_umap_init. */
    method InitTables()
      requires Valid() && owner == map[] && (forall i :: 0 <= i < UMAP_L4PTES ==> l4[i] == ZERO)
      modifies this, l4
      ensures Valid() && Stock() == old(Stock()) && forall n: nat :: !InUse(Space(), n)
      ensures |old(pool)| >= UMAP_L4PTES ==> forall i :: 0 <= i < UMAP_L4PTES ==> l4[i].present
      ensures forall i :: 0 <= i < UMAP_L4PTES && l4[i].present ==> NewTable(l4[i], true)
    {
      hide Owned, Spare, NoBig, Extends, EntryAt;
      ghost var s := Space();
      EmptyTables(s);
      ExtendsSelf(s, true);
      for i := 0 to UMAP_L4PTES
        invariant Valid() && Stock() == old(Stock()) && Extends(s, Space(), true) && |pool| + i >= |old(pool)|
        invariant |old(pool)| >= UMAP_L4PTES ==> forall j :: 0 <= j < i ==> l4[j].present
        invariant forall j :: 0 <= j < UMAP_L4PTES && l4[j].present ==> NewTable(l4[j], true)
      {
        ghost var t := Space();
        var r := TableUnder(4, i, 0, true);
        ExtendsTransitive(s, t, Space(), true);
        SlotsKept(t, Space(), i);
      }
      forall n: nat
        ensures !InUse(Space(), n)
      {
        ExtendsTrans(s, Space(), true, n);
      }
    }

    /** alloc_table: a zero-filled frame, or nothing if there is none. */
    method AllocTable() returns (r: Pfn)
      requires Valid()
      modifies this`mem, this`pool
      ensures r == PfnInvalid <==> old(pool) == []
      ensures r == PfnInvalid ==> mem == old(mem) && pool == old(pool)
      ensures r.Frame? ==> r.pfn == old(pool)[0] && pool == old(pool)[1..] && mem == old(mem)[r.pfn := ZeroTable()]
    {
      if pool == [] {
        return PfnInvalid;
      }
      var f := pool[0];
      pool := pool[1..];
      mem := mem[f := ZeroTable()];
      return Frame(f);
    }

    /**
      The common part of get_umap_l3pfn, get_umap_l2pfn and get_umap_l1pfn: the table under entry
      `q` of level `l`, made if it is absent and `alloc` is set.  `t` is the table of that entry.
     */
    method TableUnder(l: nat, q: nat, t: nat, alloc: bool) returns (r: Pfn)
      requires Valid() && l >= 2 && Writable(Space(), l, q)
      requires l < 4 ==> EntryAt(Space(), l + 1, q / 512).pfn == t
      modifies this, l4
      ensures Valid() && Extends(old(Space()), Space(), true)
      ensures r.Frame? ==> Reached(Space(), l - 1, q, r.pfn)
      ensures r == PfnInvalid ==> pool == old(pool) && if alloc then pool == [] else !EntryAt(Space(), l, q).present
      ensures !alloc ==> Space() == old(Space()) && pool == old(pool) && owner == old(owner)
      ensures Stock() == old(Stock()) && |pool| + 1 >= |old(pool)|
    {
      hide WriteBit, UserBit;
      TableRights();
      ghost var s := Space();
      EntryStored(s, owner, l, q);
      var e := if l == 4 then l4[q] else mem[t][q % 512];
      if !e.present {
        if !alloc {
          return PfnInvalid;
        }
        var a := AllocTable();
        if a == PfnInvalid {
          return PfnInvalid;
        }
        var f := a.pfn;
        assert f in old(pool) && NoDup(pool) && f !in pool;
        AddTableStores(s, owner, l, q, f, TABLE_BITS);
        AddTableExtends(s, owner, l, q, f, TABLE_BITS);
        AddTableOwned(s, owner, l, q, f, TABLE_BITS);
        e := Pte(f, true, false, TABLE_BITS);
        if l == 4 {
          l4[q] := e;
        } else {
          mem := mem[t := mem[t][q % 512 := e]];
        }
        owner := owner[f := Place(l - 1, q)];
        assert Space() == AddTable(s, l, q, f, TABLE_BITS);
      }
      assert !e.big;
      return Frame(e.pfn);
    }

    /** get_umap_l3pfn */
    method GetL3Pfn(va: nat, alloc: bool) returns (r: Pfn)
      requires Valid() && Off(va, 4) < UMAP_L4PTES
      modifies this, l4
      ensures Walked(old(Space()), Space(), old(pool), alloc) && Stock() == old(Stock())
      ensures r.Frame? ==> Reached(Space(), 3, EntryNo(va, 4), r.pfn)
      ensures r == PfnInvalid ==> Stuck(va, 3, alloc)
      ensures |pool| + (if r.Frame? then 1 else 0) >= |old(pool)|
    {
      RootIndex(va);
      r := TableUnder(4, Off(va, 4), 0, alloc);
    }

    /** get_umap_l2pfn */
    method GetL2Pfn(va: nat, alloc: bool) returns (r: Pfn)
      requires Valid() && Off(va, 4) < UMAP_L4PTES
      modifies this, l4
      ensures Walked(old(Space()), Space(), old(pool), alloc) && Stock() == old(Stock())
      ensures r.Frame? ==> Reached(Space(), 2, EntryNo(va, 3), r.pfn)
      ensures r == PfnInvalid ==> Stuck(va, 2, alloc)
      ensures |pool| + (if r.Frame? then 2 else 1) >= |old(pool)|
    {
      r := GetL3Pfn(va, alloc);
      AncStep(Page(va), 2);
      if r == PfnInvalid {
        return;
      }
      ghost var s := Space();
      r := TableUnder(3, EntryNo(va, 3), r.pfn, alloc);
      ExtendsTransitive(old(Space()), s, Space(), true);
    }

    /** get_umap_l1pfn */
    method GetL1Pfn(va: nat, alloc: bool) returns (r: Pfn)
      requires Valid() && Off(va, 4) < UMAP_L4PTES
      modifies this, l4
      ensures Walked(old(Space()), Space(), old(pool), alloc) && Stock() == old(Stock())
      ensures r.Frame? ==> Reached(Space(), 1, EntryNo(va, 2), r.pfn)
      ensures r == PfnInvalid ==> Stuck(va, 1, alloc)
      ensures |pool| + (if r.Frame? then 3 else 2) >= |old(pool)|
    {
      r := GetL2Pfn(va, alloc);
      AncStep(Page(va), 1);
      if r == PfnInvalid {
        return;
      }
      ghost var s := Space();
      r := TableUnder(2, EntryNo(va, 2), r.pfn, alloc);
      ExtendsTransitive(old(Space()), s, Space(), true);
    }

    /** What a walk leaves: a valid space that extends the old one, the old one itself without `alloc`. */
    ghost predicate Walked(s: Pt, t: Pt, pool0: seq<nat>, alloc: bool)
      reads this, l4
    {
      Valid() && t == Space() && Extends(s, t, true) && (!alloc ==> t == s && pool == pool0)
    }

    /** Why there is no level-`l` table for `va`: no frame is left, or there never was one. */
    ghost predicate Stuck(va: nat, l: nat, alloc: bool)
      reads this, l4
    {
      1 <= l && if alloc then pool == [] else !Pointer(EntryAt(Space(), l + 1, EntryNo(va, l + 1)))
    }

    /**
      umap_get_l1p: a foreign pointer to the leaf slot of `va`.  Every translation and leaf stays, also
      when frames run out half way; three spare frames always suffice.
     */
    method GetL1p(va: nat, alloc: bool) returns (r: L1p)
      requires Valid() && Off(va, 4) < UMAP_L4PTES
      modifies this, l4
      ensures Valid() && Stock() == old(Stock()) && Extends(old(Space()), Space(), true)
      ensures forall n :: Trans(Space(), n) == old(Trans(Space(), n)) && EntryAt(Space(), 1, n) == old(EntryAt(Space(), 1, n))
      ensures !alloc ==> Space() == old(Space()) && pool == old(pool)
      ensures r.Ptep? ==>
                var f, index := PtepFrame(r.p), PtepIndex(r.p);
                && r.p % 2 == 1 && Reached(Space(), 1, EntryNo(va, 2), f) && index == Off(va, 1)
                && f in mem && index < |mem[f]| && mem[f][index] == EntryAt(Space(), 1, Page(va))
      ensures r == PtepInvalid ==> Stuck(va, 1, alloc) && (alloc ==> |old(pool)| < 3)
    {
      var f := GetL1Pfn(va, alloc);
      forall n: nat
        ensures Trans(Space(), n) == old(Trans(Space(), n)) && EntryAt(Space(), 1, n) == old(EntryAt(Space(), 1, n))
      {
        ExtendsTrans(old(Space()), Space(), true, n);
      }
      if f == PfnInvalid {
        return PtepInvalid;
      }
      LeafStored(va, f);
      ForeignPointer(f.pfn, Off(va, 1));
      return Ptep(MkptepFgn(f.pfn, Off(va, 1)));
    }

    lemma {:induction false} LeafStored(va: nat, r: Pfn)
      requires Valid()
      requires r.Frame? ==> Reached(Space(), 1, EntryNo(va, 2), r.pfn)
      ensures r.Frame? ==>
                && r.pfn in mem && Off(va, 1) < |mem[r.pfn]| && mem[r.pfn][Off(va, 1)] == EntryAt(Space(), 1, Page(va))
    {
      OffDigit(va, 1);
      AncStep(Page(va), 0);
    }

    /** scan_l1: the first non-zero entry of table `f` from `off` on. */
    method ScanL1(f: nat, ghost p: nat, off: nat) returns (found: bool, offs: seq<nat>, leaf: Leaf)
      requires Valid() && Reached(Space(), 1, p, f)
      ensures found ==> Offsets(offs, 1) && LeastHit(Space(), 1, p, off, Number(p, offs)) && LeafOf(Space(), Number(p, offs), leaf)
      ensures !found ==> NoHit(Space(), 1, p, off)
    {
      ghost var s := Space();
      var i := off;
      PassedStart(s, 1, p, off);
      hide Owned, Spare, NoBig, LeastHit, NoHit, Passed;
      while i < 512
        invariant off <= i && Passed(s, 1, p, off, i)
      {
        EntryStored(s, owner, 1, p * 512 + i);
        if mem[f][i] != ZERO {
          LeafFound(s, p, off, i);
          LeafPointer(s, p, f, i);
          return true, [i], Leaf(MkptepFgn(f, i), mem[f][i]);
        }
        LeafPast(s, p, off, i);
        i := i + 1;
      }
      ScanDone(s, 1, p, off);
      return false, [], NO_LEAF;
    }

    /** The table under entry `i`, if there is one. */
    method ScanEntry(l: nat, f: nat, ghost p: nat, i: nat) returns (found: bool, offs: seq<nat>, leaf: Leaf)
      requires Valid() && 2 <= l <= 3 && Reached(Space(), l, p, f) && i < 512
      ensures found ==> Offsets(offs, l - 1) && LeastHit(Space(), l - 1, p * 512 + i, 0, Number(p * 512 + i, offs))
      ensures found ==> LeafOf(Space(), Number(p * 512 + i, offs), leaf)
      ensures !found ==> Pointer(EntryAt(Space(), l, p * 512 + i)) ==> NoHit(Space(), l - 1, p * 512 + i, 0)
      decreases l, 0
    {
      hide LeastHit, NoHit, Spare, Number, Offsets, LeafOf;
      ghost var s := Space();
      EntryStored(s, owner, l, p * 512 + i);
      var e := mem[f][i];
      if !e.present {
        return false, [], NO_LEAF;
      }
      assert Reached(s, l - 1, p * 512 + i, e.pfn);
      if l == 2 {
        found, offs, leaf := ScanL1(e.pfn, p * 512 + i, 0);
      } else {
        found, offs, leaf := ScanUpper(l - 1, e.pfn, p * 512 + i, 0);
      }
    }

    /** scan_l2 and scan_l3, which are the same but for the level below. */
    method ScanUpper(l: nat, f: nat, ghost p: nat, off: nat) returns (found: bool, offs: seq<nat>, leaf: Leaf)
      requires Valid() && 2 <= l <= 3 && Reached(Space(), l, p, f)
      ensures found ==> Offsets(offs, l) && LeastHit(Space(), l, p, off, Number(p, offs)) && LeafOf(Space(), Number(p, offs), leaf)
      ensures !found ==> NoHit(Space(), l, p, off)
      decreases l, 1
    {
      ghost var s := Space();
      var i := off;
      PassedStart(s, l, p, off);
      hide Owned, Spare, LeastHit, NoHit, Passed;
      while i < 512
        invariant off <= i && Passed(s, l, p, off, i)
      {
        found, offs, leaf := ScanEntry(l, f, p, i);
        if found {
          ScanCons(s, l, p, i, off, offs);
          return true, [i] + offs, leaf;
        }
        ScanPast(s, l, p, i, off);
        i := i + 1;
      }
      ScanDone(s, l, p, off);
      return false, [], NO_LEAF;
    }

    /** scan_l4: the user slots of the root. */
    method ScanL4(off: nat) returns (found: bool, offs: seq<nat>, leaf: Leaf)
      requires Valid()
      ensures found ==> Offsets(offs, 4) && offs[0] < UMAP_L4PTES && LeastHit(Space(), 4, 0, off, Number(0, offs))
      ensures found ==> LeafOf(Space(), Number(0, offs), leaf)
      ensures !found ==> NoHit(Space(), 4, 0, off)
    {
      ghost var s := Space();
      var i := off;
      while i < UMAP_L4PTES
        invariant off <= i && Passed(s, 4, 0, off, i)
      {
        var e := l4[i];
        assert e == EntryAt(s, 4, 0 * 512 + i);
        if e.present {
          assert Reached(s, 3, 0 * 512 + i, e.pfn);
          found, offs, leaf := ScanUpper(3, e.pfn, 0 * 512 + i, 0);
          if found {
            ScanCons(s, 4, 0, i, off, offs);
            return true, [i] + offs, leaf;
          }
        }
        ScanPast(s, 4, 0, i, off);
        i := i + 1;
      }
      RootDone(s, off, i);
      return false, [], NO_LEAF;
    }

    ghost predicate Kept(s: Pt, pool0: seq<nat>)
      reads this, l4
    {
      Valid() && Space() == s && pool == pool0
    }

    /** The search of pt_umap_next in the rest of the level-`l` table of `va`, if there is such a table. */
    method ScanRest(l: nat, va: nat) returns (found: bool, offs: seq<nat>, leaf: Leaf)
      requires Valid() && Off(va, 4) < UMAP_L4PTES && 1 <= l <= 3
      modifies this, l4
      ensures Kept(old(Space()), old(pool))
      ensures found ==> RestFound(Space(), va, l, offs) && LeafOf(Space(), Number(TableNo(va, l), offs), leaf)
      ensures !found ==> RestEmpty(Space(), va, l)
    {
      hide Owned, Spare, NoBig, LeastHit, NoHit;
      var f;
      if l == 1 {
        f := GetL1Pfn(va, false);
      } else if l == 2 {
        f := GetL2Pfn(va, false);
      } else {
        f := GetL3Pfn(va, false);
      }
      assert Space() == old(Space());
      if f == PfnInvalid {
        NothingUnder(Space(), l, EntryNo(va, l + 1), Off(va, l) + 1);
        return false, [], NO_LEAF;
      }
      if l == 1 {
        found, offs, leaf := ScanL1(f.pfn, EntryNo(va, l + 1), Off(va, l) + 1);
      } else {
        found, offs, leaf := ScanUpper(l, f.pfn, EntryNo(va, l + 1), Off(va, l) + 1);
      }
    }

    /** pt_umap_next: the address of the next page with a non-zero leaf, with that leaf, or UADDR_INVALID if there is none. */
    method Next(va: nat) returns (r: Uaddr, l1: Leaf)
      requires Valid() && Off(va, 4) < UMAP_L4PTES
      modifies this, l4
      ensures Kept(old(Space()), old(pool))
      ensures IsNextAddress(Space(), va, r)
      ensures r.Uaddr? ==> LeafOf(Space(), r.a / 4096, l1)
    {
      ghost var s := Space();
      var found, offs, leaf := ScanRest(1, va);
      if found {
        NextHere(s, va, 1, offs);
        return Uaddr(AddressOf(va, 1, offs)), leaf;
      }
      found, offs, leaf := ScanRest(2, va);
      if found {
        NextHere(s, va, 2, offs);
        return Uaddr(AddressOf(va, 2, offs)), leaf;
      }
      found, offs, leaf := ScanRest(3, va);
      if found {
        NextHere(s, va, 3, offs);
        return Uaddr(AddressOf(va, 3, offs)), leaf;
      }
      found, offs, leaf := ScanL4(Off(va, 4) + 1);
      if found {
        NextHere(s, va, 4, offs);
        return Uaddr(AddressOf(va, 4, offs)), leaf;
      }
      NextNone(s, va);
      return UaddrInvalid, NO_LEAF;
    }

    /** The part of pt_umap_free for a level-`l` table: free the tables under it, then the table. */
    method FreeTable(ghost s: Pt, l: nat, ghost p: nat, f: nat) returns (ghost x: seq<nat>)
      requires Owned(s, owner) && NoBig(s) && s.mem == mem && Reached(s, l, p, f)
      modifies this`pool
      ensures pool == old(pool) + x && ListsUnder(x, owner, l, p)
      decreases l, 1
    {
      hide ListsUnder, ListsFirst, Owned, NoBig;
      x := [];
      if l > 1 {
        ListsNone(owner, l, p);
        for i := 0 to 512
          invariant pool == old(pool) + x && ListsFirst(x, owner, l, p, i)
        {
          ghost var y := FreeEntry(s, l, p, f, i);
          ListsMore(x, y, owner, l, p, i);
          x := x + y;
        }
      }
      ListsTable(s, owner, x, l, p, f);
      pool := pool + [f];
      x := x + [f];
    }

    /** The table under entry `i`, if there is one. */
    method FreeEntry(ghost s: Pt, l: nat, ghost p: nat, f: nat, i: nat) returns (ghost y: seq<nat>)
      requires Owned(s, owner) && NoBig(s) && s.mem == mem && l >= 2 && Reached(s, l, p, f) && i < 512
      modifies this`pool
      ensures pool == old(pool) + y && ListsUnder(y, owner, l - 1, p * 512 + i)
      decreases l, 0
    {
      EntryStored(s, owner, l, p * 512 + i);
      var e := mem[f][i];
      if e.present {
        y := FreeTable(s, l - 1, p * 512 + i, e.pfn);
      } else {
        ListsAbsent(s, owner, l, p * 512 + i);
        y := [];
      }
    }

    /** pt_umap_free: every table goes back to the allocator, each once and after all tables below it, and no other frame does. */
    method Free() returns (ghost x: seq<nat>)
      requires Valid()
      modifies this`pool, this`owner, l4
      ensures Valid() && owner == map[] && forall i :: 0 <= i < UMAP_L4PTES ==> l4[i] == ZERO
      ensures pool == old(pool) + x && NoDup(x) && BottomUp(x, old(owner)) && forall f :: f in x <==> f in old(owner)
    {
      hide ListsUnder, ListsFirst, Owned, BottomUp;
      ghost var s := Space();
      x := [];
      ListsNone(owner, 4, 0);
      for i := 0 to UMAP_L4PTES
        invariant pool == old(pool) + x && ListsFirst(x, owner, 4, 0, i) && owner == old(owner)
        invariant forall j :: 0 <= j < UMAP_L4PTES ==> l4[j] == if j < i then ZERO else s.root[j]
      {
        var e := l4[i];
        assert e == EntryAt(s, 4, 0 * 512 + i);
        if e.present {
          ghost var y := FreeTable(s, 3, 0 * 512 + i, e.pfn);
          ListsMore(x, y, owner, 4, 0, i);
          x := x + y;
        } else {
          ListsAbsent(s, owner, 4, 0 * 512 + i);
          ListsMore(x, [], owner, 4, 0, i);
          assert x + [] == x;
        }
        l4[i] := ZERO;
      }
      ListsAll(s, owner, x);
      DistinctConcat(old(pool), x);
      owner := map[];
      EmptyTables(Space());
    }
  }

  /** mkaddr of the upper offsets of `va` and the offsets found for level `l` and below. */
  function AddressOf(va: nat, l: nat, offs: seq<nat>): nat
    requires 1 <= l <= |offs|
  {
    Mkaddr(if l < 4 then Off(va, 4) else offs[0], if l < 3 then Off(va, 3) else offs[l - 3],
           if l < 2 then Off(va, 2) else offs[l - 2], offs[l - 1])
  }

  /** `r` is the page-aligned user address of the first page in use after the page of `va`. */
  ghost predicate IsNextAddress(s: Pt, va: nat, r: Uaddr) {
    match r
    case UaddrInvalid => IsNext(s, Page(va), None)
    case Uaddr(a) => a % 4096 == 0 && a < 0x400_0000_0000 && IsNext(s, Page(va), Some(a / 4096))
  }

  datatype Uaddr = Uaddr(a: nat) | UaddrInvalid

  lemma {:induction false} NothingUnder(s: Pt, l: nat, p: nat, off: nat)
    requires 1 <= l <= 3 && !Pointer(EntryAt(s, l + 1, p))
    ensures NoHit(s, l, p, off)
  {
    forall n: nat
      ensures !Hit(s, l, p, off, n)
    {
      Barren(s, l + 1, 1, n);
    }
  }

  lemma {:induction false} ScanCons(s: Pt, l: nat, p: nat, i: nat, off: nat, offs: seq<nat>)
    requires 2 <= l <= 4 && off <= i < 512 && Passed(s, l, p, off, i)
    requires Offsets(offs, l - 1) && LeastHit(s, l - 1, p * 512 + i, 0, Number(p * 512 + i, offs))
    ensures Offsets([i] + offs, l) && LeastHit(s, l, p, off, Number(p, [i] + offs))
    ensures Number(p, [i] + offs) == Number(p * 512 + i, offs)
  {
    assert ([i] + offs)[1..] == offs;
    ScanFound(s, l, p, i, off, Number(p * 512 + i, offs));
  }

  /** Beyond the user slots of the root there is nothing. */
  lemma {:induction false} RootDone(s: Pt, off: nat, i: nat)
    requires |s.root| == UMAP_L4PTES <= i && Passed(s, 4, 0, off, i)
    ensures NoHit(s, 4, 0, off)
  {
    forall n: nat | Hit(s, 4, 0, off, n)
      ensures false
    {
      Barren(s, 4, 1, n);
    }
  }

  /** The page after `n`, if there is one. */
  ghost predicate IsNext(s: Pt, n: nat, r: Option) {
    match r
    case None => forall m: nat :: m > n ==> !InUse(s, m)
    case Some(a) => a > n && InUse(s, a) && forall m: nat :: m > n && InUse(s, m) ==> a <= m
  }

  datatype Option = None | Some(page: nat)

  /** The number of the level-`l` table of `va`. */
  function TableNo(va: nat, l: nat): nat {
    if l >= 4 then 0 else EntryNo(va, l + 1)
  }

  /** A page in use in what is left of the level-`l` table after `va`. */
  ghost predicate RestHit(s: Pt, va: nat, l: nat, m: nat)
    requires l >= 1
  {
    Hit(s, l, TableNo(va, l), Off(va, l) + 1, m)
  }

  lemma {:induction false} RestIs(va: nat, l: nat)
    requires 1 <= l <= 4
    ensures TableNo(va, l) * 512 + Off(va, l) == Anc(Page(va), l - 1)
  {
    OffDigit(va, l);
    AncStep(Page(va), l - 1);
    RootIndex(va);
  }

  lemma {:induction false} AncSame(n: nat, m: nat, k: nat, l: nat)
    requires k <= l && Anc(n, k) == Anc(m, k)
    ensures Anc(n, l) == Anc(m, l)
    decreases l
  {
    if k < l {
      AncSame(n, m, k, l - 1);
      AncStep(n, l - 1);
      AncStep(m, l - 1);
    }
  }

  /** A later page in use lies in the rest of the table of `va` at the first level where they share a table. */
  lemma {:induction false} RestLevel(s: Pt, va: nat, m: nat) returns (l: nat)
    requires Page(va) < m && InUse(s, m) && |s.root| == UMAP_L4PTES
    ensures 1 <= l <= 4 && RestHit(s, va, l, m)
  {
    var n := Page(va);
    l := 4;
    if Anc(m, 1) == Anc(n, 1) {
      l := 1;
    } else if Anc(m, 2) == Anc(n, 2) {
      l := 2;
    } else if Anc(m, 3) == Anc(n, 3) {
      l := 3;
    } else {
      Barren(s, 4, 1, m);
      AncStep(m, 3);
    }
    AncMono(n, m, l - 1);
    RestIs(va, l);
    if l < 4 {
      AncStep(n, l - 1);
    }
  }

  /** Rests of lower levels come first. */
  lemma {:induction false} RestOrder(s: Pt, va: nat, l: nat, a: nat, k: nat, m: nat)
    requires 1 <= l < k <= 4 && RestHit(s, va, l, a) && RestHit(s, va, k, m)
    ensures a < m
  {
    AncSame(a, Page(va), l, k - 1);
    RestIs(va, k);
    AncLess(a, m, k - 1);
  }

  /** What is left of the level-`l` table of `va` has no page in use. */
  ghost predicate RestEmpty(s: Pt, va: nat, l: nat)
    requires l >= 1
  {
    NoHit(s, l, TableNo(va, l), Off(va, l) + 1)
  }

  /** `offs` is the first page in use of that rest. */
  ghost predicate RestFound(s: Pt, va: nat, l: nat, offs: seq<nat>)
    requires l >= 1
  {
    var p := TableNo(va, l);
    Offsets(offs, l) && (l == 4 ==> offs[0] < UMAP_L4PTES) && LeastHit(s, l, p, Off(va, l) + 1, Number(p, offs))
  }

  lemma {:induction false} NextHere(s: Pt, va: nat, l: nat, offs: seq<nat>)
    requires 1 <= l <= 4 && |s.root| == UMAP_L4PTES && Off(va, 4) < UMAP_L4PTES
    requires RestFound(s, va, l, offs)
    requires (l > 1 ==> RestEmpty(s, va, 1)) && (l > 2 ==> RestEmpty(s, va, 2)) && (l > 3 ==> RestEmpty(s, va, 3))
    ensures IsNextAddress(s, va, Uaddr(AddressOf(va, l, offs)))
    ensures AddressOf(va, l, offs) / 4096 == Number(TableNo(va, l), offs)
  {
    NextPage(s, va, l, offs);
    AddressAt(va, l, offs);
    hide *;
    NextAddress(s, va, Number(TableNo(va, l), offs), AddressOf(va, l, offs));
  }

  lemma {:induction false} NextAddress(s: Pt, va: nat, n: nat, a: nat)
    requires IsNext(s, Page(va), Some(n)) && a == 4096 * n < 0x400_0000_0000
    ensures IsNextAddress(s, va, Uaddr(a)) && a / 4096 == n
  {
    assert a % 4096 == 0 && a / 4096 == n;
  }

  lemma {:induction false} NextPage(s: Pt, va: nat, l: nat, offs: seq<nat>)
    requires 1 <= l <= 4 && |s.root| == UMAP_L4PTES
    requires RestFound(s, va, l, offs)
    requires (l > 1 ==> RestEmpty(s, va, 1)) && (l > 2 ==> RestEmpty(s, va, 2)) && (l > 3 ==> RestEmpty(s, va, 3))
    ensures IsNext(s, Page(va), Some(Number(TableNo(va, l), offs)))
  {
    hide EntryAt, Number, Off, EntryNo;
    var a := Number(TableNo(va, l), offs);
    assert RestHit(s, va, l, a);
    RestIs(va, l);
    AncLess(Page(va), a, l - 1);
    forall m: nat | m > Page(va) && InUse(s, m)
      ensures a <= m
    {
      var k := RestLevel(s, va, m);
      if l < k {
        RestOrder(s, va, l, a, k, m);
      }
    }
  }

  lemma {:induction false} NextNone(s: Pt, va: nat)
    requires |s.root| == UMAP_L4PTES
    requires RestEmpty(s, va, 1) && RestEmpty(s, va, 2) && RestEmpty(s, va, 3) && RestEmpty(s, va, 4)
    ensures IsNextAddress(s, va, UaddrInvalid)
  {
    forall m: nat | m > Page(va)
      ensures !InUse(s, m)
    {
      if InUse(s, m) {
        var k := RestLevel(s, va, m);
      }
    }
  }

  /** mkaddr puts the offsets together into the address of the page. */
  lemma {:induction false} AddressAt(va: nat, l: nat, offs: seq<nat>)
    requires 1 <= l <= 4 && Offsets(offs, l) && Off(va, 4) < UMAP_L4PTES
    requires l == 4 ==> offs[0] < UMAP_L4PTES
    ensures var a := AddressOf(va, l, offs);
            a == 4096 * Number(TableNo(va, l), offs) && a < 0x400_0000_0000
  {
    RootIndex(va);
    OffDigit(va, 3);
    OffDigit(va, 2);
    AncStep(Page(va), 1);
    AncStep(Page(va), 2);
    var d4 := if l < 4 then Off(va, 4) else offs[0];
    var d3 := if l < 3 then Off(va, 3) else offs[l - 3];
    var d2 := if l < 2 then Off(va, 2) else offs[l - 2];
    UserAddress(d4, d3, d2, offs[l - 1]);
    NumberAll(TableNo(va, l), offs);
  }

  lemma {:induction false} UserAddress(l4: nat, l3: nat, l2: nat, l1: nat)
    requires l4 < UMAP_L4PTES && l3 < 512 && l2 < 512 && l1 < 512
    ensures var n := ((l4 * 512 + l3) * 512 + l2) * 512 + l1;
            Mkaddr(l4, l3, l2, l1) == 4096 * n < 0x400_0000_0000
  {
  }

  lemma {:induction false} NumberAll(p: nat, offs: seq<nat>)
    requires 1 <= |offs| <= 4
    ensures |offs| == 1 ==> Number(p, offs) == p * 512 + offs[0]
    ensures |offs| == 2 ==> Number(p, offs) == (p * 512 + offs[0]) * 512 + offs[1]
    ensures |offs| == 3 ==> Number(p, offs) == ((p * 512 + offs[0]) * 512 + offs[1]) * 512 + offs[2]
    ensures |offs| == 4 ==> Number(p, offs) == (((p * 512 + offs[0]) * 512 + offs[1]) * 512 + offs[2]) * 512 + offs[3]
    decreases offs
  {
    if |offs| > 1 {
      NumberAll(p * 512 + offs[0], offs[1..]);
    } else {
      assert offs[1..] == [];
    }
  }

  lemma {:induction false} LeafFound(s: Pt, p: nat, off: nat, i: nat)
    requires off <= i < 512 && Passed(s, 1, p, off, i) && InUse(s, p * 512 + i)
    ensures LeastHit(s, 1, p, off, Number(p, [i]))
  {
    assert Number(p, [i]) == p * 512 + i;
    AncStep(p * 512 + i, 0);
    assert Hit(s, 1, p, off, p * 512 + i);
  }

  lemma {:induction false} InTable(p: nat, i: nat)
    requires i < 512
    ensures (p * 512 + i) / 512 == p && (p * 512 + i) % 512 == i
  {
  }

  lemma {:induction false} LeafPointer(s: Pt, p: nat, f: nat, i: nat)
    requires i < 512 && Reached(s, 1, p, f)
    ensures LeafOf(s, Number(p, [i]), Leaf(MkptepFgn(f, i), EntryAt(s, 1, p * 512 + i)))
  {
    hide MkptepFgn, PtepFrame, PtepIndex, EntryAt;
    assert Number(p, [i]) == p * 512 + i;
    ForeignPointer(f, i);
    InTable(p, i);
  }

  lemma {:induction false} LeafPast(s: Pt, p: nat, off: nat, i: nat)
    requires Passed(s, 1, p, off, i) && !InUse(s, p * 512 + i)
    ensures Passed(s, 1, p, off, i + 1)
  {
  }
}
