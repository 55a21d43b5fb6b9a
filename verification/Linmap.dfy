/**
  The page tables of the current address space, changed through the linear window itself:
  linmap_get_l4p to linmap_get_l1p of libhal_x86/amd64/pae64.c, which serve kernel mappings and user
  maps that are loaded.  Every access to an entry goes through the hardware walk of its pointer.
 */
module Linmap {
  import opened Lists
  import opened PageTree
  import opened SelfMap

  datatype Ptr = Ptr(p: nat) | PtrInvalid

  /** Outside the slot of the window the walk does not care about the slot. */
  lemma {:induction false} OutsideWindow(root: Table, mem: map<nat, Table>, slot: nat, m: nat, r: nat)
    requires 1 <= m <= 4 && |root| == 512 && slot < 512 && Anc(r, 4 - m) != slot
    ensures EntryAt(Pt(root, mem, 512), m, r) == EntryAt(Pt(root, mem, slot), m, r)
    decreases 4 - m
  {
    if m < 4 {
      OutsideWindow(root, mem, slot, m + 1, r / 512);
    }
  }

  lemma {:induction false} OutsideTrans(root: Table, mem: map<nat, Table>, slot: nat, n: nat)
    requires |root| == 512 && slot < 512 && Anc(n, 3) != slot
    ensures Trans(Pt(root, mem, 512), n) == Trans(Pt(root, mem, slot), n)
  {
    AncStep(n, 0);
    AncStep(n, 1);
    OutsideWindow(root, mem, slot, 1, n);
    OutsideWindow(root, mem, slot, 2, n / 512);
    OutsideWindow(root, mem, slot, 3, n / 512 / 512);
  }

  /** On the way to the leaf of `va` there is no large page. */
  ghost predicate SmallPath(s: Pt, va: nat) {
    forall l :: 2 <= l <= 4 && EntryAt(s, l, EntryNo(va, l)).present ==> Pointer(EntryAt(s, l, EntryNo(va, l)))
  }

  lemma {:induction false} SmallPathKept(s: Pt, t: Pt, user: bool, va: nat)
    requires Extends(s, t, user) && SmallPath(s, va)
    ensures SmallPath(t, va)
    ensures forall l :: 2 <= l <= 4 && Pointer(EntryAt(s, l, EntryNo(va, l))) ==> Pointer(EntryAt(t, l, EntryNo(va, l)))
  {
    forall l | 2 <= l <= 4
      ensures EntryAt(t, l, EntryNo(va, l)) == EntryAt(s, l, EntryNo(va, l)) || Pointer(EntryAt(t, l, EntryNo(va, l)))
    {
    }
  }

  /** A frame that is no table may be written. */
  lemma {:induction false} SpareExtends(s: Pt, owner: map<nat, Place>, f: nat, t: Table, user: bool)
    requires Owned(s, owner) && f !in owner
    ensures Extends(s, Pt(s.root, s.mem[f := t], s.hole), user)
  {
    forall m: nat, r: nat | 1 <= m <= 4
      ensures EntryAt(Pt(s.root, s.mem[f := t], s.hole), m, r) == EntryAt(s, m, r)
    {
      SpareFrame(s, owner, f, t, m, r);
    }
  }

  /**
    Clearing frame `f` and storing its entry in table `t` of memory, where the root `cr3` is such a
    table too: the new memory holds the old space with one more table.
   */
  lemma {:induction false} Linked(s: Pt, owner: map<nat, Place>, cr3: nat, l: nat, q: nat, f: nat, bits: nat, t: nat)
    requires WriteBit(bits)
    requires Owned(s, owner) && Writable(s, l, q) && l >= 2 && f !in owner && !EntryAt(s, l, q).present
    requires f != cr3 && cr3 !in owner && cr3 in s.mem && s.root == s.mem[cr3] && |s.root| == 512
    requires t == if l == 4 then cr3 else EntryAt(s, l + 1, q / 512).pfn
    ensures t in s.mem && |s.mem[t]| == 512 && t != f && (l < 4 ==> t != cr3)
    ensures var e := Pte(f, true, false, bits);
            var mem := s.mem[f := ZeroTable()][t := s.mem[t][q % 512 := e]];
            var s' := Pt(mem[cr3], mem, s.hole);
            Owned(s', owner[f := Place(l - 1, q)]) && Extends(s, s', UserBit(bits)) && EntryAt(s', l, q) == e
  {
    var e := Pte(f, true, false, bits);
    var a := AddTable(s, l, q, f, bits);
    AddTableStores(s, owner, l, q, f, bits);
    AddTableOwned(s, owner, l, q, f, bits);
    AddTableExtends(s, owner, l, q, f, bits);
    if l == 4 {
      var own := owner[f := Place(l - 1, q)];
      SpareOwned(a, own, cr3, a.root);
      SpareExtends(a, own, cr3, a.root, UserBit(bits));
      SpareFrame(a, own, cr3, a.root, 4, q);
      ExtendsTransitive(s, a, Pt(a.root, a.mem[cr3 := a.root], a.hole), UserBit(bits));
    } else {
      assert Reached(s, l, q / 512, t);
    }
  }

  /** User mode may reach page `n`, and it may be written, as before. */
  ghost predicate SameRights(s: Pt, t: Pt, n: nat) {
    (UserMay(t, n) <==> UserMay(s, n)) && (MayWrite(t, n) <==> MayWrite(s, n))
  }

  /** What a leaf entry means to the walk. */
  function LeafTrans(e: Pte): Phys {
    if e.present then Mapped(e.pfn) else Unmapped
  }

  /** Storing a leaf changes the translation of its page and of no other. */
  lemma {:induction false} LeafStore(s: Pt, owner: map<nat, Place>, q: nat, e: Pte, n: nat)
    requires Owned(s, owner) && Writable(s, 1, q)
    requires Pointer(EntryAt(s, 2, q / 512)) && Pointer(EntryAt(s, 3, q / 512 / 512))
    ensures Trans(SetEntry(s, 1, q, e), n) == if n == q then LeafTrans(e) else Trans(s, n)
  {
    SetEntryFrame(s, owner, 1, q, e, 1, n);
    SetEntryFrame(s, owner, 1, q, e, 2, n / 512);
    SetEntryFrame(s, owner, 1, q, e, 3, n / 512 / 512);
  }

  /**
    The law of the walk after a leaf was stored for page `q`: user mode may reach it exactly when the
    leaf and every table above let it, tables made for it counting as `user`; it may be written exactly
    when the leaf and the tables that were there let it; all other pages outside the window as before.
   */
  ghost predicate RightsStored(s: Pt, h: Pt, t: Pt, user: bool, q: nat, e: Pte) {
    && (UserMay(t, q) <==> UserEntry(e) && UserPath(s, q, user))
    && (MayWrite(t, q) <==> WriteEntry(e) && WritePath(s, q))
    && forall n: nat :: Anc(n, 3) != s.hole && n != q ==> SameRights(h, t, n)
  }

  lemma {:induction false} RightsOutside(s: Pt, t: Pt, owner: map<nat, Place>, user: bool, q: nat, e: Pte, slot: nat)
    requires Extends(s, t, user) && Owned(t, owner) && Writable(t, 1, q) && slot < 512 && s.hole == slot == t.hole
    requires |s.root| == |t.root| == 512 && Anc(q, 3) != slot
    ensures var u := SetEntry(t, 1, q, e);
            RightsStored(s, Pt(s.root, s.mem, 512), Pt(u.root, u.mem, 512), user, q, e)
  {
    var u := SetEntry(t, 1, q, e);
    LeafRights(s, t, owner, user, q, e, q);
    OutsideRights(u.root, u.mem, slot, q);
    hide UserMay, MayWrite, UserPath, WritePath, UserEntry, WriteEntry, Extends, Owned;
    forall n: nat | Anc(n, 3) != slot && n != q
      ensures SameRights(Pt(s.root, s.mem, 512), Pt(u.root, u.mem, 512), n)
    {
      LeafRights(s, t, owner, user, q, e, n);
      OutsideRights(u.root, u.mem, slot, n);
      OutsideRights(s.root, s.mem, slot, n);
    }
  }

  class LinearMap {
    const cr3: nat
    const slot: nat
    /** The contents of all frames, and the frames that the frame allocator will hand out. */
    var mem: map<nat, Table>
    var pool: seq<nat>
    ghost var owner: map<nat, Place>

    /** What the hardware walks: the loaded root with the self-reference in it. */
    ghost function Hardware(): Pt
      reads this
    {
      Pt(TableOf(mem, cr3), mem, 512)
    }

    /** The address space outside the window. */
    ghost function Space(): Pt
      reads this
    {
      Pt(TableOf(mem, cr3), mem, slot)
    }

    ghost predicate Valid()
      reads this
    {
      && slot < 512 && cr3 in mem && |mem[cr3]| == 512
      && Pointer(mem[cr3][slot]) && mem[cr3][slot].pfn == cr3
      && Owned(Space(), owner) && cr3 !in owner && Spare(pool, owner) && cr3 !in pool
    }

    /** A root with nothing but the self-reference. */
    constructor (cr3: nat, slot: nat, frames: map<nat, Table>, spare: seq<nat>)
      requires slot < 512 && NoDup(spare) && cr3 !in spare
      ensures Valid() && this.cr3 == cr3 && this.slot == slot && pool == spare
      ensures forall n: nat :: Anc(n, 3) != slot ==> Trans(Hardware(), n) == Unmapped
    {
      this.cr3, this.slot := cr3, slot;
      mem := frames[cr3 := seq(512, i => if i == slot then Pte(cr3, true, false, KERNEL_BITS) else ZERO)];
      pool, owner := spare, map[];
      new;
      EmptyTables(Space());
      forall n: nat | Anc(n, 3) != slot
        ensures Trans(Hardware(), n) == Unmapped
      {
        OutsideTrans(mem[cr3], mem, slot, n);
      }
    }

    /** The memory word at a virtual address: no page fault, and inside a frame. */
    ghost predicate Backed(w: nat, f: nat, i: nat)
      reads this
    {
      Trans(Hardware(), Page(w)) == Mapped(f) && f in mem && i < |mem[f]| && w % 4096 == 8 * i
    }

    /** get_pte of a pointer that is not foreign: the load goes where the hardware walk leads. */
    method GetPte(w: nat, ghost f: nat, ghost i: nat) returns (e: Pte)
      requires Backed(w, f, i)
      ensures e == mem[f][i]
    {
      e := mem[Walk(w)][w % 4096 / 8];
    }

    /** set_pte of such a pointer. */
    method SetPte(w: nat, e: Pte, ghost f: nat, ghost i: nat)
      requires Backed(w, f, i)
      modifies this`mem
      ensures f in old(mem) && mem == old(mem)[f := old(mem)[f][i := e]]
    {
      var g := Walk(w);
      mem := mem[g := mem[g][w % 4096 / 8 := e]];
    }

    /** The frame that the hardware walk finds. */
    function Walk(w: nat): (f: nat)
      requires Trans(Pt(TableOf(mem, cr3), mem, 512), Page(w)).Mapped?
      reads this
    {
      Trans(Pt(TableOf(mem, cr3), mem, 512), Page(w)).frame
    }

    /** The pointer of level `l` reaches the entry of `va`, if the tables above it are there. */
    lemma {:induction false} PtrLands(va: nat, l: nat)
      requires Valid() && Off(va, 4) != slot && 1 <= l <= 4
      requires l < 4 ==> Pointer(EntryAt(Space(), l + 1, EntryNo(va, l + 1)))
      ensures var f := TableFrame(Space(), cr3, va, l);
              && Backed(LinmapPtr(slot, va, l), f, Off(va, l)) && |mem[f]| == 512
              && mem[f][Off(va, l)] == EntryAt(Space(), l, EntryNo(va, l))
              && (l < 4 ==> Reached(Space(), l, EntryNo(va, l + 1), f) && f in owner)
    {
      var h := Hardware();
      assert SelfMapped(h, cr3, slot);
      OnPath(va, l);
      if l < 4 {
        OnPath(va, l + 1);
        assert Reached(Space(), l, EntryNo(va, l + 1), EntryAt(Space(), l + 1, EntryNo(va, l + 1)).pfn);
      }
      LinmapLands(h, cr3, slot, va, l);
      OffDigit(va, l);
    }

    lemma {:induction false} OnPath(va: nat, l: nat)
      requires Valid() && Off(va, 4) != slot && 1 <= l <= 4
      ensures EntryAt(Hardware(), l, EntryNo(va, l)) == EntryAt(Space(), l, EntryNo(va, l))
    {
      RootIndex(va);
      AncSum(Page(va), l - 1, 4 - l);
      OutsideWindow(mem[cr3], mem, slot, l, EntryNo(va, l));
    }

    /**
      The common part of linmap_get_l3p, linmap_get_l2p and linmap_get_l1p: the table under the
      level-`l` entry of `va`, made if it is absent and `alloc` is set.
     */
    method TableUnder(va: nat, l: nat, alloc: bool, user: bool) returns (ok: bool)
      requires Valid() && Off(va, 4) != slot && 2 <= l <= 4 && SmallPath(Space(), va)
      requires l < 4 ==> Pointer(EntryAt(Space(), l + 1, EntryNo(va, l + 1)))
      modifies this
      ensures Valid() && Extends(old(Space()), Space(), user) && SmallPath(Space(), va)
      ensures ok ==> Pointer(EntryAt(Space(), l, EntryNo(va, l)))
      ensures !ok ==> mem == old(mem) && pool == old(pool)
      ensures !ok ==> if alloc then pool == [] else !EntryAt(Space(), l, EntryNo(va, l)).present
      ensures !alloc ==> mem == old(mem) && pool == old(pool)
      ensures |pool| + 1 >= |old(pool)|
    {
      hide Owned, LinmapPtr;
      PtrLands(va, l);
      ghost var t := TableFrame(Space(), cr3, va, l);
      var w := LinmapPtr(slot, va, l);
      var e := GetPte(w, t, Off(va, l));
      if e.present {
        return true;
      }
      if !alloc || pool == [] {
        return false;
      }
      var f := pool[0];
      ghost var s, q := Space(), EntryNo(va, l);
      PathWritable(va, l);
      var bits := TableBits(user);
      Linked(s, owner, cr3, l, q, f, bits, t);
      SpareOwned(s, owner, f, ZeroTable());
      SpareExtends(s, owner, f, ZeroTable(), user);
      if l < 4 {
        SpareFrame(s, owner, f, ZeroTable(), l + 1, EntryNo(va, l + 1));
      }
      pool := pool[1..];
      mem := mem[f := ZeroTable()];
      assert Space() == Pt(s.root, s.mem[f := ZeroTable()], s.hole);
      PtrLands(va, l);
      SetPte(w, Pte(f, true, false, bits), t, Off(va, l));
      owner := owner[f := Place(l - 1, q)];
      SmallPathKept(s, Space(), user, va);
      return true;
    }

    /** The entry of `va` that comes next can be written, and has this number. */
    lemma {:induction false} PathWritable(va: nat, l: nat)
      requires Valid() && Off(va, 4) != slot && 1 <= l <= 4
      requires l < 4 ==> Pointer(EntryAt(Space(), l + 1, EntryNo(va, l + 1)))
      ensures Writable(Space(), l, EntryNo(va, l)) && EntryNo(va, l) % 512 == Off(va, l)
      ensures l < 4 ==> EntryNo(va, l) / 512 == EntryNo(va, l + 1)
      ensures l == 4 ==> EntryNo(va, l) < 512
    {
      RootIndex(va);
      OffDigit(va, l);
      AncStep(Page(va), l - 1);
    }

    /** linmap_get_l3p, linmap_get_l2p and linmap_get_l1p: the pointer to the level-`l` entry of `va`. */
    method GetPtr(va: nat, l: nat, alloc: bool, user: bool) returns (r: Ptr)
      requires Valid() && Off(va, 4) != slot && 1 <= l <= 3 && SmallPath(Space(), va)
      modifies this
      ensures Valid() && Extends(old(Space()), Space(), user) && SmallPath(Space(), va)
      ensures r.Ptr? ==> r.p == LinmapPtr(slot, va, l) && Pointer(EntryAt(Space(), l + 1, EntryNo(va, l + 1)))
      ensures r == PtrInvalid ==> if alloc then pool == [] else !Pointer(EntryAt(Space(), l + 1, EntryNo(va, l + 1)))
      ensures !alloc ==> mem == old(mem) && pool == old(pool)
      ensures |pool| + (if r.Ptr? then 4 - l else 3 - l) >= |old(pool)|
      decreases 3 - l
    {
      if l < 3 {
        r := GetPtr(va, l + 1, alloc, user);
        if r == PtrInvalid {
          NoTable(Space(), va, l);
          return;
        }
      }
      ghost var s := Space();
      var ok := TableUnder(va, l + 1, alloc, user);
      ExtendsTransitive(old(Space()), s, Space(), user);
      return if ok then Ptr(LinmapPtr(slot, va, l)) else PtrInvalid;
    }

    /**
      kmap_get_l1p, and umap_get_l1p of the loaded map: a pointer through which the hardware reaches the
      leaf entry of `va`.  No translation outside the window changes, also when frames run out half
      way; three spare frames always suffice.
     */
    method GetL1p(va: nat, alloc: bool, user: bool) returns (r: Ptr)
      requires Valid() && Off(va, 4) != slot && SmallPath(Space(), va)
      modifies this
      ensures Valid() && SmallPath(Space(), va) && Extends(old(Space()), Space(), user)
      ensures forall n: nat :: Anc(n, 3) != slot ==> Trans(Hardware(), n) == old(Trans(Hardware(), n))
      ensures forall n: nat :: Anc(n, 3) != slot ==> SameRights(old(Hardware()), Hardware(), n)
      ensures forall n: nat :: EntryAt(Space(), 1, n) == old(EntryAt(Space(), 1, n))
      ensures !alloc ==> mem == old(mem) && pool == old(pool)
      ensures r.Ptr? ==>
                var f := TableFrame(Space(), cr3, va, 1);
                && Backed(r.p, f, Off(va, 1)) && r.p == LinmapPtr(slot, va, 1)
                && mem[f][Off(va, 1)] == EntryAt(Space(), 1, Page(va))
      ensures r.Ptr? ==> Pointer(EntryAt(Space(), 2, EntryNo(va, 2)))
      ensures r == PtrInvalid ==>
                if alloc then pool == [] && |old(pool)| < 3 else !Pointer(EntryAt(Space(), 2, EntryNo(va, 2)))
    {
      r := GetPtr(va, 1, alloc, user);
      forall n: nat
        ensures EntryAt(Space(), 1, n) == old(EntryAt(Space(), 1, n))
        ensures Anc(n, 3) != slot ==> Trans(Hardware(), n) == old(Trans(Hardware(), n))
      {
        ExtendsTrans(old(Space()), Space(), user, n);
        if Anc(n, 3) != slot {
          OutsideTrans(mem[cr3], mem, slot, n);
          OutsideTrans(old(mem[cr3]), old(mem), slot, n);
        }
      }
      hide UserMay, MayWrite;
      forall n: nat | Anc(n, 3) != slot
        ensures SameRights(old(Hardware()), Hardware(), n)
      {
        RightsKept(old(Space()), Space(), user, n);
        OutsideRights(mem[cr3], mem, slot, n);
        OutsideRights(old(mem[cr3]), old(mem), slot, n);
      }
      if r.Ptr? {
        PtrLands(va, 1);
      }
    }

    /**
      _kmap_map, and the same for the loaded user map: the page of `va` gets the new leaf, the old one
      is returned, and no other page outside the window is translated differently.
     */
    method Map(va: nat, e: Pte, alloc: bool, user: bool) returns (r: Ptr, was: Pte)
      requires Valid() && Off(va, 4) != slot && SmallPath(Space(), va)
      modifies this
      ensures Valid()
      ensures r.Ptr? ==> was == old(EntryAt(Space(), 1, Page(va))) && EntryAt(Space(), 1, Page(va)) == e
      ensures r.Ptr? ==> forall n: nat :: Anc(n, 3) != slot ==>
                Trans(Hardware(), n) == if n == Page(va) then LeafTrans(e) else old(Trans(Hardware(), n))
      ensures r.Ptr? ==> RightsStored(old(Space()), old(Hardware()), Hardware(), user, Page(va), e)
      ensures r == PtrInvalid ==> forall n: nat :: Anc(n, 3) != slot ==> Trans(Hardware(), n) == old(Trans(Hardware(), n))
      ensures r == PtrInvalid ==> if alloc then pool == [] && |old(pool)| < 3 else mem == old(mem)
    {
      r := GetL1p(va, alloc, user);
      if r == PtrInvalid {
        return r, ZERO;
      }
      ghost var f := TableFrame(Space(), cr3, va, 1);
      was := GetPte(r.p, f, Off(va, 1));
      StoreLeaf(old(Space()), old(Hardware()), user, va, e, r.p, f);
    }

    /** hal_l1e_set through the pointer. */
    method StoreLeaf(ghost s0: Pt, ghost h0: Pt, ghost user: bool, va: nat, e: Pte, w: nat, ghost f: nat)
      requires Valid() && Extends(s0, Space(), user) && s0.hole == slot && h0 == Pt(s0.root, s0.mem, 512) && |s0.root| == 512
      requires Off(va, 4) != slot && SmallPath(Space(), va) && Pointer(EntryAt(Space(), 2, EntryNo(va, 2)))
      requires w == LinmapPtr(slot, va, 1) && f == TableFrame(Space(), cr3, va, 1)
      modifies this
      ensures Valid() && EntryAt(Space(), 1, Page(va)) == e
      ensures forall n: nat :: Anc(n, 3) != slot ==>
                Trans(Hardware(), n) == if n == Page(va) then LeafTrans(e) else old(Trans(Hardware(), n))
      ensures RightsStored(s0, h0, Hardware(), user, Page(va), e)
    {
      ghost var s, q := Space(), Page(va);
      PtrLands(va, 1);
      PathWritable(va, 1);
      AboveLeaf(s, va);
      StoreOwned(s, owner, 1, q, e);
      SetEntryFrame(s, owner, 1, q, e, 1, q);
      SetPte(w, e, f, Off(va, 1));
      assert Space() == SetEntry(s, 1, q, e);
      NothingBelow(owner, q);
      forall n: nat | Anc(n, 3) != slot
        ensures Trans(Hardware(), n) == if n == q then LeafTrans(e) else old(Trans(Hardware(), n))
      {
        LeafStore(s, owner, q, e, n);
        OutsideTrans(mem[cr3], mem, slot, n);
        OutsideTrans(s.root, s.mem, slot, n);
      }
      RootIndex(va);
      RightsOutside(s0, s, owner, user, q, e, slot);
    }
  }

  /** PTE_W */
  const KERNEL_BITS := 2

  /** The flags that alloc_table gives to the entry of a new table. */
  function TableBits(user: bool): (bits: nat)
    ensures WriteBit(bits) && (UserBit(bits) <==> user)
  {
    if user then TABLE_BITS else KERNEL_BITS
  }

  /** Outside the window the walk of the hardware gives the rights of the space. */
  lemma {:induction false} OutsideRights(root: Table, mem: map<nat, Table>, slot: nat, n: nat)
    requires |root| == 512 && slot < 512 && Anc(n, 3) != slot
    ensures var h, s := Pt(root, mem, 512), Pt(root, mem, slot);
            (UserMay(h, n) <==> UserMay(s, n)) && (MayWrite(h, n) <==> MayWrite(s, n))
  {
    OutsidePath(root, mem, slot, n, 1);
    OutsidePath(root, mem, slot, n, 2);
    OutsidePath(root, mem, slot, n, 3);
    OutsidePath(root, mem, slot, n, 4);
    hide OnPath, UserBit, WriteBit;
  }

  lemma {:induction false} OutsidePath(root: Table, mem: map<nat, Table>, slot: nat, n: nat, l: nat)
    requires |root| == 512 && slot < 512 && Anc(n, 3) != slot && 1 <= l <= 4
    ensures OnPath(Pt(root, mem, 512), n, l) == OnPath(Pt(root, mem, slot), n, l)
  {
    AncSum(n, l - 1, 4 - l);
    OutsideWindow(root, mem, slot, l, Anc(n, l - 1));
  }

  lemma {:induction false} NothingBelow(owner: map<nat, Place>, q: nat)
    ensures (forall f :: f in owner ==> owner[f].level >= 1) ==> Outside(owner, 1, q) == owner
  {
  }

  /** Without a table at one level there is none below. */
  lemma {:induction false} NoTable(s: Pt, va: nat, l: nat)
    requires 1 <= l < 3
    ensures !Pointer(EntryAt(s, l + 2, EntryNo(va, l + 2))) ==> !Pointer(EntryAt(s, l + 1, EntryNo(va, l + 1)))
  {
    AncStep(Page(va), l);
  }

  lemma {:induction false} AboveLeaf(s: Pt, va: nat)
    requires Pointer(EntryAt(s, 2, EntryNo(va, 2)))
    ensures EntryNo(va, 2) == Page(va) / 512 && Pointer(EntryAt(s, 3, Page(va) / 512 / 512))
  {
    AncStep(Page(va), 0);
  }
}
