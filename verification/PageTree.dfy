/**
  Four-level page tables and the hardware walk (section 4.5 of the Intel SDM, Volume 3A).
  Virtual pages are numbered by the low 48 address bits; the level-`l` entry of page `n` has
  number Anc(n, l - 1), whose last base-512 digit is its index in its table.
 */
module PageTree {
  import opened Lists

  /** A page table entry.  `big` is bit 7; `bits` are the other flags, which a translation ignores. */
  datatype Pte = Pte(pfn: nat, present: bool, big: bool, bits: nat)

  const ZERO := Pte(0, false, false, 0)

  /** PTE_U and PTE_W, the bits of an entry that points to a table. */
  const TABLE_BITS := 6

  lemma {:induction false} TableRights()
    ensures WriteBit(TABLE_BITS) && UserBit(TABLE_BITS)
  {
  }

  predicate WriteBit(bits: nat) {
    bits / 2 % 2 == 1
  }

  predicate UserBit(bits: nat) {
    bits / 4 % 2 == 1
  }

  type Table = seq<Pte>

  /** An entry that the walk follows to a table. */
  predicate Pointer(e: Pte) {
    e.present && !e.big
  }

  /** The root table and all frames.  Root slot `hole` is left out of the walk. */
  datatype Pt = Pt(root: Table, mem: map<nat, Table>, hole: nat)

  function At(t: Table, i: nat): Pte {
    if i < |t| then t[i] else ZERO
  }

  function TableOf(mem: map<nat, Table>, f: nat): Table {
    if f in mem then mem[f] else []
  }

  /** Entry number `q` of level `l`, as the walk finds it. */
  function EntryAt(s: Pt, l: nat, q: nat): Pte
    decreases 4 - l
  {
    if l >= 4 then
      if q == s.hole then ZERO else At(s.root, q)
    else
      var e := EntryAt(s, l + 1, q / 512);
      if Pointer(e) then At(TableOf(s.mem, e.pfn), q % 512) else ZERO
  }

  /** `q` without its last `k` base-512 digits. */
  function Anc(q: nat, k: nat): nat
    decreases k
  {
    if k == 0 then q else Anc(q / 512, k - 1)
  }

  lemma {:induction false} AncStep(n: nat, k: nat)
    ensures Anc(n, k + 1) == Anc(n, k) / 512
    decreases k
  {
    if k > 0 {
      AncStep(n / 512, k - 1);
    }
  }

  lemma {:induction false} AncSum(n: nat, j: nat, k: nat)
    ensures Anc(Anc(n, j), k) == Anc(n, j + k)
    decreases j
  {
    if j > 0 {
      AncSum(n / 512, j - 1, k);
    }
  }

  lemma {:induction false} AncMono(n: nat, m: nat, k: nat)
    requires n <= m
    ensures Anc(n, k) <= Anc(m, k)
    decreases k
  {
    if k > 0 {
      AncMono(n / 512, m / 512, k - 1);
    }
  }

  datatype Phys = Unmapped | Mapped(frame: nat)

  function Base(pfn: nat, pages: nat): nat
    requires pages >= 1
  {
    assert pfn % pages <= pfn;
    pfn - pfn % pages
  }

  /** The frame the hardware walk finds for page `n`: by a 1 GB, a 2 MB or a 4 KB mapping. */
  function Trans(s: Pt, n: nat): Phys {
    var e3 := EntryAt(s, 3, n / 512 / 512);
    if e3.present && e3.big then Mapped(Base(e3.pfn, 0x40000) + n % 0x40000) else
    var e2 := EntryAt(s, 2, n / 512);
    if e2.present && e2.big then Mapped(Base(e2.pfn, 512) + n % 512) else
    var e1 := EntryAt(s, 1, n);
    if e1.present then Mapped(e1.pfn) else Unmapped
  }

  // ----- the tables form a tree -----

  /** What a table frame is for: it holds the level-`level` entries numbered 512 * prefix + i. */
  datatype Place = Place(level: nat, prefix: nat)

  ghost predicate Reached(s: Pt, l: nat, p: nat, f: nat) {
    1 <= l <= 3 && Pointer(EntryAt(s, l + 1, p)) && EntryAt(s, l + 1, p).pfn == f
  }

  /** Every table is reached by the walk in exactly one way, and `owner` says which. */
  ghost predicate Owned(s: Pt, owner: map<nat, Place>) {
    && (forall f :: f in owner ==> f in s.mem && |s.mem[f]| == 512 && Reached(s, owner[f].level, owner[f].prefix, f))
    && (forall l: nat, p: nat, f: nat :: Reached(s, l, p, f) ==> f in owner && owner[f] == Place(l, p))
  }

  /** The walk reaches one frame in one way only. */
  lemma {:induction false} OneWay(s: Pt, owner: map<nat, Place>, l: nat, p: nat, m: nat, r: nat, f: nat)
    requires Owned(s, owner) && Reached(s, l, p, f) && Reached(s, m, r, f)
    ensures l == m && p == r
  {
  }

  // ----- storing an entry -----

  /** The table and index of entry `q` of level `l` < 4 can be written: its table is reached. */
  ghost predicate Writable(s: Pt, l: nat, q: nat) {
    && 1 <= l <= 4
    && (l == 4 ==> q < |s.root| && q != s.hole)
    && (l < 4 ==> Pointer(EntryAt(s, l + 1, q / 512)))
  }

  function SetEntry(s: Pt, l: nat, q: nat, e: Pte): Pt {
    if l >= 4 then
      if q < |s.root| then Pt(s.root[q := e], s.mem, s.hole) else s
    else
      var f := EntryAt(s, l + 1, q / 512).pfn;
      var t := TableOf(s.mem, f);
      if q % 512 < |t| then Pt(s.root, s.mem[f := t[q % 512 := e]], s.hole) else s
  }

  /** A store changes the entry itself and, below it, nothing outside its subtree. */
  lemma {:induction false} SetEntryFrame(s: Pt, owner: map<nat, Place>, l: nat, q: nat, e: Pte, m: nat, r: nat)
    requires Owned(s, owner) && Writable(s, l, q) && 1 <= m <= 4
    requires m < l ==> Anc(r, l - m) != q
    ensures EntryAt(SetEntry(s, l, q, e), m, r) == if m == l && r == q then e else EntryAt(s, m, r)
    decreases 4 - m
  {
    if m < 4 {
      SetEntryFrame(s, owner, l, q, e, m + 1, r / 512);
      assert Anc(r, 1) == r / 512;
      if Pointer(EntryAt(s, m + 1, r / 512)) {
        SameTable(s, owner, l, q, e, m, r);
      }
    }
  }

  /** The level-`m` table of `r` after the store. */
  lemma {:induction false} SameTable(s: Pt, owner: map<nat, Place>, l: nat, q: nat, e: Pte, m: nat, r: nat)
    requires Owned(s, owner) && Writable(s, l, q) && 1 <= m < 4
    requires Pointer(EntryAt(s, m + 1, r / 512))
    ensures var f := EntryAt(s, m + 1, r / 512).pfn;
            At(TableOf(SetEntry(s, l, q, e).mem, f), r % 512) ==
            if m == l && r == q then e else At(TableOf(s.mem, f), r % 512)
  {
    var f := EntryAt(s, m + 1, r / 512).pfn;
    assert Reached(s, m, r / 512, f);
    if l < 4 {
      var g := EntryAt(s, l + 1, q / 512).pfn;
      assert Reached(s, l, q / 512, g);
      if f == g {
        OneWay(s, owner, l, q / 512, m, r / 512, f);
        assert r % 512 == q % 512 ==> r == q;
      }
    }
  }

  /** Below an entry that points to no table there is nothing. */
  lemma {:induction false} Barren(s: Pt, l: nat, m: nat, r: nat)
    requires 1 <= m < l <= 4
    ensures !Pointer(EntryAt(s, l, Anc(r, l - m))) ==> EntryAt(s, m, r) == ZERO
    decreases l - m
  {
    if m + 1 < l {
      Barren(s, l, m + 1, r / 512);
    }
  }

  // ----- a new table -----

  function ZeroTable(): (t: Table)
    ensures |t| == 512 && forall i :: 0 <= i < 512 ==> t[i] == ZERO
  {
    seq(512, _ => ZERO)
  }

  /** A zero-filled frame `f` becomes the table under entry `q` of level `l`. */
  function AddTable(s: Pt, l: nat, q: nat, f: nat, bits: nat): Pt {
    SetEntry(Pt(s.root, s.mem[f := ZeroTable()], s.hole), l, q, Pte(f, true, false, bits))
  }

  /** Frames that are no tables do not matter to the walk. */
  lemma {:induction false} SpareFrame(s: Pt, owner: map<nat, Place>, f: nat, t: Table, m: nat, r: nat)
    requires Owned(s, owner) && f !in owner && 1 <= m <= 4
    ensures EntryAt(Pt(s.root, s.mem[f := t], s.hole), m, r) == EntryAt(s, m, r)
    decreases 4 - m
  {
    if m < 4 {
      SpareFrame(s, owner, f, t, m + 1, r / 512);
      if Pointer(EntryAt(s, m + 1, r / 512)) {
        assert Reached(s, m, r / 512, EntryAt(s, m + 1, r / 512).pfn);
      }
    }
  }

  lemma {:induction false} SpareOwned(s: Pt, owner: map<nat, Place>, f: nat, t: Table)
    requires Owned(s, owner) && f !in owner
    ensures Owned(Pt(s.root, s.mem[f := t], s.hole), owner)
  {
    var s' := Pt(s.root, s.mem[f := t], s.hole);
    forall m: nat, r: nat | 1 <= m <= 4
      ensures EntryAt(s', m, r) == EntryAt(s, m, r)
    {
      SpareFrame(s, owner, f, t, m, r);
    }
    forall l: nat, p: nat, g: nat
      ensures Reached(s', l, p, g) == Reached(s, l, p, g)
    {
    }
  }

  /** Only the entry that got the table changes. */
  lemma {:induction false} AddTableEntry(s: Pt, owner: map<nat, Place>, l: nat, q: nat, f: nat, bits: nat, m: nat, r: nat)
    requires Owned(s, owner) && Writable(s, l, q) && l >= 2 && f !in owner && !Pointer(EntryAt(s, l, q)) && 1 <= m <= 4
    ensures EntryAt(AddTable(s, l, q, f, bits), m, r) ==
            if m == l && r == q then Pte(f, true, false, bits) else EntryAt(s, m, r)
    decreases 4 - m
  {
    var z := Pt(s.root, s.mem[f := ZeroTable()], s.hole);
    var e := Pte(f, true, false, bits);
    SpareOwned(s, owner, f, ZeroTable());
    SpareFrame(s, owner, f, ZeroTable(), m, r);
    if l < 4 {
      SpareFrame(s, owner, f, ZeroTable(), l + 1, q / 512);
    }
    if m < l && Anc(r, l - m) == q {
      Barren(s, l, m, r);
      AddTableEntry(s, owner, l, q, f, bits, m + 1, r / 512);
      if m + 1 == l {
        NewTableZero(s, owner, l, q, f, bits);
      }
    } else {
      SetEntryFrame(z, owner, l, q, e, m, r);
    }
  }

  lemma {:induction false} NewTableZero(s: Pt, owner: map<nat, Place>, l: nat, q: nat, f: nat, bits: nat)
    requires Owned(s, owner) && Writable(s, l, q) && f !in owner
    ensures TableOf(AddTable(s, l, q, f, bits).mem, f) == ZeroTable()
  {
    if l < 4 {
      SpareFrame(s, owner, f, ZeroTable(), l + 1, q / 512);
      assert Reached(s, l, q / 512, EntryAt(s, l + 1, q / 512).pfn);
    }
  }

  /** The tables stay a tree. */
  lemma {:induction false} AddTableOwned(s: Pt, owner: map<nat, Place>, l: nat, q: nat, f: nat, bits: nat)
    requires Owned(s, owner) && Writable(s, l, q) && l >= 2 && f !in owner && !Pointer(EntryAt(s, l, q))
    ensures Owned(AddTable(s, l, q, f, bits), owner[f := Place(l - 1, q)])
  {
    hide EntryAt, AddTable;
    var t := AddTable(s, l, q, f, bits);
    forall m: nat, r: nat | 1 <= m <= 4
      ensures EntryAt(t, m, r) == if m == l && r == q then Pte(f, true, false, bits) else EntryAt(s, m, r)
    {
      AddTableEntry(s, owner, l, q, f, bits, m, r);
    }
    NewTableZero(s, owner, l, q, f, bits);
    forall m: nat, p: nat, g: nat
      ensures Reached(t, m, p, g) <==> Reached(s, m, p, g) || (m == l - 1 && p == q && g == f)
    {
    }
    SetEntrySizes(s, l, q, f, bits);
  }

  lemma {:induction false} SetEntrySizes(s: Pt, l: nat, q: nat, f: nat, bits: nat)
    ensures forall g :: g in s.mem && g != f ==>
              g in AddTable(s, l, q, f, bits).mem && |AddTable(s, l, q, f, bits).mem[g]| == |s.mem[g]|
  {
  }

  // ----- storing a mapping -----

  /** The tables that are not below entry `q` of level `l`. */
  ghost function Outside(owner: map<nat, Place>, l: nat, q: nat): map<nat, Place> {
    map f | f in owner && !(owner[f].level < l && Anc(owner[f].prefix, l - 1 - owner[f].level) == q) :: owner[f]
  }

  /** Storing an entry that points to no table: what was below it is gone, all else stays. */
  lemma {:induction false} StoreEntry(s: Pt, owner: map<nat, Place>, l: nat, q: nat, e: Pte, m: nat, r: nat)
    requires Owned(s, owner) && Writable(s, l, q) && (l >= 2 ==> !Pointer(e)) && 1 <= m <= 4
    ensures EntryAt(SetEntry(s, l, q, e), m, r) ==
            if m == l && r == q then e else if m < l && Anc(r, l - m) == q then ZERO else EntryAt(s, m, r)
  {
    if m < l && Anc(r, l - m) == q {
      SetEntryFrame(s, owner, l, q, e, l, q);
      Barren(SetEntry(s, l, q, e), l, m, r);
    } else {
      SetEntryFrame(s, owner, l, q, e, m, r);
    }
  }

  lemma {:induction false} StoreOwned(s: Pt, owner: map<nat, Place>, l: nat, q: nat, e: Pte)
    requires Owned(s, owner) && Writable(s, l, q) && (l >= 2 ==> !Pointer(e))
    ensures Owned(SetEntry(s, l, q, e), Outside(owner, l, q))
  {
    var t := SetEntry(s, l, q, e);
    forall m: nat, p: nat, g: nat
      ensures Reached(t, m, p, g) <==> Reached(s, m, p, g) && !(m < l && Anc(p, l - 1 - m) == q)
    {
      if 1 <= m <= 3 {
        StoreEntry(s, owner, l, q, e, m + 1, p);
      }
    }
  }

  // ----- extensions -----

  /** `t` has the entries of `s`, and writable tables in place of absent upper entries, for user mode as `user` says. */
  ghost predicate Extends(s: Pt, t: Pt, user: bool) {
    forall l: nat, q: nat :: 1 <= l <= 4 ==>
      || EntryAt(t, l, q) == EntryAt(s, l, q)
      || (l >= 2 && !EntryAt(s, l, q).present && NewTable(EntryAt(t, l, q), user))
  }

  predicate NewTable(e: Pte, user: bool) {
    Pointer(e) && WriteBit(e.bits) && (UserBit(e.bits) <==> user)
  }

  lemma {:induction false} ExtendsSelf(s: Pt, user: bool)
    ensures Extends(s, s, user)
  {
  }

  lemma {:induction false} ExtendsTransitive(s: Pt, t: Pt, u: Pt, user: bool)
    requires Extends(s, t, user) && Extends(t, u, user)
    ensures Extends(s, u, user)
  {
    forall l: nat, q: nat | 1 <= l <= 4
      ensures EntryAt(u, l, q) == EntryAt(s, l, q) || (l >= 2 && !EntryAt(s, l, q).present && NewTable(EntryAt(u, l, q), user))
    {
      assert EntryAt(t, l, q) == EntryAt(s, l, q) || (l >= 2 && !EntryAt(s, l, q).present && NewTable(EntryAt(t, l, q), user));
    }
  }

  /** An extension changes no translation and no leaf entry. */
  lemma {:induction false} ExtendsTrans(s: Pt, t: Pt, user: bool, n: nat)
    requires Extends(s, t, user)
    ensures Trans(t, n) == Trans(s, n) && EntryAt(t, 1, n) == EntryAt(s, 1, n)
  {
    assert EntryAt(t, 1, n) == EntryAt(s, 1, n);
    var q3, q2 := n / 512 / 512, n / 512;
    assert EntryAt(t, 3, q3) == EntryAt(s, 3, q3) || (!EntryAt(s, 3, q3).present && Pointer(EntryAt(t, 3, q3)));
    assert EntryAt(t, 2, q2) == EntryAt(s, 2, q2) || (!EntryAt(s, 2, q2).present && Pointer(EntryAt(t, 2, q2)));
  }

  lemma {:induction false} AddTableExtends(s: Pt, owner: map<nat, Place>, l: nat, q: nat, f: nat, bits: nat)
    requires Owned(s, owner) && Writable(s, l, q) && l >= 2 && f !in owner && !EntryAt(s, l, q).present && WriteBit(bits)
    ensures Extends(s, AddTable(s, l, q, f, bits), UserBit(bits)) && (NoBig(s) ==> NoBig(AddTable(s, l, q, f, bits)))
    ensures EntryAt(AddTable(s, l, q, f, bits), l, q) == Pte(f, true, false, bits)
  {
    hide WriteBit, UserBit;
    forall m: nat, r: nat | 1 <= m <= 4
      ensures EntryAt(AddTable(s, l, q, f, bits), m, r) ==
              if m == l && r == q then Pte(f, true, false, bits) else EntryAt(s, m, r)
    {
      AddTableEntry(s, owner, l, q, f, bits, m, r);
    }
  }

  // ----- access rights -----

  /** The level-`l` entry on the way to page `n`. */
  function OnPath(s: Pt, n: nat, l: nat): Pte
    requires l >= 1
  {
    EntryAt(s, l, Anc(n, l - 1))
  }

  predicate UserEntry(e: Pte) {
    e.present && UserBit(e.bits)
  }

  predicate WriteEntry(e: Pte) {
    e.present && WriteBit(e.bits)
  }

  /** The walk lets user mode reach page `n` when every entry on the way does. */
  predicate UserMay(s: Pt, n: nat) {
    UserEntry(OnPath(s, n, 4)) && UserEntry(OnPath(s, n, 3)) && UserEntry(OnPath(s, n, 2)) && UserEntry(OnPath(s, n, 1))
  }

  /** It lets page `n` be written likewise. */
  predicate MayWrite(s: Pt, n: nat) {
    WriteEntry(OnPath(s, n, 4)) && WriteEntry(OnPath(s, n, 3)) && WriteEntry(OnPath(s, n, 2)) && WriteEntry(OnPath(s, n, 1))
  }

  /** The tables above page `n` let user mode through, those that are still to be made counting as `user`. */
  predicate UserPath(s: Pt, n: nat, user: bool) {
    && (if OnPath(s, n, 4).present then UserEntry(OnPath(s, n, 4)) else user)
    && (if OnPath(s, n, 3).present then UserEntry(OnPath(s, n, 3)) else user)
    && (if OnPath(s, n, 2).present then UserEntry(OnPath(s, n, 2)) else user)
  }

  predicate WritePath(s: Pt, n: nat) {
    && (OnPath(s, n, 4).present ==> WriteEntry(OnPath(s, n, 4)))
    && (OnPath(s, n, 3).present ==> WriteEntry(OnPath(s, n, 3)))
    && (OnPath(s, n, 2).present ==> WriteEntry(OnPath(s, n, 2)))
  }

  /** With an entry that is not zero, all entries above it point to tables. */
  lemma {:induction false} TablesAbove(s: Pt, n: nat, m: nat)
    requires 1 <= m <= 3 && OnPath(s, n, m) != ZERO
    ensures Pointer(OnPath(s, n, 4)) && (m < 3 ==> Pointer(OnPath(s, n, 3))) && (m < 2 ==> Pointer(OnPath(s, n, 2)))
  {
    AboveOne(s, n, m);
    if m < 3 {
      AboveOne(s, n, m + 1);
    }
    if m < 2 {
      AboveOne(s, n, m + 2);
    }
  }

  lemma {:induction false} AboveOne(s: Pt, n: nat, m: nat)
    requires 1 <= m <= 3
    ensures OnPath(s, n, m) != ZERO ==> Pointer(OnPath(s, n, m + 1))
  {
    AncStep(n, m - 1);
  }

  lemma {:induction false} PathKept(s: Pt, t: Pt, user: bool, n: nat, l: nat)
    requires Extends(s, t, user) && 1 <= l <= 4
    ensures OnPath(t, n, l) == OnPath(s, n, l) || (l >= 2 && !OnPath(s, n, l).present && NewTable(OnPath(t, n, l), user))
  {
  }

  /** An extension changes no access right. */
  lemma {:induction false} RightsKept(s: Pt, t: Pt, user: bool, n: nat)
    requires Extends(s, t, user)
    ensures (UserMay(t, n) <==> UserMay(s, n)) && (MayWrite(t, n) <==> MayWrite(s, n))
  {
    PathKept(s, t, user, n, 1);
    PathKept(s, t, user, n, 2);
    PathKept(s, t, user, n, 3);
    PathKept(s, t, user, n, 4);
    if OnPath(s, n, 1).present {
      TablesAbove(s, n, 1);
    }
    hide UserBit, WriteBit, OnPath, Extends;
  }

  /** The rights of a page whose leaf is stored after the tables for it were made. */
  lemma {:induction false} LeafRights(s: Pt, t: Pt, owner: map<nat, Place>, user: bool, q: nat, e: Pte, n: nat)
    requires Extends(s, t, user) && Owned(t, owner) && Writable(t, 1, q)
    ensures var u := SetEntry(t, 1, q, e);
            && (UserMay(u, n) <==> if n == q then UserEntry(e) && UserPath(s, q, user) else UserMay(s, n))
            && (MayWrite(u, n) <==> if n == q then WriteEntry(e) && WritePath(s, q) else MayWrite(s, n))
  {
    PathStored(t, owner, q, e, n);
    if n == q {
      AboveWritable(t, q);
      PathKept(s, t, user, n, 2);
      PathKept(s, t, user, n, 3);
      PathKept(s, t, user, n, 4);
    } else {
      RightsKept(s, t, user, n);
    }
    hide UserBit, WriteBit, OnPath, Extends, Owned, SetEntry, Writable;
  }

  lemma {:induction false} PathStored(t: Pt, owner: map<nat, Place>, q: nat, e: Pte, n: nat)
    requires Owned(t, owner) && Writable(t, 1, q)
    ensures var u := SetEntry(t, 1, q, e);
            && OnPath(u, n, 4) == OnPath(t, n, 4) && OnPath(u, n, 3) == OnPath(t, n, 3) && OnPath(u, n, 2) == OnPath(t, n, 2)
            && OnPath(u, n, 1) == if n == q then e else OnPath(t, n, 1)
  {
    SetEntryFrame(t, owner, 1, q, e, 4, Anc(n, 3));
    SetEntryFrame(t, owner, 1, q, e, 3, Anc(n, 2));
    SetEntryFrame(t, owner, 1, q, e, 2, Anc(n, 1));
    SetEntryFrame(t, owner, 1, q, e, 1, n);
  }

  lemma {:induction false} AboveWritable(t: Pt, q: nat)
    requires Writable(t, 1, q)
    ensures Pointer(OnPath(t, q, 4)) && Pointer(OnPath(t, q, 3)) && Pointer(OnPath(t, q, 2))
  {
    assert Anc(q, 1) == q / 512;
    TablesAbove(t, q, 2);
  }

  /** AddTable as the two stores it takes: clear the frame, write the entry. */
  lemma {:induction false} AddTableStores(s: Pt, owner: map<nat, Place>, l: nat, q: nat, f: nat, bits: nat)
    requires Owned(s, owner) && Writable(s, l, q) && f !in owner
    ensures l == 4 ==> AddTable(s, l, q, f, bits) == Pt(s.root[q := Pte(f, true, false, bits)], s.mem[f := ZeroTable()], s.hole)
    ensures l < 4 ==>
              var t := EntryAt(s, l + 1, q / 512).pfn;
              && t in s.mem && |s.mem[t]| == 512 && t != f
              && EntryAt(s, l, q) == s.mem[t][q % 512]
              && AddTable(s, l, q, f, bits) ==
                 Pt(s.root, s.mem[f := ZeroTable()][t := s.mem[t][q % 512 := Pte(f, true, false, bits)]], s.hole)
  {
    if l < 4 {
      var t := EntryAt(s, l + 1, q / 512).pfn;
      assert Reached(s, l, q / 512, t);
      SpareFrame(s, owner, f, ZeroTable(), l + 1, q / 512);
    }
  }

  /** What get_pte reads. */
  lemma {:induction false} EntryStored(s: Pt, owner: map<nat, Place>, l: nat, q: nat)
    requires Owned(s, owner) && Writable(s, l, q)
    ensures l == 4 ==> EntryAt(s, l, q) == s.root[q]
    ensures l < 4 ==>
              var t := EntryAt(s, l + 1, q / 512).pfn;
              t in s.mem && |s.mem[t]| == 512 && EntryAt(s, l, q) == s.mem[t][q % 512]
  {
    if l < 4 {
      assert Reached(s, l, q / 512, EntryAt(s, l + 1, q / 512).pfn);
    }
  }

  /** The frames of the pool are distinct and no tables. */
  ghost predicate Spare(pool: seq<nat>, owner: map<nat, Place>) {
    NoDup(pool) && forall f :: f in pool ==> f !in owner
  }

  /** Upper entries are tables or absent; there are no big pages. */
  ghost predicate NoBig(s: Pt) {
    forall l: nat, q: nat :: 2 <= l <= 4 && EntryAt(s, l, q).present ==> Pointer(EntryAt(s, l, q))
  }

  /** Tables without an entry: nothing is mapped. */
  lemma {:induction false} EmptyTables(s: Pt)
    requires forall i :: 0 <= i < |s.root| && i != s.hole ==> s.root[i] == ZERO
    ensures Owned(s, map[]) && NoBig(s) && forall n: nat :: EntryAt(s, 1, n) == ZERO && Trans(s, n) == Unmapped
  {
    forall l: nat, q: nat | 1 <= l <= 4
      ensures EntryAt(s, l, q) == ZERO
    {
      if l < 4 {
        Barren(s, 4, l, q);
      }
    }
  }
}
