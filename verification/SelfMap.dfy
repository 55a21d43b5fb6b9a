/**
  The recursive self-map of libhal_x86/amd64/pae64.c: one root slot points back at the root, so the
  page tables of the current address space appear as arrays of entries in the linear window.
 */
module SelfMap {
  import opened PageTree

  /** L1OFF to L4OFF, for the shifts 12, 21, 30 and 39. */
  function Off(va: nat, l: nat): nat
    requires l >= 1
  {
    Anc(va / 4096, l - 1) % 512
  }

  /** UNCANON */
  function Uncanon(va: nat): nat {
    va % 0x1_0000_0000_0000
  }

  lemma {:induction false} UncanonOf(h: nat, x: nat)
    requires x < 0x1_0000_0000_0000
    ensures Uncanon(0x1_0000_0000_0000 * h + x) == x
  {
  }

  /** MKCANON, of the low 48 bits: bit 47 is copied upwards. */
  function Canon(x: nat): nat {
    var y := Uncanon(x);
    if y < 0x8000_0000_0000 then y else y + 0xffff_0000_0000_0000
  }

  /** An address of 64 bits that the processor accepts: bits 47 to 63 are the same. */
  predicate Canonical(a: nat) {
    a < 0x8000_0000_0000 || 0xffff_8000_0000_0000 <= a < 0x1_0000_0000_0000_0000
  }

  /** mkaddr; the fields are disjoint, so the source's ORs add. */
  function Mkaddr(l4: nat, l3: nat, l2: nat, l1: nat): nat {
    Canon(l4 * 0x80_0000_0000 + l3 * 0x4000_0000 + l2 * 0x20_0000 + l1 * 0x1000)
  }

  /** The page number of an address. */
  function Page(va: nat): nat {
    Uncanon(va) / 4096
  }

  /** mkaddr and the offset macros are inverse. */
  lemma {:induction false} MkaddrOff(l4: nat, l3: nat, l2: nat, l1: nat)
    requires l4 < 512 && l3 < 512 && l2 < 512 && l1 < 512
    ensures var a := Mkaddr(l4, l3, l2, l1);
            && Page(a) == ((l4 * 512 + l3) * 512 + l2) * 512 + l1 && a % 4096 == 0
            && Off(a, 4) == l4 && Off(a, 3) == l3 && Off(a, 2) == l2 && Off(a, 1) == l1 && Canonical(a)
  {
    var x := ((l4 * 512 + l3) * 512 + l2) * 512 + l1;
    var h := if x < 0x8_0000_0000 then 0 else 0xffff;
    var y := (((h * 512 + l4) * 512 + l3) * 512 + l2) * 512 + l1;
    UncanonOf(0, 4096 * x);
    UncanonOf(h, 4096 * x);
    assert Mkaddr(l4, l3, l2, l1) == 0x1_0000_0000_0000 * h + 4096 * x == 4096 * y;
    Digits(h, l4, l3, l2, l1);
  }

  lemma {:induction false} Digits(h: nat, l4: nat, l3: nat, l2: nat, l1: nat)
    requires l4 < 512 && l3 < 512 && l2 < 512 && l1 < 512
    ensures var y := (((h * 512 + l4) * 512 + l3) * 512 + l2) * 512 + l1;
            Anc(y, 3) % 512 == l4 && Anc(y, 2) % 512 == l3 && Anc(y, 1) % 512 == l2 && Anc(y, 0) % 512 == l1
  {
    var y3 := h * 512 + l4;
    var y2 := y3 * 512 + l3;
    var y1 := y2 * 512 + l2;
    var y := y1 * 512 + l1;
    assert y / 512 == y1 && y1 / 512 == y2 && y2 / 512 == y3;
    assert Anc(y, 3) == Anc(y1, 2) == Anc(y2, 1) == Anc(y3, 0);
    assert Anc(y, 2) == Anc(y1, 1) == Anc(y2, 0);
    assert Anc(y, 1) == Anc(y1, 0);
  }

  // ----- the window -----

  /** linaddr, linaddr_l2, linaddr_l3 and linaddr_l4, as pae64_init computes them from the slot. */
  function Window(slot: nat, l: nat): nat {
    if l == 1 then Mkaddr(slot, 0, 0, 0)
    else if l == 2 then Mkaddr(slot, slot, 0, 0)
    else if l == 3 then Mkaddr(slot, slot, slot, 0)
    else Mkaddr(slot, slot, slot, slot)
  }

  /** The number of the level-`l` entry of an address: UNCANON shifted right by 12 + 9 * (l - 1). */
  function EntryNo(va: nat, l: nat): nat
    requires l >= 1
  {
    Anc(Page(va), l - 1)
  }

  /** linmap_get_l1p to linmap_get_l4p: the pointer to the level-`l` entry of `va`. */
  function LinmapPtr(slot: nat, va: nat, l: nat): nat
    requires l >= 1
  {
    Window(slot, l) + 8 * EntryNo(va, l)
  }

  /** A loaded root that holds the self-reference written by pae64_linear and pae64_init_ap. */
  ghost predicate SelfMapped(s: Pt, cr3: nat, slot: nat) {
    && slot < 512 && |s.root| == 512 && s.hole >= 512
    && cr3 in s.mem && s.mem[cr3] == s.root
    && Pointer(s.root[slot]) && s.root[slot].pfn == cr3
  }

  function Span(k: nat): nat {
    if k == 0 then 1 else 512 * Span(k - 1)
  }

  /** Through the slot, the walk sees each level one level lower. */
  lemma {:induction false} OneLower(s: Pt, cr3: nat, slot: nat, l: nat, q: nat)
    requires SelfMapped(s, cr3, slot) && 2 <= l <= 4 && q < Span(5 - l)
    ensures EntryAt(s, l - 1, slot * Span(5 - l) + q) == EntryAt(s, l, q)
    decreases 4 - l
  {
    var w := slot * Span(5 - l) + q;
    if l == 4 {
      assert Span(1) == 512 by { assert Span(0) == 1; }
      assert w / 512 == slot && w % 512 == q;
    } else {
      SpanDown(slot, 5 - l);
      HighPart(slot * Span(4 - l), q);
      OneLower(s, cr3, slot, l + 1, q / 512);
    }
  }

  lemma {:induction false} Spans()
    ensures Span(0) == 1 && Span(1) == 512 && Span(2) == 0x40000 && Span(3) == 0x800_0000 && Span(4) == 0x10_0000_0000
  {
    assert Span(1) == 512 * Span(0);
    assert Span(2) == 512 * Span(1);
    assert Span(3) == 512 * Span(2);
  }

  /** The frame of the table that holds the level-`l` entry of `va`. */
  function TableFrame(s: Pt, cr3: nat, va: nat, l: nat): nat
    requires l >= 1
  {
    if l >= 4 then cr3 else EntryAt(s, l + 1, EntryNo(va, l + 1)).pfn
  }

  /** The page number of window `l`. */
  function WindowPage(slot: nat, l: nat): nat {
    if l == 1 then slot * 0x800_0000
    else if l == 2 then slot * 0x804_0000
    else if l == 3 then slot * 0x804_0200
    else slot * 0x804_0201
  }

  /** The copies of bit 47 in a canonical address of root slot `slot`. */
  function High(slot: nat): nat {
    if slot < 256 then 0 else 0xffff
  }

  lemma {:induction false} WindowAt(slot: nat, l: nat)
    requires slot < 512 && 1 <= l <= 4
    ensures Window(slot, l) == 4096 * (High(slot) * 0x10_0000_0000 + WindowPage(slot, l))
    ensures WindowPage(slot, l) < 0x10_0000_0000
  {
    CanonAt(slot, WindowPage(slot, l) - slot * 0x800_0000);
  }

  lemma {:induction false} CanonAt(slot: nat, r: nat)
    requires slot < 512 && r < 0x800_0000
    ensures Canon(slot * 0x80_0000_0000 + r * 0x1000) == 4096 * (High(slot) * 0x10_0000_0000 + slot * 0x800_0000 + r)
  {
  }

  lemma {:induction false} Joined(h: nat, x: nat, b: nat)
    requires x < 0x10_0000_0000 && b < 4096 && h == if x < 0x8_0000_0000 then 0 else 0xffff
    ensures var w := 4096 * (h * 0x10_0000_0000 + x) + b;
            Page(w) == x && w % 4096 == b && Canonical(w)
  {
    var y := 4096 * x + b;
    assert 4096 * (h * 0x10_0000_0000 + x) + b == h * 0x1_0000_0000_0000 + y;
    assert y < 0x1_0000_0000_0000;
  }

  /** Dropping a digit below a multiple of 512. */
  lemma {:induction false} HighPart(a: nat, n: nat)
    ensures (512 * a + n) / 512 == a + n / 512 && (512 * a + n) % 512 == n % 512
  {
  }

  lemma {:induction false} SpanDown(h: nat, j: nat)
    requires j >= 1
    ensures h * Span(j) == 512 * (h * Span(j - 1))
  {
    var p := Span(j - 1);
    assert h * (512 * p) == 512 * (h * p);
  }

  lemma {:induction false} AncHigh(h: nat, j: nat, n: nat, k: nat)
    requires k <= j
    ensures Anc(h * Span(j) + n, k) == h * Span(j - k) + Anc(n, k)
    decreases k
  {
    hide Span;
    if k > 0 {
      SpanDown(h, j);
      HighPart(h * Span(j - 1), n);
      AncHigh(h, j - 1, n / 512, k - 1);
    }
  }

  lemma {:induction false} DropHigh(h: nat, j: nat, x: nat)
    ensures (h * Span(j + 1) + x) % 512 == x % 512
  {
    SpanDown(h, j + 1);
    HighPart(h * Span(j), x);
  }

  /** The offset macros give the last digit of the entry number. */
  lemma {:induction false} OffDigit(va: nat, l: nat)
    requires 1 <= l <= 4
    ensures Off(va, l) == EntryNo(va, l) % 512
  {
    var h := va / 0x1_0000_0000_0000;
    assert va / 4096 == h * Span(4) + Page(va) by { Spans(); }
    AncHigh(h, 4, Page(va), l - 1);
    DropHigh(h, 4 - l, Anc(Page(va), l - 1));
  }

  lemma {:induction false} AncBound(n: nat, j: nat, k: nat)
    requires k <= j && n < Span(j)
    ensures Anc(n, k) < Span(j - k)
    decreases k
  {
    if k > 0 {
      AncBound(n / 512, j - 1, k - 1);
    }
  }

  lemma {:induction false} RootIndex(va: nat)
    ensures EntryNo(va, 4) == Off(va, 4) < 512
  {
    OffDigit(va, 4);
    Spans();
    AncBound(Page(va), 4, 3);
  }

  /** Through the slot, a page of the window is the table that the walk one level up finds. */
  lemma {:induction false} WindowTrans(s: Pt, cr3: nat, slot: nat, e: nat)
    requires SelfMapped(s, cr3, slot) && e < Span(3) && Pointer(EntryAt(s, 2, e))
    ensures Trans(s, slot * Span(3) + e) == Mapped(EntryAt(s, 2, e).pfn)
  {
    Spans();
    OneLower(s, cr3, slot, 2, e);
    SpanDown(slot, 3);
    HighPart(slot * Span(2), e);
    OneLower(s, cr3, slot, 3, e / 512);
    SpanDown(slot, 2);
    HighPart(slot * Span(1), e / 512);
    OneLower(s, cr3, slot, 4, e / 512 / 512);
  }

  /** The entry that window `l` shows at its table `e`. */
  lemma {:induction false} WindowEntry(s: Pt, cr3: nat, slot: nat, l: nat, e: nat)
    requires SelfMapped(s, cr3, slot) && 1 <= l <= 4 && e < Span(4 - l)
    ensures WindowPage(slot, l) + e >= slot * Span(3)
    ensures var x := WindowPage(slot, l) + e - slot * Span(3);
            && x < Span(3)
            && EntryAt(s, 2, x) == if l == 4 then s.root[slot] else EntryAt(s, l + 1, e)
  {
    Spans();
    var x := WindowPage(slot, l) + e - slot * Span(3);
    if l >= 2 {
      assert x == slot * Span(2) + (x - slot * Span(2));
      OneLower(s, cr3, slot, 3, x - slot * Span(2));
    }
    if l >= 3 {
      assert x - slot * Span(2) == slot * Span(1) + (x - slot * Span(2) - slot * Span(1));
      OneLower(s, cr3, slot, 4, x - slot * Span(2) - slot * Span(1));
    }
  }

  /**
    The hardware walk of the pointer that linmap_get_l1p .. linmap_get_l4p return lands on the very
    entry that an explicit walk of `va` reaches at that level: the same table frame, the same index.
   */
  lemma {:induction false} LinmapLands(s: Pt, cr3: nat, slot: nat, va: nat, l: nat)
    requires SelfMapped(s, cr3, slot) && 1 <= l <= 4
    requires l < 4 ==> Pointer(EntryAt(s, l + 1, EntryNo(va, l + 1)))
    ensures var w := LinmapPtr(slot, va, l);
            && Canonical(w)
            && Trans(s, Page(w)) == Mapped(TableFrame(s, cr3, va, l))
            && w % 4096 == 8 * Off(va, l)
            && At(TableOf(s.mem, TableFrame(s, cr3, va, l)), Off(va, l)) == EntryAt(s, l, EntryNo(va, l))
  {
    hide Canonical, Trans, Window;
    var q := EntryNo(va, l);
    var e := q / 512;
    OffDigit(va, l);
    Spans();
    AncBound(Page(va), 4, l - 1);
    AncStep(Page(va), l - 1);
    WindowEntry(s, cr3, slot, l, e);
    var x := WindowPage(slot, l) + e - slot * Span(3);
    WindowTrans(s, cr3, slot, x);
    PtrPage(slot, q, l);
  }

  lemma {:induction false} PtrPage(slot: nat, q: nat, l: nat)
    requires slot < 512 && 1 <= l <= 4 && q < Span(5 - l)
    ensures var w := Window(slot, l) + 8 * q;
            && w % 4096 == 8 * (q % 512)
            && Page(w) == WindowPage(slot, l) + q / 512
            && Canonical(w)
  {
    Spans();
    WindowAt(slot, l);
    assert 8 * q == 4096 * (q / 512) + 8 * (q % 512);
    WindowFits(slot, l, q / 512);
    Joined(High(slot), WindowPage(slot, l) + q / 512, 8 * (q % 512));
  }

  lemma {:induction false} WindowFits(slot: nat, l: nat, e: nat)
    requires slot < 512 && 1 <= l <= 4 && e < Span(4 - l)
    ensures WindowPage(slot, l) + e < 0x10_0000_0000
  {
    Spans();
  }
}
