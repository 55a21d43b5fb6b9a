/** The direct map of the boot loader, apxh/src/pae.c, with pages of 1 GB, 2 MB and 4 KB. */
module DirectMap {
  import opened Lists
  import opened PageTree
  import opened SelfMap

  datatype MemType = WB | WC | UC

  // ----- flags of a page -----

  predicate PwtBit(bits: nat) {
    bits / 8 % 2 == 1
  }

  predicate PcdBit(bits: nat) {
    bits / 16 % 2 == 1
  }

  predicate NxBit(bits: nat) {
    bits / 0x8000_0000_0000_0000 % 2 == 1
  }

  /** The flags of pae64_directmap but for the PAT bit: PTE_W, PTE_PCD and PTE_PWT by memtype_to_flags, PTE_NX. */
  function PageFlags(mt: MemType, x: bool, nx: bool): (bits: nat)
    ensures WriteBit(bits) && !UserBit(bits) && (PwtBit(bits) <==> mt != WB) && (PcdBit(bits) <==> mt != WB)
    ensures NxBit(bits) <==> nx && !x
  {
    2 + (if mt == WB then 0 else 24) + if nx && !x then 0x8000_0000_0000_0000 else 0
  }

  /** A page at level `l`: the PAT bit of a big page is its lowest frame bit, of a 4 KB page the one that means PS higher up. */
  function PageAt(l: nat, pfn: nat, mt: MemType, x: bool, nx: bool): Pte {
    if l == 1 then Pte(pfn, true, mt == WC, PageFlags(mt, x, nx))
    else Pte(pfn + if mt == WC then 1 else 0, true, true, PageFlags(mt, x, nx))
  }

  /** What setup_pat_table writes to the PAT register. */
  const PAT := 0x0100_0406_0007_0406

  /** Byte `i` of a number. */
  function Byte(x: nat, i: nat): nat
    decreases i
  {
    if i == 0 then x % 256 else Byte(x / 256, i - 1)
  }

  /** The memory type of a page, section 12.12 of the Intel SDM, Volume 3A: its PAT, PCD and PWT bits select a byte of the register. */
  function TypeOf(m: Mapping): nat {
    var pat := if m.level == 1 then m.e.big else m.e.pfn % 2 == 1;
    Byte(PAT, (if pat then 4 else 0) + (if PcdBit(m.e.bits) then 2 else 0) + if PwtBit(m.e.bits) then 1 else 0)
  }

  /** The encodings of the memory types in that register. */
  function Encoding(mt: MemType): nat {
    match mt
    case UC => 0
    case WC => 1
    case WB => 6
  }

  lemma {:induction false} PatBytes()
    ensures Byte(PAT, 0) == Encoding(WB) && Byte(PAT, 3) == Encoding(UC) && Byte(PAT, 7) == Encoding(WC)
  {
    assert Byte(PAT, 3) == Byte(0x1_0004_0600_0704, 2) == Byte(0x100_0406_0007, 1) == Byte(0x1_0004_0600, 0);
    assert Byte(PAT, 7) == Byte(0x1_0004_0600_0704, 6) == Byte(0x100_0406_0007, 5) == Byte(0x1_0004_0600, 4);
    assert Byte(0x1_0004_0600, 4) == Byte(0x100_0406, 3) == Byte(0x1_0004, 2) == Byte(0x100, 1) == Byte(1, 0);
  }

  // ----- what one store does to the walk -----

  /** The entry at which the walk ends, and its level. */
  datatype Mapping = Mapping(level: nat, e: Pte)

  function Leaf(s: Pt, n: nat): Mapping {
    var e3 := EntryAt(s, 3, n / 512 / 512);
    if e3.present && e3.big then Mapping(3, e3) else
    var e2 := EntryAt(s, 2, n / 512);
    if e2.present && e2.big then Mapping(2, e2) else Mapping(1, EntryAt(s, 1, n))
  }

  /** The frame that it gives page `n`. */
  function FrameOf(m: Mapping, n: nat): Phys {
    if m.level == 3 then Mapped(Base(m.e.pfn, 0x40000) + n % 0x40000)
    else if m.level == 2 then Mapped(Base(m.e.pfn, 512) + n % 512)
    else if m.e.present then Mapped(m.e.pfn) else Unmapped
  }

  lemma {:induction false} TransOfLeaf(s: Pt, n: nat)
    ensures Trans(s, n) == FrameOf(Leaf(s, n), n)
  {
  }

  lemma {:induction false} MapSmall(s: Pt, owner: map<nat, Place>, q: nat, e: Pte, n: nat)
    requires Owned(s, owner) && Writable(s, 1, q)
    ensures Leaf(SetEntry(s, 1, q, e), n) == if n == q then Mapping(1, e) else Leaf(s, n)
  {
    StoreEntry(s, owner, 1, q, e, 3, n / 512 / 512);
    StoreEntry(s, owner, 1, q, e, 2, n / 512);
    StoreEntry(s, owner, 1, q, e, 1, n);
  }

  lemma {:induction false} MapMedium(s: Pt, owner: map<nat, Place>, q: nat, e: Pte, n: nat)
    requires Owned(s, owner) && Writable(s, 2, q) && e.present && e.big
    ensures Leaf(SetEntry(s, 2, q, e), n) == if n / 512 == q then Mapping(2, e) else Leaf(s, n)
  {
    StoreEntry(s, owner, 2, q, e, 3, n / 512 / 512);
    StoreEntry(s, owner, 2, q, e, 2, n / 512);
    StoreEntry(s, owner, 2, q, e, 1, n);
    AncStep(n, 0);
  }

  lemma {:induction false} MapLarge(s: Pt, owner: map<nat, Place>, q: nat, e: Pte, n: nat)
    requires Owned(s, owner) && Writable(s, 3, q) && e.present && e.big
    ensures Leaf(SetEntry(s, 3, q, e), n) == if n / 512 / 512 == q then Mapping(3, e) else Leaf(s, n)
  {
    StoreEntry(s, owner, 3, q, e, 3, n / 512 / 512);
    StoreEntry(s, owner, 3, q, e, 2, n / 512);
    StoreEntry(s, owner, 3, q, e, 1, n);
    AncStep(n, 0);
    AncStep(n, 1);
    AncStep(n / 512, 0);
  }

  /** The pages that one entry of level `l` maps. */
  function PagesOf(l: nat): (k: nat)
    ensures k > 0
  {
    if l == 1 then 1 else if l == 2 then 512 else 0x40000
  }

  /** The walk of `t` ends at entry `e` of level `l` for the pages of the block from `b` on, and elsewhere as in `s`. */
  ghost predicate MapsBlock(s: Pt, t: Pt, b: nat, l: nat, e: Pte) {
    forall n: nat :: Leaf(t, n) == if b <= n < b + PagesOf(l) then Mapping(l, e) else Leaf(s, n)
  }

  /** Storing an entry of level `l` for the aligned block of pages from `b` on, after the tables for it were made. */
  lemma {:induction false} MapBlock(s: Pt, t: Pt, owner: map<nat, Place>, l: nat, b: nat, e: Pte)
    requires Extends(s, t, true) && Owned(t, owner) && 1 <= l <= 3 && b % PagesOf(l) == 0
    requires Writable(t, l, Anc(b, l - 1)) && e.present && (l > 1 ==> e.big)
    ensures MapsBlock(s, SetEntry(t, l, Anc(b, l - 1), e), b, l, e)
  {
    var u, k := SetEntry(t, l, Anc(b, l - 1), e), PagesOf(l);
    forall n: nat
      ensures Leaf(u, n) == if b <= n < b + k then Mapping(l, e) else Leaf(s, n)
    {
      StoredLeaf(t, owner, l, b, e, n);
      ExtendsLeaf(s, t, n);
    }
    assert MapsBlock(s, u, b, l, e);
  }

  lemma {:induction false} StoredLeaf(t: Pt, owner: map<nat, Place>, l: nat, b: nat, e: Pte, n: nat)
    requires Owned(t, owner) && 1 <= l <= 3 && b % PagesOf(l) == 0
    requires Writable(t, l, Anc(b, l - 1)) && e.present && (l > 1 ==> e.big)
    ensures Leaf(SetEntry(t, l, Anc(b, l - 1), e), n) == if b <= n < b + PagesOf(l) then Mapping(l, e) else Leaf(t, n)
  {
    AncStep(b, 0);
    AncStep(b, 1);
    if l == 1 {
      MapSmall(t, owner, b, e, n);
    } else if l == 2 {
      assert Anc(b, 1) == b / 512;
      MapMedium(t, owner, b / 512, e, n);
      InMedium(n, b);
    } else {
      assert Anc(b, 2) == b / 512 / 512;
      MapLarge(t, owner, b / 512 / 512, e, n);
      InLarge(n, b);
    }
  }

  lemma {:induction false} ExtendsLeaf(s: Pt, t: Pt, n: nat)
    requires Extends(s, t, true)
    ensures Leaf(t, n) == Leaf(s, n)
  {
    assert EntryAt(t, 1, n) == EntryAt(s, 1, n);
    var q3, q2 := n / 512 / 512, n / 512;
    assert EntryAt(t, 3, q3) == EntryAt(s, 3, q3) || (!EntryAt(s, 3, q3).present && Pointer(EntryAt(t, 3, q3)));
    assert EntryAt(t, 2, q2) == EntryAt(s, 2, q2) || (!EntryAt(s, 2, q2).present && Pointer(EntryAt(t, 2, q2)));
  }

  lemma {:induction false} InMedium(n: nat, b: nat)
    requires b % 512 == 0
    ensures n / 512 == b / 512 <==> b <= n < b + 512
    ensures b <= n < b + 512 ==> n % 512 == n - b
  {
  }

  lemma {:induction false} InLarge(n: nat, b: nat)
    requires b % 0x40000 == 0
    ensures n / 512 / 512 == b / 512 / 512 <==> b <= n < b + 0x40000
    ensures b <= n < b + 0x40000 ==> n % 0x40000 == n - b
  {
    assert n / 512 / 512 == n / 0x40000 && b / 512 / 512 == b / 0x40000;
  }

  lemma {:induction false} BaseOf(f: nat, pfn: nat, k: nat)
    requires (k == 512 || k == 0x40000) && f % k == 0 && f <= pfn <= f + 1
    ensures Base(pfn, k) == f
  {
  }

  /** An aligned frame is even, so its lowest bit is free for PAT. */
  lemma {:induction false} PatOdd(f: nat, l: nat)
    requires 2 <= l <= 3 && f % PagesOf(l) == 0
    ensures f % 2 == 0 && (f + 1) % 2 == 1
  {
    if l == 2 {
      Even(f / 512 * 256);
    } else {
      Even(f / 0x40000 * 0x20000);
    }
  }

  lemma {:induction false} Even(n: nat)
    ensures 2 * n % 2 == 0 && (2 * n + 1) % 2 == 1
  {
  }

  /**
    The mapping of page `n` to frame `f` that pae64_directmap is asked for: writable, for the kernel,
    not executable unless asked, of memory type `mt`.
   */
  ghost predicate IsPage(m: Mapping, n: nat, f: nat, mt: MemType, x: bool, nx: bool) {
    && FrameOf(m, n) == Mapped(f) && TypeOf(m) == Encoding(mt)
    && WriteBit(m.e.bits) && !UserBit(m.e.bits) && (NxBit(m.e.bits) <==> nx && !x)
  }

  lemma {:induction false} PageIs(l: nat, b: nat, f: nat, n: nat, mt: MemType, x: bool, nx: bool)
    requires 1 <= l <= 3 && b % PagesOf(l) == 0 && f % PagesOf(l) == 0 && b <= n < b + PagesOf(l)
    ensures IsPage(Mapping(l, PageAt(l, f, mt, x, nx)), n, f + n - b, mt, x, nx)
  {
    var e := PageAt(l, f, mt, x, nx);
    PatBytes();
    if l == 2 {
      PatOdd(f, 2);
      BaseOf(f, e.pfn, 512);
      InMedium(n, b);
    } else if l == 3 {
      PatOdd(f, 3);
      BaseOf(f, e.pfn, 0x40000);
      InLarge(n, b);
    }
    hide Byte, WriteBit, UserBit, NxBit, PwtBit, PcdBit, Base, PageFlags;
  }

  // ----- the page sizes -----

  /** A page of level `l` can serve the block from `b` on: both ends are aligned and all of it is asked for. */
  predicate Serves(l: nat, b: nat, v: nat, p: nat, size: nat) {
    v <= b && b % PagesOf(l) == 0 && (p + b - v) % PagesOf(l) == 0 && 4096 * (b - v + PagesOf(l)) <= size
  }

  function BlockOf(n: nat, l: nat): nat {
    n / PagesOf(l) * PagesOf(l)
  }

  /** The largest page that can serve page `n`, 1 GB pages only where the processor has them. */
  function LevelFor(n: nat, v: nat, p: nat, size: nat, p1g: bool): nat {
    if p1g && Serves(3, BlockOf(n, 3), v, p, size) then 3
    else if Serves(2, BlockOf(n, 2), v, p, size) then 2
    else 1
  }

  /** The loop never stands inside a block that a large page could serve. */
  ghost predicate AtEdge(c: nat, v: nat, p: nat, size: nat, p1g: bool) {
    && (p1g && Serves(3, BlockOf(c, 3), v, p, size) ==> BlockOf(c, 3) == c)
    && (Serves(2, BlockOf(c, 2), v, p, size) ==> BlockOf(c, 2) == c)
  }

  lemma {:induction false} Blocks(n: nat, k: nat)
    requires k == 512 || k == 0x40000
    ensures var b := n / k * k;
            b <= n < b + k && b % k == 0 && (n % k == 0 ==> b == n)
  {
  }

  /** A block of `k` pages is the only one around its pages. */
  lemma {:induction false} SameBlock(b: nat, n: nat, k: nat)
    requires (k == 512 || k == 0x40000) && b % k == 0 && b <= n < b + k
    ensures n / k * k == b
  {
  }

  /** The first range of a run begins no later than its own first block. */
  lemma {:induction false} EdgeStart(v: nat, p: nat, size: nat, p1g: bool)
    ensures AtEdge(v, v, p, size, p1g)
  {
    Blocks(v, 512);
    Blocks(v, 0x40000);
  }

  /** The block of a page of level `l`, chosen by the alignment of its first page, is served by that level throughout. */
  lemma {:induction false} LevelChosen(c: nat, n: nat, v: nat, p: nat, size: nat, p1g: bool)
    requires AtEdge(c, v, p, size, p1g)
    requires var l := LevelFor(c, v, p, size, p1g);
             c <= n < c + PagesOf(l)
    ensures LevelFor(n, v, p, size, p1g) == LevelFor(c, v, p, size, p1g)
  {
    var l := LevelFor(c, v, p, size, p1g);
    Blocks(c, 512);
    Blocks(c, 0x40000);
    if l == 3 {
      SameBlock(c, n, 0x40000);
    } else if l == 2 {
      SameBlock(c, n, 512);
      InSameLarge(c, n);
    }
  }

  lemma {:induction false} InSameLarge(c: nat, n: nat)
    requires c % 512 == 0 && c <= n < c + 512
    ensures n / 0x40000 == c / 0x40000
  {
    var k := c / 512;
    assert c == 512 * k && n / 512 == k;
    assert n / 0x40000 == n / 512 / 512 && c / 0x40000 == c / 512 / 512;
  }

  /** After that block the loop is at an edge again. */
  lemma {:induction false} EdgeNext(c: nat, v: nat, p: nat, size: nat, p1g: bool)
    requires AtEdge(c, v, p, size, p1g) && v <= c
    ensures AtEdge(c + PagesOf(LevelFor(c, v, p, size, p1g)), v, p, size, p1g)
  {
    var l := LevelFor(c, v, p, size, p1g);
    var c' := c + PagesOf(l);
    Blocks(c, 512);
    Blocks(c, 0x40000);
    Blocks(c', 512);
    Blocks(c', 0x40000);
    NoneBetween(c, l, 512);
    NoneBetween(c, l, 0x40000);
    hide Serves;
  }

  /** A step of the loop does not jump over the start of a block. */
  lemma {:induction false} NoneBetween(c: nat, l: nat, k: nat)
    requires (k == 512 || k == 0x40000) && 1 <= l <= 3 && c % PagesOf(l) == 0
    ensures var c' := c + PagesOf(l);
            PagesOf(l) < k ==> c' / k * k == c' || c' / k * k == c / k * k
    ensures PagesOf(l) >= k ==> (c + PagesOf(l)) / k * k == c + PagesOf(l)
  {
    if l == 1 {
      OneOn(c, k);
    } else if l == 2 {
      var m := c / 512;
      assert c == 512 * m;
      if k == 512 {
        BlockStart(m + 1, 512);
      } else {
        OneOn(m, 512);
        LargeOf(m);
        LargeOf(m + 1);
      }
    } else {
      var m := c / 0x40000;
      assert c == 0x40000 * m;
      if k == 512 {
        BlockStart(512 * (m + 1), 512);
      } else {
        BlockStart(m + 1, 0x40000);
      }
    }
  }

  lemma {:induction false} OneOn(c: nat, k: nat)
    requires k == 512 || k == 0x40000
    ensures (c + 1) / k * k == c + 1 || (c + 1) / k * k == c / k * k
  {
  }

  lemma {:induction false} BlockStart(m: nat, k: nat)
    requires k == 512 || k == 0x40000
    ensures k * m / k * k == k * m
  {
  }

  lemma {:induction false} LargeOf(m: nat)
    ensures 512 * m / 0x40000 * 0x40000 == 512 * (m / 512 * 512)
  {
    var j, i := m / 512, m % 512;
    assert 512 * m == 0x40000 * j + 512 * i;
    BlockFrom(j, 512 * i);
  }

  lemma {:induction false} BlockFrom(j: nat, i: nat)
    requires i < 0x40000
    ensures (0x40000 * j + i) / 0x40000 == j
  {
  }

  lemma {:induction false} PageStep(va: nat, d: nat, n: nat)
    requires va % 4096 == 0 && d < n && Uncanon(va) + 4096 * n <= 0x1_0000_0000_0000
    ensures Page(va + 4096 * d) == Page(va) + d
  {
    var h := va / 0x1_0000_0000_0000;
    assert va + 4096 * d == h * 0x1_0000_0000_0000 + (Uncanon(va) + 4096 * d);
  }

  /** Addresses of whole pages are aligned as their page numbers are. */
  lemma {:induction false} Aligned(a: nat, l: nat)
    requires 2 <= l <= 3 && a % 4096 == 0
    ensures a % (4096 * PagesOf(l)) == 0 <==> Page(a) % PagesOf(l) == 0
    ensures a % (4096 * PagesOf(l)) == 0 <==> a / 4096 % PagesOf(l) == 0
  {
    var k, h := a / 4096, a / 0x1_0000_0000_0000;
    assert a == 4096 * k;
    assert Page(a) == k - 0x10_0000_0000 * h by { PageNumber(a, k, h); }
    if l == 2 {
      Multiples(k, h, 512);
    } else {
      Multiples(k, h, 0x40000);
    }
  }

  lemma {:induction false} PageNumber(a: nat, k: nat, h: nat)
    requires a == 4096 * k && h == a / 0x1_0000_0000_0000
    ensures Page(a) == k - 0x10_0000_0000 * h
  {
    var y := k - 0x10_0000_0000 * h;
    assert a == 0x1_0000_0000_0000 * h + 4096 * y;
    UncanonOf(h, 4096 * y);
    hide Uncanon;
    PageOf(y);
  }

  lemma {:induction false} Multiples(k: nat, h: nat, j: nat)
    requires (j == 512 || j == 0x40000) && 0x10_0000_0000 * h <= k
    ensures 4096 * k % (4096 * j) == 0 <==> k % j == 0
    ensures k % j == 0 <==> (k - 0x10_0000_0000 * h) % j == 0
  {
    var a, b := k / j, k % j;
    assert 0 <= b < j && k == a * j + b;
    if j == 512 {
      RestOf512(a, b);
      RestOf512(a - 0x800_0000 * h, b);
    } else {
      RestOf40000(a, b);
      RestOf40000(a - 0x4_0000 * h, b);
    }
  }

  lemma {:induction false} RestOf512(a: int, b: nat)
    requires b < 512
    ensures (512 * a + b) % 512 == b && 4096 * (512 * a + b) % 0x20_0000 == 4096 * b
  {
    assert 4096 * (512 * a + b) == 0x20_0000 * a + 4096 * b;
  }

  lemma {:induction false} RestOf40000(a: int, b: nat)
    requires b < 0x40000
    ensures (0x40000 * a + b) % 0x40000 == b && 4096 * (0x40000 * a + b) % 0x4000_0000 == 4096 * b
  {
    assert 4096 * (0x40000 * a + b) == 0x4000_0000 * a + 4096 * b;
  }

  lemma {:induction false} PageOf(n: nat)
    ensures 4096 * n / 4096 == n
  {
  }

  function PagesIn(size: nat): nat {
    (size + 4095) / 4096
  }

  /** The first `d` pages from `v` on are mapped as asked, by the largest pages that can serve them; all else is as in `s`. */
  ghost predicate Served(s: Pt, t: Pt, r: Request, d: nat) {
    forall n: nat ::
      if r.v <= n < r.v + d then ServedPage(Leaf(t, n), r, n) else Leaf(t, n) == Leaf(s, n)
  }

  /** What pae64_directmap is asked for, in pages. */
  datatype Request = Request(v: nat, p: nat, size: nat, mt: MemType, x: bool, nx: bool, p1g: bool)

  ghost predicate ServedPage(m: Mapping, r: Request, n: nat)
    requires r.v <= n
  {
    m.level == LevelFor(n, r.v, r.p, r.size, r.p1g) && IsPage(m, n, r.p + n - r.v, r.mt, r.x, r.nx)
  }

  lemma {:induction false} ServedJoin(s: Pt, t: Pt, u: Pt, r: Request, d: nat, l: nat)
    requires Served(s, t, r, d) && AtEdge(r.v + d, r.v, r.p, r.size, r.p1g) && l == LevelFor(r.v + d, r.v, r.p, r.size, r.p1g)
    requires (r.v + d) % PagesOf(l) == 0 && (r.p + d) % PagesOf(l) == 0
    requires MapsBlock(t, u, r.v + d, l, PageAt(l, r.p + d, r.mt, r.x, r.nx))
    ensures Served(s, u, r, d + PagesOf(l)) && AtEdge(r.v + (d + PagesOf(l)), r.v, r.p, r.size, r.p1g)
  {
    var c := r.v + d;
    EdgeNext(c, r.v, r.p, r.size, r.p1g);
    hide LevelFor, AtEdge, PageAt, IsPage, Leaf;
    forall n: nat
      ensures if r.v <= n < r.v + (d + PagesOf(l)) then ServedPage(Leaf(u, n), r, n) else Leaf(u, n) == Leaf(s, n)
    {
      if c <= n < c + PagesOf(l) {
        LevelChosen(c, n, r.v, r.p, r.size, r.p1g);
        PageIs(l, c, r.p + d, n, r.mt, r.x, r.nx);
      }
    }
  }

  /** The translations that follow. */
  lemma {:induction false} ServedTrans(s: Pt, t: Pt, r: Request, d: nat, n: nat)
    requires Served(s, t, r, d)
    ensures Trans(t, n) == if r.v <= n < r.v + d then Mapped(r.p + n - r.v) else Trans(s, n)
  {
    TransOfLeaf(s, n);
    TransOfLeaf(t, n);
    hide Leaf, FrameOf, TypeOf, LevelFor;
  }

  /** Every table is one that was there, or a new one that all may use. */
  ghost predicate TablesFrom(s: Pt, t: Pt) {
    forall l: nat, q: nat :: 2 <= l <= 4 && Pointer(EntryAt(t, l, q)) ==>
      EntryAt(t, l, q) == EntryAt(s, l, q) || NewTable(EntryAt(t, l, q), true)
  }

  lemma {:induction false} TablesStored(s: Pt, t: Pt, owner: map<nat, Place>, l: nat, q: nat, e: Pte)
    requires Extends(s, t, true) && Owned(t, owner) && Writable(t, l, q) && (l >= 2 ==> !Pointer(e))
    ensures TablesFrom(s, SetEntry(t, l, q, e))
  {
    hide WriteBit, UserBit;
    forall m: nat, r: nat | 2 <= m <= 4
      ensures var x := EntryAt(SetEntry(t, l, q, e), m, r);
              Pointer(x) ==> x == EntryAt(s, m, r) || NewTable(x, true)
    {
      StoreEntry(t, owner, l, q, e, m, r);
    }
  }

  lemma {:induction false} TablesJoin(s: Pt, t: Pt, u: Pt)
    requires TablesFrom(s, t) && TablesFrom(t, u)
    ensures TablesFrom(s, u)
  {
  }

  /** The tests of the loop: 1 GB pages, then 2 MB pages, then 4 KB pages. */
  function Tested(va: nat, pa: nat, len: int, p1g: bool): nat {
    if p1g && pa % 0x4000_0000 == 0 && va % 0x4000_0000 == 0 && len >= 0x4000_0000 then 3
    else if pa % 0x20_0000 == 0 && va % 0x20_0000 == 0 && len >= 0x20_0000 then 2
    else 1
  }

  /** They choose the largest page that can serve the page reached. */
  lemma {:induction false} TestedLevel(r: Request, va: nat, pa: nat, d: nat)
    requires AtEdge(r.v + d, r.v, r.p, r.size, r.p1g) && 4096 * d < r.size
    requires va % 4096 == 0 && pa % 4096 == 0 && Page(va) == r.v + d && pa / 4096 == r.p + d
    ensures var l := Tested(va, pa, r.size - 4096 * d, r.p1g);
            && l == LevelFor(r.v + d, r.v, r.p, r.size, r.p1g) && d + PagesOf(l) <= PagesIn(r.size)
            && (r.v + d) % PagesOf(l) == 0 && (r.p + d) % PagesOf(l) == 0
  {
    Aligned(va, 2);
    Aligned(va, 3);
    Aligned(pa, 2);
    Aligned(pa, 3);
    Greedy(r, d, Tested(va, pa, r.size - 4096 * d, r.p1g));
    hide Page, LevelFor, AtEdge;
  }

  lemma {:induction false} FrameStep(a: nat, d: nat)
    requires a % 4096 == 0
    ensures (a + 4096 * d) % 4096 == 0 && (a + 4096 * d) / 4096 == a / 4096 + d
  {
  }

  /** The page reached by the loop is still unmapped. */
  lemma {:induction false} StillFree(s: Pt, t: Pt, r: Request, vabase: nat, pabase: nat, d: nat)
    requires Served(s, t, r, d) && 4096 * d < r.size
    requires pabase % 4096 == 0 && vabase % 4096 == 0 && r.v == Page(vabase) && r.p == pabase / 4096
    requires Uncanon(vabase) + 4096 * PagesIn(r.size) <= 0x1_0000_0000_0000
    requires forall n: nat :: r.v <= n < r.v + PagesIn(r.size) ==> Free(s, n)
    ensures var va, pa := vabase + 4096 * d, pabase + 4096 * d;
            && Page(va) == r.v + d && pa / 4096 == r.p + d && va % 4096 == 0 && pa % 4096 == 0
            && Off(va, 4) != s.hole && Trans(t, Page(va)) == Unmapped
  {
    hide Served, Trans, Page, Uncanon, Off;
    var va := vabase + 4096 * d;
    FrameStep(vabase, d);
    FrameStep(pabase, d);
    assert d < PagesIn(r.size);
    PageStep(vabase, d, PagesIn(r.size));
    assert Free(s, Page(va));
    RootIndex(va);
    ServedTrans(s, t, r, d, Page(va));
  }

  /** At an edge, what the tests see of the first page is what serves its block. */
  lemma {:induction false} Greedy(r: Request, d: nat, l: nat)
    requires AtEdge(r.v + d, r.v, r.p, r.size, r.p1g) && 4096 * d < r.size
    requires l == if r.p1g && (r.p + d) % 0x40000 == 0 && (r.v + d) % 0x40000 == 0 && r.size - 4096 * d >= 0x4000_0000 then 3
                  else if (r.p + d) % 512 == 0 && (r.v + d) % 512 == 0 && r.size - 4096 * d >= 0x20_0000 then 2 else 1
    ensures l == LevelFor(r.v + d, r.v, r.p, r.size, r.p1g) && d + PagesOf(l) <= PagesIn(r.size)
  {
    Blocks(r.v + d, 512);
    Blocks(r.v + d, 0x40000);
  }

  /** The page is not mapped, and not in the slot of the linear window. */
  ghost predicate Free(s: Pt, n: nat) {
    Trans(s, n) == Unmapped && Anc(n, 3) != s.hole
  }

  /** A page that is not mapped has no big page above it. */
  lemma {:induction false} NotBig(s: Pt, va: nat)
    requires Trans(s, Page(va)) == Unmapped
    ensures !(EntryAt(s, 3, EntryNo(va, 3)).present && EntryAt(s, 3, EntryNo(va, 3)).big)
    ensures !(EntryAt(s, 2, EntryNo(va, 2)).present && EntryAt(s, 2, EntryNo(va, 2)).big)
  {
    AncStep(Page(va), 0);
    AncStep(Page(va), 1);
  }

  ghost predicate TopPointers(s: Pt) {
    forall q: nat :: EntryAt(s, 4, q).present ==> Pointer(EntryAt(s, 4, q))
  }

  lemma {:induction false} TopKept(s: Pt, t: Pt)
    requires Extends(s, t, true) && TopPointers(s)
    ensures TopPointers(t)
  {
    forall q: nat
      ensures EntryAt(t, 4, q).present ==> Pointer(EntryAt(t, 4, q))
    {
      assert EntryAt(t, 4, q) == EntryAt(s, 4, q) || (!EntryAt(s, 4, q).present && Pointer(EntryAt(t, 4, q)));
    }
  }

  lemma {:induction false} TopStored(s: Pt, owner: map<nat, Place>, l: nat, q: nat, e: Pte)
    requires Owned(s, owner) && Writable(s, l, q) && 1 <= l <= 3 && TopPointers(s)
    ensures TopPointers(SetEntry(s, l, q, e))
  {
    forall r: nat
      ensures EntryAt(SetEntry(s, l, q, e), 4, r) == EntryAt(s, 4, r)
    {
    }
  }

  /** PTE_W */
  const WINDOW_BITS := 2

  class BootTables {
    const root: array<Pte>
    /** The root slot of the linear window, if it is already set; 512 or more if not. */
    const hole: nat
    /** The contents of all pages, and the pages that get_page and get_payload_page will hand out. */
    var mem: map<nat, Table>
    var pool: seq<nat>
    ghost var owner: map<nat, Place>

    ghost function Space(): Pt
      reads this, root
    {
      Pt(root[..], mem, hole)
    }

    ghost predicate Valid()
      reads this, root
    {
      root.Length == 512 && Owned(Space(), owner) && TopPointers(Space()) && Spare(pool, owner) && 0 !in owner && 0 !in pool
    }

    /** pae64_init, and pae64_linear for the slot `hole` if there is one: nothing is mapped. */
    constructor (cr3: nat, pages: map<nat, Table>, spare: seq<nat>, hole: nat)
      requires NoDup(spare) && 0 !in spare
      ensures Valid() && this.hole == hole && pool == spare && forall n: nat :: Trans(Space(), n) == Unmapped
      ensures hole < 512 ==> root[hole] == Pte(cr3, true, false, WINDOW_BITS)
      ensures fresh(root)
    {
      root := new Pte[512](i => if i == hole then Pte(cr3, true, false, WINDOW_BITS) else ZERO);
      this.hole := hole;
      mem, pool, owner := pages, spare, map[];
      new;
      EmptyTables(Space());
      assert TopPointers(Space());
    }

    /**
      The common part of pae64_get_l3p, pae64_get_l2p and pae64_get_l1p: the table under entry `q` of
      level `l`, made if pte_getaddr gives no address.  `t` is the table of that entry.
     */
    method TableUnder(l: nat, q: nat, t: nat) returns (ok: bool, f: nat)
      requires Valid() && l >= 2 && Writable(Space(), l, q)
      requires l < 4 ==> EntryAt(Space(), l + 1, q / 512).pfn == t
      requires EntryAt(Space(), l, q).present ==> Pointer(EntryAt(Space(), l, q))
      modifies this, root
      ensures Valid() && Extends(old(Space()), Space(), true)
      ensures ok ==> Reached(Space(), l - 1, q, f)
      ensures !ok ==> pool == []
    {
      hide WriteBit, UserBit;
      TableRights();
      ghost var s := Space();
      EntryStored(s, owner, l, q);
      var e := if l == 4 then root[q] else mem[t][q % 512];
      f := if e.present then e.pfn else 0;
      assert e.present ==> Reached(s, l - 1, q, f);
      if f == 0 {
        if pool == [] {
          return false, 0;
        }
        f := pool[0];
        AddTableStores(s, owner, l, q, f, TABLE_BITS);
        AddTableExtends(s, owner, l, q, f, TABLE_BITS);
        AddTableOwned(s, owner, l, q, f, TABLE_BITS);
        TopKept(s, AddTable(s, l, q, f, TABLE_BITS));
        pool := pool[1..];
        mem := mem[f := ZeroTable()];
        e := Pte(f, true, false, TABLE_BITS);
        if l == 4 {
          root[q] := e;
        } else {
          mem := mem[t := mem[t][q % 512 := e]];
        }
        owner := owner[f := Place(l - 1, q)];
        assert Space() == AddTable(s, l, q, f, TABLE_BITS);
      }
      return true, f;
    }

    /** pae64_get_l3p, pae64_get_l2p and pae64_get_l1p up to the offset: the level-`l` table of `va`. */
    method TableFor(va: nat, l: nat) returns (ok: bool, f: nat)
      requires Valid() && 1 <= l <= 3 && Off(va, 4) != hole && Trans(Space(), Page(va)) == Unmapped
      modifies this, root
      ensures Valid() && Extends(old(Space()), Space(), true)
      ensures ok ==> Reached(Space(), l, EntryNo(va, l + 1), f)
      ensures !ok ==> pool == []
      decreases 3 - l
    {
      hide WriteBit, UserBit, Owned, Extends;
      RootIndex(va);
      AncStep(Page(va), l);
      f := 0;
      if l < 3 {
        ok, f := TableFor(va, l + 1);
        if !ok {
          return false, 0;
        }
        ExtendsTrans(old(Space()), Space(), true, Page(va));
        NotBig(Space(), va);
      }
      ghost var s := Space();
      ok, f := TableUnder(l + 1, EntryNo(va, l + 1), f);
      ExtendsTransitive(old(Space()), s, Space(), true);
    }

    /** One round of pae64_directmap: a page of the size of level `l` at `va`. */
    method MapOne(va: nat, l: nat, e: Pte) returns (ok: bool)
      requires Valid() && 1 <= l <= 3 && Off(va, 4) != hole && Trans(Space(), Page(va)) == Unmapped
      requires Page(va) % PagesOf(l) == 0 && e.present && (l > 1 ==> e.big)
      modifies this, root
      ensures Valid()
      ensures ok ==> MapsBlock(old(Space()), Space(), Page(va), l, e) && TablesFrom(old(Space()), Space())
      ensures !ok ==> pool == []
    {
      var f;
      ok, f := TableFor(va, l);
      if !ok {
        return;
      }
      ghost var s := Space();
      ghost var q := EntryNo(va, l);
      OffDigit(va, l);
      AncStep(Page(va), l - 1);
      EntryStored(s, owner, l, q);
      StoreOwned(s, owner, l, q, e);
      TopStored(s, owner, l, q, e);
      mem := mem[f := mem[f][Off(va, l) := e]];
      assert Space() == SetEntry(s, l, q, e);
      MapBlock(old(Space()), s, owner, l, Page(va), e);
      TablesStored(old(Space()), s, owner, l, q, e);
      owner := Outside(owner, l, q);
    }

    /**
      pae64_directmap: every page of the range is mapped to its frame, writable, for the kernel, with the
      memory type and the right to execute that are asked for, by the largest page that can serve it, 1 GB
      pages only where the processor has them; no other page is mapped differently.  It fails only when no
      page is left for a table.
     */
    method Directmap(pabase: nat, vabase: nat, size: nat, mt: MemType, x: bool, nx: bool, p1g: bool) returns (ok: bool)
      requires Valid() && pabase % 4096 == 0 && vabase % 4096 == 0
      requires Uncanon(vabase) + 4096 * PagesIn(size) <= 0x1_0000_0000_0000
      requires forall n: nat :: Page(vabase) <= n < Page(vabase) + PagesIn(size) ==> Free(Space(), n)
      modifies this, root
      ensures Valid()
      ensures ok ==> Served(old(Space()), Space(), Request(Page(vabase), pabase / 4096, size, mt, x, nx, p1g), PagesIn(size))
      ensures ok ==> TablesFrom(old(Space()), Space())
      ensures !ok ==> pool == []
    {
      hide Trans, EntryAt, Served, TablesFrom, AtEdge, LevelFor, MapsBlock, Owned, Uncanon, Page;
      ghost var s := Space();
      ghost var d: nat := 0;
      ghost var r := Request(Page(vabase), pabase / 4096, size, mt, x, nx, p1g);
      NothingServed(s, r);
      var va, pa, len := vabase, pabase, size as int;
      while len > 0
        invariant Valid() && Served(s, Space(), r, d) && TablesFrom(s, Space()) && d <= PagesIn(size)
        invariant AtEdge(r.v + d, r.v, r.p, size, p1g)
        invariant va == vabase + 4096 * d && pa == pabase + 4096 * d && len == size - 4096 * d
        decreases len
      {
        var l := Tested(va, pa, len, p1g);
        var e := PageAt(l, pa / 4096, mt, x, nx);
        StillFree(s, Space(), r, vabase, pabase, d);
        TestedLevel(r, va, pa, d);
        ghost var t := Space();
        ok := MapOne(va, l, e);
        if !ok {
          return;
        }
        ServedJoin(s, t, Space(), r, d, l);
        TablesJoin(s, t, Space());
        va, pa, len := va + 4096 * PagesOf(l), pa + 4096 * PagesOf(l), len - 4096 * PagesOf(l);
        d := d + PagesOf(l);
      }
      return true;
    }
  }

  lemma {:induction false} NothingServed(s: Pt, r: Request)
    ensures Served(s, s, r, 0) && TablesFrom(s, s) && AtEdge(r.v + 0, r.v, r.p, r.size, r.p1g)
  {
    EdgeStart(r.v, r.p, r.size, r.p1g);
  }
}
