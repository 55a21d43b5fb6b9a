/**
  The searchable bitmap of include/stree.h.  A word of the tree is kept as the set of
  its set bits, so the empty set is the word zero.
 */
module STree {
  import opened Powers
  import opened STreeLayout

  type Word = set<nat>

  /** lmap_bitoff */
  function LmapBitoff(l: nat, a: nat): nat {
    Shift(a, 6 * l)
  }

  /** The bit of level `l` that covers address `a`. */
  function Up(a: nat, l: nat): nat {
    if l == 0 then a else Up(a, l - 1) / 64
  }

  lemma {:induction false} UpShift(a: nat, l: nat)
    ensures Up(a, l) == LmapBitoff(l, a)
    decreases l
  {
    if l == 0 {
      assert Pow2(0) == 1;
    } else {
      UpShift(a, l - 1);
      var p := Pow2(6 * (l - 1));
      assert Pow2(6 * l) == p * 64 by { Pow2Six(6 * (l - 1)); }
      DivDiv(a, p, 64);
    }
  }

  lemma {:induction false} UpRange(o: nat, a: nat, l: nat)
    requires o >= 1 && a < Pow2(o) && l < Levels(o)
    ensures Up(a, l) < Pow2(o - 6 * l) && InLevel(o, l, Up(a, l) / 64)
    decreases l
  {
    if l > 0 {
      UpRange(o, a, l - 1);
      Pow2Six(o - 6 * l);
    }
    if 6 * (l + 1) <= o {
      Pow2Six(o - 6 * (l + 1));
    } else {
      Pow2Mono(o - 6 * l, 6);
      Pow2Six(0);
    }
  }

  // ----- the tree as a sequence of words -----

  function WordOf(s: seq<Word>, o: nat, l: nat, k: nat): Word {
    if WordAt(o, l, k) < |s| then s[WordAt(o, l, k)] else {}
  }

  function PutWord(s: seq<Word>, o: nat, l: nat, k: nat, w: Word): (r: seq<Word>)
    ensures |r| == |s|
  {
    if WordAt(o, l, k) < |s| then s[WordAt(o, l, k) := w] else s
  }

  lemma {:induction false} PutGet(s: seq<Word>, o: nat, l: nat, k: nat, w: Word, m: nat, j: nat)
    requires o >= 1 && |s| == Size(o) && InLevel(o, l, k) && InLevel(o, m, j)
    ensures WordOf(PutWord(s, o, l, k, w), o, m, j) == if m == l && j == k then w else WordOf(s, o, m, j)
  {
    WordsDisjoint(o, l, k, m, j);
  }

  /** The bits of a word belong to its level. */
  ghost predicate WordOk(o: nat, l: nat, k: nat, w: Word)
    requires l < Levels(o)
  {
    forall b :: b in w ==> b < 64 && 64 * k + b < Pow2(o - 6 * l)
  }

  predicate BitAt(s: seq<Word>, o: nat, l: nat, x: nat) {
    x % 64 in WordOf(s, o, l, x / 64)
  }

  /** A bit of the next level is set exactly when the word it stands for is not zero. */
  ghost predicate Summary(s: seq<Word>, o: nat, l: nat, k: nat) {
    BitAt(s, o, l + 1, k) <==> WordOf(s, o, l, k) != {}
  }

  /** The tree is consistent, but for the summary of word `k` of level `p`. */
  ghost predicate GoodBut(s: seq<Word>, o: nat, p: int, k: nat) {
    && |s| == Size(o)
    && (forall m: nat, j: nat :: InLevel(o, m, j) ==> WordOk(o, m, j, WordOf(s, o, m, j)))
    && (forall m: nat, j: nat :: InLevel(o, m, j) && m + 1 < Levels(o) && !(m == p && j == k) ==> Summary(s, o, m, j))
  }

  ghost predicate Good(s: seq<Word>, o: nat) {
    GoodBut(s, o, -1, 0)
  }

  /** The set addresses. */
  ghost function Bits(s: seq<Word>, o: nat): set<nat> {
    set a: nat | a < Pow2(o) && BitAt(s, o, 0, a)
  }

  /** The bit that stands for a word is inside the next level. */
  lemma {:induction false} ParentInLevel(o: nat, m: nat, j: nat)
    requires o >= 1 && InLevel(o, m, j) && m + 1 < Levels(o)
    ensures InLevel(o, m + 1, j / 64) && j < Pow2(o - 6 * (m + 1))
  {
    if 6 * (m + 2) <= o {
      Pow2Six(o - 6 * (m + 2));
    } else {
      Pow2Mono(o - 6 * (m + 1), 6);
      Pow2Six(0);
    }
  }

  /**
    Storing a word of level `l` that differs from the old one in bit `x` only, and has that
    bit right for the level below, leaves at most the summary of the word itself wrong.
   */
  lemma {:induction false} StoreStep(s: seq<Word>, o: nat, l: nat, x: nat, w: Word, t: seq<Word>)
    requires o >= 1 && l < Levels(o) && GoodBut(s, o, l - 1, x) && InLevel(o, l, x / 64) && x < Pow2(o - 6 * l)
    requires forall b :: b != x % 64 ==> (b in w <==> b in WordOf(s, o, l, x / 64))
    requires l > 0 ==> (x % 64 in w <==> WordOf(s, o, l - 1, x) != {})
    requires t == PutWord(s, o, l, x / 64, w)
    ensures GoodBut(t, o, l, x / 64)
    ensures (w != {} <==> WordOf(s, o, l, x / 64) != {}) ==> Good(t, o)
    ensures forall m: nat, j: nat :: InLevel(o, m, j) ==>
              WordOf(t, o, m, j) == if m == l && j == x / 64 then w else WordOf(s, o, m, j)
  {
    var k := x / 64;
    forall m: nat, j: nat | InLevel(o, m, j)
      ensures WordOf(t, o, m, j) == if m == l && j == k then w else WordOf(s, o, m, j)
    {
      PutGet(s, o, l, k, w, m, j);
    }
    assert WordOk(o, l, k, WordOf(s, o, l, k));
    assert WordOk(o, l, k, w);
    var same := w != {} <==> WordOf(s, o, l, k) != {};
    forall m: nat, j: nat | InLevel(o, m, j) && m + 1 < Levels(o) && !(m == l && j == k && !same)
      ensures Summary(t, o, m, j)
    {
      ParentInLevel(o, m, j);
      if !(m == l - 1 && j == x) {
        assert Summary(s, o, m, j);
        assert j / 64 == k ==> j == x || j % 64 != x % 64;
      }
    }
  }

  // ----- setting a bit -----

  /** set_bit */
  function SetAt(s: seq<Word>, o: nat, l: nat, x: nat): seq<Word> {
    PutWord(s, o, l, x / 64, WordOf(s, o, l, x / 64) + {x % 64})
  }

  ghost predicate SameBelow(s: seq<Word>, r: seq<Word>, o: nat, l: nat) {
    forall m: nat, j: nat :: InLevel(o, m, j) && m < l ==> WordOf(r, o, m, j) == WordOf(s, o, m, j)
  }

  /** stree_setbit from level `l` on. */
  function SetFrom(s: seq<Word>, o: nat, a: nat, l: nat): seq<Word>
    decreases Levels(o) - l
  {
    if l >= Levels(o) then s
    else
      var t := SetAt(s, o, l, Up(a, l));
      if WordOf(s, o, l, Up(a, l) / 64) != {} then t else SetFrom(t, o, a, l + 1)
  }

  lemma {:induction false} SetFromGood(s: seq<Word>, o: nat, a: nat, l: nat)
    requires o >= 1 && a < Pow2(o) && l <= Levels(o) && GoodBut(s, o, l - 1, Up(a, l))
    requires l > 0 ==> WordOf(s, o, l - 1, Up(a, l)) != {}
    ensures var r := SetFrom(s, o, a, l);
            && Good(r, o)
            && SameBelow(s, r, o, l)
            && (l < Levels(o) ==> SameBelow(SetAt(s, o, l, Up(a, l)), r, o, l + 1))
    decreases Levels(o) - l
  {
    if l < Levels(o) {
      UpRange(o, a, l);
      var x := Up(a, l);
      var w := WordOf(s, o, l, x / 64);
      var t := SetAt(s, o, l, x);
      StoreStep(s, o, l, x, w + {x % 64}, t);
      if w == {} {
        SetFromGood(t, o, a, l + 1);
      }
    }
  }

  /** stree_setbit keeps the summaries and sets exactly one bit of the flat bitmap. */
  lemma {:induction false} SetBitCorrect(s: seq<Word>, o: nat, a: nat)
    requires o >= 1 && Good(s, o) && a < Pow2(o)
    ensures Good(SetFrom(s, o, a, 0), o) && Bits(SetFrom(s, o, a, 0), o) == Bits(s, o) + {a}
  {
    assert GoodBut(s, o, -1, Up(a, 0));
    SetFromGood(s, o, a, 0);
    var r := SetFrom(s, o, a, 0);
    AddressInLevel(o, a);
    forall b: nat | b < Pow2(o)
      ensures BitAt(r, o, 0, b) <==> b == a || BitAt(s, o, 0, b)
    {
      AddressInLevel(o, b);
      PutGet(s, o, 0, a / 64, WordOf(s, o, 0, a / 64) + {a % 64}, 0, b / 64);
    }
  }

  lemma {:induction false} AddressInLevel(o: nat, a: nat)
    requires o >= 1 && a < Pow2(o)
    ensures InLevel(o, 0, a / 64)
  {
    UpRange(o, a, 0);
  }

  // ----- clearing a bit -----

  /** clr_bit */
  function ClearAt(s: seq<Word>, o: nat, l: nat, x: nat): seq<Word> {
    PutWord(s, o, l, x / 64, WordOf(s, o, l, x / 64) - {x % 64})
  }

  /** stree_clrbit from level `l` on. */
  function ClearFrom(s: seq<Word>, o: nat, a: nat, l: nat): seq<Word>
    decreases Levels(o) - l
  {
    if l >= Levels(o) then s
    else
      var t := ClearAt(s, o, l, Up(a, l));
      if WordOf(t, o, l, Up(a, l) / 64) != {} then t else ClearFrom(t, o, a, l + 1)
  }

  lemma {:induction false} ClearFromGood(s: seq<Word>, o: nat, a: nat, l: nat)
    requires o >= 1 && a < Pow2(o) && l <= Levels(o) && GoodBut(s, o, l - 1, Up(a, l))
    requires l > 0 ==> WordOf(s, o, l - 1, Up(a, l)) == {}
    ensures var r := ClearFrom(s, o, a, l);
            && Good(r, o)
            && SameBelow(s, r, o, l)
            && (l < Levels(o) ==> SameBelow(ClearAt(s, o, l, Up(a, l)), r, o, l + 1))
    decreases Levels(o) - l
  {
    if l < Levels(o) {
      UpRange(o, a, l);
      var x := Up(a, l);
      var w := WordOf(s, o, l, x / 64) - {x % 64};
      var t := ClearAt(s, o, l, x);
      StoreStep(s, o, l, x, w, t);
      if w == {} {
        ClearFromGood(t, o, a, l + 1);
      }
    }
  }

  /** stree_clrbit keeps the summaries and clears exactly one bit of the flat bitmap. */
  lemma {:induction false} ClearBitCorrect(s: seq<Word>, o: nat, a: nat)
    requires o >= 1 && Good(s, o) && a < Pow2(o)
    ensures Good(ClearFrom(s, o, a, 0), o) && Bits(ClearFrom(s, o, a, 0), o) == Bits(s, o) - {a}
  {
    assert GoodBut(s, o, -1, Up(a, 0));
    ClearFromGood(s, o, a, 0);
    var r := ClearFrom(s, o, a, 0);
    AddressInLevel(o, a);
    forall b: nat | b < Pow2(o)
      ensures BitAt(r, o, 0, b) <==> b != a && BitAt(s, o, 0, b)
    {
      AddressInLevel(o, b);
      PutGet(s, o, 0, a / 64, WordOf(s, o, 0, a / 64) - {a % 64}, 0, b / 64);
    }
  }

  // ----- searching -----

  /** ctz, from bit `i` on: the lowest set bit. */
  function Ctz(w: Word, i: nat): (b: nat)
    requires w != {} && forall c :: c in w ==> i <= c < 64
    ensures b in w && forall c :: c in w ==> b <= c
    decreases 64 - i
  {
    if i in w then i else Ctz(w, i + 1)
  }

  /** WORDSIZE - 1 - clz, from bit `i` down: the highest set bit. */
  function TopBit(w: Word, i: nat): (b: nat)
    requires w != {} && forall c :: c in w ==> c <= i
    ensures b in w && forall c :: c in w ==> c <= b
    decreases i
  {
    if i in w then i else TopBit(w, i - 1)
  }

  predicate Before(low: bool, a: nat, b: nat) {
    if low then a <= b else b <= a
  }

  /** The lowest or highest element, or -1 if there is none. */
  ghost predicate IsExtreme(bits: set<nat>, low: bool, r: int) {
    if bits == {} then r == -1 else r in bits && forall b :: b in bits ==> Before(low, r, b)
  }

  function Pick(w: Word, low: bool): (b: nat)
    requires w != {} && forall c :: c in w ==> c < 64
    ensures b in w && forall c :: c in w ==> Before(low, b, c)
  {
    if low then Ctz(w, 0) else TopBit(w, 63)
  }

  /** A set address has its bit set on every level. */
  lemma {:induction false} Covered(s: seq<Word>, o: nat, b: nat, l: nat)
    requires o >= 1 && Good(s, o) && b in Bits(s, o) && l < Levels(o)
    ensures InLevel(o, l, Up(b, l) / 64) && BitAt(s, o, l, Up(b, l))
    decreases l
  {
    UpRange(o, b, l);
    if l > 0 {
      Covered(s, o, b, l - 1);
      assert Summary(s, o, l - 1, Up(b, l));
    }
  }

  /** No set address comes before the ones under bit `k` of level `l`. */
  ghost predicate Extreme(s: seq<Word>, o: nat, l: nat, k: nat, low: bool) {
    forall b :: b in Bits(s, o) ==> Before(low, k, Up(b, l))
  }

  /** The search stands at word `k` of level `l - 1`; every set address lies under or beyond it. */
  ghost predicate Searching(s: seq<Word>, o: nat, l: nat, k: nat, low: bool) {
    && l <= Levels(o)
    && Extreme(s, o, l, k, low)
    && (l == Levels(o) ==> k == 0)
    && (l > 0 ==> InLevel(o, l - 1, k))
    && (0 < l < Levels(o) ==> WordOf(s, o, l - 1, k) != {})
    && (l == 0 ==> k in Bits(s, o))
  }

  /** The search has gathered the address bits of `k`. */
  ghost predicate Position(s: seq<Word>, o: nat, l: nat, k: nat, low: bool, laddr: nat) {
    laddr == ShiftLeft(k, 6 * l) && Searching(s, o, l, k, low)
  }

  lemma {:induction false} SearchStart(s: seq<Word>, o: nat, low: bool)
    requires o >= 1 && Good(s, o)
    ensures Position(s, o, Levels(o), 0, low, 0)
  {
    forall b | b in Bits(s, o)
      ensures Up(b, Levels(o)) == 0
    {
      UpRange(o, b, Levels(o) - 1);
      LevelsFill(o);
    }
    LevelsFill(o);
  }

  lemma {:induction false} SearchEmpty(s: seq<Word>, o: nat, low: bool)
    requires o >= 1 && Good(s, o) && Searching(s, o, Levels(o), 0, low) && WordOf(s, o, Levels(o) - 1, 0) == {}
    ensures Bits(s, o) == {}
  {
    LevelsFill(o);
    forall b | b in Bits(s, o)
      ensures false
    {
      Covered(s, o, b, Levels(o) - 1);
    }
  }

  lemma {:induction false} BeforeNest(low: bool, k: nat, bit: nat, y: nat)
    requires bit < 64 && Before(low, k, y / 64)
    requires y / 64 == k ==> Before(low, bit, y % 64)
    ensures Before(low, 64 * k + bit, y)
  {
    assert y == 64 * (y / 64) + y % 64;
  }

  lemma {:induction false} ExtremeDown(s: seq<Word>, o: nat, l: nat, k: nat, low: bool, bit: nat)
    requires o >= 1 && Good(s, o) && 0 < l <= Levels(o) && Extreme(s, o, l, k, low) && bit < 64
    requires forall c :: c in WordOf(s, o, l - 1, k) ==> Before(low, bit, c)
    ensures Extreme(s, o, l - 1, 64 * k + bit, low)
  {
    forall b | b in Bits(s, o)
      ensures Before(low, 64 * k + bit, Up(b, l - 1))
    {
      Covered(s, o, b, l - 1);
      var y := Up(b, l - 1);
      assert Before(low, k, y / 64) by { assert Up(b, l) == y / 64; }
      assert y / 64 == k ==> y % 64 in WordOf(s, o, l - 1, k);
      BeforeNest(low, k, bit, y);
    }
  }

  lemma {:induction false} SearchDown(s: seq<Word>, o: nat, l: nat, k: nat, low: bool)
    requires o >= 1 && Good(s, o) && l > 0 && Searching(s, o, l, k, low) && WordOf(s, o, l - 1, k) != {}
    ensures var w := WordOf(s, o, l - 1, k);
            && (forall c :: c in w ==> c < 64)
            && Searching(s, o, l - 1, 64 * k + Pick(w, low), low)
  {
    var w := WordOf(s, o, l - 1, k);
    assert WordOk(o, l - 1, k, w);
    var x := 64 * k + Pick(w, low);
    assert x / 64 == k && x % 64 == Pick(w, low);
    ExtremeDown(s, o, l, k, low, Pick(w, low));
    if l > 1 {
      assert Pow2(o - 6 * (l - 1)) == LevelWords(o, l - 2);
      assert Summary(s, o, l - 2, x);
    }
  }

  lemma {:induction false} Narrow(k: nat, l: nat)
    ensures LmapBitoff(l, ShiftLeft(k, 6 * (l + 1))) / 64 == k
  {
    var a := ShiftLeft(k, 6 * (l + 1));
    UpShift(a, l);
    UpShift(a, l + 1);
    Quotient(a, Pow2(6 * (l + 1)), k);
  }

  lemma {:induction false} Widen(k: nat, bit: nat, l: nat)
    ensures ShiftLeft(k, 6 * (l + 1)) + ShiftLeft(bit, 6 * l) == ShiftLeft(64 * k + bit, 6 * l)
  {
    Pow2Six(6 * l);
    Assoc(k, 64, Pow2(6 * l));
  }

  lemma {:induction false} PositionWord(s: seq<Word>, o: nat, l: nat, k: nat, low: bool, laddr: nat)
    requires o >= 1 && Good(s, o) && Position(s, o, l + 1, k, low, laddr)
    ensures LmapBitoff(l, laddr) / 64 == k && InLevel(o, l, k)
    ensures WordOf(s, o, l, k) == {} ==> l == Levels(o) - 1 && IsExtreme(Bits(s, o), low, -1)
  {
    Narrow(k, l);
    if WordOf(s, o, l, k) == {} {
      SearchEmpty(s, o, low);
    }
  }

  lemma {:induction false} PositionDown(s: seq<Word>, o: nat, l: nat, k: nat, low: bool, laddr: nat)
    requires o >= 1 && Good(s, o) && Position(s, o, l + 1, k, low, laddr) && WordOf(s, o, l, k) != {}
    ensures var w := WordOf(s, o, l, k);
            && (forall c :: c in w ==> c < 64)
            && Position(s, o, l, 64 * k + Pick(w, low), low, laddr + ShiftLeft(Pick(w, low), 6 * l))
  {
    SearchDown(s, o, l + 1, k, low);
    Widen(k, Pick(WordOf(s, o, l, k), low), l);
  }

  lemma {:induction false} SearchEnd(s: seq<Word>, o: nat, k: nat, low: bool, a: nat)
    requires Position(s, o, 0, k, low, a)
    ensures IsExtreme(Bits(s, o), low, a)
  {
    assert Pow2(0) == 1;
    forall b | b in Bits(s, o)
      ensures Before(low, k, b)
    {
      assert Up(b, 0) == b;
    }
  }

  // ----- counting -----

  /** The set addresses below `n`. */
  ghost function BitsBelow(s: seq<Word>, o: nat, n: nat): set<nat> {
    set a: nat | a < Pow2(o) && a < n && BitAt(s, o, 0, a)
  }

  ghost function Shifted(w: Word, n: nat): set<nat> {
    set b | b in w :: n + b
  }

  lemma {:induction false} ShiftedSize(w: Word, n: nat)
    ensures |Shifted(w, n)| == |w|
    decreases |w|
  {
    if w != {} {
      var b :| b in w;
      ShiftedSize(w - {b}, n);
      var rest := Shifted(w - {b}, n);
      assert n + b !in rest;
      assert Shifted(w, n) == rest + {n + b} by {
        forall a | a in Shifted(w, n)
          ensures a in rest + {n + b}
        {
          var c :| c in w && a == n + c;
          assert c != b ==> c in w - {b};
        }
        assert n + b in Shifted(w, n);
      }
    }
  }

  lemma {:induction false} InShifted(w: Word, k: nat, a: nat)
    requires forall b :: b in w ==> b < 64
    ensures a in Shifted(w, 64 * k) <==> a / 64 == k && a % 64 in w
  {
    if a / 64 == k && a % 64 in w {
      assert a == 64 * k + a % 64;
    }
  }

  lemma {:induction false} SplitWord(s: seq<Word>, o: nat, k: nat)
    requires o >= 1 && Good(s, o) && InLevel(o, 0, k)
    ensures BitsBelow(s, o, 64 * (k + 1)) == BitsBelow(s, o, 64 * k) + Shifted(WordOf(s, o, 0, k), 64 * k)
    ensures BitsBelow(s, o, 64 * k) !! Shifted(WordOf(s, o, 0, k), 64 * k)
  {
    var w := WordOf(s, o, 0, k);
    assert WordOk(o, 0, k, w);
    forall a: nat
      ensures a in Shifted(w, 64 * k) <==> a / 64 == k && a % 64 in w
    {
      InShifted(w, k, a);
    }
  }

  lemma {:induction false} CountWord(s: seq<Word>, o: nat, k: nat)
    requires o >= 1 && Good(s, o) && InLevel(o, 0, k)
    ensures |BitsBelow(s, o, 64 * (k + 1))| == |BitsBelow(s, o, 64 * k)| + |WordOf(s, o, 0, k)|
  {
    SplitWord(s, o, k);
    ShiftedSize(WordOf(s, o, 0, k), 64 * k);
  }

  ghost predicate Counted(s: seq<Word>, o: nat, n: nat, size: nat) {
    n % 64 == 0 && size == |BitsBelow(s, o, n)|
  }

  lemma {:induction false} CountStep(s: seq<Word>, o: nat, n: nat, size: nat)
    requires o >= 1 && Good(s, o) && n < Pow2(o) && Counted(s, o, n, size)
    ensures InLevel(o, 0, n / 64) && Counted(s, o, n + 64, size + |WordOf(s, o, 0, n / 64)|)
  {
    AddressInLevel(o, n);
    CountWord(s, o, n / 64);
    assert n == 64 * (n / 64);
  }

  lemma {:induction false} BelowAll(s: seq<Word>, o: nat, n: nat)
    requires n >= Pow2(o)
    ensures BitsBelow(s, o, n) == Bits(s, o)
  {
  }

  // ----- the bitmap -----

  /** A searchable bitmap in memory.  The int arithmetic of the source bounds its order by 24. */
  class Bitmap {
    const o: nat
    const words: array<Word>

    ghost predicate Valid()
      reads this, words
    {
      1 <= o <= 24 && words.Length == Size(o) && Good(words[..], o)
    }

    ghost function Set(): set<nat>
      reads this, words
    {
      Bits(words[..], o)
    }

    /** An all-zero memory is an empty tree. */
    constructor (order: nat)
      requires 1 <= order <= 24
      ensures Valid() && o == order && Set() == {} && fresh(words)
    {
      o := order;
      words := new Word[Size(order)](_ => {});
    }

    /** GET_WORD of word `k` of the map that stree_lmap finds for level `l`. */
    method Load(l: nat, k: nat) returns (w: Word)
      requires Valid() && InLevel(o, l, k)
      ensures w == WordOf(words[..], o, l, k)
    {
      LmapOffStart(o, l);
      WordsDisjoint(o, l, k, l, k);
      w := words[LmapOff(o, l) + k];
    }

    /** stree_getbit */
    method GetBit(a: nat) returns (r: bool)
      requires Valid() && a < Pow2(o)
      ensures r <==> a in Set()
    {
      AddressInLevel(o, a);
      var w := Load(0, a / 64);
      r := a % 64 in w;
    }

    /** stree_setbit */
    method SetBit(a: nat)
      requires Valid() && a < Pow2(o)
      modifies words
      ensures Valid() && Set() == old(Set()) + {a}
    {
      hide Up, LevelStart;
      ghost var s := words[..];
      var l := 0;
      while l < Levels(o)
        invariant l <= Levels(o) && SetFrom(words[..], o, a, l) == SetFrom(s, o, a, 0)
      {
        UpRange(o, a, l);
        WordsDisjoint(o, l, Up(a, l) / 64, l, Up(a, l) / 64);
        LmapOffStart(o, l);
        UpShift(a, l);
        var laddr := LmapBitoff(l, a);
        var i := LmapOff(o, l) + laddr / 64;
        var was := words[i];
        ghost var t := SetAt(words[..], o, l, laddr);
        words[i] := was + {laddr % 64};
        assert words[..] == t;
        if was != {} {
          break;
        }
        l := l + 1;
      }
      SetBitCorrect(s, o, a);
    }

    /** stree_clrbit */
    method ClearBit(a: nat)
      requires Valid() && a < Pow2(o)
      modifies words
      ensures Valid() && Set() == old(Set()) - {a}
    {
      hide Up, LevelStart;
      ghost var s := words[..];
      var l := 0;
      while l < Levels(o)
        invariant l <= Levels(o) && ClearFrom(words[..], o, a, l) == ClearFrom(s, o, a, 0)
      {
        UpRange(o, a, l);
        WordsDisjoint(o, l, Up(a, l) / 64, l, Up(a, l) / 64);
        LmapOffStart(o, l);
        UpShift(a, l);
        var laddr := LmapBitoff(l, a);
        var i := LmapOff(o, l) + laddr / 64;
        ghost var t := ClearAt(words[..], o, l, laddr);
        words[i] := words[i] - {laddr % 64};
        assert words[..] == t;
        if words[i] != {} {
          break;
        }
        l := l + 1;
      }
      ClearBitCorrect(s, o, a);
    }

    /** stree_count */
    method Count() returns (size: nat)
      requires Valid()
      ensures size == |Set()|
    {
      ghost var s := words[..];
      size := 0;
      var i: nat := 0;
      assert BitsBelow(s, o, 0) == {};
      while i < Pow2(o)
        invariant Counted(s, o, i, size)
        decreases Pow2(o) - i
      {
        CountStep(s, o, i, size);
        var w := Load(0, i / 64);
        size := size + |w|;
        i := i + 64;
      }
      BelowAll(s, o, i);
    }

    /** stree_bitsearch; its check for a corrupted table never fails. */
    method BitSearch(low: bool) returns (r: int)
      requires Valid()
      ensures IsExtreme(Set(), low, r)
    {
      ghost var s := words[..];
      ghost var k: nat := 0;
      var l := Levels(o) - 1;
      var laddr: nat := 0;
      SearchStart(s, o, low);
      while l >= 0
        invariant -1 <= l < Levels(o) && Position(s, o, l + 1, k, low, laddr)
      {
        PositionWord(s, o, l, k, low, laddr);
        var word := Load(l, LmapBitoff(l, laddr) / 64);
        if word == {} {
          assert l == Levels(o) - 1;
          return -1;
        }
        PositionDown(s, o, l, k, low, laddr);
        var bit := Pick(word, low);
        // the bits of laddr below 6 * (l + 1) are zero, so the source's OR adds
        laddr := laddr + ShiftLeft(bit, 6 * l);
        k := 64 * k + bit;
        l := l - 1;
      }
      SearchEnd(s, o, k, low, laddr);
      return laddr;
    }
  }
}
