/**
  Where the levels of an S-tree lie, include/stree.h: a tree of order `o` has
  2^o bits at level 0, and each higher level has one bit for each word below.
 */
module STreeLayout {
  import opened Powers

  /** LOGWORD: the number of levels. */
  function Levels(o: nat): nat {
    (o + 5) / 6
  }

  /** STREE_SIZE: the number of words of the whole tree. */
  function Size(o: nat): nat {
    (Pow2(o) - 1 + 62) / 63
  }

  /** The shift distance of stree_lmap_off in 32-bit unsigned arithmetic; for level 0 it wraps around twice. */
  function LmapShift(o: nat, l: nat): nat {
    (o - 6 * ((l - 1) % 0x1_0000_0000)) % 0x1_0000_0000
  }

  /** stree_lmap_off */
  function LmapOff(o: nat, l: nat): nat {
    Pow2(LmapShift(o, l)) * (Pow2(6 * l) - 1) / 63 / 64
  }

  /** The words of level `l`. */
  function LevelWords(o: nat, l: nat): (n: nat)
    ensures n >= 1
  {
    if 6 * (l + 1) <= o then Pow2(o - 6 * (l + 1)) else 1
  }

  /** The words of all levels below `l`. */
  function LevelStart(o: nat, l: nat): nat {
    if l == 0 then 0 else LevelStart(o, l - 1) + LevelWords(o, l - 1)
  }

  // ----- the closed form -----

  /** 1 + 64 + ... + 64^(l - 1) */
  function Geometric(l: nat): nat {
    if l == 0 then 0 else 64 * Geometric(l - 1) + 1
  }

  lemma {:induction false} GeometricSum(l: nat)
    ensures 63 * Geometric(l) == Pow2(6 * l) - 1
    decreases l
  {
    if l > 0 {
      GeometricSum(l - 1);
      Pow2Six(6 * (l - 1));
    }
  }

  lemma {:induction false} StartClosed(o: nat, l: nat)
    requires l >= 1 && 6 * l <= o
    ensures 64 * LevelStart(o, l) == Pow2(o - 6 * (l - 1)) * Geometric(l)
    decreases l
  {
    Pow2Six(o - 6 * l);
    assert LevelWords(o, l - 1) == Pow2(o - 6 * l);
    assert Geometric(1) == 1;
    if l > 1 {
      var p := Pow2(o - 6 * (l - 1));
      StartClosed(o, l - 1);
      Pow2Six(o - 6 * (l - 1));
      Assoc(p, 64, Geometric(l - 1));
      assert p * Geometric(l) == p * (64 * Geometric(l - 1)) + p;
    }
  }

  /** The bit shifts stay within the type int for orders up to 24. */
  lemma {:induction false} ShiftFits(o: nat, l: nat)
    requires 1 <= o <= 24 && l < Levels(o)
    ensures LmapShift(o, l) == (if l == 0 then o + 6 else o - 6 * (l - 1)) <= 30
  {
  }

  /** stree_lmap_off is where the level starts. */
  lemma {:induction false} LmapOffStart(o: nat, l: nat)
    requires 1 <= o <= 24 && l < Levels(o)
    ensures LmapOff(o, l) == LevelStart(o, l)
  {
    ShiftFits(o, l);
    if l == 0 {
      assert Pow2(0) == 1;
    } else {
      StartClosed(o, l);
      OffClosed(Pow2(o - 6 * (l - 1)), l);
    }
  }

  lemma {:induction false} OffClosed(c: nat, l: nat)
    ensures c * (Pow2(6 * l) - 1) / 63 == c * Geometric(l)
  {
    GeometricSum(l);
    Swap(c, 63, Geometric(l));
    Assoc(c, 63, Geometric(l));
  }

  /** The levels are consecutive, the top one is a single word, and together they fill STREE_SIZE words. */
  lemma {:induction false} LevelsFill(o: nat)
    requires o >= 1
    ensures LevelWords(o, Levels(o) - 1) == 1
    ensures LevelStart(o, Levels(o)) == Size(o)
  {
    var t := Levels(o) - 1;
    var r := o - 6 * t;
    assert 1 <= r <= 6;
    assert LevelWords(o, t) == 1 by { assert Pow2(0) == 1; }
    Pow2Mono(1, r);
    Pow2Mono(r, 6);
    Pow2Six(0);
    assert 63 * LevelStart(o, t) == Pow2(o) - Pow2(r) by { StartDefect(o, t); }
    var k := LevelStart(o, t);
    assert Pow2(o) - 1 == 63 * k + (Pow2(r) - 1);
    assert Pow2(1) == 2;
  }

  lemma {:induction false} StartDefect(o: nat, l: nat)
    requires 6 * l <= o
    ensures 63 * LevelStart(o, l) == Pow2(o) - Pow2(o - 6 * l)
    decreases l
  {
    if l > 0 {
      StartDefect(o, l - 1);
      Pow2Six(o - 6 * l);
    }
  }

  lemma {:induction false} StartMono(o: nat, l: nat, m: nat)
    requires l < m
    ensures LevelStart(o, l) + LevelWords(o, l) <= LevelStart(o, m)
    decreases m
  {
    if l < m - 1 {
      StartMono(o, l, m - 1);
    }
  }

  /** The index of word `k` of level `l`. */
  function WordAt(o: nat, l: nat, k: nat): nat {
    LevelStart(o, l) + k
  }

  ghost predicate InLevel(o: nat, l: nat, k: nat) {
    l < Levels(o) && k < LevelWords(o, l)
  }

  /** Every word of every level is inside the tree, and no two share a place. */
  lemma {:induction false} WordsDisjoint(o: nat, l: nat, k: nat, m: nat, j: nat)
    requires o >= 1 && InLevel(o, l, k) && InLevel(o, m, j)
    ensures WordAt(o, l, k) < Size(o)
    ensures WordAt(o, l, k) == WordAt(o, m, j) <==> l == m && k == j
  {
    LevelsFill(o);
    StartMono(o, l, Levels(o));
    if l < m {
      StartMono(o, l, m);
    } else if m < l {
      StartMono(o, m, l);
    }
  }

  // ----- the order for a number of objects -----

  /** LONG_BIT - 1 - clzl(n): the position of the highest set bit. */
  function HighBit(n: nat): nat
    requires n >= 1
  {
    if n == 1 then 0 else 1 + HighBit(n / 2)
  }

  /** popcount */
  function PopCount(n: nat): nat {
    if n == 0 then 0 else n % 2 + PopCount(n / 2)
  }

  /** stree_order */
  function Order(n: nat): nat
    requires n >= 1
  {
    HighBit(n) + if PopCount(n % 0x1_0000_0000) > 1 then 1 else 0
  }

  lemma {:induction false} HighBitBounds(n: nat)
    requires n >= 1
    ensures Pow2(HighBit(n)) <= n < 2 * Pow2(HighBit(n))
    ensures PopCount(n) >= 1
    ensures PopCount(n) == 1 <==> n == Pow2(HighBit(n))
    decreases n
  {
    if n > 1 {
      HighBitBounds(n / 2);
      assert Pow2(HighBit(n)) == 2 * Pow2(HighBit(n / 2));
    } else {
      assert PopCount(1) == 1 + PopCount(0);
    }
  }

  /** stree_order(n) is the least order whose tree has a bit for each of `n` objects. */
  lemma {:induction false} OrderLeast(n: nat)
    requires 1 <= n < 0x1_0000_0000
    ensures Pow2(Order(n)) >= n
    ensures forall k: nat :: Pow2(k) >= n ==> Order(n) <= k
  {
    HighBitBounds(n);
    var h := HighBit(n);
    assert Pow2(h + 1) == 2 * Pow2(h);
    forall k: nat | Pow2(k) >= n
      ensures Order(n) <= k
    {
      if k < Order(n) {
        Pow2Mono(k, Order(n) - 1);
      }
    }
  }
}
