/**
  Division by an invariant divisor, libec/sys/bitops.h.  Machine words are natural
  numbers; every operation that could leave its word is written with the reduction
  of the source's type, and shifts are multiplications and divisions by powers of two.
 */
module FastDivide {
  import opened Powers

  const W32: nat := 0x1_0000_0000
  const W64: nat := 0x1_0000_0000_0000_0000

  // ----- find last set -----

  /** One narrowing step of fls32: if the top `k` bits are clear, shift left by `k`; `f` is 2^k. */
  function Narrow(n: nat, v: int, k: nat, f: nat): (r: (nat, int))
    requires f > 0
  {
    if n < W32 / f then (n * f % W32, v - k) else (n, v)
  }

  /** fls32 */
  function Fls32(n: nat): int {
    if n == 0 then 0
    else
      var a := Narrow(n, 32, 16, 0x1_0000);
      var b := Narrow(a.0, a.1, 8, 0x100);
      var c := Narrow(b.0, b.1, 4, 0x10);
      var d := Narrow(c.0, c.1, 2, 4);
      Narrow(d.0, d.1, 1, 2).1
  }

  lemma {:induction false} Pow2Values()
    ensures Pow2(1) == 2 && Pow2(2) == 4 && Pow2(4) == 16 && Pow2(8) == 256 && Pow2(16) == 65536
    ensures Pow2(31) == 0x8000_0000 && Pow2(32) == W32
  {
    assert Pow2(3) == 8;
    Pow2Add(4, 4);
    Pow2Add(8, 8);
    Pow2Add(16, 16);
  }

  /** (n, v) with n0 shifted left by 32 - v, and n at least `low`. */
  ghost predicate Narrowed(n0: nat, n: nat, v: int, low: nat) {
    1 <= v <= 32 && n == n0 * Pow2(32 - v) && low <= n < W32
  }

  lemma {:induction false} NarrowStep(n0: nat, n: nat, v: int, low: nat, k: nat, f: nat)
    requires Narrowed(n0, n, v, low) && n0 >= 1 && k >= 1 && f == Pow2(k)
    requires low * f == W32 / f && low * f * f == W32 && low >= 1
    ensures var r := Narrow(n, v, k, f);
            r.0 < W32 && Narrowed(n0, r.0, r.1, low * f)
  {
    if n < W32 / f {
      assert n * f < W32 by { Below(n, low * f, f); }
      assert low * f <= n * f by { Below(low - 1, n, f); }
      ShiftLeft(n0, n, v, k);
    }
  }

  /** A value below 2^32 that is at least 2^31 after the shift pins the position. */
  lemma {:induction false} ShiftLeft(n0: nat, n: nat, v: int, k: nat)
    requires 1 <= v <= 32 && n == n0 * Pow2(32 - v) && n0 >= 1 && n * Pow2(k) < W32
    ensures v - k >= 1 && n * Pow2(k) == n0 * Pow2(32 - (v - k))
  {
    Pow2Add(32 - v, k);
    assert n * Pow2(k) == n0 * Pow2(32 - v + k) by { Assoc(n0, Pow2(32 - v), Pow2(k)); }
    Scale(n0, Pow2(32 - v + k));
    Pow2Values();
    Pow2Lt(32 - v + k, 32);
  }

  /** fls32 is the number of bits: for n > 0, 2^(fls32(n) - 1) <= n < 2^fls32(n). */
  lemma {:induction false} Fls32Bits(n: nat)
    requires n < W32
    ensures n == 0 ==> Fls32(n) == 0
    ensures n > 0 ==> 1 <= Fls32(n) <= 32 && Pow2(Fls32(n) - 1) <= n < Pow2(Fls32(n))
  {
    if n > 0 {
      Pow2Values();
      assert Pow2(0) == 1;
      NarrowStep(n, n, 32, 1, 16, 0x1_0000);
      var a := Narrow(n, 32, 16, 0x1_0000);
      NarrowStep(n, a.0, a.1, 0x1_0000, 8, 0x100);
      var b := Narrow(a.0, a.1, 8, 0x100);
      NarrowStep(n, b.0, b.1, 0x100_0000, 4, 0x10);
      var c := Narrow(b.0, b.1, 4, 0x10);
      NarrowStep(n, c.0, c.1, 0x1000_0000, 2, 4);
      var d := Narrow(c.0, c.1, 2, 4);
      NarrowStep(n, d.0, d.1, 0x4000_0000, 1, 2);
      var e := Narrow(d.0, d.1, 1, 2);
      TopBit(n, e.0, e.1);
    }
  }

  lemma {:induction false} TopBit(n0: nat, n: nat, v: int)
    requires Narrowed(n0, n, v, 0x8000_0000)
    ensures Pow2(v - 1) <= n0 < Pow2(v)
  {
    var p := Pow2(32 - v);
    assert Pow2(v) * p == W32 by { Pow2Values(); Pow2Add(v, 32 - v); }
    assert Pow2(v - 1) * p == 0x8000_0000 by { Pow2Values(); Pow2Add(v - 1, 32 - v); }
    MulLt(n0, Pow2(v), p);
    LeCancel(Pow2(v - 1), n0, p);
  }

  // ----- division by multiplication -----

  datatype Magic = Magic(m: nat, s1: nat, s2: nat)

  /** fast_divide32_prepare, for the bit count `l` that fls32 gives. */
  function PrepareWith(d: nat, l: nat): Magic
    requires d >= 1
  {
    var mt := W32 * ((Pow2(l) - d) % W64) % W64;
    Magic((mt / d + 1) % W32, if l > 1 then 1 else l, if l == 0 then 0 else l - 1)
  }

  /** fast_divide32_prepare */
  function Prepare(d: nat): Magic
    requires 1 <= d < W32
  {
    Fls32Bits(d - 1);
    PrepareWith(d, Fls32(d - 1))
  }

  /** fast_divide32 */
  function Divide(v: nat, g: Magic): nat {
    var t := v * g.m % W64 / W32;
    (t + (v - t) % W32 / Pow2(g.s1)) % W32 / Pow2(g.s2)
  }

  /** fast_remainder32 */
  function Remainder(v: nat, d: nat, g: Magic): nat {
    (v - d * Divide(v, g) % W32) % W32
  }

  /** Multiplying by a reciprocal that is slightly too large is exact for small enough operands. */
  lemma {:induction false} Reciprocal(v: nat, d: nat, p: nat, m: nat)
    requires d >= 1 && p >= 1 && m * d > p && v * (m * d - p) < p
    ensures v * m / p == v / d
  {
    var q := v / d;
    assert q >= 0 && q * d <= v < (q + 1) * d by { DivBounds(v, d); }
    var e := m * d - p;
    assert v * m * d == v * p + v * e by { Distribute(v, m, d, p); }
    NotBelow(v, d, p, v * m, q, v * e);
    NotAbove(v, d, p, v * m, q, v * e);
    Quotient(v * m, p, q);
  }

  lemma {:induction false} NotBelow(v: nat, d: nat, p: nat, x: nat, q: nat, r: nat)
    requires d >= 1 && q * d <= v && x * d == v * p + r
    ensures q * p <= x
  {
    LeMul(q * d, v, p);
    Swap(q, p, d);
    LeCancel(q * p, x, d);
  }

  lemma {:induction false} NotAbove(v: nat, d: nat, p: nat, x: nat, q: nat, r: nat)
    requires d >= 1 && v < (q + 1) * d && x * d == v * p + r && r < p
    ensures x < (q + 1) * p
  {
    LeMul(v + 1, (q + 1) * d, p);
    Swap(q + 1, p, d);
    assert (v + 1) * p == v * p + p;
    MulLt(x, (q + 1) * p, d);
  }

  lemma {:induction false} Distribute(v: nat, m: nat, d: nat, p: nat)
    requires m * d >= p
    ensures v * m * d == v * p + v * (m * d - p)
  {
    assert v * m * d == v * (m * d);
  }

  /** 2^l is the least power of two that is at least `d`. */
  ghost predicate CeilLog(l: nat, d: nat) {
    l <= 32 && d <= Pow2(l) < 2 * d && (l == 0 <==> d == 1)
  }

  lemma {:induction false} Fls32CeilLog(d: nat)
    requires 1 <= d < W32
    ensures Fls32(d - 1) >= 0 && CeilLog(Fls32(d - 1), d)
  {
    Fls32Bits(d - 1);
    LogStep(Fls32(d - 1), d);
  }

  lemma {:induction false} LogStep(l: int, d: nat)
    requires d >= 1
    requires (d == 1 ==> l == 0) && (d > 1 ==> 1 <= l <= 32 && Pow2(l - 1) <= d - 1 < Pow2(l))
    ensures l >= 0 && CeilLog(l, d)
  {
    if d > 1 {
      assert Pow2(l) == 2 * Pow2(l - 1);
    }
  }

  /** With the implicit top bit the multiplier is the rounded-up reciprocal. */
  lemma {:induction false} MultiplierBounds(d: nat, p: nat, f: nat)
    requires 1 <= d <= p < 2 * d && d < W32
    requires f * d <= W32 * (p - d) < (f + 1) * d
    ensures f + 1 < W32 && (W32 + (f + 1)) * d > W32 * p && (W32 + (f + 1)) * d - W32 * p <= d
  {
    assert (W32 + (f + 1)) * d == W32 * d + (f + 1) * d;
    assert (f + 1) * d == f * d + d;
    MulLt(f + 1, W32, d);
  }

  /** No step of fast_divide32_prepare overflows. */
  lemma {:induction false} PrepareValue(d: nat, l: nat, f: nat)
    requires 1 <= d < W32 && CeilLog(l, d) && f == W32 * (Pow2(l) - d) / d && f + 1 < W32
    ensures W32 * (Pow2(l) - d) < W64 && PrepareWith(d, l).m == f + 1
  {
    var k := Pow2(l) - d;
    Small(k, W64);
    Small(W32 * k, W64);
    Small(f + 1, W32);
  }

  lemma {:induction false} PrepareMultiplier(d: nat, l: nat)
    requires 1 <= d < W32 && CeilLog(l, d)
    ensures var p, m := Pow2(l), PrepareWith(d, l).m;
            m < W32 && (W32 + m) * d > W32 * p && (W32 + m) * d - W32 * p <= d
  {
    var p := Pow2(l);
    var k := W32 * (p - d);
    var f := Quot(k, d);
    assert f * d <= k < (f + 1) * d by { DivBounds(k, d); }
    MultiplierBounds(d, p, f);
    PrepareValue(d, l, f);
  }

  lemma {:induction false} Halves(t: nat, v: nat)
    requires t <= v
    ensures t + (v - t) / 2 == (v + t) / 2
  {
  }

  /** None of the words overflows, and the two shifts together divide by the power of two. */
  lemma {:induction false} DivideShifts(v: nat, l: nat, m: nat)
    requires v < W32 && 1 <= l && m < W32
    ensures var g := Magic(m, 1, l - 1);
            var t := v * m / W32;
            && v * m < W64 && t <= v && t + (v - t) / 2 < W32
            && Divide(v, g) == (v + t) / Pow2(l)
  {
    var t := v * m / W32;
    assert v * m < W64 && v * m <= v * W32 by { LeMul(v, W32 - 1, m); LeMul(m, W32, v); }
    assert 0 <= t <= v by { DivBounds(v * m, W32); LeCancel(t, v, W32); }
    var u := (v + t) / 2;
    assert t + (v - t) / 2 == u < W32 by { Halves(t, v); }
    assert Pow2(1) == 2 && Pow2(l) == 2 * Pow2(l - 1);
    assert v * m % W64 == v * m && (v - t) % W32 == v - t && u % W32 == u by {
      Small(v * m, W64);
      Small(v - t, W32);
      Small(u, W32);
    }
    DivDiv(v + t, 2, Pow2(l - 1));
  }

  lemma {:induction false} AddWord(v: nat, m: nat)
    ensures v + v * m / W32 == v * (W32 + m) / W32
  {
    assert v * (W32 + m) == v * m + v * W32;
  }

  lemma {:induction false} DivideWith(v: nat, d: nat, l: nat)
    requires v < W32 && 2 <= d < W32 && CeilLog(l, d)
    ensures Divide(v, PrepareWith(d, l)) == v / d
  {
    var p := Pow2(l);
    var m := PrepareWith(d, l).m;
    PrepareMultiplier(d, l);
    assert Divide(v, PrepareWith(d, l)) == v * (W32 + m) / (W32 * p) by {
      DivideShifts(v, l, m);
      AddWord(v, m);
      DivDiv(v * (W32 + m), W32, p);
    }
    assert v * ((W32 + m) * d - W32 * p) < W32 * p by { SmallError(v, (W32 + m) * d - W32 * p, p, d); }
    Reciprocal(v, d, W32 * p, W32 + m);
  }

  lemma {:induction false} SmallError(v: nat, e: nat, p: nat, d: nat)
    requires v < W32 && e <= d <= p && p >= 1
    ensures v * e < W32 * p
  {
    LeMul(e, p, v);
    Below(v, W32, p);
  }

  /** fast_divide32 is division and fast_remainder32 the remainder, for every value and divisor. */
  lemma {:induction false} DivideExact(v: nat, d: nat)
    requires v < W32 && 1 <= d < W32
    ensures Divide(v, Prepare(d)) == v / d
    ensures Remainder(v, d, Prepare(d)) == v % d
  {
    var l := Fls32(d - 1);
    Fls32CeilLog(d);
    if d == 1 {
      assert PrepareWith(1, 0) == Magic(1, 0, 0);
    } else {
      DivideWith(v, d, l);
    }
    RemainderOf(v, d, Prepare(d));
  }

  lemma {:induction false} RemainderOf(v: nat, d: nat, g: Magic)
    requires v < W32 && d >= 1 && Divide(v, g) == v / d
    ensures Remainder(v, d, g) == v % d
  {
    var q := Quot(v, d);
    assert q * d <= v by { DivBounds(v, d); }
    assert v % d == v - d * q by { ModOf(v, d); }
    assert d * q % W32 == d * q && (v - d * q) % W32 == v - d * q by {
      Small(d * q, W32);
      Small(v - d * q, W32);
    }
  }
}
