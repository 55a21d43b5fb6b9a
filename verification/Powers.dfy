/** Powers of two and the few facts about products and quotients that the proofs need. */
module Powers {

  function Pow2(k: nat): (r: nat)
    ensures r >= 1
    decreases k
  {
    if k == 0 then 1 else 2 * Pow2(k - 1)
  }

  /** `a` shifted right by `k` bits. */
  function Shift(a: nat, k: nat): nat {
    Quot(a, Pow2(k))
  }

  /** `a` shifted left by `k` bits. */
  function ShiftLeft(a: nat, k: nat): nat {
    a * Pow2(k)
  }

  function Quot(a: nat, p: nat): nat
    requires p >= 1
  {
    a / p
  }

  lemma {:induction false} Pow2Add(a: nat, b: nat)
    ensures Pow2(a + b) == Pow2(a) * Pow2(b)
    decreases a
  {
    if a > 0 {
      Pow2Add(a - 1, b);
    }
  }

  lemma {:induction false} Pow2Mono(a: nat, b: nat)
    requires a <= b
    ensures Pow2(a) <= Pow2(b)
    decreases b
  {
    if a < b {
      Pow2Mono(a, b - 1);
    }
  }

  lemma {:induction false} Pow2Lt(a: nat, b: nat)
    requires Pow2(a) < Pow2(b)
    ensures a < b
  {
    if b <= a {
      Pow2Mono(b, a);
    }
  }

  lemma {:induction false} Pow2Six(k: nat)
    ensures Pow2(6) == 64 && Pow2(k + 6) == 64 * Pow2(k)
  {
    Pow2Add(k, 6);
  }

  lemma {:induction false} MulLt(a: nat, b: nat, c: nat)
    requires a * c < b * c
    ensures a < b
  {
  }

  lemma {:induction false} Below(a: int, b: int, c: int)
    requires a < b && c > 0
    ensures a * c < b * c
    ensures (a + 1) * c <= b * c
  {
  }

  lemma {:induction false} LeMul(a: nat, b: nat, c: nat)
    requires a <= b
    ensures a * c <= b * c
  {
  }

  lemma {:induction false} LeCancel(a: nat, b: nat, c: nat)
    requires c >= 1 && a * c <= b * c
    ensures a <= b
  {
    if a > b {
      Below(b, a, c);
    }
  }

  lemma {:induction false} Assoc(a: nat, b: nat, c: nat)
    ensures a * b * c == a * (b * c)
  {
  }

  lemma {:induction false} Swap(a: nat, b: nat, c: nat)
    ensures a * b * c == a * c * b
  {
    assert a * b * c == a * (b * c) == a * (c * b) == a * c * b;
  }

  lemma {:induction false} Scale(a: nat, b: nat)
    requires a >= 1
    ensures a * b >= b
  {
  }

  lemma {:induction false} Small(x: nat, w: nat)
    requires x < w
    ensures x % w == x
  {
  }

  lemma {:induction false} DivBounds(a: nat, b: nat)
    requires b >= 1
    ensures a / b * b <= a < (a / b + 1) * b
  {
  }

  lemma {:induction false} ModOf(a: nat, b: nat)
    requires b >= 1
    ensures a % b == a - a / b * b
  {
  }

  lemma {:induction false} Quotient(a: nat, p: nat, q: nat)
    requires p >= 1 && q * p <= a < (q + 1) * p
    ensures a / p == q
  {
    var r := a / p;
    assert r * p <= a < (r + 1) * p;
    MulLt(r, q + 1, p);
    MulLt(q, r + 1, p);
  }

  lemma {:induction false} NestedBounds(a: nat, b: nat, c: nat, x: nat, q: nat)
    requires x * b <= a < (x + 1) * b && q * c <= x < (q + 1) * c
    ensures q * (b * c) <= a < (q + 1) * (b * c)
  {
    LeMul(q * c, x, b);
    LeMul(x + 1, (q + 1) * c, b);
    Swap(q, c, b);
    Swap(q + 1, c, b);
    Assoc(q, b, c);
    Assoc(q + 1, b, c);
  }

  lemma {:induction false} DivDiv(a: nat, b: nat, c: nat)
    requires b >= 1 && c >= 1
    ensures b * c >= 1 && a / b / c == a / (b * c)
  {
    var x := a / b;
    var q := x / c;
    assert x >= 0 && q >= 0;
    assert b * c >= 1 by { Scale(b, c); }
    assert q * (b * c) <= a < (q + 1) * (b * c) by {
      DivBounds(a, b);
      DivBounds(x, c);
      NestedBounds(a, b, c, x, q);
    }
    Quotient(a, b * c, q);
  }
}
