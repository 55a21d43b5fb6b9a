/** Numbers as text: their digits in a base, and the value of digits. */
module Numbers {
  import Powers

  /** The largest value of the unsigned type. */
  const MAX := 0xffff_ffff_ffff_ffff

  /** The value of a digit or letter, -1 for any other character. */
  function DigitVal(c: char): int {
    if '0' <= c <= '9' then c as int - '0' as int
    else if 'a' <= c <= 'z' then c as int - 'a' as int + 10
    else if 'A' <= c <= 'Z' then c as int - 'A' as int + 10
    else -1
  }

  /** Values run on through the decimal digits and the letters of either case; nothing else has one. */
  lemma {:induction false} DigitChars(c: char, d: char)
    ensures DigitVal('0') == 0 && DigitVal('9') == 9
    ensures DigitVal('a') == DigitVal('A') == 10 && DigitVal('z') == DigitVal('Z') == 35
    ensures ('0' <= c <= d <= '9' || 'a' <= c <= d <= 'z' || 'A' <= c <= d <= 'Z') ==>
              DigitVal(d) - DigitVal(c) == d as int - c as int
    ensures !('0' <= c <= '9' || 'a' <= c <= 'z' || 'A' <= c <= 'Z') ==> DigitVal(c) < 0
  {
  }

  predicate IsDigit(c: char, b: nat) {
    0 <= DigitVal(c) < b
  }

  /** A digit that is neither a space nor the letter of the hexadecimal prefix. */
  predicate Plain(c: char) {
    IsDigit(c, 16) && c != 'x' && c != 'X' && c != ' '
  }

  /** hexdigits */
  function HexDigit(v: nat): (c: char)
    requires v < 16
    ensures DigitVal(c) == v && (c == '0' <==> v == 0) && Plain(c)
  {
    if v < 10 then ('0' as int + v) as char else ('a' as int + (v - 10)) as char
  }

  ghost predicate AllDigits(d: string, b: nat) {
    forall i :: 0 <= i < |d| ==> IsDigit(d[i], b)
  }

  /** The value of a string of digits. */
  ghost function Value(d: string, b: nat): nat
    requires AllDigits(d, b)
    decreases |d|
  {
    if d == [] then 0 else Value(d[..|d| - 1], b) * b + DigitVal(d[|d| - 1])
  }

  lemma {:induction false} ValueMore(d: string, c: char, b: nat)
    requires AllDigits(d, b) && IsDigit(c, b)
    ensures AllDigits(d + [c], b) && Value(d + [c], b) == Value(d, b) * b + DigitVal(c)
  {
    assert (d + [c])[..|d|] == d;
  }

  /** More digits never make the value smaller. */
  lemma {:induction false} ValueGrows(d: string, e: string, b: nat)
    requires b >= 1 && AllDigits(d + e, b)
    ensures AllDigits(d, b) && Value(d, b) <= Value(d + e, b)
    decreases |e|
  {
    assert forall i :: 0 <= i < |d| ==> (d + e)[i] == d[i];
    if e == [] {
      assert d + e == d;
    } else {
      var f := e[..|e| - 1];
      assert (d + e)[..|d + e| - 1] == d + f;
      assert forall i :: 0 <= i < |d + f| ==> (d + f)[i] == (d + e)[i];
      ValueGrows(d, f, b);
      Powers.Scale(b, Value(d + f, b));
    }
  }

  /** Leading zeros do not count. */
  lemma {:induction false} LeadingZeros(z: string, d: string, b: nat)
    requires b >= 2 && AllDigits(d, b) && forall i :: 0 <= i < |z| ==> z[i] == '0'
    ensures AllDigits(z + d, b) && Value(z + d, b) == Value(d, b)
    decreases |z| + |d|
  {
    if d != [] {
      var f := d[..|d| - 1];
      LeadingZeros(z, f, b);
      assert (z + d)[..|z + d| - 1] == z + f;
    } else if z != [] {
      LeadingZeros(z[..|z| - 1], d, b);
      assert z + d == z && (z[..|z| - 1]) + d == z[..|z| - 1];
    } else {
      assert z + d == [];
    }
  }

  /** Quotient and remainder for the three bases. */
  function Quo(v: nat, b: nat): nat {
    if b == 8 then v / 8 else if b == 10 then v / 10 else v / 16
  }

  function Rem(v: nat, b: nat): nat {
    if b == 8 then v % 8 else if b == 10 then v % 10 else v % 16
  }

  /** The digits of a number, the highest first. */
  function Digits(v: nat, b: nat): (d: string)
    requires b in {8, 10, 16}
    ensures |d| >= 1 && forall i :: 0 <= i < |d| ==> Plain(d[i])
    decreases v
  {
    if v < b then [HexDigit(v)] else Digits(Quo(v, b), b) + [HexDigit(Rem(v, b))]
  }

  /** The digits have the value of the number, and the first is zero for zero only. */
  lemma {:induction false} DigitsValue(v: nat, b: nat)
    requires b in {8, 10, 16}
    ensures AllDigits(Digits(v, b), b) && Value(Digits(v, b), b) == v
    ensures Digits(v, b)[0] == '0' <==> v == 0
    decreases v
  {
    if v < b {
      assert [HexDigit(v)][..0] == [];
      assert Value([HexDigit(v)], b) == Value([], b) * b + v;
    } else {
      MoreDigits(v, Quo(v, b), Rem(v, b), b);
    }
  }

  lemma {:induction false} MoreDigits(v: nat, q: nat, r: nat, b: nat)
    requires b in {8, 10, 16} && r < b && v == q * b + r && 0 < q < v && Digits(v, b) == Digits(q, b) + [HexDigit(r)]
    ensures AllDigits(Digits(v, b), b) && Value(Digits(v, b), b) == v
    ensures Digits(v, b)[0] == '0' <==> v == 0
    decreases v, 0
  {
    DigitsValue(q, b);
    hide Digits, Value;
    ValueMore(Digits(q, b), HexDigit(r), b);
  }

  function Power(b: nat, k: nat): nat {
    if k == 0 then 1 else b * Power(b, k - 1)
  }

  lemma {:induction false} DigitsLength(v: nat, b: nat, k: nat)
    requires b in {8, 10, 16} && k >= 1 && v < Power(b, k)
    ensures |Digits(v, b)| <= k
    decreases k
  {
    if v >= b {
      assert Power(b, 1) == b * Power(b, 0) == b;
      var p := Power(b, k - 1);
      assert Quo(v, b) < p by { assert v < b * p; }
      DigitsLength(Quo(v, b), b, k - 1);
    }
  }
}
