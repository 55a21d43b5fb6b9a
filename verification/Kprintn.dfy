/** kprintn of libec/subr_prf.c, and what strtoul makes of its output. */
module Kprintn {
  import opened Numbers
  import Powers

  datatype Flags = Flags(alt: bool, space: bool, ladjust: bool, sign: bool, zeropad: bool, negative: bool)

  // ----- the text -----

  function Repeat(c: char, n: int): (r: string)
    ensures |r| == if n > 0 then n else 0
    ensures forall i :: 0 <= i < |r| ==> r[i] == c
  {
    if n <= 0 then [] else Repeat(c, n - 1) + [c]
  }

  function AltPrefix(v: nat, base: nat, f: Flags): string {
    if f.alt && v != 0 then (if base == 8 then "0" else if base == 16 then "0x" else "") else ""
  }

  function SignPrefix(f: Flags): string {
    if f.negative then "-" else if f.sign then "+" else if f.space then " " else ""
  }

  /** Prefix and digits, padded with `pad` zeros after the prefix or with spaces. */
  function Laid(pre: string, d: string, f: Flags, pad: int): string {
    if f.zeropad then
      pre + Repeat('0', if f.ladjust then 0 else pad) + d + Repeat(' ', if f.ladjust then pad else 0)
    else
      Repeat(' ', if f.ladjust then 0 else pad) + pre + d + Repeat(' ', if f.ladjust then pad else 0)
  }

  /** The printed form. */
  function Format(v: nat, base: nat, f: Flags, width: int): string
    requires base in {8, 10, 16}
  {
    var d := Digits(v, base);
    var pre := SignPrefix(f) + AltPrefix(v, base, f);
    Laid(pre, d, f, width - (|pre| + |d|))
  }

  // ----- the buffer -----

  /** sizeof(INTMAX_T) * NBBY / 3 + 1 + 2, for 64 bits. */
  const BUFFER := 24

  function Reverse(s: string): (r: string)
    ensures |r| == |s|
    decreases |s|
  {
    if s == [] then [] else [s[|s| - 1]] + Reverse(s[..|s| - 1])
  }

  lemma {:induction false} ReverseMore(s: string, c: char)
    ensures Reverse(s + [c]) == [c] + Reverse(s)
  {
    assert (s + [c])[..|s|] == s;
  }

  /** The loop that takes the digits off, the lowest first. */
  method PutDigits(buf: array<char>, v: nat, base: nat) returns (p: nat)
    requires buf.Length == BUFFER && v <= MAX && base in {8, 10, 16}
    modifies buf
    ensures 1 <= p <= (if base == 16 then 16 else 22) && Reverse(buf[..p]) == Digits(v, base)
  {
    DigitsFit(v, base);
    TakenStart(v, base);
    hide Digits, Quo, Rem, Taken, Reverse, HexDigit;
    p := 0;
    var ul: nat := v;
    assert buf[..0] == [];
    while ul >= base
      invariant p < |Digits(v, base)| && Taken(buf[..p], v, ul, base)
      decreases ul
    {
      TakeDigit(buf[..p], v, ul, base);
      ghost var low := buf[..p];
      buf[p] := HexDigit(Rem(ul, base));
      assert buf[..p + 1] == low + [HexDigit(Rem(ul, base))];
      ul := Quo(ul, base);
      p := p + 1;
    }
    TakeLast(buf[..p], v, ul, base);
    ghost var low := buf[..p];
    buf[p] := HexDigit(ul);
    assert buf[..p + 1] == low + [HexDigit(ul)];
    p := p + 1;
  }

  lemma {:induction false} TakenStart(v: nat, base: nat)
    requires base in {8, 10, 16}
    ensures Taken([], v, v, base)
  {
  }

  /** The lowest digits of `v` are in `low`, `ul` is what remains. */
  ghost predicate Taken(low: string, v: nat, ul: nat, base: nat) {
    base in {8, 10, 16} && Digits(v, base) == Digits(ul, base) + Reverse(low)
  }

  lemma {:induction false} TakeDigit(low: string, v: nat, ul: nat, base: nat)
    requires Taken(low, v, ul, base) && ul >= base && base in {8, 10, 16}
    ensures Quo(ul, base) < ul && Rem(ul, base) < 16
    ensures Taken(low + [HexDigit(Rem(ul, base))], v, Quo(ul, base), base) && |low| + 1 < |Digits(v, base)|
  {
    MoveDigit(low, v, Quo(ul, base), Rem(ul, base), base);
  }

  lemma {:induction false} MoveDigit(low: string, v: nat, q: nat, r: nat, base: nat)
    requires base in {8, 10, 16} && r < 16 && Digits(v, base) == Digits(q, base) + [HexDigit(r)] + Reverse(low)
    ensures Taken(low + [HexDigit(r)], v, q, base) && |low| + 1 < |Digits(v, base)|
  {
    var c := HexDigit(r);
    ReverseMore(low, c);
    assert Digits(q, base) + [c] + Reverse(low) == Digits(q, base) + ([c] + Reverse(low));
  }

  lemma {:induction false} TakeLast(low: string, v: nat, ul: nat, base: nat)
    requires Taken(low, v, ul, base) && ul < base && base in {8, 10, 16}
    ensures ul < 16 && Reverse(low + [HexDigit(ul)]) == Digits(v, base) && |Digits(v, base)| == |low| + 1
  {
    ReverseMore(low, HexDigit(ul));
  }

  /** A 64-bit value has at most 22 digits, 16 in base 16. */
  lemma {:induction false} DigitsFit(v: nat, base: nat)
    requires v <= MAX && base in {8, 10, 16}
    ensures |Digits(v, base)| <= if base == 16 then 16 else 22
  {
    Powers16();
    DigitsLength(v, base, if base == 16 then 16 else 22);
  }

  lemma {:induction false} Powers16()
    ensures Power(16, 16) == MAX + 1 && Power(8, 22) > MAX && Power(10, 22) > MAX
  {
    PowerAdd(16, 8, 8);
    PowerAdd(16, 4, 4);
    assert Power(16, 4) == 0x1_0000;
    PowerAdd(8, 11, 11);
    PowerAdd(8, 6, 5);
    assert Power(8, 5) == 0x8000 && Power(8, 6) == 0x4_0000;
    PowerAdd(10, 11, 11);
    PowerAdd(10, 6, 5);
    assert Power(10, 5) == 100000 && Power(10, 6) == 1000000;
  }

  lemma {:induction false} PowerAdd(b: nat, i: nat, j: nat)
    ensures Power(b, i + j) == Power(b, i) * Power(b, j)
    decreases i
  {
    if i > 0 {
      PowerAdd(b, i - 1, j);
      assert b * (Power(b, i - 1) * Power(b, j)) == b * Power(b, i - 1) * Power(b, j);
    }
  }

  /** put(*--p) while p > q. */
  method Emit(buf: array<char>, q: nat, p: nat, out: string) returns (r: string)
    requires q <= p <= buf.Length
    ensures r == out + Reverse(buf[q..p])
  {
    r := out;
    var k := p;
    assert buf[q..p] == buf[q..k];
    while k > q
      invariant q <= k <= p && out + Reverse(buf[q..p]) == r + Reverse(buf[q..k])
    {
      k := k - 1;
      assert buf[q..k + 1] == buf[q..k] + [buf[k]];
      ReverseMore(buf[q..k], buf[k]);
      assert r + ([buf[k]] + Reverse(buf[q..k])) == r + [buf[k]] + Reverse(buf[q..k]);
      r := r + [buf[k]];
    }
    assert buf[q..q] == [];
  }

  /** while (width-- > 0) put(c) */
  method Pad(c: char, width: int, out: string) returns (r: string)
    ensures r == out + Repeat(c, width)
  {
    r := out;
    var i := 0;
    while i < width
      invariant (0 <= i <= width || (i == 0 && width <= 0)) && r == out + Repeat(c, i)
    {
      assert out + (Repeat(c, i) + [c]) == out + Repeat(c, i) + [c];
      r := r + [c];
      i := i + 1;
    }
  }

  lemma {:induction false} ReverseConcat(a: string, b: string)
    ensures Reverse(a + b) == Reverse(b) + Reverse(a)
    decreases |b|
  {
    if b == [] {
      assert a + b == a;
    } else {
      var c := b[..|b| - 1];
      assert (a + b)[..|a + b| - 1] == a + c;
      ReverseConcat(a, c);
    }
  }

  /** The part of kprintn for ALT; characters go in from the last to the first. */
  method PutAlt(buf: array<char>, q: nat, v: nat, base: nat, f: Flags) returns (p: nat)
    requires buf.Length == BUFFER && base in {8, 10, 16} && 1 <= q <= (if base == 16 then 16 else 22)
    requires Reverse(buf[..q]) == Digits(v, base)
    modifies buf
    ensures q <= p < BUFFER && buf[..q] == old(buf[..q]) && Reverse(buf[q..p]) == AltPrefix(v, base, f)
  {
    DigitsValue(v, base);
    assert buf[q - 1] == buf[..q][q - 1] == Reverse(buf[..q])[0];
    p := q;
    if f.alt && buf[p - 1] != '0' {
      if base == 8 {
        buf[p] := '0';
        p := p + 1;
        assert buf[q..p] == "0";
      } else if base == 16 {
        buf[p] := 'x';
        buf[p + 1] := '0';
        p := p + 2;
        assert buf[q..p] == "x0";
      }
    }
    Short(buf[q..p]);
  }

  /** The part for NEGATIVE, SIGN and SPACE. */
  method PutSign(buf: array<char>, q: nat, k: nat, f: Flags) returns (p: nat)
    requires q <= k < buf.Length
    modifies buf
    ensures q <= p <= buf.Length && buf[..q] == old(buf[..q]) && Reverse(buf[q..p]) == SignPrefix(f) + old(Reverse(buf[q..k]))
  {
    p := k;
    var sg := if f.negative then '-' else if f.sign then '+' else ' ';
    if f.negative || f.sign || f.space {
      ghost var alt := buf[q..k];
      buf[p] := sg;
      p := p + 1;
      assert buf[q..p] == alt + [sg];
      ReverseMore(alt, sg);
    }
  }

  lemma {:induction false} Short(s: string)
    ensures s == "" ==> Reverse(s) == ""
    ensures |s| == 1 ==> Reverse(s) == s
    ensures |s| == 2 ==> Reverse(s) == [s[1], s[0]]
  {
    if |s| == 2 {
      assert s == [s[0]] + [s[1]] && [s[0]][..0] == [];
      ReverseMore([s[0]], s[1]);
      assert Reverse([s[0]]) == [s[0]];
    }
  }

  /** The output part of kprintn: prefix, padding and digits. */
  method Lay(buf: array<char>, q: nat, p: nat, f: Flags, w: int, ghost pre: string, ghost d: string) returns (out: string)
    requires q <= p <= buf.Length && Reverse(buf[..q]) == d && Reverse(buf[q..p]) == pre
    ensures out == Laid(pre, d, f, w)
  {
    assert buf[0..p] == buf[..q] + buf[q..p] && buf[0..q] == buf[..q];
    ReverseConcat(buf[..q], buf[q..p]);
    hide Reverse, Repeat;
    Layouts(pre, d, w);
    if f.zeropad {
      out := Emit(buf, q, p, "");
      assert out == pre;
      if !f.ladjust {
        out := Pad('0', w, out);
      }
      out := Emit(buf, 0, q, out);
    } else {
      out := "";
      if !f.ladjust {
        out := Pad(' ', w, out);
      }
      out := Emit(buf, 0, p, out);
    }
    if f.ladjust {
      out := Pad(' ', w, out);
    }
  }

  /** kprintn: the text, and its buffer is long enough. */
  method Kprintn(v: nat, base: nat, f: Flags, width: int) returns (out: string)
    requires v <= MAX && base in {8, 10, 16}
    ensures out == Format(v, base, f, width)
  {
    var buf := new char[BUFFER];
    var q := PutDigits(buf, v, base);
    var k := PutAlt(buf, q, v, base, f);
    var p := PutSign(buf, q, k, f);
    ghost var d, pre := Digits(v, base), SignPrefix(f) + AltPrefix(v, base, f);
    assert |pre| + |d| == p;
    out := Lay(buf, q, p, f, width - p, pre, d);
  }

  /** Concatenation in the order of the calls is concatenation. */
  lemma {:induction false} Layouts(pre: string, d: string, w: int)
    ensures "" + pre == pre && "" + (pre + d) == pre + d
    ensures Repeat('0', 0) == "" && Repeat(' ', 0) == ""
    ensures pre + "" + d == pre + d && "" + pre + d == pre + d && pre + d + "" == pre + d
    ensures "" + Repeat(' ', w) == Repeat(' ', w)
    ensures Repeat(' ', w) + (pre + d) == Repeat(' ', w) + pre + d
  {
  }

  // ----- what the text shows -----

  ghost predicate AllOf(s: string, c: char) {
    forall i :: 0 <= i < |s| ==> s[i] == c
  }

  /** The digits of a number: lower case, the highest first, no more than it needs. */
  ghost predicate IsNumeral(d: string, v: nat, base: nat) {
    && |d| >= 1 && AllDigits(d, base) && Value(d, base) == v
    && (d[0] == '0' ==> |d| == 1)
    && forall i :: 0 <= i < |d| ==> '0' <= d[i] <= '9' || 'a' <= d[i] <= 'f'
  }

  /** The sign that the flags ask for: minus before plus before space. */
  ghost predicate IsSign(sg: string, f: Flags) {
    && (f.negative ==> sg == "-")
    && (!f.negative && f.sign ==> sg == "+")
    && (!f.negative && !f.sign ==> sg == if f.space then " " else "")
  }

  /** The prefix of the base, which only a number other than zero gets. */
  ghost predicate IsAlt(alt: string, v: nat, base: nat, f: Flags) {
    && (f.alt && v != 0 && base == 8 ==> alt == "0")
    && (f.alt && v != 0 && base == 16 ==> alt == "0x")
    && (!f.alt || v == 0 || base == 10 ==> alt == "")
  }

  /**
    The parts of a printed number, and where the fill is: blanks in front, or zeros between prefix and
    digits, or blanks behind, and only as much as the width asks for.
   */
  ghost predicate Shown(out: string, v: nat, base: nat, f: Flags, width: int,
                        lead: string, sg: string, alt: string, zeros: string, d: string, tail: string)
  {
    && out == lead + sg + alt + zeros + d + tail
    && IsSign(sg, f) && IsAlt(alt, v, base, f) && IsNumeral(d, v, base)
    && AllOf(lead, ' ') && AllOf(zeros, '0') && AllOf(tail, ' ')
    && (lead != "" ==> !f.ladjust && !f.zeropad)
    && (zeros != "" ==> !f.ladjust && f.zeropad)
    && (tail != "" ==> f.ladjust)
    && |out| == if |sg| + |alt| + |d| < width then width else |sg| + |alt| + |d|
  }

  /** The text that kprintn prints has these parts, for every value, base, width and set of flags. */
  lemma {:induction false} FormatShown(v: nat, base: nat, f: Flags, width: int)
      returns (lead: string, sg: string, alt: string, zeros: string, d: string, tail: string)
    requires base in {8, 10, 16}
    ensures Shown(Format(v, base, f, width), v, base, f, width, lead, sg, alt, zeros, d, tail)
  {
    hide HexDigit, Laid;
    sg, alt, d := SignPrefix(f), AltPrefix(v, base, f), Digits(v, base);
    var pad := width - (|sg + alt| + |d|);
    lead := Repeat(' ', if f.ladjust || f.zeropad then 0 else pad);
    zeros := Repeat('0', if f.zeropad && !f.ladjust then pad else 0);
    tail := Repeat(' ', if f.ladjust then pad else 0);
    NumeralOf(v, base);
    hide Digits, Value, IsNumeral;
    LaidParts(sg, alt, d, f, pad);
  }

  lemma {:induction false} LaidParts(sg: string, alt: string, d: string, f: Flags, pad: int)
    ensures var lead := Repeat(' ', if f.ladjust || f.zeropad then 0 else pad);
            var zeros := Repeat('0', if f.zeropad && !f.ladjust then pad else 0);
            var tail := Repeat(' ', if f.ladjust then pad else 0);
            lead + sg + alt + zeros + d + tail == Laid(sg + alt, d, f, pad)
  {
    assert Repeat(' ', 0) == "" && Repeat('0', 0) == "";
    hide Repeat;
    Joined6(Repeat(' ', pad), sg, alt, Repeat('0', pad), d, Repeat(' ', pad));
  }

  lemma {:induction false} Joined6(l: string, sg: string, alt: string, z: string, d: string, t: string)
    ensures l + sg + alt + "" + d + "" == l + (sg + alt) + d + ""
    ensures "" + sg + alt + z + d + "" == sg + alt + z + d + ""
    ensures "" + sg + alt + "" + d + t == sg + alt + "" + d + t == "" + (sg + alt) + d + t
  {
  }

  lemma {:induction false} NumeralOf(v: nat, base: nat)
    requires base in {8, 10, 16}
    ensures IsNumeral(Digits(v, base), v, base)
  {
    DigitsValue(v, base);
    LowerCase(v, base);
  }

  lemma {:induction false} LowerCase(v: nat, base: nat)
    requires base in {8, 10, 16}
    ensures forall i :: 0 <= i < |Digits(v, base)| ==> '0' <= Digits(v, base)[i] <= '9' || 'a' <= Digits(v, base)[i] <= 'f'
    decreases v
  {
    if v >= base {
      LowerCase(v / base, base);
    }
  }

  /** Two texts with the parts of the same number are the same text. */
  lemma {:induction false} ShownOnce(a: string, b: string, v: nat, base: nat, f: Flags, width: int,
      l1: string, s1: string, a1: string, z1: string, d1: string, t1: string,
      l2: string, s2: string, a2: string, z2: string, d2: string, t2: string)
    requires base in {8, 10, 16}
    requires Shown(a, v, base, f, width, l1, s1, a1, z1, d1, t1) && Shown(b, v, base, f, width, l2, s2, a2, z2, d2, t2)
    ensures a == b
  {
    NumeralOnce(d1, d2, v, base);
    hide IsNumeral;
    assert s1 == s2 && a1 == a2;
    assert |l1| == |l2| && |z1| == |z2| && |t1| == |t2|;
    assert l1 == l2 && z1 == z2 && t1 == t2;
  }

  lemma {:induction false} NumeralOnce(d: string, e: string, v: nat, base: nat)
    requires base in {8, 10, 16} && IsNumeral(d, v, base) && IsNumeral(e, v, base)
    ensures d == e
    decreases |d|
  {
    var x, y := d[..|d| - 1], e[..|e| - 1];
    var r, q := DigitVal(d[|d| - 1]), DigitVal(e[|e| - 1]);
    assert IsDigit(d[|d| - 1], base) && IsDigit(e[|e| - 1], base);
    assert AllDigits(x, base) && AllDigits(y, base);
    SameParts(Value(x, base), r, Value(y, base), q, base);
    assert d[|d| - 1] == e[|e| - 1];
    HigherDigits(d, base);
    HigherDigits(e, base);
    if x != [] && y != [] {
      NumeralOnce(x, y, Value(x, base), base);
    }
    assert d == x + [d[|d| - 1]] && e == y + [e[|e| - 1]];
  }

  lemma {:induction false} SameParts(x: nat, r: nat, y: nat, q: nat, b: nat)
    requires r < b && q < b && x * b + r == y * b + q
    ensures x == y && r == q
  {
    if x < y {
      Powers.LeMul(x + 1, y, b);
    } else if y < x {
      Powers.LeMul(y + 1, x, b);
    }
  }

  /** What is in front of the last digit is nothing, or a number other than zero without leading zeros. */
  lemma {:induction false} HigherDigits(d: string, b: nat)
    requires b >= 2 && |d| >= 1 && AllDigits(d, b) && (d[0] == '0' ==> |d| == 1)
    requires forall i :: 0 <= i < |d| ==> '0' <= d[i] <= '9' || 'a' <= d[i] <= 'f'
    ensures var x := d[..|d| - 1];
            AllDigits(x, b) && (x == [] <==> Value(x, b) == 0) && (x != [] ==> x[0] != '0')
  {
    var x := d[..|d| - 1];
    if x != [] {
      assert x == [x[0]] + x[1..] && [x[0]][..0] == [];
      ValueGrows([x[0]], x[1..], b);
      assert IsDigit(d[0], b) && DigitVal(d[0]) >= 1;
      assert Value([x[0]], b) == Value([], b) * b + DigitVal(x[0]);
    }
  }
}
