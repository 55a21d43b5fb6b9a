/** What strtoul reads back from the output of kprintn. */
module PrintParse {
  import opened Numbers
  import opened Strtoul
  import opened Kprintn

  /** Spaces, a sign, the hexadecimal prefix, digits, spaces. */
  function Text(a: string, sg: string, x: string, body: string, b: string): string {
    a + (sg + (x + (body + b)))
  }

  ghost predicate Spaces(s: string) {
    forall i :: 0 <= i < |s| ==> s[i] == ' '
  }

  /** The parts that kprintn can put together. */
  ghost predicate Parts(a: string, sg: string, x: string, body: string, b: string, base: nat) {
    && base in {8, 10, 16}
    && Spaces(a) && Spaces(b)
    && (sg == "" || sg == "-" || sg == "+") && (x == "" || (x == "0x" && base == 16))
    && |body| >= 1 && AllDigits(body, base) && forall i :: 0 <= i < |body| ==> Plain(body[i])
  }

  lemma {:induction false} SkipsTo(s: string, i: nat, n: nat)
    requires i <= n <= |s| && (forall k :: i <= k < n ==> IsSpace(s[k])) && !IsSpace(CharAt(s, n))
    ensures SkipSpace(s, i) == n
    decreases n - i
  {
    if i < n {
      assert IsSpace(s[i]);
      SkipsTo(s, i + 1, n);
    }
  }

  lemma {:induction false} RunsTo(s: string, i: nat, e: nat, b: nat)
    requires i <= e <= |s| && (forall k :: i <= k < e ==> IsDigit(s[k], b)) && !IsDigit(CharAt(s, e), b)
    ensures RunEnd(s, i, b) == e
    decreases e - i
  {
    if i < e {
      assert IsDigit(s[i], b);
      RunsTo(s, i + 1, e, b);
    }
  }

  /** A plain digit is no space and no sign. */
  lemma {:induction false} PlainIs(c: char)
    ensures Plain(c) ==> !IsSpace(c) && c != '-' && c != '+'
    ensures !IsDigit(' ', 16) && !IsDigit('\0', 16)
  {
  }

  /** Where the characters of the text are. */
  lemma {:induction false} TextAt(a: string, sg: string, x: string, body: string, b: string)
    requires |body| >= 1
    ensures var s := Text(a, sg, x, body, b);
            var k := |a| + |sg|;
            && |s| == k + |x| + |body| + |b|
            && (forall i :: 0 <= i < |a| ==> s[i] == a[i])
            && (sg != "" ==> s[|a|] == sg[0])
            && (x != "" ==> s[k] == x[0]) && (|x| == 2 ==> s[k + 1] == x[1])
            && s[k + |x|] == body[0] && s[k + |x|..k + |x| + |body|] == body
            && (|body| >= 2 ==> s[k + |x| + 1] == body[1])
            && (|body| == 1 && b != "" ==> s[k + |x| + 1] == b[0])
            && (b != "" ==> s[k + |x| + |body|] == b[0])
  {
    var s, k := Text(a, sg, x, body, b), |a| + |sg|;
    var r := body + b;
    assert s == a + sg + (x + r);
    assert s[k..] == x + r;
    assert s[k + |x|..] == r;
    assert r[..|body|] == body;
    assert s[k + |x|..k + |x| + |body|] == s[k + |x|..][..|body|];
  }

  /** A hexadecimal prefix with a digit behind it, where the base allows one. */
  predicate HexPrefix(base: nat, t: string) {
    (base == 0 || base == 16) && |t| >= 3 && t[0] == '0' && (t[1] == 'x' || t[1] == 'X') && IsDigit(t[2], 16)
  }

  /** A number as ISO C writes it: white space, sign, prefix, digits, and whatever follows; `b` is its base. */
  ghost predicate Numeric(ws: string, sg: string, x: string, body: string, rest: string, base: nat, b: nat) {
    && (base == 0 || 2 <= base <= 36)
    && (forall i :: 0 <= i < |ws| ==> IsSpace(ws[i]))
    && (sg == "" || sg == "-" || sg == "+")
    && |body| >= 1 && AllDigits(body, b) && (rest == "" || !IsDigit(rest[0], b))
    && (x == "" || x == "0x" || x == "0X")
    && (x != "" ==> (base == 0 || base == 16) && b == 16)
    && (x == "" ==> !HexPrefix(base, body + rest) && b == if base != 0 then base else if body[0] == '0' then 8 else 10)
  }

  /** A digit is no space and no sign. */
  lemma {:induction false} DigitIs(c: char, b: nat)
    ensures IsDigit(c, b) ==> !IsSpace(c) && c != '-' && c != '+' && c != '\0'
  {
  }

  /** strtoul finds the digits after spaces, sign and prefix. */
  lemma {:induction false} FindsStart(ws: string, sg: string, x: string, body: string, rest: string, base: nat, b: nat)
    requires Numeric(ws, sg, x, body, rest, base, b)
    ensures StartOf(Text(ws, sg, x, body, rest), base) == Start(sg == "-", |ws| + |sg| + |x|, b)
  {
    var s := Text(ws, sg, x, body, rest);
    TextAt(ws, sg, x, body, rest);
    DigitIs(body[0], b);
    SkipsTo(s, 0, |ws|);
    var k := |ws| + |sg|;
    TextFrom(ws, sg, x, body, rest);
    hide SkipSpace, Value;
  }

  lemma {:induction false} TextFrom(ws: string, sg: string, x: string, body: string, rest: string)
    requires |body| >= 1
    ensures var s, k, r := Text(ws, sg, x, body, rest), |ws| + |sg|, x + (body + rest);
            forall j: nat :: CharAt(s, k + j) == CharAt(r, j)
  {
    var s, k, r := Text(ws, sg, x, body, rest), |ws| + |sg|, x + (body + rest);
    assert s == ws + sg + r;
  }

  /** It gets their value in every base, if that fits, and where they end. */
  lemma {:induction false} ParsesNumber(ws: string, sg: string, x: string, body: string, rest: string, base: nat, b: nat)
    requires Numeric(ws, sg, x, body, rest, base, b)
    ensures Meaning(Text(ws, sg, x, body, rest), base) ==
            var v := Value(body, b);
            if v > MAX then Parsed(MAX, 0)
            else Parsed(if sg == "-" then (MAX + 1 - v) % (MAX + 1) else v, |ws| + |sg| + |x| + |body|)
  {
    var s := Text(ws, sg, x, body, rest);
    FindsStart(ws, sg, x, body, rest, base, b);
    TextAt(ws, sg, x, body, rest);
    DigitIs('\0', b);
    RunIs(s, Start(sg == "-", |ws| + |sg| + |x|, b), body);
  }

  /** Without a digit after spaces and sign, no characters are used. */
  lemma {:induction false} NoNumber(ws: string, sg: string, rest: string, base: nat)
    requires (base == 0 || 2 <= base <= 36) && (forall i :: 0 <= i < |ws| ==> IsSpace(ws[i]))
    requires (sg == "" || sg == "-" || sg == "+") && !IsDigit(CharAt(rest, 0), if base == 0 then 10 else base)
    requires sg == "" ==> !IsSpace(CharAt(rest, 0)) && CharAt(rest, 0) != '-' && CharAt(rest, 0) != '+'
    ensures Meaning(ws + (sg + rest), base) == Parsed(0, 0)
  {
    var s := ws + (sg + rest);
    var k := |ws| + |sg|;
    assert CharAt(s, |ws|) == CharAt(sg + rest, 0) && CharAt(s, k) == CharAt(rest, 0);
    assert forall i :: 0 <= i < |ws| ==> s[i] == ws[i];
    SkipsTo(s, 0, |ws|);
    assert StartOf(s, base).at == k;
  }

  lemma {:induction false} RunIs(s: string, t: Start, body: string)
    requires t.at + |body| <= |s| && s[t.at..t.at + |body|] == body && |body| >= 1
    requires AllDigits(body, t.base) && !IsDigit(CharAt(s, t.at + |body|), t.base)
    ensures Run(s, t) == body
  {
    var e := t.at + |body|;
    forall k | t.at <= k < e
      ensures IsDigit(s[k], t.base)
    {
      assert s[k] == body[k - t.at];
    }
    RunsTo(s, t.at, e, t.base);
  }

  lemma {:induction false} PlainParts(a: string, sg: string, x: string, body: string, b: string, base: nat)
    requires Parts(a, sg, x, body, b, base)
    ensures Numeric(a, sg, x, body, b, base, base)
  {
    PlainIs(body[0]);
    if |body| >= 2 {
      assert (body + b)[1] == body[1] && Plain(body[1]);
    } else if b != "" {
      assert (body + b)[1] == b[0] == ' ';
    }
  }

  /** So it gets the value of what kprintn puts together. */
  lemma {:induction false} ParsesText(a: string, sg: string, x: string, body: string, b: string, base: nat)
    requires Parts(a, sg, x, body, b, base) && Value(body, base) <= MAX
    ensures Meaning(Text(a, sg, x, body, b), base) ==
            Parsed(if sg == "-" then (MAX + 1 - Value(body, base)) % (MAX + 1) else Value(body, base),
                   |a| + |sg| + |x| + |body|)
  {
    PlainParts(a, sg, x, body, b, base);
    ParsesNumber(a, sg, x, body, b, base, base);
  }

  // ----- the round trip -----

  /** The spaces in front: left padding, or the space of the SPACE flag. */
  function Lead(f: Flags, pad: int): string {
    Repeat(' ', if f.zeropad || f.ladjust then 0 else pad) + if !f.negative && !f.sign && f.space then " " else ""
  }

  function SignOf(f: Flags): string {
    if f.negative then "-" else if f.sign then "+" else ""
  }

  function HexOf(v: nat, base: nat, f: Flags): string {
    if f.alt && v != 0 && base == 16 then "0x" else ""
  }

  /** The zeros in front of the digits: the octal prefix and the padding. */
  function Zeros(v: nat, base: nat, f: Flags, pad: int): (z: string)
    ensures forall i :: 0 <= i < |z| ==> z[i] == '0'
  {
    (if f.alt && v != 0 && base == 8 then "0" else "") + Repeat('0', if f.zeropad && !f.ladjust then pad else 0)
  }

  function Body(v: nat, base: nat, f: Flags, pad: int): string
    requires base in {8, 10, 16}
  {
    Zeros(v, base, f, pad) + Digits(v, base)
  }

  function Tail(f: Flags, pad: int): string {
    Repeat(' ', if f.ladjust then pad else 0)
  }

  /** The printed form has these parts. */
  lemma {:induction false} FormatText(v: nat, base: nat, f: Flags, pad: int)
    requires base in {8, 10, 16}
    ensures Laid(SignPrefix(f) + AltPrefix(v, base, f), Digits(v, base), f, pad) ==
            Text(Lead(f, pad), SignOf(f), HexOf(v, base, f), Body(v, base, f, pad), Tail(f, pad))
  {
    var d := Digits(v, base);
    var alt8 := if f.alt && v != 0 && base == 8 then "0" else "";
    assert SignPrefix(f) == (if !f.negative && !f.sign && f.space then " " else "") + SignOf(f);
    assert AltPrefix(v, base, f) == HexOf(v, base, f) + alt8;
    var sp := if !f.negative && !f.sign && f.space then " " else "";
    if f.zeropad {
      Regroup("", sp, SignOf(f), HexOf(v, base, f), alt8, Repeat('0', if f.ladjust then 0 else pad), d, Tail(f, pad));
    } else {
      Regroup(Repeat(' ', if f.ladjust then 0 else pad), sp, SignOf(f), HexOf(v, base, f), alt8, "", d, Tail(f, pad));
    }
  }

  lemma {:induction false} Regroup(l: string, sp: string, sg: string, x: string, o: string, z: string, d: string, t: string)
    ensures l + (sp + sg + (x + o)) + d + t == Text(l + sp, sg, x, o + "" + d, t)
    ensures sp + sg + (x + o) + z + d + t == Text("" + sp, sg, x, o + z + d, t)
  {
  }

  /**
    strtoul of what kprintn prints, in the same base, is the number that was printed, negated in the
    unsigned type after a minus sign; it uses all characters but trailing spaces.
   */
  lemma {:induction false} RoundTrip(v: nat, base: nat, f: Flags, width: int)
    requires v <= MAX && base in {8, 10, 16}
    ensures var s := Format(v, base, f, width);
            var m := Meaning(s, base);
            && m.value == (if f.negative then (MAX + 1 - v) % (MAX + 1) else v)
            && m.end <= |s| && Spaces(s[m.end..])
  {
    var pre := SignPrefix(f) + AltPrefix(v, base, f);
    var pad := width - (|pre| + |Digits(v, base)|);
    FormatText(v, base, f, pad);
    BodyValue(v, base, f, pad);
    var a, sg, x, body, b := Lead(f, pad), SignOf(f), HexOf(v, base, f), Body(v, base, f, pad), Tail(f, pad);
    ParsesText(a, sg, x, body, b, base);
    TextEnd(a, sg, x, body, b);
  }

  lemma {:induction false} TextEnd(a: string, sg: string, x: string, body: string, b: string)
    ensures var s, e := Text(a, sg, x, body, b), |a| + |sg| + |x| + |body|;
            e <= |s| && s[e..] == b
  {
  }

  lemma {:induction false} BodyValue(v: nat, base: nat, f: Flags, pad: int)
    requires base in {8, 10, 16}
    ensures Parts(Lead(f, pad), SignOf(f), HexOf(v, base, f), Body(v, base, f, pad), Tail(f, pad), base)
    ensures Value(Body(v, base, f, pad), base) == v
  {
    DigitsValue(v, base);
    hide Digits, Repeat, Value, Zeros, Plain, IsDigit, Lead, Tail;
    LeadingZeros(Zeros(v, base, f, pad), Digits(v, base), base);
    ZerosPlain(Zeros(v, base, f, pad), Digits(v, base));
    LeadSpaces(f, pad);
  }

  lemma {:induction false} LeadSpaces(f: Flags, pad: int)
    ensures Spaces(Lead(f, pad)) && Spaces(Tail(f, pad))
  {
  }

  lemma {:induction false} ZerosPlain(z: string, d: string)
    requires (forall i :: 0 <= i < |z| ==> z[i] == '0') && forall i :: 0 <= i < |d| ==> Plain(d[i])
    ensures forall i :: 0 <= i < |z + d| ==> Plain((z + d)[i])
  {
    assert Plain('0');
  }
}
