/** strtoul of libec/_strtoul.h.  A string ends where its characters end, as if a NUL followed. */
module Strtoul {
  import opened Numbers
  import Powers

  function CharAt(s: string, i: nat): char {
    if i < |s| then s[i] else '\0'
  }

  /** isspace */
  predicate IsSpace(c: char) {
    c == ' ' || '\t' <= c <= '\r'
  }

  /** Blank, tab, line feed, vertical tab, form feed and carriage return. */
  lemma {:induction false} SpaceChars(c: char)
    ensures IsSpace(c) <==> c as int in {32, 9, 10, 11, 12, 13}
  {
  }

  function SkipSpace(s: string, i: nat): (k: nat)
    ensures k >= i
    decreases |s| - i
  {
    if i < |s| && IsSpace(s[i]) then SkipSpace(s, i + 1) else i
  }

  /** Where the digits begin, in which base they are, and whether a minus sign came before. */
  datatype Start = Start(neg: bool, at: nat, base: nat)

  function StartOf(s: string, base: nat): Start {
    var i := SkipSpace(s, 0);
    var c := CharAt(s, i);
    var k := if c == '-' || c == '+' then i + 1 else i;
    var hex := (base == 0 || base == 16) && CharAt(s, k) == '0' && CharAt(s, k + 1) in {'x', 'X'} && IsDigit(CharAt(s, k + 2), 16);
    Start(c == '-', if hex then k + 2 else k,
          if hex then 16 else if base != 0 then base else if CharAt(s, k) == '0' then 8 else 10)
  }

  /** The end of the digits from `i` on. */
  function RunEnd(s: string, i: nat, b: nat): (e: nat)
    ensures i <= e && (e > i ==> e <= |s|)
    ensures forall k :: i <= k < e ==> k < |s| && IsDigit(s[k], b)
    ensures e < |s| ==> !IsDigit(s[e], b)
    decreases |s| - i
  {
    if i < |s| && IsDigit(s[i], b) then RunEnd(s, i + 1, b) else i
  }

  /** The digits of the number. */
  ghost function Run(s: string, t: Start): string {
    var e := RunEnd(s, t.at, t.base);
    if e > t.at then s[t.at..e] else []
  }

  lemma {:induction false} RunDigits(s: string, t: Start)
    ensures AllDigits(Run(s, t), t.base)
  {
  }

  /** What the caller gets: a value, and how many characters were used. */
  datatype Parsed = Parsed(value: nat, end: nat)

  /**
    The result: the value if it fits, negated in the unsigned type after a minus sign, and the largest
    value if it does not fit (section 7.22.1.4 of ISO C11).  A value that does not fit counts as no
    characters used.
   */
  ghost function Meaning(s: string, base: nat): Parsed {
    if base == 1 || base > 36 then Parsed(0, 0) else
      var t := StartOf(s, base);
      RunDigits(s, t);
      var d := Run(s, t);
      var v := Value(d, t.base);
      if v > MAX then Parsed(MAX, 0)
      else if d == [] then Parsed(0, 0)
      else Parsed(if t.neg then (MAX + 1 - v) % (MAX + 1) else v, t.at + |d|)
  }

  /** No other base than 0 and 2 to 36. */
  lemma {:induction false} BadBase(s: string, base: nat)
    ensures base == 1 || base >= 37 ==> Meaning(s, base) == Parsed(0, 0)
  {
  }

  /** The test against cutoff and cutlim finds out if one more digit is too many. */
  lemma {:induction false} Cutoff(acc: nat, b: nat, d: nat)
    requires b >= 2 && d < b
    ensures acc > MAX / b || (acc == MAX / b && d > MAX % b) <==> acc * b + d > MAX
  {
    var q, r := MAX / b, MAX % b;
    assert MAX == q * b + r && 0 <= r < b;
    if acc > q {
      Powers.LeMul(q + 1, acc, b);
    } else if acc < q {
      Powers.LeMul(acc + 1, q, b);
    }
  }

  method Strtoul(s: string, base: nat) returns (r: Parsed)
    ensures r == Meaning(s, base)
  {
    hide Value, RunEnd, Run, DigitVal;
    if base != 0 && (base < 2 || base > 36) {
      return Parsed(0, 0);
    }
    var k := 0;
    while k < |s| && IsSpace(s[k])
      invariant k <= |s| && SkipSpace(s, 0) == SkipSpace(s, k)
    {
      k := k + 1;
    }
    var c := CharAt(s, k);
    var neg := c == '-';
    if c == '-' || c == '+' {
      k := k + 1;
    }
    var b := base;
    if (base == 0 || base == 16) && CharAt(s, k) == '0' && CharAt(s, k + 1) in {'x', 'X'} && IsDigit(CharAt(s, k + 2), 16) {
      k := k + 2;
      b := 16;
    } else if base == 0 {
      b := if CharAt(s, k) == '0' then 8 else 10;
    }
    ghost var t := StartOf(s, base);
    assert t == Start(neg, k, b);
    r := Scan(s, t, k, b, neg);
  }

  /** The loop of strtoul over the digits. */
  method Scan(s: string, ghost t: Start, at: nat, b: nat, neg: bool) returns (r: Parsed)
    requires t == Start(neg, at, b) && b >= 2
    ensures AllDigits(Run(s, t), b)
    ensures var v := Value(Run(s, t), b);
            r == if v > MAX then Parsed(MAX, 0)
                 else if Run(s, t) == [] then Parsed(0, 0)
                 else Parsed(if neg then (MAX + 1 - v) % (MAX + 1) else v, at + |Run(s, t)|)
  {
    RunDigits(s, t);
    var k := at;
    var acc: nat := 0;
    ghost var d: string := [];
    while k < |s| && IsDigit(s[k], b)
      invariant Scanned(s, t, k, d, acc)
      decreases |s| - k
    {
      Cutoff(acc, b, DigitVal(s[k]));
      NextDigit(s, t, k, d, acc);
      if acc > MAX / b || (acc == MAX / b && DigitVal(s[k]) > MAX % b) {
        return Parsed(MAX, 0);
      }
      acc := acc * b + DigitVal(s[k]);
      d := d + [s[k]];
      k := k + 1;
    }
    ScannedAll(s, t, k, d, acc);
    if k == at {
      return Parsed(0, 0);
    }
    return Parsed(if neg then (MAX + 1 - acc) % (MAX + 1) else acc, k);
  }

  /** The digits before `k` are `d` and have the value `acc`. */
  ghost predicate Scanned(s: string, t: Start, k: nat, d: string, acc: nat) {
    && t.at <= k <= RunEnd(s, t.at, t.base) && |d| == k - t.at && AllDigits(d, t.base)
    && acc == Value(d, t.base) <= MAX
    && (k > t.at ==> d == s[t.at..k])
  }

  lemma {:induction false} NextDigit(s: string, t: Start, k: nat, d: string, acc: nat)
    requires Scanned(s, t, k, d, acc) && k < |s| && IsDigit(s[k], t.base) && t.base >= 2
    ensures AllDigits(Run(s, t), t.base)
    ensures var a := acc * t.base + DigitVal(s[k]);
            if a > MAX then Value(Run(s, t), t.base) > MAX else Scanned(s, t, k + 1, d + [s[k]], a)
  {
    var e := RunEnd(s, t.at, t.base);
    assert k < e;
    ValueMore(d, s[k], t.base);
    var f := d + [s[k]];
    assert f == s[t.at..k + 1];
    RunDigits(s, t);
    assert f + s[k + 1..e] == Run(s, t);
    ValueGrows(f, s[k + 1..e], t.base);
  }

  lemma {:induction false} ScannedAll(s: string, t: Start, k: nat, d: string, acc: nat)
    requires Scanned(s, t, k, d, acc) && !(k < |s| && IsDigit(s[k], t.base))
    ensures d == Run(s, t) && AllDigits(d, t.base) && acc == Value(d, t.base) && k == t.at + |d|
  {
    var e := RunEnd(s, t.at, t.base);
    assert k == e;
  }
}
