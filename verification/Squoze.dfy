/** Twelve characters of a forty-letter alphabet in 64 bits, tools/ar50/squoze.c. */
module Squoze {
  import Powers

  /** chenc */
  function CharEnc(c: char): (k: nat)
    ensures k < 40
  {
    if 'A' <= c <= 'Z' then c as int - 'A' as int + 1
    else if 'a' <= c <= 'z' then c as int - 'a' as int + 1
    else if '0' <= c <= '9' then c as int - '0' as int + 30
    else if c == ' ' then 0 else if c == '$' then 27 else if c == '.' then 28 else 29
  }

  /** chdec */
  function CharDec(k: nat): char
    requires k < 40
  {
    if k == 0 then ' '
    else if k <= 26 then ('A' as int + k - 1) as char
    else if k >= 30 then ('0' as int + k - 30) as char
    else if k == 27 then '$' else if k == 28 then '.' else '_'
  }

  /** What is left of a character: letters in upper case, foreign characters as '_'. */
  function Norm(c: char): char {
    if 'a' <= c <= 'z' then ('A' as int + (c as int - 'a' as int)) as char
    else if 'A' <= c <= 'Z' || '0' <= c <= '9' || c == ' ' || c == '$' || c == '.' then c
    else '_'
  }

  /** The groups of the alphabet in their order: space, letters, dollar, dot, underscore, digits. */
  function Group(c: char): nat {
    if c == ' ' then 0 else if 'A' <= c <= 'Z' then 1 else if c == '$' then 2 else if c == '.' then 3
    else if '0' <= c <= '9' then 5 else 4
  }

  /** `c` comes before `d` in the alphabet. */
  predicate Earlier(c: char, d: char) {
    Group(c) < Group(d) || (Group(c) == Group(d) && Group(c) in {1, 5} && c < d)
  }

  /** The codes follow the order of the alphabet, and each of the forty numbers is the code of a character. */
  lemma {:induction false} EncOrder(c: char, d: char, k: nat)
    requires k < 40
    ensures CharEnc(c) < CharEnc(d) <==> Earlier(Norm(c), Norm(d))
    ensures CharEnc(CharDec(k)) == k && Norm(CharDec(k)) == CharDec(k)
  {
  }

  lemma {:induction false} DecEnc(c: char)
    ensures CharDec(CharEnc(c)) == Norm(c) && (CharEnc(c) == 0 <==> c == ' ')
  {
  }

  // ----- numbers in base forty -----

  function P40(k: nat): (p: nat)
    ensures p >= 1
  {
    if k == 0 then 1 else 40 * P40(k - 1)
  }

  ghost predicate Codes(d: seq<nat>) {
    forall i :: 0 <= i < |d| ==> d[i] < 40
  }

  /** The number with digits `d`, the highest first. */
  function Pack(d: seq<nat>): nat
    decreases |d|
  {
    if d == [] then 0 else d[0] * P40(|d| - 1) + Pack(d[1..])
  }

  lemma {:induction false} PackBound(d: seq<nat>)
    requires Codes(d)
    ensures Pack(d) < P40(|d|)
    decreases |d|
  {
    if d != [] {
      PackBound(d[1..]);
      var p := P40(|d| - 1);
      assert d[0] * p <= 39 * p by { Powers.LeMul(d[0], 39, p); }
    }
  }

  /** A number is zero when all its digits are. */
  lemma {:induction false} PackZero(d: seq<nat>)
    ensures Pack(d) == 0 <==> forall i :: 0 <= i < |d| ==> d[i] == 0
    decreases |d|
  {
    if d != [] {
      PackZero(d[1..]);
      var p := P40(|d| - 1);
      if d[0] > 0 {
        Powers.LeMul(1, d[0], p);
      }
      assert forall i :: 0 < i < |d| ==> d[i] == d[1..][i - 1];
    }
  }

  lemma {:induction false} PackAppend(d: seq<nat>, k: nat)
    ensures Pack(d + [k]) == Pack(d) * 40 + k
    decreases |d|
  {
    if d == [] {
      assert d + [k] == [k] && [k][1..] == [];
      assert Pack([k]) == k * P40(0) + Pack([]);
    } else {
      PackAppend(d[1..], k);
      assert (d + [k])[1..] == d[1..] + [k];
      Shift40(d[0], P40(|d| - 1));
    }
  }

  lemma {:induction false} Shift40(a: nat, p: nat)
    ensures a * (40 * p) == a * p * 40
  {
  }

  /** First difference decides. */
  ghost predicate Before(a: seq<nat>, b: seq<nat>)
    decreases |a|
  {
    a != [] && b != [] && (a[0] < b[0] || (a[0] == b[0] && Before(a[1..], b[1..])))
  }

  /** Packed numbers compare as their digit strings do. */
  lemma {:induction false} PackOrder(a: seq<nat>, b: seq<nat>)
    requires Codes(a) && Codes(b) && |a| == |b|
    ensures Pack(a) < Pack(b) <==> Before(a, b)
    decreases |a|
  {
    if a != [] {
      PackBound(a[1..]);
      PackBound(b[1..]);
      TopDigit(a[0], b[0], P40(|a| - 1), Pack(a[1..]), Pack(b[1..]));
      if a[0] == b[0] {
        PackOrder(a[1..], b[1..]);
      }
    }
  }

  lemma {:induction false} TopDigit(x: nat, y: nat, p: nat, u: nat, v: nat)
    requires u < p && v < p
    ensures x * p + u < y * p + v <==> x < y || (x == y && u < v)
  {
    assert (x + 1) * p == x * p + p && (y + 1) * p == y * p + p;
    if x < y {
      Powers.LeMul(x + 1, y, p);
    } else if y < x {
      Powers.LeMul(y + 1, x, p);
    }
  }

  lemma {:induction false} P40Add(i: nat, j: nat)
    ensures P40(i + j) == P40(i) * P40(j)
    decreases i
  {
    if i > 0 {
      P40Add(i - 1, j);
      Powers.Assoc(40, P40(i - 1), P40(j));
    }
  }

  /** Twelve digits fit 64 bits. */
  lemma {:induction false} Twelve()
    ensures P40(11) == 419430400000000000 && P40(12) == 16777216000000000000 < 0x1_0000_0000_0000_0000
  {
    assert P40(3) == 64000;
    P40Add(3, 3);
    assert P40(6) == 4096000000;
    P40Add(6, 5);
    assert P40(5) == 102400000;
    assert P40(12) == 40 * P40(11);
  }

  /** The `k` lowest digits of a number. */
  function Unpack(n: nat, k: nat): (d: seq<nat>)
    ensures |d| == k && forall i :: 0 <= i < k ==> d[i] < 40
  {
    if k == 0 then [] else Unpack(n / 40, k - 1) + [n % 40]
  }

  lemma {:induction false} PackUnpack(n: nat, k: nat)
    requires n < P40(k)
    ensures Pack(Unpack(n, k)) == n
    decreases k
  {
    if k > 0 {
      PackUnpack(n / 40, k - 1);
      PackAppend(Unpack(n / 40, k - 1), n % 40);
    }
  }

  lemma {:induction false} UnpackPack(d: seq<nat>)
    requires Codes(d)
    ensures Unpack(Pack(d), |d|) == d
    decreases |d|
  {
    if d != [] {
      var e, k := d[..|d| - 1], d[|d| - 1];
      assert d == e + [k];
      PackAppend(e, k);
      UnpackPack(e);
    }
  }

  lemma {:induction false} PackSplit(a: seq<nat>, b: seq<nat>)
    ensures Pack(a + b) == Pack(a) * P40(|b|) + Pack(b)
    decreases |b|
  {
    if b == [] {
      assert a + b == a;
    } else {
      var e, k := b[..|b| - 1], b[|b| - 1];
      assert b == e + [k] && a + b == (a + e) + [k];
      PackSplit(a, e);
      PackAppend(a + e, k);
      PackAppend(e, k);
      Shift40(Pack(a), P40(|e|));
    }
  }

  lemma {:induction false} QuotRem(h: nat, r: nat, p: nat)
    requires r < p
    ensures (h * p + r) / p == h && (h * p + r) % p == r
  {
    assert (h + 1) * p == h * p + p;
    Powers.Quotient(h * p + r, p, h);
  }

  // ----- encoding -----

  /** The part of a string that is encoded: up to the NUL, at most twelve characters. */
  function Cut(s: string, n: nat): (r: string)
    ensures |r| <= n && |r| <= |s| && r == s[..|r|] && '\0' !in r
    ensures |r| < n && |r| < |s| ==> s[|r|] == '\0'
    decreases n
  {
    if n == 0 || s == [] || s[0] == '\0' then [] else [s[0]] + Cut(s[1..], n - 1)
  }

  function CodesOf(s: string): (d: seq<nat>)
    ensures |d| == |s| && forall i :: 0 <= i < |s| ==> d[i] == CharEnc(s[i])
  {
    if s == [] then [] else CodesOf(s[..|s| - 1]) + [CharEnc(s[|s| - 1])]
  }

  function Zeros(n: nat): (d: seq<nat>)
    ensures |d| == n && forall i :: 0 <= i < n ==> d[i] == 0
  {
    if n == 0 then [] else Zeros(n - 1) + [0]
  }

  /** The twelve codes that a string stands for. */
  function Padded(s: string): (d: seq<nat>)
    ensures |d| == 12 && forall i :: 0 <= i < 12 ==> d[i] < 40
  {
    var c := Cut(s, 12);
    PadWith(CodesOf(c), 12 - |c|)
  }

  function PadWith(d: seq<nat>, n: nat): seq<nat> {
    d + Zeros(n)
  }

  lemma {:induction false} Fits(d: seq<nat>)
    requires Codes(d) && |d| <= 12
    ensures Pack(d) < P40(12) < 0x1_0000_0000_0000_0000
  {
    PackBound(d);
    Twelve();
    P40Add(12 - |d|, |d|);
    Powers.LeMul(1, P40(12 - |d|), P40(|d|));
  }

  /** The first loop of squoze; no step leaves 64 bits. */
  method Encode(s: string) returns (sqz: nat, ptr: nat)
    ensures ptr == |Cut(s, 12)| && sqz == Pack(CodesOf(Cut(s, 12)))
  {
    hide Pack, P40, CodesOf;
    ghost var c := Cut(s, 12);
    ptr, sqz := 0, 0;
    NoCodes(c);
    while ptr < |s| && s[ptr] != '\0' && ptr < 12
      invariant ptr <= |c| && sqz == Pack(CodesOf(c[..ptr]))
    {
      assert ptr < |c| && c[ptr] == s[ptr];
      var k := CharEnc(s[ptr]);
      ghost var d := CodesOf(c[..ptr]);
      CodesMore(c, ptr);
      PackAppend(d, k);
      Fits(d + [k]);
      assert sqz * 40 + k < 0x1_0000_0000_0000_0000;
      sqz := sqz * 40 + k;
      ptr := ptr + 1;
    }
    assert c[..ptr] == c;
  }

  /** The second loop of squoze: padding brings the first character to the top. */
  method PadOut(top: nat, k: nat, ghost codes: seq<nat>) returns (sqz: nat)
    requires Codes(codes) && |codes| == k <= 12 && top == Pack(codes)
    ensures sqz == Pack(PadWith(codes, 12 - k))
  {
    PadNone(codes);
    hide Pack, PadWith, Codes;
    sqz := top;
    ghost var n: nat := 0;
    var ptr := k;
    while ptr < 12
      invariant ptr == k + n && ptr <= 12 && sqz == Pack(PadWith(codes, n))
    {
      PadMore(codes, n);
      assert sqz * 40 < 0x1_0000_0000_0000_0000;
      sqz := sqz * 40;
      n := n + 1;
      ptr := ptr + 1;
    }
  }

  /** squoze */
  method Squoze(s: string) returns (sqz: nat)
    ensures sqz == Pack(Padded(s)) < 0x1_0000_0000_0000_0000
  {
    var top, k := Encode(s);
    sqz := PadOut(top, k, CodesOf(Cut(s, 12)));
    PaddedFits(s);
  }

  lemma {:induction false} PaddedFits(s: string)
    ensures Pack(Padded(s)) < 0x1_0000_0000_0000_0000
  {
    Fits(Padded(s));
  }

  lemma {:induction false} PadNone(d: seq<nat>)
    ensures PadWith(d, 0) == d
  {
  }

  lemma {:induction false} PadMore(d: seq<nat>, n: nat)
    requires Codes(d) && |d| + n < 12
    ensures Pack(PadWith(d, n + 1)) == Pack(PadWith(d, n)) * 40 < 0x1_0000_0000_0000_0000
  {
    assert PadWith(d, n + 1) == PadWith(d, n) + [0];
    PackAppend(PadWith(d, n), 0);
    Fits(PadWith(d, n + 1));
  }

  lemma {:induction false} NoCodes(c: string)
    ensures Pack([]) == 0 && CodesOf(c[..0]) == []
  {
  }

  lemma {:induction false} CodesMore(c: string, i: nat)
    requires i < |c|
    ensures CodesOf(c[..i + 1]) == CodesOf(c[..i]) + [CharEnc(c[i])]
  {
    assert c[..i + 1][..i] == c[..i];
  }

  /** Encodings compare as the padded code strings do. */
  lemma {:induction false} SquozeOrder(s: string, t: string)
    ensures Pack(Padded(s)) < Pack(Padded(t)) <==> Before(Padded(s), Padded(t))
  {
    PackOrder(Padded(s), Padded(t));
  }

  // ----- decoding -----

  /** The twelve digits that decoding sees; a multiple of 40^12 above them is dropped by the first step. */
  function DigitsOf(enc: nat): (d: seq<nat>)
    ensures |d| == 12 && forall i :: 0 <= i < 12 ==> d[i] < 40
  {
    Unpack(enc, 12)
  }

  lemma {:induction false} DigitsPack(enc: nat)
    ensures exists h: nat :: enc == h * P40(12) + Pack(DigitsOf(enc))
    ensures enc < P40(12) ==> Pack(DigitsOf(enc)) == enc
  {
    UnpackHigh(enc, 12);
    if enc < P40(12) {
      PackUnpack(enc, 12);
    }
  }

  lemma {:induction false} UnpackHigh(n: nat, k: nat)
    ensures exists h: nat :: n == h * P40(k) + Pack(Unpack(n, k))
    decreases k
  {
    if k == 0 {
      assert n == n * P40(0) + Pack(Unpack(n, 0));
    } else {
      UnpackHigh(n / 40, k - 1);
      var h: nat :| n / 40 == h * P40(k - 1) + Pack(Unpack(n / 40, k - 1));
      PackAppend(Unpack(n / 40, k - 1), n % 40);
      Shift40(h, P40(k - 1));
      assert n == h * P40(k) + Pack(Unpack(n, k));
    }
  }

  /** The digits up to the last one that is not zero. */
  function Significant(d: seq<nat>): (n: nat)
    ensures n <= |d|
  {
    if d == [] then 0 else if d[|d| - 1] != 0 then |d| else Significant(d[..|d| - 1])
  }

  lemma {:induction false} SignificantZero(d: seq<nat>, i: nat)
    requires i <= |d|
    ensures Pack(d[i..]) == 0 <==> i >= Significant(d)
    decreases |d|
  {
    PackZero(d[i..]);
    if i < |d| {
      var e := d[..|d| - 1];
      assert d[i..][|d| - 1 - i] == d[|d| - 1];
      if d[|d| - 1] == 0 {
        SignificantZero(e, i);
        PackZero(e[i..]);
        assert forall j :: 0 <= j < |e| - i ==> d[i..][j] == e[i..][j];
      }
    }
  }

  /** How many characters decoding gives if it is not cut short. */
  function Needed(enc: nat): nat {
    if enc != 0 && Significant(DigitsOf(enc)) == 0 then 1 else Significant(DigitsOf(enc))
  }

  /** The loop stands at character `i`. */
  ghost predicate Decoding(enc: nat, now: nat, i: nat) {
    && i <= 12
    && (i == 0 ==> now == enc)
    && (i > 0 ==> now == Pack(DigitsOf(enc)[i..]) * P40(i))
  }

  /** One step takes the next digit off; the product stays within 64 bits. */
  lemma {:induction false} DecodeStep(enc: nat, now: nat, i: nat)
    requires Decoding(enc, now, i) && i < 12
    ensures now / P40(11) >= 0 && now / P40(11) % 40 == DigitsOf(enc)[i]
    ensures 0 <= now % P40(11) && now % P40(11) * 40 < P40(12) && Decoding(enc, now % P40(11) * 40, i + 1)
  {
    var h, r := StepFacts(enc, now, i);
    hide *;
    StepValue(h, DigitsOf(enc)[i], r, P40(11 - i), P40(i), P40(11));
    DecodingNext(enc, i, now % P40(11) * 40, r);
  }

  /** The value at step `i`: what the first step drops, the next digit, the rest. */
  lemma {:induction false} StepFacts(enc: nat, now: nat, i: nat) returns (h: nat, r: nat)
    requires Decoding(enc, now, i) && i < 12
    ensures r == Pack(DigitsOf(enc)[i + 1..]) < P40(11 - i) && P40(11) == P40(11 - i) * P40(i) && P40(12) == 40 * P40(11)
    ensures now == h * (40 * P40(11)) + (DigitsOf(enc)[i] * P40(11 - i) + r) * P40(i)
  {
    var d := DigitsOf(enc);
    r := Pack(d[i + 1..]);
    P40Add(11 - i, i);
    PackBound(d[i + 1..]);
    assert P40(12) == 40 * P40(11);
    assert Pack(d[i..]) == d[i] * P40(11 - i) + r by { assert d[i..][1..] == d[i + 1..]; }
    h := 0;
    if i == 0 {
      assert d[0..] == d && P40(0) == 1;
      DigitsPack(enc);
      h :| enc == h * P40(12) + Pack(d);
    }
  }

  lemma {:induction false} DecodingNext(enc: nat, i: nat, next: nat, r: nat)
    requires i < 12 && r == Pack(DigitsOf(enc)[i + 1..]) && next == r * (40 * P40(i))
    ensures Decoding(enc, next, i + 1)
  {
  }

  lemma {:induction false} StepValue(h: nat, x: nat, r: nat, a: nat, b: nat, p: nat)
    requires x < 40 && r < a && b >= 1 && p == a * b
    ensures var now := h * (40 * p) + (x * a + r) * b;
            p >= 1 && now / p == 40 * h + x && now / p % 40 == x && now % p < p && now % p * 40 == r * (40 * b)
  {
    var now := h * (40 * p) + (x * a + r) * b;
    assert r * b < p by { Powers.Below(r, a, b); }
    assert now == (40 * h + x) * p + r * b by {
      Shift40(h, p);
      Powers.Assoc(x, a, b);
      assert (x * a + r) * b == x * a * b + r * b;
      assert (40 * h + x) * p == 40 * h * p + x * p;
    }
    QuotRem(40 * h + x, r * b, p);
    Shift40(r, b);
  }

  /** The loop goes on while there are digits left. */
  lemma {:induction false} DecodeGoesOn(enc: nat, now: nat, i: nat)
    requires Decoding(enc, now, i)
    ensures now != 0 <==> i < Needed(enc)
    ensures Needed(enc) <= 12
  {
    var d := DigitsOf(enc);
    SignificantZero(d, i);
    if i == 0 {
      assert d[0..] == d;
      if enc == 0 {
        Twelve();
        DigitsPack(0);
      }
    } else {
      ProductZero(Pack(d[i..]), P40(i));
    }
  }

  lemma {:induction false} ProductZero(a: nat, p: nat)
    requires p >= 1
    ensures a * p == 0 <==> a == 0
  {
    if a >= 1 {
      Powers.LeMul(1, a, p);
    }
  }

  /** The characters of an encoding. */
  function Text(enc: nat, n: nat): (t: string)
    requires n <= 12
    ensures |t| == n && forall i :: 0 <= i < n ==> t[i] == CharDec(DigitsOf(enc)[i])
  {
    if n == 0 then [] else Text(enc, n - 1) + [CharDec(DigitsOf(enc)[n - 1])]
  }

  const SIZE_MAX := 0xffff_ffff_ffff_ffff

  /**
    The loop of unsquozelen, for any 64-bit value: it gives the characters of the encoding, as many as
    `len` allows, and takes at most twelve steps.  `left` is the length that memset then gets: what remains
    of `len`, or the largest size when the test `len-- > 0` is the one that failed.
   */
  method Decode(enc: nat, str: array<char>, len: nat) returns (n: nat, left: nat)
    requires len <= str.Length
    modifies str
    ensures Needed(enc) <= 12
    ensures n == (if Needed(enc) <= len then Needed(enc) else len) && str[..n] == Text(enc, n)
    ensures left == if Needed(enc) <= len then len - n else SIZE_MAX
    ensures str[n..] == old(str[n..])
  {
    var now: nat := enc;
    n, left := 0, len;
    Twelve();
    DecodeGoesOn(enc, now, 0);
    while now != 0
      invariant n + left == len && Decoding(enc, now, n) && str[..n] == Text(enc, n) && n <= Needed(enc) <= 12
      invariant str[n..] == old(str[n..])
      decreases 12 - n
    {
      DecodeGoesOn(enc, now, n);
      if left == 0 {
        left := SIZE_MAX;
        return;
      }
      left := left - 1;
      DecodeStep(enc, now, n);
      ghost var done := str[..n];
      str[n] := CharDec(now / P40(11) % 40);
      assert str[..n + 1] == done + [CharDec(DigitsOf(enc)[n])];
      assert now % P40(11) * 40 < 0x1_0000_0000_0000_0000;
      now := now % P40(11) * 40;
      n := n + 1;
    }
    DecodeGoesOn(enc, now, n);
  }

  /** memset stays inside the `len` characters exactly when they are enough for the encoding. */
  lemma {:induction false} ClearInside(enc: nat, len: nat)
    requires len < SIZE_MAX
    ensures Needed(enc) <= len <==> enc == 0 || (len >= 1 && (len >= 12 || enc % P40(12 - len) == 0))
  {
    DecodeGoesOn(enc, enc, 0);
    if 1 <= len < 12 {
      TailRemainder(enc, len);
      SignificantZero(DigitsOf(enc), len);
    }
  }

  /** The remainder by a power of forty is the number of the last digits. */
  lemma {:induction false} TailRemainder(enc: nat, len: nat)
    requires 1 <= len < 12
    ensures enc % P40(12 - len) == Pack(DigitsOf(enc)[len..])
  {
    hide P40, Pack, DigitsOf;
    var d := DigitsOf(enc);
    DigitsPack(enc);
    var h: nat :| enc == h * P40(12) + Pack(d);
    TailOf(d, h, len);
  }

  lemma {:induction false} TailOf(d: seq<nat>, h: nat, len: nat)
    requires Codes(d) && |d| == 12 && 1 <= len < 12
    ensures (h * P40(12) + Pack(d)) % P40(12 - len) == Pack(d[len..])
  {
    hide P40, Pack;
    assert d == d[..len] + d[len..];
    PackSplit(d[..len], d[len..]);
    PackBound(d[len..]);
    P40Add(len, 12 - len);
    LowPart(h, P40(len), P40(12 - len), Pack(d[..len]), Pack(d[len..]));
  }

  lemma {:induction false} LowPart(h: nat, q: nat, p: nat, a: nat, b: nat)
    requires b < p
    ensures (h * (q * p) + (a * p + b)) % p == b
  {
    Powers.Assoc(h, q, p);
    assert (h * q + a) * p == h * q * p + a * p;
    QuotRem(h * q + a, b, p);
  }

  /** Twelve characters in a buffer of eleven: memset is asked to clear the largest size. */
  lemma {:induction false} TooShort()
    ensures Needed(1) > 11
  {
    ClearInside(1, 11);
    assert P40(1) == 40 * P40(0) == 40;
  }

  // ----- the round trip -----

  /** The string without its trailing spaces. */
  function DropSpaces(s: string): string {
    if s != [] && s[|s| - 1] == ' ' then DropSpaces(s[..|s| - 1]) else s
  }

  function Normed(s: string): (r: string)
    ensures |r| == |s| && forall i :: 0 <= i < |s| ==> r[i] == Norm(s[i])
  {
    if s == [] then [] else Normed(s[..|s| - 1]) + [Norm(s[|s| - 1])]
  }

  /** Decoding an encoded string gives its first twelve characters, normed, without trailing spaces. */
  lemma {:induction false} RoundTrip(s: string)
    ensures var enc := Pack(Padded(s));
            Needed(enc) <= 12 && Text(enc, Needed(enc)) == DropSpaces(Normed(Cut(s, 12)))
  {
    var enc, d, c := Pack(Padded(s)), Padded(s), Cut(s, 12);
    UnpackPack(d);
    NeededOf(d);
    SignificantPadded(CodesOf(c), 12 - |c|);
    DropsTo(c);
    forall i | 0 <= i < |c|
      ensures DigitsOf(enc)[i] == CharEnc(c[i])
    {
    }
    hide *;
    TextIs(enc, c, Significant(CodesOf(c)));
  }

  lemma {:induction false} NeededOf(d: seq<nat>)
    requires |d| == 12 && Codes(d)
    ensures Needed(Pack(d)) == Significant(d) <= 12
  {
    UnpackPack(d);
    assert d[0..] == d;
    SignificantZero(d, 0);
  }

  lemma {:induction false} TextIs(enc: nat, c: string, n: nat)
    requires n <= |c| <= 12 && forall i :: 0 <= i < |c| ==> DigitsOf(enc)[i] == CharEnc(c[i])
    ensures Text(enc, n) == Normed(c)[..n]
  {
    hide Text, Normed, CharEnc, CharDec, Norm, DigitsOf;
    forall i | 0 <= i < n
      ensures Text(enc, n)[i] == Normed(c)[i]
    {
      DecEnc(c[i]);
    }
  }

  lemma {:induction false} SignificantPadded(d: seq<nat>, n: nat)
    ensures Significant(PadWith(d, n)) == Significant(d)
    decreases n
  {
    if n == 0 {
      PadNone(d);
    } else {
      var e := PadWith(d, n);
      assert e[..|e| - 1] == PadWith(d, n - 1);
      SignificantPadded(d, n - 1);
    }
  }

  lemma {:induction false} DropsTo(c: string)
    ensures DropSpaces(Normed(c)) == Normed(c)[..Significant(CodesOf(c))]
    decreases |c|
  {
    if c != [] {
      var k := |c| - 1;
      DecEnc(c[k]);
      assert Norm(c[k]) == ' ' <==> c[k] == ' ';
      assert Normed(c)[..k] == Normed(c[..k]);
      assert CodesOf(c)[..k] == CodesOf(c[..k]);
      if c[k] == ' ' {
        DropsTo(c[..k]);
      }
    }
  }

  /** unsquoze: a buffer of thirteen always suffices, and the text ends with a NUL. */
  method Unsquoze(enc: nat) returns (str: array<char>, n: nat)
    ensures fresh(str) && str.Length == 13 && n == Needed(enc) <= 12
    ensures str[..n] == Text(enc, n) && forall i :: n <= i < 13 ==> str[i] == '\0'
  {
    str := new char[13];
    var left;
    n, left := Decode(enc, str, 13);
    ghost var t := str[..n];
    forall i | n <= i < n + left {
      str[i] := '\0';
    }
    assert str[..n] == t;
    str[12] := '\0';
    assert str[..n] == t;
  }
}
