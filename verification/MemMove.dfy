/** memmove of libec/bcopy.c: bytes, then whole words where the alignment allows it, then bytes. */
module MemMove {

  type Byte = x: nat | x < 256

  /** The memory after `n` bytes from `src` have been put at `dst`. */
  function Moved(m: seq<Byte>, dst: nat, src: nat, n: nat): (r: seq<Byte>)
    requires dst + n <= |m| && src + n <= |m|
    ensures |r| == |m|
  {
    m[..dst] + m[src..src + n] + m[dst + n..]
  }

  /** Byte by byte: the destination has the old source bytes, all other bytes are as before. */
  lemma {:induction false} MovedAt(m: seq<Byte>, dst: nat, src: nat, n: nat, i: nat)
    requires dst + n <= |m| && src + n <= |m| && i < |m|
    ensures Moved(m, dst, src, n)[i] == if dst <= i < dst + n then m[src + (i - dst)] else m[i]
  {
  }

  ghost predicate IsMoved(now: seq<Byte>, m: seq<Byte>, dst: nat, src: nat, n: nat) {
    dst + n <= |m| && src + n <= |m| && now == Moved(m, dst, src, n)
  }

  /** Going up to lower addresses, the next bytes of the source are still the old ones. */
  lemma {:induction false} MovedUp(m: seq<Byte>, dst: nat, src: nat, k: nat, unit: nat)
    requires dst < src && src + k + unit <= |m|
    ensures Moved(Moved(m, dst, src, k), dst + k, src + k, unit) == Moved(m, dst, src, k + unit)
  {
    var now := Moved(m, dst, src, k);
    var a, b := Moved(now, dst + k, src + k, unit), Moved(m, dst, src, k + unit);
    forall i: nat | i < |m|
      ensures a[i] == b[i]
    {
      MovedAt(now, dst + k, src + k, unit, i);
      MovedAt(m, dst, src, k + unit, i);
      MovedAt(m, dst, src, k, i);
      if dst + k <= i < dst + k + unit {
        MovedAt(m, dst, src, k, src + (i - dst));
      }
    }
  }

  /** Going down to higher addresses, too. */
  lemma {:induction false} MovedDown(m: seq<Byte>, dst: nat, src: nat, n: nat, unit: nat)
    requires src <= dst && unit <= src && dst + n <= |m|
    ensures Moved(Moved(m, dst, src, n), dst - unit, src - unit, unit) == Moved(m, dst - unit, src - unit, n + unit)
  {
    var now := Moved(m, dst, src, n);
    var a, b := Moved(now, dst - unit, src - unit, unit), Moved(m, dst - unit, src - unit, n + unit);
    forall i: nat | i < |m|
      ensures a[i] == b[i]
    {
      MovedAt(now, dst - unit, src - unit, unit, i);
      MovedAt(m, dst - unit, src - unit, n + unit, i);
      MovedAt(m, dst, src, n, i);
      if dst - unit <= i < dst {
        MovedAt(m, dst, src, n, src - unit + (i - (dst - unit)));
      }
    }
  }

  /** a & wmask */
  function Low(a: nat, w: nat): nat {
    if w == 8 then a % 8 else a % 4
  }

  /** n / wsize */
  function Words(n: nat, w: nat): nat {
    if w == 8 then n / 8 else n / 4
  }

  /** A single byte, or an aligned word. */
  predicate Access(a: nat, unit: nat) {
    unit == 1 || ((unit == 4 || unit == 8) && Low(a, unit) == 0)
  }

  /** One access moves a byte or a word: it is read as a whole before it is written. */
  method Transfer(mem: array<Byte>, dst: nat, src: nat, unit: nat)
    requires dst + unit <= mem.Length && src + unit <= mem.Length && Access(dst, unit) && Access(src, unit)
    modifies mem
    ensures IsMoved(mem[..], old(mem[..]), dst, src, unit)
  {
    ghost var m := mem[..];
    forall i | dst <= i < dst + unit {
      mem[i] := mem[src + (i - dst)];
    }
    forall i: nat | i < |m|
      ensures mem[..][i] == Moved(m, dst, src, unit)[i]
    {
      MovedAt(m, dst, src, unit, i);
    }
  }

  /** `left` accesses of `unit` bytes remain of `bytes` bytes, at addresses they may use. */
  ghost predicate Remain(left: nat, unit: nat, bytes: nat, a: nat, b: nat) {
    bytes == left * unit && (left > 0 ==> Access(a, unit) && Access(b, unit))
  }

  /** Of `hi` bytes, those from `lo` on have been moved. */
  ghost predicate DoneFrom(now: seq<Byte>, m: seq<Byte>, dst: nat, src: nat, lo: nat, hi: nat) {
    lo <= hi && IsMoved(now, m, dst + lo, src + lo, hi - lo)
  }

  lemma {:induction false} AccessUp(a: nat, b: nat, unit: nat, left: nat, bytes: nat)
    requires left > 0 && Remain(left, unit, bytes, a, b)
    ensures unit <= bytes && Access(a, unit) && Access(b, unit)
    ensures Remain(left - 1, unit, bytes - unit, a + unit, b + unit)
  {
    OneLess(left, unit);
    NextAccess(a, unit);
    NextAccess(b, unit);
  }

  /** `left` accesses of `unit` bytes lead from `low` down to `base`. */
  ghost predicate RemainDown(left: nat, unit: nat, base: nat, low: nat, dst: nat, src: nat) {
    base <= low && Remain(left, unit, low - base, dst + low, src + low)
  }

  lemma {:induction false} AccessDown(dst: nat, src: nat, base: nat, low: nat, unit: nat, left: nat)
    requires left > 0 && RemainDown(left, unit, base, low, dst, src)
    ensures base + unit <= low
    ensures var next := low - unit;
            Access(dst + next, unit) && Access(src + next, unit) && RemainDown(left - 1, unit, base, next, dst, src)
  {
    OneLess(left, unit);
    LastAccess(dst + low, unit);
    LastAccess(src + low, unit);
  }

  lemma {:induction false} StepUp(next: seq<Byte>, now: seq<Byte>, m: seq<Byte>, dst: nat, src: nat, k: nat, unit: nat)
    requires dst < src && IsMoved(now, m, dst, src, k) && IsMoved(next, now, dst + k, src + k, unit)
    ensures IsMoved(next, m, dst, src, k + unit)
  {
    MovedUp(m, dst, src, k, unit);
  }

  lemma {:induction false} StepDown(after: seq<Byte>, now: seq<Byte>, m: seq<Byte>, dst: nat, src: nat, next: nat, low: nat, hi: nat, unit: nat)
    requires src <= dst && next + unit == low && DoneFrom(now, m, dst, src, low, hi)
    requires IsMoved(after, now, dst + next, src + next, unit)
    ensures DoneFrom(after, m, dst, src, next, hi)
  {
    MovedDown(m, dst + low, src + low, hi - low, unit);
  }

  /** TLOOP upwards: `t` transfers of `unit` bytes, `k` bytes being done. */
  method LoopUp(mem: array<Byte>, ghost m: seq<Byte>, dst: nat, src: nat, k: nat, unit: nat, t: nat, ghost bytes: nat)
    returns (done: nat)
    requires dst < src && src + k + bytes <= |m| == mem.Length
    requires Remain(t, unit, bytes, dst + k, src + k) && IsMoved(mem[..], m, dst, src, k)
    modifies mem
    ensures done == k + bytes && IsMoved(mem[..], m, dst, src, done)
  {
    hide IsMoved, Access, Remain;
    done := k;
    var left := t;
    while left > 0
      invariant k <= done <= k + bytes && IsMoved(mem[..], m, dst, src, done)
      invariant Remain(left, unit, k + bytes - done, dst + done, src + done)
    {
      ghost var now := mem[..];
      Placed(now, m, dst, src, done);
      AccessUp(dst + done, src + done, unit, left, k + bytes - done);
      Transfer(mem, dst + done, src + done, unit);
      StepUp(mem[..], now, m, dst, src, done, unit);
      done := done + unit;
      left := left - 1;
    }
    assert k + bytes - done == 0 by { AllUsed(unit, k + bytes - done, dst + done, src + done); }
  }

  /** TLOOP downwards: of `hi` bytes, those from `lo` on are done. */
  method LoopDown(mem: array<Byte>, ghost m: seq<Byte>, dst: nat, src: nat, lo: nat, ghost hi: nat, unit: nat, t: nat,
      ghost bytes: nat) returns (low: nat)
    requires src <= dst && bytes <= lo && dst + hi <= |m| == mem.Length
    requires Remain(t, unit, bytes, dst + lo, src + lo) && DoneFrom(mem[..], m, dst, src, lo, hi)
    modifies mem
    ensures low == lo - bytes && DoneFrom(mem[..], m, dst, src, low, hi)
  {
    hide Moved;
    ghost var base := lo - bytes;
    assert RemainDown(t, unit, base, lo, dst, src);
    DoneBounds(mem[..], m, dst, src, lo, hi);
    hide IsMoved, DoneFrom, Access, Remain, RemainDown;
    low := lo;
    var left := t;
    while left > 0
      invariant base <= low <= lo && DoneFrom(mem[..], m, dst, src, low, hi)
      invariant RemainDown(left, unit, base, low, dst, src)
    {
      ghost var now := mem[..];
      AccessDown(dst, src, base, low, unit, left);
      var next := low - unit;
      Transfer(mem, dst + next, src + next, unit);
      StepDown(mem[..], now, m, dst, src, next, low, hi, unit);
      low := next;
      left := left - 1;
    }
    NoneLeft(unit, base, low, dst, src);
  }

  lemma {:induction false} DoneBounds(now: seq<Byte>, m: seq<Byte>, dst: nat, src: nat, lo: nat, hi: nat)
    requires DoneFrom(now, m, dst, src, lo, hi)
    ensures lo <= hi && dst + hi <= |m| == |now|
  {
  }

  lemma {:induction false} Placed(now: seq<Byte>, m: seq<Byte>, dst: nat, src: nat, n: nat)
    requires IsMoved(now, m, dst, src, n)
    ensures |now| == |m| && dst + n <= |m|
  {
  }

  lemma {:induction false} AllUsed(unit: nat, bytes: nat, a: nat, b: nat)
    requires Remain(0, unit, bytes, a, b)
    ensures bytes == 0
  {
  }

  lemma {:induction false} NoneLeft(unit: nat, base: nat, low: nat, dst: nat, src: nat)
    requires RemainDown(0, unit, base, low, dst, src)
    ensures low == base
  {
  }

  lemma {:induction false} OneLess(left: nat, unit: nat)
    requires left > 0
    ensures left * unit == (left - 1) * unit + unit && (left - 1) * unit >= 0
  {
  }

  lemma {:induction false} NextAccess(a: nat, unit: nat)
    requires Access(a, unit)
    ensures Access(a + unit, unit)
  {
  }

  lemma {:induction false} LastAccess(a: nat, unit: nat)
    requires Access(a, unit) && unit <= a
    ensures Access(a - unit, unit)
  {
  }

  lemma {:induction false} Split(n: nat, w: nat)
    requires w == 4 || w == 8
    ensures n == Words(n, w) * w + Low(n, w)
  {
  }

  lemma {:induction false} LowCleared(x: nat, w: nat)
    requires w == 4 || w == 8
    ensures Low(x, w) <= x && Low(x - Low(x, w), w) == 0
  {
  }

  /** Bytes can be accessed anywhere. */
  lemma {:induction false} SingleBytes(t: nat, a: nat, b: nat)
    ensures Remain(t, 1, t, a, b)
  {
  }

  lemma {:induction false} NothingMoved(m: seq<Byte>, dst: nat, src: nat)
    requires dst <= |m| && src <= |m|
    ensures IsMoved(m, m, dst, src, 0)
  {
    assert Moved(m, dst, src, 0) == m;
  }

  /** How many bytes and words to move, going up. */
  method PlanUp(dst: nat, src: nat, length: nat, w: nat) returns (t: nat, words: nat, ghost bytes: nat, tail: nat)
    requires w == 4 || w == 8
    ensures t + bytes + tail == length && Remain(words, w, bytes, dst + t, src + t)
  {
    t := 0;
    if Low(src, w) != 0 || Low(dst, w) != 0 {
      t := if Low(src, w) != Low(dst, w) || length < w then length else w - Low(src, w);
    }
    words, tail := Words(length - t, w), Low(length - t, w);
    bytes := words * w;
    Split(length - t, w);
  }

  /** The same going down; the first bytes end at the end of the operands. */
  method PlanDown(dst: nat, src: nat, length: nat, w: nat) returns (t: nat, words: nat, ghost bytes: nat, tail: nat)
    requires w == 4 || w == 8
    ensures t + bytes + tail == length && Remain(words, w, bytes, dst + (bytes + tail), src + (bytes + tail))
  {
    t := 0;
    if Low(src + length, w) != 0 || Low(dst + length, w) != 0 {
      t := if Low(src + length, w) != Low(dst + length, w) || length <= w then length else Low(src + length, w);
    }
    words, tail := Words(length - t, w), Low(length - t, w);
    bytes := words * w;
    Split(length - t, w);
    LowCleared(src + length, w);
    LowCleared(dst + length, w);
  }

  /** The part of memmove for a destination below the source. */
  method MoveUp(mem: array<Byte>, dst: nat, src: nat, length: nat, w: nat)
    requires (w == 4 || w == 8) && dst < src && src + length <= mem.Length
    modifies mem
    ensures IsMoved(mem[..], old(mem[..]), dst, src, length)
  {
    ghost var m := mem[..];
    hide IsMoved, Access, Remain;
    var t, words, bytes, tail := PlanUp(dst, src, length, w);
    NothingMoved(m, dst, src);
    SingleBytes(t, dst + 0, src + 0);
    var k := LoopUp(mem, m, dst, src, 0, 1, t, t);
    assert k == t;
    k := LoopUp(mem, m, dst, src, t, w, words, bytes);
    SingleBytes(tail, dst + k, src + k);
    k := LoopUp(mem, m, dst, src, k, 1, tail, tail);
    assert k == length;
  }

  lemma {:induction false} NothingDone(m: seq<Byte>, dst: nat, src: nat, hi: nat)
    requires dst + hi <= |m| && src + hi <= |m|
    ensures DoneFrom(m, m, dst, src, hi, hi)
  {
    NothingMoved(m, dst + hi, src + hi);
  }

  lemma {:induction false} AllDone(now: seq<Byte>, m: seq<Byte>, dst: nat, src: nat, hi: nat)
    requires DoneFrom(now, m, dst, src, 0, hi)
    ensures IsMoved(now, m, dst, src, hi)
  {
  }

  /** The part of memmove for a destination above the source. */
  method MoveDown(mem: array<Byte>, dst: nat, src: nat, length: nat, w: nat)
    requires (w == 4 || w == 8) && src <= dst && dst + length <= mem.Length
    modifies mem
    ensures IsMoved(mem[..], old(mem[..]), dst, src, length)
  {
    ghost var m := mem[..];
    hide IsMoved, DoneFrom, Access, Remain;
    var t, words, bytes, tail := PlanDown(dst, src, length, w);
    NothingDone(m, dst, src, length);
    SingleBytes(t, dst + length, src + length);
    var k := LoopDown(mem, m, dst, src, length, length, 1, t, t);
    assert k == bytes + tail;
    k := LoopDown(mem, m, dst, src, k, length, w, words, bytes);
    assert k == tail;
    SingleBytes(tail, dst + k, src + k);
    k := LoopDown(mem, m, dst, src, k, length, 1, tail, tail);
    AllDone(mem[..], m, dst, src, length);
  }

  /**
    memmove with words of `w` bytes: for every length, alignment and overlap the destination gets
    the old bytes of the source and nothing else changes; words are only accessed where they are aligned.
   */
  method Memmove(mem: array<Byte>, dst: nat, src: nat, length: nat, w: nat)
    requires (w == 4 || w == 8) && dst + length <= mem.Length && src + length <= mem.Length
    modifies mem
    ensures mem[..] == Moved(old(mem[..]), dst, src, length)
  {
    if length == 0 || dst == src {
      assert Moved(mem[..], dst, src, length) == mem[..];
      return;
    }
    if dst < src {
      MoveUp(mem, dst, src, length, w);
    } else {
      MoveDown(mem, dst, src, length, w);
    }
  }
}
