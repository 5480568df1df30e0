// 32-bit sequence numbers that start at an arbitrary zero point and wrap around
// (src/wrapping_integers.cc, section 3.4 of RFC 9293).
module WrappingIntegers {
  import opened Words

  function Wrap(n: nat, zeroPoint: U32): U32
  {
    ToU32(zeroPoint + ToU32(n))
  }

  function AbsoluteDelta(a: U64, b: U64): U64
  {
    if a < b then b - a else a - b
  }

  // Every intermediate value is truncated to the width the program gives it.
  function Unwrap(raw: U32, zeroPoint: U32, checkpoint: U64): U64
  {
    var offset: U64 := if raw < zeroPoint then TWO32 - (zeroPoint - raw) else raw - zeroPoint;
    if offset >= checkpoint then
      var mod := ToU32(offset - checkpoint);
      var tmp: U64 := checkpoint + mod;
      var lastTmp := ToU64(tmp - TWO32);
      if AbsoluteDelta(checkpoint, lastTmp) < AbsoluteDelta(checkpoint, tmp) then lastTmp else tmp
    else
      var mod := ToU32(checkpoint - offset);
      var tmp: U64 := checkpoint - mod;
      var lastTmp := ToU64(tmp + TWO32);
      if AbsoluteDelta(checkpoint, lastTmp) < AbsoluteDelta(checkpoint, tmp) then lastTmp else tmp
  }

  // v is one of the absolute sequence numbers that wrap to raw.
  predicate Represents(v: int, raw: U32, zeroPoint: U32)
  {
    (v - raw + zeroPoint) % TWO32 == 0
  }

  // Two multiples of 2^32 that are less than 2^32 apart are equal.
  lemma MultiplesApart(a: int, b: int)
    requires a % TWO32 == 0 && b % TWO32 == 0
    requires a != b
    ensures a - b >= TWO32 || b - a >= TWO32
  {
    assert a == TWO32 * (a / TWO32) && b == TWO32 * (b / TWO32);
  }

  lemma WrapRepresents(n: nat, zeroPoint: U32)
    ensures Represents(n, Wrap(n, zeroPoint), zeroPoint)
  {
  }

  lemma UnwrapRepresents(raw: U32, zeroPoint: U32, checkpoint: U64)
    ensures Represents(Unwrap(raw, zeroPoint, checkpoint), raw, zeroPoint)
  {
    var d := if raw < zeroPoint then 1 else 0;
    var offset := raw - zeroPoint + TWO32 * d;
    var gap := if offset >= checkpoint then offset - checkpoint else checkpoint - offset;
    var q := gap / TWO32;
    assert ToU32(gap) == gap - TWO32 * q;
    var tmp := if offset >= checkpoint then checkpoint + ToU32(gap) else checkpoint - ToU32(gap);
    var turns := if offset >= checkpoint then d - q else d + q;
    assert tmp - raw + zeroPoint == TWO32 * turns;
    Multiple(turns);
    WrapAround(tmp - TWO32);
    WrapAround(tmp + TWO32);
    Multiple(turns - 1);
    Multiple(turns + 1);
    Multiple(turns - 1 + TWO32);
    Multiple(turns + 1 - TWO32);
  }

  lemma Multiple(k: int)
    ensures (TWO32 * k) % TWO32 == 0
  {
  }

  lemma WrapAround(x: int)
    requires -TWO32 <= x < TWO64 + TWO32
    ensures ToU64(x) == if x < 0 then x + TWO64 else if x < TWO64 then x else x - TWO64
  {
  }

  // Unwrap stays within 2^31 of the checkpoint, unless the nearer candidate would
  // be negative or too large for 64 bits.
  predicate InReach(r: int, checkpoint: U64)
  {
    || checkpoint - TWO31 <= r < checkpoint + TWO31
    || checkpoint <= r < TWO32
    || TWO64 - TWO32 <= r <= checkpoint
  }

  lemma UnwrapInReach(raw: U32, zeroPoint: U32, checkpoint: U64)
    ensures InReach(Unwrap(raw, zeroPoint, checkpoint), checkpoint)
  {
  }

  // Of all 64-bit numbers that wrap to raw, Unwrap returns the one nearest to the
  // checkpoint, and the lower one when two are equally near; this includes the
  // checkpoints next to 0 and next to 2^64, where the other candidate wraps.
  lemma UnwrapIsNearest(raw: U32, zeroPoint: U32, checkpoint: U64, v: U64)
    requires Represents(v, raw, zeroPoint)
    ensures var r := Unwrap(raw, zeroPoint, checkpoint);
            && Represents(r, raw, zeroPoint)
            && AbsoluteDelta(checkpoint, r) <= AbsoluteDelta(checkpoint, v)
            && (AbsoluteDelta(checkpoint, r) == AbsoluteDelta(checkpoint, v) ==> r <= v)
  {
    var r := Unwrap(raw, zeroPoint, checkpoint);
    UnwrapRepresents(raw, zeroPoint, checkpoint);
    UnwrapInReach(raw, zeroPoint, checkpoint);
    if v != r {
      MultiplesApart(v - raw + zeroPoint, r - raw + zeroPoint);
    }
  }

  // Exactly when the round trip recovers n: n lies in the half-open interval of
  // width 2^32 around the checkpoint, or its only rival is not a 64-bit number.
  lemma UnwrapWrap(n: U64, zeroPoint: U32, checkpoint: U64)
    ensures Unwrap(Wrap(n, zeroPoint), zeroPoint, checkpoint) == n <==> InReach(n, checkpoint)
  {
    var raw := Wrap(n, zeroPoint);
    var r := Unwrap(raw, zeroPoint, checkpoint);
    WrapRepresents(n, zeroPoint);
    UnwrapRepresents(raw, zeroPoint, checkpoint);
    UnwrapInReach(raw, zeroPoint, checkpoint);
    if r != n {
      MultiplesApart(n - raw + zeroPoint, r - raw + zeroPoint);
    }
  }

  // Distinct absolute numbers less than 2^32 apart never share a 32-bit number.
  lemma WrapInjective(a: nat, b: nat, zeroPoint: U32)
    requires Wrap(a, zeroPoint) == Wrap(b, zeroPoint)
    requires -TWO32 < a - b < TWO32
    ensures a == b
  {
    WrapRepresents(a, zeroPoint);
    WrapRepresents(b, zeroPoint);
    var raw := Wrap(a, zeroPoint);
    if a != b {
      MultiplesApart(a - raw + zeroPoint, b - raw + zeroPoint);
    }
  }

  // How an old number is read: as it was meant while it is in reach, and 2^32 later beyond that.
  lemma UnwrapOld(n: U64, zeroPoint: U32, checkpoint: U64)
    requires checkpoint - TWO32 - TWO31 <= n <= checkpoint
    ensures Unwrap(Wrap(n, zeroPoint), zeroPoint, checkpoint) == if InReach(n, checkpoint) then n else n + TWO32
  {
    hide Unwrap, Wrap;
    if InReach(n, checkpoint) {
      UnwrapWrap(n, zeroPoint, checkpoint);
    } else {
      WrapAgain(n, zeroPoint);
      UnwrapWrap(n + TWO32, zeroPoint, checkpoint);
    }
  }

  lemma WrapAgain(n: nat, zeroPoint: U32)
    ensures Wrap(n + TWO32, zeroPoint) == Wrap(n, zeroPoint)
  {
  }
}
