/**
 * The arithmetic of the integral PrintIp loop: `value & 0xFF` takes the
 * low byte, `value >>= 8` shifts it out, and the loop stops when nothing is
 * left. On a non-negative value the units it emits are the value's base-256
 * digits, least significant first.
 */
module Bytes {

  /** 256 to the power n: the number of distinct values n bytes can hold. */
  function Pow256(n: nat): (p: nat)
    ensures p >= 1
  {
    if n == 0 then 1 else 256 * Pow256(n - 1)
  }

  lemma {:induction false} Pow256Monotone(a: nat, b: nat)
    requires a <= b
    ensures Pow256(a) <= Pow256(b)
    decreases b
  {
    if a < b {
      Pow256Monotone(a, b - 1);
    }
  }

  /** `value & 0xFF` on a two's-complement integer: its low eight bits read unsigned. */
  function LowByte(v: int): (b: nat)
    ensures b < 256
  {
    v % 256
  }

  /**
   * `value >>= 8`: an arithmetic shift, which rounds toward minus infinity
   * (what mainstream compilers do for a negative value, and what C++20
   * requires).
   */
  function Shr8(v: int): (w: int)
    ensures v == 256 * w + LowByte(v)
  {
    v / 256
  }

  /** The units the loop emits for a non-negative value: low byte, then the rest, until the shift leaves 0. */
  function ByteDigits(v: nat): (d: seq<nat>)
    ensures |d| >= 1
    ensures forall i :: 0 <= i < |d| ==> d[i] < 256
    decreases v
  {
    var rest := Shr8(v);
    if rest == 0 then [LowByte(v)] else [LowByte(v)] + ByteDigits(rest)
  }

  /** The number whose base-256 digits, least significant first, are d. */
  function FromDigits(d: seq<nat>): nat {
    if d == [] then 0 else d[0] + 256 * FromDigits(d[1..])
  }

  /** Digit sequences ByteDigits can produce: bytes, at least one, no high zero except a lone 0. */
  predicate Canonical(d: seq<nat>) {
    && |d| >= 1
    && (forall i :: 0 <= i < |d| ==> d[i] < 256)
    && (|d| > 1 ==> d[|d| - 1] != 0)
  }

  /** The units give the value back: their weighted sum is the value. */
  lemma {:induction false} DigitsRoundTrip(v: nat)
    ensures FromDigits(ByteDigits(v)) == v
    decreases v
  {
    var d := ByteDigits(v);
    if Shr8(v) != 0 {
      DigitsRoundTrip(Shr8(v));
      assert d[1..] == ByteDigits(Shr8(v));
    } else {
      assert d[1..] == [];
    }
  }

  /** The units are canonical, and the value is 0 exactly when they are the single unit 0. */
  lemma {:induction false} DigitsCanonical(v: nat)
    ensures Canonical(ByteDigits(v))
    ensures v == 0 <==> ByteDigits(v) == [0]
    ensures v > 0 ==> ByteDigits(v)[|ByteDigits(v)| - 1] != 0
    decreases v
  {
    var d := ByteDigits(v);
    if Shr8(v) != 0 {
      DigitsCanonical(Shr8(v));
      assert d[|d| - 1] == ByteDigits(Shr8(v))[|ByteDigits(Shr8(v))| - 1];
    }
  }

  /** Shifting out the low byte of lo + 256 * hi leaves hi, and the low byte is lo. */
  lemma ShiftDigit(lo: nat, hi: nat)
    requires lo < 256
    ensures Shr8(lo + 256 * hi) == hi && LowByte(lo + 256 * hi) == lo
  {
  }

  /** Digits whose last one is non-zero denote a positive number. */
  lemma {:induction false} FromDigitsPositive(d: seq<nat>)
    requires |d| >= 1 && d[|d| - 1] != 0
    ensures FromDigits(d) > 0
    decreases |d|
  {
    if |d| > 1 {
      assert d[1..][|d| - 2] == d[|d| - 1];
      FromDigitsPositive(d[1..]);
    }
  }

  /** Canonical digits are the units of the number they denote: the digit representation is unique. */
  lemma {:induction false} DigitsOfNumber(d: seq<nat>)
    requires Canonical(d)
    ensures ByteDigits(FromDigits(d)) == d
    decreases |d|
  {
    var tail := d[1..];
    var rest := FromDigits(tail);
    var v := FromDigits(d);
    assert v == d[0] + 256 * rest;
    ShiftDigit(d[0], rest);
    if |d| == 1 {
      assert tail == [];
      assert ByteDigits(v) == [d[0]];
    } else {
      assert tail[|tail| - 1] == d[|d| - 1];
      FromDigitsPositive(tail);
      assert Canonical(tail);
      DigitsOfNumber(tail);
      assert ByteDigits(v) == [d[0]] + ByteDigits(rest);
      assert d == [d[0]] + tail;
    }
  }

  /** The loop emits n units for the smallest n >= 1 with value < 256^n. */
  lemma {:induction false} UnitCountMinimal(v: nat)
    ensures v < Pow256(|ByteDigits(v)|)
    ensures |ByteDigits(v)| == 1 || Pow256(|ByteDigits(v)| - 1) <= v
    decreases v
  {
    var rest := Shr8(v);
    if rest != 0 {
      UnitCountMinimal(rest);
      var m := |ByteDigits(rest)|;
      assert |ByteDigits(v)| == m + 1;
      assert Pow256(m + 1) == 256 * Pow256(m);
      if m > 1 {
        assert Pow256(m) == 256 * Pow256(m - 1);
      }
    }
  }

  /** The value after k passes of `value >>= 8`. */
  function ShiftedTimes(v: int, k: nat): int
    decreases k
  {
    if k == 0 then v else ShiftedTimes(Shr8(v), k - 1)
  }

  /**
   * On a negative value the shift is arithmetic and never reaches 0, so the
   * loop's exit test `value == 0` never holds and the loop does not end.
   */
  lemma {:induction false} NegativeNeverReachesZero(v: int, k: nat)
    requires v < 0
    ensures ShiftedTimes(v, k) < 0
    decreases k
  {
    if k > 0 {
      NegativeNeverReachesZero(Shr8(v), k - 1);
    }
  }

  /** For -1 every pass leaves -1 and emits the unit 255: the output is "255." without end. */
  lemma {:induction false} MinusOneRepeats(k: nat)
    ensures ShiftedTimes(-1, k) == -1
    ensures LowByte(ShiftedTimes(-1, k)) == 255
    decreases k
  {
    if k > 0 {
      assert Shr8(-1) == -1;
      MinusOneRepeats(k - 1);
    }
  }

  /** A C++ integral type: its width in bytes and whether it is signed. */
  datatype IntType = IntType(bytes: nat, signed: bool)

  /** Half the range of the type: the first value a signed type cannot hold. */
  function Half(t: IntType): nat
    requires t.bytes >= 1
  {
    128 * Pow256(t.bytes - 1)
  }

  /** The values a variable of type t can hold (two's complement when signed). */
  predicate InRange(v: int, t: IntType) {
    && t.bytes >= 1
    && if t.signed then -(Half(t) as int) <= v < Half(t) else 0 <= v < Pow256(t.bytes)
  }

  /** The value's bit pattern in t, read as an unsigned number. */
  function BitPattern(v: int, t: IntType): (u: nat)
    requires InRange(v, t)
    ensures u < Pow256(t.bytes)
    ensures v >= 0 ==> u == v
  {
    if v < 0 then v + Pow256(t.bytes) else v
  }

  /** The value of type t whose bit pattern is u. */
  function FromBitPattern(u: nat, t: IntType): int
    requires t.bytes >= 1
  {
    if t.signed && u >= Half(t) then u - Pow256(t.bytes) else u
  }

  /** The bit pattern determines the value: reading it back gives the value. */
  lemma BitPatternRoundTrip(v: int, t: IntType)
    requires InRange(v, t)
    ensures FromBitPattern(BitPattern(v, t), t) == v
  {
    assert Pow256(t.bytes) == 2 * Half(t);
  }

  /** Every pattern of t's width is the bit pattern of exactly the value FromBitPattern reads from it. */
  lemma PatternValueRoundTrip(u: nat, t: IntType)
    requires t.bytes >= 1 && u < Pow256(t.bytes)
    ensures InRange(FromBitPattern(u, t), t)
    ensures BitPattern(FromBitPattern(u, t), t) == u
  {
    assert Pow256(t.bytes) == 2 * Half(t);
  }

  /** The low byte of the pattern is `value & 0xFF` of the value itself, negative or not. */
  lemma BitPatternLowByte(v: int, t: IntType)
    requires InRange(v, t)
    ensures LowByte(BitPattern(v, t)) == LowByte(v)
  {
    assert Pow256(t.bytes) == 256 * Pow256(t.bytes - 1);
  }

  /** The units of a bit pattern of t are never more than t's width in bytes. */
  lemma {:induction false} PatternUnitCount(u: nat, t: IntType)
    requires t.bytes >= 1 && u < Pow256(t.bytes)
    ensures |ByteDigits(u)| <= t.bytes
  {
    UnitCountMinimal(u);
    var n := |ByteDigits(u)|;
    if n > t.bytes {
      Pow256Monotone(t.bytes, n - 1);
    }
  }

  /** The units the loop emits are the low bytes of the successive shifts of the value. */
  lemma {:induction false} DigitsAreShifts(u: nat, k: nat)
    requires k < |ByteDigits(u)|
    ensures ByteDigits(u)[k] == LowByte(ShiftedTimes(u, k))
    decreases k
  {
    if k > 0 {
      var rest := Shr8(u);
      assert rest != 0;
      assert ByteDigits(u)[k] == ByteDigits(rest)[k - 1];
      DigitsAreShifts(rest, k - 1);
    }
  }

  /** Adding a multiple of 256 changes neither the low byte nor, beyond the multiple, the shift. */
  lemma ShiftAdd(v: int, m: int)
    ensures Shr8(v + 256 * m) == Shr8(v) + m
    ensures LowByte(v + 256 * m) == LowByte(v)
  {
    var lo, hi := LowByte(v), Shr8(v);
    assert v + 256 * m == lo + 256 * (hi + m);
  }

  /** Shifting v + 256^n k times, for k <= n, gives the shifted v plus 256^(n - k). */
  lemma {:induction false} ShiftOffset(v: int, n: nat, k: nat)
    requires k <= n
    ensures ShiftedTimes(v + Pow256(n), k) == ShiftedTimes(v, k) + Pow256(n - k)
    decreases k
  {
    if k > 0 {
      ShiftAdd(v, Pow256(n - 1));
      ShiftOffset(Shr8(v), n - 1, k - 1);
    }
  }

  /**
   * The corrected output agrees with the loop as written for as long as the
   * corrected output lasts: unit k of the bit pattern is the unit the source
   * emits in its pass k, for negative values too.
   */
  lemma PatternUnitsAreShifts(v: int, t: IntType, k: nat)
    requires InRange(v, t)
    requires k < |ByteDigits(BitPattern(v, t))|
    ensures ByteDigits(BitPattern(v, t))[k] == LowByte(ShiftedTimes(v, k))
  {
    var u := BitPattern(v, t);
    DigitsAreShifts(u, k);
    if v < 0 {
      var w := t.bytes;
      PatternUnitCount(u, t);
      assert u == v + Pow256(w);
      ShiftOffset(v, w, k);
      var shifted := ShiftedTimes(v, k);
      var m := Pow256(w - k - 1);
      assert Pow256(w - k) == 256 * m;
      ShiftAdd(shifted, m);
    }
  }
}
