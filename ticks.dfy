/**
 * Wrapping 32-bit tick counts and the wraparound-safe comparisons of rtic.h.
 *
 * A tick value is a `uint32_t` that wraps silently.  `rtic_tdiff(x, y)` is the
 * unsigned difference `y - x` reinterpreted as an `int32_t`: the signed
 * distance from x to y, correct as long as the true distance is below 2^31.
 */
module Ticks {

  const TICK_MODULUS: int := 0x1_0000_0000
  const HALF_RANGE: int := 0x8000_0000
  const U64_MODULUS: int := 0x1_0000_0000_0000_0000

  /** C `uint32_t` */
  type u32 = x: int | 0 <= x < 0x1_0000_0000
  /** C `int32_t` */
  type i32 = x: int | -0x8000_0000 <= x < 0x8000_0000
  /** C `uint64_t` */
  type u64 = x: int | 0 <= x < 0x1_0000_0000_0000_0000

  /** Conversion of an arbitrary integer to `uint32_t`: reduction modulo 2^32. */
  function Wrap(x: int): u32 {
    x % TICK_MODULUS
  }

  /** A value already in the uint32 range is left unchanged by the conversion. */
  lemma {:induction false} WrapIdentity(x: int)
    ensures 0 <= x < TICK_MODULUS ==> Wrap(x) == x
  {
  }

  /** `x + d` in uint32 arithmetic, for a tick and a signed 32-bit offset: the
      sum wraps at most once in either direction. */
  function AddTicks(x: u32, d: i32): u32 {
    var s := x + d;
    if s < 0 then s + TICK_MODULUS else if s >= TICK_MODULUS then s - TICK_MODULUS else s
  }

  /** `y - x` in uint32 arithmetic. */
  function SubTicks(y: u32, x: u32): u32 {
    if x <= y then y - x else y - x + TICK_MODULUS
  }

  /** Two's-complement reading of a 32-bit pattern (`(int32_t)v`). */
  function ToInt32(v: u32): i32 {
    if v < HALF_RANGE then v else v - TICK_MODULUS
  }

  /** Reduction of a value within one modulus of the uint32 range. */
  lemma {:induction false} ShiftedWrap(s: int)
    requires -TICK_MODULUS <= s < 2 * TICK_MODULUS
    ensures s < 0 ==> Wrap(s) == s + TICK_MODULUS
    ensures 0 <= s < TICK_MODULUS ==> Wrap(s) == s
    ensures TICK_MODULUS <= s ==> Wrap(s) == s - TICK_MODULUS
  {
  }

  /** The single-wrap forms above agree with reduction modulo 2^32, i.e. with
      C's uint32_t addition, subtraction and int32_t reinterpretation. */
  lemma {:induction false} TickArithmeticIsModular(x: u32, y: u32, d: i32)
    ensures AddTicks(x, d) == Wrap(x + d)
    ensures SubTicks(y, x) == Wrap(y - x)
    ensures Wrap(ToInt32(x)) == x
  {
    ShiftedWrap(x + d);
    ShiftedWrap(y - x);
    ShiftedWrap(ToInt32(x));
  }

  /** rtic_tdiff(x, y): how much time from x to y.  The result is the unique
      int32 distance that, added to x in uint32 arithmetic, lands on y. */
  function TDiff(x: u32, y: u32): (d: i32)
    ensures AddTicks(x, d) == y
  {
    ToInt32(SubTicks(y, x))
  }

  /** rtic_after(x, y): x is chronologically after y. */
  predicate After(x: u32, y: u32) {
    TDiff(x, y) < 0
  }

  /** rtic_before(x, y): x is chronologically before y. */
  predicate Before(x: u32, y: u32) {
    TDiff(x, y) > 0
  }

  /** Offsetting x by any int32 distance d and measuring back gives d: the
      distance is the only int32 that maps x to y. */
  lemma {:induction false} TDiffOffset(x: u32, d: i32)
    ensures TDiff(x, AddTicks(x, d)) == d
  {
  }

  /** The distance from a tick to itself is zero, and only equal ticks are at distance zero. */
  lemma {:induction false} TDiffZeroIffEqual(x: u32, y: u32)
    ensures TDiff(x, y) == 0 <==> x == y
  {
  }

  /** For any two ticks exactly one of "x after y", "x before y" and "x == y" holds. */
  lemma {:induction false} Trichotomy(x: u32, y: u32)
    ensures After(x, y) || Before(x, y) || x == y
    ensures !(After(x, y) && Before(x, y))
    ensures x == y ==> !After(x, y) && !Before(x, y)
  {
  }

  /** Measuring in the opposite direction negates the distance, except at the
      one distance (2^31) whose negation is not an int32. */
  lemma {:induction false} TDiffAntisymmetric(x: u32, y: u32)
    ensures TDiff(x, y) != -HALF_RANGE ==> TDiff(y, x) == -TDiff(x, y)
    ensures TDiff(x, y) == -HALF_RANGE ==> TDiff(y, x) == -HALF_RANGE
  {
  }

  /** "x before y" implies "y after x"; the converse fails only at a distance of
      exactly 2^31, where each tick is "after" the other. */
  lemma {:induction false} BeforeAfterConverse(x: u32, y: u32)
    ensures Before(x, y) ==> After(y, x)
    ensures After(y, x) && !Before(x, y) <==> TDiff(x, y) == -HALF_RANGE
    ensures TDiff(x, y) == -HALF_RANGE ==> After(x, y) && After(y, x)
  {
    TDiffAntisymmetric(x, y);
  }

  /** Within one horizon: when both ticks lie within [base, base + 2^31), the
      wrapping distance between them is the difference of their offsets from
      base, so "before" agrees with the order of those offsets. */
  lemma {:induction false} DistanceWithinHorizon(base: u32, a: u32, b: u32)
    requires 0 <= TDiff(base, a) && 0 <= TDiff(base, b)
    ensures TDiff(a, b) == TDiff(base, b) - TDiff(base, a)
    ensures Before(a, b) <==> TDiff(base, a) < TDiff(base, b)
    ensures After(a, b) <==> TDiff(base, b) < TDiff(base, a)
  {
  }

  /** ticks_extend (example.c): widens a 32-bit tick to 64 bits, choosing the
      64-bit value nearest to a 64-bit reference tick. */
  function ExtendTicks(ticks: u32, reference: u64): u64 {
    var s := reference + TDiff(Wrap(reference), ticks);
    if s < 0 then s + U64_MODULUS else if s >= U64_MODULUS then s - U64_MODULUS else s
  }

  /** The remainder of q * 2^32 + t, for t in the uint32 range, is t. */
  lemma {:induction false} LowBits(x: int, q: int, t: int)
    requires x == q * TICK_MODULUS + t && 0 <= t < TICK_MODULUS
    ensures Wrap(x) == t
  {
  }

  /** Wrapping never increases a non-negative count. */
  lemma {:induction false} WrapAtMost(x: int)
    ensures 0 <= x ==> Wrap(x) <= x
  {
    if TICK_MODULUS <= x {
      assert Wrap(x) < TICK_MODULUS;
    } else if 0 <= x {
      WrapIdentity(x);
    }
  }

  /** Consecutive integers never wrap to the same tick. */
  lemma {:induction false} WrapSuccessor(x: int)
    ensures Wrap(x + 1) != Wrap(x)
  {
    var q := x / TICK_MODULUS;
    var t := x % TICK_MODULUS;
    LowBits(x, q, t);
    if t < TICK_MODULUS - 1 {
      LowBits(x + 1, q, t + 1);
    } else {
      LowBits(x + 1, q + 1, 0);
    }
  }

  /** The low 32 bits of the widened tick are the tick itself and, away from the
      ends of the 64-bit range, the widened tick lies within an int32 distance
      of the reference. */
  lemma {:induction false} ExtendTicksNearest(ticks: u32, reference: u64)
    ensures Wrap(ExtendTicks(ticks, reference)) == ticks
    ensures HALF_RANGE <= reference < U64_MODULUS - HALF_RANGE ==>
              ExtendTicks(ticks, reference) - reference == TDiff(Wrap(reference), ticks)
  {
    var low := Wrap(reference);
    var high := reference / TICK_MODULUS;
    var d := TDiff(low, ticks);
    assert reference == high * TICK_MODULUS + low;
    var r := ExtendTicks(ticks, reference);
    var k: int := if low + d < 0 then -1 else if low + d >= TICK_MODULUS then 1 else 0;
    assert low + d == ticks + k * TICK_MODULUS;
    var m: int := if reference + d < 0 then 0x1_0000_0000 else if reference + d >= U64_MODULUS then -0x1_0000_0000 else 0;
    assert r == (high + k + m) * TICK_MODULUS + ticks;
    LowBits(r, high + k + m, ticks);
  }
}
