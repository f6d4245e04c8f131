/**
 * The tick/time conversion macros of rtic.h.
 *
 * Every macro widens its argument to `uint64_t`, multiplies or adds, divides
 * (C unsigned division, i.e. floor) and truncates the quotient to `uint32_t`.
 * Arguments are modelled as `uint32_t` values, so the 64-bit intermediate
 * never overflows and only the final 32-bit truncation can lose information.
 * The ticks-per-second rate is a parameter restricted, as the header's
 * `#error` demands, to [10000, 64516].
 */
module TickConversions {
  import opened Ticks

  /** RTIC_TICKS_PER_SEC: one tick is between 15.5us and 100us long. */
  type TicksPerSec = t: int | 10000 <= t <= 64516 witness 32768

  /** The default when RTIC_TICKS_PER_SEC is not configured. */
  const DEFAULT_TICKS_PER_SEC: TicksPerSec := 32768

  /** The exact quotient of a millisecond conversion fits in 32 bits (the
      rounded-up one included), so no truncation takes place. */
  predicate MsFits(tps: TicksPerSec, ms: u32) {
    ms * tps + 999 < 1000 * TICK_MODULUS
  }

  // ---- helpers on multiplication and division ----

  /** Multiplying by a non-negative factor preserves order. */
  lemma {:induction false} MulMonotone(x: int, y: int, c: int)
    requires 0 <= c
    ensures x <= y ==> x * c <= y * c
  {
    if x <= y {
      assert y * c - x * c == (y - x) * c;
    }
  }

  /** A positive factor can be cancelled from both sides of an inequality. */
  lemma {:induction false} MulCancel(x: int, y: int, c: int)
    requires 0 < c
    ensures x * c <= y * c ==> x <= y
  {
    MulMonotone(y + 1, x, c);
    assert (y + 1) * c == y * c + c;
  }

  /** A positive factor can be cancelled from both sides of a strict inequality. */
  lemma {:induction false} MulCancelStrict(x: int, y: int, c: int)
    requires 0 < c
    ensures x * c < y * c ==> x < y
  {
    MulMonotone(y, x, c);
  }

  /** The floor, ceiling and nearest quotients of n by 1000, when the ceiling
      fits in 32 bits. */
  lemma {:induction false} QuotientsBy1000(n: nat)
    requires n + 999 < 1000 * TICK_MODULUS
    ensures Wrap(n / 1000) * 1000 <= n < (Wrap(n / 1000) + 1) * 1000
    ensures (Wrap((n + 999) / 1000) - 1) * 1000 < n <= Wrap((n + 999) / 1000) * 1000
    ensures Wrap((n + 500) / 1000) * 1000 - 500 <= n < Wrap((n + 500) / 1000) * 1000 + 500
  {
    WrapIdentity(n / 1000);
    WrapIdentity((n + 999) / 1000);
    WrapIdentity((n + 500) / 1000);
  }

  /** The floor, ceiling and nearest quotients of n by 10^6, when the ceiling
      fits in 32 bits. */
  lemma {:induction false} QuotientsByMillion(n: nat)
    requires n + 999999 < 1000000 * TICK_MODULUS
    ensures Wrap(n / 1000000) * 1000000 <= n < (Wrap(n / 1000000) + 1) * 1000000
    ensures (Wrap((n + 999999) / 1000000) - 1) * 1000000 < n <= Wrap((n + 999999) / 1000000) * 1000000
    ensures Wrap((n + 500000) / 1000000) * 1000000 - 500000 <= n < Wrap((n + 500000) / 1000000) * 1000000 + 500000
  {
    WrapIdentity(n / 1000000);
    WrapIdentity((n + 999999) / 1000000);
    WrapIdentity((n + 500000) / 1000000);
  }

  /** Bounds on the factors bound the product. */
  lemma {:induction false} ProductBound(a: nat, b: nat, aMax: nat, bMax: nat)
    requires a <= aMax && b <= bMax
    ensures a * b <= aMax * bMax
  {
    MulMonotone(a, aMax, b);
    MulMonotone(b, bMax, aMax);
  }

  /** The quotient of unsigned division is the floor: q * d <= n < q * d + d. */
  lemma {:induction false} DivBounds(n: nat, d: nat)
    requires 0 < d
    ensures 0 <= n / d
    ensures (n / d) * d <= n < (n / d) * d + d
  {
    assert n == (n / d) * d + n % d;
  }

  // ---- real time to ticks ----

  /** rtic_us2ticks: microseconds to ticks, rounded down. */
  function UsToTicks(tps: TicksPerSec, us: u32): u32 {
    Wrap((us * tps) / 1000000)
  }

  /** rtic_us2ticksCeil: microseconds to ticks, rounded up. */
  function UsToTicksCeil(tps: TicksPerSec, us: u32): u32 {
    Wrap((us * tps + 999999) / 1000000)
  }

  /** rtic_us2ticksRound: microseconds to ticks, rounded to nearest. */
  function UsToTicksRound(tps: TicksPerSec, us: u32): u32 {
    Wrap((us * tps + 500000) / 1000000)
  }

  /** rtic_ms2ticks: milliseconds to ticks, rounded down. */
  function MsToTicks(tps: TicksPerSec, ms: u32): u32 {
    Wrap((ms * tps) / 1000)
  }

  /** rtic_ms2ticksCeil: milliseconds to ticks, rounded up. */
  function MsToTicksCeil(tps: TicksPerSec, ms: u32): u32 {
    Wrap((ms * tps + 999) / 1000)
  }

  /** rtic_ms2ticksRound: milliseconds to ticks, rounded to nearest. */
  function MsToTicksRound(tps: TicksPerSec, ms: u32): u32 {
    Wrap((ms * tps + 500) / 1000)
  }

  /** rtic_sec2ticks: seconds to ticks. */
  function SecToTicks(tps: TicksPerSec, sec: u32): u32 {
    Wrap(sec * tps)
  }

  // ---- ticks to real time ----

  /** rtic_ticks2sec: ticks to seconds, rounded down. */
  function TicksToSec(tps: TicksPerSec, ticks: u32): u32 {
    Wrap(ticks / tps)
  }

  /** rtic_ticks2ms: ticks to milliseconds, rounded down. */
  function TicksToMs(tps: TicksPerSec, ticks: u32): u32 {
    Wrap((ticks * 1000) / tps)
  }

  /** rtic_ticks2us: ticks to microseconds, rounded down. */
  function TicksToUs(tps: TicksPerSec, ticks: u32): u32 {
    Wrap((ticks * 1000000) / tps)
  }

  // ---- what each conversion computes ----

  /** A uint32 microsecond count never overflows the tick range: the three
      microsecond conversions are the exact floor, ceiling and nearest
      (halves up) tick counts of `us * tps / 10^6`. */
  lemma {:induction false} UsToTicksExact(tps: TicksPerSec, us: u32)
    ensures UsToTicks(tps, us) * 1000000 <= us * tps < (UsToTicks(tps, us) + 1) * 1000000
    ensures (UsToTicksCeil(tps, us) - 1) * 1000000 < us * tps <= UsToTicksCeil(tps, us) * 1000000
    ensures UsToTicksRound(tps, us) * 1000000 - 500000 <= us * tps < UsToTicksRound(tps, us) * 1000000 + 500000
  {
    var n: nat := us * tps;
    assert n < 1000000 * (TICK_MODULUS - 1) by {
      ProductBound(us, tps, TICK_MODULUS - 1, 64516);
    }
    QuotientsByMillion(n);
  }

  /** Without truncation the three millisecond conversions are the exact
      floor, ceiling and nearest (halves up) tick counts of `ms * tps / 1000`. */
  lemma {:induction false} MsToTicksExact(tps: TicksPerSec, ms: u32)
    requires MsFits(tps, ms)
    ensures MsToTicks(tps, ms) * 1000 <= ms * tps < (MsToTicks(tps, ms) + 1) * 1000
    ensures (MsToTicksCeil(tps, ms) - 1) * 1000 < ms * tps <= MsToTicksCeil(tps, ms) * 1000
    ensures MsToTicksRound(tps, ms) * 1000 - 500 <= ms * tps < MsToTicksRound(tps, ms) * 1000 + 500
  {
    var n: nat := ms * tps;
    assert MsToTicks(tps, ms) == Wrap(n / 1000);
    assert MsToTicksCeil(tps, ms) == Wrap((n + 999) / 1000);
    assert MsToTicksRound(tps, ms) == Wrap((n + 500) / 1000);
    QuotientsBy1000(n);
  }

  /** Seconds convert exactly while `sec * tps` fits in 32 bits; beyond, the
      result is the product truncated to its low 32 bits. */
  lemma {:induction false} SecToTicksExact(tps: TicksPerSec, sec: u32)
    ensures sec * tps < TICK_MODULUS ==> SecToTicks(tps, sec) == sec * tps
    ensures sec * tps >= TICK_MODULUS ==>
              SecToTicks(tps, sec) < sec * tps && (sec * tps - SecToTicks(tps, sec)) % TICK_MODULUS == 0
  {
    var n: nat := sec * tps;
    var q: nat := n / TICK_MODULUS;
    var t: u32 := SecToTicks(tps, sec);
    assert n == q * TICK_MODULUS + t;
    WrapIdentity(n);
    if n >= TICK_MODULUS {
      assert 1 <= q;
      assert n - t == q * TICK_MODULUS;
      assert (q * TICK_MODULUS) % TICK_MODULUS == 0;
    }
  }

  /** Ticks to whole seconds, rounded down; never truncated. */
  lemma {:induction false} TicksToSecExact(tps: TicksPerSec, ticks: u32)
    ensures TicksToSec(tps, ticks) * tps <= ticks < TicksToSec(tps, ticks) * tps + tps
  {
    DivBounds(ticks, tps);
    var q: nat := ticks / tps;
    assert q <= q * tps by {
      MulMonotone(1, tps, q);
    }
    WrapIdentity(q);
  }

  /** Ticks to whole milliseconds, rounded down.  With at least 10000 ticks
      per second this never truncates. */
  lemma {:induction false} TicksToMsExact(tps: TicksPerSec, ticks: u32)
    ensures TicksToMs(tps, ticks) * tps <= ticks * 1000 < TicksToMs(tps, ticks) * tps + tps
  {
    var n: nat := ticks * 1000;
    DivBounds(n, tps);
    var q: nat := n / tps;
    assert q * 10000 <= q * tps by {
      MulMonotone(10000, tps, q);
    }
    WrapIdentity(q);
  }

  /** Ticks to whole microseconds, rounded down, while the quotient fits in
      32 bits: durations below 2^32 microseconds, about 71.6 minutes. */
  lemma {:induction false} TicksToUsExact(tps: TicksPerSec, ticks: u32)
    ensures (ticks * 1000000) / tps < TICK_MODULUS ==>
              TicksToUs(tps, ticks) * tps <= ticks * 1000000 < TicksToUs(tps, ticks) * tps + tps
  {
    var n: nat := ticks * 1000000;
    DivBounds(n, tps);
    WrapIdentity(n / tps);
  }

  // ---- properties ----

  /** Floor, round and ceiling are ordered and differ by at most one tick. */
  lemma {:induction false} UsFloorRoundCeil(tps: TicksPerSec, us: u32)
    ensures UsToTicks(tps, us) <= UsToTicksRound(tps, us) <= UsToTicksCeil(tps, us) <= UsToTicks(tps, us) + 1
  {
    UsToTicksExact(tps, us);
  }

  /** Floor, round and ceiling are ordered and differ by at most one tick,
      as long as no truncation occurs. */
  lemma {:induction false} MsFloorRoundCeil(tps: TicksPerSec, ms: u32)
    requires MsFits(tps, ms)
    ensures MsToTicks(tps, ms) <= MsToTicksRound(tps, ms) <= MsToTicksCeil(tps, ms) <= MsToTicks(tps, ms) + 1
  {
    MsToTicksExact(tps, ms);
  }

  /** Dividing by 1000 rounded up agrees with dividing rounded down exactly
      when 1000 divides n. */
  lemma {:induction false} CeilIsFloorBy1000(n: nat)
    ensures (n + 999) / 1000 == n / 1000 <==> n % 1000 == 0
  {
  }

  /** Dividing by 10^6 rounded up agrees with dividing rounded down exactly
      when 10^6 divides n. */
  lemma {:induction false} CeilIsFloorByMillion(n: nat)
    ensures (n + 999999) / 1000000 == n / 1000000 <==> n % 1000000 == 0
  {
  }

  /** Rounding up changes nothing exactly when the duration is a whole number of ticks. */
  lemma {:induction false} UsCeilExactIffDivisible(tps: TicksPerSec, us: u32)
    ensures UsToTicksCeil(tps, us) == UsToTicks(tps, us) <==> (us * tps) % 1000000 == 0
  {
    var n: nat := us * tps;
    assert n < 1000000 * (TICK_MODULUS - 1) by {
      ProductBound(us, tps, TICK_MODULUS - 1, 64516);
    }
    QuotientsByMillion(n);
    WrapIdentity(n / 1000000);
    WrapIdentity((n + 999999) / 1000000);
    CeilIsFloorByMillion(n);
  }

  /** Rounding up changes nothing exactly when the duration is a whole number of ticks. */
  lemma {:induction false} MsCeilExactIffDivisible(tps: TicksPerSec, ms: u32)
    ensures MsToTicksCeil(tps, ms) == MsToTicks(tps, ms) <==> (ms * tps) % 1000 == 0
  {
    var n: nat := ms * tps;
    var a := n / 1000;
    var b := (n + 999) / 1000;
    assert MsToTicks(tps, ms) == Wrap(a);
    assert MsToTicksCeil(tps, ms) == Wrap(b);
    CeilIsFloorBy1000(n);
    assert b == a || b == a + 1;
    if b == a + 1 {
      WrapSuccessor(a);
    }
  }

  /** Converting milliseconds to ticks (rounded down) and back never overshoots. */
  lemma {:induction false} MsRoundTripNoOvershoot(tps: TicksPerSec, ms: u32)
    ensures TicksToMs(tps, MsToTicks(tps, ms)) <= ms
  {
    var t := MsToTicks(tps, ms);
    var r := TicksToMs(tps, t);
    assert t * 1000 <= ms * tps by {
      var n: nat := ms * tps;
      assert t == Wrap(n / 1000);
      WrapAtMost(n / 1000);
      DivBounds(n, 1000);
      MulMonotone(t, n / 1000, 1000);
    }
    assert r * tps <= t * 1000 by {
      TicksToMsExact(tps, t);
    }
    MulCancel(r, ms, tps);
  }

  /** Converting milliseconds to ticks rounded up and back never undershoots. */
  lemma {:induction false} MsCeilRoundTripNoUndershoot(tps: TicksPerSec, ms: u32)
    requires MsFits(tps, ms)
    ensures TicksToMs(tps, MsToTicksCeil(tps, ms)) >= ms
  {
    var t := MsToTicksCeil(tps, ms);
    var r := TicksToMs(tps, t);
    assert ms * tps <= t * 1000 by {
      MsToTicksExact(tps, ms);
    }
    assert t * 1000 < r * tps + tps by {
      TicksToMsExact(tps, t);
    }
    assert ms * tps < (r + 1) * tps by {
      assert (r + 1) * tps == r * tps + tps;
    }
    MulCancelStrict(ms, r + 1, tps);
  }

  /** Converting microseconds to ticks (rounded down) and back never
      overshoots; the way back never truncates. */
  lemma {:induction false} UsRoundTripNoOvershoot(tps: TicksPerSec, us: u32)
    ensures TicksToUs(tps, UsToTicks(tps, us)) <= us
  {
    var t := UsToTicks(tps, us);
    var n: nat := (t as int) * 1000000;
    var q: nat := n / tps;
    assert n <= us * tps by {
      UsToTicksExact(tps, us);
    }
    assert q * tps <= n by {
      DivBounds(n, tps);
    }
    MulCancel(q, us, tps);
    WrapIdentity(q);
  }

  /** Seconds survive the round trip through ticks while no truncation occurs. */
  lemma {:induction false} SecRoundTrip(tps: TicksPerSec, sec: u32)
    requires sec * tps < TICK_MODULUS
    ensures TicksToSec(tps, SecToTicks(tps, sec)) == sec
  {
    var n: nat := sec * tps;
    assert SecToTicks(tps, sec) == n by {
      SecToTicksExact(tps, sec);
    }
    var r := TicksToSec(tps, n);
    assert r * tps <= n < r * tps + tps by {
      TicksToSecExact(tps, n);
    }
    assert (r + 1) * tps == r * tps + tps;
    MulCancel(r, sec, tps);
    MulCancelStrict(sec, r + 1, tps);
  }
}
