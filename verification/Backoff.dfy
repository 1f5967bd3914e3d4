/**
 Retry backoff in 64-bit arithmetic.  The shift wraps: just below the guard at 62
 attempts the product is a multiple of 2^64 and the delay collapses to zero.
 */
module Backoff {
  import opened BitStrings
  import opened Transport

  datatype Bounds = Bounds(baseMs: int, capMs: int)

  const INTERNET_ROUTINE := Bounds(2_000, 300_000)
  const INTERNET_CRITICAL := Bounds(1_000, 60_000)
  const SMS_ROUTINE := Bounds(60_000, 1_800_000)
  const SMS_CRITICAL := Bounds(10_000, 300_000)

  const TWO_63 := 0x8000_0000_0000_0000
  const TWO_64 := 0x1_0000_0000_0000_0000

  function BoundsFor(c: Capabilities, critical: bool): (b: Bounds)
    ensures InTable(b)
  {
    var metered := MeteredAndVerySlow(c);
    if metered && critical then SMS_CRITICAL
    else if metered then SMS_ROUTINE
    else if critical then INTERNET_CRITICAL
    else INTERNET_ROUTINE
  }

  predicate InTable(b: Bounds) {
    b == INTERNET_ROUTINE || b == INTERNET_CRITICAL || b == SMS_ROUTINE || b == SMS_CRITICAL
  }

  /** A signed 64-bit left shift. */
  function Shl(base: int, attempt: nat): int {
    var m := (base * Pow2(attempt)) % TWO_64;
    if m >= TWO_63 then m - TWO_64 else m
  }

  function Min(a: int, b: int): int {
    if a <= b then a else b
  }

  function RawDelay(b: Bounds, attempt: nat): int {
    if attempt >= 62 then b.capMs else
    var scaled := Shl(b.baseMs, attempt);
    if scaled < 0 then b.capMs else Min(scaled, b.capMs)
  }

  /** What the policy documents: doubling up to a cap. */
  function Documented(b: Bounds, attempt: nat): int {
    Min(b.baseMs * Pow2(attempt), b.capMs)
  }

  /** The first attempt whose product is a multiple of 2^64. */
  function FirstCollapse(b: Bounds): nat
    requires InTable(b)
  {
    if b == SMS_ROUTINE then 59 else if b == INTERNET_CRITICAL then 61 else 60
  }

  // ---------------------------------------------------------------- arithmetic

  lemma {:induction false} Pow2Add(a: nat, b: nat)
    ensures Pow2(a + b) == Pow2(a) * Pow2(b)
  {
    if a == 0 {
    } else {
      Pow2Add(a - 1, b);
      assert Pow2(a) * Pow2(b) == 2 * (Pow2(a - 1) * Pow2(b));
    }
  }

  lemma {:induction false} Pow2Grows(a: nat, b: nat)
    requires a <= b
    ensures Pow2(a) <= Pow2(b)
  {
    if a < b {
      Pow2Grows(a, b - 1);
    }
  }

  lemma Pow2Values()
    ensures Pow2(16) == 65_536 && Pow2(48) == 0x1_0000_0000_0000 && Pow2(64) == TWO_64
    ensures Pow2(1) == 2 && Pow2(3) == 8 && Pow2(4) == 16 && Pow2(5) == 32 && Pow2(6) == 64
  {
    assert Pow2(4) == 16;
    assert Pow2(8) == 256;
    assert Pow2(12) == 4_096;
    assert Pow2(16) == 65_536;
    Pow2Add(16, 16);
    Pow2Add(32, 16);
    Pow2Add(48, 16);
  }

  lemma MulDistribute(x: int, y: int, z: int)
    ensures x * (y - z) == x * y - x * z
  {
  }

  lemma MulAtLeast(x: int, y: int)
    requires x > 0 && y > 0
    ensures x * y >= x
  {
  }

  /** The remainder of a shifted value is zero or at least the power it was shifted by. */
  lemma ShiftedRemainder(base: int, attempt: nat)
    requires attempt <= 64 && base > 0
    ensures var m := (base * Pow2(attempt)) % TWO_64; m == 0 || m >= Pow2(attempt)
  {
    hide Pow2;
    Pow2Values();
    Pow2Add(attempt, 64 - attempt);
    RemainderOfMultiple(base, Pow2(attempt), Pow2(64 - attempt), TWO_64);
  }

  lemma RemainderOfMultiple(base: int, p: int, t: int, z: int)
    requires p > 0 && t > 0 && z == p * t
    ensures z > 0 && ((base * p) % z == 0 || (base * p) % z >= p)
  {
    MulAtLeast(p, t);
    var q, m := (base * p) / z, (base * p) % z;
    assert base * p == z * q + m;
    MulRotate(p, t, q);
    MulDistribute(p, base, t * q);
    if m > 0 {
      PositiveFactor(p, base - t * q);
      MulAtLeast(p, base - t * q);
    }
  }

  lemma MulRotate(p: int, t: int, q: int)
    ensures (p * t) * q == p * (t * q)
  {
  }

  lemma PositiveFactor(p: int, f: int)
    requires p > 0 && p * f > 0
    ensures f > 0
  {
  }

  /** Below the collapse the product is never a multiple of 2^64: its odd part survives. */
  lemma OddPartSurvives(odd: int, k: nat, attempt: nat)
    requires odd > 0 && odd % 2 == 1 && k + attempt < 64
    ensures (odd * Pow2(k) * Pow2(attempt)) % TWO_64 != 0
  {
    hide Pow2;
    Pow2Values();
    Pow2Add(k, attempt);
    Pow2Add(1, 63 - k - attempt);
    Pow2Add(k + attempt, 64 - k - attempt);
    MulRotate(odd, Pow2(k), Pow2(attempt));
    OddIsNoMultiple(odd, Pow2(k + attempt), Pow2(63 - k - attempt), TWO_64);
  }

  lemma OddIsNoMultiple(odd: int, p: int, half: int, z: int)
    requires odd % 2 == 1 && p > 0 && half > 0 && z == p * (2 * half)
    ensures z > 0 && (odd * p) % z != 0
  {
    MulAtLeast(p, 2 * half);
    var q := (odd * p) / z;
    if (odd * p) % z == 0 {
      assert odd * p == z * q;
      MulRotate(p, 2 * half, q);
      MulDistribute(p, odd, 2 * half * q);
      ZeroFactor(p, odd - 2 * half * q);
      MulRotate(2, half, q);
    }
  }

  lemma ZeroFactor(p: int, f: int)
    requires p > 0 && p * f == 0
    ensures f == 0
  {
  }

  lemma CollapsesFrom(odd: int, k: nat, attempt: nat)
    requires k + attempt >= 64
    ensures (odd * Pow2(k) * Pow2(attempt)) % TWO_64 == 0
  {
    hide Pow2;
    Pow2Values();
    Pow2Add(k, attempt);
    Pow2Add(64, k + attempt - 64);
    MultipleOf(odd, Pow2(k), Pow2(attempt), TWO_64, Pow2(k + attempt - 64));
  }

  lemma MultipleOf(odd: int, x: int, y: int, z: int, r: int)
    requires x * y == z * r && z > 0
    ensures (odd * x * y) % z == 0
  {
    MulRotate(odd, x, y);
    MulRotate(odd, r, z);
    MultipleHasNoRemainder(odd * r, z);
  }

  lemma MultipleHasNoRemainder(x: int, y: int)
    requires y > 0
    ensures (x * y) % y == 0
  {
    var q, m := (x * y) / y, (x * y) % y;
    MulDistribute(y, x, q);
    assert y * (x - q) == m;
    if x > q {
      MulAtLeast(y, x - q);
    } else if x < q {
      MulAtLeast(y, q - x);
      MulDistribute(y, q, x);
    }
  }

  /** The product is a multiple of 2^64 exactly from the collapse on. */
  lemma CollapseExact(b: Bounds, attempt: nat)
    requires InTable(b)
    ensures (b.baseMs * Pow2(attempt)) % TWO_64 == 0 <==> attempt >= FirstCollapse(b)
  {
    Pow2Values();
    var k := 64 - FirstCollapse(b);
    var odd := if b == SMS_ROUTINE then 1_875 else if b == SMS_CRITICAL then 625 else 125;
    assert b.baseMs == odd * Pow2(k);
    if attempt >= FirstCollapse(b) {
      CollapsesFrom(odd, k, attempt);
    } else {
      OddPartSurvives(odd, k, attempt);
    }
  }

  // -------------------------------------------------------------- the raw delay

  /**
   The delay is the documented one if and only if the attempt is not in the short band
   below 62 where the product wraps to zero; there it is zero.
   */
  lemma DelayIsDocumentedIff(b: Bounds, attempt: nat)
    requires InTable(b)
    ensures RawDelay(b, attempt) == Documented(b, attempt) <==> !(FirstCollapse(b) <= attempt < 62)
    ensures FirstCollapse(b) <= attempt < 62 ==> RawDelay(b, attempt) == 0
  {
    hide Pow2, RawDelay, Documented;
    if b.baseMs * Pow2(attempt) >= TWO_63 {
      LargeProduct(b, attempt);
    } else {
      SmallProduct(b, attempt);
    }
  }

  lemma SmallProduct(b: Bounds, attempt: nat)
    requires InTable(b) && b.baseMs * Pow2(attempt) < TWO_63
    ensures attempt < 54 && RawDelay(b, attempt) == Documented(b, attempt)
  {
    hide Pow2;
    ShiftStaysSmall(b, attempt);
    MulAtLeast(b.baseMs, Pow2(attempt));
  }

  lemma ShiftStaysSmall(b: Bounds, attempt: nat)
    requires InTable(b) && b.baseMs * Pow2(attempt) < TWO_63
    ensures attempt < 54
  {
    hide Pow2;
    Pow2Values();
    Pow2Add(48, 6);
    if attempt >= 54 {
      Pow2Grows(54, attempt);
      ScaledAtLeast(b.baseMs, Pow2(54), Pow2(attempt));
    }
  }

  lemma ScaledAtLeast(base: int, low: int, high: int)
    requires base >= 1_000 && 0 < low <= high
    ensures base * high >= 1_000 * low
  {
    MulKeepsOrder(high, 1_000, base);
  }

  lemma LargeProduct(b: Bounds, attempt: nat)
    requires InTable(b) && b.baseMs * Pow2(attempt) >= TWO_63
    ensures Documented(b, attempt) == b.capMs > 0
    ensures RawDelay(b, attempt) == if FirstCollapse(b) <= attempt < 62 then 0 else b.capMs
  {
    CollapseExact(b, attempt);
    if attempt < 62 {
      ShiftedRemainder(b.baseMs, attempt);
      LargeShift(b, attempt);
    }
    hide Pow2;
  }

  lemma LargeShift(b: Bounds, attempt: nat)
    requires InTable(b) && b.baseMs * Pow2(attempt) >= TWO_63
    ensures Pow2(attempt) >= b.capMs
  {
    hide Pow2;
    Pow2Values();
    if attempt < 47 {
      Pow2Grows(attempt, 47);
      Pow2Add(1, 47);
      ScaledAtMost(b.baseMs, Pow2(attempt), Pow2(47));
    } else {
      Pow2Grows(32, attempt);
      Pow2Add(16, 16);
    }
  }

  lemma ScaledAtMost(base: int, low: int, high: int)
    requires 0 < base <= 60_000 && 0 < low <= high
    ensures base * low <= 60_000 * high
  {
    MulKeepsOrder(low, base, 60_000);
  }

  lemma MulKeepsOrder(x: int, y: int, z: int)
    requires x >= 0 && y <= z
    ensures y * x <= z * x
  {
    MulDistribute(x, z, y);
    NonNegative(x, z - y);
  }

  lemma NonNegative(x: int, y: int)
    requires x >= 0 && y >= 0
    ensures x * y >= 0
  {
  }

  // ------------------------------------------------------------------- jitter

  /** Truncation toward zero. */
  function Trunc(r: real): int {
    if r >= 0.0 then r.Floor else 0 - (0.0 - r).Floor
  }

  /** Up to a fifth either way; `u` is the random draw, in [0, 1). */
  function Jitter(raw: int, u: real): int {
    Trunc(Times(raw as real * 0.2, u * 2.0 - 1.0))
  }

  function Times(x: real, y: real): real {
    x * y
  }

  function Delay(b: Bounds, attempt: nat, u: real): int {
    var raw := RawDelay(b, attempt);
    if raw + Jitter(raw, u) < 0 then 0 else raw + Jitter(raw, u)
  }

  lemma RawDelayRange(b: Bounds, attempt: nat)
    requires InTable(b)
    ensures 0 <= RawDelay(b, attempt) <= b.capMs
  {
    hide Shl;
  }

  lemma JitterRange(raw: int, u: real)
    requires raw >= 0 && 0.0 <= u < 1.0
    ensures 0 - raw <= 5 * Jitter(raw, u) <= raw
  {
    hide Times, Trunc;
    var fifth, swing := raw as real * 0.2, u * 2.0 - 1.0;
    SwingWithin(fifth, swing);
    TruncWithin(Times(fifth, swing), raw);
  }

  lemma SwingWithin(f: real, w: real)
    requires f >= 0.0 && -1.0 <= w <= 1.0
    ensures 0.0 - f <= Times(f, w) <= f
  {
  }

  lemma TruncWithin(r: real, raw: int)
    requires 0.0 - raw as real <= 5.0 * r <= raw as real
    ensures 0 - raw <= 5 * Trunc(r) <= raw
  {
    var t := Trunc(r);
    assert r >= 0.0 ==> 0.0 <= t as real <= r;
    assert r < 0.0 ==> r <= t as real <= 0.0;
    assert 0.0 - raw as real <= 5.0 * t as real <= raw as real;
    assert (5 * t) as real == 5.0 * t as real;
  }

  /** Jitter moves the delay by at most a fifth, never below zero. */
  lemma DelayWithinAFifth(b: Bounds, attempt: nat, u: real)
    requires InTable(b) && 0.0 <= u < 1.0
    ensures var raw, d := RawDelay(b, attempt), Delay(b, attempt, u);
            4 * raw <= 5 * d <= 6 * raw && d >= 0
  {
    hide RawDelay, Jitter, InTable;
    RawDelayRange(b, attempt);
    JitterRange(RawDelay(b, attempt), u);
  }

  function NextAttemptAt(now: int, c: Capabilities, critical: bool, attempt: nat, u: real): int {
    now + Delay(BoundsFor(c, critical), attempt, u)
  }

  /** Attempts whose documented delay the code does not give. */
  predicate Collapsed(c: Capabilities, critical: bool, attempt: nat) {
    FirstCollapse(BoundsFor(c, critical)) <= attempt < 62
  }

  /**
   The persisted time: a fifth around the documented delay after now, or now itself
   where the product has wrapped.
   */
  lemma NextAttemptWindow(now: int, c: Capabilities, critical: bool, attempt: nat, u: real)
    requires 0.0 <= u < 1.0
    ensures var wait, due := NextAttemptAt(now, c, critical, attempt, u) - now, Documented(BoundsFor(c, critical), attempt);
            if Collapsed(c, critical, attempt) then wait == 0 else 4 * due <= 5 * wait <= 6 * due && wait >= 0
  {
    hide RawDelay, Delay, Documented;
    DelayIsDocumentedIff(BoundsFor(c, critical), attempt);
    DelayWithinAFifth(BoundsFor(c, critical), attempt, u);
  }

  // ---------------------------------------------------------- the printed table

  function Doubled(base: int, cap: int, attempt: nat): int {
    if base * Pow2(attempt) <= cap then base * Pow2(attempt) else cap
  }

  /** The documented delay, by link and priority: doubling from a base up to a cap. */
  function Due(c: Capabilities, critical: bool, attempt: nat): int {
    if c.cost == Metered && c.latency == VerySlow then
      if critical then Doubled(10_000, 300_000, attempt) else Doubled(60_000, 1_800_000, attempt)
    else
      if critical then Doubled(1_000, 60_000, attempt) else Doubled(2_000, 300_000, attempt)
  }

  /** The attempts at which the code does not wait. */
  predicate NoWait(c: Capabilities, critical: bool, attempt: nat) {
    attempt < 62 &&
    if c.cost == Metered && c.latency == VerySlow then (if critical then attempt >= 60 else attempt >= 59)
    else (if critical then attempt >= 61 else attempt >= 60)
  }

  /** A fifth of the delay times the draw, more or less, cut off toward zero. */
  predicate Swung(wait: int, due: int, u: real) {
    var swing := due as real * 0.2 * (u * 2.0 - 1.0);
    if swing >= 0.0 then (wait - due) as real <= swing < (wait - due + 1) as real
    else (wait - due - 1) as real < swing <= (wait - due) as real
  }

  lemma JitterSwings(raw: int, u: real)
    requires raw >= 0 && 0.0 <= u < 1.0
    ensures Swung(raw + Jitter(raw, u), raw, u) && raw + Jitter(raw, u) >= 0
  {
    JitterRange(raw, u);
    var swing := Times(raw as real * 0.2, u * 2.0 - 1.0);
    TruncBounds(swing);
  }

  lemma TruncBounds(r: real)
    ensures r >= 0.0 ==> Trunc(r) as real <= r < (Trunc(r) + 1) as real
    ensures r < 0.0 ==> (Trunc(r) - 1) as real < r <= Trunc(r) as real
  {
  }

  lemma DueIsDocumented(c: Capabilities, critical: bool, attempt: nat)
    ensures Due(c, critical, attempt) == Documented(BoundsFor(c, critical), attempt)
    ensures NoWait(c, critical, attempt) <==> Collapsed(c, critical, attempt)
  {
    hide Pow2;
  }

  /** The exact wait, for every transport, priority, attempt and draw. */
  lemma NextAttemptExact(now: int, c: Capabilities, critical: bool, attempt: nat, u: real)
    requires 0.0 <= u < 1.0
    ensures var wait := NextAttemptAt(now, c, critical, attempt, u) - now;
            if NoWait(c, critical, attempt) then wait == 0 else Swung(wait, Due(c, critical, attempt), u)
  {
    hide RawDelay, Documented, Jitter, Swung, Due, NoWait;
    var b := BoundsFor(c, critical);
    DelayIsDocumentedIff(b, attempt);
    RawDelayRange(b, attempt);
    JitterSwings(RawDelay(b, attempt), u);
    JitterRange(RawDelay(b, attempt), u);
    DueIsDocumented(c, critical, attempt);
  }

  /** In whole numbers: a fifth around the documented delay, or no wait. */
  predicate WaitInTable(wait: int, c: Capabilities, critical: bool, attempt: nat) {
    var due := Due(c, critical, attempt);
    if NoWait(c, critical, attempt) then wait == 0 else 4 * due <= 5 * wait <= 6 * due
  }

  lemma NextAttemptInTable(now: int, c: Capabilities, critical: bool, attempt: nat, u: real)
    requires 0.0 <= u < 1.0
    ensures WaitInTable(NextAttemptAt(now, c, critical, attempt, u) - now, c, critical, attempt)
  {
    hide Documented, NextAttemptAt, Due, NoWait, Collapsed;
    NextAttemptWindow(now, c, critical, attempt, u);
    DueIsDocumented(c, critical, attempt);
  }
}
