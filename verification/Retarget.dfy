/** Difficulty adjustment: calculate_new_target (rusty-consensus/src/pow.rs) and the difficulty
    and timestamp checks of block validation (rusty-consensus/src/validation.rs) over chains. */
module Retarget {
  import opened Arithmetic
  import opened Wrappers
  import opened Compact

  const PRECISION: nat := 1_000_000_000
  const INTERVAL: nat := 2016
  const TARGET_BLOCK_TIME: nat := 150
  const MAX_FACTOR: nat := 4

  function Min(a: nat, b: nat): nat { if a <= b then a else b }
  function Max(a: nat, b: nat): nat { if a <= b then b else a }

  /** The time ratio in units of 1 / PRECISION, clamped to [1/factor, factor]. */
  function ClampedRatio(actual: nat, expected: nat, factor: nat): nat
    requires 0 < expected && 0 < factor
  {
    Max(Min(actual * PRECISION / expected, PRECISION * factor), PRECISION / factor)
  }

  /** calculate_new_target; None is the panic of a 256-bit overflow or of a division by zero. */
  function CalculateNewTarget(previous: nat, actual: nat, expected: nat, factor: nat,
                              minDifficultyTarget: nat, maxTarget: nat): Option<nat>
  {
    if expected == 0 || factor == 0 then None
    else
      var product := previous * ClampedRatio(actual, expected, factor);
      if product >= U256 then None
      else
        var scaled := product / PRECISION;
        var capped := if minDifficultyTarget != 0 then Min(scaled, minDifficultyTarget) else scaled;
        Some(Min(capped, maxTarget))
  }

  /** The call made by block validation. */
  function NextTarget(previous: nat, timespan: nat): Option<nat> {
    CalculateNewTarget(previous, timespan, INTERVAL * TARGET_BLOCK_TIME, MAX_FACTOR, 0, U256 - 1)
  }

  // ------------------------------------------------------------- scaling by the elapsed time

  predicate TooShort(actual: nat, expected: nat, factor: nat) { factor * actual < expected }
  predicate TooLong(actual: nat, expected: nat, factor: nat) { factor * expected < actual }

  lemma Clamp(r: nat, low: nat, high: nat)
    ensures r <= low <= high ==> Max(Min(r, high), low) == low
    ensures low <= r <= high ==> Max(Min(r, high), low) == r
    ensures low <= high <= r ==> Max(Min(r, high), low) == high
  {
  }

  lemma LowBelowHigh(low: nat, factor: nat)
    requires 0 < factor && low * factor <= PRECISION
    ensures low <= PRECISION * factor
  {
    MulLe(1, factor, low);
    MulLe(1, factor, PRECISION);
  }

  /** The ratio without the clamp: the inverse factor when the time was too short for it. */
  lemma RatioTooLow(actual: nat, expected: nat, factor: nat)
    requires 0 < factor && 0 < expected && TooShort(actual, expected, factor)
    ensures ClampedRatio(actual, expected, factor) == 1_000_000_000 / factor
  {
    hide Max, Min;
    var r, low := actual * PRECISION / expected, PRECISION / factor;
    DivBounds(actual * PRECISION, expected);
    DivBounds(PRECISION, factor);
    LowBelowHigh(low, factor);
    if r > low { TooLowStep(r, low, actual, expected, factor); }
    Clamp(r, low, PRECISION * factor);
  }

  lemma TooLowStep(r: nat, low: nat, actual: nat, expected: nat, factor: nat)
    requires factor * actual < expected && PRECISION < (low + 1) * factor && low < r
    ensures actual * PRECISION < r * expected
  {
    MulLe(low + 1, r, factor);
    LessTimes(r * factor, actual);
    Rotated(r, factor, actual);
    OneMoreTimes(factor * actual, expected, r);
  }

  lemma LessTimes(n: nat, m: nat)
    requires PRECISION <= n
    ensures m * PRECISION <= n * m
  {
  }

  lemma OneMoreTimes(n: nat, m: nat, r: nat)
    requires n < m && 0 < r
    ensures n * r < r * m
  {
  }

  lemma Rotated(a: nat, b: nat, c: nat)
    ensures (a * b) * c == (b * c) * a
  {
  }

  lemma Regrouped(a: nat, b: nat, c: nat)
    ensures a * b * c == (b * c) * a == (c * b) * a == (a * c) * b
  {
  }

  /** Elapsed over expected time within the factor. */
  lemma RatioWithin(actual: nat, expected: nat, factor: nat)
    requires 0 < factor && 0 < expected
    requires !TooShort(actual, expected, factor) && !TooLong(actual, expected, factor)
    ensures ClampedRatio(actual, expected, factor) == actual * 1_000_000_000 / expected
  {
    hide Max, Min;
    var r, low := actual * PRECISION / expected, PRECISION / factor;
    DivBounds(actual * PRECISION, expected);
    DivBounds(PRECISION, factor);
    WithinStep(r, low, actual, expected, factor);
    Clamp(r, low, PRECISION * factor);
  }

  lemma WithinStep(r: nat, low: nat, actual: nat, expected: nat, factor: nat)
    requires 0 < expected <= factor * actual && actual <= factor * expected
    requires r * expected <= actual * PRECISION < (r + 1) * expected && low * factor <= PRECISION
    ensures low <= r <= PRECISION * factor
  {
    MulLe(actual, factor * expected, PRECISION);
    Regrouped(PRECISION, factor, expected);
    MulOrder(r, PRECISION * factor, expected);
    MulLe(expected, factor * actual, low);
    MulLe(low * factor, PRECISION, actual);
    Regrouped(low, factor, actual);
    MulOrder(low, r, expected);
  }

  /** And the factor when the time was too long for it. */
  lemma RatioTooHigh(actual: nat, expected: nat, factor: nat)
    requires 0 < factor && 0 < expected && TooLong(actual, expected, factor)
    ensures ClampedRatio(actual, expected, factor) == 1_000_000_000 * factor
  {
    hide Max, Min;
    var r, low := actual * PRECISION / expected, PRECISION / factor;
    DivBounds(actual * PRECISION, expected);
    DivBounds(PRECISION, factor);
    LowBelowHigh(low, factor);
    TooHighStep(r, actual, expected, factor);
    Clamp(r, low, PRECISION * factor);
  }

  lemma TooHighStep(r: nat, actual: nat, expected: nat, factor: nat)
    requires 0 < expected && factor * expected < actual && actual * PRECISION < (r + 1) * expected
    ensures PRECISION * factor <= r
  {
    MulLe(factor * expected + 1, actual, PRECISION);
    Regrouped(PRECISION, factor, expected);
    MulOrder(PRECISION * factor, r, expected);
  }

  /** `scaled` is the target times actual over expected, short of it by less than one unit and one
      billionth of the target. */
  ghost predicate ScaledBy(previous: nat, actual: nat, expected: nat, scaled: nat) {
    && scaled * expected <= previous * actual
    && (previous * actual - scaled * expected) * 1_000_000_000 < (previous + 1_000_000_000) * expected
  }

  /** Rounding the ratio and then the product loses less than one unit of either. */
  lemma ScaledQuotient(previous: nat, actual: nat, expected: nat, r: nat, scaled: nat)
    requires 0 < expected && r * expected <= actual * PRECISION < (r + 1) * expected
    requires scaled * PRECISION <= previous * r < (scaled + 1) * PRECISION
    ensures ScaledBy(previous, actual, expected, scaled)
  {
    QuotientBelow(previous, actual, expected, r, scaled);
    QuotientNear(previous, actual, expected, r, scaled);
  }

  lemma QuotientBelow(previous: nat, actual: nat, expected: nat, r: nat, scaled: nat)
    requires r * expected <= actual * PRECISION && scaled * PRECISION <= previous * r
    ensures scaled * expected <= previous * actual
  {
    MulLe(r * expected, actual * PRECISION, previous);
    MulLe(scaled * PRECISION, previous * r, expected);
    Rotated(previous, r, expected);
    Rotated(scaled, PRECISION, expected);
    Rotated(actual, PRECISION, previous);
    MulOrder(scaled * expected, previous * actual, PRECISION);
  }

  lemma QuotientNear(previous: nat, actual: nat, expected: nat, r: nat, scaled: nat)
    requires 0 < expected && actual * PRECISION < (r + 1) * expected && previous * r < (scaled + 1) * PRECISION
    ensures (previous * actual - scaled * expected) * PRECISION < (previous + PRECISION) * expected
  {
    MulLe(actual * PRECISION, r * expected + expected, previous);
    MulLe(previous * r + 1, (scaled + 1) * PRECISION, expected);
    Rotated(previous, r, expected);
    Rotated(actual, PRECISION, previous);
  }

  /** calculate_new_target in numbers. The result is the least of the caps and the previous target scaled
      by the elapsed over the expected time, which counts as the factor, or its inverse, when beyond it. */
  lemma NewTargetScales(previous: nat, actual: nat, expected: nat, factor: nat, minDifficultyTarget: nat,
                        maxTarget: nat)
    returns (scaled: nat)
    requires CalculateNewTarget(previous, actual, expected, factor, minDifficultyTarget, maxTarget).Some?
    ensures var next := CalculateNewTarget(previous, actual, expected, factor, minDifficultyTarget, maxTarget).value;
      && next <= scaled && next <= maxTarget && (minDifficultyTarget != 0 ==> next <= minDifficultyTarget)
      && (next == scaled || next == maxTarget || (minDifficultyTarget != 0 && next == minDifficultyTarget))
    ensures TooLong(actual, expected, factor) ==> scaled == factor * previous
    ensures TooShort(actual, expected, factor) ==> ScaledBy(previous, 1, factor, scaled)
    ensures !TooLong(actual, expected, factor) && !TooShort(actual, expected, factor) ==>
      ScaledBy(previous, actual, expected, scaled)
  {
    hide ClampedRatio, CalculateNewTarget, ScaledBy, TooShort, TooLong;
    scaled := CappedTarget(previous, actual, expected, factor, minDifficultyTarget, maxTarget);
    if TooLong(actual, expected, factor) {
      ScaledUp(previous, actual, expected, factor);
    }
    if TooShort(actual, expected, factor) {
      RatioTooLow(actual, expected, factor);
      ScaledDown(previous, 1, factor);
    } else if !TooLong(actual, expected, factor) {
      RatioWithin(actual, expected, factor);
      ScaledDown(previous, actual, expected);
    }
  }

  lemma ScaledUp(previous: nat, actual: nat, expected: nat, factor: nat)
    requires 0 < expected && 0 < factor && TooLong(actual, expected, factor)
    ensures previous * ClampedRatio(actual, expected, factor) / PRECISION == factor * previous
  {
    RatioTooHigh(actual, expected, factor);
    hide ClampedRatio;
    Regrouped(PRECISION, factor, previous);
    DivUnique(previous * (PRECISION * factor), PRECISION, factor * previous);
  }

  lemma ScaledDown(previous: nat, actual: nat, expected: nat)
    requires 0 < expected
    ensures ScaledBy(previous, actual, expected, previous * (actual * PRECISION / expected) / PRECISION)
  {
    hide ScaledBy;
    var r := actual * PRECISION / expected;
    DivBounds(actual * PRECISION, expected);
    DivBounds(previous * r, PRECISION);
    ScaledQuotient(previous, actual, expected, r, previous * r / PRECISION);
  }

  lemma CappedTarget(previous: nat, actual: nat, expected: nat, factor: nat, minDifficultyTarget: nat, maxTarget: nat)
    returns (scaled: nat)
    requires CalculateNewTarget(previous, actual, expected, factor, minDifficultyTarget, maxTarget).Some?
    ensures 0 < expected && 0 < factor && scaled == previous * ClampedRatio(actual, expected, factor) / PRECISION
    ensures var next := CalculateNewTarget(previous, actual, expected, factor, minDifficultyTarget, maxTarget).value;
      && next <= scaled && next <= maxTarget && (minDifficultyTarget != 0 ==> next <= minDifficultyTarget)
      && (next == scaled || next == maxTarget || (minDifficultyTarget != 0 && next == minDifficultyTarget))
  {
    hide ClampedRatio;
    scaled := previous * ClampedRatio(actual, expected, factor) / PRECISION;
  }

  /** The target of an adjustment after `span` seconds, of the 302400 that 2016 blocks should take. */
  ghost predicate ScaledByTime(previous: nat, span: nat, next: nat) {
    && (4 * span < 302_400 ==> next == previous / 4)
    && (span > 4 * 302_400 ==> next == 4 * previous)
    && (302_400 <= 4 * span && span <= 4 * 302_400 ==>
          && next * 302_400 <= previous * span
          && (previous * span - next * 302_400) * 1_000_000_000 < (previous + 1_000_000_000) * 302_400)
  }

  /** Block validation's call: scaled by the elapsed time, unless the fixed-point product overflows. */
  lemma NextTargetScales(previous: nat, span: nat)
    ensures NextTarget(previous, span).Some? ==> ScaledByTime(previous, span, NextTarget(previous, span).value)
    ensures NextTarget(previous, span).None? <==>
      previous * (if 4 * span < 302_400 then 250_000_000 else if span > 4 * 302_400 then 4_000_000_000
                  else span * 1_000_000_000 / 302_400) >= U256
  {
    var r := ClampedRatio(span, 302_400, 4);
    assert INTERVAL * TARGET_BLOCK_TIME == 302_400;
    if 4 * span < 302_400 {
      RatioTooLow(span, 302_400, 4);
    } else if span <= 4 * 302_400 {
      RatioWithin(span, 302_400, 4);
    } else {
      RatioTooHigh(span, 302_400, 4);
    }
    hide ClampedRatio;
    if previous * r < U256 {
      var scaled := NewTargetScales(previous, span, 302_400, 4, 0, U256 - 1);
      assert NextTarget(previous, span).value == previous * r / PRECISION;
      assert 4 * span < 302_400 ==> previous * 250_000_000 / PRECISION == previous / 4;
    }
  }

  lemma RatioBounds(timespan: nat)
    ensures PRECISION / 4 <= ClampedRatio(timespan, INTERVAL * TARGET_BLOCK_TIME, MAX_FACTOR) <= 4 * PRECISION
  {
  }

  lemma DivMonotone(a: nat, b: nat, d: nat)
    requires a <= b && 0 < d
    ensures a / d <= b / d
  {
    DivBounds(a, d);
    DivBounds(b, d);
    MulOrder(a / d, b / d, d);
  }

  /** An adjustment moves the target by at most a factor of four either way. */
  lemma NextTargetBounds(previous: nat, timespan: nat)
    requires NextTarget(previous, timespan).Some?
    ensures previous / 4 <= NextTarget(previous, timespan).value <= 4 * previous
    ensures NextTarget(previous, timespan).value < U256
  {
    var ratio := ClampedRatio(timespan, INTERVAL * TARGET_BLOCK_TIME, MAX_FACTOR);
    RatioBounds(timespan);
    MulLe(PRECISION / 4, ratio, previous);
    MulLe(ratio, 4 * PRECISION, previous);
    var product := previous * ratio;
    assert previous * 250_000_000 <= product <= previous * 4_000_000_000;
    assert NextTarget(previous, timespan).value == product / PRECISION;
  }

  /** A longer timespan never gives a smaller target. */
  lemma NextTargetMonotone(previous: nat, timespan: nat, longer: nat)
    requires timespan <= longer && NextTarget(previous, longer).Some?
    ensures NextTarget(previous, timespan).Some?
    ensures NextTarget(previous, timespan).value <= NextTarget(previous, longer).value
  {
    RatioMonotone(timespan, longer);
    var r := ClampedRatio(timespan, INTERVAL * TARGET_BLOCK_TIME, MAX_FACTOR);
    var s := ClampedRatio(longer, INTERVAL * TARGET_BLOCK_TIME, MAX_FACTOR);
    hide ClampedRatio;
    MulLe(r, s, previous);
    DivMonotone(previous * r, previous * s, PRECISION);
  }

  lemma RatioMonotone(timespan: nat, longer: nat)
    requires timespan <= longer
    ensures ClampedRatio(timespan, INTERVAL * TARGET_BLOCK_TIME, MAX_FACTOR)
         <= ClampedRatio(longer, INTERVAL * TARGET_BLOCK_TIME, MAX_FACTOR)
  {
    DivMonotone(timespan * PRECISION, longer * PRECISION, INTERVAL * TARGET_BLOCK_TIME);
  }

  /** A period of exactly the expected length leaves the target alone. */
  lemma NextTargetFixedPoint(previous: nat)
    requires previous * PRECISION < U256
    ensures NextTarget(previous, INTERVAL * TARGET_BLOCK_TIME) == Some(previous)
  {
    assert ClampedRatio(INTERVAL * TARGET_BLOCK_TIME, INTERVAL * TARGET_BLOCK_TIME, MAX_FACTOR) == PRECISION;
  }

  /** The product fits in 256 bits for every timespan exactly when four times the target, in
      fixed point, does; below 2^224 it always does. */
  lemma NoOverflowExactly(previous: nat)
    ensures (forall timespan :: NextTarget(previous, timespan).Some?) <==> previous * (4 * PRECISION) < U256
    ensures previous < Pow2(224) ==> previous * (4 * PRECISION) < U256
  {
    if previous * (4 * PRECISION) < U256 {
      forall timespan ensures NextTarget(previous, timespan).Some? { FitsBelow(previous, timespan); }
    } else {
      OverflowsAtFourfold(previous);
    }
    if previous < Pow2(224) { FitsBelow224(previous); }
  }

  lemma FitsBelow(previous: nat, timespan: nat)
    requires previous * (4 * PRECISION) < U256
    ensures NextTarget(previous, timespan).Some?
  {
    RatioBounds(timespan);
    MulLe(ClampedRatio(timespan, INTERVAL * TARGET_BLOCK_TIME, MAX_FACTOR), 4 * PRECISION, previous);
  }

  lemma OverflowsAtFourfold(previous: nat)
    requires previous * (4 * PRECISION) >= U256
    ensures NextTarget(previous, 4 * INTERVAL * TARGET_BLOCK_TIME).None?
  {
    assert ClampedRatio(4 * INTERVAL * TARGET_BLOCK_TIME, INTERVAL * TARGET_BLOCK_TIME, MAX_FACTOR) == 4 * PRECISION;
  }

  lemma FitsBelow224(previous: nat)
    requires previous < Pow2(224)
    ensures previous * (4 * PRECISION) < U256
  {
    hide Pow2, Pow256;
    Pow2Add(224, 32);
    Pow2Of32();
    Pow2Pow256(32);
    U256IsPow256();
    MulLe(previous, Pow2(224), 4 * PRECISION);
    MulLe(4 * PRECISION, Pow2(32) - 1, Pow2(224));
  }

  lemma Pow2Of32()
    ensures Pow2(32) == 0x1_0000_0000
  {
    assert Pow2(8) == 256;
    Pow2Add(8, 8);
    Pow2Add(16, 16);
  }

  // --------------------------------------------------------------------- the checks

  datatype Header = Header(height: nat, timestamp: nat, bits: nat)

  datatype Verdict = Accept | Reject(reason: string) | Panic

  predicate IsAdjustment(height: nat) {
    (height + U64 - 1) % U64 % INTERVAL == 0
  }

  /** The difficulty and timestamp part of validate_block_header. */
  function HeaderCheck(header: Header, previous: Header, now: nat): Verdict {
    if !IsAdjustment(previous.height + 1) && header.bits != previous.bits then Reject("difficulty mismatch")
    else if header.timestamp > now + 7200 then Reject("timestamp too far in future")
    else if header.timestamp <= previous.timestamp then Reject("timestamp too old")
    else Accept
  }

  function SaturatingSub(a: nat, b: nat): (r: nat)
    ensures r + b == a || (r == 0 && a < b)
  {
    if a < b then 0 else a - b
  }

  /** The difficulty part of validate_block_comprehensive; previous blocks newest first. */
  function DifficultyCheck(block: Header, previous: seq<Header>): Verdict
    requires previous != [] && forall i :: 0 <= i < |previous| ==> previous[i].bits < U32
  {
    if IsAdjustment(block.height) && block.height > 1 then
      if |previous| >= INTERVAL then
        var timespan := SaturatingSub(previous[0].timestamp, previous[INTERVAL - 1].timestamp);
        var target := NextTarget(CompactToTarget(previous[0].bits), timespan);
        if target.None? then Panic
        else if block.bits != Encode(target.value) then Reject("difficulty mismatch at adjustment block")
        else Accept
      else if block.height <= INTERVAL && block.bits == 0 then Reject("difficulty target cannot be zero")
      else Accept
    else if block.height == 0 then
      if block.bits == 0 then Reject("genesis difficulty cannot be zero") else Accept
    else if block.bits != previous[0].bits then Reject("difficulty should match previous block")
    else Accept
  }

  /** When a header passes: later than the previous one, at most two hours ahead of the clock, and with its
      bits, unless the previous height is a multiple of 2016. */
  lemma HeaderAcceptedIff(header: Header, previous: Header, now: nat)
    requires previous.height < U64
    ensures HeaderCheck(header, previous, now) == Accept
      <==> (&& previous.timestamp < header.timestamp <= now + 7200
            && (header.bits == previous.bits || previous.height % 2016 == 0))
  {
    assert (previous.height + 1 + U64 - 1) % U64 == previous.height;
  }

  /** When a block's bits pass, by height: anything but zero at genesis, the previous bits within a period and
      at height one, and at an adjustment with a full history the encoded target scaled by its time. */
  lemma BitsAcceptedIff(block: Header, previous: seq<Header>)
    requires previous != [] && forall i :: 0 <= i < |previous| ==> previous[i].bits < U32
    requires block.height < U64
    ensures block.height == 0 ==> (DifficultyCheck(block, previous) == Accept <==> block.bits != 0)
    ensures block.height == 1 || (block.height > 0 && (block.height - 1) % 2016 != 0) ==>
      (DifficultyCheck(block, previous) == Accept <==> block.bits == previous[0].bits)
    ensures block.height > 1 && (block.height - 1) % 2016 == 0 && |previous| >= 2016 ==>
      var t := CompactToTarget(previous[0].bits);
      var span := if previous[0].timestamp < previous[2015].timestamp then 0
                  else previous[0].timestamp - previous[2015].timestamp;
      (DifficultyCheck(block, previous) == Accept <==>
         NextTarget(t, span).Some? && block.bits == Encode(NextTarget(t, span).value))
  {
    hide CompactToTarget, Encode, NextTarget;
    if block.height > 0 { HeightFacts(block.height); } else { assert !IsAdjustment(0); }
  }

  // ---------------------------------------------------------------------- chains

  function NewestFirst(s: seq<Header>): (r: seq<Header>)
    ensures |r| == |s| && forall k :: 0 <= k < |s| ==> r[k] == s[|s| - 1 - k]
  {
    seq(|s|, k requires 0 <= k < |s| => s[|s| - 1 - k])
  }

  /** Block i passes both checks against its whole history. */
  ghost predicate Linked(chain: seq<Header>, clock: nat -> nat, i: nat)
    requires 1 <= i < |chain| && forall k :: 0 <= k < |chain| ==> chain[k].bits < U32
  {
    && HeaderCheck(chain[i], chain[i - 1], clock(i)) == Accept
    && DifficultyCheck(chain[i], NewestFirst(chain[..i])) == Accept
  }

  ghost predicate ValidChain(chain: seq<Header>, clock: nat -> nat) {
    && |chain| < U64
    && (forall i :: 0 <= i < |chain| ==> chain[i].height == i && chain[i].bits < U32)
    && forall i :: 1 <= i < |chain| ==> Linked(chain, clock, i)
  }

  lemma HeightFacts(i: nat)
    requires 1 <= i < U64
    ensures IsAdjustment(i) <==> (i - 1) % INTERVAL == 0
  {
    assert (i + U64 - 1) % U64 == i - 1;
  }

  /** Timestamps strictly increase along a chain. */
  lemma {:induction false} TimestampsIncrease(chain: seq<Header>, clock: nat -> nat, i: nat, j: nat)
    requires ValidChain(chain, clock) && i < j < |chain|
    ensures chain[i].timestamp < chain[j].timestamp
  {
    assert Linked(chain, clock, j);
    hide DifficultyCheck;
    if i < j - 1 { TimestampsIncrease(chain, clock, i, j - 1); }
  }

  predicate SamePeriod(i: nat, j: nat) {
    SaturatingSub(i, 1) / INTERVAL == SaturatingSub(j, 1) / INTERVAL
  }

  /** Within a period of 2016 blocks the bits do not change. */
  lemma {:induction false} BitsConstantInPeriod(chain: seq<Header>, clock: nat -> nat, i: nat, j: nat)
    requires ValidChain(chain, clock) && i <= j < |chain| && SamePeriod(i, j)
    ensures chain[i].bits == chain[j].bits
    decreases j
  {
    if i < j {
      assert SamePeriod(i, j - 1);
      BitsConstantInPeriod(chain, clock, i, j - 1);
      HeightFacts(j);
      assert Linked(chain, clock, j);
    }
  }

  /** What an adjustment block must carry: the last block's target scaled by the elapsed time,
      which the saturating subtraction computes exactly. */
  lemma AdjustmentStep(chain: seq<Header>, clock: nat -> nat, h: nat)
    requires ValidChain(chain, clock) && INTERVAL < h < |chain| && (h - 1) % INTERVAL == 0
    ensures chain[h - INTERVAL].timestamp < chain[h - 1].timestamp
    ensures var t, span := CompactToTarget(chain[h - 1].bits), chain[h - 1].timestamp - chain[h - INTERVAL].timestamp;
      var next := NextTarget(t, span);
      next.Some? && ScaledByTime(t, span, next.value) && chain[h].bits == Encode(next.value)
  {
    hide CompactToTarget, Encode, NextTarget, HeaderCheck, ScaledByTime;
    TimestampsIncrease(chain, clock, h - INTERVAL, h - 1);
    NextTargetScales(CompactToTarget(chain[h - 1].bits), chain[h - 1].timestamp - chain[h - INTERVAL].timestamp);
    HeightFacts(h);
    hide IsAdjustment;
    assert Linked(chain, clock, h);
    assert NewestFirst(chain[..h])[0] == chain[h - 1];
    assert NewestFirst(chain[..h])[INTERVAL - 1] == chain[h - INTERVAL];
  }

  /** The target the chain actually uses after an adjustment: at most the old one scaled by the elapsed
      time, at most four times it, and not below a quarter of it by more than the rounding of the encoding. */
  lemma AdjustedTargetBounds(chain: seq<Header>, clock: nat -> nat, h: nat)
    requires ValidChain(chain, clock) && INTERVAL < h < |chain| && (h - 1) % INTERVAL == 0
    ensures var t, u := CompactToTarget(chain[h - 1].bits), CompactToTarget(chain[h].bits);
      u <= 4 * t && t / 4 * 0x8000 <= u * 0x8001
    ensures var t, u := CompactToTarget(chain[h - 1].bits), CompactToTarget(chain[h].bits);
      var span := chain[h - 1].timestamp - chain[h - INTERVAL].timestamp;
      302_400 <= 4 * span && span <= 4 * 302_400 ==> u * 302_400 <= t * span
  {
    hide CompactToTarget, Encode, NextTarget, Linked;
    AdjustmentStep(chain, clock, h);
    var span := chain[h - 1].timestamp - chain[h - INTERVAL].timestamp;
    var t := CompactToTarget(chain[h - 1].bits);
    NextTargetBounds(t, span);
    RoundTripError(NextTarget(t, span).value);
  }

  /** Over a whole chain the target grows by at most a factor of four per completed period. */
  lemma {:induction false} GrowthOverChain(chain: seq<Header>, clock: nat -> nat, h: nat)
    requires ValidChain(chain, clock) && h < |chain|
    ensures CompactToTarget(chain[h].bits)
      <= Pow2(2 * (SaturatingSub(h, 1) / INTERVAL)) * CompactToTarget(chain[0].bits)
    decreases h
  {
    hide CompactToTarget, Encode, NextTarget, Linked;
    if h > 0 {
      GrowthOverChain(chain, clock, h - 1);
      if INTERVAL < h && (h - 1) % INTERVAL == 0 {
        AdjustedTargetBounds(chain, clock, h);
        var n := SaturatingSub(h - 1, 1) / INTERVAL;
        assert SaturatingSub(h, 1) / INTERVAL == n + 1;
        assert Pow2(2 * (n + 1)) == 4 * Pow2(2 * n);
        Quadruple(Pow2(2 * n), CompactToTarget(chain[0].bits));
      } else {
        assert SamePeriod(h - 1, h);
        BitsConstantInPeriod(chain, clock, h - 1, h);
      }
    }
  }

  lemma Quadruple(p: nat, t: nat)
    ensures 4 * (p * t) == (4 * p) * t
  {
  }

  /** A target that has reached zero stays zero. */
  lemma {:induction false} ZeroTargetIsForever(chain: seq<Header>, clock: nat -> nat, i: nat, j: nat)
    requires ValidChain(chain, clock) && i <= j < |chain| && CompactToTarget(chain[i].bits) == 0
    ensures CompactToTarget(chain[j].bits) == 0
    decreases j
  {
    hide CompactToTarget, Encode, NextTarget, Linked;
    if i < j {
      ZeroTargetIsForever(chain, clock, i, j - 1);
      if INTERVAL < j && (j - 1) % INTERVAL == 0 {
        AdjustedTargetBounds(chain, clock, j);
      } else {
        assert SamePeriod(j - 1, j);
        BitsConstantInPeriod(chain, clock, j - 1, j);
      }
    }
  }

  // ---------------------------------------------------------------- reaching a zero target

  /** The failing inputs: a target of three and any period that took at most a quarter of its time, such as
      the 2015 seconds that 2016 strictly increasing timestamps take at least. */
  lemma SmallTargetReachesZero(timespan: nat)
    requires timespan <= INTERVAL * TARGET_BLOCK_TIME / 4
    ensures NextTarget(3, timespan) == Some(0) && INTERVAL - 1 <= INTERVAL * TARGET_BLOCK_TIME / 4
  {
    assert timespan * PRECISION / (INTERVAL * TARGET_BLOCK_TIME) <= PRECISION / 4;
  }

  /** Exactly when an adjustment rounds down to zero; three after one third of the time is rounded away too. */
  ghost predicate RoundsToZero(previous: nat, span: nat) {
    || previous == 0 || (previous == 1 && span < 302_400) || (previous == 2 && span < 151_200)
    || (previous == 3 && span <= 100_800)
  }

  lemma ZeroNextIff(previous: nat, timespan: nat)
    requires NextTarget(previous, timespan).Some?
    ensures NextTarget(previous, timespan).value == 0 <==> RoundsToZero(previous, timespan)
    ensures previous >= 4 ==> NextTarget(previous, timespan).value > 0
  {
    NextTargetBounds(previous, timespan);
    NextTargetScales(previous, timespan);
    hide NextTarget;
  }

  /** No timespan takes a target to zero if and only if the target is at least four. */
  lemma StaysPositiveIff(previous: nat)
    ensures (forall timespan :: NextTarget(previous, timespan) != Some(0)) <==> previous >= 4
  {
    forall timespan | previous >= 4 && NextTarget(previous, timespan).Some?
      ensures NextTarget(previous, timespan).value > 0
    {
      ZeroNextIff(previous, timespan);
    }
    if previous < 4 {
      assert ClampedRatio(0, INTERVAL * TARGET_BLOCK_TIME, MAX_FACTOR) == PRECISION / 4;
      assert previous * (PRECISION / 4) < PRECISION;
      assert NextTarget(previous, 0) == Some(0);
    }
  }

  /** Along a chain, after encoding: an adjustment makes the target zero exactly when the old target and
      the elapsed time say so, and never from a target of four or more. */
  lemma AdjustedToZeroIff(chain: seq<Header>, clock: nat -> nat, h: nat)
    requires ValidChain(chain, clock) && INTERVAL < h < |chain| && (h - 1) % INTERVAL == 0
    ensures chain[h - INTERVAL].timestamp < chain[h - 1].timestamp
    ensures CompactToTarget(chain[h].bits) == 0
      <==> RoundsToZero(CompactToTarget(chain[h - 1].bits), chain[h - 1].timestamp - chain[h - INTERVAL].timestamp)
    ensures CompactToTarget(chain[h - 1].bits) >= 4 ==> CompactToTarget(chain[h].bits) > 0
  {
    hide CompactToTarget, Encode, NextTarget, Linked, RoundsToZero;
    AdjustmentStep(chain, clock, h);
    var span := chain[h - 1].timestamp - chain[h - INTERVAL].timestamp;
    var t := CompactToTarget(chain[h - 1].bits);
    ZeroNextIff(t, span);
    NextTargetBounds(t, span);
    RoundTripError(NextTarget(t, span).value);
  }

  /** So a chain that starts with a positive target has a zero target at height j if and only if some
      adjustment up to j took a target of one, two or three to zero. */
  lemma {:induction false} ZeroReachedIff(chain: seq<Header>, clock: nat -> nat, j: nat)
    requires ValidChain(chain, clock) && j < |chain| && CompactToTarget(chain[0].bits) > 0
    ensures CompactToTarget(chain[j].bits) == 0 <==> exists h :: 0 < h <= j && DropsToZero(chain, h)
    decreases j
  {
    hide CompactToTarget, Linked;
    if h :| 0 < h <= j && DropsToZero(chain, h) {
      ZeroTargetIsForever(chain, clock, h, j);
    }
    if CompactToTarget(chain[j].bits) == 0 {
      ZeroReachedIff(chain, clock, j - 1);
      if CompactToTarget(chain[j - 1].bits) > 0 {
        if INTERVAL < j && (j - 1) % INTERVAL == 0 {
          AdjustedToZeroIff(chain, clock, j);
          assert DropsToZero(chain, j);
        } else {
          assert SamePeriod(j - 1, j);
          BitsConstantInPeriod(chain, clock, j - 1, j);
        }
      }
    }
  }

  ghost predicate DropsToZero(chain: seq<Header>, h: nat)
    requires 0 < h < |chain| && forall i :: 0 <= i < |chain| ==> chain[i].bits < U32
  {
    && INTERVAL < h && (h - 1) % INTERVAL == 0
    && 0 < CompactToTarget(chain[h - 1].bits) < 4 && CompactToTarget(chain[h].bits) == 0
  }

  /** Without 2016 previous blocks at hand the adjustment block's bits are not checked at all;
      with them, one value is accepted. */
  lemma ShortHistoryAcceptsAnyBits(block: Header, previous: seq<Header>, bits: nat)
    requires previous != [] && forall i :: 0 <= i < |previous| ==> previous[i].bits < U32
    requires INTERVAL < block.height < U64 && IsAdjustment(block.height)
    ensures |previous| < INTERVAL ==> DifficultyCheck(block.(bits := bits), previous) == Accept
    ensures |previous| >= INTERVAL && DifficultyCheck(block, previous) == Accept
      ==> DifficultyCheck(block.(bits := bits), previous) == Accept ==> bits == block.bits
    ensures (forall b: nat :: DifficultyCheck(block.(bits := b), previous) == Accept) <==> |previous| < INTERVAL
  {
    assert |previous| >= INTERVAL ==>
      DifficultyCheck(block.(bits := 0), previous) != Accept || DifficultyCheck(block.(bits := 1), previous) != Accept;
  }
}
