/** The block subsidy (get_block_subsidy, rusty-consensus/src/state.rs) and the cap it puts on the
    coins in existence. */
module Supply {
  import opened Arithmetic
  import opened Utxo
  import opened Conservation
  import opened Compact

  /** The interval is a divisor in the source, so it must not be zero. */
  function Subsidy(height: nat, interval: nat, initial: nat): nat
    requires 0 < interval
  {
    var halvings := height / interval;
    if halvings >= 64 then 0 else ShiftRight(initial, Pow2(halvings))
  }

  function SubsidySum(blocks: nat, interval: nat, initial: nat): nat
    requires 0 < interval
  {
    if blocks == 0 then 0 else SubsidySum(blocks - 1, interval, initial) + Subsidy(blocks - 1, interval, initial)
  }

  function Halved(v: nat, n: nat): nat {
    if n == 0 then v else Halved(v, n - 1) / 2
  }

  lemma {:induction false} ShiftIsHalving(v: nat, n: nat)
    ensures ShiftRight(v, Pow2(n)) == Halved(v, n)
  {
    if n > 0 {
      ShiftIsHalving(v, n - 1);
      HalveQuotient(v, Pow2(n - 1));
    }
  }

  lemma HalveQuotient(v: nat, b: nat)
    requires 0 < b
    ensures v / (2 * b) == v / b / 2
  {
    var q := v / b;
    var r := q / 2;
    DivBounds(v, b);
    MulLe(2 * r, q, b);
    MulLe(q + 1, 2 * (r + 1), b);
    DivUnique(v, 2 * b, r);
  }

  lemma {:induction false} HalvedMonotone(v: nat, m: nat, n: nat)
    requires m <= n
    ensures Halved(v, n) <= Halved(v, m)
  {
    if m < n { HalvedMonotone(v, m, n - 1); }
  }

  /** The subsidy never increases with height. */
  lemma SubsidyNeverIncreases(low: nat, high: nat, interval: nat, initial: nat)
    requires 0 < interval && low <= high
    ensures Subsidy(high, interval, initial) <= Subsidy(low, interval, initial)
  {
    var m, n := low / interval, high / interval;
    DivBounds(low, interval);
    DivBounds(high, interval);
    MulOrder(m, n, interval);
    ShiftIsHalving(initial, m);
    ShiftIsHalving(initial, n);
    HalvedMonotone(initial, m, n);
  }

  /** The schedule: the initial reward for the first interval, and half of it, rounded down, an interval later. */
  lemma SubsidyHalves(height: nat, interval: nat, initial: nat)
    requires 0 < interval && initial < U64
    ensures height < interval ==> Subsidy(height, interval, initial) == initial
    ensures Subsidy(height + interval, interval, initial) == Subsidy(height, interval, initial) / 2
  {
    var n := height / interval;
    DivBounds(height, interval);
    DivUnique(height + interval, interval, n + 1);
    if height < interval { DivUnique(height, interval, 0); }
    ShiftIsHalving(initial, n);
    ShiftIsHalving(initial, n + 1);
    HalvedAway(initial, n);
    hide Halved, Pow2;
    PowerZero();
  }

  lemma PowerZero()
    ensures Pow2(0) == 1
  {
  }

  /** After 63 halvings a 64-bit reward is at most one. */
  lemma HalvedAway(initial: nat, n: nat)
    requires initial < U64
    ensures n == 63 ==> Halved(initial, n) / 2 == 0
    ensures Halved(initial, n + 1) == Halved(initial, n) / 2
  {
    if n == 63 {
      ShiftIsHalving(initial, 63);
      hide Pow2;
      PowerOf63();
    }
  }

  lemma PowerOf63()
    ensures Pow2(63) == 0x8000_0000_0000_0000
  {
    assert Pow2(7) == 128;
    Pow2Add(7, 7);
    Pow2Add(14, 7);
    Pow2Add(21, 21);
    Pow2Add(42, 21);
  }

  /** Sum of the first n halvings. */
  function HalvedSum(v: nat, n: nat): nat {
    if n == 0 then 0 else HalvedSum(v, n - 1) + Halved(v, n - 1)
  }

  lemma {:induction false} HalvedSumBound(v: nat, n: nat)
    ensures HalvedSum(v, n) + 2 * Halved(v, n) <= 2 * v
  {
    if n > 0 { HalvedSumBound(v, n - 1); }
  }

  lemma SubsidyAtMostHalved(height: nat, interval: nat, initial: nat)
    requires 0 < interval
    ensures Subsidy(height, interval, initial) <= Halved(initial, height / interval)
  {
    ShiftIsHalving(initial, height / interval);
  }

  /** The halved rewards of k full periods and r blocks of the next. */
  function Payout(interval: nat, k: nat, r: nat, initial: nat): nat {
    interval * HalvedSum(initial, k) + r * Halved(initial, k)
  }

  /** All full periods so far, plus the part of the current one. */
  lemma {:induction false} SumByPeriods(blocks: nat, interval: nat, initial: nat)
    requires 0 < interval
    ensures SubsidySum(blocks, interval, initial) <= Payout(interval, blocks / interval, blocks % interval, initial)
  {
    hide Payout, Subsidy, Halved;
    if blocks > 0 {
      SumByPeriods(blocks - 1, interval, initial);
      SubsidyAtMostHalved(blocks - 1, interval, initial);
      NextBlock(blocks - 1, interval);
      PayoutStep(interval, (blocks - 1) / interval, (blocks - 1) % interval, initial);
    }
  }

  lemma PayoutStep(interval: nat, k: nat, r: nat, initial: nat)
    ensures Payout(interval, k, r, initial) + Halved(initial, k) == Payout(interval, k, r + 1, initial)
    ensures Payout(interval, k, interval, initial) == Payout(interval, k + 1, 0, initial)
  {
    hide Halved, HalvedSum;
    NextHalvedSum(initial, k);
    PayoutArithmetic(interval, r, HalvedSum(initial, k), Halved(initial, k), Halved(initial, k + 1));
  }

  lemma NextHalvedSum(initial: nat, k: nat)
    ensures HalvedSum(initial, k + 1) == HalvedSum(initial, k) + Halved(initial, k)
  {
  }

  lemma PayoutArithmetic(interval: nat, r: nat, sum: nat, v: nat, next: nat)
    ensures interval * sum + r * v + v == interval * sum + (r + 1) * v
    ensures interval * sum + interval * v == interval * (sum + v) + 0 * next
  {
  }

  lemma NextBlock(n: nat, interval: nat)
    requires 0 < interval
    ensures n % interval + 1 == interval ==> (n + 1) / interval == n / interval + 1 && (n + 1) % interval == 0
    ensures n % interval + 1 < interval ==>
      (n + 1) / interval == n / interval && (n + 1) % interval == n % interval + 1
  {
    var k, r := n / interval, n % interval;
    if r + 1 == interval {
      assert n + 1 == (k + 1) * interval;
      DivUnique(n + 1, interval, k + 1);
    } else {
      DivUnique(n + 1, interval, k);
    }
  }

  /** However many blocks there are, the subsidies add up to at most twice the first period's. */
  lemma SubsidySumBound(blocks: nat, interval: nat, initial: nat)
    requires 0 < interval
    ensures SubsidySum(blocks, interval, initial) <= 2 * interval * initial
  {
    var k, r := blocks / interval, blocks % interval;
    SumByPeriods(blocks, interval, initial);
    HalvedSumBound(initial, k);
    BoundArithmetic(interval, r, HalvedSum(initial, k), Halved(initial, k), initial);
  }

  lemma BoundArithmetic(interval: nat, r: nat, sum: nat, v: nat, initial: nat)
    requires r <= interval && sum + 2 * v <= 2 * initial
    ensures interval * sum + r * v <= 2 * interval * initial
  {
    MulLe(r, interval, v);
    MulLe(sum + v, 2 * initial, interval);
  }

  /** Every block of the run claims at most the subsidy of its height, starting from genesis. */
  ghost predicate SubsidizedRun(steps: seq<Step>, interval: nat, initial: nat)
    requires 0 < interval
  {
    forall i :: 0 <= i < |steps| ==> steps[i].reward <= Subsidy(i, interval, initial)
  }

  lemma {:induction false} RewardsBelowSubsidies(steps: seq<Step>, interval: nat, initial: nat)
    requires 0 < interval && SubsidizedRun(steps, interval, initial)
    ensures Rewards(steps) <= SubsidySum(|steps|, interval, initial)
  {
    if steps != [] {
      var init := steps[..|steps| - 1];
      assert SubsidizedRun(init, interval, initial);
      RewardsBelowSubsidies(init, interval, initial);
    }
  }

  /** The supply cap: over every run of accounted blocks from an empty set whose rewards follow the
      subsidy schedule, the coins in existence never exceed 2 * interval * initial. */
  lemma SupplyCap(steps: seq<Step>, interval: nat, initial: nat)
    requires 0 < interval && AccountedRun(map[], steps) && SubsidizedRun(steps, interval, initial)
    ensures Total(After(map[], steps)) <= 2 * interval * initial
  {
    SupplyBoundedByRewards(map[], steps);
    RewardsBelowSubsidies(steps, interval, initial);
    SubsidySumBound(|steps|, interval, initial);
  }
}
