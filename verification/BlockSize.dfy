/** The adaptive block size limit (rusty-consensus/src/adaptive_block_size.rs). The two percentages are
    `f64` in the program and real numbers here. */
module BlockSize {
  import opened Arithmetic
  import opened Sorting

  datatype Params = Params(initial: nat, period: nat, growth: real, shrink: real, hardMax: nat, minMax: nat)

  /** Heights are checked modulo the period, so the program needs a period. */
  ghost predicate Usable(p: Params) {
    p.period > 0
  }

  /** The initial limit lies between the minimum and the hard cap, and shrinking is a fraction. */
  ghost predicate Sane(p: Params) {
    Usable(p) && p.minMax <= p.initial <= p.hardMax && 0.0 <= p.shrink <= 1.0
  }

  function Leq(): (nat, nat) -> bool {
    (a: nat, b: nat) => a <= b
  }

  /** The middle of a sorted list, or the rounded-down mean of its two middle elements. */
  function Middle(sorted: seq<nat>): nat
    requires sorted != []
  {
    var n := |sorted|;
    if n % 2 == 0 then (sorted[n / 2 - 1] + sorted[n / 2]) / 2 else sorted[n / 2]
  }

  function Median(p: Params, sizes: seq<nat>): nat {
    if sizes == [] then p.initial else
      var sorted := SortBy(Leq(), sizes);
      assert |sorted| == |multiset(sorted)| == |multiset(sizes)| == |sizes|;
      Middle(sorted)
  }

  /** The size that is number k (from zero) in order of size: at most k are smaller, more than k are not larger. */
  ghost predicate IsRank(sizes: seq<nat>, k: nat, x: nat) {
    CountIf(sizes, (y: nat) => y < x) <= k < CountIf(sizes, (y: nat) => y <= x)
  }

  /** Half way between the two middle sizes, which are one and the same in a window of odd length. */
  ghost predicate IsMedian(sizes: seq<nat>, m: nat) {
    exists low: nat, high: nat :: MiddleSizes(sizes, low, high) && m == (low + high) / 2
  }

  ghost predicate MiddleSizes(sizes: seq<nat>, low: nat, high: nat) {
    sizes != [] && IsRank(sizes, (|sizes| - 1) / 2, low) && IsRank(sizes, |sizes| / 2, high)
  }

  lemma RankUnique(sizes: seq<nat>, k: nat, x: nat, y: nat)
    requires IsRank(sizes, k, x) && IsRank(sizes, k, y)
    ensures x == y
  {
    if x < y {
      CountIfWeaker(sizes, (z: nat) => z <= x, (z: nat) => z < y);
    } else if y < x {
      CountIfWeaker(sizes, (z: nat) => z <= y, (z: nat) => z < x);
    }
  }

  /** A window has one median. */
  lemma MedianUnique(sizes: seq<nat>, m: nat, n: nat)
    requires IsMedian(sizes, m) && IsMedian(sizes, n)
    ensures m == n
  {
    hide IsRank;
    var lm: nat, hm: nat :| MiddleSizes(sizes, lm, hm) && m == (lm + hm) / 2;
    var ln: nat, hn: nat :| MiddleSizes(sizes, ln, hn) && n == (ln + hn) / 2;
    RankUnique(sizes, (|sizes| - 1) / 2, lm, ln);
    RankUnique(sizes, |sizes| / 2, hm, hn);
  }

  /** At least half of the window is no larger than its median, and at least half no smaller. */
  lemma MedianHalves(sizes: seq<nat>, m: nat)
    requires IsMedian(sizes, m)
    ensures 2 * CountIf(sizes, (y: nat) => y <= m) >= |sizes| && 2 * CountIf(sizes, (y: nat) => y >= m) >= |sizes|
  {
    var low: nat, high: nat :| MiddleSizes(sizes, low, high) && m == (low + high) / 2;
    if low > high {
      CountIfWeaker(sizes, (y: nat) => y <= high, (y: nat) => y < low);
    }
    CountIfWeaker(sizes, (y: nat) => y <= low, (y: nat) => y <= m);
    CountComplement(sizes, high);
    CountIfWeaker(sizes, (y: nat) => y >= high, (y: nat) => y >= m);
  }

  lemma {:induction false} CountComplement(sizes: seq<nat>, x: nat)
    ensures CountIf(sizes, (y: nat) => y < x) + CountIf(sizes, (y: nat) => y >= x) == |sizes|
  {
    if sizes != [] { CountComplement(sizes[1..], x); }
  }

  lemma SortedRank(sorted: seq<nat>, k: nat)
    requires Sorted(Leq(), sorted) && k < |sorted|
    ensures IsRank(sorted, k, sorted[k])
  {
    FewLess(sorted, k);
    EnoughAtMost(sorted, k);
  }

  lemma FewLess(sorted: seq<nat>, k: nat)
    requires Sorted(Leq(), sorted) && k < |sorted|
    ensures CountIf(sorted, (y: nat) => y < sorted[k]) <= k
  {
    hide CountIf;
    var less, low, high := (y: nat) => y < sorted[k], sorted[..k], sorted[k..];
    assert sorted == low + high;
    CountIfConcat(low, high, less);
    CountIfBounds(low, less);
    forall y | y in high ensures !less(y) {
      var i :| 0 <= i < |high| && high[i] == y;
      assert i > 0 ==> Leq()(sorted[k], sorted[k + i]);
    }
    CountIfBounds(high, less);
  }

  lemma EnoughAtMost(sorted: seq<nat>, k: nat)
    requires Sorted(Leq(), sorted) && k < |sorted|
    ensures CountIf(sorted, (y: nat) => y <= sorted[k]) > k
  {
    hide CountIf;
    var most, low, high := (y: nat) => y <= sorted[k], sorted[..k + 1], sorted[k + 1..];
    assert sorted == low + high;
    CountIfConcat(low, high, most);
    forall y | y in low ensures most(y) {
      var i :| 0 <= i < |low| && low[i] == y;
      assert i < k ==> Leq()(sorted[i], sorted[k]);
    }
    CountIfBounds(low, most);
  }

  lemma MedianIsMedian(p: Params, sizes: seq<nat>)
    requires sizes != []
    ensures IsMedian(sizes, Median(p, sizes))
  {
    hide IsRank, SortBy;
    var sorted, n := SortBy(Leq(), sizes), |sizes|;
    assert |sorted| == |multiset(sorted)| == |multiset(sizes)| == |sizes|;
    RankOfSorted(sizes, (n - 1) / 2);
    RankOfSorted(sizes, n / 2);
    assert MiddleSizes(sizes, sorted[(n - 1) / 2], sorted[n / 2]);
  }

  lemma LeqTotal()
    ensures TotalOrder(Leq())
  {
  }

  lemma RankOfSorted(sizes: seq<nat>, k: nat)
    requires k < |SortBy(Leq(), sizes)|
    ensures IsRank(sizes, k, SortBy(Leq(), sizes)[k])
  {
    var x := SortBy(Leq(), sizes)[k];
    LeqTotal();
    SortBySorted(Leq(), sizes);
    SortedRank(SortBy(Leq(), sizes), k);
    CountIfSorted(Leq(), sizes, (y: nat) => y < x);
    CountIfSorted(Leq(), sizes, (y: nat) => y <= x);
    hide SortBy, CountIf;
  }

  function Truncate(x: real): nat {
    if x < 0.0 then 0 else x.Floor
  }

  function Scaled(n: nat, factor: real): nat {
    Truncate(n as real * factor)
  }

  function PotentialLimit(p: Params, current: nat, median: nat): nat {
    if median > current then Scaled(median, 1.0 + p.growth)
    else if median < current then Scaled(median, 1.0 - p.shrink)
    else current
  }

  function HardLimits(p: Params, limit: nat): nat {
    var raised := if limit < p.minMax then p.minMax else limit;
    if raised > p.hardMax then p.hardMax else raised
  }

  /** x is n times the factor, rounded down, and zero if that is negative. */
  ghost predicate RoundedDown(x: nat, n: nat, factor: real) {
    var exact := n as real * factor;
    if exact < 0.0 then x == 0 else x as real <= exact < x as real + 1.0
  }

  /** The new limit in numbers: the median grown or shrunk by its percentage, rounded down, or the old limit
      if the median equals it; then raised to the minimum, then lowered to the hard cap. */
  lemma NewLimitMeaning(p: Params, current: nat, median: nat)
    ensures var x, limit := PotentialLimit(p, current, median), HardLimits(p, PotentialLimit(p, current, median));
      && (median > current ==> RoundedDown(x, median, 1.0 + p.growth))
      && (median < current ==> RoundedDown(x, median, 1.0 - p.shrink))
      && (median == current ==> x == current)
      && limit <= p.hardMax && (p.minMax <= p.hardMax ==> p.minMax <= limit)
      && (p.minMax <= x <= p.hardMax ==> limit == x)
      && (x < p.minMax <= p.hardMax ==> limit == p.minMax)
      && (p.hardMax < x ==> limit == p.hardMax)
      && (p.hardMax < p.minMax ==> limit == p.hardMax)
  {
  }

  /** The limit after the block of a given height was recorded. */
  function NextLimit(p: Params, sizes: seq<nat>, current: nat, height: nat): nat
    requires Usable(p)
  {
    if height == 0 || height % p.period != 0 then current
    else HardLimits(p, PotentialLimit(p, current, Median(p, sizes)))
  }

  /** The last `n` elements. */
  function LastOf(sizes: seq<nat>, n: nat): seq<nat> {
    if |sizes| <= n then sizes else sizes[|sizes| - n..]
  }

  class AdaptiveBlockSizeCalculator {
    const params: Params
    var sizes: seq<nat>
    var current: nat

    constructor (params: Params)
      ensures this.params == params && sizes == [] && current == params.initial
    {
      this.params, sizes, current := params, [], params.initial;
    }

    /** The window keeps the most recent sizes, at most one period of them. */
    method AddBlockSize(size: nat)
      modifies this`sizes
      ensures sizes == LastOf(old(sizes) + [size], params.period)
    {
      sizes := sizes + [size];
      ghost var all := sizes;
      while |sizes| > params.period
        invariant |sizes| <= |all| && sizes == all[|all| - |sizes|..]
        invariant |sizes| >= params.period || sizes == all
      {
        sizes := sizes[1..];
      }
    }

    method CalculateMedianBlockSize() returns (median: nat)
      ensures sizes == [] ==> median == params.initial
      ensures sizes != [] ==> IsMedian(sizes, median)
      ensures median == Median(params, sizes)
    {
      if sizes != [] { MedianIsMedian(params, sizes); }
      hide IsMedian;
      if sizes == [] { return params.initial; }
      var sorted := SortBy(Leq(), sizes);
      assert |sorted| == |multiset(sorted)| == |multiset(sizes)| == |sizes|;
      var n := |sorted|;
      if n % 2 == 0 {
        median := (sorted[n / 2 - 1] + sorted[n / 2]) / 2;
      } else {
        median := sorted[n / 2];
      }
    }

    method CalculateAdaptiveMaxBlockSize(height: nat) returns (limit: nat)
      requires Usable(params)
      modifies this`current
      ensures current == NextLimit(params, sizes, old(current), height)
      ensures limit == if height == 0 then params.initial else current
    {
      if height == 0 { return params.initial; }
      if height % params.period != 0 { return current; }
      var median := CalculateMedianBlockSize();
      current := HardLimits(params, PotentialLimit(params, current, median));
      return current;
    }

    method ValidateBlockSize(size: nat) returns (ok: bool)
      ensures ok <==> size <= current
    {
      return size <= current;
    }

    method UpdateWithBlock(size: nat, height: nat)
      requires Usable(params)
      modifies this
      ensures State(sizes, current) == Record(params, State(old(sizes), old(current)), size, height)
    {
      AddBlockSize(size);
      var _ := CalculateAdaptiveMaxBlockSize(height);
    }

    method Reset()
      modifies this
      ensures sizes == [] && current == params.initial
    {
      sizes, current := [], params.initial;
    }
  }

  // ----------------------------------------------------------------------------- runs

  datatype State = State(sizes: seq<nat>, current: nat)

  function Record(p: Params, s: State, size: nat, height: nat): State
    requires Usable(p)
  {
    var sizes := LastOf(s.sizes + [size], p.period);
    State(sizes, NextLimit(p, sizes, s.current, height))
  }

  /** Blocks of consecutive heights, recorded one after another. */
  function Run(p: Params, s: State, blocks: seq<nat>, height: nat): State
    requires Usable(p)
    decreases |blocks|
  {
    if blocks == [] then s else Run(p, Record(p, s, blocks[0], height), blocks[1..], height + 1)
  }

  /** Each block passes the size check before it is recorded. */
  ghost predicate Accepted(p: Params, s: State, blocks: seq<nat>, height: nat)
    requires Usable(p)
    decreases |blocks|
  {
    blocks == [] || (blocks[0] <= s.current && Accepted(p, Record(p, s, blocks[0], height), blocks[1..], height + 1))
  }

  /** How many blocks before this height belong to the adjustment window now filling. */
  ghost function SinceAdjustment(p: Params, height: nat): nat
    requires Usable(p)
  {
    if height == 0 then 0 else (height - 1) % p.period
  }

  ghost predicate AllWithin(sizes: seq<nat>, bound: nat) {
    forall i :: 0 <= i < |sizes| ==> sizes[i] <= bound
  }

  /** The limit is in bounds and the window now filling holds only blocks accepted under it. */
  ghost predicate Invariant(p: Params, s: State, height: nat)
    requires Usable(p)
  {
    && p.minMax <= s.current <= p.hardMax
    && |s.sizes| <= p.period
    && AllWithin(LastOf(s.sizes, SinceAdjustment(p, height)), s.current)
  }

  lemma MedianWithin(p: Params, sizes: seq<nat>, bound: nat)
    requires sizes != [] && AllWithin(sizes, bound)
    ensures Median(p, sizes) <= bound
  {
    var sorted := SortBy(Leq(), sizes);
    forall i | 0 <= i < |sorted| ensures sorted[i] <= bound {
      assert sorted[i] in multiset(sorted);
      assert sorted[i] in multiset(sizes);
    }
    assert |sorted| == |multiset(sorted)| == |multiset(sizes)| == |sizes|;
  }

  lemma ShrinkBelow(median: nat, shrink: real)
    requires 0.0 <= shrink <= 1.0
    ensures Scaled(median, 1.0 - shrink) <= median
  {
    var x := median as real * (1.0 - shrink);
    ProductNonNegative(median as real, shrink);
    assert x == median as real - median as real * shrink;
    assert x <= median as real;
  }

  /** With the whole window within the limit, the growth branch is not taken and the limit cannot rise. */
  lemma AdjustmentNeverRaises(p: Params, sizes: seq<nat>, current: nat)
    requires Sane(p) && p.minMax <= current <= p.hardMax && sizes != [] && AllWithin(sizes, current)
    ensures Median(p, sizes) <= current
    ensures p.minMax <= HardLimits(p, PotentialLimit(p, current, Median(p, sizes))) <= current
  {
    hide Scaled, Median;
    MedianWithin(p, sizes, current);
    ShrinkBelow(Median(p, sizes), p.shrink);
  }

  lemma RecordKeeps(p: Params, s: State, size: nat, height: nat)
    requires Sane(p) && Invariant(p, s, height) && size <= s.current
    ensures Invariant(p, Record(p, s, size, height), height + 1)
    ensures Record(p, s, size, height).current <= s.current
  {
    hide Median, PotentialLimit, HardLimits;
    var r := Record(p, s, size, height);
    WindowStep(p, s, size, height);
    if height != 0 && height % p.period == 0 {
      AdjustmentNeverRaises(p, r.sizes, s.current);
    }
  }

  lemma WindowStep(p: Params, s: State, size: nat, height: nat)
    requires Usable(p) && Invariant(p, s, height) && size <= s.current
    ensures var sizes := LastOf(s.sizes + [size], p.period);
      && sizes != [] && |sizes| <= p.period
      && (height != 0 && height % p.period == 0 ==> AllWithin(sizes, s.current))
      && (height == 0 || height % p.period != 0 ==> AllWithin(LastOf(sizes, SinceAdjustment(p, height + 1)), s.current))
      && (height % p.period == 0 ==> SinceAdjustment(p, height + 1) == 0)
  {
    if height != 0 {
      var k := SinceAdjustment(p, height);
      NextRemainder(height, p.period);
      LastOfPushed(s.sizes, size, p.period, k);
    }
  }

  /** Pushing an element onto a window shifts it into the recent part. */
  lemma LastOfPushed(sizes: seq<nat>, x: nat, n: nat, k: nat)
    requires |sizes| <= n && k < n
    ensures LastOf(LastOf(sizes + [x], n), k + 1) == LastOf(sizes, k) + [x]
  {
  }

  lemma NextRemainder(height: nat, period: nat)
    requires height > 0 && period > 0
    ensures height % period != 0 ==> height % period == (height - 1) % period + 1
    ensures height % period == 0 ==> (height - 1) % period == period - 1
  {
    var q, r := (height - 1) / period, (height - 1) % period;
    assert height == q * period + (r + 1);
    if r + 1 < period {
      ModUnique(period, height, q, r + 1);
    } else {
      assert height == (q + 1) * period;
      ModUnique(period, height, q + 1, 0);
    }
  }

  /** Over every run of accepted blocks at consecutive heights, from any point reached that way, the
      limit stays between the minimum and the hard cap and never increases: the growth the design
      provides for cannot happen. */
  lemma {:induction false} LimitNeverIncreases(p: Params, s: State, blocks: seq<nat>, height: nat)
    requires Sane(p) && Invariant(p, s, height) && Accepted(p, s, blocks, height)
    ensures Invariant(p, Run(p, s, blocks, height), height + |blocks|)
    ensures p.minMax <= Run(p, s, blocks, height).current <= s.current
    decreases |blocks|
  {
    if blocks != [] {
      RecordKeeps(p, s, blocks[0], height);
      LimitNeverIncreases(p, Record(p, s, blocks[0], height), blocks[1..], height + 1);
    }
  }

  /** A fresh or reset calculator starts such a run at any height, and stays at or below the initial limit. */
  lemma FreshRunBelowInitial(p: Params, blocks: seq<nat>, height: nat)
    requires Sane(p) && Accepted(p, State([], p.initial), blocks, height)
    ensures p.minMax <= Run(p, State([], p.initial), blocks, height).current <= p.initial
  {
    LimitNeverIncreases(p, State([], p.initial), blocks, height);
  }
}
