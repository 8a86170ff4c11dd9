/** Feldman secret sharing and threshold aggregation (rusty-crypto/src/dkg.rs).
    Scalars are residues modulo the group order p; a group element is the discrete
    logarithm of the point, so scalar multiplication is multiplication modulo p. */
module Dkg {
  import opened Arithmetic
  import opened Wrappers
  import opened PrimeField
  import opened Sorting

  /** The group order: a prime above every 32-bit participant index. */
  ghost predicate GroupOrder(p: int) {
    IsPrime(p) && U32 <= p
  }

  predicate IsU32(i: int) { 0 <= i < U32 }

  ghost predicate Indices(xs: seq<int>) {
    forall i :: 0 <= i < |xs| ==> IsU32(xs[i])
  }

  // ---------------------------------------------------------------- polynomials

  /** The polynomial with coefficients c (constant term first) at x. */
  function Eval(c: seq<int>, x: int): int {
    if c == [] then 0 else c[0] + x * Eval(c[1..], x)
  }

  function Pow(x: int, n: nat): int {
    if n == 0 then 1 else x * Pow(x, n - 1)
  }

  /** The sum the evaluation loop accumulates: coefficient k times x^(n+k). */
  function PowerSum(c: seq<int>, x: int, n: nat): int {
    if c == [] then 0 else c[0] * Pow(x, n) + PowerSum(c[1..], x, n + 1)
  }

  lemma {:induction false} PowerSumIsEval(c: seq<int>, x: int, n: nat)
    ensures PowerSum(c, x, n) == Pow(x, n) * Eval(c, x)
  {
    if c != [] {
      PowerSumIsEval(c[1..], x, n + 1);
      calc {
        PowerSum(c, x, n);
        c[0] * Pow(x, n) + (x * Pow(x, n)) * Eval(c[1..], x);
        Pow(x, n) * (c[0] + x * Eval(c[1..], x));
      }
    }
  }

  lemma {:induction false} PowerSumSnoc(c: seq<int>, a: int, x: int, n: nat)
    ensures PowerSum(c + [a], x, n) == PowerSum(c, x, n) + a * Pow(x, n + |c|)
  {
    if c == [] {
      assert c + [a] == [a];
      assert PowerSum([a], x, n) == a * Pow(x, n) + PowerSum([a][1..], x, n + 1);
    } else {
      assert (c + [a])[1..] == c[1..] + [a];
      PowerSumSnoc(c[1..], a, x, n + 1);
    }
  }

  /** Synthetic division: the quotient of c by (X - a). */
  function Quotient(c: seq<int>, a: int): (q: seq<int>)
    ensures |q| == if c == [] then 0 else |c| - 1
  {
    if |c| <= 1 then [] else [Eval(c[1..], a)] + Quotient(c[1..], a)
  }

  lemma DivisionStep(c0: int, x: int, a: int, e: int, q: int)
    ensures c0 + x * (e + (x - a) * q) == (c0 + a * e) + (x - a) * (e + x * q)
  {
    assert (x - a) * (e + x * q) == (x - a) * e + x * ((x - a) * q);
  }

  lemma {:induction false} QuotientCorrect(c: seq<int>, a: int, x: int)
    ensures Eval(c, x) == Eval(c, a) + (x - a) * Eval(Quotient(c, a), x)
  {
    if |c| <= 1 {
      if |c| == 1 { assert c[1..] == []; }
    } else {
      var t := c[1..];
      QuotientCorrect(t, a, x);
      var e, q := Eval(t, a), Eval(Quotient(t, a), x);
      assert Quotient(c, a)[1..] == Quotient(t, a);
      assert Eval(Quotient(c, a), x) == e + x * q;
      DivisionStep(c[0], x, a, e, q);
    }
  }

  // ------------------------------------------------------------ Lagrange weights

  /** One factor of the weight of target: index / (index - target), or 1 for the target itself. */
  ghost function Factor(p: int, index: int, target: int): int
    requires IsPrime(p)
  {
    if index == target then 1 else index * Inv(p, index - target)
  }

  /** The interpolation weight at 0 of target among xs. */
  ghost function Weight(p: int, xs: seq<int>, target: int): int
    requires IsPrime(p)
  {
    if xs == [] then 1 else Factor(p, xs[0], target) * Weight(p, xs[1..], target)
  }

  /** Sum over x in ys of f(x) times the weight of x among xs. */
  ghost function Weighted(p: int, f: int -> int, xs: seq<int>, ys: seq<int>): int
    requires IsPrime(p)
  {
    if ys == [] then 0 else f(ys[0]) * Weight(p, xs, ys[0]) + Weighted(p, f, xs, ys[1..])
  }

  ghost function One(): int -> int { x => 1 }

  ghost function Line(a: int): int -> int { x => x - a }

  ghost function Polynomial(c: seq<int>): int -> int { x => Eval(c, x) }

  lemma IndexDifference(p: int, x: int, y: int)
    requires GroupOrder(p) && IsU32(x) && IsU32(y) && x != y
    ensures (x - y) % p != 0
  {
    if (x - y) % p == 0 {
      var k := CongElim(p, x, y);
      SmallMultiple(p, k);
    }
  }

  lemma LinearStep(m: int, gx: int, hx: int, w: int, u: int, v: int)
    ensures (m * gx + hx) * w + (m * u + v) == m * (gx * w + u) + (hx * w + v)
  {
    assert (m * gx + hx) * w == m * (gx * w) + hx * w;
  }

  lemma Distribute(m: int, a: int, b: int)
    ensures m * a + m * b == m * (a + b)
  {
  }

  lemma HeadStep(p: int, x: int, a: int, gx: int, i: int, w: int)
    requires 0 < p && Cong(p, (a - x) * i, 1)
    ensures Cong(p, ((x - a) * gx) * (a * i * w), -a * (gx * w))
  {
    hide Cong;
    CongScale(p, -a * (gx * w), (a - x) * i, 1);
    calc {
      ((x - a) * gx) * (a * i * w);
      (a * i) * ((x - a) * (gx * w));
      (-a * (gx * w)) * ((a - x) * i);
    }
  }

  lemma {:induction false} WeightedLinear(p: int, f: int -> int, g: int -> int, h: int -> int,
                                          m: int, xs: seq<int>, ys: seq<int>)
    requires IsPrime(p)
    requires forall x :: f(x) == m * g(x) + h(x)
    ensures Weighted(p, f, xs, ys) == m * Weighted(p, g, xs, ys) + Weighted(p, h, xs, ys)
  {
    if ys != [] {
      WeightedLinear(p, f, g, h, m, xs, ys[1..]);
      var x, w := ys[0], Weight(p, xs, ys[0]);
      var u, v := Weighted(p, g, xs, ys[1..]), Weighted(p, h, xs, ys[1..]);
      LinearStep(m, g(x), h(x), w, u, v);
    }
  }

  /** With the root at the head a, the head drops out: (x - a) times the weight of x
      among [a] + rest is -a times its weight among rest. */
  lemma {:induction false} HeadDropsOut(p: int, f: int -> int, g: int -> int, a: int,
                                        rest: seq<int>, ys: seq<int>)
    requires GroupOrder(p) && IsU32(a) && Indices(ys) && a !in ys
    requires forall x :: f(x) == (x - a) * g(x)
    ensures Cong(p, Weighted(p, f, [a] + rest, ys), -a * Weighted(p, g, rest, ys))
  {
    hide Cong;
    if ys == [] {
      CongRefl(p, 0);
    } else {
      var x, tail := ys[0], ys[1..];
      HeadDropsOut(p, f, g, a, rest, tail);
      var w := Weight(p, rest, x);
      assert ([a] + rest)[1..] == rest;
      assert Weight(p, [a] + rest, x) == a * Inv(p, a - x) * w;
      IndexDifference(p, a, x);
      var i := Inv(p, a - x);
      InvCorrect(p, a - x);
      HeadStep(p, x, a, g(x), i, w);
      CongAdd(p, ((x - a) * g(x)) * (a * i * w), -a * (g(x) * w),
              Weighted(p, f, [a] + rest, tail), -a * Weighted(p, g, rest, tail));
      Distribute(-a, g(x) * w, Weighted(p, g, rest, tail));
    }
  }

  /** The same over the whole list: the head's own term vanishes because f has a root there. */
  lemma RootAtHead(p: int, f: int -> int, g: int -> int, a: int, rest: seq<int>)
    requires GroupOrder(p) && IsU32(a) && Indices(rest) && a !in rest
    requires forall x :: f(x) == (x - a) * g(x)
    ensures Cong(p, Weighted(p, f, [a] + rest, [a] + rest), -a * Weighted(p, g, rest, rest))
  {
    hide Cong;
    HeadDropsOut(p, f, g, a, rest, rest);
    assert ([a] + rest)[1..] == rest;
    assert f(a) == 0 * g(a);
  }

  lemma {:induction false} WeightSwap(p: int, a: int, b: int, xs: seq<int>, t: int)
    requires IsPrime(p)
    ensures Weight(p, [a, b] + xs, t) == Weight(p, [b, a] + xs, t)
  {
    WeightTwo(p, a, b, xs, t);
    WeightTwo(p, b, a, xs, t);
  }

  lemma WeightTwo(p: int, a: int, b: int, xs: seq<int>, t: int)
    requires IsPrime(p)
    ensures Weight(p, [a, b] + xs, t) == Factor(p, a, t) * Factor(p, b, t) * Weight(p, xs, t)
  {
    hide Inv;
    assert ([a, b] + xs)[1..] == [b] + xs;
    assert ([b] + xs)[1..] == xs;
  }

  lemma {:induction false} WeightedSwap(p: int, f: int -> int, a: int, b: int, xs: seq<int>, ys: seq<int>)
    requires IsPrime(p)
    ensures Weighted(p, f, [a, b] + xs, ys) == Weighted(p, f, [b, a] + xs, ys)
  {
    if ys != [] {
      WeightSwap(p, a, b, xs, ys[0]);
      WeightedSwap(p, f, a, b, xs, ys[1..]);
    }
  }

  /** Exchanging the first two indices does not change the weighted sum. */
  lemma SwapFirstTwo(p: int, f: int -> int, a: int, b: int, xs: seq<int>)
    requires IsPrime(p)
    ensures Weighted(p, f, [a, b] + xs, [a, b] + xs) == Weighted(p, f, [b, a] + xs, [b, a] + xs)
  {
    var u, v := [a, b] + xs, [b, a] + xs;
    WeightedSwap(p, f, a, b, xs, u);
    assert u[1..] == [b] + xs && ([b] + xs)[1..] == xs;
    assert v[1..] == [a] + xs && ([a] + xs)[1..] == xs;
    assert Weighted(p, f, v, u) == f(a) * Weight(p, v, a) + (f(b) * Weight(p, v, b) + Weighted(p, f, v, xs));
    assert Weighted(p, f, v, v) == f(b) * Weight(p, v, b) + (f(a) * Weight(p, v, a) + Weighted(p, f, v, xs));
  }

  lemma CancelDifference(p: int, m: int, a: int, b: int, s: int, sa: int, sb: int)
    requires IsPrime(p) && m == b - a && m % p != 0
    requires sa == m * s + sb && Cong(p, sa, -a) && Cong(p, sb, -b)
    ensures Cong(p, s, 1)
  {
    assert 0 < p;
    hide Cong, IsPrime;
    CongSub(p, sa, -a, sb, -b);
    assert sa - sb == m * s && -a - -b == m * 1;
    CongCancel(p, m, s, 1);
  }

  /** The weights of any non-empty list of distinct indices sum to 1. */
  lemma {:induction false} WeightsSumToOne(p: int, xs: seq<int>)
    requires GroupOrder(p) && Indices(xs) && NoDuplicates(xs) && xs != []
    ensures Cong(p, Weighted(p, One(), xs, xs), 1)
    decreases |xs|, 0
  {
    hide Cong;
    if |xs| == 1 {
      assert xs[1..] == [];
      assert Weight(p, xs, xs[0]) == Factor(p, xs[0], xs[0]) * Weight(p, xs[1..], xs[0]);
      assert Weighted(p, One(), xs, xs) == One()(xs[0]) * 1 + Weighted(p, One(), xs, xs[1..]);
      CongRefl(p, 1);
    } else {
      var a, b, zs := xs[0], xs[1], xs[2..];
      assert xs == [a, b] + zs;
      SumOfRootedLine(p, a, [b] + zs);
      SumOfRootedLine(p, b, [a] + zs);
      var fa, fb := Line(a), Line(b);
      assert [a] + ([b] + zs) == xs;
      assert [b] + ([a] + zs) == [b, a] + zs;
      SwapFirstTwo(p, fb, a, b, zs);
      WeightedLinear(p, fa, One(), fb, b - a, xs, xs);
      IndexDifference(p, b, a);
      CancelDifference(p, b - a, a, b, Weighted(p, One(), xs, xs), Weighted(p, fa, xs, xs), Weighted(p, fb, xs, xs));
    }
  }

  lemma {:induction false} SumOfRootedLine(p: int, a: int, rest: seq<int>)
    requires GroupOrder(p) && IsU32(a) && Indices(rest) && NoDuplicates([a] + rest) && rest != []
    ensures Cong(p, Weighted(p, Line(a), [a] + rest, [a] + rest), -a)
    decreases |rest|, 1
  {
    hide Cong;
    TailFacts(a, rest);
    RootAtHead(p, Line(a), One(), a, rest);
    WeightsSumToOne(p, rest);
    CongScale(p, -a, Weighted(p, One(), rest, rest), 1);
    CongTrans(p, Weighted(p, Line(a), [a] + rest, [a] + rest),
              -a * Weighted(p, One(), rest, rest), -a * 1);
  }

  lemma TailFacts(a: int, rest: seq<int>)
    requires NoDuplicates([a] + rest)
    ensures NoDuplicates(rest) && a !in rest
  {
    var xs := [a] + rest;
    forall i, j | 0 <= i < j < |rest| ensures rest[i] != rest[j] {
      assert xs[i + 1] != xs[j + 1];
    }
    forall i | 0 <= i < |rest| ensures rest[i] != a {
      assert xs[0] != xs[i + 1];
    }
  }

  lemma CombineParts(p: int, e: int, w: int, wh: int, a: int, wg: int, q: int)
    requires 0 < p && Cong(p, w, 1) && Cong(p, wh, -a * wg) && Cong(p, wg, q)
    ensures Cong(p, e * w + wh, e + (0 - a) * q)
  {
    hide Cong;
    CongScale(p, e, w, 1);
    CongScale(p, -a, wg, q);
    CongTrans(p, wh, -a * wg, -a * q);
    CongAdd(p, e * w, e * 1, wh, -a * q);
  }

  /** The induction step: divide by (X - a) and drop a. */
  lemma InterpolationStep(p: int, c: seq<int>, a: int, rest: seq<int>)
    requires GroupOrder(p) && IsU32(a) && Indices(rest) && NoDuplicates([a] + rest)
    requires Cong(p, Weighted(p, Polynomial(Quotient(c, a)), rest, rest), Eval(Quotient(c, a), 0))
    ensures Cong(p, Weighted(p, Polynomial(c), [a] + rest, [a] + rest), Eval(c, 0))
  {
    hide Cong, IsPrime, Weighted, Eval, Quotient;
    var xs, q := [a] + rest, Quotient(c, a);
    TailFacts(a, rest);
    var h := (x: int) => (x - a) * Eval(q, x);
    forall x ensures Polynomial(c)(x) == Eval(c, a) * One()(x) + h(x) { QuotientCorrect(c, a, x); }
    WeightedLinear(p, Polynomial(c), One(), h, Eval(c, a), xs, xs);
    WeightsSumToOne(p, xs);
    RootAtHead(p, h, Polynomial(q), a, rest);
    CombineParts(p, Eval(c, a), Weighted(p, One(), xs, xs), Weighted(p, h, xs, xs), a,
                 Weighted(p, Polynomial(q), rest, rest), Eval(q, 0));
    QuotientCorrect(c, a, 0);
  }

  /** Interpolation: any |xs| distinct shares of a polynomial with at most |xs|
      coefficients, weighted by the Lagrange weights, give its constant term. */
  lemma {:induction false} InterpolationAtZero(p: int, c: seq<int>, xs: seq<int>)
    requires GroupOrder(p) && Indices(xs) && NoDuplicates(xs) && |c| <= |xs|
    ensures Cong(p, Weighted(p, Polynomial(c), xs, xs), Eval(c, 0))
    decreases |xs|
  {
    if xs == [] {
      CongRefl(p, 0);
    } else {
      var a, rest := xs[0], xs[1..];
      assert xs == [a] + rest;
      TailFacts(a, rest);
      InterpolationAtZero(p, Quotient(c, a), rest);
      InterpolationStep(p, c, a, rest);
    }
  }

  // -------------------------------------------------- the weights used by aggregation

  function Sign(n: nat): int { if n % 2 == 0 then 1 else -1 }

  /** The factor written inside the aggregation loop, with the difference the other way round. */
  ghost function InlineFactor(p: int, index: int, target: int): int
    requires IsPrime(p)
  {
    if index == target then 1 else index * Inv(p, target - index)
  }

  ghost function InlineWeight(p: int, xs: seq<int>, target: int): int
    requires IsPrime(p)
  {
    if xs == [] then 1 else InlineFactor(p, xs[0], target) * InlineWeight(p, xs[1..], target)
  }

  /** How many entries differ from the target. */
  function Others(xs: seq<int>, target: int): nat {
    if xs == [] then 0 else (if xs[0] == target then 0 else 1) + Others(xs[1..], target)
  }

  lemma Negate(a: int, b: int, j: int)
    ensures (b - a) * j == (a - b) * -j == -1 * ((a - b) * j)
  {
  }

  lemma InlineFactorSign(p: int, index: int, target: int)
    requires GroupOrder(p) && IsU32(index) && IsU32(target)
    ensures Cong(p, InlineFactor(p, index, target), (if index == target then 1 else -1) * Factor(p, index, target))
  {
    hide Cong;
    if index == target {
      CongRefl(p, 1);
    } else {
      IndexDifference(p, index, target);
      IndexDifference(p, target, index);
      var i, j := Inv(p, target - index), Inv(p, index - target);
      InvCorrect(p, target - index);
      InvCorrect(p, index - target);
      Negate(target, index, j);
      InverseUnique(p, target - index, i, -j);
      CongScale(p, index, i, -j);
      Negate(0, -index, j);
    }
  }

  /** The inlined weight is the Lagrange weight times -1 for every other index. */
  lemma {:induction false} InlineWeightSign(p: int, xs: seq<int>, target: int)
    requires GroupOrder(p) && Indices(xs) && IsU32(target)
    ensures Cong(p, InlineWeight(p, xs, target), Sign(Others(xs, target)) * Weight(p, xs, target))
  {
    hide Cong;
    if xs == [] {
      CongRefl(p, 1);
    } else {
      InlineWeightSign(p, xs[1..], target);
      InlineFactorSign(p, xs[0], target);
      var e := if xs[0] == target then 1 else -1;
      var f, w, n := Factor(p, xs[0], target), Weight(p, xs[1..], target), Sign(Others(xs[1..], target));
      CongMul(p, InlineFactor(p, xs[0], target), e * f, InlineWeight(p, xs[1..], target), n * w);
      assert Sign(Others(xs, target)) == e * n;
      RegroupProduct(e, f, n, w);
    }
  }

  lemma RegroupProduct(e: int, f: int, n: int, w: int)
    ensures (e * f) * (n * w) == (e * n) * (f * w)
  {
  }

  lemma RegroupSwapped(h: int, e: int, n: int, w: int)
    ensures (h * e) * (n * w) == (n * h) * (e * w)
  {
    RegroupProduct(h, e, n, w);
  }

  lemma {:induction false} OthersOfDistinct(xs: seq<int>, target: int)
    requires NoDuplicates(xs)
    ensures Others(xs, target) == if target in xs then |xs| - 1 else |xs|
  {
    if xs != [] {
      assert xs == [xs[0]] + xs[1..];
      TailFacts(xs[0], xs[1..]);
      OthersOfDistinct(xs[1..], target);
    }
  }

  /** What the aggregation loop adds up over the shares (index, point). */
  ghost function Aggregate(p: int, xs: seq<int>, shares: seq<(int, int)>): int
    requires IsPrime(p)
  {
    if shares == [] then 0
    else shares[0].1 * InlineWeight(p, xs, shares[0].0) + Aggregate(p, xs, shares[1..])
  }

  function IndicesOf(shares: seq<(int, int)>): (xs: seq<int>)
    ensures |xs| == |shares| && forall i :: 0 <= i < |xs| ==> xs[i] == shares[i].0
  {
    seq(|shares|, i requires 0 <= i < |shares| => shares[i].0)
  }

  /** Every share is h times the value of the polynomial c at its index. */
  ghost predicate SharesOf(p: int, c: seq<int>, h: int, shares: seq<(int, int)>)
    requires 0 < p
  {
    forall i :: 0 <= i < |shares| ==> Cong(p, shares[i].1, h * Eval(c, shares[i].0))
  }

  lemma {:induction false} AggregateSign(p: int, c: seq<int>, h: int, xs: seq<int>, shares: seq<(int, int)>)
    requires GroupOrder(p) && Indices(xs) && NoDuplicates(xs)
    requires SharesOf(p, c, h, shares) && forall i :: 0 <= i < |shares| ==> shares[i].0 in xs
    ensures Cong(p, Aggregate(p, xs, shares),
                 (Sign(|xs| + 1) * h) * Weighted(p, Polynomial(c), xs, IndicesOf(shares)))
  {
    hide Cong;
    var m := Sign(|xs| + 1) * h;
    if shares == [] {
      CongRefl(p, 0);
    } else {
      var (x, y) := shares[0];
      var tail := shares[1..];
      assert forall i :: 0 <= i < |tail| ==> tail[i] == shares[i + 1];
      AggregateSign(p, c, h, xs, tail);
      assert IndicesOf(shares)[1..] == IndicesOf(tail);
      assert x in xs;
      InlineWeightSign(p, xs, x);
      OthersOfDistinct(xs, x);
      assert Sign(Others(xs, x)) == Sign(|xs| + 1);
      var w, e := Weight(p, xs, x), Eval(c, x);
      CongMul(p, y, h * e, InlineWeight(p, xs, x), Sign(|xs| + 1) * w);
      RegroupSwapped(h, e, Sign(|xs| + 1), w);
      CongAdd(p, y * InlineWeight(p, xs, x), m * (e * w),
              Aggregate(p, xs, tail), m * Weighted(p, Polynomial(c), xs, IndicesOf(tail)));
      Distribute(m, e * w, Weighted(p, Polynomial(c), xs, IndicesOf(tail)));
    }
  }

  /** Aggregating k shares of a polynomial with at most k coefficients gives the
      signature under its constant term, negated when k is even. */
  lemma AggregateShares(p: int, c: seq<int>, h: int, shares: seq<(int, int)>)
    requires GroupOrder(p) && Indices(IndicesOf(shares)) && NoDuplicates(IndicesOf(shares))
    requires SharesOf(p, c, h, shares) && |c| <= |shares|
    ensures Cong(p, Aggregate(p, IndicesOf(shares), shares), Sign(|shares| + 1) * (h * Eval(c, 0)))
  {
    hide Cong;
    var xs := IndicesOf(shares);
    forall i | 0 <= i < |shares| ensures shares[i].0 in xs { assert xs[i] == shares[i].0; }
    AggregateSign(p, c, h, xs, shares);
    InterpolationAtZero(p, c, xs);
    var m := Sign(|shares| + 1) * h;
    CongScale(p, m, Weighted(p, Polynomial(c), xs, xs), Eval(c, 0));
    CongTrans(p, Aggregate(p, xs, shares), m * Weighted(p, Polynomial(c), xs, xs), m * Eval(c, 0));
    Associate(Sign(|shares| + 1), h, Eval(c, 0));
  }

  lemma Associate(a: int, b: int, c: int)
    ensures (a * b) * c == a * (b * c)
  {
  }

  // -------------------------------------------------------------------- the operations

  /** The evaluation loop of generate_secret_shares. */
  method EvaluateShare(p: int, coefficients: seq<int>, index: int) returns (share: int)
    requires GroupOrder(p) && IsU32(index)
    ensures 0 <= share < p && Cong(p, share, Eval(coefficients, index))
  {
    share := 0;
    var xPower := 1;
    CongRefl(p, 0);
    CongRefl(p, 1);
    for k := 0 to |coefficients|
      invariant 0 <= share < p
      invariant Cong(p, xPower, Pow(index, k))
      invariant Cong(p, share, PowerSum(coefficients[..k], index, 0))
    {
      var a := coefficients[k];
      assert coefficients[..k + 1] == coefficients[..k] + [a];
      PowerSumSnoc(coefficients[..k], a, index, 0);
      CongScale(p, a, xPower, Pow(index, k));
      CongAdd(p, share, PowerSum(coefficients[..k], index, 0), a * xPower, a * Pow(index, k));
      CongMod(p, share + a * xPower);
      CongTrans(p, (share + a * xPower) % p, share + a * xPower, PowerSum(coefficients[..k + 1], index, 0));
      share := (share + a * xPower) % p;
      CongScale(p, index, xPower, Pow(index, k));
      CongMod(p, xPower * index);
      CongTrans(p, (xPower * index) % p, index * xPower, Pow(index, k + 1));
      xPower := (xPower * index) % p;
    }
    assert coefficients[..|coefficients|] == coefficients;
    PowerSumIsEval(coefficients, index, 0);
  }

  datatype SessionState =
    | WaitingForParticipants | CommitmentPhase | ShareDistribution
    | ComplaintPhase | JustificationPhase | Completed | Failed

  datatype SecretShare = SecretShare(from: int, to: int, value: int)

  /** generate_commitments: the random coefficients are a parameter, one per unit of threshold. */
  method GenerateCommitments(p: int, generator: int, state: SessionState, coefficients: seq<int>)
    returns (r: Result<seq<int>>)
    requires GroupOrder(p)
    ensures r.Ok? <==> state == CommitmentPhase
    ensures r.Ok? ==> |r.value| == |coefficients| && Commits(p, generator, coefficients, r.value)
  {
    if state != CommitmentPhase {
      return Err("invalid session state");
    }
    var commitments := [];
    for k := 0 to |coefficients|
      invariant |commitments| == k
      invariant Commits(p, generator, coefficients[..k], commitments)
    {
      CongMod(p, generator * coefficients[k]);
      commitments := commitments + [(generator * coefficients[k]) % p];
    }
    assert coefficients[..|coefficients|] == coefficients;
    return Ok(commitments);
  }

  /** The commitments are the generator times the coefficients. */
  ghost predicate Commits(p: int, generator: int, coefficients: seq<int>, commitments: seq<int>)
    requires 0 < p
  {
    |commitments| == |coefficients|
    && forall k :: 0 <= k < |commitments| ==> Cong(p, commitments[k], generator * coefficients[k])
  }

  const PUBLIC_KEY_LENGTH: nat := 32

  ghost predicate Encryptable(participants: seq<int>, keyLengths: seq<nat>, dealer: int)
    requires |keyLengths| == |participants|
  {
    forall k :: 0 <= k < |participants| && participants[k] != dealer ==> keyLengths[k] == PUBLIC_KEY_LENGTH
  }

  /** generate_secret_shares: one share for every participant but the dealer, in order. Encryption fails
      on a public key of the wrong length. */
  method GenerateSecretShares(p: int, dealer: int, state: SessionState, participants: seq<int>, keyLengths: seq<nat>,
                              coefficients: seq<int>)
    returns (r: Result<seq<SecretShare>>)
    requires GroupOrder(p) && Indices(participants) && |keyLengths| == |participants|
    ensures r.Ok? <==> state == ShareDistribution && Encryptable(participants, keyLengths, dealer)
    ensures r.Ok? ==> Recipients(r.value) == Without(participants, dealer)
    ensures r.Ok? ==> forall k :: 0 <= k < |r.value| ==>
      r.value[k].from == dealer && 0 <= r.value[k].value < p
      && Cong(p, r.value[k].value, Eval(coefficients, r.value[k].to))
  {
    if state != ShareDistribution {
      return Err("invalid session state");
    }
    var shares: seq<SecretShare> := [];
    for k := 0 to |participants|
      invariant forall i :: 0 <= i < k && participants[i] != dealer ==> keyLengths[i] == PUBLIC_KEY_LENGTH
      invariant Recipients(shares) == Without(participants[..k], dealer)
      invariant forall i :: 0 <= i < |shares| ==>
        shares[i].from == dealer && 0 <= shares[i].value < p
        && Cong(p, shares[i].value, Eval(coefficients, shares[i].to))
    {
      assert participants[..k + 1][..k] == participants[..k];
      if participants[k] != dealer {
        var share := EvaluateShare(p, coefficients, participants[k]);
        if keyLengths[k] != PUBLIC_KEY_LENGTH {
          return Err("failed to encrypt share");
        }
        var item := SecretShare(dealer, participants[k], share);
        assert Recipients(shares + [item]) == Recipients(shares) + [participants[k]];
        shares := shares + [item];
      }
    }
    assert participants[..|participants|] == participants;
    return Ok(shares);
  }

  function Recipients(shares: seq<SecretShare>): (xs: seq<int>)
    ensures |xs| == |shares| && forall i :: 0 <= i < |xs| ==> xs[i] == shares[i].to
  {
    seq(|shares|, i requires 0 <= i < |shares| => shares[i].to)
  }

  /** The list without one index. */
  ghost function Without(xs: seq<int>, x: int): seq<int> {
    if xs == [] then []
    else Without(xs[..|xs| - 1], x) + (if xs[|xs| - 1] == x then [] else [xs[|xs| - 1]])
  }

  /** verify_secret_share_consistency: the Feldman check of a share against commitments. */
  method VerifyShareConsistency(p: int, generator: int, share: int, index: int, commitments: seq<int>)
    returns (r: Result<bool>)
    requires GroupOrder(p) && IsU32(index)
    ensures r.Ok? <==> commitments != []
    ensures r.Ok? ==> (r.value <==> Cong(p, Eval(commitments, index), generator * share))
  {
    if commitments == [] {
      return Err("Empty commitments");
    }
    // the loop is the evaluation loop with points in place of scalars
    var expected, power := 0, 1;
    CongRefl(p, 0);
    CongRefl(p, 1);
    ghost var total := Eval(commitments, index);
    for k := 0 to |commitments|
      invariant Cong(p, expected + power * Eval(commitments[k..], index), total)
    {
      ghost var rest := Eval(commitments[k + 1..], index);
      assert commitments[k..][1..] == commitments[k + 1..];
      assert Eval(commitments[k..], index) == commitments[k] + index * rest;
      FeldmanStep(p, expected, power, commitments[k], index, rest, total);
      expected := (expected + commitments[k] * power) % p;
      power := (power * index) % p;
    }
    assert Eval(commitments[|commitments|..], index) == 0;
    var actual := (generator * share) % p;
    FeldmanCompare(p, expected, generator * share, total);
    return Ok(expected % p == actual);
  }

  lemma FeldmanStep(p: int, expected: int, power: int, c: int, x: int, rest: int, total: int)
    requires 0 < p && Cong(p, expected + power * (c + x * rest), total)
    ensures Cong(p, (expected + c * power) % p + (power * x) % p * rest, total)
  {
    hide Cong;
    var a, b := expected + c * power, power * x;
    FeldmanIdentity(expected, power, c, x, rest);
    CongMod(p, a);
    CongMod(p, b);
    CongScaleRight(p, b % p, b, rest);
    CongAdd(p, a % p, a, (b % p) * rest, b * rest);
    CongTrans(p, a % p + (b % p) * rest, a + b * rest, total);
  }

  lemma FeldmanIdentity(expected: int, power: int, c: int, x: int, rest: int)
    ensures expected + power * (c + x * rest) == (expected + c * power) + (power * x) * rest
  {
  }

  lemma FeldmanCompare(p: int, expected: int, actual: int, total: int)
    requires 0 < p && Cong(p, expected, total)
    ensures expected % p == actual % p <==> Cong(p, total, actual)
  {
    CongResidues(p, expected, total);
    CongResidues(p, total, actual);
  }

  lemma {:induction false} CommittedEval(p: int, generator: int, coefficients: seq<int>, commitments: seq<int>, x: int)
    requires 0 < p && Commits(p, generator, coefficients, commitments)
    ensures Cong(p, Eval(commitments, x), generator * Eval(coefficients, x))
  {
    hide Cong;
    if commitments == [] {
      CongRefl(p, 0);
    } else {
      var e, e' := Eval(coefficients[1..], x), Eval(commitments[1..], x);
      CommittedEval(p, generator, coefficients[1..], commitments[1..], x);
      CongScale(p, x, e', generator * e);
      CongAdd(p, commitments[0], generator * coefficients[0], x * e', x * (generator * e));
      FactorOut(generator, coefficients[0], x, e);
    }
  }

  lemma FactorOut(g: int, c: int, x: int, e: int)
    ensures g * c + x * (g * e) == g * (c + x * e)
  {
  }

  /** A share passes the check exactly when it is the committed polynomial's value at the index. */
  lemma FeldmanCheckExact(p: int, generator: int, coefficients: seq<int>, commitments: seq<int>, share: int, index: int)
    requires GroupOrder(p) && generator % p != 0
    requires Commits(p, generator, coefficients, commitments)
    ensures Cong(p, Eval(commitments, index), generator * share) <==> Cong(p, share, Eval(coefficients, index))
  {
    var e, e' := Eval(coefficients, index), Eval(commitments, index);
    CommittedEval(p, generator, coefficients, commitments, index);
    CongSym(p, e', generator * e);
    if Cong(p, e', generator * share) {
      CongTrans(p, generator * e, e', generator * share);
      CongCancel(p, generator, e, share);
      CongSym(p, e, share);
    }
    if Cong(p, share, e) {
      CongScale(p, generator, share, e);
      CongSym(p, generator * share, generator * e);
      CongTrans(p, e', generator * e, generator * share);
    }
  }

  /** compute_lagrange_coefficient. */
  method ComputeLagrangeCoefficient(p: int, indices: seq<int>, target: int) returns (r: Result<int>)
    requires GroupOrder(p) && Indices(indices) && IsU32(target)
    ensures r.Ok? <==> target in indices
    ensures r.Ok? ==> 0 <= r.value < p && Cong(p, r.value, Weight(p, indices, target))
  {
    if target !in indices {
      return Err("Target index not in participant list");
    }
    var numerator, denominator := 1, 1;
    ghost var total := Weight(p, indices, target);
    CongScale1(p, total);
    for k := 0 to |indices|
      invariant denominator % p != 0
      invariant Cong(p, numerator * Weight(p, indices[k..], target), denominator * total)
    {
      assert indices[k..][1..] == indices[k + 1..];
      if indices[k] != target {
        IndexDifference(p, indices[k], target);
        NonZeroProduct(p, denominator, indices[k] - target);
        LagrangeStep(p, numerator, denominator, indices[k], target, Weight(p, indices[k + 1..], target), total);
        numerator := numerator * indices[k];
        denominator := denominator * (indices[k] - target);
      } else {
        assert Weight(p, indices[k..], target) == 1 * Weight(p, indices[k + 1..], target);
      }
    }
    assert numerator * Weight(p, indices[|indices|..], target) == numerator;
    var inverse := Invert(p, denominator);
    if inverse.None? {
      assert false;
      return Err("Failed to invert denominator in Lagrange coefficient");
    }
    QuotientOfProducts(p, numerator, denominator, inverse.value, total);
    return Ok((numerator * inverse.value) % p);
  }

  lemma CongScale1(p: int, t: int)
    requires 0 < p
    ensures Cong(p, 1 * t, 1 * t)
  {
    CongRefl(p, t);
  }

  lemma LagrangeStep(p: int, n: int, d: int, x: int, t: int, w: int, total: int)
    requires IsPrime(p) && (x - t) % p != 0
    requires Cong(p, n * ((x * Inv(p, x - t)) * w), d * total)
    ensures Cong(p, (n * x) * w, (d * (x - t)) * total)
  {
    hide Cong;
    var i, e := Inv(p, x - t), x - t;
    InvCorrect(p, e);
    CongScale(p, e, n * ((x * i) * w), d * total);
    CongScale(p, (n * x) * w, e * i, 1);
    LagrangeRegroup(n, x, i, w, e);
    assert e * (d * total) == (d * e) * total;
    CongSym(p, ((n * x) * w) * (e * i), (n * x) * w);
    CongTrans(p, (n * x) * w, ((n * x) * w) * (e * i), (d * e) * total);
  }

  lemma LagrangeRegroup(n: int, x: int, i: int, w: int, e: int)
    ensures e * (n * ((x * i) * w)) == ((n * x) * w) * (e * i)
  {
    assert n * ((x * i) * w) == ((n * x) * w) * i;
  }

  lemma QuotientOfProducts(p: int, n: int, d: int, i: int, total: int)
    requires IsPrime(p) && Cong(p, n, d * total) && Cong(p, d * i, 1)
    ensures Cong(p, (n * i) % p, total)
  {
    hide Cong;
    CongMod(p, n * i);
    CongScaleRight(p, n, d * total, i);
    CongUnitRight(p, d, i, total);
    CongTrans(p, n * i, (d * total) * i, total);
    CongTrans(p, (n * i) % p, n * i, total);
  }

  /** lagrange_interpolate_signatures over (index, point) pairs. The indices are the keys of a
      map, hence distinct; this is what keeps the unwrapped inversion from failing. `isPoint` says whose
      share's bytes decode to a point, `isSignature` which points are signatures. */
  method LagrangeInterpolateSignatures(p: int, shares: seq<(int, int)>, threshold: nat,
                                       isPoint: int -> bool, isSignature: int -> bool) returns (r: Result<int>)
    requires GroupOrder(p) && Indices(IndicesOf(shares)) && NoDuplicates(IndicesOf(shares))
    ensures r.Ok?
      <==> (&& threshold <= |shares| && AllPoints(shares, isPoint)
            && isSignature(Aggregate(p, IndicesOf(shares), shares) % p))
    ensures r.Ok? ==> r.value == Aggregate(p, IndicesOf(shares), shares) % p
    ensures r.Ok? ==> 0 <= r.value < p && Cong(p, r.value, Aggregate(p, IndicesOf(shares), shares))
  {
    hide Cong, InlineWeight, IsPrime;
    if |shares| < threshold {
      return Err("Insufficient signature shares");
    }
    var interpolated := 0;
    ghost var xs := IndicesOf(shares);
    ghost var total := Aggregate(p, xs, shares);
    CongRefl(p, total);
    for j := 0 to |shares|
      invariant 0 <= interpolated < p
      invariant forall k :: 0 <= k < j ==> isPoint(shares[k].0)
      invariant Cong(p, interpolated + Aggregate(p, xs, shares[j..]), total)
    {
      if !isPoint(shares[j].0) {
        return Err("Invalid G2 point in SignatureShare");
      }
      var lambda := InlineLambda(p, shares, j);
      assert shares[j..][1..] == shares[j + 1..];
      AggregateStep(p, interpolated, shares[j].1, lambda, InlineWeight(p, xs, shares[j].0),
                    Aggregate(p, xs, shares[j + 1..]), total);
      interpolated := (interpolated + shares[j].1 * lambda) % p;
    }
    assert Aggregate(p, xs, shares[|shares|..]) == 0;
    ResidueIs(p, interpolated, total);
    if !isSignature(interpolated) {
      return Err("Invalid aggregated signature bytes");
    }
    return Ok(interpolated);
  }

  ghost predicate AllPoints(shares: seq<(int, int)>, isPoint: int -> bool) {
    forall j :: 0 <= j < |shares| ==> isPoint(shares[j].0)
  }

  lemma ResidueIs(p: int, r: int, a: int)
    requires 0 <= r < p && Cong(p, r, a)
    ensures r == a % p
  {
    CongResidues(p, r, a);
  }

  lemma AggregateStep(p: int, acc: int, y: int, lambda: int, w: int, rest: int, total: int)
    requires 0 < p && Cong(p, lambda, w) && Cong(p, acc + (y * w + rest), total)
    ensures Cong(p, (acc + y * lambda) % p + rest, total)
  {
    hide Cong;
    CongScale(p, y, lambda, w);
    ReplaceTerm(p, acc, y * lambda, y * w, rest, total);
  }

  lemma ReplaceTerm(p: int, acc: int, u: int, v: int, rest: int, total: int)
    requires 0 < p && Cong(p, u, v) && Cong(p, acc + (v + rest), total)
    ensures Cong(p, (acc + u) % p + rest, total)
  {
    CongMod(p, acc + u);
    var k := CongElim(p, (acc + u) % p, acc + u);
    var l := CongElim(p, u, v);
    var m := CongElim(p, acc + (v + rest), total);
    assert (acc + u) % p + rest - total == (k + l + m) * p;
    CongIntro(p, (acc + u) % p + rest, total, k + l + m);
  }

  /** The inner loop: the weight of the j-th share. */
  method InlineLambda(p: int, shares: seq<(int, int)>, j: nat) returns (lambda: int)
    requires GroupOrder(p) && Indices(IndicesOf(shares)) && NoDuplicates(IndicesOf(shares)) && j < |shares|
    ensures Cong(p, lambda, InlineWeight(p, IndicesOf(shares), shares[j].0))
  {
    ghost var xs := IndicesOf(shares);
    var xj := shares[j].0;
    assert xs[j] == xj;
    ghost var total := InlineWeight(p, xs, xj);
    lambda := 1;
    CongScale1(p, total);
    for m := 0 to |shares|
      invariant Cong(p, lambda * InlineWeight(p, xs[m..], xj), total)
    {
      assert xs[m..][1..] == xs[m + 1..];
      ghost var rest := InlineWeight(p, xs[m + 1..], xj);
      var xm := shares[m].0;
      assert xs[m] == xm;
      if j != m {
        IndexDifference(p, xj, xm);
        var inverse := Invert(p, xj - xm).value;
        LambdaStep(p, lambda, xm, inverse, rest, total);
        lambda := (lambda * (xm * inverse)) % p;
      } else {
        assert InlineWeight(p, xs[m..], xj) == 1 * rest;
      }
    }
    assert InlineWeight(p, xs[|shares|..], xj) == 1;
  }

  lemma LambdaStep(p: int, lambda: int, x: int, i: int, rest: int, total: int)
    requires 0 < p && Cong(p, lambda * ((x * i) * rest), total)
    ensures Cong(p, (lambda * (x * i)) % p * rest, total)
  {
    hide Cong;
    var a := lambda * (x * i);
    CongMod(p, a);
    CongScale(p, rest, a % p, a);
    Associate(lambda, x * i, rest);
    CongTrans(p, rest * (a % p), rest * a, total);
  }

  /** Every entry of the map is h times the polynomial's value at its key. */
  ghost predicate IsSharing(p: int, c: seq<int>, h: int, shares: map<int, int>)
    requires 0 < p
  {
    |c| <= |shares| && forall i :: i in shares ==> Cong(p, shares[i], h * Eval(c, i))
  }

  /** The aggregated point is the signature under the constant term of every polynomial of low
      enough degree behind the shares, negated for an even number of shares. */
  ghost predicate SignsSecretUpToSign(p: int, shares: map<int, int>, value: int)
    requires 0 < p
  {
    forall c, h :: IsSharing(p, c, h, shares) ==> Cong(p, value, Sign(|shares| + 1) * (h * Eval(c, 0)))
  }

  function Ascending(): (int, int) -> bool { (a, b) => a <= b }

  function SharesInOrder(shares: map<int, int>, keys: seq<int>): (list: seq<(int, int)>)
    requires forall i :: 0 <= i < |keys| ==> keys[i] in shares
    ensures IndicesOf(list) == keys
    ensures forall i :: 0 <= i < |list| ==> list[i].1 == shares[keys[i]]
  {
    seq(|keys|, i requires 0 <= i < |keys| => (keys[i], shares[keys[i]]))
  }

  lemma AggregateOfMap(p: int, shares: map<int, int>, keys: seq<int>, value: int)
    requires GroupOrder(p) && Indices(keys) && Lists(keys, shares.Keys)
    requires forall i :: 0 <= i < |keys| ==> keys[i] in shares
    requires Cong(p, value, Aggregate(p, keys, SharesInOrder(shares, keys)))
    ensures SignsSecretUpToSign(p, shares, value)
  {
    var list := SharesInOrder(shares, keys);
    ListingLength(keys, shares.Keys);
    forall c, h | IsSharing(p, c, h, shares)
      ensures Cong(p, value, Sign(|shares| + 1) * (h * Eval(c, 0)))
    {
      AggregateShares(p, c, h, list);
      CongTrans(p, value, Aggregate(p, keys, list), Sign(|shares| + 1) * (h * Eval(c, 0)));
    }
  }

  /** aggregate_signature_shares: takes the shares out of a map in any order and sorts them by
      index. The contract says what the result means for every polynomial behind the shares,
      so it does not depend on the order of the map. */
  method AggregateSignatureShares(p: int, shares: map<int, int>, threshold: nat, isPoint: int -> bool,
                                  isSignature: int -> bool)
    returns (r: Result<int>)
    requires GroupOrder(p) && forall i :: i in shares ==> IsU32(i)
    ensures r.Ok?
      <==> threshold <= |shares| && (forall i :: i in shares ==> isPoint(i)) && AggregateIs(p, shares, isSignature)
    ensures r.Ok? ==> 0 <= r.value < p && SignsSecretUpToSign(p, shares, r.value)
  {
    if |shares| < threshold {
      return Err("Insufficient signature shares");
    }
    var keys := SortedKeys(shares);
    ListingLength(keys, shares.Keys);
    var list := SharesInOrder(shares, keys);
    r := LagrangeInterpolateSignatures(p, list, threshold, isPoint, isSignature);
    assert forall i :: i in shares ==> i in keys;
    forall other | IsSortedKeys(shares, other) ensures other == keys {
      SortedListingUnique(Ascending(), shares.Keys, other, keys);
    }
    if r.Ok? { AggregateOfMap(p, shares, keys, r.value); }
  }

  /** What is aggregated, over the sorted keys, is a signature. */
  ghost predicate AggregateIs(p: int, shares: map<int, int>, isSignature: int -> bool)
    requires GroupOrder(p)
  {
    exists keys :: IsSortedKeys(shares, keys) && isSignature(Aggregate(p, keys, SharesInOrder(shares, keys)) % p)
  }

  ghost predicate IsSortedKeys(shares: map<int, int>, keys: seq<int>) {
    SortedListing(Ascending(), shares.Keys, keys) && forall i :: 0 <= i < |keys| ==> keys[i] in shares
  }

  method SortedKeys(shares: map<int, int>) returns (keys: seq<int>)
    ensures SortedListing(Ascending(), shares.Keys, keys)
    ensures forall i :: 0 <= i < |keys| ==> keys[i] in shares
  {
    keys := Enumerate(shares.Keys);
    SortListing(Ascending(), shares.Keys, keys);
    keys := SortBy(Ascending(), keys);
    assert forall i :: 0 <= i < |keys| ==> keys[i] in keys;
  }

  /** Aggregation promises the signature under the constant term; it delivers it exactly when the
      number of shares is odd (or the signature is the identity). */
  lemma AggregationCorrectIffOdd(p: int, c: seq<int>, h: int, shares: map<int, int>, value: int)
    requires GroupOrder(p) && IsSharing(p, c, h, shares) && SignsSecretUpToSign(p, shares, value)
    ensures Cong(p, value, h * Eval(c, 0)) <==> |shares| % 2 == 1 || (h * Eval(c, 0)) % p == 0
  {
    SignDecides(p, |shares|, h * Eval(c, 0), value);
  }

  lemma SignDecides(p: int, k: nat, secret: int, value: int)
    requires GroupOrder(p) && Cong(p, value, Sign(k + 1) * secret)
    ensures Cong(p, value, secret) <==> k % 2 == 1 || secret % p == 0
  {
    if k % 2 == 0 {
      assert Sign(k + 1) * secret == -secret;
      NegativeMatches(p, secret, value);
    }
  }

  lemma NegativeMatches(p: int, secret: int, value: int)
    requires GroupOrder(p) && Cong(p, value, -secret)
    ensures Cong(p, value, secret) <==> secret % p == 0
  {
    CongSym(p, value, -secret);
    if Cong(p, value, secret) {
      CongTrans(p, -secret, value, secret);
      CongSym(p, -secret, secret);
      CongHalf(p, secret);
    }
    if secret % p == 0 {
      CongIntro(p, -secret, secret, -2 * (secret / p));
      CongTrans(p, value, -secret, secret);
    }
  }

  lemma CongHalf(p: int, s: int)
    requires GroupOrder(p) && Cong(p, s, -s)
    ensures s % p == 0
  {
    var k := CongElim(p, s, -s);
    assert Cong(p, 2 * s, 2 * 0) by { CongIntro(p, 2 * s, 0, k); }
    ModUnique(p, 2, 0, 2);
    CongCancel(p, 2, s, 0);
  }

  /** A smallest failing input, in any group: two shares of 7 + 5x. */
  lemma TwoSharesGiveTheNegative(p: int, value: int)
    requires GroupOrder(p) && SignsSecretUpToSign(p, map[1 := 12, 2 := 17], value)
    ensures IsSharing(p, [7, 5], 1, map[1 := 12, 2 := 17])
    ensures Cong(p, value, -7) && !Cong(p, value, 7)
  {
    var shares := map[1 := 12, 2 := 17];
    assert |shares| == 2 by { assert shares.Keys == {1, 2}; }
    assert Eval([7, 5], 0) == 7 && Eval([7, 5], 1) == 12 && Eval([7, 5], 2) == 17 by {
      assert [7, 5][1..] == [5] && [5][1..] == [];
      assert Eval([5], 0) == 5 && Eval([5], 1) == 5 && Eval([5], 2) == 5;
    }
    CongRefl(p, 12);
    CongRefl(p, 17);
    assert IsSharing(p, [7, 5], 1, shares);
    AggregationCorrectIffOdd(p, [7, 5], 1, shares, value);
    ModUnique(p, 7, 0, 7);
  }

  /** Reconstruction from dealt shares: residues congruent to the shares, combined with residues
      congruent to the Lagrange coefficients, give the dealer's constant term. */
  lemma ReconstructSecret(p: int, c: seq<int>, xs: seq<int>, shares: seq<int>, lambdas: seq<int>)
    requires GroupOrder(p) && Indices(xs) && NoDuplicates(xs) && |c| <= |xs| == |shares| == |lambdas|
    requires forall i :: 0 <= i < |xs| ==> Cong(p, shares[i], Eval(c, xs[i]))
    requires forall i :: 0 <= i < |xs| ==> Cong(p, lambdas[i], Weight(p, xs, xs[i]))
    ensures Cong(p, Dot(shares, lambdas), if c == [] then 0 else c[0])
  {
    hide Cong;
    DotIsWeighted(p, c, xs, xs, shares, lambdas);
    InterpolationAtZero(p, c, xs);
    CongTrans(p, Dot(shares, lambdas), Weighted(p, Polynomial(c), xs, xs), Eval(c, 0));
  }

  function Dot(a: seq<int>, b: seq<int>): int
    requires |a| == |b|
  {
    if a == [] then 0 else a[0] * b[0] + Dot(a[1..], b[1..])
  }

  lemma {:induction false} DotIsWeighted(p: int, c: seq<int>, xs: seq<int>, ys: seq<int>, shares: seq<int>,
                                         lambdas: seq<int>)
    requires IsPrime(p) && |ys| == |shares| == |lambdas|
    requires forall i :: 0 <= i < |ys| ==> Cong(p, shares[i], Eval(c, ys[i]))
    requires forall i :: 0 <= i < |ys| ==> Cong(p, lambdas[i], Weight(p, xs, ys[i]))
    ensures Cong(p, Dot(shares, lambdas), Weighted(p, Polynomial(c), xs, ys))
  {
    hide Cong;
    if ys == [] {
      CongRefl(p, 0);
    } else {
      DotIsWeighted(p, c, xs, ys[1..], shares[1..], lambdas[1..]);
      CongMul(p, shares[0], Eval(c, ys[0]), lambdas[0], Weight(p, xs, ys[0]));
      CongAdd(p, shares[0] * lambdas[0], Eval(c, ys[0]) * Weight(p, xs, ys[0]),
              Dot(shares[1..], lambdas[1..]), Weighted(p, Polynomial(c), xs, ys[1..]));
    }
  }

  /** The hypotheses about p can be met: there is a prime above every u32. */
  lemma GroupOrderExists()
    ensures exists p :: GroupOrder(p)
  {
    var p := PrimeNotBelow(U32);
    assert GroupOrder(p);
  }

  lemma PrimeNotBelow(bound: nat) returns (p: nat)
    requires 1 <= bound
    ensures IsPrime(p) && bound <= p
  {
    var n := Factorial(bound) + 1;
    FactorialDivisible(bound, 1);
    p := LeastDivisor(n, 2);
    if p < bound {
      FactorialDivisible(bound, p);
      var k := CongElim(p, n - 1, 0);
      ModUnique(p, n, k, 1);
      assert false;
    }
  }

  function Factorial(n: nat): nat { if n == 0 then 1 else n * Factorial(n - 1) }

  lemma {:induction false} FactorialDivisible(n: nat, d: nat)
    requires 1 <= d <= n
    ensures Factorial(n) >= 1 && Cong(d, Factorial(n), 0)
  {
    if n == d {
      if n > 1 { FactorialDivisible(n - 1, 1); }
      CongIntro(d, Factorial(n), 0, Factorial(n - 1));
    } else {
      FactorialDivisible(n - 1, d);
      CongScale(d, n, Factorial(n - 1), 0);
    }
  }

  lemma DividesTrans(e: nat, d: nat, n: nat)
    requires 0 < e && 0 < d && Divides(e, d) && Divides(d, n)
    ensures Divides(e, n)
  {
    var a, b := n / d, d / e;
    assert n == a * d && d == b * e;
    Associate(a, b, e);
    ModUnique(e, n, a * b, 0);
  }

  /** The least divisor not below d is prime when nothing below d divides n. */
  lemma {:induction false} LeastDivisor(n: nat, d: nat) returns (p: nat)
    requires 2 <= d <= n && forall e :: 2 <= e < d ==> !Divides(e, n)
    ensures IsPrime(p) && Divides(p, n)
    decreases n - d
  {
    if Divides(d, n) {
      p := d;
      forall e | 2 <= e < d ensures !Divides(e, d) {
        if Divides(e, d) {
          DividesTrans(e, d, n);
          assert false;
        }
      }
    } else {
      assert n != d by { ModUnique(d, d, 1, 0); }
      p := LeastDivisor(n, d + 1);
    }
  }
}
