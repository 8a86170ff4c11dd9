/** Machine word sizes, powers and the few facts about products and remainders used across modules. */
module Arithmetic {
  const U32: nat := 0x1_0000_0000
  const U64: nat := 0x1_0000_0000_0000_0000
  const U256: nat := 0x1_0000000000000000_0000000000000000_0000000000000000_0000000000000000

  function Pow2(n: nat): (r: nat)
    ensures 1 <= r
  {
    if n == 0 then 1 else 2 * Pow2(n - 1)
  }

  function Pow256(n: nat): (r: nat)
    ensures 1 <= r
  {
    if n == 0 then 1 else 256 * Pow256(n - 1)
  }

  lemma {:induction false} Pow2Add(a: nat, b: nat)
    ensures Pow2(a + b) == Pow2(a) * Pow2(b)
  {
    if a > 0 { Pow2Add(a - 1, b); }
  }

  lemma MulOrder(x: int, y: int, b: nat)
    requires x * b < (y + 1) * b
    ensures x <= y
  {
  }

  lemma DivUnique(t: nat, b: nat, q: int)
    requires 0 < b && q * b <= t < (q + 1) * b
    ensures t / b == q
  {
    var d := t / b;
    assert d * b <= t < (d + 1) * b;
    MulOrder(d, q, b);
    MulOrder(q, d, b);
  }

  lemma DivBounds(t: nat, b: nat)
    requires 0 < b
    ensures t / b * b <= t < (t / b + 1) * b
  {
  }

  lemma MulLe(a: nat, b: nat, m: nat)
    requires a <= b
    ensures a * m <= b * m
  {
  }

  lemma SmallMultiple(p: int, d: int)
    requires 0 < p && -p < d * p < p
    ensures d == 0
  {
  }

  lemma ModUnique(p: int, a: int, q: int, r: int)
    requires 0 < p && a == q * p + r && 0 <= r < p
    ensures a % p == r && a / p == q
  {
    var q', r' := a / p, a % p;
    assert a == q' * p + r';
    assert (q - q') * p == r' - r;
    SmallMultiple(p, q - q');
  }

  lemma ProductNonNegative(a: real, b: real)
    requires 0.0 <= a && 0.0 <= b
    ensures 0.0 <= a * b
  {
  }
}
