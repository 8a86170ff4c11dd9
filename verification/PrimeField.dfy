/** The scalar field of the threshold-signature code: the integers modulo a prime.
    Residues are plain integers; `Cong` is congruence, so that every ring identity
    is an integer identity and only inverses need the modulus. */
module PrimeField {
  import opened Arithmetic
  import opened Wrappers

  predicate Divides(d: int, n: int)
    requires d != 0
  {
    n % d == 0
  }

  ghost predicate IsPrime(p: int) {
    2 <= p && forall d :: 2 <= d < p ==> !Divides(d, p)
  }

  predicate Cong(p: int, a: int, b: int)
    requires 0 < p
  {
    (a - b) % p == 0
  }

  lemma CongIntro(p: int, a: int, b: int, k: int)
    requires 0 < p && a - b == k * p
    ensures Cong(p, a, b)
  {
    ModUnique(p, a - b, k, 0);
  }

  lemma CongElim(p: int, a: int, b: int) returns (k: int)
    requires 0 < p && Cong(p, a, b)
    ensures a - b == k * p
  {
    k := (a - b) / p;
  }

  lemma CongRefl(p: int, a: int)
    requires 0 < p
    ensures Cong(p, a, a)
  {
    CongIntro(p, a, a, 0);
  }

  lemma CongSym(p: int, a: int, b: int)
    requires 0 < p && Cong(p, a, b)
    ensures Cong(p, b, a)
  {
    var k := CongElim(p, a, b);
    CongIntro(p, b, a, -k);
  }

  lemma CongTrans(p: int, a: int, b: int, c: int)
    requires 0 < p && Cong(p, a, b) && Cong(p, b, c)
    ensures Cong(p, a, c)
  {
    var k := CongElim(p, a, b);
    var l := CongElim(p, b, c);
    assert a - c == (k + l) * p;
    CongIntro(p, a, c, k + l);
  }

  lemma CongAdd(p: int, a: int, b: int, c: int, d: int)
    requires 0 < p && Cong(p, a, b) && Cong(p, c, d)
    ensures Cong(p, a + c, b + d)
  {
    var k := CongElim(p, a, b);
    var l := CongElim(p, c, d);
    assert (a + c) - (b + d) == (k + l) * p;
    CongIntro(p, a + c, b + d, k + l);
  }

  lemma CongSub(p: int, a: int, b: int, c: int, d: int)
    requires 0 < p && Cong(p, a, b) && Cong(p, c, d)
    ensures Cong(p, a - c, b - d)
  {
    var k := CongElim(p, a, b);
    var l := CongElim(p, c, d);
    assert (a - c) - (b - d) == (k - l) * p;
    CongIntro(p, a - c, b - d, k - l);
  }

  lemma CongMul(p: int, a: int, b: int, c: int, d: int)
    requires 0 < p && Cong(p, a, b) && Cong(p, c, d)
    ensures Cong(p, a * c, b * d)
  {
    var k := CongElim(p, a, b);
    var l := CongElim(p, c, d);
    calc {
      a * c - b * d;
      (a - b) * c + b * (c - d);
      (k * p) * c + b * (l * p);
      (k * c + b * l) * p;
    }
    CongIntro(p, a * c, b * d, k * c + b * l);
  }

  /** Multiplying both sides by the same factor. */
  lemma CongScale(p: int, m: int, a: int, b: int)
    requires 0 < p && Cong(p, a, b)
    ensures Cong(p, m * a, m * b)
  {
    CongRefl(p, m);
    CongMul(p, m, m, a, b);
  }

  lemma CongScaleRight(p: int, a: int, b: int, m: int)
    requires 0 < p && Cong(p, a, b)
    ensures Cong(p, a * m, b * m)
  {
    CongRefl(p, m);
    CongMul(p, a, b, m, m);
  }

  lemma CongMod(p: int, a: int)
    requires 0 < p
    ensures Cong(p, a % p, a) && Cong(p, a, a % p)
  {
    CongIntro(p, a, a % p, a / p);
    CongSym(p, a, a % p);
  }

  /** Congruence is equality of residues. */
  lemma CongResidues(p: int, a: int, b: int)
    requires 0 < p
    ensures Cong(p, a, b) <==> a % p == b % p
  {
    if Cong(p, a, b) {
      var k := CongElim(p, a, b);
      assert a == (k + b / p) * p + b % p;
      ModUnique(p, a, k + b / p, b % p);
    }
    if a % p == b % p {
      assert a - b == (a / p - b / p) * p;
      CongIntro(p, a, b, a / p - b / p);
    }
  }

  /** Inverse of a residue in 1..p-1 by repeated reduction of p. */
  function InverseOf(p: int, a: int): (x: int)
    requires IsPrime(p) && 0 < a < p
    ensures Cong(p, a * x, 1)
    decreases a
  {
    if a == 1 then
      CongRefl(p, 1);
      1
    else
      assert !Divides(a, p);
      var y := InverseOf(p, p % a);
      InverseStep(p, a, y);
      -(p / a) * y
  }

  lemma InverseStep(p: int, a: int, y: int)
    requires 0 < a < p
    requires Cong(p, (p % a) * y, 1)
    ensures Cong(p, a * (-(p / a) * y), 1)
  {
    var q, r := p / a, p % a;
    var k := CongElim(p, r * y, 1);
    calc {
      a * (-q * y) - 1;
      -(q * a) * y - 1;
      { assert q * a == p - r; }
      (r - p) * y - 1;
      (r * y - 1) - p * y;
      (k - y) * p;
    }
    CongIntro(p, a * (-q * y), 1, k - y);
  }

  /** The library's `invert`: defined exactly on the non-zero residues. */
  function Invert(p: int, a: int): (r: Option<int>)
    requires IsPrime(p)
    ensures r.None? <==> a % p == 0
    ensures r.Some? ==> 0 <= r.value < p && Cong(p, a * r.value, 1)
  {
    if a % p == 0 then None
    else
      var x := InverseOf(p, a % p);
      InvertReduced(p, a, x);
      Some(x % p)
  }

  lemma InvertReduced(p: int, a: int, x: int)
    requires 0 < p && Cong(p, (a % p) * x, 1)
    ensures Cong(p, a * (x % p), 1)
  {
    CongMod(p, a);
    CongMod(p, x);
    CongMul(p, a, a % p, x % p, x);
    CongTrans(p, a * (x % p), (a % p) * x, 1);
  }

  /** Total inverse for specifications; 0 has the junk inverse 0. */
  function Inv(p: int, a: int): int
    requires IsPrime(p)
  {
    if a % p == 0 then 0 else Invert(p, a).value
  }

  lemma InvCorrect(p: int, a: int)
    requires IsPrime(p) && a % p != 0
    ensures Cong(p, a * Inv(p, a), 1)
  {
  }

  /** A non-zero factor can be cancelled. */
  lemma CongCancel(p: int, m: int, a: int, b: int)
    requires IsPrime(p) && m % p != 0 && Cong(p, m * a, m * b)
    ensures Cong(p, a, b)
  {
    var i := Inv(p, m);
    CongScale(p, i, m * a, m * b);
    CongUnit(p, m, i, a);
    CongUnit(p, m, i, b);
    CongSym(p, i * (m * a), a);
    CongTrans(p, a, i * (m * a), i * (m * b));
    CongTrans(p, a, i * (m * b), b);
  }

  lemma CongUnit(p: int, m: int, i: int, a: int)
    requires 0 < p && Cong(p, m * i, 1)
    ensures Cong(p, i * (m * a), a)
  {
    CongScale(p, a, m * i, 1);
    assert a * (m * i) == i * (m * a);
  }

  lemma CongUnitRight(p: int, d: int, i: int, t: int)
    requires 0 < p && Cong(p, d * i, 1)
    ensures Cong(p, (d * t) * i, t)
  {
    CongScale(p, t, d * i, 1);
    assert t * (d * i) == (d * t) * i;
  }

  /** Inverses are determined up to congruence. */
  lemma InverseUnique(p: int, m: int, x: int, y: int)
    requires IsPrime(p) && m % p != 0
    requires Cong(p, m * x, 1) && Cong(p, m * y, 1)
    ensures Cong(p, x, y)
  {
    CongSym(p, m * y, 1);
    CongTrans(p, m * x, 1, m * y);
    CongCancel(p, m, x, y);
  }

  /** No zero divisors. */
  lemma NonZeroProduct(p: int, a: int, b: int)
    requires IsPrime(p) && a % p != 0 && b % p != 0
    ensures (a * b) % p != 0
  {
    if (a * b) % p == 0 {
      CongRefl(p, 0);
      assert Cong(p, a * b, a * 0);
      CongCancel(p, a, b, 0);
      assert false;
    }
  }
}
