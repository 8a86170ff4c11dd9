/** The compact ("nBits") difficulty codec of rusty-consensus/src/pow.rs.
    U256 and u32 values are naturals below 2^256 and 2^32; shifts and masks are
    multiplication, division and remainder by powers of two, with the wrap-around
    of the decoder's u8 shift amount and of 256-bit left shifts written out. */
module Compact {
  import opened Arithmetic

  /** A right shift: division by a power of two. */
  function ShiftRight(t: nat, power: nat): (q: nat)
    requires 0 < power
  {
    t / power
  }

  /** `low_u64() as u32`. */
  function LowU32(t: nat): (r: nat)
    ensures t < U32 ==> r == t
  {
    t % 0x1_0000_0000_0000_0000 % U32
  }

  /** A left shift of a u32. */
  function ShiftLeftU32(x: nat, power: nat): nat { x * power % U32 }

  /** A left shift of a U256, dropping the bits that leave the word. */
  function ShiftLeftU256(x: nat, power: nat): (r: nat)
    ensures r < U256
    ensures x * power < U256 ==> r == x * power
  {
    x * power % U256
  }

  /** Whether bit 23 is set. */
  predicate SignBit(compact: nat)
    ensures compact < 0x100_0000 ==> (SignBit(compact) <==> 0x80_0000 <= compact)
  {
    compact / 0x80_0000 % 2 == 1
  }

  /** The low 23 bits. */
  function Mantissa(compact: nat): (r: nat)
    ensures r < 0x80_0000
    ensures compact < 0x80_0000 ==> r == compact
  {
    compact % 0x80_0000
  }

  /** The library's `bits`: the position of the highest set bit, plus one. */
  function Bits(t: nat): nat {
    if t == 0 then 0 else 1 + Bits(t / 2)
  }

  // ------------------------------------------------------------------ the codec

  /** compact_to_target. The shift amount 8 * (exponent - 3) is a u8 and wraps for exponents of
      35 and above; a 256-bit left shift drops the high bits. */
  function CompactToTarget(compact: nat): (t: nat)
    requires compact < U32
  {
    var exponent := compact / 0x100_0000;
    var mantissa := Mantissa(compact);
    var negative := SignBit(compact);
    if mantissa == 0 then 0
    else
      var target :=
        if exponent <= 3 then ShiftRight(mantissa, Pow2(8 * (3 - exponent)))
        else ShiftLeftU256(mantissa, Pow2(8 * (exponent - 3) % 256));
      if negative then 0 else target
  }

  /** The exponent of the encoding of t > 0: the e with 256^e <= 512 t < 256^(e+1). */
  function Exponent(t: nat): nat {
    if t < 128 then 1 else 1 + Exponent(t / 256)
  }

  ghost predicate IsExponent(t: nat, e: nat) {
    Pow256(e) <= 512 * t < Pow256(e + 1)
  }

  /** t in units of 256^(e-3), rounded down. */
  function Scaled(t: nat, e: nat): nat {
    if e <= 3 then t * Pow256(3 - e) else ShiftRight(t, Pow256(e - 3))
  }

  /** The encoding: exponent in the top byte, scaled target below it. */
  function Encode(t: nat): nat {
    if t == 0 then 0 else Exponent(t) * 0x100_0000 + Scaled(t, Exponent(t))
  }

  /** target_to_compact. The final `or` joins bit fields that do not overlap, so it is a sum. */
  method TargetToCompact(target: nat) returns (compact: nat)
    requires target < U256
    ensures compact == Encode(target)
  {
    if target == 0 {
      return 0;
    }
    var size := (Bits(target) + 7) / 8;
    SizeFacts(target, size);
    if size <= 3 {
      compact := ShiftLeftU32(LowU32(target), Pow2(8 * (3 - size)));
    } else {
      compact := LowU32(ShiftRight(target, Pow2(8 * (size - 3))));
    }
    if SignBit(compact) {
      compact := ShiftRight(compact, 256);
      size := size + 1;
    }
    ExponentFromScaled(target, size);
    compact := Mantissa(compact);
    compact := compact + size * 0x100_0000;
  }

  // ------------------------------------------------------------ powers and division

  lemma {:induction false} Pow2Monotone(a: nat, b: nat)
    requires a <= b
    ensures Pow2(a) <= Pow2(b)
  {
    if a < b { Pow2Monotone(a, b - 1); }
  }

  lemma {:induction false} Pow2Pow256(n: nat)
    ensures Pow2(8 * n) == Pow256(n)
  {
    if n > 0 {
      Pow2Pow256(n - 1);
      Pow2Add(8, 8 * (n - 1));
      assert Pow2(8) == 256;
    }
  }

  lemma {:induction false} Pow256Add(a: nat, b: nat)
    ensures Pow256(a + b) == Pow256(a) * Pow256(b)
  {
    if a > 0 { Pow256Add(a - 1, b); }
  }

  lemma {:induction false} Pow256Monotone(a: nat, b: nat)
    requires a <= b
    ensures Pow256(a) <= Pow256(b)
  {
    if a < b { Pow256Monotone(a, b - 1); }
  }

  lemma U256IsPow256()
    ensures Pow256(32) == U256
  {
    assert Pow256(8) == 0x1_0000_0000_0000_0000;
    Pow256Add(8, 8);
    Pow256Add(16, 16);
  }

  /** Division is determined by its bounds. */
  lemma DivDiv(t: nat, b: nat)
    requires 0 < b
    ensures t / (256 * b) == t / b / 256
  {
    var q := t / b;
    var r := q / 256;
    DivBounds(t, b);
    MulLe(256 * r, q, b);
    MulLe(q + 1, 256 * (r + 1), b);
    assert (256 * r) * b == r * (256 * b);
    assert (256 * (r + 1)) * b == (r + 1) * (256 * b);
    DivUnique(t, 256 * b, r);
  }

  // ------------------------------------------------------------- size and exponent

  lemma {:induction false} BitsBounds(t: nat)
    requires 0 < t
    ensures 0 < Bits(t) && Pow2(Bits(t) - 1) <= t < Pow2(Bits(t))
  {
    if t > 1 { BitsBounds(t / 2); }
  }

  lemma SizeBounds(t: nat)
    requires 0 < t < U256
    ensures var size := (Bits(t) + 7) / 8; 1 <= size <= 32 && Pow256(size - 1) <= t < Pow256(size)
  {
    var b, size := Bits(t), (Bits(t) + 7) / 8;
    BitsBounds(t);
    U256IsPow256();
    Pow2Pow256(32);
    if b > 256 { Pow2Monotone(256, b - 1); assert false; }
    Pow2Monotone(8 * (size - 1), b - 1);
    Pow2Monotone(b, 8 * size);
    Pow2Pow256(size - 1);
    Pow2Pow256(size);
  }

  lemma ScaledBounds(t: nat, size: nat)
    requires 1 <= size && Pow256(size - 1) <= t < Pow256(size)
    ensures 0x1_0000 <= Scaled(t, size) < 0x100_0000
  {
    if size <= 3 {
      assert Pow256(0) == 1 && Pow256(1) == 256 && Pow256(2) == 0x1_0000 && Pow256(3) == 0x100_0000;
    } else {
      var b := Pow256(size - 3);
      assert Pow256(size - 1) == 0x1_0000 * b && Pow256(size) == 0x100_0000 * b;
      DivBounds(t, b);
      QuotientRange(t, b, 0x1_0000, 0x100_0000);
    }
  }

  /** The u64 and u32 casts and the u32 shift of the encoder lose nothing. */
  lemma CastsAreExact(t: nat, size: nat)
    requires 1 <= size && Pow256(size - 1) <= t < Pow256(size)
    ensures size <= 3 ==> ShiftLeftU32(LowU32(t), Pow2(8 * (3 - size))) == Scaled(t, size)
    ensures size > 3 ==> LowU32(ShiftRight(t, Pow2(8 * (size - 3)))) == Scaled(t, size)
  {
    ScaledBounds(t, size);
    if size <= 3 {
      Pow2Pow256(3 - size);
      assert Pow256(1) == 256 && Pow256(2) == 0x1_0000 && Pow256(3) == 0x100_0000;
    } else {
      Pow2Pow256(size - 3);
    }
  }

  lemma SizeFacts(t: nat, size: nat)
    requires 0 < t < U256 && size == (Bits(t) + 7) / 8
    ensures 1 <= size && 0x1_0000 <= Scaled(t, size) < 0x100_0000
    ensures size <= 3 ==> ShiftLeftU32(LowU32(t), Pow2(8 * (3 - size))) == Scaled(t, size)
    ensures size > 3 ==> LowU32(ShiftRight(t, Pow2(8 * (size - 3)))) == Scaled(t, size)
    ensures Scaled(t, size + 1) == ShiftRight(Scaled(t, size), 256)
  {
    SizeBounds(t);
    ScaledBounds(t, size);
    CastsAreExact(t, size);
    ScaledNext(t, size);
  }

  lemma QuotientRange(t: nat, b: nat, lo: nat, hi: nat)
    requires 0 < b && lo * b <= t < hi * b
    ensures lo <= t / b < hi
  {
    DivBounds(t, b);
    if t / b < lo { MulLe(t / b + 1, lo, b); }
    if hi <= t / b { MulLe(hi, t / b, b); }
  }

  lemma ScaledNext(t: nat, e: nat)
    ensures Scaled(t, e + 1) == Scaled(t, e) / 256
  {
    if e <= 2 {
      var x := t * Pow256(2 - e);
      assert Pow256(3 - e) == 256 * Pow256(2 - e);
      assert Scaled(t, e) == 256 * x;
    } else {
      DivDiv(t, Pow256(e - 3));
      if e == 3 { assert t / 1 == t; }
    }
  }

  lemma {:induction false} ExponentBounds(t: nat)
    requires 0 < t
    ensures IsExponent(t, Exponent(t))
  {
    if 128 <= t {
      if t / 256 > 0 {
        ExponentBounds(t / 256);
        var e, q := Exponent(t / 256), t / 256;
        WidenExponent(Pow256(e), q, t);
      } else {
        assert Pow256(3) == 256 * 0x1_0000;
      }
    } else {
      assert Pow256(2) == 0x1_0000;
    }
  }

  lemma WidenExponent(b: nat, q: nat, t: nat)
    requires b <= 512 * q < 256 * b && b % 256 == 0 && q == t / 256
    ensures 256 * b <= 512 * t < 256 * (256 * b)
  {
    assert 256 * q <= t < 256 * (q + 1);
    assert 512 * q + 512 <= 256 * b;
  }

  lemma ExponentUnique(t: nat, d: nat, e: nat)
    requires IsExponent(t, d) && IsExponent(t, e)
    ensures d == e
  {
    if d < e { Pow256Monotone(d + 1, e); }
    if e < d { Pow256Monotone(e + 1, d); }
  }

  /** A scaled value in the mantissa range fixes the exponent. */
  lemma ExponentFromScaled(t: nat, e: nat)
    requires 0 < t && 1 <= e && 0x8000 <= Scaled(t, e) < 0x80_0000
    ensures Exponent(t) == e
  {
    assert Pow256(0) == 1 && Pow256(1) == 256 && Pow256(2) == 0x1_0000 && Pow256(3) == 0x100_0000;
    if e > 3 {
      var b := Pow256(e - 3);
      Pow256Add(3, e - 3);
      DivBounds(t, b);
      MulLe(0x8000, t / b, b);
      MulLe(t / b + 1, 0x80_0000, b);
    }
    assert IsExponent(t, e);
    ExponentBounds(t);
    ExponentUnique(t, e, Exponent(t));
  }

  lemma ScaledFromExponent(t: nat)
    requires 0 < t
    ensures 1 <= Exponent(t) && 0x8000 <= Scaled(t, Exponent(t)) < 0x80_0000
  {
    var e := Exponent(t);
    ExponentBounds(t);
    assert Pow256(0) == 1 && Pow256(1) == 256 && Pow256(2) == 0x1_0000 && Pow256(3) == 0x100_0000;
    if e > 3 {
      var b := Pow256(e - 3);
      Pow256Add(3, e - 3);
      QuotientRange(t, b, 0x8000, 0x80_0000);
    }
  }

  // ---------------------------------------------------------------- codec theorems

  /** t rounded down to the precision of its encoding. */
  function Floor(t: nat): nat {
    var e := Exponent(t);
    if e <= 3 then t else ShiftRight(t, Pow256(e - 3)) * Pow256(e - 3)
  }

  lemma ExponentAtMost33(t: nat)
    requires 0 < t < U256
    ensures Exponent(t) <= 33
  {
    ExponentBounds(t);
    U256IsPow256();
    assert Pow256(34) == 0x1_0000 * Pow256(32);
    if 34 <= Exponent(t) { Pow256Monotone(34, Exponent(t)); }
  }

  /** The three fields of an encoded target, as the decoder reads them back. */
  lemma EncodedFields(t: nat)
    requires 0 < t < U256
    ensures Encode(t) < U32
    ensures Encode(t) / 0x100_0000 == Exponent(t) <= 33
    ensures Mantissa(Encode(t)) == Scaled(t, Exponent(t)) >= 0x8000
    ensures !SignBit(Encode(t))
  {
    ExponentAtMost33(t);
    ScaledFromExponent(t);
    Fields(Exponent(t), Scaled(t, Exponent(t)));
  }

  lemma Fields(e: nat, m: nat)
    requires m < 0x80_0000
    ensures (e * 0x100_0000 + m) / 0x100_0000 == e
    ensures Mantissa(e * 0x100_0000 + m) == m
    ensures !SignBit(e * 0x100_0000 + m)
  {
    var c := e * 0x100_0000 + m;
    assert c == (2 * e) * 0x80_0000 + m;
    assert c / 0x80_0000 == 2 * e;
  }

  /** No encoded target makes the decoder's u8 shift amount wrap or its left shift lose bits. */
  lemma DecoderStaysInRange(t: nat)
    requires 0 < t < U256
    ensures var e := Encode(t) / 0x100_0000;
      e > 3 ==> 8 * (e - 3) < 256 && Mantissa(Encode(t)) * Pow2(8 * (e - 3)) == Floor(t) <= t
  {
    EncodedFields(t);
    var e := Exponent(t);
    if e > 3 {
      Pow2Pow256(e - 3);
      DivBounds(t, Pow256(e - 3));
    }
  }

  lemma DecodeEncode(t: nat)
    requires t < U256
    ensures Encode(t) < U32 && CompactToTarget(Encode(t)) == if t == 0 then 0 else Floor(t)
  {
    if t > 0 {
      hide Encode, Exponent, Pow2, Pow256, SignBit, Mantissa;
      EncodedFields(t);
      var e := Exponent(t);
      if e <= 3 {
        Pow2Pow256(3 - e);
        UndoShift(t, Pow256(3 - e));
      } else {
        DecoderStaysInRange(t);
        assert 8 * (e - 3) % 256 == 8 * (e - 3);
        hide Scaled, Floor;
        assert ShiftLeftU256(Mantissa(Encode(t)), Pow2(8 * (e - 3) % 256)) == Floor(t);
      }
    }
  }

  lemma UndoShift(t: nat, b: nat)
    requires 0 < b
    ensures ShiftRight(t * b, b) == t
  {
    DivUnique(t * b, b, t);
  }

  lemma FloorError(t: nat, b: nat, m: nat)
    requires 0 < b && m == ShiftRight(t, b) >= 0x8000
    ensures m * b <= t && (t - m * b) * 0x8000 < m * b
  {
    DivBounds(t, b);
    MulLe(0x8000, m, b);
  }

  /** Encoding then decoding rounds down, by less than one part in 2^15. */
  lemma RoundTripError(t: nat)
    requires t < U256
    ensures Encode(t) < U32
    ensures var t' := CompactToTarget(Encode(t)); t' <= t && (t > 0 ==> (t - t') * 0x8000 < t')
  {
    DecodeEncode(t);
    if t > 0 && Exponent(t) > 3 {
      hide CompactToTarget, Encode, Exponent, Pow256;
      var b := Pow256(Exponent(t) - 3);
      ScaledFromExponent(t);
      FloorError(t, b, ShiftRight(t, b));
    }
  }

  /** A larger target never gets smaller bits. */
  lemma EncodeMonotone(t: nat, u: nat)
    requires t <= u < U256
    ensures Encode(t) <= Encode(u)
  {
    if 0 < t {
      ExponentMonotone(t, u);
      ScaledFromExponent(t);
      ScaledFromExponent(u);
      if Exponent(t) == Exponent(u) {
        ScaledMonotone(t, u, Exponent(t));
      }
    }
  }

  lemma ExponentMonotone(t: nat, u: nat)
    requires 0 < t <= u
    ensures Exponent(t) <= Exponent(u)
  {
    ExponentBounds(t);
    ExponentBounds(u);
    if Exponent(u) < Exponent(t) { Pow256Monotone(Exponent(u) + 1, Exponent(t)); }
  }

  lemma ScaledMonotone(t: nat, u: nat, e: nat)
    requires t <= u
    ensures Scaled(t, e) <= Scaled(u, e)
  {
    if e <= 3 {
      MulLe(t, u, Pow256(3 - e));
    } else {
      var b := Pow256(e - 3);
      DivBounds(t, b);
      DivBounds(u, b);
      MulOrder(t / b, u / b, b);
    }
  }

  /** Re-encoding the decoded target gives the same bits. */
  lemma ReEncode(t: nat)
    requires t < U256
    ensures Encode(t) < U32 && Encode(CompactToTarget(Encode(t))) == Encode(t)
  {
    DecodeEncode(t);
    if t > 0 && Exponent(t) > 3 {
      var e := Exponent(t);
      var b := Pow256(e - 3);
      ScaledFromExponent(t);
      var m := ShiftRight(t, b);
      UndoShift(m, b);
      MulLe(1, m, b);
      assert Scaled(m * b, e) == m;
      ExponentFromScaled(m * b, e);
    }
  }

  /** Every decoded value, also from non-canonical and wrapping bits, is n * 256^k with n < 2^23. */
  lemma DecodedShape(c: nat) returns (n: nat, k: nat)
    requires c < U32
    ensures n < 0x80_0000 && CompactToTarget(c) == n * Pow256(k)
  {
    hide Pow2, Pow256, SignBit, Mantissa, ShiftLeftU256, ShiftRight;
    var exponent, mantissa := c / 0x100_0000, Mantissa(c);
    Pow256Zero();
    if mantissa == 0 || SignBit(c) {
      n, k := 0, 0;
    } else if exponent <= 3 {
      n, k := ShiftRight(mantissa, Pow2(8 * (3 - exponent))), 0;
      QuotientBelow(mantissa, Pow2(8 * (3 - exponent)));
    } else {
      k := (exponent - 3) % 32;
      n := ShiftedShape(mantissa, exponent, k);
    }
  }

  /** What any 32 bits denote: nothing with bit 23 set, else the low 23 bits times 256 to the exponent less
      three, a negative power dividing and the exponents from 35 up, and what leaves the word, wrapping. */
  lemma DecodedValue(exponent: nat, mantissa: nat)
    requires exponent < 256 && mantissa < 0x100_0000
    ensures exponent * 0x100_0000 + mantissa < U32
    ensures CompactToTarget(exponent * 0x100_0000 + mantissa)
      == if mantissa >= 0x80_0000 then 0
         else if exponent <= 3 then mantissa / Pow256(3 - exponent)
         else mantissa * Pow256((exponent - 3) % 32) % U256
  {
    hide Pow2, Pow256, SignBit, Mantissa, ShiftRight, ShiftLeftU256;
    if mantissa >= 0x80_0000 {
      SignSet(exponent, mantissa);
    } else {
      Fields(exponent, mantissa);
      if exponent <= 3 {
        Pow2Pow256(3 - exponent);
        Shifted(mantissa, Pow256(3 - exponent), 1);
      } else {
        BytesOf(exponent - 3);
        Pow2Pow256((exponent - 3) % 32);
        Shifted(mantissa, 1, Pow256((exponent - 3) % 32));
      }
    }
  }

  lemma SignSet(e: nat, m: nat)
    requires 0x80_0000 <= m < 0x100_0000
    ensures SignBit(e * 0x100_0000 + m)
  {
    assert (e * 0x100_0000 + m) / 0x80_0000 == 2 * e + 1;
  }

  lemma Shifted(m: nat, a: nat, b: nat)
    requires 0 < a
    ensures ShiftRight(m, a) == m / a && (m == 0 ==> m / a == 0)
    ensures ShiftLeftU256(m, b) == m * b % U256 && (m == 0 ==> m * b % U256 == 0)
  {
  }

  lemma Pow256Zero()
    ensures Pow256(0) == 1
  {
  }

  lemma BytesOf(x: nat)
    ensures 8 * x % 256 == 8 * (x % 32)
  {
  }

  lemma ShiftedShape(mantissa: nat, exponent: nat, k: nat) returns (n: nat)
    requires exponent > 3 && k == (exponent - 3) % 32
    ensures n <= mantissa && ShiftLeftU256(mantissa, Pow2(8 * (exponent - 3) % 256)) == n * Pow256(k)
  {
    hide Pow2, Pow256, ShiftLeftU256;
    BytesOf(exponent - 3);
    Pow2Pow256(k);
    Pow256Add(32 - k, k);
    U256IsPow256();
    n := TruncateMultiple(mantissa, Pow256(32 - k), Pow256(k));
  }

  lemma QuotientBelow(t: nat, b: nat)
    requires 0 < b
    ensures ShiftRight(t, b) <= t
  {
    DivBounds(t, b);
    var q := ShiftRight(t, b);
    MulLe(1, b, q);
  }

  lemma TruncateMultiple(m: nat, a: nat, b: nat) returns (n: nat)
    requires 0 < a && 0 < b && a * b == U256
    ensures n <= m && ShiftLeftU256(m, b) == n * b
  {
    var q := m / a;
    n := m % a;
    MulLe(n + 1, a, b);
    Expand(q, a, n, b);
    RemainderUnique(m * b, a * b, q, n * b);
  }

  lemma Expand(q: nat, a: nat, n: nat, b: nat)
    ensures (q * a + n) * b == q * (a * b) + n * b
  {
  }

  lemma RemainderUnique(t: nat, b: nat, q: nat, r: nat)
    requires t == q * b + r && r < b
    ensures t % b == r
  {
    DivUnique(t, b, q);
  }

  /** Among all values any 32 bits can denote, the encoding of t denotes the largest not above t. */
  lemma BestApproximation(t: nat, c: nat)
    requires t < U256 && c < U32 && CompactToTarget(c) <= t
    ensures Encode(t) < U32 && CompactToTarget(c) <= CompactToTarget(Encode(t))
  {
    DecodeEncode(t);
    if t > 0 && Exponent(t) > 3 {
      var e := Exponent(t);
      var b := Pow256(e - 3);
      var n, k := DecodedShape(c);
      DivBounds(t, b);
      ScaledFromExponent(t);
      if e - 3 <= k {
        Pow256Add(k - (e - 3), e - 3);
        CoarserFits(n, Pow256(k - (e - 3)), b, t);
      } else {
        Pow256Monotone(k, e - 4);
        FinerFits(n, Pow256(k), Pow256(e - 4), t / b);
      }
    }
  }

  lemma CoarserFits(n: nat, a: nat, b: nat, t: nat)
    requires 0 < b && n * (a * b) <= t
    ensures n * (a * b) <= t / b * b
  {
    assert n * (a * b) == (n * a) * b;
    DivBounds(t, b);
    MulOrder(n * a, t / b, b);
    MulLe(n * a, t / b, b);
  }

  lemma FinerFits(n: nat, a: nat, b: nat, m: nat)
    requires n < 0x80_0000 && a <= b && 0x8000 <= m
    ensures n * a <= m * (256 * b)
  {
    MulLe(n, 0x80_0000, a);
    MulLe(0x8000, m, 256 * b);
  }

  /** Targets that some bits denote survive the round trip unchanged. */
  lemma RepresentableRoundTrip(c: nat)
    requires c < U32
    ensures CompactToTarget(c) < U256
    ensures Encode(CompactToTarget(c)) < U32
    ensures CompactToTarget(Encode(CompactToTarget(c))) == CompactToTarget(c)
  {
    TargetBelowU256(c);
    BestApproximation(CompactToTarget(c), c);
    RoundTripError(CompactToTarget(c));
  }

  lemma TargetBelowU256(c: nat)
    requires c < U32
    ensures CompactToTarget(c) < U256
  {
    var exponent := c / 0x100_0000;
    if exponent <= 3 { QuotientBelow(Mantissa(c), Pow2(8 * (3 - exponent))); }
  }
}
