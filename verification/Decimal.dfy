/** Decimal text of unsigned 64-bit numbers: what `to_string` writes and `parse::<u64>` reads. */
module Decimal {
  import opened Arithmetic
  import opened Wrappers

  predicate IsDigit(c: char) {
    '0' <= c <= '9'
  }

  function Digit(n: nat): (c: char)
    requires n < 10
    ensures IsDigit(c) && DigitValue(c) == n
  {
    '0' + n as char
  }

  function DigitValue(c: char): nat {
    if IsDigit(c) then (c - '0') as nat else 0
  }

  function ToText(n: nat): string {
    if n < 10 then [Digit(n)] else ToText(n / 10) + [Digit(n % 10)]
  }

  predicate AllDigits(s: string) {
    forall i :: 0 <= i < |s| ==> IsDigit(s[i])
  }

  function FromDigits(s: string): nat {
    if s == [] then 0 else 10 * FromDigits(s[..|s| - 1]) + DigitValue(s[|s| - 1])
  }

  /** An optional plus sign, at least one digit, nothing else, and no overflow. */
  function ParseU64(s: string): (r: Option<nat>)
    ensures r.Some? ==> r.value < U64
  {
    var digits := if |s| > 0 && s[0] == '+' then s[1..] else s;
    if digits == [] || !AllDigits(digits) then None
    else if FromDigits(digits) >= U64 then None
    else Some(FromDigits(digits))
  }

  /** A decimal numeral: digits only, at least one, worth n. */
  ghost predicate IsNumeral(s: string, n: nat) {
    s != [] && (forall i :: 0 <= i < |s| ==> '0' <= s[i] <= '9') && FromDigits(s) == n
  }

  /** What is read as n: a numeral of a 64-bit number, with or without a plus sign. */
  ghost predicate Reads(s: string, n: nat) {
    n < 0x1_0000_0000_0000_0000 && (IsNumeral(s, n) || (s != [] && s[0] == '+' && IsNumeral(s[1..], n)))
  }

  /** Parsing accepts exactly the numerals of 64-bit numbers. */
  lemma ParseIff(s: string, n: nat)
    ensures ParseU64(s) == Some(n) <==> Reads(s, n)
  {
    if s != [] && s[0] == '+' {
      assert !IsDigit(s[0]);
    }
  }

  /** Digits are read from the left, each worth its own value. */
  lemma NumeralStep(s: string, n: nat, d: nat)
    requires IsNumeral(s, n) && d < 10
    ensures IsNumeral(s + ["0123456789"[d]], 10 * n + d)
  {
    var t := s + ["0123456789"[d]];
    assert t[..|t| - 1] == s;
  }

  lemma {:induction false} TextOfNumber(n: nat)
    ensures ToText(n) != [] && AllDigits(ToText(n)) && FromDigits(ToText(n)) == n
  {
    if n < 10 {
      assert [Digit(n)][..0] == [];
    } else {
      TextOfNumber(n / 10);
      var text := ToText(n);
      assert text[..|text| - 1] == ToText(n / 10);
    }
  }

  /** Written and read back, a 64-bit number is itself. */
  lemma RoundTrip(n: nat)
    ensures ParseU64(ToText(n)) == if n < U64 then Some(n) else None
  {
    TextOfNumber(n);
    assert IsDigit(ToText(n)[0]);
  }
}
