/** Decimal text of machine integers: what `boost::lexical_cast` reads and writes. */
module Decimal {
  import opened Results

  const INT_MIN := -0x8000_0000
  const INT_MAX := 0x7fff_ffff
  const UNSIGNED_MODULUS := 0x1_0000_0000

  /** A value of the C++ type `unsigned`. */
  type Unsigned = n: nat | n < UNSIGNED_MODULUS

  /** The values of a C++ `int`. */
  predicate FitsInt(n: int) {
    INT_MIN <= n <= INT_MAX
  }

  predicate IsDigit(c: char) {
    '0' <= c <= '9'
  }

  predicate AllDigits(s: string) {
    forall i :: 0 <= i < |s| ==> IsDigit(s[i])
  }

  function DigitChar(d: int): (c: char)
    requires 0 <= d < 10
    ensures IsDigit(c) && DigitValue(c) == d
  {
    '0' + d as char
  }

  function DigitValue(c: char): (d: int)
    requires IsDigit(c)
    ensures 0 <= d < 10
  {
    c as int - '0' as int
  }

  /** The number a run of digits denotes; leading zeros are allowed. */
  function DigitsValue(s: string): (n: int)
    requires AllDigits(s)
    ensures n >= 0
  {
    if s == [] then 0 else DigitsValue(s[..|s| - 1]) * 10 + DigitValue(s[|s| - 1])
  }

  /** `lexical_cast<std::string>` of an unsigned number. */
  function NatToString(n: nat): (s: string)
    ensures s != [] && AllDigits(s)
  {
    if n < 10 then [DigitChar(n)] else NatToString(n / 10) + [DigitChar(n % 10)]
  }

  /** `lexical_cast<std::string>` of an `int`. */
  function IntToString(n: int): string {
    if n < 0 then "-" + NatToString(-n) else NatToString(n)
  }

  predicate HasSign(s: string) {
    s != [] && (s[0] == '+' || s[0] == '-')
  }

  /** `lexical_cast<int>`: an optional sign, at least one digit, nothing else, and in range. */
  function LexicalInt(s: string): Option<int> {
    var digits := if HasSign(s) then s[1..] else s;
    if digits == [] || !AllDigits(digits) then
      None
    else
      var n: int := if s[0] == '-' then -DigitsValue(digits) else DigitsValue(digits);
      if FitsInt(n) then Some(n) else None
  }

  /** `lexical_cast<unsigned>` of text already known to hold digits only. */
  function LexicalUnsigned(s: string): Option<nat> {
    if s == [] || !AllDigits(s) || DigitsValue(s) >= UNSIGNED_MODULUS then None else Some(DigitsValue(s))
  }

  lemma {:induction false} NatRoundTrip(n: nat)
    ensures DigitsValue(NatToString(n)) == n
  {
    if n < 10 {
      assert NatToString(n)[..0] == [];
    } else {
      NatRoundTrip(n / 10);
      assert NatToString(n)[..|NatToString(n)| - 1] == NatToString(n / 10);
    }
  }

  /** A written `int` reads back as itself. */
  lemma IntRoundTrip(n: int)
    requires FitsInt(n)
    ensures LexicalInt(IntToString(n)) == Some(n)
  {
    var digits := NatToString(if n < 0 then -n else n);
    NatRoundTrip(if n < 0 then -n else n);
    if n < 0 {
      assert IntToString(n)[1..] == digits;
    } else {
      assert IsDigit(digits[0]) && !HasSign(digits);
    }
  }

  lemma UnsignedRoundTrip(n: nat)
    requires n < UNSIGNED_MODULUS
    ensures LexicalUnsigned(NatToString(n)) == Some(n)
  {
    NatRoundTrip(n);
  }
}
