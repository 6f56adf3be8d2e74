/** What decimal text means: place values, and which text is read and written for which number. */
module DecimalLaws {
  import opened Results
  import opened Decimal

  const DIGITS := "0123456789"

  function PowerOfTen(k: nat): (p: nat)
    ensures p >= 1
  {
    if k == 0 then 1 else 10 * PowerOfTen(k - 1)
  }

  /** The sum of the digits, each times the power of ten of its place; the digit '0' has code 48. */
  function Positional(s: string): int {
    if s == [] then 0 else (s[0] as int - 48) * PowerOfTen(|s| - 1) + Positional(s[1..])
  }

  lemma {:induction false} PositionalSnoc(s: string, c: char)
    ensures Positional(s + [c]) == 10 * Positional(s) + (c as int - 48)
  {
    if s == [] {
      assert ([] + [c])[1..] == [];
    } else {
      PositionalSnoc(s[1..], c);
      assert (s + [c])[1..] == s[1..] + [c];
      var d, p := s[0] as int - 48, PowerOfTen(|s| - 1);
      assert PowerOfTen(|s|) == 10 * p && d * (10 * p) == 10 * (d * p);
    }
  }

  /** A run of digits denotes the number it is written for. */
  lemma {:induction false} DigitsArePositional(s: string)
    requires AllDigits(s)
    ensures DigitsValue(s) == Positional(s)
  {
    if s != [] {
      var front, c := s[..|s| - 1], s[|s| - 1];
      DigitsArePositional(front);
      PositionalSnoc(front, c);
      assert s == front + [c];
    }
  }

  /** The digits. */
  lemma DigitTable(c: char)
    ensures IsDigit(c) <==> c in DIGITS
    ensures IsDigit(c) ==> c == DIGITS[c as int - 48]
  {
    assert DIGITS[0] == '0' && DIGITS[1] == '1' && DIGITS[2] == '2' && DIGITS[3] == '3' && DIGITS[4] == '4';
    assert DIGITS[5] == '5' && DIGITS[6] == '6' && DIGITS[7] == '7' && DIGITS[8] == '8' && DIGITS[9] == '9';
  }

  /** A number below ten is written as its digit. */
  lemma OneDigit(n: int)
    requires 0 <= n < 10
    ensures IntToString(n) == DIGITS[n..n + 1]
  {
    var s := IntToString(n);
    assert |s| == 1;
    NatRoundTrip(n);
    DigitsArePositional(s);
    assert s[1..] == [] && Positional(s) == s[0] as int - 48;
    DigitTable(s[0]);
  }

  /** A digit run, with or without a sign. */
  function Magnitude(s: string): string {
    if s != [] && (s[0] == '+' || s[0] == '-') then s[1..] else s
  }

  /** `s` is a number in decimal: a sign or none, and then at least one digit. */
  predicate IsNumeral(s: string) {
    Magnitude(s) != [] && forall c :: c in Magnitude(s) ==> c in DIGITS
  }

  function NumeralValue(s: string): int {
    if s != [] && s[0] == '-' then -Positional(Magnitude(s)) else Positional(Magnitude(s))
  }

  lemma AllDigitsExactly(s: string)
    ensures AllDigits(s) <==> forall c :: c in s ==> c in DIGITS
  {
    forall i | 0 <= i < |s|
      ensures IsDigit(s[i]) <==> s[i] in DIGITS
    {
      DigitTable(s[i]);
    }
    if AllDigits(s) {
      forall c | c in s
        ensures c in DIGITS
      {
        DigitTable(c);
      }
    }
  }

  /** `lexical_cast<int>` reads exactly the numerals of 32-bit signed numbers, and each as its value. */
  lemma LexicalIntExactly(s: string, n: int)
    ensures LexicalInt(s) == Some(n) <==> IsNumeral(s) && n == NumeralValue(s) && -2147483648 <= n <= 2147483647
  {
    AllDigitsExactly(Magnitude(s));
    if AllDigits(Magnitude(s)) {
      DigitsArePositional(Magnitude(s));
    }
  }

  /** `lexical_cast<unsigned>` reads exactly the digit runs below 2^32, and each as its value. */
  lemma LexicalUnsignedExactly(s: string, n: nat)
    ensures LexicalUnsigned(s) == Some(n) <==>
            s != [] && (forall c :: c in s ==> c in DIGITS) && n == Positional(s) && n < 4294967296
  {
    AllDigitsExactly(s);
    if AllDigits(s) {
      DigitsArePositional(s);
    }
  }

  /** A numeral as it is written: no plus, no leading zero, no minus before zero. */
  predicate Canonical(s: string) {
    && IsNumeral(s) && s[0] != '+'
    && (|Magnitude(s)| > 1 ==> Magnitude(s)[0] != '0')
    && s != "-0"
  }

  lemma {:induction false} NatIsCanonical(n: nat)
    ensures NatToString(n)[0] == '0' ==> n == 0
    ensures |NatToString(n)| > 1 <==> n >= 10
  {
    if n < 10 {
      OneDigit(n);
    } else {
      NatIsCanonical(n / 10);
    }
  }

  /** The only numeral without leading zeros for a number is the one that is written. */
  lemma {:induction false} CanonicalUnique(s: string)
    requires s != [] && AllDigits(s) && (|s| > 1 ==> s[0] != '0')
    ensures NatToString(DigitsValue(s)) == s
  {
    var front, c := s[..|s| - 1], s[|s| - 1];
    DigitsArePositional([c]);
    if front == [] {
      assert s == [c] && DigitsValue([]) == 0;
      assert s[..0] == [];
    } else {
      CanonicalUnique(front);
      NatIsCanonical(DigitsValue(front));
      LeadingDigit(front);
      assert s == front + [c];
    }
  }

  /** A digit run that does not begin with a zero is not zero. */
  lemma {:induction false} LeadingDigit(s: string)
    requires s != [] && AllDigits(s) && s[0] != '0'
    ensures DigitsValue(s) > 0
  {
    if |s| > 1 {
      LeadingDigit(s[..|s| - 1]);
    } else {
      DigitsArePositional(s);
      assert s[1..] == [];
    }
  }

  lemma WrittenIsCanonical(n: int)
    ensures Canonical(IntToString(n)) && NumeralValue(IntToString(n)) == n
  {
    hide NatToString, Positional;
    var m := if n < 0 then -n else n;
    var digits := NatToString(m);
    NatRoundTrip(m);
    NatIsCanonical(m);
    DigitsArePositional(digits);
    AllDigitsExactly(digits);
    assert IsDigit(digits[0]);
    if n < 0 {
      assert IntToString(n)[0] == '-' && IntToString(n)[1..] == digits;
      assert digits != "0" by { ZeroDigit(); }
    }
  }

  lemma ZeroDigit()
    ensures DigitsValue("0") == 0
  {
    DigitsArePositional("0");
    assert "0"[1..] == "";
  }

  lemma CanonicalIsWritten(s: string)
    requires Canonical(s)
    ensures IntToString(NumeralValue(s)) == s
  {
    hide NatToString, Positional;
    var digits := Magnitude(s);
    AllDigitsExactly(digits);
    DigitsArePositional(digits);
    CanonicalUnique(digits);
    if s[0] == '-' {
      assert s == "-" + digits;
      assert digits[0] == '0' ==> digits == "0";
      if digits[0] != '0' {
        LeadingDigit(digits);
      }
    }
  }

  /** The text that is written for a number is its one numeral without spare signs or zeros. */
  lemma IntTextExactly(s: string, n: int)
    ensures IntToString(n) == s <==> Canonical(s) && n == NumeralValue(s)
  {
    hide IntToString, Canonical, NumeralValue;
    WrittenIsCanonical(n);
    if Canonical(s) {
      CanonicalIsWritten(s);
    }
  }
}
