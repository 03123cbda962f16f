/**
 Decimal numerals: the canonical digits of a number and reading them back.
 */
module Digits {
  import opened CText

  function DigitChar(d: nat): (c: char)
    requires d < 10
    ensures IsDigit(c) && DigitOf(c) == d
  {
    ('0' as int + d) as char
  }

  /** The decimal digits of n, most significant first, without superfluous zeros. */
  function DigitsOf(n: nat): (s: string)
    ensures s != [] && AllDigits(s)
  {
    if n < 10 then [DigitChar(n)] else DigitsOf(n / 10) + [DigitChar(n % 10)]
  }

  /** printf's %d */
  function Show(n: int): string {
    if n < 0 then ['-'] + DigitsOf(-n) else DigitsOf(n)
  }

  lemma {:induction false} DigitsRoundTrip(n: nat)
    ensures Decimal(DigitsOf(n)) == n
  {
    if n >= 10 {
      DigitsRoundTrip(n / 10);
      var s := DigitsOf(n);
      assert s[..|s| - 1] == DigitsOf(n / 10);
    } else {
      assert DigitsOf(n)[..0] == [];
    }
  }

  lemma {:induction false} NoLeadingZero(n: nat)
    ensures n > 0 ==> DigitsOf(n)[0] != '0'
    ensures |DigitsOf(n)| > 1 ==> DigitsOf(n)[0] != '0'
  {
    if n >= 10 {
      NoLeadingZero(n / 10);
    }
  }

  /** A numeral without superfluous zeros is the only one of its value. */
  lemma {:induction false} Canonical(s: string)
    requires AllDigits(s) && s != [] && (|s| > 1 ==> s[0] != '0')
    ensures Decimal(s) >= 0 && DigitsOf(Decimal(s)) == s
    decreases |s|
  {
    var k := |s| - 1;
    assert s == s[..k] + [s[k]];
    DecimalBound(s);
    if k == 0 {
      assert s[..0] == [];
    } else {
      Canonical(s[..k]);
      Positive(s[..k]);
    }
  }

  lemma {:induction false} Positive(s: string)
    requires AllDigits(s) && s != [] && s[0] != '0'
    ensures Decimal(s) > 0
    decreases |s|
  {
    if |s| > 1 {
      Positive(s[..|s| - 1]);
    }
  }
}
