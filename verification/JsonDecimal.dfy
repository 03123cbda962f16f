/**
 The number that a numeral spells, in terms of its digits alone, and when the parser's
 accumulators and floating point steps arrive at it.
 */
module JsonDecimal {
  import opened CText
  import opened JsonReference
  import opened JsonGrammar
  import opened JsonGrammarReads

  // ---- digits

  /** The ten digits and their values. */
  lemma DigitSpelled(c: char)
    ensures IsDigit(c) <==> c in "0123456789"
    ensures IsDigit(c) ==> 0 <= DigitOf(c) < 10 && "0123456789"[DigitOf(c)] == c
  {
    var ten := "0123456789";
    if c in ten {
      var i :| 0 <= i < 10 && ten[i] == c;
    }
  }

  function Zeros(n: nat): (r: string)
    ensures |r| == n
  {
    seq(n, _ => '0')
  }

  /** A power of ten is written as a one and its zeros. */
  lemma {:induction false} Pow10Spelled(n: nat)
    ensures Decimal("1" + Zeros(n)) == Pow10(n)
  {
    if n == 0 {
      assert "1" + Zeros(0) == "1";
      assert "1"[..0] == "";
    } else {
      var s := "1" + Zeros(n);
      assert s[..|s| - 1] == "1" + Zeros(n - 1) && s[|s| - 1] == '0';
      Pow10Spelled(n - 1);
    }
  }

  /** Digits written one behind the other. */
  lemma {:induction false} DecimalAppend(a: string, b: string)
    ensures Decimal(a + b) == Decimal(a) * Pow10(|b|) + Decimal(b)
    decreases |b|
  {
    if b == [] {
      assert a + b == a;
    } else {
      var c := b[..|b| - 1];
      var d := DigitOf(b[|b| - 1]);
      assert (a + b)[..|a + b| - 1] == a + c && (a + b)[|a + b| - 1] == b[|b| - 1];
      DecimalAppend(a, c);
      TenMore(Decimal(a), Pow10(|c|), Decimal(c), d);
    }
  }

  lemma TenMore(x: int, p: int, y: int, d: int)
    ensures (x * p + y) * 10 + d == x * (10 * p) + (y * 10 + d)
  {
  }

  // ---- numerals

  function FracOf(n: Numeral): string {
    if n.frac.None? then "" else n.frac.value
  }

  function ExpOf(n: Numeral): int {
    if n.exp.None? then 0
    else if n.exp.value.sign.Minus? then -Decimal(n.exp.value.digits)
    else Decimal(n.exp.value.digits)
  }

  /** All the digits of the numeral as one integer, with its sign. */
  function Digits(n: Numeral): int {
    var i := Decimal(n.whole + FracOf(n));
    if n.negative then -i else i
  }

  /** i times ten to the k */
  function Shifted(i: int, k: int): real {
    if k >= 0 then (i * Pow10(k)) as real else i as real / Pow10(-k) as real
  }

  /** The number of section 6 of RFC 8259: an integer if it has neither a fraction nor an exponent. */
  function NumeralDenoted(n: Numeral): Json {
    if n.frac.None? && n.exp.None? then Int(Digits(n))
    else Dbl(Shifted(Digits(n), ExpOf(n) - |FracOf(n)|))
  }

  /** The value as an integer or a real. */
  function ValueOf(v: Json): real {
    match v
    case Int(i) => i as real
    case Dbl(r) => r
    case _ => 0.0
  }

  /** x * 10^k = i * 10^e, over common denominators. */
  predicate Equals(x: real, k: nat, i: int, e: int) {
    if e >= 0 then x * Pow10(k) as real == (i * Pow10(e)) as real
    else x * Pow10(k) as real * Pow10(-e) as real == i as real
  }

  /** The value, times ten to the number of its fraction digits, is all its digits times ten to the exponent. */
  predicate Spells(v: Json, n: Numeral) {
    && (if n.frac.None? && n.exp.None? then v.Int? else v.Dbl?)
    && Equals(ValueOf(v), |FracOf(n)|, Digits(n), ExpOf(n))
  }

  // ---- powers; products are named so that each step unfolds only those it needs

  function Times(x: real, y: real): real {
    x * y
  }

  lemma PowerStep(k: int)
    ensures Power(k + 1) == 10.0 * Power(k)
  {
    if k < 0 {
      assert Pow10(-k) == 10 * Pow10(-k - 1);
      Tenth(Pow10(-k - 1));
    }
  }

  lemma Tenth(p: int)
    requires p > 0
    ensures 1.0 / p as real == 10.0 * (1.0 / (10 * p) as real)
  {
  }

  lemma {:induction false} PowerLess(e: int, f: nat)
    ensures Power(e) == Times(Power(e - f), Pow10(f) as real)
    decreases f
  {
    if f == 0 {
      assert Pow10(0) as real == 1.0;
      TimesOne(Power(e));
    } else {
      PowerLess(e, f - 1);
      PowerStep(e - f);
      assert Pow10(f) == 10 * Pow10(f - 1);
      hide Times, Power;
      TimesTen(Power(e - f), Pow10(f - 1) as real);
    }
  }

  lemma TimesOne(x: real)
    ensures Times(x, 1.0) == x
  {
  }

  lemma TimesTen(x: real, y: real)
    ensures Times(10.0 * x, y) == Times(x, 10.0 * y)
  {
  }

  lemma ShiftedIs(i: int, k: int)
    ensures Shifted(i, k) == Times(i as real, Power(k))
  {
    if k < 0 {
      Over(i as real, Pow10(-k) as real);
    } else {
      Product(i, Pow10(k));
    }
  }

  lemma Over(x: real, y: real)
    requires y > 0.0
    ensures x / y == Times(x, 1.0 / y)
  {
  }

  lemma Product(i: int, p: int)
    ensures (i * p) as real == Times(i as real, p as real)
  {
  }

  // ---- the parser's way to the number

  /** A whole part, a fraction, and a scale: the code's steps against the digits in one piece. */
  lemma StepsMeet(w: int, f: int, k: nat, e: int)
    ensures Scale(w as real + Tail(f, k), e) == Shifted(w * Pow10(k) + f, e - k)
  {
    var i := w * Pow10(k) + f;
    assert i as real == (w * Pow10(k)) as real + f as real;
    ShiftedIs(i, e - k);
    PowerLess(e, k);
    Product(w, Pow10(k));
    ScaleIs(w as real + Tail(f, k), e);
    TailIs(f, k);
    hide Scale, Tail, Power, Pow10, Shifted, Times;
    Gathered(w as real, f as real, Pow10(k) as real, Power(e - k));
  }

  lemma ScaleIs(m: real, e: int)
    ensures Scale(m, e) == Times(m, Power(e))
  {
  }

  lemma TailIs(f: int, k: nat)
    ensures Tail(f, k) == f as real / Pow10(k) as real
  {
  }

  lemma Gathered(w: real, f: real, p: real, q: real)
    requires p > 0.0
    ensures Times(w + f / p, Times(q, p)) == Times(Times(w, p) + f, q)
  {
    var x := w + f / p;
    assert x * p == w * p + f;
    Swap(x, q, p);
  }

  lemma Swap(x: real, q: real, p: real)
    ensures x * (q * p) == (x * p) * q
  {
  }

  lemma ShiftedNegative(i: int, k: int)
    ensures Shifted(-i, k) == -Shifted(i, k)
  {
    ShiftedIs(i, k);
    ShiftedIs(-i, k);
    hide Shifted, Power;
    assert (-i) as real == -(i as real);
  }

  lemma ScaleOne(m: real)
    ensures Scale(m, 0) == m
  {
    assert Power(0) == 1.0;
  }

  lemma TailNothing()
    ensures Tail(0, 0) == 0.0
  {
  }

  /** With at most 18 digits in each part the 64-bit accumulators and the steps on them give the number spelled. */
  lemma SmallNumeral(n: Numeral)
    requires NumeralOk(n) && NumeralSmall(n)
    ensures NumeralMeaning(n) == NumeralDenoted(n)
  {
    if n.frac.None? && n.exp.None? {
      SmallDecimal(n.whole);
      assert n.whole + FracOf(n) == n.whole;
      hide Decimal;
    } else {
      MantissaIs(n);
      DigitsMeet(n);
      hide NumeralMeaning, Scale, Tail, Shifted, Decimal, ExpOf, Digits;
    }
  }

  lemma DigitsMeet(n: Numeral)
    ensures var m := Scale(Decimal(n.whole) as real + Tail(Decimal(FracOf(n)), |FracOf(n)|), ExpOf(n));
            Shifted(Digits(n), ExpOf(n) - |FracOf(n)|) == if n.negative then -m else m
  {
    var w, f, k, e := Decimal(n.whole), Decimal(FracOf(n)), |FracOf(n)|, ExpOf(n);
    var i := Decimal(n.whole + FracOf(n));
    DecimalAppend(n.whole, FracOf(n));
    hide Decimal, Scale, Tail, Shifted, ExpOf, Pow10;
    StepsMeet(w, f, k, e);
    ShiftedNegative(i, e - k);
  }

  /** The code's mantissa, scaled or not. */
  lemma MantissaIs(n: Numeral)
    requires NumeralOk(n) && NumeralSmall(n) && !(n.frac.None? && n.exp.None?)
    ensures var m := Scale(Decimal(n.whole) as real + Tail(Decimal(FracOf(n)), |FracOf(n)|), ExpOf(n));
            NumeralMeaning(n) == Dbl(if n.negative then -m else m)
  {
    SmallDecimal(n.whole);
    SmallDecimal(FracOf(n));
    SmallExp(n);
    TailNothing();
    hide Tail, Scale, ExpMeaning, Wrap64;
    ScaleOne(Decimal(n.whole) as real + Tail(Decimal(FracOf(n)), |FracOf(n)|));
  }

  lemma SmallExp(n: Numeral)
    requires NumeralOk(n) && NumeralSmall(n)
    ensures n.exp.Some? ==> ExpMeaning(n.exp.value) == ExpOf(n)
  {
    if n.exp.Some? {
      SmallDecimal(n.exp.value.digits);
    }
  }

  lemma {:induction false} Pow10Monotone(m: nat, n: nat)
    requires m <= n
    ensures Pow10(m) <= Pow10(n)
    decreases n - m
  {
    if m < n {
      Pow10Monotone(m, n - 1);
    }
  }

  lemma SmallDecimal(ds: string)
    requires AllDigits(ds) && |ds| <= 18
    ensures 0 <= Decimal(ds) < TWO63
  {
    DecimalBound(ds);
    Pow10Monotone(|ds|, 18);
    assert Pow10(18) == 1_000_000_000_000_000_000 by {
      assert Pow10(9) == 1_000_000_000;
      assert Pow10(14) == 100_000 * Pow10(9);
    }
  }

  // ---- what a number read from a text satisfies

  lemma DenotedSpells(n: Numeral)
    ensures Spells(NumeralDenoted(n), n)
  {
    hide Digits, Equals, Shifted;
    WholeEquals(Digits(n));
    ShiftedEquals(|FracOf(n)|, Digits(n), ExpOf(n));
  }

  lemma WholeEquals(i: int)
    ensures Equals(i as real, 0, i, 0)
  {
    assert Pow10(0) == 1;
  }

  lemma ShiftedEquals(k: nat, i: int, e: int)
    ensures Equals(Shifted(i, e - k), k, i, e)
  {
    hide Shifted, Pow10;
    if e >= 0 {
      ShiftedUp(i, k, e);
    } else {
      ShiftedDown(i, k, e);
    }
  }

  /** Multiplied by 10^k, a number shifted by e - k is shifted by e. */
  lemma ShiftedMore(i: int, k: nat, e: int)
    ensures Shifted(i, e - k) * Pow10(k) as real == Times(i as real, Power(e))
  {
    var p := Pow10(k) as real;
    ShiftedIs(i, e - k);
    PowerLess(e, k);
    hide Power, Pow10, Shifted;
    IsTimes(Shifted(i, e - k), p);
    hide Times;
    Assoc(i as real, Power(e - k), p);
  }

  lemma IsTimes(x: real, y: real)
    ensures x * y == Times(x, y)
  {
  }

  lemma ShiftedUp(i: int, k: nat, e: nat)
    ensures Shifted(i, e - k) * Pow10(k) as real == (i * Pow10(e)) as real
  {
    ShiftedMore(i, k, e);
    assert Power(e) == Pow10(e) as real;
    hide Power, Pow10, Shifted, Times;
    Product(i, Pow10(e));
  }

  lemma ShiftedDown(i: int, k: nat, e: int)
    requires e < 0
    ensures Shifted(i, e - k) * Pow10(k) as real * Pow10(-e) as real == i as real
  {
    ShiftedMore(i, k, e);
    assert Power(e) == 1.0 / Pow10(-e) as real;
    hide Power, Pow10, Shifted, Times;
    Cancel(i as real, Pow10(-e) as real);
  }

  lemma Assoc(x: real, y: real, z: real)
    ensures Times(Times(x, y), z) == Times(x, Times(y, z))
  {
  }

  lemma Cancel(x: real, y: real)
    requires y > 0.0
    ensures Times(x, 1.0 / y) * y == x
  {
    assert x * (1.0 / y) == x / y;
  }

  /** Every number of RFC 8259 with at most 18 digits in each part, in any text, is read as the number it spells. */
  lemma NumberRead(before: string, n: Numeral, after: string)
    requires AllSpace(before) && AllSpace(after) && NumeralOk(n) && NumeralSmall(n)
    ensures var d := Document(before + WriteNumeral(n) + after);
            d.Some? && Spells(d.value, n)
  {
    DocumentRead(before, CNum(n), after);
    SmallNumeral(n);
    DenotedSpells(n);
    assert Write(CNum(n)) == WriteNumeral(n);
    hide *;
  }
}
