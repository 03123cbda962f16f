/**
 Text as C sees it: a `char` stands for one byte, `p` for a pointer into a buffer of
 `|t|` bytes that is followed by a NUL terminator.
 */
module CText {

  const NUL: char := '\0'

  datatype Option<+T> = None | Some(value: T)

  /** The byte at `p`; the terminator is the last byte that may be read. */
  function At(t: string, p: nat): char
    requires p <= |t|
  {
    if p < |t| then t[p] else NUL
  }

  predicate IsSpace(c: char) {
    c == '\n' || c == ' ' || c == '\t' || c == '\r'
  }

  predicate IsDigit(c: char) {
    '0' <= c <= '9'
  }

  predicate IsNumberChar(c: char) {
    IsDigit(c) || c == '+' || c == '-' || c == 'e' || c == 'E' || c == '.'
  }

  /** c - '0' */
  function DigitOf(c: char): int {
    c as int - '0' as int
  }

  /** The C string held by a buffer: everything before the first NUL. */
  function CString(t: string): (r: string)
    ensures |r| <= |t| && r == t[..|r|]
    ensures NUL !in r
    ensures |r| < |t| ==> t[|r|] == NUL
  {
    if t == [] || t[0] == NUL then []
    else
      var rest := CString(t[1..]);
      assert t[..|rest| + 1] == [t[0]] + t[1..][..|rest|];
      [t[0]] + rest
  }

  /** A text without NUL is its own C string. */
  lemma {:induction false} CStringWhole(t: string)
    requires NUL !in t
    ensures CString(t) == t
  {
    var r := CString(t);
    assert forall i :: 0 <= i < |t| ==> t[i] != NUL;
  }

  /** A C string stops at the first NUL, wherever the buffer ends. */
  lemma {:induction false} CStringCut(s: string, rest: string)
    ensures CString(s + [NUL] + rest) == CString(s)
    decreases |s|
  {
    var t := s + [NUL] + rest;
    if s != [] && s[0] != NUL {
      assert t[1..] == s[1..] + [NUL] + rest;
      CStringCut(s[1..], rest);
    }
  }

  const TWO63: int := 0x8000_0000_0000_0000
  const TWO64: int := 0x1_0000_0000_0000_0000

  /** Two's complement int64_t. */
  function Wrap64(x: int): (r: int)
    ensures -TWO63 <= r < TWO63
    ensures -TWO63 <= x < TWO63 ==> r == x
  {
    (x + TWO63) % TWO64 - TWO63
  }

  const TWO31: int := 0x8000_0000
  const TWO32: int := 0x1_0000_0000

  /** Conversion of an int64_t to int. */
  function Wrap32(x: int): (r: int)
    ensures -TWO31 <= r < TWO31
    ensures -TWO31 <= x < TWO31 ==> r == x
  {
    (x + TWO31) % TWO32 - TWO31
  }

  /** Conversion of an int64_t to uint32_t. */
  function Unsigned32(x: int): (r: int)
    ensures 0 <= r < TWO32
    ensures 0 <= x < TWO32 ==> r == x
  {
    x % TWO32
  }

  /** Multiplying and adding commutes with wrapping, so a wrapped accumulator holds the wrapped total. */
  lemma WrapStep(x: int, d: int)
    ensures Wrap64(Wrap64(x) * 10 + d) == Wrap64(x * 10 + d)
  {
    var k := (x + TWO63) / TWO64;
    assert Wrap64(x) == x - k * TWO64;
    var a := x * 10 + d + TWO63;
    assert Wrap64(x) * 10 + d + TWO63 == a + TWO64 * (-10 * k);
    ModShift(a, -10 * k);
  }

  lemma ModShift(a: int, k: int)
    ensures (a + TWO64 * k) % TWO64 == a % TWO64
  {
    var b := a + TWO64 * k;
    var q := b / TWO64 - a / TWO64 - k;
    assert TWO64 * q == a % TWO64 - b % TWO64;
    assert q == 0;
  }

  function Pow10(n: nat): (r: int)
    ensures r > 0
  {
    if n == 0 then 1 else 10 * Pow10(n - 1)
  }

  /** pow (10.0, e) as an exact rational. */
  function Power(e: int): (r: real)
    ensures r > 0.0
  {
    if e >= 0 then Pow10(e) as real else 1.0 / Pow10(-e) as real
  }

  /** r * pow (10.0, e) */
  function Scale(r: real, e: int): real {
    r * Power(e)
  }

  /** n / pow (10.0, digits) */
  function Tail(n: int, digits: nat): real {
    n as real / Pow10(digits) as real
  }

  predicate AllDigits(s: string) {
    forall i :: 0 <= i < |s| ==> IsDigit(s[i])
  }

  /** The number a run of digits spells, most significant first. */
  function Decimal(ds: string): int {
    if ds == [] then 0 else Decimal(ds[..|ds| - 1]) * 10 + DigitOf(ds[|ds| - 1])
  }

  lemma {:induction false} DecimalBound(ds: string)
    requires AllDigits(ds)
    ensures 0 <= Decimal(ds) < Pow10(|ds|)
  {
    if ds != [] {
      DecimalBound(ds[..|ds| - 1]);
    }
  }
}
