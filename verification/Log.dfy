/**
 Writing a number without printf, for signal handlers.
 */
module Log {
  import opened CText
  import opened Digits

  const ENAMETOOLONG := 36

  function Reverse(s: string): (r: string)
    ensures |r| == |s|
  {
    if s == [] then [] else [s[|s| - 1]] + Reverse(s[..|s| - 1])
  }

  lemma {:induction false} ReverseAt(s: string, i: nat)
    requires i < |s|
    ensures Reverse(s)[i] == s[|s| - 1 - i]
    decreases |s|
  {
    if i > 0 {
      ReverseAt(s[..|s| - 1], i - 1);
    }
  }

  /** The last digit goes to the front of what is already written backwards. */
  lemma DigitStep(n: nat, written: string)
    ensures DigitsOf(n) + Reverse(written) ==
            (if n < 10 then "" else DigitsOf(n / 10)) + Reverse(written + [DigitChar(n % 10)])
  {
    var more := written + [DigitChar(n % 10)];
    assert more[..|more| - 1] == written;
    assert Reverse(more) == [DigitChar(n % 10)] + Reverse(written);
  }

  /** The first loop: digits from the least significant on, until none is left or the buffer is full. */
  method WriteBackwards(val: nat, buf: array<char>, bufLen: nat) returns (i: nat)
    requires 1 <= bufLen <= buf.Length
    modifies buf
    ensures buf[bufLen..] == old(buf[bufLen..])
    ensures i <= bufLen - 1
    ensures if i == bufLen - 1 then |DigitsOf(val)| >= bufLen else Reverse(buf[..i + 1]) == DigitsOf(val)
  {
    i := 0;
    var v := val;
    assert DigitsOf(v) + Reverse(buf[..0]) == DigitsOf(v);
    while i < bufLen - 1
      invariant i <= bufLen - 1 && buf[bufLen..] == old(buf[bufLen..])
      invariant DigitsOf(val) == DigitsOf(v) + Reverse(buf[..i])
      decreases bufLen - i
    {
      DigitStep(v, buf[..i]);
      buf[i] := DigitChar(v % 10);
      assert buf[..i + 1] == buf[..i] + [DigitChar(v % 10)];
      v := v / 10;
      if v == 0 {
        assert "" + Reverse(buf[..i + 1]) == Reverse(buf[..i + 1]);
        return;
      }
      i := i + 1;
    }
  }

  /** The second loop: the first n characters are reversed in place. */
  method ReverseInPlace(buf: array<char>, n: nat)
    requires n <= buf.Length
    modifies buf
    ensures buf[..n] == Reverse(old(buf[..n])) && buf[n..] == old(buf[n..])
  {
    for j := 0 to n / 2
      invariant forall i :: 0 <= i < j || n - j <= i < n ==> buf[i] == old(buf[n - 1 - i])
      invariant forall i :: j <= i < n - j || n <= i < buf.Length ==> buf[i] == old(buf[i])
    {
      var temp := buf[j];
      buf[j] := buf[n - j - 1];
      buf[n - j - 1] := temp;
    }
    forall i | 0 <= i < n
      ensures buf[..n][i] == Reverse(old(buf[..n]))[i]
    {
      ReverseAt(old(buf[..n]), i);
    }
  }

  /** signal_safe_uint32_to_string: the canonical decimal and its terminator, or an error exactly if they do not fit. */
  method ToString(val: nat, buf: array<char>, bufLen: nat) returns (ret: int)
    requires val < TWO32 && 1 <= bufLen <= buf.Length
    modifies buf
    ensures ret == if |DigitsOf(val)| + 1 <= bufLen then |DigitsOf(val)| else -ENAMETOOLONG
    ensures ret >= 0 ==> buf[..ret + 1] == DigitsOf(val) + [NUL] && Decimal(buf[..ret]) == val
    ensures buf[bufLen..] == old(buf[bufLen..])
  {
    var i := WriteBackwards(val, buf, bufLen);
    if i == bufLen - 1 {
      return -ENAMETOOLONG;
    }
    i := i + 1;
    ReverseInPlace(buf, i);
    buf[i] := NUL;
    assert buf[..i] == DigitsOf(val) && buf[..i + 1] == buf[..i] + [NUL];
    DigitsRoundTrip(val);
    return i;
  }
}
