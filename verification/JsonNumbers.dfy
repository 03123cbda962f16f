/**
 The first pass over a number agrees with the reference reading of it, byte by byte.
 */
module JsonNumbers {
  import opened CText
  import opened JsonMachine
  import opened JsonReference

  lemma RunStep(t: string, first: bool, s: State)
    ensures var o := Step(t, first, s);
            Run(t, first, s) == if o.Running? then Run(t, first, o.s) else o
  {
    hide Step;
  }

  /** `s` as it is while its top node is a number read up to `p`. */
  function NumAt(s: State, p: nat, num: Num, u: Payload): State
    requires Live(s, s.top)
  {
    s.(p := p, mode := InNumber(num), heap := s.heap[s.top := s.heap[s.top].(u := u)])
  }

  lemma NumMore(s: State, p: nat, num: Num, u: Payload, num': Num, u': Payload)
    requires Live(s, s.top)
    ensures More(NumAt(s, p, num, u), num', u') == Running(NumAt(s, p + 1, num', u'))
  {
    var a := NumAt(s, p, num, u);
    assert a.heap[s.top := a.heap[s.top].(u := u')] == s.heap[s.top := s.heap[s.top].(u := u')];
  }

  lemma DigitsEndStep(t: string, p: nat)
    requires p <= |t|
    ensures IsDigit(At(t, p)) ==> DigitsEnd(t, p) == DigitsEnd(t, p + 1)
    ensures !IsDigit(At(t, p)) ==> DigitsEnd(t, p) == p
  {
  }

  /** One more digit, as the accumulators see it. */
  lemma DecimalStep(t: string, d: nat, p: nat)
    requires d <= p < |t|
    ensures Wrap64(Wrap64(Decimal(t[d..p])) * 10 + DigitOf(t[p])) == Wrap64(Decimal(t[d..p + 1]))
  {
    var ds := t[d..p + 1];
    assert ds[..|ds| - 1] == t[d..p];
    WrapStep(Decimal(t[d..p]), DigitOf(t[p]));
  }

  // ---- integer part

  /** Registers after the digits d..p of the integer part. */
  function IntNum(t: string, negative: bool, d: nat, p: nat): Num
    requires d <= p <= |t|
  {
    NUM0.(negative := negative, zero := p > d && t[d] == '0', digits := p - d)
  }

  lemma {:induction false} IntDigits(t: string, s: State, negative: bool, d: nat, p: nat)
    requires Live(s, s.top) && d <= p <= |t|
    requires p - d > 1 ==> t[d] != '0'
    ensures var q := DigitsEnd(t, p);
            Run(t, true, NumAt(s, p, IntNum(t, negative, d, p), PInt(Wrap64(Decimal(t[d..p]))))) ==
            if q - d > 1 && t[d] == '0' then Rejected
            else Run(t, true, NumAt(s, q, IntNum(t, negative, d, q), PInt(Wrap64(Decimal(t[d..q])))))
    decreases |t| - p
  {
    hide Run, NumAt, Decimal, Wrap64, Tail, Scale, More, DigitOf;
    DigitsEndStep(t, p);
    if IsDigit(At(t, p)) {
      var num, u := IntNum(t, negative, d, p), PInt(Wrap64(Decimal(t[d..p])));
      var z := NumAt(s, p, num, u);
      NumAtIs(s, p, num, u);
      RunStep(t, true, z);
      DecimalStep(t, d, p);
      var u' := PInt(Wrap64(Decimal(t[d..p + 1])));
      NumMore(s, p, num, u, IntNum(t, negative, d, p + 1), u');
      if !(p > d && t[d] == '0') {
        IntDigits(t, s, negative, d, p + 1);
      }
    }
  }

  lemma NumAtIs(s: State, p: nat, num: Num, u: Payload)
    requires Live(s, s.top)
    ensures var z := NumAt(s, p, num, u);
            z.p == p && z.mode == InNumber(num) && z.top == s.top && Live(z, z.top) && z.heap[z.top].u == u
  {
  }

  // ---- fraction

  function FracNum(num: Num, t: string, d: nat, p: nat): Num
    requires d <= p <= |t|
  {
    num.(digits := p - d, fraction := Wrap64(Decimal(t[d..p])))
  }

  lemma {:induction false} FracDigits(t: string, s: State, num: Num, r: real, d: nat, p: nat)
    requires Live(s, s.top) && d <= p <= |t| && !num.e
    ensures var q := DigitsEnd(t, p);
            Run(t, true, NumAt(s, p, FracNum(num, t, d, p), PDbl(r))) ==
            Run(t, true, NumAt(s, q, FracNum(num, t, d, q), PDbl(r)))
    decreases |t| - p
  {
    hide Run, NumAt, Decimal, Wrap64, Tail, Scale, More, DigitOf;
    DigitsEndStep(t, p);
    if IsDigit(At(t, p)) {
      var n := FracNum(num, t, d, p);
      NumAtIs(s, p, n, PDbl(r));
      RunStep(t, true, NumAt(s, p, n, PDbl(r)));
      DecimalStep(t, d, p);
      NumMore(s, p, n, PDbl(r), FracNum(num, t, d, p + 1), PDbl(r));
      FracDigits(t, s, num, r, d, p + 1);
    }
  }

  // ---- exponent

  function ExpNum(num: Num, t: string, d: nat, p: nat): Num
    requires d <= p <= |t|
  {
    num.(digits := p - d, gotSign := num.gotSign || p > d, exp := Wrap64(Decimal(t[d..p])))
  }

  lemma {:induction false} ExpDigits(t: string, s: State, num: Num, r: real, d: nat, p: nat)
    requires Live(s, s.top) && d <= p <= |t| && num.e
    ensures var q := DigitsEnd(t, p);
            Run(t, true, NumAt(s, p, ExpNum(num, t, d, p), PDbl(r))) ==
            Run(t, true, NumAt(s, q, ExpNum(num, t, d, q), PDbl(r)))
    decreases |t| - p
  {
    hide Run, NumAt, Decimal, Wrap64, Tail, Scale, More, DigitOf;
    DigitsEndStep(t, p);
    if IsDigit(At(t, p)) {
      var n := ExpNum(num, t, d, p);
      NumAtIs(s, p, n, PDbl(r));
      RunStep(t, true, NumAt(s, p, n, PDbl(r)));
      DecimalStep(t, d, p);
      NumMore(s, p, n, PDbl(r), ExpNum(num, t, d, p + 1), PDbl(r));
      ExpDigits(t, s, num, r, d, p + 1);
    }
  }

  // ---- the whole number

  function Continue(t: string, first: bool, o: Outcome): Outcome {
    if o.Running? then Run(t, first, o.s) else o
  }

  /** `s` once its top node holds the value `u` that ends before `q`. */
  function Holding(s: State, q: nat, u: Payload): State
    requires Live(s, s.top)
  {
    s.(p := q, mode := Finished, heap := s.heap[s.top := s.heap[s.top].(u := u)])
  }

  lemma NextModeless(first: bool, s: State, m: Mode)
    ensures Next(first, s.(mode := m)) == Next(first, s)
  {
  }

  /** A byte that cannot continue the number ends it. */
  lemma EndsNumber(s: State, q: nat, num: Num, u: Payload, v: Payload, u': Payload)
    requires Live(s, s.top)
    requires u' == Signed(num.negative, v)
    ensures EndNumber(true, NumAt(s, q, num, u), num, v) == Next(true, Holding(s, q, u'))
  {
    hide Next, Wrap64;
    var z := SetTop(NumAt(s, q, num, u), u');
    assert z.heap == s.heap[s.top := s.heap[s.top].(u := u')];
    NextModeless(true, z, Finished);
  }

  function Signed(negative: bool, u: Payload): Payload {
    if !negative then u else if u.PInt? then PInt(Wrap64(-u.i)) else if u.PDbl? then PDbl(-u.r) else u
  }

  lemma {:induction false} ExponentTail(t: string, s: State, d: nat, num: Num, m: real)
    requires Live(s, s.top) && d <= |t|
    requires num.e && num.digits == 0 && num.exp == 0
    requires !num.gotSign ==> At(t, d) != '+' && At(t, d) != '-'
    ensures var q := DigitsEnd(t, d);
            var e := Wrap64(Decimal(t[d..q]));
            Run(t, true, NumAt(s, d, num, PDbl(m))) ==
            if q == d then Rejected
            else
              var u := PDbl(Scale(m, if num.eNegative then Wrap64(-e) else e));
              Continue(t, true, Next(true, Holding(s, q, Signed(num.negative, u))))
  {
    hide Run, NumAt, Wrap64, Tail, Scale, More, DigitOf, Next, Holding, EndNumber;
    var q := DigitsEnd(t, d);
    assert ExpNum(num, t, d, d) == num by { assert t[d..d] == []; assert Wrap64(0) == 0; }
    ExpDigits(t, s, num, m, d, d);
    var n := ExpNum(num, t, d, q);
    NumAtIs(s, q, n, PDbl(m));
    RunStep(t, true, NumAt(s, q, n, PDbl(m)));
    var x := PDbl(Scale(m, if n.eNegative then Wrap64(-n.exp) else n.exp));
    EndsNumber(s, q, n, PDbl(m), x, Signed(n.negative, x));
  }

  function Mantissa(num: Num, u: Payload): real {
    if u.PInt? then u.i as real
    else if u.PDbl? then u.r + Tail(num.fraction, num.digits)
    else 0.0
  }

  /** From the end of the digits and the fraction on. */
  lemma {:induction false} NumberTail(t: string, s: State, q: nat, num: Num, u: Payload)
    requires Live(s, s.top) && q <= |t| && !IsDigit(At(t, q))
    requires !num.e && !num.gotSign && !num.eNegative && num.exp == 0
    requires u.PInt? || (u.PDbl? && num.digits > 0)
    requires u.PInt? ==> At(t, q) != '.'
    ensures var e := Exponent(t, q);
            Run(t, true, NumAt(s, q, num, u)) ==
            if e.None? then Rejected
            else if e.value.v.None? then
              var v := if u.PInt? then u else PDbl(Mantissa(num, u));
              Continue(t, true, Next(true, Holding(s, e.value.next, Signed(num.negative, v))))
            else
              var v := PDbl(Scale(Mantissa(num, u), e.value.v.value));
              Continue(t, true, Next(true, Holding(s, e.value.next, Signed(num.negative, v))))
  {
    hide Run, NumAt, Decimal, Wrap64, Tail, Scale, More, DigitOf, Next, Holding, EndNumber;
    var z := NumAt(s, q, num, u);
    NumAtIs(s, q, num, u);
    RunStep(t, true, z);
    var m := Mantissa(num, u);
    var u' := if u.PInt? then u else PDbl(m);
    if At(t, q) == 'e' || At(t, q) == 'E' {
      var n := num.(e := true, digits := 0, zero := false);
      NumMore(s, q, num, u, n, PDbl(m));
      if At(t, q + 1) == '+' || At(t, q + 1) == '-' {
        var n' := n.(gotSign := true, eNegative := At(t, q + 1) == '-');
        NumAtIs(s, q + 1, n, PDbl(m));
        RunStep(t, true, NumAt(s, q + 1, n, PDbl(m)));
        NumMore(s, q + 1, n, PDbl(m), n', PDbl(m));
        ExponentTail(t, s, q + 2, n', m);
      } else {
        ExponentTail(t, s, q + 1, n, m);
      }
    } else {
      EndsNumber(s, q, num, u, u', Signed(num.negative, u'));
    }
  }

  function NumberPayload(v: Json): Payload {
    if v.Int? then PInt(v.i) else if v.Dbl? then PDbl(v.r) else PNull
  }

  /** The first pass rejects a number exactly where the reference does, and else stores its value. */
  lemma {:induction false} NumberRun(t: string, s: State, p: nat)
    requires Live(s, s.top) && p < |t| && (t[p] == '-' || IsDigit(t[p]))
    ensures var r := Number(t, p);
            var d := if t[p] == '-' then p + 1 else p;
            Run(t, true, NumAt(s, d, NUM0.(negative := t[p] == '-'), PInt(0))) ==
            if r.None? then Rejected
            else Continue(t, true, Next(true, Holding(s, r.value.next, NumberPayload(r.value.v))))
  {
    hide Run, NumAt, Wrap64, Tail, Scale, More, DigitOf, Next, Holding, EndNumber, Exponent, Step, Live, Continue;
    var negative := t[p] == '-';
    var d := if negative then p + 1 else p;
    var q := DigitsEnd(t, d);
    assert t[d..d] == [];
    assert Wrap64(0) == 0;
    IntDigits(t, s, negative, d, d);
    if !(q - d > 1 && t[d] == '0') {
      var num, u := IntNum(t, negative, d, q), PInt(Wrap64(Decimal(t[d..q])));
      if At(t, q) == '.' {
        if q > d {
          PointRun(t, s, q, num, u.i);
        } else {
          BarePoint(t, s, q, num, u.i);
        }
      } else {
        NumberTail(t, s, q, num, u);
      }
    }
  }

  lemma BarePoint(t: string, s: State, q: nat, num: Num, i: int)
    requires Live(s, s.top) && q < |t| && t[q] == '.' && num.digits == 0
    ensures Run(t, true, NumAt(s, q, num, PInt(i))) == Rejected
  {
    hide Run, NumAt;
    NumAtIs(s, q, num, PInt(i));
    RunStep(t, true, NumAt(s, q, num, PInt(i)));
  }

  /** From a decimal point that follows digits. */
  lemma {:induction false} PointRun(t: string, s: State, q: nat, num: Num, i: int)
    requires Live(s, s.top) && q < |t| && t[q] == '.'
    requires num.digits > 0 && !num.e && !num.gotSign && !num.eNegative && num.exp == 0 && num.fraction == 0
    ensures var f := Fraction(t, q);
            Run(t, true, NumAt(s, q, num, PInt(i))) ==
            if f.None? then Rejected
            else
              var e := Exponent(t, f.value.next);
              var m := i as real + f.value.v.value;
              if e.None? then Rejected
              else if e.value.v.None? then
                Continue(t, true, Next(true, Holding(s, e.value.next, Signed(num.negative, PDbl(m)))))
              else
                Continue(t, true,
                         Next(true, Holding(s, e.value.next, Signed(num.negative, PDbl(Scale(m, e.value.v.value))))))
  {
    hide Run, NumAt, Wrap64, Tail, Scale, More, DigitOf, Next, Holding, EndNumber;
    NumAtIs(s, q, num, PInt(i));
    RunStep(t, true, NumAt(s, q, num, PInt(i)));
    var n := num.(digits := 0);
    var x := PDbl(i as real);
    NumMore(s, q, num, PInt(i), n, x);
    var g := DigitsEnd(t, q + 1);
    assert FracNum(n, t, q + 1, q + 1) == n by { assert t[q + 1..q + 1] == []; assert Wrap64(0) == 0; }
    FracDigits(t, s, n, i as real, q + 1, q + 1);
    var n' := FracNum(n, t, q + 1, g);
    if g == q + 1 {
      NumAtIs(s, g, n', x);
      RunStep(t, true, NumAt(s, g, n', x));
    } else {
      NumberTail(t, s, g, n', x);
    }
  }
}
