/**
 Completeness: every text that the grammar writes is read back as its meaning.
 */
module JsonGrammarReads {
  import opened CText
  import opened JsonEscape
  import opened JsonReference
  import opened JsonGrammar

  /** The bytes of `s` stand at position p. */
  predicate Starts(t: string, p: nat, s: string) {
    p + |s| <= |t| && t[p..p + |s|] == s
  }

  lemma StartsSplit(t: string, p: nat, a: string, b: string)
    requires Starts(t, p, a + b)
    ensures Starts(t, p, a) && Starts(t, p + |a|, b)
  {
    var w := t[p..p + |a| + |b|];
    assert w[..|a|] == t[p..p + |a|] == a;
    assert w[|a|..] == t[p + |a|..p + |a| + |b|] == b;
  }

  lemma StartsWith(t: string, p: nat, c: char, rest: string)
    requires Starts(t, p, [c] + rest)
    ensures p < |t| && t[p] == c && Starts(t, p + 1, rest)
  {
    StartsSplit(t, p, [c], rest);
    assert t[p..p + 1][0] == c;
  }

  lemma StartsAt(t: string, p: nat, s: string, i: nat)
    requires Starts(t, p, s) && i < |s|
    ensures p + i < |t| && t[p + i] == s[i]
  {
    assert t[p..p + |s|][i] == s[i];
  }

  // ---- strings

  lemma HexRead(t: string, p: nat, d: string)
    requires IsHex4(d) && Starts(t, p + 1, d)
    ensures p + 4 < |t| && FourHex(t, p) == Some(Code(d))
  {
    hide HexValue, Pack;
    assert forall i :: 0 <= i < 4 ==> t[p + 1..p + 5][i] == d[i];
  }

  lemma PieceRead(t: string, p: nat, x: Piece)
    requires PieceOk(x) && Starts(t, p, WritePiece(x))
    ensures p < |t| && t[p] != NUL && t[p] != '"'
    ensures StringItem(t, p).Some?
    ensures StringItem(t, p).value.out == PieceMeaning(x) && StringItem(t, p).value.next == p + |WritePiece(x)|
  {
    hide Chars, Encode, Count, Combine, IsSurrogate, HexValue, FourHex, Code, Starts, Unicode;
    match x
    case Raw(c) => StartsAt(t, p, [c], 0);
    case Escaped(l) =>
      assert WritePiece(x) == ['\\'] + [l];
      StartsWith(t, p, '\\', [l]);
      StartsAt(t, p + 1, [l], 0);
    case Hex(d) =>
      UnicodeStarts(t, p, d);
      HexRead(t, p + 1, d);
      ItemHex(t, p, Code(d));
    case Pair(hi, lo) =>
      PairRead(t, p, hi, lo);
  }

  lemma UnicodeStarts(t: string, p: nat, d: string)
    requires Starts(t, p, ['\\', 'u'] + d)
    ensures p + 1 < |t| && t[p] == '\\' && t[p + 1] == 'u' && Starts(t, p + 2, d)
  {
    hide Starts;
    assert ['\\', 'u'] + d == ['\\'] + (['u'] + d);
    StartsWith(t, p, '\\', ['u'] + d);
    StartsWith(t, p + 1, 'u', d);
  }

  /** Escapes, unfolded once for known parts. */
  lemma ItemHex(t: string, p: nat, u: bv32)
    requires p + 5 < |t| && t[p] == '\\' && t[p + 1] == 'u' && FourHex(t, p + 1) == Some(u) && !IsSurrogate(u)
    ensures StringItem(t, p) == Some(Esc(Chars(Encode(u)), Count(u), p + 6))
  {
    hide Chars, Encode, Count, Combine, IsSurrogate, FourHex;
  }

  lemma ItemPair(t: string, p: nat, u: bv32, w: bv32)
    requires p + 11 < |t| && t[p] == '\\' && t[p + 1] == 'u' && t[p + 6] == '\\' && t[p + 7] == 'u'
    requires FourHex(t, p + 1) == Some(u) && IsSurrogate(u) && FourHex(t, p + 7) == Some(w)
    ensures var c := Combine(u, w);
            StringItem(t, p) == Some(Esc(Chars(Encode(c)), Count(c), p + 12))
  {
    hide Chars, Encode, Count, Combine, IsSurrogate, FourHex;
  }

  lemma PairRead(t: string, p: nat, hi: string, lo: string)
    requires PieceOk(Pair(hi, lo)) && Starts(t, p, WritePiece(Pair(hi, lo)))
    ensures p < |t| && t[p] == '\\' && p + 1 < |t| && t[p + 1] == 'u' && p + 11 < |t|
    ensures StringItem(t, p).Some?
    ensures StringItem(t, p).value.out == PieceMeaning(Pair(hi, lo)) && StringItem(t, p).value.next == p + 12
  {
    hide Chars, Encode, Count, Combine, IsSurrogate, HexValue, FourHex, Code, Starts, Unicode, StringItem;
    StartsSplit(t, p, ['\\', 'u'] + hi, ['\\', 'u'] + lo);
    UnicodeStarts(t, p, hi);
    HexRead(t, p + 1, hi);
    UnicodeStarts(t, p + 6, lo);
    HexRead(t, p + 7, lo);
    ItemPair(t, p, Code(hi), Code(lo));
  }

  lemma {:induction false} PiecesRead(t: string, p: nat, xs: seq<Piece>)
    requires PiecesOk(xs) && Starts(t, p, WritePieces(xs) + ['"'])
    ensures StringBody(t, p) == Some(Parsed(PiecesMeaning(xs), p + |WritePieces(xs)| + 1))
    decreases |xs|
  {
    hide PieceOk, WritePiece, PieceMeaning, StringItem;
    if xs == [] {
      StartsAt(t, p, ['"'], 0);
    } else {
      var x := WritePiece(xs[0]);
      assert WritePieces(xs) + ['"'] == x + (WritePieces(xs[1..]) + ['"']);
      StartsSplit(t, p, x, WritePieces(xs[1..]) + ['"']);
      PieceRead(t, p, xs[0]);
      PiecesRead(t, p + |x|, xs[1..]);
    }
  }

  // ---- numbers

  lemma {:induction false} DigitsRead(t: string, p: nat, ds: string)
    requires AllDigits(ds) && Starts(t, p, ds) && !IsDigit(At(t, p + |ds|))
    ensures DigitsEnd(t, p) == p + |ds| && t[p..p + |ds|] == ds
    decreases |ds|
  {
    var q := DigitsEnd(t, p);
    if q < p + |ds| {
      StartsAt(t, p, ds, q - p);
      assert false;
    }
  }

  lemma FracRead(t: string, p: nat, f: Option<string>)
    requires f.Some? ==> AllDigits(f.value) && f.value != []
    requires Starts(t, p, WriteFrac(f)) && !IsDigit(At(t, p + |WriteFrac(f)|))
    requires f.None? ==> At(t, p) != '.'
    ensures Fraction(t, p) ==
            Some(Parsed(if f.None? then None else Some(Tail(Wrap64(Decimal(f.value)), |f.value|)), p + |WriteFrac(f)|))
  {
    hide Decimal, Wrap64, Tail;
    if f.Some? {
      StartsWith(t, p, '.', f.value);
      DigitsRead(t, p + 1, f.value);
    }
  }

  /** Exponent and Number, unfolded once for known parts. */
  lemma ExponentIs(t: string, p: nat, s: Sign, d: nat, q: nat)
    requires p < |t| && (t[p] == 'e' || t[p] == 'E')
    requires match s
             case Unsigned => d == p + 1 && IsDigit(At(t, d))
             case Plus => d == p + 2 && At(t, p + 1) == '+'
             case Minus => d == p + 2 && At(t, p + 1) == '-'
    requires d < q <= |t| && DigitsEnd(t, d) == q
    ensures var e := Wrap64(Decimal(t[d..q]));
            Exponent(t, p) == Some(Parsed(Some(if s.Minus? then Wrap64(-e) else e), q))
  {
    hide Decimal, Wrap64;
  }

  lemma NumberIs(t: string, p: nat, q: nat, f: Parsed<Option<real>>, e: Parsed<Option<int>>)
    requires p < |t| && (t[p] == '-' || IsDigit(t[p]))
    requires var d := if t[p] == '-' then p + 1 else p;
             d <= q <= |t| && DigitsEnd(t, d) == q && !(q - d > 1 && t[d] == '0') && !(q == d && At(t, q) == '.')
    requires f.next <= |t| && Fraction(t, q) == Some(f) && Exponent(t, f.next) == Some(e)
    ensures var d := if t[p] == '-' then p + 1 else p;
            Number(t, p) == Some(Parsed(Assemble(t[p] == '-', Wrap64(Decimal(t[d..q])), f.v, e.v), e.next))
  {
    hide Decimal, Wrap64, Fraction, Exponent, Assemble, DigitsEnd;
  }

  lemma SignRead(t: string, p: nat, s: Sign, c: char)
    requires Starts(t, p, WriteSign(s)) && At(t, p + |WriteSign(s)|) == c && c != '+' && c != '-'
    ensures match s
            case Unsigned => |WriteSign(s)| == 0 && At(t, p) != '+' && At(t, p) != '-'
            case Plus => |WriteSign(s)| == 1 && At(t, p) == '+'
            case Minus => |WriteSign(s)| == 1 && At(t, p) == '-'
  {
    hide Starts;
    if WriteSign(s) != [] {
      StartsAt(t, p, WriteSign(s), 0);
    }
  }

  lemma ExpRead(t: string, p: nat, x: Option<Exp>)
    requires x.Some? ==> x.value.e in "eE" && AllDigits(x.value.digits) && x.value.digits != []
    requires Starts(t, p, WriteExp(x)) && !IsDigit(At(t, p + |WriteExp(x)|))
    requires x.None? ==> At(t, p) != 'e' && At(t, p) != 'E'
    ensures Exponent(t, p) ==
            Some(Parsed(if x.None? then None else Some(ExpMeaning(x.value)), p + |WriteExp(x)|))
  {
    hide Decimal, Wrap64, DigitsEnd, Starts, Exponent, WriteSign, AllDigits, IsDigit;
    if x.Some? {
      var sign, ds := WriteSign(x.value.sign), x.value.digits;
      var d := p + 1 + |sign|;
      ExpParts(t, p, x.value.e, sign, ds);
      DigitFirst(ds);
      SignRead(t, p + 1, x.value.sign, ds[0]);
      DigitsRead(t, d, ds);
      ExponentIs(t, p, x.value.sign, d, d + |ds|);
    } else {
      StartsBound(t, p, WriteExp(x));
      ExponentNone(t, p);
    }
  }

  lemma ExponentNone(t: string, p: nat)
    requires p <= |t| && At(t, p) != 'e' && At(t, p) != 'E'
    ensures Exponent(t, p) == Some(Parsed(None, p))
  {
  }

  lemma DigitFirst(ds: string)
    requires AllDigits(ds) && ds != []
    ensures ds[0] != '+' && ds[0] != '-'
  {
  }

  lemma ExpParts(t: string, p: nat, e: char, sign: string, ds: string)
    requires Starts(t, p, [e] + sign + ds) && ds != []
    ensures p + 1 + |sign| + |ds| <= |t| && t[p] == e && At(t, p + 1 + |sign|) == ds[0]
    ensures Starts(t, p + 1, sign) && Starts(t, p + 1 + |sign|, ds) && |[e] + sign + ds| == 1 + |sign| + |ds|
  {
    hide Starts;
    assert [e] + sign + ds == [e] + (sign + ds);
    StartsWith(t, p, e, sign + ds);
    StartsSplit(t, p + 1, sign, ds);
    StartsAt(t, p + 1 + |sign|, ds, 0);
    StartsBound(t, p + 1 + |sign|, ds);
  }

  /** A number is read to its end when a byte follows that no number contains. */
  lemma NumeralRead(t: string, p: nat, n: Numeral)
    requires NumeralOk(n) && Starts(t, p, WriteNumeral(n)) && !IsNumberChar(At(t, p + |WriteNumeral(n)|))
    ensures p < |t| && (t[p] == '-' || IsDigit(t[p]))
    ensures Number(t, p) == Some(Parsed(NumeralMeaning(n), p + |WriteNumeral(n)|))
  {
    hide Decimal, Wrap64, Tail, Scale, Fraction, Exponent, WriteExp, WriteFrac, Number, DigitsEnd, ExpMeaning,
         Starts, NumeralMeaning, Assemble, NumeralOk;
    var sign := if n.negative then ['-'] else [];
    var f, x := WriteFrac(n.frac), WriteExp(n.exp);
    var d := p + |sign|;
    var q := d + |n.whole|;
    var g := q + |f|;
    NumeralParts(t, p, n);
    NumeralEnds(t, p, n, d, q, g);
    NumeralShape(n);
    DigitsRead(t, d, n.whole);
    FracRead(t, q, n.frac);
    ExpRead(t, g, n.exp);
    NumberIs(t, p, q, Fraction(t, q).value, Exponent(t, g).value);
    MeaningAssembled(n);
  }

  lemma NumeralShape(n: Numeral)
    requires NumeralOk(n)
    ensures AllDigits(n.whole) && (n.whole == [] ==> n.frac.None?)
    ensures n.frac.Some? ==> AllDigits(n.frac.value) && n.frac.value != []
    ensures n.exp.Some? ==> n.exp.value.e in "eE" && AllDigits(n.exp.value.digits) && n.exp.value.digits != []
  {
  }

  lemma NumeralParts(t: string, p: nat, n: Numeral)
    requires Starts(t, p, WriteNumeral(n))
    ensures var sign := if n.negative then ['-'] else [];
            var d := p + |sign|;
            var q := d + |n.whole|;
            var g := q + |WriteFrac(n.frac)|;
            && Starts(t, p, sign) && Starts(t, d, n.whole) && Starts(t, q, WriteFrac(n.frac))
               && Starts(t, g, WriteExp(n.exp))
            && g + |WriteExp(n.exp)| == p + |WriteNumeral(n)|
  {
    hide Starts, WriteFrac, WriteExp;
    var sign := if n.negative then ['-'] else [];
    var f, x := WriteFrac(n.frac), WriteExp(n.exp);
    assert WriteNumeral(n) == sign + (n.whole + (f + x));
    StartsSplit(t, p, sign, n.whole + (f + x));
    StartsSplit(t, p + |sign|, n.whole, f + x);
    StartsSplit(t, p + |sign| + |n.whole|, f, x);
  }

  lemma MeaningAssembled(n: Numeral)
    requires NumeralOk(n)
    ensures NumeralMeaning(n) ==
            Assemble(n.negative, Wrap64(Decimal(n.whole)),
                     if n.frac.None? then None else Some(Tail(Wrap64(Decimal(n.frac.value)), |n.frac.value|)),
                     if n.exp.None? then None else Some(ExpMeaning(n.exp.value)))
  {
    hide Decimal, Wrap64, Tail, Scale, ExpMeaning;
  }

  lemma NumeralHead(t: string, p: nat, n: Numeral, d: nat)
    requires NumeralOk(n) && d == p + (if n.negative then 1 else 0) && Starts(t, d, n.whole)
    requires n.negative ==> Starts(t, p, ['-'])
    ensures p < |t| && n.negative == (t[p] == '-') && (t[p] == '-' || IsDigit(t[p]))
    ensures |n.whole| > 1 ==> t[d] != '0'
  {
    hide Starts;
    if n.negative {
      StartsAt(t, p, ['-'], 0);
    }
    if n.whole != [] {
      StartsAt(t, d, n.whole, 0);
    }
  }

  /** The bytes at the joints of a number. */
  lemma NumeralEnds(t: string, p: nat, n: Numeral, d: nat, q: nat, g: nat)
    requires NumeralOk(n) && d == p + (if n.negative then 1 else 0) && q == d + |n.whole|
             && g == q + |WriteFrac(n.frac)|
    requires n.negative ==> Starts(t, p, ['-'])
    requires Starts(t, d, n.whole) && Starts(t, q, WriteFrac(n.frac)) && Starts(t, g, WriteExp(n.exp))
    requires !IsNumberChar(At(t, g + |WriteExp(n.exp)|))
    ensures p < |t| && n.negative == (t[p] == '-') && (t[p] == '-' || IsDigit(t[p]))
    ensures |n.whole| > 1 ==> t[d] != '0'
    ensures !IsDigit(At(t, q)) && !IsDigit(At(t, g)) && !IsDigit(At(t, g + |WriteExp(n.exp)|))
    ensures n.frac.None? ==> At(t, q) != '.'
    ensures n.exp.None? ==> At(t, g) != 'e' && At(t, g) != 'E'
    ensures n.exp.None? ==> |WriteExp(n.exp)| == 0
  {
    hide Starts, WriteSign;
    NumeralHead(t, p, n, d);
    hide AllDigits;
    ExpStart(t, g, n.exp);
    FracStart(t, q, n.frac, WriteExp(n.exp));
  }

  /** What can follow the digits. */
  lemma FracStart(t: string, q: nat, f: Option<string>, x: string)
    requires Starts(t, q, WriteFrac(f)) && Starts(t, q + |WriteFrac(f)|, x)
    requires f.None? && x == [] ==> !IsNumberChar(At(t, q))
    requires x != [] ==> x[0] in "eE"
    ensures !IsDigit(At(t, q))
    ensures f.None? ==> At(t, q) != '.'
  {
    if f.Some? {
      StartsWith(t, q, '.', f.value);
    } else if x != [] {
      StartsAt(t, q, x, 0);
    }
  }

  lemma ExpStart(t: string, q: nat, x: Option<Exp>)
    requires Starts(t, q, WriteExp(x))
    requires x.Some? ==> x.value.e in "eE"
    requires x.None? ==> !IsNumberChar(At(t, q))
    ensures !IsDigit(At(t, q))
    ensures x.None? ==> At(t, q) != 'e' && At(t, q) != 'E'
    ensures WriteExp(x) != [] ==> x.Some? && WriteExp(x)[0] in "eE"
  {
    if x.Some? {
      StartsAt(t, q, WriteExp(x), 0);
    }
  }

  // ---- white space

  lemma SpaceRead(t: string, p: nat, comma: bool)
    requires p < |t| && IsSpace(t[p])
    ensures Value(t, p) == Value(t, p + 1)
    ensures Elements(t, p, comma) == Elements(t, p + 1, comma)
    ensures Members(t, p, comma) == Members(t, p + 1, comma)
    ensures SkipSpace(t, p) == SkipSpace(t, p + 1)
  {
  }

  lemma {:induction false} SpacesRead(t: string, p: nat, ws: string, comma: bool)
    requires AllSpace(ws) && Starts(t, p, ws)
    ensures Value(t, p) == Value(t, p + |ws|)
    ensures Elements(t, p, comma) == Elements(t, p + |ws|, comma)
    ensures Members(t, p, comma) == Members(t, p + |ws|, comma)
    ensures SkipSpace(t, p) == SkipSpace(t, p + |ws|)
    decreases |ws|
  {
    hide Value, Elements, Members, SkipSpace, Starts, IsSpace;
    StartsBound(t, p, ws);
    if ws != [] {
      assert ws == [ws[0]] + ws[1..];
      StartsWith(t, p, ws[0], ws[1..]);
      SpaceRead(t, p, comma);
      SpacesRead(t, p + 1, ws[1..], comma);
    }
  }

  lemma StartsBound(t: string, p: nat, s: string)
    requires Starts(t, p, s)
    ensures p + |s| <= |t|
  {
  }

  lemma ColonRead(t: string, p: nat, ws: string)
    requires AllSpace(ws) && Starts(t, p, ws + [':'])
    ensures Colon(t, p) == Some(p + |ws| + 1)
  {
    hide Value, Elements, Members;
    StartsSplit(t, p, ws, [':']);
    StartsAt(t, p + |ws|, [':'], 0);
    SpacesRead(t, p, ws, false);
  }

  // ---- values

  /** What a value begins with. */
  lemma WriteHead(c: Cst)
    requires Ok(c)
    ensures Write(c) != [] && !IsSpace(Write(c)[0]) && Write(c)[0] !in "]},"
  {
    hide WritePieces, WriteElems, WriteFields, WriteFrac, WriteExp;
    if c.CNum? {
      var w := WriteNumeral(c.n);
      if c.n.negative {
        assert w[0] == '-';
      } else {
        assert w[0] == c.n.whole[0];
      }
    }
  }

  /** Rendered lists begin with white space or a delimiter after an element. */
  lemma DelimiterHead(after: string, rest: string)
    requires AllSpace(after) && rest != [] && (IsSpace(rest[0]) || rest[0] in ",]}")
    ensures after + rest != [] && !IsNumberChar((after + rest)[0])
  {
    if after != [] {
      assert (after + rest)[0] == after[0];
    } else {
      assert after + rest == rest;
    }
  }

  lemma ElemsHead(es: seq<Elem>, trailing: bool, ws: string)
    requires AllSpace(ws)
    ensures var w := WriteElems(es, trailing, ws, true); w != [] && (IsSpace(w[0]) || w[0] in ",]}")
  {
    hide Write;
    if es == [] {
      if trailing { assert WriteElems(es, trailing, ws, true)[0] == ','; }
      else if ws != [] { assert WriteElems(es, trailing, ws, true)[0] == ws[0]; }
    } else {
      assert WriteElems(es, trailing, ws, true)[0] == ',';
    }
  }

  lemma FieldsHead(fs: seq<Field>, trailing: bool, ws: string)
    requires AllSpace(ws)
    ensures var w := WriteFields(fs, trailing, ws, true); w != [] && (IsSpace(w[0]) || w[0] in ",]}")
  {
    hide Write, WritePieces;
    if fs == [] {
      if trailing { assert WriteFields(fs, trailing, ws, true)[0] == ','; }
      else if ws != [] { assert WriteFields(fs, trailing, ws, true)[0] == ws[0]; }
    } else {
      assert WriteFields(fs, trailing, ws, true)[0] == ',';
    }
  }

  lemma {:induction false} ValueRead(t: string, p: nat, c: Cst)
    requires Ok(c) && Starts(t, p, Write(c)) && !IsNumberChar(At(t, p + |Write(c)|))
    ensures Value(t, p) == Some(Parsed(Meaning(c), p + |Write(c)|))
    decreases c, 1
  {
    hide Starts, WriteElems, WriteFields, WriteNumeral, WritePieces, Elements, Members, StringBody, Number,
         Keyword, NumeralMeaning, PiecesMeaning, Value;
    match c
    case CNull =>
      WordRead(t, p, "null");
      WordValue(t, p);
    case CBool(b) =>
      WordRead(t, p, if b then "true" else "false");
      WordValue(t, p);
    case CNum(n) =>
      NumeralRead(t, p, n);
      NoKeyword(t, p);
      NumberValue(t, p);
    case CStr(xs) =>
      QuotedRead(t, p, xs);
      ContainerValue(t, p);
    case CArr(es, trailing, ws) =>
      StartsWith(t, p, '[', WriteElems(es, trailing, ws, false));
      ElemsRead(t, p + 1, es, trailing, ws, false);
      ContainerValue(t, p);
    case CObj(fs, trailing, ws) =>
      StartsWith(t, p, '{', WriteFields(fs, trailing, ws, false));
      FieldsRead(t, p + 1, fs, trailing, ws, false);
      ContainerValue(t, p);
  }

  // ---- values, unfolded once

  lemma NumberValue(t: string, p: nat)
    requires p < |t| && (t[p] == '-' || IsDigit(t[p]))
    requires !Keyword(t, p, "true") && !Keyword(t, p, "false") && !Keyword(t, p, "null")
    ensures Value(t, p) == Number(t, p)
  {
    hide Keyword, Number, Elements, Members;
  }

  lemma WordValue(t: string, p: nat)
    requires p < |t| && t[p] in "tfn"
    ensures Keyword(t, p, "true") && !Keyword(t, p, "false") && !Keyword(t, p, "null") ==>
              Value(t, p) == Some(Parsed(Bool(true), p + 4))
    ensures Keyword(t, p, "false") && !Keyword(t, p, "true") && !Keyword(t, p, "null") ==>
              Value(t, p) == Some(Parsed(Bool(false), p + 5))
    ensures Keyword(t, p, "null") && !Keyword(t, p, "true") && !Keyword(t, p, "false") ==>
              Value(t, p) == Some(Parsed(Null, p + 4))
  {
    hide Keyword, Number, Elements, Members;
  }

  lemma ContainerValue(t: string, p: nat)
    requires p < |t|
    ensures t[p] == '"' && StringBody(t, p + 1).Some? ==>
              Value(t, p) == Some(Parsed(Str(StringBody(t, p + 1).value.v), StringBody(t, p + 1).value.next))
    ensures t[p] == '[' && Elements(t, p + 1, false).Some? ==>
              Value(t, p) == Some(Parsed(Arr(Elements(t, p + 1, false).value.v), Elements(t, p + 1, false).value.next))
    ensures t[p] == '{' && Members(t, p + 1, false).Some? ==>
              Value(t, p) == Some(Parsed(Obj(Members(t, p + 1, false).value.v), Members(t, p + 1, false).value.next))
  {
    hide Elements, Members, StringBody, Keyword, Number;
  }

  lemma WordRead(t: string, p: nat, word: string)
    requires word in ["null", "true", "false"] && Starts(t, p, word)
    ensures p < |t| && t[p] == word[0] && Keyword(t, p, word)
    ensures forall w :: w in ["null", "true", "false"] && w != word ==> !Keyword(t, p, w)
  {
    assert t[p..][..|word|] == word;
    assert t[p] == word[0];
    assert t[p..][0] == word[0];
  }

  // ---- the lists, unfolded once

  lemma ListCloses(t: string, p: nat, comma: bool)
    requires p < |t|
    ensures t[p] == ']' ==> Elements(t, p, comma) == Some(Parsed([], p + 1))
    ensures t[p] == '}' ==> Members(t, p, comma) == Some(Parsed([], p + 1))
  {
    hide Value;
  }

  lemma ListComma(t: string, p: nat)
    requires p < |t| && t[p] == ','
    ensures Elements(t, p, true) == Elements(t, p + 1, false)
    ensures Members(t, p, true) == Members(t, p + 1, false)
  {
    hide Value;
  }

  lemma ElementFirst(t: string, p: nat, v: Parsed<Json>)
    requires p < |t| && !IsSpace(t[p]) && t[p] != ']' && v.next <= |t| && Value(t, p) == Some(v)
    ensures var rest := Elements(t, v.next, true);
            Elements(t, p, false) ==
            if rest.None? then None else Some(Parsed([v.v] + rest.value.v, rest.value.next))
  {
    hide Value;
  }

  lemma MemberFirst(t: string, p: nat, name: Parsed<string>, c: nat, v: Parsed<Json>)
    requires p < |t| && t[p] == '"' && StringBody(t, p + 1) == Some(name) && name.next <= |t|
    requires Colon(t, name.next) == Some(c) && c <= |t| && Value(t, c) == Some(v) && v.next <= |t|
    ensures var rest := Members(t, v.next, true);
            Members(t, p, false) ==
            if rest.None? then None else Some(Parsed([Member(name.v, v.v)] + rest.value.v, rest.value.next))
  {
    hide Value, StringBody, Colon;
  }

  /** A rejected value rejects what contains it. */
  lemma ElementDies(t: string, p: nat)
    requires p < |t| && !IsSpace(t[p]) && t[p] != ']' && Value(t, p) == None
    ensures Elements(t, p, false) == None
  {
    hide Value;
  }

  lemma MemberDies(t: string, p: nat, name: Parsed<string>, c: nat)
    requires p < |t| && t[p] == '"' && StringBody(t, p + 1) == Some(name) && name.next <= |t|
    requires Colon(t, name.next) == Some(c) && c <= |t| && Value(t, c) == None
    ensures Members(t, p, false) == None
  {
    hide Value, StringBody, Colon;
  }

  lemma NameDies(t: string, p: nat)
    requires p < |t| && t[p] == '"' && StringBody(t, p + 1) == None
    ensures Members(t, p, false) == None
  {
    hide Value, StringBody, Colon;
  }

  lemma ContainerDies(t: string, p: nat)
    requires p < |t|
    ensures t[p] == '{' && Members(t, p + 1, false) == None ==> Value(t, p) == None
    ensures t[p] == '[' && Elements(t, p + 1, false) == None ==> Value(t, p) == None
    ensures t[p] == '"' && StringBody(t, p + 1) == None ==> Value(t, p) == None
  {
    hide Elements, Members, StringBody;
  }

  /** The end of a list: an optional trailing comma, white space and the bracket. */
  lemma ListEnds(t: string, p: nat, sep: string, ws: string, close: char, comma: bool)
    requires sep == [] || (sep == [','] && comma)
    requires close in "]}" && AllSpace(ws) && Starts(t, p, sep + (ws + [close]))
    ensures close == ']' ==> Elements(t, p, comma) == Some(Parsed([], p + |sep| + |ws| + 1))
    ensures close == '}' ==> Members(t, p, comma) == Some(Parsed([], p + |sep| + |ws| + 1))
  {
    hide Starts, Elements, Members, Value;
    StartsSplit(t, p, sep, ws + [close]);
    var p1 := p + |sep|;
    StartsSplit(t, p1, ws, [close]);
    StartsAt(t, p1 + |ws|, [close], 0);
    if sep != [] {
      StartsAt(t, p, sep, 0);
      ListComma(t, p);
    }
    ListCloses(t, p1 + |ws|, comma && sep == []);
    SpacesRead(t, p1, ws, comma && sep == []);
  }

  lemma {:induction false} ElemsRead(t: string, p: nat, es: seq<Elem>, trailing: bool, ws: string, comma: bool)
    requires ElemsOk(es) && AllSpace(ws) && Starts(t, p, WriteElems(es, trailing, ws, comma))
    ensures Elements(t, p, comma) == Some(Parsed(ElemsMeaning(es), p + |WriteElems(es, trailing, ws, comma)|))
    decreases es, 0
  {
    hide Starts, Write, Value, Members, Elements, Meaning, Ok;
    if es == [] {
      var sep := if comma && trailing then [','] else [];
      assert WriteElems(es, trailing, ws, comma) == sep + (ws + [']']);
      ListEnds(t, p, sep, ws, ']', comma);
    } else {
      var sep := if comma then [','] else [];
      var e := es[0];
      var tail := WriteElems(es[1..], trailing, ws, true);
      RegroupElem(sep, e.before, Write(e.v), e.after, tail);
      StartsSplit(t, p, sep, e.before + (Write(e.v) + (e.after + tail)));
      if comma {
        StartsAt(t, p, sep, 0);
        ListComma(t, p);
      }
      ElemRead(t, p + |sep|, e, tail);
      ElemsHead(es[1..], trailing, ws);
      ElemsRead(t, p + |sep| + |e.before| + |Write(e.v)| + |e.after|, es[1..], trailing, ws, true);
      ElemThen(t, p + |sep|, e, tail);
    }
  }

  lemma RegroupElem(a: string, b: string, c: string, d: string, e: string)
    ensures a + b + c + d + e == a + (b + (c + (d + e)))
  {
  }

  /** The parts of one element and what follows it. */
  lemma ElemRead(t: string, p: nat, e: Elem, tail: string)
    requires Starts(t, p, e.before + (Write(e.v) + (e.after + tail)))
    ensures var v := p + |e.before|;
            var q := v + |Write(e.v)|;
            && Starts(t, p, e.before) && Starts(t, v, Write(e.v)) && Starts(t, q, e.after + tail)
            && Starts(t, q, e.after) && Starts(t, q + |e.after|, tail)
  {
    hide Starts, Write;
    StartsSplit(t, p, e.before, Write(e.v) + (e.after + tail));
    StartsSplit(t, p + |e.before|, Write(e.v), e.after + tail);
    StartsSplit(t, p + |e.before| + |Write(e.v)|, e.after, tail);
  }

  /** Reading one element leads to the elements after it. */
  lemma {:induction false} ElemThen(t: string, p: nat, e: Elem, tail: string)
    requires AllSpace(e.before) && AllSpace(e.after) && Ok(e.v)
    requires Starts(t, p, e.before + (Write(e.v) + (e.after + tail)))
    requires tail != [] && (IsSpace(tail[0]) || tail[0] in ",]}")
    ensures var q := p + |e.before| + |Write(e.v)| + |e.after|;
            var rest := Elements(t, q, true);
            Elements(t, p, false) ==
            if rest.None? then None else Some(Parsed([Meaning(e.v)] + rest.value.v, rest.value.next))
    decreases e.v, 2
  {
    hide Starts, Write, Members, Elements, Value, Meaning, Ok;
    var v := p + |e.before|;
    var q := v + |Write(e.v)|;
    ElemRead(t, p, e, tail);
    WriteHead(e.v);
    StartsAt(t, v, Write(e.v), 0);
    DelimiterHead(e.after, tail);
    StartsAt(t, q, e.after + tail, 0);
    ValueRead(t, v, e.v);
    ElementFirst(t, v, Parsed(Meaning(e.v), q));
    SpacesRead(t, p, e.before, false);
    SpacesRead(t, q, e.after, true);
  }

  function Quoted(xs: seq<Piece>): string {
    ['"'] + WritePieces(xs) + ['"']
  }

  function WriteField(f: Field, tail: string): string {
    f.before + (Quoted(f.name) + (f.beforeColon + [':'] + (f.afterColon + (Write(f.v) + (f.after + tail)))))
  }

  lemma {:induction false} FieldsRead(t: string, p: nat, fs: seq<Field>, trailing: bool, ws: string, comma: bool)
    requires FieldsOk(fs) && AllSpace(ws) && Starts(t, p, WriteFields(fs, trailing, ws, comma))
    ensures Members(t, p, comma) == Some(Parsed(FieldsMeaning(fs), p + |WriteFields(fs, trailing, ws, comma)|))
    decreases fs, 0
  {
    hide Starts, Write, Value, Elements, Members, StringBody, Colon, WriteField, WritePieces, PiecesOk,
         PiecesMeaning, Meaning, Ok;
    if fs == [] {
      var sep := if comma && trailing then [','] else [];
      assert WriteFields(fs, trailing, ws, comma) == sep + (ws + ['}']);
      ListEnds(t, p, sep, ws, '}', comma);
    } else {
      var sep := if comma then [','] else [];
      var f := fs[0];
      var tail := WriteFields(fs[1..], trailing, ws, true);
      FieldWritten(fs, trailing, ws, comma);
      StartsSplit(t, p, sep, WriteField(f, tail));
      if comma {
        StartsAt(t, p, sep, 0);
        ListComma(t, p);
      }
      FieldParts(t, p + |sep|, f, tail);
      FieldsHead(fs[1..], trailing, ws);
      FieldsRead(t, p + |sep| + |WriteField(f, [])|, fs[1..], trailing, ws, true);
      FieldThen(t, p + |sep|, f, tail);
    }
  }

  lemma FieldWritten(fs: seq<Field>, trailing: bool, ws: string, comma: bool)
    requires fs != []
    ensures var tail := WriteFields(fs[1..], trailing, ws, true);
            && WriteFields(fs, trailing, ws, comma) == (if comma then [','] else []) + WriteField(fs[0], tail)
            && |WriteField(fs[0], tail)| == |WriteField(fs[0], [])| + |tail|
  {
    hide Write, WritePieces;
    var f, tail := fs[0], WriteFields(fs[1..], trailing, ws, true);
    var sep := if comma then [','] else [];
    Regroup(sep, f.before, Quoted(f.name), f.beforeColon, f.afterColon, Write(f.v), f.after, tail);
  }

  lemma Regroup(a: string, b: string, c: string, d: string, e: string, f: string, g: string, h: string)
    ensures a + b + c + d + [':'] + e + f + g + h == a + (b + (c + (d + [':'] + (e + (f + (g + h))))))
  {
  }

  /** The parts of one member and what follows it. */
  lemma FieldParts(t: string, p: nat, f: Field, tail: string)
    requires Starts(t, p, WriteField(f, tail))
    ensures var n := p + |f.before|;
            var c := n + |Quoted(f.name)|;
            var a := c + |f.beforeColon| + 1;
            var v := a + |f.afterColon|;
            var q := v + |Write(f.v)|;
            && Starts(t, p, f.before) && Starts(t, n, Quoted(f.name)) && Starts(t, c, f.beforeColon + [':'])
            && Starts(t, a, f.afterColon) && Starts(t, v, Write(f.v)) && Starts(t, q, f.after + tail)
            && Starts(t, q, f.after) && Starts(t, q + |f.after|, tail)
            && q + |f.after| == p + |WriteField(f, [])|
  {
    hide Starts, Write, Quoted;
    var n := p + |f.before|;
    var c := n + |Quoted(f.name)|;
    var a := c + |f.beforeColon| + 1;
    var v := a + |f.afterColon|;
    StartsSplit(t, p, f.before, Quoted(f.name)
      + (f.beforeColon + [':'] + (f.afterColon + (Write(f.v) + (f.after + tail)))));
    StartsSplit(t, n, Quoted(f.name), f.beforeColon + [':'] + (f.afterColon + (Write(f.v) + (f.after + tail))));
    StartsSplit(t, c, f.beforeColon + [':'], f.afterColon + (Write(f.v) + (f.after + tail)));
    StartsSplit(t, a, f.afterColon, Write(f.v) + (f.after + tail));
    StartsSplit(t, v, Write(f.v), f.after + tail);
    StartsSplit(t, v + |Write(f.v)|, f.after, tail);
  }

  lemma QuotedRead(t: string, n: nat, name: seq<Piece>)
    requires PiecesOk(name) && Starts(t, n, Quoted(name))
    ensures n < |t| && t[n] == '"' && StringBody(t, n + 1) == Some(Parsed(PiecesMeaning(name), n + |Quoted(name)|))
  {
    hide Starts, StringBody, WritePieces, PiecesOk, PiecesMeaning;
    assert Quoted(name) == ['"'] + (WritePieces(name) + ['"']);
    StartsWith(t, n, '"', WritePieces(name) + ['"']);
    PiecesRead(t, n + 1, name);
  }

  lemma NamePart(t: string, n: nat, name: seq<Piece>, ws: string)
    requires PiecesOk(name) && AllSpace(ws) && Starts(t, n, Quoted(name)) && Starts(t, n + |Quoted(name)|, ws + [':'])
    ensures var c := n + |Quoted(name)|;
            && n < |t| && t[n] == '"' && StringBody(t, n + 1) == Some(Parsed(PiecesMeaning(name), c))
            && c + |ws| + 1 <= |t| && Colon(t, c) == Some(c + |ws| + 1)
  {
    hide Starts, StringBody, Colon, PiecesOk, PiecesMeaning, Quoted, AllSpace;
    QuotedRead(t, n, name);
    ColonRead(t, n + |Quoted(name)|, ws);
    StartsBound(t, n + |Quoted(name)|, ws + [':']);
  }

  /** Reading one member leads to the members after it. */
  lemma {:induction false} FieldThen(t: string, p: nat, f: Field, tail: string)
    requires AllSpace(f.before) && AllSpace(f.beforeColon) && AllSpace(f.afterColon) && AllSpace(f.after)
    requires PiecesOk(f.name) && Ok(f.v)
    requires Starts(t, p, WriteField(f, tail))
    requires tail != [] && (IsSpace(tail[0]) || tail[0] in ",]}")
    ensures var rest := Members(t, p + |WriteField(f, [])|, true);
            Members(t, p, false) ==
            if rest.None? then None
            else Some(Parsed([Member(PiecesMeaning(f.name), Meaning(f.v))] + rest.value.v, rest.value.next))
    decreases f.v, 2
  {
    hide Starts, Write, Elements, StringBody, Colon, WritePieces, PiecesOk, PiecesMeaning, Ok, Meaning, Value,
         WriteField, Members, Quoted, AllSpace;
    var n := p + |f.before|;
    var c := n + |Quoted(f.name)|;
    var a := c + |f.beforeColon| + 1;
    var v := a + |f.afterColon|;
    var q := v + |Write(f.v)|;
    FieldParts(t, p, f, tail);
    NamePart(t, n, f.name, f.beforeColon);
    DelimiterHead(f.after, tail);
    StartsAt(t, q, f.after + tail, 0);
    ValueRead(t, v, f.v);
    SpacesRead(t, a, f.afterColon, false);
    MemberFirst(t, n, Parsed(PiecesMeaning(f.name), c), a, Parsed(Meaning(f.v), q));
    SpacesRead(t, p, f.before, false);
    SpacesRead(t, q, f.after, true);
  }

  // ---- texts

  lemma TextParts(a: string, b: string, c: string)
    ensures var t := a + b + c;
            Starts(t, 0, a) && Starts(t, |a|, b) && Starts(t, |a| + |b|, c) && |t| == |a| + |b| + |c|
  {
  }

  /** Every text of the grammar, with white space around it, is read as its meaning. */
  lemma DocumentRead(before: string, c: Cst, after: string)
    requires AllSpace(before) && AllSpace(after) && Ok(c)
    ensures Document(before + Write(c) + after) == Some(Meaning(c))
  {
    hide Write, Value, Meaning, Ok, Elements, Members, Starts;
    var t := before + Write(c) + after;
    var p := |before|;
    var q := p + |Write(c)|;
    TextParts(before, Write(c), after);
    if after != [] {
      StartsAt(t, q, after, 0);
    }
    ValueRead(t, p, c);
    SpacesRead(t, 0, before, false);
    SpacesRead(t, q, after, false);
  }
}
