/**
 Soundness: every accepted text is a text of the grammar, and is read as its meaning.
 */
module JsonGrammarSound {
  import opened CText
  import opened JsonEscape
  import opened JsonReference
  import opened JsonGrammar

  // ---- strings

  lemma HexSound(t: string, p: nat)
    requires p + 4 <= |t| && FourHex(t, p).Some?
    ensures p + 4 < |t| && IsHex4(t[p + 1..p + 5]) && FourHex(t, p).value == Code(t[p + 1..p + 5])
  {
    assert HexValue(NUL) == BAD_HEX;
    hide HexValue, Pack;
    assert p + 4 < |t|;
    var d := t[p + 1..p + 5];
    assert d[0] == At(t, p + 1) && d[1] == At(t, p + 2) && d[2] == At(t, p + 3) && d[3] == At(t, p + 4);
  }

  lemma ItemSound(t: string, p: nat) returns (x: Piece)
    requires p < |t| && t[p] != NUL && t[p] != '"' && StringItem(t, p).Some?
    ensures PieceOk(x) && WritePiece(x) == t[p..StringItem(t, p).value.next]
    ensures PieceMeaning(x) == StringItem(t, p).value.out
  {
    hide HexValue, FourHex, Code, IsSurrogate, Combine, Chars, Encode, Count;
    if t[p] != '\\' {
      x := Raw(t[p]);
      assert t[p..p + 1] == [t[p]];
    } else if t[p + 1] != 'u' {
      x := Escaped(t[p + 1]);
      assert t[p..p + 2] == ['\\', t[p + 1]];
    } else {
      x := UnicodeSound(t, p);
    }
  }

  lemma UnicodeSound(t: string, p: nat) returns (x: Piece)
    requires p + 1 < |t| && t[p] == '\\' && t[p + 1] == 'u' && StringItem(t, p).Some?
    ensures PieceOk(x) && WritePiece(x) == t[p..StringItem(t, p).value.next]
    ensures PieceMeaning(x) == StringItem(t, p).value.out
  {
    hide HexValue, FourHex, Code, IsSurrogate, Combine, Chars, Encode, Count, IsHex4;
    HexSound(t, p + 1);
    var d := t[p + 2..p + 6];
    SliceTwo(t, p, 6);
    if !IsSurrogate(Code(d)) {
      x := Hex(d);
    } else {
      HexSound(t, p + 7);
      var lo := t[p + 8..p + 12];
      x := Pair(d, lo);
      SliceTwo(t, p + 6, 6);
      SliceJoin(t, p, p + 6, p + 12);
    }
  }

  lemma SliceJoin(t: string, a: nat, b: nat, c: nat)
    requires a <= b <= c <= |t|
    ensures t[a..c] == t[a..b] + t[b..c]
  {
  }

  lemma SliceHead(t: string, p: nat, q: nat)
    requires p < q <= |t|
    ensures t[p..q] == [t[p]] + t[p + 1..q]
  {
  }

  lemma SliceTwo(t: string, p: nat, n: nat)
    requires 2 <= n && p + n <= |t|
    ensures t[p..p + n] == [t[p], t[p + 1]] + t[p + 2..p + n]
  {
  }

  lemma {:induction false} BodySound(t: string, p: nat) returns (xs: seq<Piece>)
    requires p <= |t| && StringBody(t, p).Some?
    ensures PiecesOk(xs) && WritePieces(xs) + ['"'] == t[p..StringBody(t, p).value.next]
    ensures PiecesMeaning(xs) == StringBody(t, p).value.v
    decreases |t| - p
  {
    hide StringItem, PieceOk, PieceMeaning, WritePiece;
    if t[p] == '"' {
      xs := [];
      assert t[p..p + 1] == ['"'];
    } else {
      var x := ItemSound(t, p);
      var m := StringItem(t, p).value.next;
      var rest := BodySound(t, m);
      xs := [x] + rest;
      assert xs[1..] == rest;
      var q := StringBody(t, p).value.next;
      assert t[p..q] == t[p..m] + t[m..q];
      assert WritePieces(xs) + ['"'] == WritePiece(x) + (WritePieces(rest) + ['"']);
    }
  }

  // ---- numbers

  lemma DigitsSlice(t: string, d: nat)
    requires d <= |t|
    ensures AllDigits(t[d..DigitsEnd(t, d)])
  {
  }

  lemma FracSound(t: string, p: nat) returns (f: Option<string>)
    requires p <= |t| && Fraction(t, p).Some?
    ensures f.Some? ==> AllDigits(f.value) && f.value != []
    ensures WriteFrac(f) == t[p..Fraction(t, p).value.next]
    ensures Fraction(t, p).value.v == if f.None? then None else Some(Tail(Wrap64(Decimal(f.value)), |f.value|))
    ensures f.Some? <==> At(t, p) == '.'
  {
    hide Decimal, Wrap64, Tail, DigitsEnd, AllDigits;
    if At(t, p) == '.' {
      var q := DigitsEnd(t, p + 1);
      f := Some(t[p + 1..q]);
      DigitsSlice(t, p + 1);
      SliceHead(t, p, q);
    } else {
      f := None;
    }
  }

  lemma SignSound(t: string, p: nat) returns (s: Sign, d: nat)
    requires p <= |t|
    ensures d == (if At(t, p) == '+' || At(t, p) == '-' then p + 1 else p) && d <= |t| && t[p..d] == WriteSign(s)
    ensures s.Minus? <==> At(t, p) == '-'
  {
    if At(t, p) == '+' || At(t, p) == '-' {
      s, d := if t[p] == '+' then Plus else Minus, p + 1;
      assert t[p..d] == [t[p]];
    } else {
      s, d := Unsigned, p;
    }
  }

  lemma ExpSound(t: string, p: nat) returns (x: Option<Exp>)
    requires p <= |t| && Exponent(t, p).Some?
    ensures x.Some? ==> x.value.e in "eE" && AllDigits(x.value.digits) && x.value.digits != []
    ensures WriteExp(x) == t[p..Exponent(t, p).value.next]
    ensures Exponent(t, p).value.v == if x.None? then None else Some(ExpMeaning(x.value))
  {
    hide Decimal, Wrap64, DigitsEnd, WriteSign, AllDigits, Exponent;
    if At(t, p) == 'e' || At(t, p) == 'E' {
      var s, d := SignSound(t, p + 1);
      ExponentParts(t, p, d);
      var q := DigitsEnd(t, d);
      x := Some(Exp(t[p], s, t[d..q]));
      DigitsSlice(t, d);
      SliceThree(t, p, d, q);
    } else {
      x := None;
      NoExponent(t, p);
    }
  }

  lemma ExponentParts(t: string, p: nat, d: nat)
    requires p < |t| && (t[p] == 'e' || t[p] == 'E') && Exponent(t, p).Some?
    requires d == if At(t, p + 1) == '+' || At(t, p + 1) == '-' then p + 2 else p + 1
    ensures d < DigitsEnd(t, d) <= |t|
    ensures var e := Wrap64(Decimal(t[d..DigitsEnd(t, d)]));
            Exponent(t, p) == Some(Parsed(Some(if At(t, p + 1) == '-' then Wrap64(-e) else e), DigitsEnd(t, d)))
  {
    hide Decimal, Wrap64, DigitsEnd;
  }

  lemma NoExponent(t: string, p: nat)
    requires p <= |t| && At(t, p) != 'e' && At(t, p) != 'E'
    ensures Exponent(t, p) == Some(Parsed(None, p))
  {
  }

  lemma SliceThree(t: string, p: nat, d: nat, q: nat)
    requires p < d <= q <= |t|
    ensures t[p..q] == [t[p]] + t[p + 1..d] + t[d..q]
  {
  }

  lemma NumberSound(t: string, p: nat) returns (n: Numeral)
    requires p < |t| && (t[p] == '-' || IsDigit(t[p])) && Number(t, p).Some?
    ensures NumeralOk(n) && WriteNumeral(n) == t[p..Number(t, p).value.next]
    ensures NumeralMeaning(n) == Number(t, p).value.v
  {
    hide Decimal, Wrap64, Tail, Scale, Fraction, Exponent, WriteFrac, WriteExp, ExpMeaning, DigitsEnd, AllDigits;
    var negative := t[p] == '-';
    var d := if negative then p + 1 else p;
    var q := DigitsEnd(t, d);
    DigitsSlice(t, d);
    var f := FracSound(t, q);
    var g := Fraction(t, q).value.next;
    var x := ExpSound(t, g);
    n := Numeral(negative, t[d..q], f, x);
    var e := Exponent(t, g).value.next;
    Cut(t, p, d, q, g, e);
    assert t[p..d] == if negative then ['-'] else [];
  }

  // ---- values

  lemma {:induction false} ValueSound(t: string, p: nat) returns (ws: string, c: Cst)
    requires p <= |t| && Value(t, p).Some?
    ensures AllSpace(ws) && Ok(c) && ws + Write(c) == t[p..Value(t, p).value.next]
    ensures Meaning(c) == Value(t, p).value.v
    decreases |t| - p, 2
  {
    hide Elements, Members, StringBody, Number, WriteNumeral, NumeralMeaning, WriteElems, WriteFields,
         ElemsMeaning, FieldsMeaning, ElemsOk, FieldsOk;
    var q := Value(t, p).value.next;
    var b := t[p];
    SliceHead(t, p, q);
    ws := [];
    if IsSpace(b) {
      ws, c := ValueSound(t, p + 1);
      Prefix([b], ws, Write(c));
      ws := [b] + ws;
    } else if b == '{' {
      var fs, trailing, w := ObjectSound(t, p + 1);
      c := CObj(fs, trailing, w);
    } else if b == '[' {
      var es, trailing, w := ArraySound(t, p + 1);
      c := CArr(es, trailing, w);
    } else if b == '"' {
      var xs := BodySound(t, p + 1);
      c := CStr(xs);
      assert ['"'] + (WritePieces(xs) + ['"']) == Write(c);
    } else if b == '-' || IsDigit(b) {
      NoKeyword(t, p);
      var n := NumberSound(t, p);
      c := CNum(n);
    } else {
      c := if Keyword(t, p, "null") then CNull else CBool(Keyword(t, p, "true"));
      assert t[p..q] == t[p..][..q - p];
    }
  }

  // ---- arrays

  /** White space before the first element belongs to it, or to the closing bracket. */
  lemma AbsorbElems(lead: string, es: seq<Elem>, trailing: bool, ws: string) returns (es': seq<Elem>, ws': string)
    requires AllSpace(lead) && ElemsOk(es) && AllSpace(ws)
    ensures ElemsOk(es') && AllSpace(ws') && (es' == [] <==> es == [])
    ensures ElemsMeaning(es') == ElemsMeaning(es)
    ensures lead + WriteElems(es, trailing, ws, false) == WriteElems(es', trailing, ws', false)
  {
    hide Write, Ok, Meaning;
    if es == [] {
      es', ws' := [], lead + ws;
      Prefix(lead, ws, [']']);
    } else {
      es', ws' := [es[0].(before := lead + es[0].before)] + es[1..], ws;
      AbsorbFirst(lead, es, es', trailing, ws);
    }
  }

  lemma AbsorbFirst(lead: string, es: seq<Elem>, es': seq<Elem>, trailing: bool, ws: string)
    requires AllSpace(lead) && ElemsOk(es) && es != [] && es' == [es[0].(before := lead + es[0].before)] + es[1..]
    ensures ElemsOk(es') && ElemsMeaning(es') == ElemsMeaning(es)
    ensures lead + WriteElems(es, trailing, ws, false) == WriteElems(es', trailing, ws, false)
  {
    hide Write, Ok, Meaning;
    assert es'[1..] == es[1..];
    var w := WriteElems(es[1..], trailing, ws, true);
    Moved(lead, es[0].before, Write(es[0].v), es[0].after, w);
  }

  lemma Moved(lead: string, before: string, v: string, after: string, w: string)
    ensures lead + ([] + before + v + after + w) == [] + (lead + before) + v + after + w
  {
    Prefix(lead, before, v + after + w);
    Chain5([], before, v, after, w);
    Chain5([], lead + before, v, after, w);
  }

  lemma Chain5(a: string, b: string, c: string, d: string, e: string)
    ensures a + b + c + d + e == a + (b + (c + d + e))
  {
  }

  lemma {:induction false} ArraySound(t: string, p: nat) returns (es: seq<Elem>, trailing: bool, ws: string)
    requires p <= |t| && Elements(t, p, false).Some?
    ensures ElemsOk(es) && AllSpace(ws)
    ensures WriteElems(es, trailing, ws, false) == t[p..Elements(t, p, false).value.next]
    ensures ElemsMeaning(es) == Elements(t, p, false).value.v
    decreases |t| - p, 5
  {
    hide Elements, WriteElems, ElemsMeaning, ElemsOk, AllSpace;
    var lead;
    lead, es, trailing, ws := ElementsSound(t, p, false);
    es, ws := AbsorbElems(lead, es, trailing, ws);
  }

  lemma {:induction false} ElementsSound(t: string, p: nat, comma: bool)
    returns (lead: string, es: seq<Elem>, trailing: bool, ws: string)
    requires p <= |t| && Elements(t, p, comma).Some?
    ensures AllSpace(lead) && ElemsOk(es) && AllSpace(ws)
    ensures lead + WriteElems(es, trailing, ws, comma) == t[p..Elements(t, p, comma).value.next]
    ensures ElemsMeaning(es) == Elements(t, p, comma).value.v
    decreases |t| - p, 4
  {
    hide Value, Write, Meaning, Ok;
    var q := Elements(t, p, comma).value.next;
    var b := t[p];
    SliceHead(t, p, q);
    if IsSpace(b) {
      lead, es, trailing, ws := ElementsSound(t, p + 1, comma);
      Prefix([b], lead, WriteElems(es, trailing, ws, comma));
      lead := [b] + lead;
    } else if b == ']' {
      lead, es, trailing, ws := [], [], false, [];
      assert t[p..q] == [']'];
    } else if comma {
      lead := [];
      es, trailing, ws := ArraySound(t, p + 1);
      if es == [] {
        Prefix([','], ws, [']']);
        trailing := true;
      } else {
        CommaElems(es, trailing, ws);
      }
    } else {
      lead, es, trailing, ws := ElementSound(t, p);
    }
  }

  lemma CommaElems(es: seq<Elem>, trailing: bool, ws: string)
    requires es != []
    ensures [','] + WriteElems(es, trailing, ws, false) == WriteElems(es, trailing, ws, true)
  {
    hide Write;
    var w := WriteElems(es[1..], trailing, ws, true);
    Chain5([], es[0].before, Write(es[0].v), es[0].after, w);
    Chain5([','], es[0].before, Write(es[0].v), es[0].after, w);
  }

  /** An element and those after it. */
  lemma {:induction false} ElementSound(t: string, p: nat)
    returns (lead: string, es: seq<Elem>, trailing: bool, ws: string)
    requires p < |t| && !IsSpace(t[p]) && t[p] != ']' && Elements(t, p, false).Some?
    ensures AllSpace(lead) && ElemsOk(es) && AllSpace(ws)
    ensures lead + WriteElems(es, trailing, ws, false) == t[p..Elements(t, p, false).value.next]
    ensures ElemsMeaning(es) == Elements(t, p, false).value.v
    decreases |t| - p, 3
  {
    hide Value, Write, Meaning, Ok;
    var v := Value(t, p).value;
    var q := Elements(t, p, false).value.next;
    var before, c := ValueSound(t, p);
    var after, rest;
    after, rest, trailing, ws := ElementsSound(t, v.next, true);
    lead, es := [], [Elem(before, c, after)] + rest;
    assert es[1..] == rest;
    var w := WriteElems(rest, trailing, ws, true);
    SliceJoin(t, p, v.next, q);
    GatherElem(before, Write(c), after, w);
  }

  lemma GatherElem(before: string, v: string, after: string, w: string)
    ensures [] + ([] + before + v + after + w) == (before + v) + (after + w)
  {
  }

  // ---- objects

  lemma AbsorbFields(lead: string, fs: seq<Field>, trailing: bool, ws: string) returns (fs': seq<Field>, ws': string)
    requires AllSpace(lead) && FieldsOk(fs) && AllSpace(ws)
    ensures FieldsOk(fs') && AllSpace(ws') && (fs' == [] <==> fs == [])
    ensures FieldsMeaning(fs') == FieldsMeaning(fs)
    ensures lead + WriteFields(fs, trailing, ws, false) == WriteFields(fs', trailing, ws', false)
  {
    hide Write, WritePieces, Ok, Meaning, PiecesOk, PiecesMeaning;
    if fs == [] {
      fs', ws' := [], lead + ws;
      Prefix(lead, ws, ['}']);
    } else {
      fs', ws' := [fs[0].(before := lead + fs[0].before)] + fs[1..], ws;
      AbsorbFirstField(lead, fs, fs', trailing, ws);
    }
  }

  lemma AbsorbFirstField(lead: string, fs: seq<Field>, fs': seq<Field>, trailing: bool, ws: string)
    requires AllSpace(lead) && FieldsOk(fs) && fs != [] && fs' == [fs[0].(before := lead + fs[0].before)] + fs[1..]
    ensures FieldsOk(fs') && FieldsMeaning(fs') == FieldsMeaning(fs)
    ensures lead + WriteFields(fs, trailing, ws, false) == WriteFields(fs', trailing, ws, false)
  {
    hide Write, WritePieces, Ok, Meaning, PiecesOk, PiecesMeaning;
    assert fs'[1..] == fs[1..];
    var f := fs[0];
    MovedField(lead, f.before, ['"'] + WritePieces(f.name) + ['"'], f.beforeColon, f.afterColon, Write(f.v), f.after,
               WriteFields(fs[1..], trailing, ws, true));
  }

  lemma MovedField(lead: string, b: string, c: string, d: string, e: string, f: string, g: string, h: string)
    ensures lead + ([] + b + c + d + [':'] + e + f + g + h) == [] + (lead + b) + c + d + [':'] + e + f + g + h
  {
    Prefix(lead, b, c + d + [':'] + e + f + g + h);
    Flatten([], b, c, d, e, f, g, h);
    Flatten([], lead + b, c, d, e, f, g, h);
  }

  lemma Prefix(a: string, b: string, c: string)
    ensures a + (b + c) == (a + b) + c
  {
  }

  lemma Flatten(a: string, b: string, c: string, d: string, e: string, f: string, g: string, h: string)
    ensures a + b + c + d + [':'] + e + f + g + h == a + (b + (c + d + [':'] + e + f + g + h))
  {
  }

  lemma {:induction false} ObjectSound(t: string, p: nat) returns (fs: seq<Field>, trailing: bool, ws: string)
    requires p <= |t| && Members(t, p, false).Some?
    ensures FieldsOk(fs) && AllSpace(ws)
    ensures WriteFields(fs, trailing, ws, false) == t[p..Members(t, p, false).value.next]
    ensures FieldsMeaning(fs) == Members(t, p, false).value.v
    decreases |t| - p, 5
  {
    hide Members, WriteFields, FieldsMeaning, FieldsOk, AllSpace;
    var lead;
    lead, fs, trailing, ws := MembersSound(t, p, false);
    fs, ws := AbsorbFields(lead, fs, trailing, ws);
  }

  lemma {:induction false} MembersSound(t: string, p: nat, comma: bool)
    returns (lead: string, fs: seq<Field>, trailing: bool, ws: string)
    requires p <= |t| && Members(t, p, comma).Some?
    ensures AllSpace(lead) && FieldsOk(fs) && AllSpace(ws)
    ensures lead + WriteFields(fs, trailing, ws, comma) == t[p..Members(t, p, comma).value.next]
    ensures FieldsMeaning(fs) == Members(t, p, comma).value.v
    decreases |t| - p, 4
  {
    hide Value, Write, Meaning, Ok, StringBody, Colon, WritePieces, PiecesOk, PiecesMeaning;
    var q := Members(t, p, comma).value.next;
    var b := t[p];
    SliceHead(t, p, q);
    if IsSpace(b) {
      lead, fs, trailing, ws := MembersSound(t, p + 1, comma);
      Prefix([b], lead, WriteFields(fs, trailing, ws, comma));
      lead := [b] + lead;
    } else if b == '}' {
      lead, fs, trailing, ws := [], [], false, [];
      assert t[p..q] == ['}'];
    } else if comma {
      lead := [];
      fs, trailing, ws := ObjectSound(t, p + 1);
      if fs == [] {
        Prefix([','], ws, ['}']);
        trailing := true;
      } else {
        CommaFields(fs, trailing, ws);
      }
    } else {
      lead := [];
      fs, trailing, ws := MemberSound(t, p);
    }
  }

  lemma CommaFields(fs: seq<Field>, trailing: bool, ws: string)
    requires fs != []
    ensures [','] + WriteFields(fs, trailing, ws, false) == WriteFields(fs, trailing, ws, true)
  {
    hide Write, WritePieces;
    var f, w := fs[0], WriteFields(fs[1..], trailing, ws, true);
    var name := ['"'] + WritePieces(f.name) + ['"'];
    Flatten([], f.before, name, f.beforeColon, f.afterColon, Write(f.v), f.after, w);
    Flatten([','], f.before, name, f.beforeColon, f.afterColon, Write(f.v), f.after, w);
  }

  lemma {:induction false} ColonSound(t: string, p: nat) returns (ws: string)
    requires p <= |t| && Colon(t, p).Some?
    ensures AllSpace(ws) && ws + [':'] == t[p..Colon(t, p).value]
    decreases |t| - p
  {
    if IsSpace(t[p]) {
      ws := ColonSound(t, p + 1);
      assert t[p..Colon(t, p).value] == [t[p]] + (ws + [':']);
      ws := [t[p]] + ws;
    } else {
      ws := [];
      assert t[p..p + 1] == [':'];
    }
  }

  /** A member and those after it. */
  lemma {:induction false} MemberSound(t: string, p: nat) returns (fs: seq<Field>, trailing: bool, ws: string)
    requires p < |t| && t[p] == '"' && Members(t, p, false).Some?
    ensures FieldsOk(fs) && AllSpace(ws)
    ensures WriteFields(fs, trailing, ws, false) == t[p..Members(t, p, false).value.next]
    ensures FieldsMeaning(fs) == Members(t, p, false).value.v
    decreases |t| - p, 3
  {
    hide Value, Write, Meaning, Ok, StringBody, Colon, WritePieces, PiecesOk, PiecesMeaning, AllSpace;
    var name := StringBody(t, p + 1).value;
    var c := Colon(t, name.next).value;
    var v := Value(t, c).value;
    var q := Members(t, p, false).value.next;
    var xs := BodySound(t, p + 1);
    var bc := ColonSound(t, name.next);
    var ac, x := ValueSound(t, c);
    var after, rest;
    after, rest, trailing, ws := MembersSound(t, v.next, true);
    fs := [Field([], xs, bc, ac, x, after)] + rest;
    assert fs[1..] == rest;
    assert AllSpace([]) by { NoSpace(); }
    var w := WriteFields(rest, trailing, ws, true);
    var quoted := ['"'] + WritePieces(xs) + ['"'];
    assert t[p..name.next] == ['"'] + t[p + 1..name.next] == quoted;
    Cut(t, p, name.next, c, v.next, q);
    Gather(quoted, bc, ac, Write(x), after, w);
  }

  lemma Cut(t: string, a: nat, b: nat, c: nat, d: nat, e: nat)
    requires a <= b <= c <= d <= e <= |t|
    ensures t[a..e] == t[a..b] + t[b..c] + t[c..d] + t[d..e]
  {
    assert t[a..e] == t[a..d] + t[d..e];
    assert t[a..d] == t[a..c] + t[c..d];
    assert t[a..c] == t[a..b] + t[b..c];
  }

  lemma Gather(name: string, bc: string, ac: string, x: string, after: string, w: string)
    ensures [] + [] + name + bc + [':'] + ac + x + after + w == name + (bc + [':']) + (ac + x) + (after + w)
  {
  }

  // ---- texts

  /** Every accepted text without NUL bytes is white space, a text of the grammar with that meaning, white space. */
  lemma DocumentSound(t: string) returns (before: string, c: Cst, after: string)
    requires NUL !in t && Document(t).Some?
    ensures AllSpace(before) && AllSpace(after) && Ok(c)
    ensures t == before + Write(c) + after && Document(t) == Some(Meaning(c))
  {
    hide Write, Value, Ok, Meaning;
    before, c := ValueSound(t, 0);
    var q := Value(t, 0).value.next;
    var r := SkipSpace(t, q);
    assert forall i :: 0 <= i < |t| ==> t[i] != NUL;
    after := t[q..r];
    assert t == t[0..q] + after;
  }
}
