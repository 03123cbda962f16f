/**
 JSON texts in the sense of RFC 8259, what they denote, which of them the parser accepts
 and which of those it reads as what they denote.

 The RFC lets any four hex digits follow \u. Two escapes denote one code point if they are
 a high and a low surrogate; a surrogate outside such a pair denotes nothing (section 8.2).
 */
module JsonRfc {
  import opened CText
  import opened JsonEscape
  import opened JsonReference
  import opened JsonGrammar
  import opened JsonGrammarReads
  import opened JsonDecimal
  import opened Bits
  import JsonBounds

  // ---- texts

  /** Section 7 of RFC 8259; here every \u escape is a piece of its own. */
  predicate PieceRfc(x: Piece) {
    match x
    case Raw(c) => ' ' <= c && c != '"' && c != '\\'
    case Escaped(l) => l in "\"\\/bfnrt"
    case Hex(d) => IsHex4(d)
    case Pair(_, _) => false
  }

  predicate PiecesRfc(xs: seq<Piece>) {
    forall i :: 0 <= i < |xs| ==> PieceRfc(xs[i])
  }

  /** A value as section 2 of RFC 8259 writes it. */
  predicate Rfc(c: Cst) {
    match c
    case CNull => true
    case CBool(_) => true
    case CNum(n) => NumeralOk(n) && n.whole != []
    case CStr(xs) => PiecesRfc(xs)
    case CArr(es, trailing, ws) => !trailing && AllSpace(ws) && ElemsRfc(es)
    case CObj(fs, trailing, ws) => !trailing && AllSpace(ws) && FieldsRfc(fs)
  }

  predicate ElemsRfc(es: seq<Elem>) {
    es == [] || (AllSpace(es[0].before) && AllSpace(es[0].after) && Rfc(es[0].v) && ElemsRfc(es[1..]))
  }

  predicate FieldsRfc(fs: seq<Field>) {
    fs == [] ||
    (&& AllSpace(fs[0].before) && PiecesRfc(fs[0].name) && AllSpace(fs[0].beforeColon) && AllSpace(fs[0].afterColon)
     && Rfc(fs[0].v) && AllSpace(fs[0].after) && FieldsRfc(fs[1..]))
  }

  /** Numbers of at most 18 digits in each part. */
  predicate Small(c: Cst) {
    match c
    case CNum(n) => NumeralSmall(n)
    case CArr(es, _, _) => ElemsSmall(es)
    case CObj(fs, _, _) => FieldsSmall(fs)
    case _ => true
  }

  predicate ElemsSmall(es: seq<Elem>) {
    es == [] || (Small(es[0].v) && ElemsSmall(es[1..]))
  }

  predicate FieldsSmall(fs: seq<Field>) {
    fs == [] || (Small(fs[0].v) && FieldsSmall(fs[1..]))
  }

  // ---- characters

  /** Section 2 of RFC 8259: the four characters of white space. */
  lemma SpaceSpelled(c: char)
    ensures IsSpace(c) <==> c in " \t\n\r"
  {
    var four := " \t\n\r";
    assert four[0] == ' ' && four[1] == '\t' && four[2] == '\n' && four[3] == '\r';
  }

  /** Section 7: what the two-character escapes stand for, in the order of the RFC's list. */
  lemma EscapeSpelled(i: nat)
    requires i < 8
    ensures var letters, codes := "\"\\/bfnrt", [0x22, 0x5C, 0x2F, 0x08, 0x0C, 0x0A, 0x0D, 0x09];
            && PieceRfc(Escaped(letters[i])) && PieceOk(Escaped(letters[i]))
            && PieceMeaning(Escaped(letters[i])) == [codes[i] as char]
  {
  }

  /** The value of a hex digit; -1 if it is none. */
  function HexDigit(c: char): int {
    if '0' <= c <= '9' then c as int - '0' as int
    else if 'a' <= c <= 'f' then c as int - 'a' as int + 10
    else if 'A' <= c <= 'F' then c as int - 'A' as int + 10
    else -1
  }

  /** The number that hex digits spell, most significant first. */
  function Hexadecimal(d: string): int {
    if d == [] then 0 else Hexadecimal(d[..|d| - 1]) * 16 + HexDigit(d[|d| - 1])
  }

  lemma HexDigitIs(c: char)
    ensures HexValue(c) == BAD_HEX <==> HexDigit(c) == -1
    ensures HexDigit(c) >= 0 ==> HexValue(c) <= 0xF && HexValue(c) as int == HexDigit(c)
  {
  }

  lemma PackIs(a: bv32, b: bv32, c: bv32, d: bv32)
    requires a <= 0xF && b <= 0xF && c <= 0xF && d <= 0xF
    ensures Pack(a, b, c, d) == a * 0x1000 + b * 0x100 + c * 0x10 + d
  {
  }

  lemma SumAsInt(a: bv32, b: bv32, c: bv32, d: bv32)
    requires a <= 0xF && b <= 0xF && c <= 0xF && d <= 0xF
    ensures (a * 0x1000 + b * 0x100 + c * 0x10 + d) as int ==
            a as int * 0x1000 + b as int * 0x100 + c as int * 0x10 + d as int
  {
  }

  lemma PackAsInt(a: bv32, b: bv32, c: bv32, d: bv32)
    requires a <= 0xF && b <= 0xF && c <= 0xF && d <= 0xF
    ensures Pack(a, b, c, d) as int == a as int * 0x1000 + b as int * 0x100 + c as int * 0x10 + d as int
  {
    PackIs(a, b, c, d);
    SumAsInt(a, b, c, d);
  }

  lemma FourDigits(d: string)
    requires |d| == 4
    ensures Hexadecimal(d) == HexDigit(d[0]) * 0x1000 + HexDigit(d[1]) * 0x100 + HexDigit(d[2]) * 0x10 + HexDigit(d[3])
  {
    hide HexDigit;
    assert d[..3][..2] == d[..2] && d[..2][..1] == d[..1] && d[..1][..0] == [];
    assert Hexadecimal(d[..1]) == HexDigit(d[0]);
    assert Hexadecimal(d[..2]) == Hexadecimal(d[..1]) * 16 + HexDigit(d[1]);
    assert Hexadecimal(d[..3]) == Hexadecimal(d[..2]) * 16 + HexDigit(d[2]);
  }

  /** Four characters are taken for a \u escape if and only if they are hex digits. */
  lemma HexSpelled(d: string)
    requires |d| == 4
    ensures IsHex4(d) <==> forall i :: 0 <= i < 4 ==> HexDigit(d[i]) >= 0
  {
    forall i | 0 <= i < 4
      ensures HexValue(d[i]) == BAD_HEX <==> HexDigit(d[i]) < 0
    {
      HexDigitIs(d[i]);
    }
    hide HexDigit, HexValue;
  }

  /** They are taken for the number they spell. */
  lemma CodeSpelled(d: string)
    requires IsHex4(d)
    ensures Code(d) as int == Hexadecimal(d)
  {
    HexSpelled(d);
    HexDigitIs(d[0]);
    HexDigitIs(d[1]);
    HexDigitIs(d[2]);
    HexDigitIs(d[3]);
    FourDigits(d);
    hide HexDigit, HexValue, Pack, Hexadecimal;
    Spelled(HexValue(d[0]), HexValue(d[1]), HexValue(d[2]), HexValue(d[3]),
            HexDigit(d[0]), HexDigit(d[1]), HexDigit(d[2]), HexDigit(d[3]));
  }

  lemma Spelled(a: bv32, b: bv32, c: bv32, d: bv32, w: int, x: int, y: int, z: int)
    requires a <= 0xF && b <= 0xF && c <= 0xF && d <= 0xF
    requires a as int == w && b as int == x && c as int == y && d as int == z
    ensures Pack(a, b, c, d) as int == w * 0x1000 + x * 0x100 + y * 0x10 + z
  {
    hide Pack;
    PackAsInt(a, b, c, d);
  }

  // ---- surrogates

  predicate High(x: Piece) {
    x.Hex? && IsHex4(x.d) && 0xD800 <= Code(x.d) <= 0xDBFF
  }

  predicate Low(x: Piece) {
    x.Hex? && IsHex4(x.d) && 0xDC00 <= Code(x.d) <= 0xDFFF
  }

  predicate Surrogate(x: Piece) {
    High(x) || Low(x)
  }

  /** Every surrogate, from left to right, has a \u escape directly behind it that it uses up. */
  predicate Followed(xs: seq<Piece>) {
    xs == [] ||
    if Surrogate(xs[0]) then |xs| > 1 && xs[1].Hex? && Followed(xs[2..]) else Followed(xs[1..])
  }

  /** Surrogates come in pairs, high before low. */
  predicate Paired(xs: seq<Piece>) {
    xs == [] ||
    if Surrogate(xs[0]) then High(xs[0]) && |xs| > 1 && Low(xs[1]) && Paired(xs[2..]) else Paired(xs[1..])
  }

  /** No high surrogate has bit 0x40. */
  predicate Clear(xs: seq<Piece>) {
    xs == [] || ((High(xs[0]) ==> Code(xs[0].d) & 0x40 == 0) && Clear(xs[1..]))
  }

  predicate AllFollowed(c: Cst) {
    match c
    case CStr(xs) => Followed(xs)
    case CArr(es, _, _) => ElemsFollowed(es)
    case CObj(fs, _, _) => FieldsFollowed(fs)
    case _ => true
  }

  predicate ElemsFollowed(es: seq<Elem>) {
    es == [] || (AllFollowed(es[0].v) && ElemsFollowed(es[1..]))
  }

  predicate FieldsFollowed(fs: seq<Field>) {
    fs == [] || (Followed(fs[0].name) && AllFollowed(fs[0].v) && FieldsFollowed(fs[1..]))
  }

  predicate AllPaired(c: Cst) {
    match c
    case CStr(xs) => Paired(xs)
    case CArr(es, _, _) => ElemsPaired(es)
    case CObj(fs, _, _) => FieldsPaired(fs)
    case _ => true
  }

  predicate ElemsPaired(es: seq<Elem>) {
    es == [] || (AllPaired(es[0].v) && ElemsPaired(es[1..]))
  }

  predicate FieldsPaired(fs: seq<Field>) {
    fs == [] || (Paired(fs[0].name) && AllPaired(fs[0].v) && FieldsPaired(fs[1..]))
  }

  predicate AllClear(c: Cst) {
    match c
    case CStr(xs) => Clear(xs)
    case CArr(es, _, _) => ElemsClear(es)
    case CObj(fs, _, _) => FieldsClear(fs)
    case _ => true
  }

  predicate ElemsClear(es: seq<Elem>) {
    es == [] || (AllClear(es[0].v) && ElemsClear(es[1..]))
  }

  predicate FieldsClear(fs: seq<Field>) {
    fs == [] || (Clear(fs[0].name) && AllClear(fs[0].v) && FieldsClear(fs[1..]))
  }

  // ---- what a text denotes

  lemma CodeBound(d: string)
    requires IsHex4(d)
    ensures Code(d) <= 0xFFFF
  {
    hide Pack;
    assert HexValue(d[0]) <= 0xF && HexValue(d[1]) <= 0xF && HexValue(d[2]) <= 0xF && HexValue(d[3]) <= 0xF;
    PackBound(HexValue(d[0]), HexValue(d[1]), HexValue(d[2]), HexValue(d[3]));
  }

  lemma PackBound(b1: bv32, b2: bv32, b3: bv32, b4: bv32)
    requires b1 <= 0xF && b2 <= 0xF && b3 <= 0xF && b4 <= 0xF
    ensures Pack(b1, b2, b3, b4) <= 0xFFFF
  {
    HexBits(b1, b2, b3, b4);
  }

  lemma SurrogateRange(u: bv32)
    requires u <= 0xFFFF
    ensures IsSurrogate(u) <==> 0xD800 <= u <= 0xDFFF
  {
  }

  /** The parser's test for surrogates is the RFC's. */
  lemma SurrogateIs(x: Piece)
    requires x.Hex? && IsHex4(x.d)
    ensures Surrogate(x) <==> IsSurrogate(Code(x.d))
  {
    hide IsSurrogate, Code, HexValue;
    CodeBound(x.d);
    SurrogateRange(Code(x.d));
    Between(Code(x.d));
  }

  lemma Between(u: bv32)
    ensures 0xD800 <= u <= 0xDFFF <==> 0xD800 <= u <= 0xDBFF || 0xDC00 <= u <= 0xDFFF
  {
  }

  lemma PlainPiece(x: Piece)
    requires PieceRfc(x) && !Surrogate(x)
    ensures PieceOk(x)
  {
    hide IsSurrogate, Code, IsHex4, High, Low;
    if x.Hex? {
      SurrogateIs(x);
    }
  }

  function PiecesDenote(xs: seq<Piece>): string
    requires PiecesRfc(xs) && Paired(xs)
  {
    if xs == [] then []
    else if Surrogate(xs[0]) then
      Chars(Encode(JsonBounds.Surrogates(Code(xs[0].d), Code(xs[1].d)))) + PiecesDenote(xs[2..])
    else
      PlainPiece(xs[0]);
      PieceMeaning(xs[0]) + PiecesDenote(xs[1..])
  }

  /** The tree of a text, with exact numbers and the pairs of section 2.2 of RFC 2781. */
  function Denoted(c: Cst): Json
    requires Rfc(c) && AllPaired(c)
  {
    match c
    case CNull => Null
    case CBool(b) => Bool(b)
    case CNum(n) => NumeralDenoted(n)
    case CStr(xs) => Str(PiecesDenote(xs))
    case CArr(es, _, _) => Arr(ElemsDenote(es))
    case CObj(fs, _, _) => Obj(FieldsDenote(fs))
  }

  function ElemsDenote(es: seq<Elem>): seq<Json>
    requires ElemsRfc(es) && ElemsPaired(es)
  {
    if es == [] then [] else [Denoted(es[0].v)] + ElemsDenote(es[1..])
  }

  function FieldsDenote(fs: seq<Field>): seq<Member>
    requires FieldsRfc(fs) && FieldsPaired(fs)
  {
    if fs == [] then [] else [Member(PiecesDenote(fs[0].name), Denoted(fs[0].v))] + FieldsDenote(fs[1..])
  }

  // ---- the parser's view: a surrogate and the escape behind it are one piece

  function Join(xs: seq<Piece>): seq<Piece> {
    if xs == [] then []
    else if Surrogate(xs[0]) && |xs| > 1 && xs[1].Hex? then [Pair(xs[0].d, xs[1].d)] + Join(xs[2..])
    else [xs[0]] + Join(xs[1..])
  }

  function JoinAll(c: Cst): Cst {
    match c
    case CStr(xs) => CStr(Join(xs))
    case CArr(es, trailing, ws) => CArr(JoinElems(es), trailing, ws)
    case CObj(fs, trailing, ws) => CObj(JoinFields(fs), trailing, ws)
    case _ => c
  }

  function JoinElems(es: seq<Elem>): seq<Elem> {
    if es == [] then [] else [es[0].(v := JoinAll(es[0].v))] + JoinElems(es[1..])
  }

  function JoinFields(fs: seq<Field>): seq<Field> {
    if fs == [] then []
    else [fs[0].(name := Join(fs[0].name), v := JoinAll(fs[0].v))] + JoinFields(fs[1..])
  }

  lemma {:induction false} JoinWrite(xs: seq<Piece>)
    ensures WritePieces(Join(xs)) == WritePieces(xs)
    decreases |xs|
  {
    hide Surrogate;
    if xs != [] {
      if Surrogate(xs[0]) && |xs| > 1 && xs[1].Hex? {
        SurrogateHex(xs[0]);
        JoinWrite(xs[2..]);
        assert xs[1..][0] == xs[1] && xs[1..][1..] == xs[2..];
        Assoc(['\\', 'u'] + xs[0].d, ['\\', 'u'] + xs[1].d, WritePieces(xs[2..]));
      } else {
        JoinWrite(xs[1..]);
      }
    }
  }

  lemma Assoc(a: string, b: string, c: string)
    ensures a + b + c == a + (b + c)
  {
  }

  lemma {:induction false} JoinOk(xs: seq<Piece>)
    requires PiecesRfc(xs) && Followed(xs)
    ensures PiecesOk(Join(xs))
    decreases |xs|
  {
    hide PieceOk, PieceRfc, Surrogate;
    if xs != [] {
      if Surrogate(xs[0]) {
        PairOk(xs[0], xs[1]);
        JoinOk(xs[2..]);
      } else {
        PlainPiece(xs[0]);
        JoinOk(xs[1..]);
      }
    }
  }

  lemma PairOk(x: Piece, y: Piece)
    requires PieceRfc(x) && PieceRfc(y) && Surrogate(x) && y.Hex?
    ensures PieceOk(Pair(x.d, y.d))
  {
    hide IsSurrogate, Code, IsHex4, High, Low;
    assert x.Hex? && IsHex4(x.d) by { SurrogateHex(x); }
    SurrogateIs(x);
  }

  lemma SurrogateHex(x: Piece)
    requires Surrogate(x)
    ensures x.Hex? && IsHex4(x.d)
  {
  }

  /** The tree as the parser sees it is written the same, and is in its grammar if all surrogates are followed. */
  lemma {:induction false} JoinAllOk(c: Cst)
    requires Rfc(c)
    ensures Write(JoinAll(c)) == Write(c)
    ensures AllFollowed(c) ==> Ok(JoinAll(c))
    decreases c, 0
  {
    hide PiecesRfc, PiecesOk, Followed, WritePieces, Join;
    match c
    case CStr(xs) =>
      JoinWrite(xs);
      if Followed(xs) {
        JoinOk(xs);
      }
    case CArr(es, trailing, ws) => JoinElemsOk(es, trailing, ws, false);
    case CObj(fs, trailing, ws) => JoinFieldsOk(fs, trailing, ws, false);
    case _ =>
  }

  lemma {:induction false} JoinElemsOk(es: seq<Elem>, trailing: bool, ws: string, comma: bool)
    requires ElemsRfc(es)
    ensures WriteElems(JoinElems(es), trailing, ws, comma) == WriteElems(es, trailing, ws, comma)
    ensures ElemsFollowed(es) ==> ElemsOk(JoinElems(es))
    decreases es, 0
  {
    hide Write, Ok, AllSpace, JoinAll;
    if es != [] {
      JoinAllOk(es[0].v);
      JoinElemsOk(es[1..], trailing, ws, true);
      assert JoinElems(es)[1..] == JoinElems(es[1..]);
    }
  }

  lemma {:induction false} JoinFieldsOk(fs: seq<Field>, trailing: bool, ws: string, comma: bool)
    requires FieldsRfc(fs)
    ensures WriteFields(JoinFields(fs), trailing, ws, comma) == WriteFields(fs, trailing, ws, comma)
    ensures FieldsFollowed(fs) ==> FieldsOk(JoinFields(fs))
    decreases fs, 0
  {
    hide Write, Ok, AllSpace, JoinAll, Join, PiecesRfc, PiecesOk, WritePieces, Followed;
    if fs != [] {
      JoinAllOk(fs[0].v);
      JoinWrite(fs[0].name);
      if Followed(fs[0].name) {
        JoinOk(fs[0].name);
      }
      JoinFieldsOk(fs[1..], trailing, ws, true);
      assert JoinFields(fs)[1..] == JoinFields(fs[1..]);
    }
  }

  // ---- texts that are rejected

  /** A surrogate without a \u escape behind it ends the string. */
  lemma SurrogateDies(t: string, p: nat, x: Piece)
    requires Surrogate(x) && Starts(t, p, WritePiece(x))
    requires At(t, p + 6) != '\\' || At(t, p + 7) != 'u'
    ensures p < |t| && t[p] == '\\' && StringItem(t, p) == None
  {
    hide Starts, IsSurrogate, Code, HexValue, High, Low, FourHex;
    SurrogateHex(x);
    UnicodeStarts(t, p, x.d);
    HexRead(t, p + 1, x.d);
    SurrogateIs(x);
  }

  /** What stands behind a piece that no \u escape follows. */
  lemma NotUnicode(t: string, p: nat, xs: seq<Piece>)
    requires PiecesRfc(xs) && Starts(t, p, WritePieces(xs) + ['"']) && (xs != [] ==> !xs[0].Hex?)
    ensures At(t, p) != '\\' || At(t, p + 1) != 'u'
  {
    hide Starts, IsHex4;
    StartsAt(t, p, WritePieces(xs) + ['"'], 0);
    if xs != [] && xs[0].Escaped? {
      StartsAt(t, p, WritePieces(xs) + ['"'], 1);
    }
  }

  lemma {:induction false} PiecesDie(t: string, p: nat, xs: seq<Piece>)
    requires PiecesRfc(xs) && !Followed(xs) && Starts(t, p, WritePieces(xs) + ['"'])
    ensures p < |t| && StringBody(t, p) == None
    decreases |xs|
  {
    hide Starts, PieceOk, PieceRfc, WritePiece, Surrogate, StringItem;
    var x := WritePiece(xs[0]);
    Assoc(x, WritePieces(xs[1..]), ['"']);
    StartsSplit(t, p, x, WritePieces(xs[1..]) + ['"']);
    if !Surrogate(xs[0]) {
      PlainPiece(xs[0]);
      PieceRead(t, p, xs[0]);
      PiecesDie(t, p + |x|, xs[1..]);
    } else {
      SurrogateSize(xs[0]);
      if |xs| == 1 || !xs[1].Hex? {
        NotUnicode(t, p + 6, xs[1..]);
        SurrogateDies(t, p, xs[0]);
      } else {
        PairRuns(t, p, xs);
        PiecesDie(t, p + 12, xs[2..]);
      }
    }
  }

  lemma SurrogateSize(x: Piece)
    requires Surrogate(x)
    ensures |WritePiece(x)| == 6
  {
  }

  /** A surrogate and the escape behind it are read as one. */
  lemma PairRuns(t: string, p: nat, xs: seq<Piece>)
    requires PiecesRfc(xs) && |xs| > 1 && Surrogate(xs[0]) && xs[1].Hex? && Starts(t, p, WritePieces(xs) + ['"'])
    ensures Starts(t, p + 12, WritePieces(xs[2..]) + ['"'])
    ensures p < |t| && t[p] == '\\' && StringItem(t, p).Some? && StringItem(t, p).value.next == p + 12
  {
    hide Starts, StringItem, Surrogate, PieceOk, PieceRfc;
    PairOk(xs[0], xs[1]);
    SurrogateHex(xs[0]);
    var pair := Pair(xs[0].d, xs[1].d);
    assert xs[1..][0] == xs[1] && xs[1..][1..] == xs[2..];
    TwoPieces(WritePiece(xs[0]), WritePiece(xs[1]), WritePieces(xs[2..]));
    PairSize(pair);
    StartsSplit(t, p, WritePiece(pair), WritePieces(xs[2..]) + ['"']);
    PairRead(t, p, pair.hi, pair.lo);
  }

  lemma PairSize(x: Piece)
    requires x.Pair? && PieceOk(x)
    ensures |WritePiece(x)| == 12
  {
  }

  lemma TwoPieces(a: string, b: string, c: string)
    ensures a + (b + c) + ['"'] == (a + b) + (c + ['"'])
  {
  }

  /** A value with a surrogate that is not followed is rejected, wherever in it the surrogate is. */
  lemma {:induction false} ValueDies(t: string, p: nat, c: Cst)
    requires Rfc(c) && !AllFollowed(c) && Starts(t, p, Write(c))
    ensures p < |t| && !IsSpace(t[p]) && t[p] !in "]}," && Value(t, p) == None
    decreases c, 1
  {
    hide Starts, PiecesRfc, Followed, WritePieces, WriteElems, WriteFields, Value, Elements, Members, StringBody;
    match c {
      case CStr(xs) =>
        assert Write(c) == ['"'] + (WritePieces(xs) + ['"']);
        StartsWith(t, p, '"', WritePieces(xs) + ['"']);
        PiecesDie(t, p + 1, xs);
      case CArr(es, _, ws) =>
        StartsWith(t, p, '[', WriteElems(es, false, ws, false));
        ElemsDie(t, p + 1, es, ws, false);
      case CObj(fs, _, ws) =>
        StartsWith(t, p, '{', WriteFields(fs, false, ws, false));
        FieldsDie(t, p + 1, fs, ws, false);
    }
    ContainerDies(t, p);
  }

  lemma {:induction false} ElemsDie(t: string, p: nat, es: seq<Elem>, ws: string, comma: bool)
    requires ElemsRfc(es) && AllSpace(ws) && !ElemsFollowed(es) && Starts(t, p, WriteElems(es, false, ws, comma))
    ensures p < |t| && Elements(t, p, comma) == None
    decreases es, 0
  {
    hide Starts, Write, Value, Members, Elements, Meaning, Ok, AllSpace, JoinAll, Rfc, AllFollowed;
    var sep := if comma then [','] else [];
    var e := es[0];
    var tail := WriteElems(es[1..], false, ws, true);
    RegroupElem(sep, e.before, Write(e.v), e.after, tail);
    StartsSplit(t, p, sep, e.before + (Write(e.v) + (e.after + tail)));
    if comma {
      StartsAt(t, p, sep, 0);
      ListComma(t, p);
    }
    var p1 := p + |sep|;
    ElemRead(t, p1, e, tail);
    ElemsHead(es[1..], false, ws);
    if !AllFollowed(e.v) {
      ValueDies(t, p1 + |e.before|, e.v);
      ElementDies(t, p1 + |e.before|);
      SpacesRead(t, p1, e.before, false);
    } else {
      ElemsDie(t, p1 + |e.before| + |Write(e.v)| + |e.after|, es[1..], ws, true);
      JoinAllOk(e.v);
      ElemThen(t, p1, e.(v := JoinAll(e.v)), tail);
    }
    StartsBound(t, p1, e.before);
  }

  lemma {:induction false} FieldsDie(t: string, p: nat, fs: seq<Field>, ws: string, comma: bool)
    requires FieldsRfc(fs) && AllSpace(ws) && !FieldsFollowed(fs) && Starts(t, p, WriteFields(fs, false, ws, comma))
    ensures p < |t| && Members(t, p, comma) == None
    decreases fs, 0
  {
    hide Starts, Write, Value, Members, Elements, Meaning, Ok, AllSpace, JoinAll, Rfc, AllFollowed, Followed,
         PiecesRfc, WriteField;
    var sep := if comma then [','] else [];
    var f := fs[0];
    var tail := WriteFields(fs[1..], false, ws, true);
    FieldWritten(fs, false, ws, comma);
    StartsSplit(t, p, sep, WriteField(f, tail));
    if comma {
      StartsAt(t, p, sep, 0);
      ListComma(t, p);
    }
    var p1 := p + |sep|;
    FieldsHead(fs[1..], false, ws);
    if !Followed(f.name) || !AllFollowed(f.v) {
      FieldDies(t, p1, f, tail);
    } else {
      FieldParts(t, p1, f, tail);
      FieldsDie(t, p1 + |WriteField(f, [])|, fs[1..], ws, true);
      JoinFieldOk(f, tail);
      FieldThen(t, p1, JoinField(f), tail);
    }
  }

  function JoinField(f: Field): Field {
    f.(name := Join(f.name), v := JoinAll(f.v))
  }

  lemma {:induction false} JoinFieldOk(f: Field, tail: string)
    requires PiecesRfc(f.name) && Rfc(f.v) && Followed(f.name) && AllFollowed(f.v)
    ensures PiecesOk(JoinField(f).name) && Ok(JoinField(f).v)
    ensures WriteField(JoinField(f), tail) == WriteField(f, tail) && WriteField(JoinField(f), []) == WriteField(f, [])
  {
    hide PiecesRfc, Rfc, Followed, AllFollowed, PiecesOk, Ok, Join, JoinAll, Write, WritePieces;
    JoinWrite(f.name);
    JoinOk(f.name);
    JoinAllOk(f.v);
  }

  /** A member whose name or value is rejected. */
  lemma {:induction false} FieldDies(t: string, p: nat, f: Field, tail: string)
    requires AllSpace(f.before) && AllSpace(f.beforeColon) && AllSpace(f.afterColon) && PiecesRfc(f.name) && Rfc(f.v)
    requires !Followed(f.name) || !AllFollowed(f.v)
    requires Starts(t, p, WriteField(f, tail))
    ensures p < |t| && Members(t, p, false) == None
    decreases f.v, 2
  {
    hide Starts, Write, Value, Members, Elements, AllSpace, Rfc, AllFollowed, Followed, PiecesRfc, WriteField,
         Quoted, StringBody, Colon, Join, PiecesOk, PiecesMeaning;
    var n := p + |f.before|;
    var c := n + |Quoted(f.name)|;
    FieldParts(t, p, f, tail);
    if !Followed(f.name) {
      QuotedDies(t, n, f.name);
      NameDies(t, n);
    } else {
      JoinOk(f.name);
      QuotedJoin(f.name);
      NamePart(t, n, Join(f.name), f.beforeColon);
      var a := c + |f.beforeColon| + 1;
      ValueDies(t, a + |f.afterColon|, f.v);
      SpacesRead(t, a, f.afterColon, false);
      MemberDies(t, n, Parsed(PiecesMeaning(Join(f.name)), c), a);
    }
    SpacesRead(t, p, f.before, false);
  }

  lemma QuotedDies(t: string, n: nat, xs: seq<Piece>)
    requires PiecesRfc(xs) && !Followed(xs) && Starts(t, n, Quoted(xs))
    ensures n < |t| && t[n] == '"' && StringBody(t, n + 1) == None
  {
    hide Starts, PiecesRfc, Followed, StringBody, WritePieces;
    assert Quoted(xs) == ['"'] + (WritePieces(xs) + ['"']);
    StartsWith(t, n, '"', WritePieces(xs) + ['"']);
    PiecesDie(t, n + 1, xs);
  }

  lemma QuotedJoin(xs: seq<Piece>)
    ensures Quoted(Join(xs)) == Quoted(xs)
  {
    hide Join, WritePieces;
    JoinWrite(xs);
  }

  // ---- texts that are read as what they denote

  lemma {:induction false} PairedFollowed(xs: seq<Piece>)
    requires Paired(xs)
    ensures Followed(xs)
    decreases |xs|
  {
    hide High, Low;
    if xs != [] {
      if Surrogate(xs[0]) {
        SurrogateHex(xs[1]);
        PairedFollowed(xs[2..]);
      } else {
        PairedFollowed(xs[1..]);
      }
    }
  }

  lemma CharsInjective(a: seq<bv8>, b: seq<bv8>)
    ensures Chars(a) == Chars(b) ==> a == b
  {
    if Chars(a) == Chars(b) {
      forall i | 0 <= i < |a|
        ensures a[i] == b[i]
      {
        assert Chars(a)[i] == Chars(b)[i];
        assert a[i] as int as bv8 == b[i] as int as bv8;
      }
    }
  }

  /** Above the basic plane all encodings take four bytes, and different code points differ in them. */
  lemma EncodeFour(u: bv32, w: bv32)
    requires 0x10000 <= u <= 0x10FFFF && 0x10000 <= w <= 0x10FFFF
    ensures |Encode(u)| == |Encode(w)| == 4
    ensures Encode(u) == Encode(w) <==> u == w
  {
    hide LowByte;
    assert |Encode(u)| == |Encode(w)| == 4;
    hide Encode, JsonBounds.Decode, JsonBounds.IsUtf8;
    JsonBounds.EncodeIsUtf8(u);
    JsonBounds.EncodeIsUtf8(w);
  }

  /** One pair: the parser's bytes are as many as the denoted ones, and the same if and only if bit 0x40 is clear. */
  lemma PairMeans(x: Piece, y: Piece)
    requires High(x) && Low(y)
    ensures PieceOk(Pair(x.d, y.d))
    ensures var mine, theirs := PieceMeaning(Pair(x.d, y.d)),
            Chars(Encode(JsonBounds.Surrogates(Code(x.d), Code(y.d))));
            |mine| == |theirs| && (mine == theirs <==> Code(x.d) & 0x40 == 0)
  {
    hide Code, HexValue, Chars, Encode, IsSurrogate, Combine, JsonBounds.Surrogates;
    SurrogateIs(x);
    var hi, lo := Code(x.d), Code(y.d);
    JsonBounds.PairsWithOr(hi, lo);
    CombineRange(hi, lo);
    var u, w := Combine(hi, lo), JsonBounds.Surrogates(hi, lo);
    EncodeFour(u, w);
    CharsInjective(Encode(u), Encode(w));
  }

  lemma CombineRange(hi: bv32, lo: bv32)
    requires 0xD800 <= hi <= 0xDBFF && 0xDC00 <= lo <= 0xDFFF
    ensures 0x10000 <= Combine(hi, lo) <= 0x10FFFF && 0x10000 <= JsonBounds.Surrogates(hi, lo) <= 0x10FFFF
  {
    PairRange(hi, lo);
  }

  lemma {:induction false} PiecesMean(xs: seq<Piece>)
    requires PiecesRfc(xs) && Paired(xs)
    ensures PiecesOk(Join(xs)) && |PiecesMeaning(Join(xs))| == |PiecesDenote(xs)|
    ensures PiecesMeaning(Join(xs)) == PiecesDenote(xs) <==> Clear(xs)
    decreases |xs|
  {
    PairedFollowed(xs);
    JoinOk(xs);
    hide PieceOk, PieceRfc, PieceMeaning, Chars, Encode, JsonBounds.Surrogates, High, Low, Code;
    if xs != [] {
      if Surrogate(xs[0]) {
        LowIs(xs[1]);
        SurrogateHex(xs[0]);
        SurrogateHex(xs[1]);
        PairMeans(xs[0], xs[1]);
        PiecesMean(xs[2..]);
        var pair := Pair(xs[0].d, xs[1].d);
        assert Join(xs)[0] == pair && Join(xs)[1..] == Join(xs[2..]);
        SamePrefix(PieceMeaning(pair), Chars(Encode(JsonBounds.Surrogates(Code(xs[0].d), Code(xs[1].d)))),
                   PiecesMeaning(Join(xs[2..])), PiecesDenote(xs[2..]));
        assert xs[1..][0] == xs[1] && xs[1..][1..] == xs[2..];
      } else {
        PlainPiece(xs[0]);
        PiecesMean(xs[1..]);
        assert Join(xs)[0] == xs[0] && Join(xs)[1..] == Join(xs[1..]);
        SamePrefix(PieceMeaning(xs[0]), PieceMeaning(xs[0]), PiecesMeaning(Join(xs[1..])), PiecesDenote(xs[1..]));
      }
    }
  }

  lemma LowIs(x: Piece)
    requires Low(x)
    ensures !High(x)
  {
    hide Code, HexValue;
    var u := Code(x.d);
    Apart(u);
  }

  lemma Apart(u: bv32)
    ensures !(0xD800 <= u <= 0xDBFF && 0xDC00 <= u <= 0xDFFF)
  {
  }

  lemma SamePrefix(a: string, b: string, x: string, y: string)
    requires |a| == |b|
    ensures a + x == b + y <==> a == b && x == y
  {
    if a + x == b + y {
      assert a == (a + x)[..|a|] == (b + y)[..|b|] == b;
      assert x == (a + x)[|a|..] == (b + y)[|b|..] == y;
    }
  }

  /** What the parser reads is what the text denotes if and only if no high surrogate has bit 0x40. */
  lemma {:induction false} ValueMeans(c: Cst)
    requires Rfc(c) && AllPaired(c) && Small(c)
    ensures AllFollowed(c) && Ok(JoinAll(c))
    ensures Meaning(JoinAll(c)) == Denoted(c) <==> AllClear(c)
    decreases c, 0
  {
    hide PiecesRfc, Paired, Followed, Clear, Join, PiecesMeaning, PiecesDenote, PiecesOk, NumeralMeaning,
         NumeralDenoted, NumeralSmall, NumeralOk;
    match c
    case CNum(n) => SmallNumeral(n);
    case CStr(xs) =>
      PairedFollowed(xs);
      PiecesMean(xs);
    case CArr(es, _, _) => ElemsMean(es);
    case CObj(fs, _, _) => FieldsMean(fs);
    case _ =>
  }

  lemma {:induction false} ElemsMean(es: seq<Elem>)
    requires ElemsRfc(es) && ElemsPaired(es) && ElemsSmall(es)
    ensures ElemsFollowed(es) && ElemsOk(JoinElems(es))
    ensures ElemsMeaning(JoinElems(es)) == ElemsDenote(es) <==> ElemsClear(es)
    decreases es, 0
  {
    hide Rfc, AllPaired, Small, AllFollowed, Ok, AllClear, Meaning, Denoted, JoinAll, AllSpace;
    if es != [] {
      ValueMeans(es[0].v);
      ElemsMean(es[1..]);
      assert JoinElems(es)[1..] == JoinElems(es[1..]);
      SameHead(Meaning(JoinAll(es[0].v)), Denoted(es[0].v), ElemsMeaning(JoinElems(es[1..])), ElemsDenote(es[1..]));
    }
  }

  lemma SameHead<T>(a: T, b: T, x: seq<T>, y: seq<T>)
    ensures [a] + x == [b] + y <==> a == b && x == y
  {
    if [a] + x == [b] + y {
      assert a == ([a] + x)[0] == ([b] + y)[0] == b;
      assert x == ([a] + x)[1..] == ([b] + y)[1..] == y;
    }
  }

  lemma {:induction false} FieldsMean(fs: seq<Field>)
    requires FieldsRfc(fs) && FieldsPaired(fs) && FieldsSmall(fs)
    ensures FieldsFollowed(fs) && FieldsOk(JoinFields(fs))
    ensures FieldsMeaning(JoinFields(fs)) == FieldsDenote(fs) <==> FieldsClear(fs)
    decreases fs, 0
  {
    hide Rfc, AllPaired, Small, AllFollowed, Ok, AllClear, Meaning, Denoted, JoinAll, AllSpace, PiecesRfc,
         Paired, Followed, Clear, Join, PiecesMeaning, PiecesDenote, PiecesOk;
    if fs != [] {
      var f := fs[0];
      PairedFollowed(f.name);
      PiecesMean(f.name);
      ValueMeans(f.v);
      FieldsMean(fs[1..]);
      assert JoinFields(fs)[1..] == JoinFields(fs[1..]);
      SameHead(Member(PiecesMeaning(Join(f.name)), Meaning(JoinAll(f.v))), Member(PiecesDenote(f.name), Denoted(f.v)),
               FieldsMeaning(JoinFields(fs[1..])), FieldsDenote(fs[1..]));
    }
  }

  // ---- documents

  /** A text that dies at its value is rejected. */
  lemma DocumentDies(before: string, c: Cst, after: string)
    requires AllSpace(before) && Rfc(c) && !AllFollowed(c)
    ensures Document(before + Write(c) + after) == None
  {
    hide Write, Value, Rfc, AllFollowed, Starts, AllSpace, Elements, Members, SkipSpace;
    var t := before + Write(c) + after;
    TextParts(before, Write(c), after);
    ValueDies(t, |before|, c);
    SpacesRead(t, 0, before, false);
  }

  /**
   Every text of RFC 8259 is accepted if and only if each surrogate escape in it is directly
   followed by another \u escape. If surrogates come in pairs and numbers have at most 18
   digits before the point, after it and in the exponent, so that the text denotes a tree, it
   is accepted, and read as that tree if and only if no high surrogate has bit 0x40.
   */
  lemma RfcDocumentRead(before: string, c: Cst, after: string)
    requires AllSpace(before) && AllSpace(after) && Rfc(c)
    ensures var d := Document(before + Write(c) + after);
            && (d.Some? <==> AllFollowed(c))
            && (AllPaired(c) && Small(c) ==> d.Some? && (d.value == Denoted(c) <==> AllClear(c)))
  {
    hide Document, Write, Rfc, AllFollowed, AllPaired, Small, AllClear, JoinAll, Ok, Meaning, Denoted;
    if AllFollowed(c) {
      JoinAllOk(c);
      DocumentRead(before, JoinAll(c), after);
    } else {
      DocumentDies(before, c, after);
    }
    if AllPaired(c) && Small(c) {
      ValueMeans(c);
    }
  }

  /** A lone surrogate is in the RFC's grammar and is rejected. */
  lemma LoneRejected()
    ensures Rfc(CStr([Hex("d800")])) && Write(CStr([Hex("d800")])) == "\"\\ud800\""
    ensures Document("\"\\ud800\"") == None
  {
    var c := CStr([Hex("d800")]);
    assert Code("d800") == 0xD800;
    assert WritePieces([Hex("d800")]) == "\\ud800" by { assert [Hex("d800")][1..] == []; }
    assert "" + Write(c) + "" == "\"\\ud800\"";
    RfcDocumentRead("", c, "");
  }

  /** U+20000, written as its surrogate pair, is not read as U+20000. */
  lemma AstralMisread()
    ensures var c := CStr([Hex("d840"), Hex("dc00")]);
            && Rfc(c) && AllPaired(c) && Denoted(c) == Str(Chars(Encode(0x20000)))
            && Document(Write(c)).Some? && Document(Write(c)).value != Denoted(c)
  {
    var xs := [Hex("d840"), Hex("dc00")];
    var c := CStr(xs);
    assert Code("d840") == 0xD840 && Code("dc00") == 0xDC00;
    assert xs[1..] == [Hex("dc00")] && xs[2..] == [];
    assert "" + Write(c) + "" == Write(c);
    JsonBounds.PairMisread();
    hide Write, Document;
    RfcDocumentRead("", c, "");
  }
}
