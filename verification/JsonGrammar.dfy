/**
 The text language of json.c as a grammar: concrete syntax trees, how they are written and
 what the parser takes them to mean.

 `Ok` admits what the parser admits beyond RFC 8259: a comma before a closing bracket,
 control bytes and unknown escapes in strings, any \u escape behind a surrogate, and
 numbers whose digits are missing after a minus sign.
 */
module JsonGrammar {
  import opened CText
  import opened JsonEscape
  import opened JsonReference

  // ---- strings

  datatype Piece =
    | Raw(c: char)
    | Escaped(letter: char)
    | Hex(d: string)
    | Pair(hi: string, lo: string)

  predicate IsHex4(d: string) {
    |d| == 4 && forall i :: 0 <= i < 4 ==> HexValue(d[i]) != BAD_HEX
  }

  function Code(d: string): bv32
    requires |d| == 4
  {
    Pack(HexValue(d[0]), HexValue(d[1]), HexValue(d[2]), HexValue(d[3]))
  }

  predicate PieceOk(x: Piece) {
    match x
    case Raw(c) => c != '"' && c != '\\' && c != NUL
    case Escaped(l) => l != 'u' && l != NUL
    case Hex(d) => IsHex4(d) && !IsSurrogate(Code(d))
    case Pair(hi, lo) => IsHex4(hi) && IsHex4(lo) && IsSurrogate(Code(hi))
  }

  function WritePiece(x: Piece): string {
    match x
    case Raw(c) => [c]
    case Escaped(l) => ['\\', l]
    case Hex(d) => ['\\', 'u'] + d
    case Pair(hi, lo) => ['\\', 'u'] + hi + (['\\', 'u'] + lo)
  }

  /** What the parser makes of a piece; it joins a surrogate with whatever \u escape follows. */
  function PieceMeaning(x: Piece): string
    requires PieceOk(x)
  {
    match x
    case Raw(c) => [c]
    case Escaped(l) =>
      (match l
       case 'b' => ['\U{0008}']
       case 'f' => ['\U{000C}']
       case 'n' => ['\n']
       case 'r' => ['\r']
       case 't' => ['\t']
       case c => [c])
    case Hex(d) => Chars(Encode(Code(d)))
    case Pair(hi, lo) => Chars(Encode(Combine(Code(hi), Code(lo))))
  }

  predicate PiecesOk(xs: seq<Piece>) {
    forall i :: 0 <= i < |xs| ==> PieceOk(xs[i])
  }

  function WritePieces(xs: seq<Piece>): string {
    if xs == [] then [] else WritePiece(xs[0]) + WritePieces(xs[1..])
  }

  function PiecesMeaning(xs: seq<Piece>): string
    requires PiecesOk(xs)
  {
    if xs == [] then [] else PieceMeaning(xs[0]) + PiecesMeaning(xs[1..])
  }

  // ---- numbers

  datatype Sign = Unsigned | Plus | Minus
  datatype Exp = Exp(e: char, sign: Sign, digits: string)
  datatype Numeral = Numeral(negative: bool, whole: string, frac: Option<string>, exp: Option<Exp>)

  predicate NumeralOk(n: Numeral) {
    && AllDigits(n.whole) && (|n.whole| > 1 ==> n.whole[0] != '0')
    && (n.whole == [] ==> n.negative && n.frac.None?)
    && (n.frac.Some? ==> AllDigits(n.frac.value) && n.frac.value != [])
    && (n.exp.Some? ==>
          n.exp.value.e in "eE" && AllDigits(n.exp.value.digits) && n.exp.value.digits != [])
  }

  function WriteFrac(f: Option<string>): string {
    if f.None? then [] else ['.'] + f.value
  }

  function WriteSign(s: Sign): string {
    match s
    case Unsigned => []
    case Plus => ['+']
    case Minus => ['-']
  }

  function WriteExp(x: Option<Exp>): string {
    if x.None? then [] else [x.value.e] + WriteSign(x.value.sign) + x.value.digits
  }

  function WriteNumeral(n: Numeral): string {
    (if n.negative then ['-'] else []) + n.whole + WriteFrac(n.frac) + WriteExp(n.exp)
  }

  /** What 64-bit accumulators make of the digits. */
  function NumeralMeaning(n: Numeral): Json
    requires NumeralOk(n)
  {
    var i := Wrap64(Decimal(n.whole));
    if n.frac.None? && n.exp.None? then Int(if n.negative then Wrap64(-i) else i)
    else
      var m := i as real + (if n.frac.Some? then Tail(Wrap64(Decimal(n.frac.value)), |n.frac.value|) else 0.0);
      var x := if n.exp.None? then m else Scale(m, ExpMeaning(n.exp.value));
      Dbl(if n.negative then -x else x)
  }

  function ExpMeaning(x: Exp): int {
    var e := Wrap64(Decimal(x.digits));
    if x.sign.Minus? then Wrap64(-e) else e
  }

  /** Few enough digits for the accumulators. */
  predicate NumeralSmall(n: Numeral) {
    |n.whole| <= 18 && (n.frac.Some? ==> |n.frac.value| <= 18) && (n.exp.Some? ==> |n.exp.value.digits| <= 18)
  }

  // ---- values

  datatype Cst =
    | CNull
    | CBool(b: bool)
    | CNum(n: Numeral)
    | CStr(xs: seq<Piece>)
    | CArr(elems: seq<Elem>, trailing: bool, ws: string)
    | CObj(fields: seq<Field>, trailing: bool, ws: string)

  datatype Elem = Elem(before: string, v: Cst, after: string)
  datatype Field = Field(before: string, name: seq<Piece>, beforeColon: string, afterColon: string, v: Cst,
    after: string)

  predicate AllSpace(s: string) {
    forall i :: 0 <= i < |s| ==> IsSpace(s[i])
  }

  lemma NoSpace()
    ensures AllSpace([]) && AllSpace([' '])
  {
  }

  predicate Ok(c: Cst) {
    match c
    case CNull => true
    case CBool(_) => true
    case CNum(n) => NumeralOk(n)
    case CStr(xs) => PiecesOk(xs)
    case CArr(es, _, ws) => AllSpace(ws) && ElemsOk(es)
    case CObj(fs, _, ws) => AllSpace(ws) && FieldsOk(fs)
  }

  predicate ElemsOk(es: seq<Elem>) {
    es == [] || (AllSpace(es[0].before) && AllSpace(es[0].after) && Ok(es[0].v) && ElemsOk(es[1..]))
  }

  predicate FieldsOk(fs: seq<Field>) {
    fs == [] ||
    (&& AllSpace(fs[0].before) && PiecesOk(fs[0].name) && AllSpace(fs[0].beforeColon) && AllSpace(fs[0].afterColon)
     && Ok(fs[0].v) && AllSpace(fs[0].after) && FieldsOk(fs[1..]))
  }

  function Write(c: Cst): string
    decreases c, 1
  {
    match c
    case CNull => "null"
    case CBool(b) => if b then "true" else "false"
    case CNum(n) => WriteNumeral(n)
    case CStr(xs) => ['"'] + WritePieces(xs) + ['"']
    case CArr(es, trailing, ws) => ['['] + WriteElems(es, trailing, ws, false)
    case CObj(fs, trailing, ws) => ['{'] + WriteFields(fs, trailing, ws, false)
  }

  /** The elements from here on; `comma` if one has been written before. */
  function WriteElems(es: seq<Elem>, trailing: bool, ws: string, comma: bool): string
    decreases es, 0
  {
    if es == [] then (if comma && trailing then [','] else []) + ws + [']']
    else
      (if comma then [','] else []) + es[0].before + Write(es[0].v) + es[0].after +
      WriteElems(es[1..], trailing, ws, true)
  }

  function WriteFields(fs: seq<Field>, trailing: bool, ws: string, comma: bool): string
    decreases fs, 0
  {
    if fs == [] then (if comma && trailing then [','] else []) + ws + ['}']
    else
      (if comma then [','] else []) + fs[0].before + (['"'] + WritePieces(fs[0].name) + ['"']) +
      fs[0].beforeColon + [':'] + fs[0].afterColon + Write(fs[0].v) + fs[0].after +
      WriteFields(fs[1..], trailing, ws, true)
  }

  function Meaning(c: Cst): Json
    requires Ok(c)
  {
    match c
    case CNull => Null
    case CBool(b) => Bool(b)
    case CNum(n) => NumeralMeaning(n)
    case CStr(xs) => Str(PiecesMeaning(xs))
    case CArr(es, _, _) => Arr(ElemsMeaning(es))
    case CObj(fs, _, _) => Obj(FieldsMeaning(fs))
  }

  function ElemsMeaning(es: seq<Elem>): seq<Json>
    requires ElemsOk(es)
  {
    if es == [] then [] else [Meaning(es[0].v)] + ElemsMeaning(es[1..])
  }

  function FieldsMeaning(fs: seq<Field>): seq<Member>
    requires FieldsOk(fs)
  {
    if fs == [] then []
    else [Member(PiecesMeaning(fs[0].name), Meaning(fs[0].v))] + FieldsMeaning(fs[1..])
  }
}
