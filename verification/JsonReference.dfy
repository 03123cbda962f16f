/**
 JSON trees and a recursive-descent reading of the text language that json.c accepts.

 Nothing here knows about passes, flags, nodes or buffers: each function maps a position
 to a value and the position after it, or to None where the text is rejected.
 */
module JsonReference {
  import opened CText
  import opened JsonEscape

  datatype Json =
    | Null
    | Bool(b: bool)
    | Int(i: int)
    | Dbl(r: real)
    | Str(s: string)
    | Arr(elems: seq<Json>)
    | Obj(members: seq<Member>)

  datatype Member = Member(name: string, value: Json)

  datatype Parsed<+T> = Parsed(v: T, next: nat)

  function SkipSpace(t: string, p: nat): (q: nat)
    requires p <= |t|
    ensures p <= q <= |t|
    ensures forall i :: p <= i < q ==> IsSpace(t[i])
    decreases |t| - p
  {
    if p < |t| && IsSpace(t[p]) then SkipSpace(t, p + 1) else p
  }

  /** One byte or one escape of a string, neither its quote nor its end. */
  function StringItem(t: string, p: nat): (r: Option<Esc>)
    requires p < |t|
    ensures r.Some? ==> p < r.value.next <= |t|
  {
    if t[p] != '\\' then Some(Esc([t[p]], 1, p + 1))
    else if At(t, p + 1) == NUL then None
    else Escape(t, p + 1)
  }

  /** The body of a string up to and including its closing quote. */
  function StringBody(t: string, p: nat): (r: Option<Parsed<string>>)
    requires p <= |t|
    ensures r.Some? ==> p < r.value.next <= |t| && t[r.value.next - 1] == '"'
    decreases |t| - p
  {
    var b := At(t, p);
    if b == NUL then None
    else if b == '"' then Some(Parsed([], p + 1))
    else
      var head := StringItem(t, p);
      if head.None? then None
      else
        var tail := StringBody(t, head.value.next);
        if tail.None? then None else Some(Parsed(head.value.out + tail.value.v, tail.value.next))
  }

  function DigitsEnd(t: string, p: nat): (q: nat)
    requires p <= |t|
    ensures p <= q <= |t|
    ensures !IsDigit(At(t, q))
    ensures forall i :: p <= i < q ==> IsDigit(t[i])
    decreases |t| - p
  {
    if p < |t| && IsDigit(t[p]) then DigitsEnd(t, p + 1) else p
  }

  /** A fraction and an exponent, each possibly absent; None where one is begun but has no digit. */
  function Fraction(t: string, p: nat): (r: Option<Parsed<Option<real>>>)
    requires p <= |t|
    ensures r.Some? ==> p <= r.value.next <= |t|
  {
    if At(t, p) != '.' then Some(Parsed(None, p))
    else
      var q := DigitsEnd(t, p + 1);
      if q == p + 1 then None
      else Some(Parsed(Some(Tail(Wrap64(Decimal(t[p + 1..q])), q - (p + 1))), q))
  }

  function Exponent(t: string, p: nat): (r: Option<Parsed<Option<int>>>)
    requires p <= |t|
    ensures r.Some? ==> p <= r.value.next <= |t|
  {
    if At(t, p) != 'e' && At(t, p) != 'E' then Some(Parsed(None, p))
    else
      var signed := At(t, p + 1) == '+' || At(t, p + 1) == '-';
      var d := if signed then p + 2 else p + 1;
      var q := DigitsEnd(t, d);
      if q == d then None
      else
        var e := Wrap64(Decimal(t[d..q]));
        Some(Parsed(Some(if At(t, p + 1) == '-' then Wrap64(-e) else e), q))
  }

  /** An integer unless it has a fraction or an exponent. */
  function Assemble(negative: bool, i: int, f: Option<real>, e: Option<int>): (v: Json)
    ensures v.Int? || v.Dbl?
  {
    if f.None? && e.None? then Int(if negative then Wrap64(-i) else i)
    else
      var m := i as real + (if f.Some? then f.value else 0.0);
      var x := if e.Some? then Scale(m, e.value) else m;
      Dbl(if negative then -x else x)
  }

  /** A number: sign, digits without a superfluous leading zero, fraction, exponent. */
  function Number(t: string, p: nat): (r: Option<Parsed<Json>>)
    requires p < |t| && (t[p] == '-' || IsDigit(t[p]))
    ensures r.Some? ==> p < r.value.next <= |t|
  {
    var negative := t[p] == '-';
    var d := if negative then p + 1 else p;
    var q := DigitsEnd(t, d);
    var i := Wrap64(Decimal(t[d..q]));
    if q - d > 1 && t[d] == '0' then None
    else if q == d && At(t, q) == '.' then None
    else
      var f := Fraction(t, q);
      if f.None? then None
      else
        var e := Exponent(t, f.value.next);
        if e.None? then None
        else Some(Parsed(Assemble(negative, i, f.value.v, e.value.v), e.value.next))
  }

  predicate Keyword(t: string, p: nat, word: string)
    requires p <= |t|
  {
    word <= t[p..]
  }

  lemma NoKeyword(t: string, p: nat)
    requires p < |t| && (t[p] == '-' || IsDigit(t[p]))
    ensures !Keyword(t, p, "true") && !Keyword(t, p, "false") && !Keyword(t, p, "null")
  {
    assert t[p..][0] == t[p];
  }

  function Value(t: string, p: nat): (r: Option<Parsed<Json>>)
    requires p <= |t|
    ensures r.Some? ==> p < r.value.next <= |t|
    decreases |t| - p, 2
  {
    if p == |t| then None
    else
      var b := t[p];
      if IsSpace(b) then Value(t, p + 1)
      else if b == '{' then
        var ms := Members(t, p + 1, false);
        if ms.None? then None else Some(Parsed(Obj(ms.value.v), ms.value.next))
      else if b == '[' then
        var vs := Elements(t, p + 1, false);
        if vs.None? then None else Some(Parsed(Arr(vs.value.v), vs.value.next))
      else if b == '"' then
        var s := StringBody(t, p + 1);
        if s.None? then None else Some(Parsed(Str(s.value.v), s.value.next))
      else if Keyword(t, p, "true") then Some(Parsed(Bool(true), p + 4))
      else if Keyword(t, p, "false") then Some(Parsed(Bool(false), p + 5))
      else if Keyword(t, p, "null") then Some(Parsed(Null, p + 4))
      else if b == '-' || IsDigit(b) then Number(t, p)
      else None
  }

  /** Array elements up to and including `]`; a comma may stand before it. */
  function Elements(t: string, p: nat, needComma: bool): (r: Option<Parsed<seq<Json>>>)
    requires p <= |t|
    ensures r.Some? ==> p < r.value.next <= |t|
    decreases |t| - p, 3
  {
    if p == |t| then None
    else
      var b := t[p];
      if IsSpace(b) then Elements(t, p + 1, needComma)
      else if b == ']' then Some(Parsed([], p + 1))
      else if needComma then
        if b == ',' then Elements(t, p + 1, false) else None
      else
        var v := Value(t, p);
        if v.None? then None
        else
          var vs := Elements(t, v.value.next, true);
          if vs.None? then None else Some(Parsed([v.value.v] + vs.value.v, vs.value.next))
  }

  function Colon(t: string, p: nat): (r: Option<nat>)
    requires p <= |t|
    ensures r.Some? ==> p < r.value <= |t|
  {
    var q := SkipSpace(t, p);
    if At(t, q) == ':' then Some(q + 1) else None
  }

  /** Object members up to and including `}`; a comma may stand before it. */
  function Members(t: string, p: nat, needComma: bool): (r: Option<Parsed<seq<Member>>>)
    requires p <= |t|
    ensures r.Some? ==> p < r.value.next <= |t|
    decreases |t| - p, 3
  {
    if p == |t| then None
    else
      var b := t[p];
      if IsSpace(b) then Members(t, p + 1, needComma)
      else if b == '}' then Some(Parsed([], p + 1))
      else if b == ',' && needComma then Members(t, p + 1, false)
      else if b != '"' || needComma then None
      else
        var name := StringBody(t, p + 1);
        if name.None? then None
        else
          var c := Colon(t, name.value.next);
          if c.None? then None
          else
            var v := Value(t, c.value);
            if v.None? then None
            else
              var ms := Members(t, v.value.next, true);
              if ms.None? then None
              else Some(Parsed([Member(name.value.v, v.value.v)] + ms.value.v, ms.value.next))
  }

  /** A whole text: one value, then white space up to the terminator. */
  function Document(t: string): Option<Json> {
    var v := Value(t, 0);
    if v.None? || At(t, SkipSpace(t, v.value.next)) != NUL then None else Some(v.value.v)
  }

  /** Skip UTF-8 BOM */
  function SkipBom(json: string): string {
    if |json| >= 3 && json[0] == '\U{00EF}' && json[1] == '\U{00BB}' && json[2] == '\U{00BF}' then json[3..] else json
  }

  /** What json_parse_ex makes of a text. */
  function ParseText(json: string): Option<Json> {
    Document(SkipBom(json))
  }
}
