/**
 How faults are written, and when what is written can be read again.
 */
module FaultText {
  import opened CText
  import opened Digits
  import opened JsonReference
  import opened JsonGrammar
  import opened Fault

  // ---- the printer

  function Quote(s: string): string {
    ['"'] + s + ['"']
  }

  function KeyText(key: string, text: string): string {
    Quote(key) + [':'] + text
  }

  function Pairs(kvs: seq<(string, string)>): string {
    if kvs == [] then []
    else if |kvs| == 1 then KeyText(kvs[0].0, kvs[0].1)
    else KeyText(kvs[0].0, kvs[0].1) + ", " + Pairs(kvs[1..])
  }

  /** The texts behind "code", or behind "delay_ms" or "mode" and "fraction"; g stands for printf's %g. */
  function Numbers(f: Fault, g: real -> Numeral): seq<(string, string)> {
    match f
    case Unreadable(_, _, code) => [("code", Show(code))]
    case Unwritable(_, _, code) => [("code", Show(code))]
    case ReadDelay(_, _, ms, fraction) =>
      [("delay_ms", Show(Wrap32(ms)) + "d"), ("fraction", WriteNumeral(g(fraction)))]
    case WriteDelay(_, _, ms, fraction) =>
      [("delay_ms", Show(Wrap32(ms)) + "d"), ("fraction", WriteNumeral(g(fraction)))]
    case ReadCorrupt(_, _, mode, _, fraction) => [("mode", Show(Wrap32(mode))), ("fraction", WriteNumeral(g(fraction)))]
    case WriteCorrupt(_, _, mode, _, fraction) =>
      [("mode", Show(Wrap32(mode))), ("fraction", WriteNumeral(g(fraction)))]
  }

  function Paths(f: Fault): seq<(string, string)> {
    [("type", Quote(TypeName(f))), ("prefix", Quote(f.prefix)), ("suffix", Quote(f.suffix))]
  }

  /** kibosh_fault_base_unparse */
  function Unparse(f: Fault, g: real -> Numeral): string {
    ['{'] + Pairs(Paths(f) + Numbers(f, g)) + ['}']
  }

  function Listed(fs: seq<Fault>, g: real -> Numeral): string {
    if fs == [] then []
    else if |fs| == 1 then Unparse(fs[0], g)
    else Unparse(fs[0], g) + ", " + Listed(fs[1..], g)
  }

  /** faults_unparse */
  function FaultsUnparse(fs: seq<Fault>, g: real -> Numeral): string {
    "{\"faults\":[" + Listed(fs, g) + "]}"
  }

  /** The text of a fresh file system. */
  lemma UnparseNothing(g: real -> Numeral)
    ensures FaultsUnparse([], g) == "{\"faults\":[]}"
  {
  }

  // ---- trees of what is written

  /** A string that needs no escapes. */
  predicate Plain(s: string) {
    forall i :: 0 <= i < |s| ==> s[i] != '"' && s[i] != '\\' && s[i] != NUL
  }

  function Raws(s: string): (xs: seq<Piece>)
    ensures |xs| == |s| && forall i :: 0 <= i < |s| ==> xs[i] == Raw(s[i])
  {
    seq(|s|, i requires 0 <= i < |s| => Raw(s[i]))
  }

  lemma {:induction false} RawsWrite(s: string)
    requires Plain(s)
    ensures PiecesOk(Raws(s)) && WritePieces(Raws(s)) == s && PiecesMeaning(Raws(s)) == s && CString(s) == s
    decreases |s|
  {
    CStringWhole(s);
    if s != [] {
      assert Raws(s)[1..] == Raws(s[1..]);
      RawsWrite(s[1..]);
      assert s == [s[0]] + s[1..];
    }
  }

  function Text(s: string): Cst {
    CStr(Raws(s))
  }

  lemma TextWrite(s: string)
    requires Plain(s)
    ensures Ok(Text(s)) && Write(Text(s)) == Quote(s) && Meaning(Text(s)) == Str(s)
  {
    RawsWrite(s);
  }

  /** printf's %d as a numeral. */
  function Whole(n: int): Numeral {
    Numeral(n < 0, DigitsOf(if n < 0 then -n else n), None, None)
  }

  lemma WholeWrite(n: int)
    requires -TWO31 <= n < TWO31
    ensures NumeralOk(Whole(n)) && WriteNumeral(Whole(n)) == Show(n) && NumeralMeaning(Whole(n)) == Int(n)
  {
    var m := if n < 0 then -n else n;
    NoLeadingZero(m);
    DigitsRoundTrip(m);
    hide DigitsOf, Decimal, AllDigits, WriteFrac, WriteExp, Tail, Scale, ExpMeaning;
    PlainNumeral(if n < 0 then ['-'] else [], DigitsOf(m));
    assert Wrap64(m) == m && Wrap64(-m) == -m;
    hide Wrap64;
  }

  lemma PlainNumeral(sign: string, digits: string)
    ensures sign + digits + WriteFrac(None) + WriteExp(None) == sign + digits
    ensures sign == [] ==> sign + digits == digits
  {
    assert WriteFrac(None) == [] && WriteExp(None) == [];
  }

  /** A member with white space only before it. */
  function MemberOf(before: string, key: string, v: Cst): Field {
    Field(before, Raws(key), [], [], v, [])
  }

  /** The members, separated by a comma and a space. */
  function FieldsFor(kvs: seq<(string, Cst)>, first: bool): seq<Field> {
    if kvs == [] then [] else [MemberOf(if first then [] else [' '], kvs[0].0, kvs[0].1)] + FieldsFor(kvs[1..], false)
  }

  predicate PairsOk(kvs: seq<(string, Cst)>) {
    forall i :: 0 <= i < |kvs| ==> Plain(kvs[i].0) && Ok(kvs[i].1)
  }

  function Texts(kvs: seq<(string, Cst)>): seq<(string, string)> {
    seq(|kvs|, i requires 0 <= i < |kvs| => (kvs[i].0, Write(kvs[i].1)))
  }

  function MembersFor(kvs: seq<(string, Cst)>): seq<Member>
    requires PairsOk(kvs)
  {
    if kvs == [] then [] else [Member(kvs[0].0, Meaning(kvs[0].1))] + MembersFor(kvs[1..])
  }

  lemma {:induction false} FieldsWrite(kvs: seq<(string, Cst)>, first: bool)
    requires PairsOk(kvs) && (first || kvs != [])
    ensures FieldsOk(FieldsFor(kvs, first)) && FieldsMeaning(FieldsFor(kvs, first)) == MembersFor(kvs)
    ensures WriteFields(FieldsFor(kvs, first), false, [], !first)
            == (if first then [] else ", ") + Pairs(Texts(kvs)) + ['}']
    decreases |kvs|
  {
    hide Write, Ok, Meaning, WritePieces, PiecesOk, PiecesMeaning, Raws;
    if kvs != [] {
      var k, v := kvs[0].0, kvs[0].1;
      var fs := FieldsFor(kvs, first);
      RawsWrite(k);
      assert fs[1..] == FieldsFor(kvs[1..], false);
      if |kvs| > 1 {
        FieldsWrite(kvs[1..], false);
      }
      FieldsCons(kvs, first);
    }
  }

  lemma FieldsCons(kvs: seq<(string, Cst)>, first: bool)
    requires kvs != [] && WritePieces(Raws(kvs[0].0)) == kvs[0].0
    requires |kvs| > 1 ==>
               WriteFields(FieldsFor(kvs[1..], false), false, [], true) == ", " + Pairs(Texts(kvs[1..])) + ['}']
    ensures WriteFields(FieldsFor(kvs, first), false, [], !first)
            == (if first then [] else ", ") + Pairs(Texts(kvs)) + ['}']
  {
    hide Write, WritePieces, Raws, KeyText, Pairs, Texts;
    var k, w := kvs[0].0, Write(kvs[0].1);
    var fs := FieldsFor(kvs, first);
    assert fs[1..] == FieldsFor(kvs[1..], false);
    var tail := WriteFields(fs[1..], false, [], true);
    var lead, comma, space := if first then [] else ", ", if first then [] else [','], if first then [] else [' '];
    assert comma + space == lead;
    Flat(comma, space, Quote(k), w, tail);
    assert KeyText(k, w) == Quote(k) + [':'] + w by { PairIs(k, w); }
    PairsStep(kvs);
    if |kvs| == 1 {
      assert tail == ['}'];
    } else {
      Regrouped(lead, KeyText(k, w), Pairs(Texts(kvs[1..])));
    }
  }

  lemma PairIs(k: string, w: string)
    ensures KeyText(k, w) == Quote(k) + [':'] + w
  {
  }

  lemma PairsStep(kvs: seq<(string, Cst)>)
    requires kvs != []
    ensures var first := KeyText(kvs[0].0, Write(kvs[0].1));
            Pairs(Texts(kvs)) == if |kvs| == 1 then first else first + ", " + Pairs(Texts(kvs[1..]))
  {
    hide Write, KeyText;
    assert Texts(kvs)[1..] == Texts(kvs[1..]);
  }

  lemma Flat(a: string, b: string, c: string, w: string, tail: string)
    ensures a + b + c + [] + [':'] + [] + w + [] + tail == (a + b) + (c + [':'] + w) + tail
  {
  }

  lemma Regrouped(a: string, b: string, c: string)
    ensures a + b + (", " + c + ['}']) == a + (b + ", " + c) + ['}']
  {
  }

  lemma ObjectWrite(kvs: seq<(string, Cst)>)
    requires PairsOk(kvs)
    ensures var c := CObj(FieldsFor(kvs, true), false, []);
            Ok(c) && Write(c) == ['{'] + Pairs(Texts(kvs)) + ['}'] && Meaning(c) == Obj(MembersFor(kvs))
  {
    hide WriteFields, FieldsOk, FieldsMeaning, Pairs, Texts;
    FieldsWrite(kvs, true);
    assert [] + Pairs(Texts(kvs)) + ['}'] == Pairs(Texts(kvs)) + ['}'];
    assert ['{'] + (Pairs(Texts(kvs)) + ['}']) == ['{'] + Pairs(Texts(kvs)) + ['}'];
  }

  // ---- finding members again

  lemma {:induction false} Found(kvs: seq<(string, Cst)>, i: nat, name: string)
    requires PairsOk(kvs) && i < |kvs| && kvs[i].0 == name && forall j :: 0 <= j < i ==> kvs[j].0 != name
    ensures FirstMember(MembersFor(kvs), name) == Some(Meaning(kvs[i].1))
    decreases i
  {
    hide Meaning, Ok;
    CStringPlain(kvs[0].0);
    assert MembersFor(kvs)[1..] == MembersFor(kvs[1..]);
    if i > 0 {
      Found(kvs[1..], i - 1, name);
    }
  }

  lemma {:induction false} NotFound(kvs: seq<(string, Cst)>, name: string)
    requires PairsOk(kvs) && forall j :: 0 <= j < |kvs| ==> kvs[j].0 != name
    ensures FirstMember(MembersFor(kvs), name) == None
    decreases |kvs|
  {
    hide Meaning, Ok;
    if kvs != [] {
      CStringPlain(kvs[0].0);
      assert MembersFor(kvs)[1..] == MembersFor(kvs[1..]);
      NotFound(kvs[1..], name);
    }
  }

  lemma CStringPlain(s: string)
    requires Plain(s)
    ensures CString(s) == s
  {
    CStringWhole(s);
  }

  // ---- one fault

  /** A fault as faults_parse leaves it, with paths that need no escapes. */
  predicate Printable(f: Fault) {
    Plain(f.prefix) && Plain(f.suffix) && (IsCode(f) ==> -TWO31 <= f.code < TWO31)
  }

  /** %g writes some JSON number. */
  ghost predicate Formats(g: real -> Numeral) {
    forall r :: NumeralOk(g(r))
  }

  function PathTrees(f: Fault): seq<(string, Cst)> {
    [("type", Text(TypeName(f))), ("prefix", Text(f.prefix)), ("suffix", Text(f.suffix))]
  }

  function NumberTrees(f: Fault, g: real -> Numeral): seq<(string, Cst)> {
    match f
    case Unreadable(_, _, code) => [("code", CNum(Whole(code)))]
    case Unwritable(_, _, code) => [("code", CNum(Whole(code)))]
    case ReadCorrupt(_, _, mode, _, fraction) => [("mode", CNum(Whole(Wrap32(mode)))), ("fraction", CNum(g(fraction)))]
    case WriteCorrupt(_, _, mode, _, fraction) => [("mode", CNum(Whole(Wrap32(mode)))), ("fraction", CNum(g(fraction)))]
    case _ => []
  }

  function Tree(f: Fault, g: real -> Numeral): Cst {
    CObj(FieldsFor(PathTrees(f) + NumberTrees(f, g), true), false, [])
  }

  // Names of types and members need no escapes.

  lemma CodeNamesPlain()
    ensures Plain("unreadable") && Plain("unwritable")
  {
  }

  lemma DelayNamesPlain()
    ensures Plain("read_delay") && Plain("write_delay")
  {
  }

  lemma CorruptNamesPlain()
    ensures Plain("read_corrupt") && Plain("write_corrupt")
  {
  }

  lemma TypeNamePlain(f: Fault)
    ensures Plain(TypeName(f))
  {
    CodeNamesPlain();
    DelayNamesPlain();
    CorruptNamesPlain();
    hide Plain;
  }

  lemma PathKeysPlain()
    ensures Plain("type") && Plain("prefix") && Plain("suffix")
  {
  }

  lemma NumberKeysPlain()
    ensures Plain("code") && Plain("mode") && Plain("fraction")
  {
  }

  lemma DelayKeyPlain()
    ensures Plain("delay_ms")
  {
  }

  /** The tree of a plain string. */
  ghost predicate Reads(s: string) {
    Ok(Text(s)) && Meaning(Text(s)) == Str(s)
  }

  lemma PathTreesOk(f: Fault)
    requires Printable(f)
    ensures PairsOk(PathTrees(f)) && Texts(PathTrees(f)) == Paths(f)
    ensures Reads(TypeName(f)) && Reads(f.prefix) && Reads(f.suffix)
  {
    hide Plain, Text, Quote, TypeName, Ok, Write, Meaning;
    TypeNamePlain(f);
    PathKeysPlain();
    TextWrite(TypeName(f));
    TextWrite(f.prefix);
    TextWrite(f.suffix);
  }

  lemma CodeTreesOk(f: Fault, g: real -> Numeral)
    requires Printable(f) && IsCode(f)
    ensures PairsOk(NumberTrees(f, g)) && Texts(NumberTrees(f, g)) == Numbers(f, g)
    ensures NumeralOk(Whole(f.code)) && Meaning(CNum(Whole(f.code))) == Int(f.code)
  {
    hide Plain, Whole, WriteNumeral, NumeralOk, Show, NumeralMeaning;
    NumberKeysPlain();
    WholeWrite(f.code);
  }

  lemma CorruptTreesOk(f: Fault, g: real -> Numeral)
    requires Formats(g) && (f.ReadCorrupt? || f.WriteCorrupt?)
    ensures PairsOk(NumberTrees(f, g)) && Texts(NumberTrees(f, g)) == Numbers(f, g)
  {
    hide Plain, Whole, WriteNumeral, NumeralOk, Show, Wrap32, NumeralMeaning;
    NumberKeysPlain();
    WholeWrite(Wrap32(f.mode));
  }

  lemma NumberTreesOk(f: Fault, g: real -> Numeral)
    requires Printable(f) && Formats(g)
    ensures PairsOk(NumberTrees(f, g))
    ensures !IsDelay(f) ==> Texts(NumberTrees(f, g)) == Numbers(f, g)
    ensures IsCode(f) ==> NumeralOk(Whole(f.code)) && Meaning(CNum(Whole(f.code))) == Int(f.code)
  {
    hide Plain, Whole, NumeralOk, Wrap32, NumeralMeaning, Texts, Numbers, Meaning, Formats;
    if IsCode(f) {
      CodeTreesOk(f, g);
    } else if !IsDelay(f) {
      CorruptTreesOk(f, g);
    }
  }

  /** Every fault but a delay is written as a JSON object; it is that fault again exactly if it is an error code. */
  lemma FaultWrite(f: Fault, g: real -> Numeral)
    requires Printable(f) && Formats(g) && !IsDelay(f)
    ensures Ok(Tree(f, g)) && Write(Tree(f, g)) == Unparse(f, g)
    ensures FaultOf(Meaning(Tree(f, g))) == if IsCode(f) then Some(f) else None
  {
    hide Pairs, Texts, Write, Text, Whole, TypeName, FieldsFor;
    PathTreesOk(f);
    NumberTreesOk(f, g);
    var kvs := PathTrees(f) + NumberTrees(f, g);
    assert PairsOk(kvs);
    assert Texts(kvs) == Paths(f) + Numbers(f, g) by { TextsAppend(PathTrees(f), NumberTrees(f, g)); }
    ObjectWrite(kvs);
    MembersBack(f, g, kvs);
  }

  lemma TextsAppend(a: seq<(string, Cst)>, b: seq<(string, Cst)>)
    ensures Texts(a + b) == Texts(a) + Texts(b)
  {
  }

  lemma MembersBack(f: Fault, g: real -> Numeral, kvs: seq<(string, Cst)>)
    requires Printable(f) && Formats(g) && !IsDelay(f) && kvs == PathTrees(f) + NumberTrees(f, g) && PairsOk(kvs)
    ensures FaultOf(Obj(MembersFor(kvs))) == if IsCode(f) then Some(f) else None
  {
    hide Pairs, Texts, Write, Text, Whole, FirstMember, MembersFor, Meaning, Ok, Plain, FaultOf, TypeName;
    PathTreesOk(f);
    NumberTreesOk(f, g);
    Found(kvs, 0, "type");
    Found(kvs, 1, "prefix");
    Found(kvs, 2, "suffix");
    TypeNamePlain(f);
    CStringPlain(TypeName(f));
    CStringPlain(f.prefix);
    CStringPlain(f.suffix);
    if IsCode(f) {
      Found(kvs, 3, "code");
      CodeBack(Obj(MembersFor(kvs)), f);
    } else {
      NotFound(kvs, "count");
      CorruptBack(Obj(MembersFor(kvs)), f);
    }
  }

  lemma CodeBack(v: Json, f: Fault)
    requires IsCode(f) && -TWO31 <= f.code < TWO31
    requires CString(TypeName(f)) == TypeName(f) && CString(f.prefix) == f.prefix && CString(f.suffix) == f.suffix
    requires Child(v, "type") == Some(Str(TypeName(f))) && Child(v, "code") == Some(Int(f.code))
    requires Child(v, "prefix") == Some(Str(f.prefix)) && Child(v, "suffix") == Some(Str(f.suffix))
    ensures FaultOf(v) == Some(f)
  {
    hide Child, CString;
  }

  lemma CorruptBack(v: Json, f: Fault)
    requires !IsCode(f) && !IsDelay(f) && CString(TypeName(f)) == TypeName(f)
    requires Child(v, "type") == Some(Str(TypeName(f))) && Child(v, "count") == None
    ensures FaultOf(v) == None
  {
    hide Child, CString;
  }
}
