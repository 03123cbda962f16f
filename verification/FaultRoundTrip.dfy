/**
 faults_parse after faults_unparse.
 */
module FaultRoundTrip {
  import opened CText
  import opened Digits
  import opened JsonReference
  import opened JsonGrammar
  import opened JsonGrammarReads
  import opened Fault
  import opened FaultParser
  import opened FaultText

  predicate AllPrintable(fs: seq<Fault>) {
    forall i :: 0 <= i < |fs| ==> Printable(fs[i])
  }

  predicate AllCodes(fs: seq<Fault>) {
    forall i :: 0 <= i < |fs| ==> IsCode(fs[i])
  }

  predicate NoDelay(fs: seq<Fault>) {
    forall i :: 0 <= i < |fs| ==> !IsDelay(fs[i])
  }

  // ---- lists without a delay are JSON

  function ElemsFor(fs: seq<Fault>, g: real -> Numeral, first: bool): seq<Elem> {
    if fs == [] then [] else [Elem(if first then [] else [' '], Tree(fs[0], g), [])] + ElemsFor(fs[1..], g, false)
  }

  lemma {:induction false} ElemsWrite(fs: seq<Fault>, g: real -> Numeral, first: bool)
    requires AllPrintable(fs) && NoDelay(fs) && Formats(g) && (first || fs != [])
    ensures ElemsOk(ElemsFor(fs, g, first))
    ensures WriteElems(ElemsFor(fs, g, first), false, [], !first)
            == (if first then [] else ", ") + Listed(fs, g) + [']']
    ensures FaultsOf(ElemsMeaning(ElemsFor(fs, g, first))) == if AllCodes(fs) then Some(fs) else None
    decreases |fs|
  {
    hide Tree, Write, Ok, Meaning, Unparse, FaultOf, Printable, Formats;
    if fs == [] {
      assert WriteElems([], false, [], false) == [']'];
    } else {
      var es := ElemsFor(fs, g, first);
      assert es[1..] == ElemsFor(fs[1..], g, false);
      FaultWrite(fs[0], g);
      if |fs| > 1 {
        ElemsWrite(fs[1..], g, false);
      } else {
        assert fs[1..] == [];
      }
      ElemsCons(fs, g, first);
      ElemsBack(fs, g, first);
    }
  }

  lemma ElemsCons(fs: seq<Fault>, g: real -> Numeral, first: bool)
    requires fs != [] && Write(Tree(fs[0], g)) == Unparse(fs[0], g)
    requires |fs| > 1 ==> WriteElems(ElemsFor(fs[1..], g, false), false, [], true) == ", " + Listed(fs[1..], g) + [']']
    ensures WriteElems(ElemsFor(fs, g, first), false, [], !first)
            == (if first then [] else ", ") + Listed(fs, g) + [']']
  {
    hide Tree, Write, Unparse;
    var es := ElemsFor(fs, g, first);
    assert es[1..] == ElemsFor(fs[1..], g, false);
    var comma, space, lead := if first then [] else [','], if first then [] else [' '], if first then [] else ", ";
    assert comma + space == lead;
    var w, tail := Unparse(fs[0], g), WriteElems(es[1..], false, [], true);
    FlatElem(comma, space, w, tail);
    if |fs| == 1 {
      assert tail == [']'];
    } else {
      RegroupedElem(lead, w, Listed(fs[1..], g));
    }
  }

  lemma FlatElem(a: string, b: string, w: string, tail: string)
    ensures a + b + w + [] + tail == (a + b) + w + tail
  {
  }

  lemma RegroupedElem(a: string, b: string, c: string)
    ensures a + b + (", " + c + [']']) == a + (b + ", " + c) + [']']
  {
  }

  lemma ElemsBack(fs: seq<Fault>, g: real -> Numeral, first: bool)
    requires fs != [] && ElemsOk(ElemsFor(fs, g, first)) && ElemsOk(ElemsFor(fs[1..], g, false)) && Ok(Tree(fs[0], g))
    requires FaultOf(Meaning(Tree(fs[0], g))) == if IsCode(fs[0]) then Some(fs[0]) else None
    requires FaultsOf(ElemsMeaning(ElemsFor(fs[1..], g, false))) == if AllCodes(fs[1..]) then Some(fs[1..]) else None
    ensures FaultsOf(ElemsMeaning(ElemsFor(fs, g, first))) == if AllCodes(fs) then Some(fs) else None
  {
    hide Tree, Meaning, FaultOf, Ok, ElemsOk;
    var es := ElemsFor(fs, g, first);
    assert es[1..] == ElemsFor(fs[1..], g, false);
    var vs := ElemsMeaning(es);
    assert vs[1..] == ElemsMeaning(es[1..]);
    assert AllCodes(fs) <==> IsCode(fs[0]) && AllCodes(fs[1..]) by {
      assert fs == [fs[0]] + fs[1..];
      if IsCode(fs[0]) && AllCodes(fs[1..]) {
        forall i | 0 <= i < |fs| ensures IsCode(fs[i]) { if i > 0 { assert fs[i] == fs[1..][i - 1]; } }
      }
    }
    assert [fs[0]] + fs[1..] == fs;
  }

  function Root(fs: seq<Fault>, g: real -> Numeral): Cst {
    CObj(FieldsFor([("faults", CArr(ElemsFor(fs, g, true), false, []))], true), false, [])
  }

  lemma RootWrite(fs: seq<Fault>, g: real -> Numeral)
    requires AllPrintable(fs) && NoDelay(fs) && Formats(g)
    ensures Ok(Root(fs, g)) && Write(Root(fs, g)) == FaultsUnparse(fs, g)
    ensures FaultsOfTree(Meaning(Root(fs, g))) == if AllCodes(fs) then Some(fs) else None
  {
    hide Listed, ElemsFor, WriteElems, ElemsMeaning, ElemsOk, FieldsFor, Pairs, Texts, FaultsOf, FirstMember,
         MembersFor;
    ElemsWrite(fs, g, true);
    var list := CArr(ElemsFor(fs, g, true), false, []);
    var kvs := [("faults", list)];
    FaultsPlain();
    ObjectWrite(kvs);
    assert [] + Listed(fs, g) + [']'] == Listed(fs, g) + [']'];
    OnePair(list);
    FaultsText(Listed(fs, g));
    Found(kvs, 0, "faults");
  }

  lemma FaultsPlain()
    ensures Plain("faults")
  {
  }

  lemma OnePair(c: Cst)
    ensures Pairs(Texts([("faults", c)])) == KeyText("faults", Write(c))
  {
    hide KeyText, Write;
    assert Texts([("faults", c)]) == [("faults", Write(c))];
  }

  lemma FaultsText(list: string)
    ensures ['{'] + KeyText("faults", ['['] + (list + [']'])) + ['}'] == "{\"faults\":[" + list + "]}"
  {
    var head := ['{'] + Quote("faults") + [':'] + ['['];
    assert head == "{\"faults\":[";
    hide Quote;
    assert ['{'] + (Quote("faults") + [':'] + (['['] + (list + [']']))) + ['}'] == head + list + ([']'] + ['}']);
    assert [']'] + ['}'] == "]}";
  }

  // ---- a delay is no JSON: the format writes a `d` behind its number

  lemma MemberText(before: string, k: string, v: Cst, tail: string)
    requires Plain(k)
    ensures WriteField(MemberOf(before, k, v), tail) == before + (KeyText(k, Write(v)) + tail)
  {
    hide Write, WritePieces, Raws;
    RawsWrite(k);
    Nested(before, Quote(k), Write(v), tail);
  }

  lemma Nested(a: string, b: string, w: string, tail: string)
    ensures a + (b + ([] + [':'] + ([] + (w + ([] + tail))))) == a + ((b + [':'] + w) + tail)
  {
  }

  /** The members of a delay up to and including the stray letter. */
  function UpToStray(f: Fault): string
    requires IsDelay(f)
  {
    [' '] + (Quote("delay_ms") + ([':'] + (Show(Wrap32(f.delayMs)) + ['d'])))
  }

  lemma DelayText(f: Fault, g: real -> Numeral) returns (more: string)
    requires Printable(f) && IsDelay(f)
    ensures Unparse(f, g) ==
            ['{'] + WriteField(MemberOf([], "type", Text(TypeName(f))),
              [','] + WriteField(MemberOf([' '], "prefix", Text(f.prefix)),
                [','] + WriteField(MemberOf([' '], "suffix", Text(f.suffix)), [','] + (UpToStray(f) + more))))
  {
    hide Show, TypeName, Wrap32, Text, Write, WriteNumeral, MemberOf, WriteField, Plain;
    TypeNamePlain(f);
    PathKeysPlain();
    TextWrite(TypeName(f));
    TextWrite(f.prefix);
    TextWrite(f.suffix);
    var a, b, c := KeyText("type", Quote(TypeName(f))), KeyText("prefix", Quote(f.prefix)),
        KeyText("suffix", Quote(f.suffix));
    var d, e := KeyText("delay_ms", Show(Wrap32(f.delayMs)) + "d"), KeyText("fraction", WriteNumeral(g(f.fraction)));
    FivePairs(Paths(f) + Numbers(f, g));
    more := ", " + e + ['}'];
    DelayPair(Show(Wrap32(f.delayMs)));
    var stray := UpToStray(f) + more;
    var f3 := [' '] + (c + ([','] + stray));
    var f2 := [' '] + (b + ([','] + f3));
    MemberText([' '], "suffix", Text(f.suffix), [','] + stray);
    MemberText([' '], "prefix", Text(f.prefix), [','] + f3);
    MemberText([], "type", Text(TypeName(f)), [','] + f2);
    Nest(a, b, c, d, e, UpToStray(f));
  }

  lemma FivePairs(kvs: seq<(string, string)>)
    requires |kvs| == 5
    ensures Pairs(kvs) == KeyText(kvs[0].0, kvs[0].1) + ", " + (KeyText(kvs[1].0, kvs[1].1) + ", " +
                          (KeyText(kvs[2].0, kvs[2].1) + ", "
                            + (KeyText(kvs[3].0, kvs[3].1) + ", " + KeyText(kvs[4].0, kvs[4].1))))
  {
    hide KeyText;
    assert kvs[1..][0] == kvs[1] && kvs[1..][1..] == kvs[2..] && kvs[2..][1..] == kvs[3..] && kvs[3..][1..] == kvs[4..];
    assert Pairs(kvs[4..]) == KeyText(kvs[4].0, kvs[4].1);
    assert Pairs(kvs[3..]) == KeyText(kvs[3].0, kvs[3].1) + ", " + Pairs(kvs[4..]);
    assert Pairs(kvs[2..]) == KeyText(kvs[2].0, kvs[2].1) + ", " + Pairs(kvs[3..]);
    assert Pairs(kvs[1..]) == KeyText(kvs[1].0, kvs[1].1) + ", " + Pairs(kvs[2..]);
  }

  lemma DelayPair(n: string)
    ensures [' '] + KeyText("delay_ms", n + "d") == [' '] + (Quote("delay_ms") + ([':'] + (n + ['d'])))
  {
    hide Quote;
  }

  lemma Nest(a: string, b: string, c: string, d: string, e: string, stray: string)
    requires [' '] + d == stray
    ensures var more := ", " + e + ['}'];
            ['{'] + (a + ", " + (b + ", " + (c + ", " + (d + ", " + e)))) + ['}'] ==
            ['{'] + ([] + (a + ([','] + ([' '] + (b + ([','] + ([' '] + (c + ([','] + (stray + more))))))))))
  {
    assert ", " == [','] + [' '];
    var more := ", " + e + ['}'];
    assert d + ", " + e + ['}'] == d + more;
    assert c + ", " + (d + ", " + e) + ['}'] == c + ([','] + ([' '] + d + more));
    var x := c + ([','] + (stray + more));
    assert b + ", " + (c + ", " + (d + ", " + e)) + ['}'] == b + ([','] + ([' '] + x));
    var y := b + ([','] + ([' '] + x));
    assert a + ", " + (b + ", " + (c + ", " + (d + ", " + e))) + ['}'] == a + ([','] + ([' '] + y));
  }

  /** Reading stops at the stray letter. */
  lemma {:induction false} StrayDies(t: string, p: nat, f: Fault)
    requires IsDelay(f) && Starts(t, p, UpToStray(f))
    ensures Members(t, p, false) == None
  {
    hide Starts, Members, Elements, Show, Quote, Wrap32;
    var number := Show(Wrap32(f.delayMs)) + ['d'];
    StartsSplit(t, p, [' '], Quote("delay_ms") + ([':'] + number));
    SpacesRead(t, p, [' '], false);
    DelayNumberDies(t, p + 1, Wrap32(f.delayMs));
  }

  lemma DelayNumberDies(t: string, p: nat, n: int)
    requires -TWO31 <= n < TWO31 && Starts(t, p, Quote("delay_ms") + ([':'] + (Show(n) + ['d'])))
    ensures p <= |t| && Members(t, p, false) == None
  {
    hide Starts, Members, Value, StringBody, Colon, Show, Quote;
    var c := DelayName(t, p, Show(n) + ['d']);
    StartsSplit(t, c + 1, Show(n), ['d']);
    StrayNumber(t, c, n);
    MemberFirst(t, p, Parsed("delay_ms", c), c + 1, Parsed(Int(n), c + 1 + |Show(n)|));
    LetterDies(t, c + 1 + |Show(n)|);
  }

  /** The name of the member and its colon. */
  lemma DelayName(t: string, p: nat, rest: string) returns (c: nat)
    requires Starts(t, p, Quote("delay_ms") + ([':'] + rest))
    ensures p < |t| && t[p] == '"' && StringBody(t, p + 1) == Some(Parsed("delay_ms", c))
    ensures Starts(t, c, [':']) && Starts(t, c + 1, rest) && c < |t|
  {
    hide Starts, StringBody, Quote;
    StartsSplit(t, p, Quote("delay_ms"), [':'] + rest);
    DelayKeyPlain();
    NameRead(t, p, "delay_ms");
    c := p + |Quote("delay_ms")|;
    QuoteSize("delay_ms");
    StartsSplit(t, c, [':'], rest);
    StartsBound(t, c, [':']);
  }

  lemma QuoteSize(s: string)
    ensures |Quote(s)| == |s| + 2
  {
  }

  /** The number before the stray letter. */
  lemma StrayNumber(t: string, c: nat, n: int)
    requires -TWO31 <= n < TWO31
    requires Starts(t, c, [':']) && Starts(t, c + 1, Show(n)) && Starts(t, c + 1 + |Show(n)|, ['d'])
    ensures Colon(t, c) == Some(c + 1)
    ensures Value(t, c + 1) == Some(Parsed(Int(n), c + 1 + |Show(n)|))
    ensures t[c + 1 + |Show(n)|] == 'd'
  {
    hide Starts, Value, Colon, Show, WriteNumeral, Whole, NumeralMeaning, NumeralOk, Number, Keyword;
    assert [] + [':'] == [':'];
    ColonRead(t, c, []);
    StartsAt(t, c + 1 + |Show(n)|, ['d'], 0);
    WholeWrite(n);
    NumeralRead(t, c + 1, Whole(n));
    NoKeyword(t, c + 1);
    NumberValue(t, c + 1);
  }

  lemma NameRead(t: string, p: nat, k: string)
    requires Plain(k) && Starts(t, p, Quote(k))
    ensures p < |t| && t[p] == '"' && StringBody(t, p + 1) == Some(Parsed(k, p + |k| + 2))
  {
    hide Starts, StringBody, WritePieces, Raws, PiecesOk, PiecesMeaning;
    RawsWrite(k);
    assert Quote(k) == ['"'] + (k + ['"']);
    StartsWith(t, p, '"', k + ['"']);
    PiecesRead(t, p + 1, Raws(k));
  }

  lemma LetterDies(t: string, p: nat)
    requires p < |t| && t[p] == 'd'
    ensures Members(t, p, true) == None
  {
    hide Value;
  }

  /** A member without white space behind its name. */
  ghost predicate Tight(f: Field) {
    AllSpace(f.before) && f.beforeColon == [] && f.afterColon == [] && f.after == [] && PiecesOk(f.name) && Ok(f.v)
  }

  lemma MemberTight(lead: string, k: string, s: string)
    requires AllSpace(lead) && Plain(k) && Plain(s)
    ensures Tight(MemberOf(lead, k, Text(s)))
  {
    hide PiecesOk, Ok, Plain, Text, Raws;
    RawsWrite(k);
    TextWrite(s);
  }

  /** A good member before a rejected rest. */
  lemma {:induction false} GoodThenDies(t: string, p: nat, f: Field, tail: string)
    requires Tight(f) && Starts(t, p, WriteField(f, [','] + tail))
    requires Members(t, p + |WriteField(f, [])| + 1, false) == None
    ensures Members(t, p, false) == None
  {
    hide Members, Starts, WriteField, Ok, PiecesOk, Value, Elements, StringBody, Colon, Meaning, PiecesMeaning, Write;
    FieldParts(t, p, f, [','] + tail);
    var q := p + |WriteField(f, [])|;
    StartsWith(t, q, ',', tail);
    ListComma(t, q);
    FieldThen(t, p, f, [','] + tail);
  }

  lemma AfterGood(t: string, p: nat, f: Field, tail: string)
    requires Starts(t, p, WriteField(f, [','] + tail))
    ensures Starts(t, p + |WriteField(f, [])| + 1, tail)
  {
    hide Starts, WriteField;
    FieldParts(t, p, f, [','] + tail);
    StartsWith(t, p + |WriteField(f, [])|, ',', tail);
  }

  lemma {:induction false} DelayDies(t: string, p: nat, f: Fault, g: real -> Numeral)
    requires Printable(f) && IsDelay(f) && Starts(t, p, Unparse(f, g))
    ensures p < |t| && t[p] == '{' && Value(t, p) == None
  {
    hide Members, Starts, WriteField, Value, Unparse, UpToStray, Text, Tight, Plain, TypeName;
    var more := DelayText(f, g);
    var a, b, c := MemberOf([], "type", Text(TypeName(f))), MemberOf([' '], "prefix", Text(f.prefix)),
        MemberOf([' '], "suffix", Text(f.suffix));
    var stray := UpToStray(f) + more;
    var t3 := WriteField(c, [','] + stray);
    var t2 := WriteField(b, [','] + t3);
    var t1 := WriteField(a, [','] + t2);
    StartsWith(t, p, '{', t1);
    var p1 := p + 1;
    AfterGood(t, p1, a, t2);
    var p2 := p1 + |WriteField(a, [])| + 1;
    AfterGood(t, p2, b, t3);
    var p3 := p2 + |WriteField(b, [])| + 1;
    AfterGood(t, p3, c, stray);
    var p4 := p3 + |WriteField(c, [])| + 1;
    StartsSplit(t, p4, UpToStray(f), more);
    StrayDies(t, p4, f);
    TypeNamePlain(f);
    PathKeysPlain();
    MemberTight([], "type", TypeName(f));
    MemberTight([' '], "prefix", f.prefix);
    MemberTight([' '], "suffix", f.suffix);
    GoodThenDies(t, p3, c, stray);
    GoodThenDies(t, p2, b, t3);
    GoodThenDies(t, p1, a, t2);
    ContainerDies(t, p);
  }

  /** The list dies at its first element. */
  lemma FirstDies(t: string, b: nat, space: string, f: Fault, g: real -> Numeral)
    requires Printable(f) && IsDelay(f) && AllSpace(space)
    requires Starts(t, b, space) && Starts(t, b + |space|, Unparse(f, g))
    ensures Elements(t, b, false) == None
  {
    hide Starts, Elements, Unparse, Value, Printable, Members, AllSpace;
    var v := b + |space|;
    DelayDies(t, v, f, g);
    ElementDies(t, v);
    SpacesRead(t, b, space, false);
  }

  /** The list dies behind its first element. */
  lemma RestDies(t: string, b: nat, space: string, f: Fault, g: real -> Numeral, tail: string)
    requires Printable(f) && !IsDelay(f) && Formats(g) && AllSpace(space)
    requires Starts(t, b, space + (Unparse(f, g) + tail)) && tail != [] && tail[0] in ",]"
    requires b + |space| + |Unparse(f, g)| <= |t| && Elements(t, b + |space| + |Unparse(f, g)|, true) == None
    ensures b <= |t| && Elements(t, b, false) == None
  {
    hide Starts, Elements, Unparse, Value, Printable, Members, AllSpace, Formats, Ok, Write, Meaning, Tree;
    FaultWrite(f, g);
    var e := Elem(space, Tree(f, g), []);
    assert [] + tail == tail;
    assert AllSpace([]) by { NoSpace(); }
    ElemThen(t, b, e, tail);
  }

  /** The beginning of a list: the separator, the first fault and what follows it. */
  lemma ListRead(t: string, p: nat, fs: seq<Fault>, g: real -> Numeral, first: bool) returns (b: nat, tail: string)
    requires fs != [] && Starts(t, p, (if first then [] else ", ") + (Listed(fs, g) + [']']))
    ensures b == (if first then p else p + 1) && b <= |t| && p <= |t| && Elements(t, p, !first) == Elements(t, b, false)
    ensures tail != [] && tail[0] in ",]" && (|fs| > 1 ==> tail == ", " + (Listed(fs[1..], g) + [']']))
    ensures var space, w := if first then [] else [' '], Unparse(fs[0], g);
            && Starts(t, b, space + (w + tail)) && Starts(t, b, space) && Starts(t, b + |space|, w)
            && Starts(t, b + |space| + |w|, tail) && b + |space| + |w| <= |t|
  {
    hide Starts, Elements, Unparse, Listed;
    var w := Unparse(fs[0], g);
    tail := After(fs, g);
    ListedTail(fs, g);
    AfterHead(fs, g);
    hide After;
    b := LeadRead(t, p, first, w + tail);
    var v := if first then b else b + 1;
    StartsSplit(t, v, w, tail);
    StartsBound(t, v + |w|, tail);
  }

  lemma {:induction false} ElementsDie(t: string, p: nat, fs: seq<Fault>, g: real -> Numeral, first: bool)
    requires AllPrintable(fs) && !NoDelay(fs) && Formats(g)
    requires Starts(t, p, (if first then [] else ", ") + (Listed(fs, g) + [']']))
    ensures Elements(t, p, !first) == None
    decreases |fs|
  {
    hide Starts, Elements, Unparse, Printable, Formats, Listed, NoDelay, AllPrintable, AllSpace;
    HeadAndTail(fs);
    NoSpace();
    var b, tail := ListRead(t, p, fs, g, first);
    var space := if first then [] else [' '];
    if IsDelay(fs[0]) {
      FirstDies(t, b, space, fs[0], g);
    } else {
      LaterDelay(fs);
      ElementsDie(t, b + |space| + |Unparse(fs[0], g)|, fs[1..], g, false);
      RestDies(t, b, space, fs[0], g, tail);
    }
  }

  lemma HeadAndTail(fs: seq<Fault>)
    requires AllPrintable(fs) && !NoDelay(fs)
    ensures fs != [] && Printable(fs[0]) && AllPrintable(fs[1..])
  {
  }

  lemma LaterDelay(fs: seq<Fault>)
    requires !NoDelay(fs) && fs != [] && !IsDelay(fs[0])
    ensures |fs| > 1 && !NoDelay(fs[1..])
  {
    var i :| 0 <= i < |fs| && IsDelay(fs[i]);
    assert fs[1..][i - 1] == fs[i];
  }

  /** What follows the first fault of a list. */
  function After(fs: seq<Fault>, g: real -> Numeral): string
    requires fs != []
  {
    if |fs| == 1 then [']'] else ", " + (Listed(fs[1..], g) + [']'])
  }

  lemma AfterHead(fs: seq<Fault>, g: real -> Numeral)
    requires fs != []
    ensures After(fs, g) != [] && After(fs, g)[0] in ",]"
    ensures |fs| > 1 ==> After(fs, g) == ", " + (Listed(fs[1..], g) + [']'])
  {
    hide Listed;
  }

  lemma ListedTail(fs: seq<Fault>, g: real -> Numeral)
    requires fs != []
    ensures Listed(fs, g) + [']'] == Unparse(fs[0], g) + After(fs, g)
  {
    hide Unparse;
    if |fs| > 1 {
      Regroup4(Unparse(fs[0], g), ", ", Listed(fs[1..], g), [']']);
    }
  }

  lemma Regroup4(a: string, b: string, c: string, d: string)
    ensures a + b + c + d == a + (b + (c + d))
  {
  }

  /** The separator before an element: where the comma has been read. */
  lemma LeadRead(t: string, p: nat, first: bool, rest: string) returns (b: nat)
    requires Starts(t, p, (if first then [] else ", ") + rest)
    ensures b == (if first then p else p + 1) && b <= |t| && p <= |t|
    ensures Elements(t, p, !first) == Elements(t, b, false)
    ensures var space := if first then [] else [' '];
            Starts(t, b, space + rest) && Starts(t, b, space) && Starts(t, b + |space|, rest)
  {
    hide Elements;
    if first {
      b := p;
      assert [] + rest == rest;
    } else {
      assert ", " + rest == [','] + ([' '] + rest);
      StartsWith(t, p, ',', [' '] + rest);
      StartsSplit(t, p + 1, [' '], rest);
      ListComma(t, p);
      b := p + 1;
    }
  }

  lemma {:induction false} DelayRejected(fs: seq<Fault>, g: real -> Numeral)
    requires AllPrintable(fs) && !NoDelay(fs) && Formats(g)
    ensures Document(FaultsUnparse(fs, g)) == None
  {
    hide Starts, Elements, Members, Value, Listed, StringBody, Colon, AllPrintable, NoDelay, Formats, Quote, KeyText;
    var t := FaultsUnparse(fs, g);
    var list := Listed(fs, g);
    FaultsText(list);
    var inner := Quote("faults") + ([':'] + (['['] + ((list + [']']) + ['}'])));
    assert t == ['{'] + inner by { Spread(list); }
    Whole0(t);
    StartsWith(t, 0, '{', inner);
    HeadRead(t, list);
    assert [] + (list + [']']) == list + [']'];
    ElementsDie(t, 11, fs, g, true);
    ContainerDies(t, 10);
    MemberDies(t, 1, Parsed("faults", 9), 10);
    ContainerDies(t, 0);
  }

  lemma HeadRead(t: string, list: string)
    requires Starts(t, 1, Quote("faults") + ([':'] + (['['] + ((list + [']']) + ['}']))))
    ensures 10 < |t| && t[1] == '"' && StringBody(t, 2) == Some(Parsed("faults", 9)) && Colon(t, 9) == Some(10)
    ensures t[10] == '[' && Starts(t, 11, list + [']'])
  {
    hide Starts, StringBody, Colon, Quote;
    StartsSplit(t, 1, Quote("faults"), [':'] + (['['] + ((list + [']']) + ['}'])));
    FaultsPlain();
    QuoteSize("faults");
    NameRead(t, 1, "faults");
    StartsSplit(t, 9, [':'], ['['] + ((list + [']']) + ['}']));
    assert [] + [':'] == [':'];
    ColonRead(t, 9, []);
    StartsWith(t, 10, '[', (list + [']']) + ['}']);
    StartsSplit(t, 11, list + [']'], ['}']);
  }

  lemma Whole0(t: string)
    ensures Starts(t, 0, t)
  {
  }

  lemma Spread(list: string)
    ensures ['{'] + KeyText("faults", ['['] + (list + [']'])) + ['}'] ==
            ['{'] + (Quote("faults") + ([':'] + (['['] + ((list + [']']) + ['}']))))
  {
    hide Quote;
  }

  // ---- the round trip

  /**
   For every list of faults whose paths need no escapes: what faults_unparse writes is read
   back as the same list if all faults are error codes, and is rejected otherwise.
   */
  lemma RoundTrip(fs: seq<Fault>, g: real -> Numeral)
    requires AllPrintable(fs) && Formats(g)
    ensures FaultsParse(FaultsUnparse(fs, g)) == if AllCodes(fs) then Some(fs) else None
  {
    hide Document, FaultsOfTree, FaultsUnparse, AllPrintable, Formats, Root, Write, Ok, Meaning;
    var t := FaultsUnparse(fs, g);
    NoBom(fs, g);
    if NoDelay(fs) {
      RootWrite(fs, g);
      DocumentRead([], Root(fs, g), []);
      assert [] + Write(Root(fs, g)) + [] == t;
    } else {
      DelayRejected(fs, g);
      assert !AllCodes(fs);
    }
  }

  lemma NoBom(fs: seq<Fault>, g: real -> Numeral)
    ensures SkipBom(FaultsUnparse(fs, g)) == FaultsUnparse(fs, g)
  {
    hide Listed;
    assert FaultsUnparse(fs, g)[0] == '{';
  }
}
