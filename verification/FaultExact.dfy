/**
 The round trip of fault lists without any condition on their paths: it gives back the list
 exactly if all faults are error codes whose paths need no escapes.

 A quote in a path ends its string early and a backslash shortens it, so the path read back
 is shorter; a backslash that escapes the closing quote makes the text invalid.
 */
module FaultExact {
  import opened CText
  import opened Digits
  import opened JsonEscape
  import opened JsonReference
  import opened JsonGrammar
  import opened JsonGrammarReads
  import opened Fault
  import opened FaultParser
  import opened FaultText
  import opened FaultRoundTrip

  /** What a fault can hold: its paths are C strings and its code an int. */
  predicate Storable(f: Fault) {
    NUL !in f.prefix && NUL !in f.suffix && (IsCode(f) ==> -TWO31 <= f.code < TWO31)
  }

  predicate AllStorable(fs: seq<Fault>) {
    forall i :: 0 <= i < |fs| ==> Storable(fs[i])
  }

  predicate PlainPaths(f: Fault) {
    Plain(f.prefix) && Plain(f.suffix)
  }

  predicate AllPlain(fs: seq<Fault>) {
    forall i :: 0 <= i < |fs| ==> PlainPaths(fs[i])
  }

  // ---- a string that is not plain

  /** An escape is one letter, or \u and hex digits; it yields fewer bytes than it takes. */
  lemma EscapeShape(t: string, p: nat)
    requires p < |t| && t[p] != NUL
    ensures var e := Escape(t, p);
            e.Some? ==>
              if t[p] != 'u' then e.value.next == p + 1 && |e.value.out| == 1
              else |e.value.out| <= 4 && p + 5 <= e.value.next && forall i :: p <= i < e.value.next ==> t[i] != '"'
  {
    hide Encode, Combine, IsSurrogate, Count, Pack;
    assert HexValue('"') == BAD_HEX && HexValue(NUL) == BAD_HEX;
    hide HexValue;
    if t[p] == 'u' && Escape(t, p).Some? {
      EncodeSize(FourHex(t, p).value);
      if IsSurrogate(FourHex(t, p).value) {
        EncodeSize(Combine(FourHex(t, p).value, FourHex(t, p + 6).value));
      }
    }
  }

  lemma EncodeSize(u: bv32)
    ensures |Encode(u)| <= 4
  {
  }

  /** Reading the rest `s` of a quoted string that is followed by a comma, a space and another quote. */
  lemma {:induction false} BodyShort(t: string, p: nat, s: string)
    requires NUL !in s && Starts(t, p, s + "\", \"")
    ensures p < |t|
    ensures var r := StringBody(t, p);
            r.Some? ==>
              || (|r.value.v| <= |s| && (!Plain(s) ==> |r.value.v| < |s|))
              || r.value.next == p + |s| + 4
    decreases |s|
  {
    hide Starts, StringItem;
    StartsAt(t, p, s + "\", \"", 0);
    if s == [] || s[0] == '"' {
      assert t[p] == '"';
    } else if s[0] != '\\' {
      RestOf(t, p, s, 1);
      BodyShort(t, p + 1, s[1..]);
      RawItem(t, p);
      PlainCons(s);
    } else {
      EscapedBody(t, p, s);
    }
  }

  lemma RawItem(t: string, p: nat)
    requires p < |t| && t[p] != '\\'
    ensures StringItem(t, p) == Some(Esc([t[p]], 1, p + 1))
  {
  }

  lemma PlainCons(s: string)
    requires s != [] && s[0] != '"' && s[0] != '\\' && s[0] != NUL
    ensures Plain(s[1..]) ==> Plain(s)
  {
    if Plain(s[1..]) {
      assert forall i :: 0 < i < |s| ==> s[i] == s[1..][i - 1];
    }
  }

  lemma RestOf(t: string, p: nat, s: string, k: nat)
    requires k <= |s| && Starts(t, p, s + "\", \"")
    ensures Starts(t, p + k, s[k..] + "\", \"")
  {
    hide Starts;
    assert s + "\", \"" == s[..k] + (s[k..] + "\", \"");
    StartsSplit(t, p, s[..k], s[k..] + "\", \"");
  }

  lemma {:induction false} EscapedBody(t: string, p: nat, s: string)
    requires NUL !in s && s != [] && s[0] == '\\' && Starts(t, p, s + "\", \"")
    ensures p < |t|
    ensures var r := StringBody(t, p);
            r.Some? ==> |r.value.v| < |s| || r.value.next == p + |s| + 4
    decreases |s|, 0
  {
    hide Starts, StringItem;
    var all := s + "\", \"";
    StartsBound(t, p, all);
    StartsAt(t, p, all, 0);
    StartsAt(t, p, all, 1);
    StartsAt(t, p, all, |s|);
    assert all[1] != NUL;
    var e := ItemShape(t, p);
    if StringBody(t, p).Some? {
      var k := e.next - p;
      if k <= |s| {
        RestOf(t, p, s, k);
        BodyShort(t, p + k, s[k..]);
      } else {
        assert t[p + |s|] == '"';
        assert |s| == 1;
        EscapedQuote(t, p, s);
      }
    }
  }

  /** The item that a backslash begins. */
  lemma ItemShape(t: string, p: nat) returns (e: Esc)
    requires p + 1 < |t| && t[p] == '\\' && t[p + 1] != NUL
    ensures StringItem(t, p).Some? ==>
              && e == StringItem(t, p).value
              && if t[p + 1] != 'u' then e.next == p + 2 && |e.out| == 1
                 else |e.out| <= 4 && p + 6 <= e.next && forall i :: p < i < e.next ==> t[i] != '"'
    ensures StringItem(t, p) == None ==> StringBody(t, p) == None
  {
    hide Escape;
    EscapeShape(t, p + 1);
    e := if StringItem(t, p).Some? then StringItem(t, p).value else Esc([], 0, 0);
  }

  /** The closing quote is escaped: the string goes on to the quote that opens the next name. */
  lemma EscapedQuote(t: string, p: nat, s: string)
    requires s == ['\\'] && Starts(t, p, s + "\", \"")
    ensures p < |t| && StringBody(t, p).Some? && StringBody(t, p).value.next == p + 5
  {
    var all := s + "\", \"";
    assert all == ['\\', '"', ',', ' ', '"'];
    StartsAt(t, p, all, 0);
    StartsAt(t, p, all, 1);
    StartsAt(t, p, all, 2);
    StartsAt(t, p, all, 3);
    StartsAt(t, p, all, 4);
    hide Starts;
    assert StringBody(t, p + 4) == Some(Parsed([], p + 5));
    assert StringBody(t, p + 3).Some? && StringBody(t, p + 3).value.next == p + 5;
    assert StringBody(t, p + 2).Some? && StringBody(t, p + 2).value.next == p + 5;
  }

  // ---- a member that is not plain

  /** A string value follows the name of a member; t[p] is the quote before the name. */
  lemma KeyRead(t: string, p: nat, key: string, rest: string)
    requires Plain(key) && Starts(t, p, Quote(key) + ([':'] + rest))
    ensures var c := p + |key| + 2;
            && p < |t| && t[p] == '"' && StringBody(t, p + 1) == Some(Parsed(key, c))
            && c + 1 <= |t| && Colon(t, c) == Some(c + 1) && Starts(t, c + 1, rest)
  {
    hide Starts, StringBody, Colon, Quote;
    QuoteSize(key);
    var c := p + |key| + 2;
    StartsSplit(t, p, Quote(key), [':'] + rest);
    NameRead(t, p, key);
    StartsSplit(t, c, [':'], rest);
    assert [] + [':'] == [':'];
    ColonRead(t, c, []);
    StartsBound(t, c, [':']);
  }

  /** The first member is a string shorter than `s`. */
  predicate Short(ms: seq<Member>, key: string, s: string) {
    ms != [] && ms[0].name == key && ms[0].value.Str? && |ms[0].value.s| < |s|
  }

  lemma BadMember(t: string, p: nat, key: string, s: string, more: string)
    requires Plain(key) && NUL !in s && !Plain(s)
    requires more != [] && more[0] in "cdms"
    requires Starts(t, p, Quote(key) + ([':'] + (['"'] + (s + "\", \"" + more))))
    ensures p <= |t| && (Members(t, p, false).Some? ==> Short(Members(t, p, false).value.v, key, s))
  {
    hide Starts, StringBody, Colon, Quote, Plain, Members, Value;
    KeyRead(t, p, key, ['"'] + (s + "\", \"" + more));
    var c := p + |key| + 2;
    StartsWith(t, c + 1, '"', s + "\", \"" + more);
    StartsSplit(t, c + 2, s + "\", \"", more);
    StartsAt(t, c + 2 + |s| + 4, more, 0);
    BodyShort(t, c + 2, s);
    var r := StringBody(t, c + 2);
    if r.None? {
      ContainerDies(t, c + 1);
      MemberDies(t, p, Parsed(key, c), c + 1);
    } else {
      ContainerValue(t, c + 1);
      MemberFirst(t, p, Parsed(key, c), c + 1, Parsed(Str(r.value.v), r.value.next));
      if r.value.next == c + 2 + |s| + 4 {
        LetterEnds(t, r.value.next);
      }
    }
  }

  lemma LetterEnds(t: string, p: nat)
    requires p < |t| && t[p] in "cdms"
    ensures Members(t, p, true) == None
  {
    hide Value;
  }

  /** A good member before any rest. */
  lemma {:induction false} GoodThen(t: string, p: nat, f: Field, tail: string)
    requires Tight(f) && Starts(t, p, WriteField(f, [','] + tail))
    ensures var q := p + |WriteField(f, [])| + 1;
            && p <= |t| && q <= |t| && Starts(t, q, tail)
            && var rest := Members(t, q, false);
               Members(t, p, false) ==
               if rest.None? then None
               else Some(Parsed([Member(PiecesMeaning(f.name), Meaning(f.v))] + rest.value.v, rest.value.next))
  {
    hide Members, Starts, WriteField, Ok, PiecesOk, Value, Elements, StringBody, Colon, Meaning, PiecesMeaning, Write;
    FieldParts(t, p, f, [','] + tail);
    var q := p + |WriteField(f, [])|;
    StartsWith(t, q, ',', tail);
    StartsBound(t, p, f.before);
    ListComma(t, q);
    FieldThen(t, p, f, [','] + tail);
  }

  /** A plain string member, its comma and a space. */
  lemma GoodString(t: string, p: nat, lead: string, key: string, s: string, rest: string) returns (q: nat)
    requires AllSpace(lead) && Plain(key) && Plain(s)
    requires Starts(t, p, lead + (KeyText(key, Quote(s)) + (", " + rest)))
    ensures p <= |t| && q <= |t| && Starts(t, q, rest)
    ensures var ms := Members(t, q, false);
            Members(t, p, false) ==
            if ms.None? then None else Some(Parsed([Member(key, Str(s))] + ms.value.v, ms.value.next))
  {
    hide Members, Starts, WriteField, Plain, Text, Tight, Meaning, PiecesMeaning, KeyText, Quote, Raws, Value, Elements;
    var f := MemberOf(lead, key, Text(s));
    MemberTight(lead, key, s);
    TextWrite(s);
    RawsWrite(key);
    MemberText(lead, key, Text(s), [','] + ([' '] + rest));
    assert ", " + rest == [','] + ([' '] + rest);
    GoodThen(t, p, f, [' '] + rest);
    q := p + |WriteField(f, [])| + 1;
    StartsSplit(t, q, [' '], rest);
    SpacesRead(t, q, [' '], false) by { NoSpace(); }
    StartsBound(t, q + 1, rest);
    q := q + 1;
  }

  // ---- a fault that is not plain

  lemma BadText(key: string, s: string, m: string)
    ensures KeyText(key, Quote(s)) + (", " + (['"'] + m)) == Quote(key) + ([':'] + (['"'] + (s + "\", \"" + m)))
  {
    assert Quote(key) + [':'] + (['"'] + s + ['"']) + (", " + (['"'] + m)) ==
           Quote(key) + ([':'] + (['"'] + (s + (['"'] + (", " + (['"'] + m))))));
    assert ['"'] + (", " + (['"'] + m)) == "\", \"" + m;
    assert s + ("\", \"" + m) == s + "\", \"" + m;
  }

  lemma FourPairs(kvs: seq<(string, string)>)
    requires |kvs| >= 4
    ensures Pairs(kvs) == KeyText(kvs[0].0, kvs[0].1) + ", " + (KeyText(kvs[1].0, kvs[1].1) + ", " +
                          (KeyText(kvs[2].0, kvs[2].1) + ", " + Pairs(kvs[3..])))
  {
    hide KeyText;
    assert kvs[1..][0] == kvs[1] && kvs[1..][1..] == kvs[2..] && kvs[2..][1..] == kvs[3..];
    assert Pairs(kvs[2..]) == KeyText(kvs[2].0, kvs[2].1) + ", " + Pairs(kvs[3..]);
    assert Pairs(kvs[1..]) == KeyText(kvs[1].0, kvs[1].1) + ", " + Pairs(kvs[2..]);
  }

  /** What follows the suffix is a quoted name. */
  lemma NumbersHead(f: Fault, g: real -> Numeral) returns (m: string)
    ensures Pairs(Numbers(f, g)) + ['}'] == ['"'] + m && m != [] && m[0] in "cdm"
  {
    hide Show, WriteNumeral, Wrap32;
    var text := Pairs(Numbers(f, g)) + ['}'];
    m := text[1..];
    assert text[0] == '"' && text[1] in "cdm";
  }

  /** The text of any fault, up to the name behind its suffix. */
  lemma HeadText(f: Fault, g: real -> Numeral) returns (m: string)
    ensures m != [] && m[0] in "cdm"
    ensures Unparse(f, g) ==
            ['{'] + ([] + (KeyText("type", Quote(TypeName(f))) + (", " + (KeyText("prefix", Quote(f.prefix)) +
              (", " + (KeyText("suffix", Quote(f.suffix)) + (", " + (['"'] + m))))))))
  {
    hide KeyText, Quote, TypeName, Pairs;
    m := NumbersHead(f, g);
    var kvs := Paths(f) + Numbers(f, g);
    assert kvs[3..] == Numbers(f, g);
    FourPairs(kvs);
    Chained(KeyText("type", Quote(TypeName(f))), KeyText("prefix", Quote(f.prefix)), KeyText("suffix", Quote(f.suffix)),
            Pairs(Numbers(f, g)), m);
  }

  lemma Chained(a: string, b: string, c: string, d: string, m: string)
    requires d + ['}'] == ['"'] + m
    ensures ['{'] + (a + ", " + (b + ", " + (c + ", " + d))) + ['}'] ==
            ['{'] + ([] + (a + (", " + (b + (", " + (c + (", " + (['"'] + m))))))))
  {
    assert c + ", " + d + ['}'] == c + (", " + (['"'] + m));
    var x := c + (", " + (['"'] + m));
    assert b + ", " + (c + ", " + d) + ['}'] == b + (", " + x);
    var y := b + (", " + x);
    assert a + ", " + (b + ", " + (c + ", " + d)) + ['}'] == a + (", " + y);
    assert [] + (a + (", " + y)) == a + (", " + y);
  }

  /** The members read from a fault that is not plain: one of its paths comes out too short. */
  predicate Spoilt(ms: seq<Member>, f: Fault) {
    && |ms| >= 2 && ms[0].name == "type"
    && if !Plain(f.prefix) then Short(ms[1..], "prefix", f.prefix)
       else |ms| >= 3 && ms[1].name == "prefix" && Short(ms[2..], "suffix", f.suffix)
  }

  lemma BadPrefix(t: string, p: nat, f: Fault, m: string)
    requires Storable(f) && !Plain(f.prefix)
    requires Starts(t, p, KeyText("prefix", Quote(f.prefix)) + (", " + (KeyText("suffix", Quote(f.suffix)) + m)))
    ensures p <= |t| && (Members(t, p, false).Some? ==> Short(Members(t, p, false).value.v, "prefix", f.prefix))
  {
    hide Starts, Members, Plain, Short;
    var more := "suffix\":" + (Quote(f.suffix) + m);
    assert KeyText("suffix", Quote(f.suffix)) + m == ['"'] + more by { SuffixText(Quote(f.suffix), m); }
    BadText("prefix", f.prefix, more);
    PathKeysPlain();
    BadMember(t, p, "prefix", f.prefix, more);
  }

  lemma SuffixText(s: string, m: string)
    ensures KeyText("suffix", s) + m == ['"'] + ("suffix\":" + (s + m))
  {
    assert Quote("suffix") + [':'] == ['"'] + "suffix\":";
    assert (['"'] + "suffix\":") + s + m == ['"'] + ("suffix\":" + (s + m));
  }

  lemma BadSuffix(t: string, p: nat, f: Fault, m: string)
    requires Storable(f) && Plain(f.prefix) && !Plain(f.suffix) && m != [] && m[0] in "cdm"
    requires Starts(t, p, KeyText("prefix", Quote(f.prefix))
             + (", " + (KeyText("suffix", Quote(f.suffix)) + (", " + (['"'] + m)))))
    ensures p <= |t| && (Members(t, p, false).Some? ==>
              var ms := Members(t, p, false).value.v;
              |ms| >= 2 && ms[0].name == "prefix" && Short(ms[1..], "suffix", f.suffix))
  {
    hide Starts, Members, Plain, KeyText, Quote, AllSpace;
    PathKeysPlain();
    NoSpace();
    var rest := KeyText("suffix", Quote(f.suffix)) + (", " + (['"'] + m));
    var text := KeyText("prefix", Quote(f.prefix)) + (", " + rest);
    assert [] + text == text;
    var q := GoodString(t, p, [], "prefix", f.prefix, rest);
    BadText("suffix", f.suffix, m);
    BadMember(t, q, "suffix", f.suffix, m);
    var ms := Members(t, q, false);
    if ms.Some? {
      assert ([Member("prefix", Str(f.prefix))] + ms.value.v)[1..] == ms.value.v;
    }
  }

  lemma BadMembers(t: string, p: nat, f: Fault, m: string)
    requires Storable(f) && !PlainPaths(f) && m != [] && m[0] in "cdm"
    requires Starts(t, p, [] + (KeyText("type", Quote(TypeName(f))) + (", " + (KeyText("prefix", Quote(f.prefix)) +
                          (", " + (KeyText("suffix", Quote(f.suffix)) + (", " + (['"'] + m))))))))
    ensures p <= |t| && (Members(t, p, false).Some? ==> Spoilt(Members(t, p, false).value.v, f))
  {
    hide Starts, Members, Plain, KeyText, Quote, AllSpace, TypeName;
    PathKeysPlain();
    TypeNamePlain(f);
    NoSpace();
    var tail := KeyText("suffix", Quote(f.suffix)) + (", " + (['"'] + m));
    var rest := KeyText("prefix", Quote(f.prefix)) + (", " + tail);
    var q := GoodString(t, p, [], "type", TypeName(f), rest);
    if !Plain(f.prefix) {
      BadPrefix(t, q, f, ", " + (['"'] + m));
    } else {
      BadSuffix(t, q, f, m);
    }
    var ms := Members(t, q, false);
    if ms.Some? {
      var all := [Member("type", Str(TypeName(f)))] + ms.value.v;
      assert all[1..] == ms.value.v;
      Tails(all, ms.value.v);
    }
  }

  lemma Tails(all: seq<Member>, ms: seq<Member>)
    requires |all| == |ms| + 1 && all[1..] == ms && ms != []
    ensures all[2..] == ms[1..]
  {
    assert all[2..] == all[1..][1..];
  }

  /** Such members are not read as the fault they were written for. */
  lemma SpoiltFault(ms: seq<Member>, f: Fault)
    requires Spoilt(ms, f)
    ensures FaultOf(Obj(ms)) != Some(f)
  {
    hide Plain, FaultOf, FirstMember, CString;
    PathsKept(Obj(ms));
    if !Plain(f.prefix) {
      SkipMember(ms, "type", "prefix");
      FirstIs(ms[1..], "prefix");
    } else {
      SkipMember(ms, "type", "suffix");
      SkipMember(ms[1..], "prefix", "suffix");
      assert ms[1..][1..] == ms[2..];
      FirstIs(ms[2..], "suffix");
    }
  }

  lemma SkipMember(ms: seq<Member>, key: string, other: string)
    requires ms != [] && ms[0].name == key && key in ["type", "prefix"] && key != other
    ensures FirstMember(ms, other) == FirstMember(ms[1..], other)
  {
    CStringWhole(key);
    hide CString;
  }

  lemma FirstIs(ms: seq<Member>, key: string)
    requires ms != [] && ms[0].name == key && key in ["prefix", "suffix"]
    ensures FirstMember(ms, key) == Some(ms[0].value)
  {
    CStringWhole(key);
    hide CString;
  }

  /** A fault has the paths of its tree. */
  lemma PathsKept(v: Json)
    ensures FaultOf(v).Some? ==>
              && StringMember(v, "prefix", "/") == Some(FaultOf(v).value.prefix)
              && StringMember(v, "suffix", "") == Some(FaultOf(v).value.suffix)
  {
    hide Child, CString, StringMember, IntMember, DoubleMember, Wrap32, Unsigned32;
  }

  lemma BadValue(t: string, p: nat, f: Fault, g: real -> Numeral)
    requires Storable(f) && !PlainPaths(f) && Starts(t, p, Unparse(f, g))
    ensures p < |t| && t[p] == '{' && (Value(t, p).Some? ==> FaultOf(Value(t, p).value.v) != Some(f))
  {
    hide Starts, Members, Value, Unparse, PlainPaths, FaultOf, KeyText, Quote, TypeName, Spoilt;
    var m := HeadText(f, g);
    var inner := [] + (KeyText("type", Quote(TypeName(f))) + (", " + (KeyText("prefix", Quote(f.prefix)) +
                   (", " + (KeyText("suffix", Quote(f.suffix)) + (", " + (['"'] + m)))))));
    StartsWith(t, p, '{', inner);
    BadMembers(t, p + 1, f, m);
    ContainerDies(t, p);
    ContainerValue(t, p);
    if Members(t, p + 1, false).Some? {
      SpoiltFault(Members(t, p + 1, false).value.v, f);
    }
  }

  // ---- lists

  /** The elements read, if any, are not these faults. */
  ghost predicate Differ(r: Option<Parsed<seq<Json>>>, fs: seq<Fault>) {
    r.Some? ==> FaultsOf(r.value.v) != Some(fs)
  }

  /** An element whose fault differs, before any others. */
  lemma HeadDiffers(t: string, p: nat, fs: seq<Fault>)
    requires fs != [] && p < |t| && t[p] == '{'
    requires Value(t, p).Some? ==> FaultOf(Value(t, p).value.v) != Some(fs[0])
    ensures Differ(Elements(t, p, false), fs)
  {
    hide Value, FaultOf, Elements;
    if Value(t, p).None? {
      ElementDies(t, p);
    } else {
      ElementFirst(t, p, Value(t, p).value);
    }
  }

  /** A plain element, before others that differ. */
  lemma TailDiffers(t: string, b: nat, space: string, fs: seq<Fault>, g: real -> Numeral, tail: string)
    requires fs != [] && Printable(fs[0]) && !IsDelay(fs[0]) && Formats(g) && AllSpace(space)
    requires Starts(t, b, space + (Unparse(fs[0], g) + tail)) && tail != [] && tail[0] in ",]"
    requires b + |space| + |Unparse(fs[0], g)| <= |t|
    requires Differ(Elements(t, b + |space| + |Unparse(fs[0], g)|, true), fs[1..])
    ensures b <= |t| && Differ(Elements(t, b, false), fs)
  {
    hide Starts, Elements, Unparse, Value, Printable, Members, AllSpace, Formats, Ok, Write, Meaning, Tree, FaultOf;
    FaultWrite(fs[0], g);
    var e := Elem(space, Tree(fs[0], g), []);
    assert [] + tail == tail;
    assert AllSpace([]) by { NoSpace(); }
    ElemThen(t, b, e, tail);
    var rest := Elements(t, b + |space| + |Unparse(fs[0], g)|, true);
    if rest.Some? {
      ConsDiffers(Meaning(Tree(fs[0], g)), rest.value.v, fs);
    }
  }

  lemma ConsDiffers(v: Json, vs: seq<Json>, fs: seq<Fault>)
    requires fs != [] && FaultsOf(vs) != Some(fs[1..])
    ensures FaultsOf([v] + vs) != Some(fs)
  {
    hide FaultOf;
    assert ([v] + vs)[1..] == vs;
    var f := FaultOf(v);
    assert f.Some? && FaultsOf(vs).Some? ==> ([f.value] + FaultsOf(vs).value)[1..] == FaultsOf(vs).value;
  }

  lemma {:induction false} ElementsDiffer(t: string, p: nat, fs: seq<Fault>, g: real -> Numeral, first: bool)
    requires AllStorable(fs) && !AllPlain(fs) && Formats(g)
    requires Starts(t, p, (if first then [] else ", ") + (Listed(fs, g) + [']']))
    ensures p <= |t| && Differ(Elements(t, p, !first), fs)
    decreases |fs|
  {
    hide Starts, Elements, Members, Value, Unparse, Formats, Listed, AllSpace, PlainPaths, Differ, AllStorable,
         AllPlain, Storable, Printable;
    NoSpace();
    HeadStorable(fs);
    var b, tail := ListRead(t, p, fs, g, first);
    var space := if first then [] else [' '];
    if !PlainPaths(fs[0]) {
      BadValue(t, b + |space|, fs[0], g);
      HeadDiffers(t, b + |space|, fs);
      SpacesRead(t, b, space, false);
    } else if IsDelay(fs[0]) {
      FirstDies(t, b, space, fs[0], g);
      Nothing(fs);
    } else {
      LaterPlain(fs);
      ElementsDiffer(t, b + |space| + |Unparse(fs[0], g)|, fs[1..], g, false);
      TailDiffers(t, b, space, fs, g, tail);
    }
  }

  lemma Nothing(fs: seq<Fault>)
    ensures Differ(None, fs)
  {
  }

  lemma HeadStorable(fs: seq<Fault>)
    requires AllStorable(fs) && !AllPlain(fs)
    ensures fs != [] && Storable(fs[0]) && AllStorable(fs[1..]) && (PlainPaths(fs[0]) ==> Printable(fs[0]))
  {
    hide Plain;
  }

  lemma LaterPlain(fs: seq<Fault>)
    requires !AllPlain(fs) && fs != [] && PlainPaths(fs[0])
    ensures |fs| > 1 && !AllPlain(fs[1..])
  {
    hide PlainPaths;
    var i :| 0 <= i < |fs| && !PlainPaths(fs[i]);
    assert fs[1..][i - 1] == fs[i];
  }

  lemma DocumentDiffers(fs: seq<Fault>, g: real -> Numeral)
    requires AllStorable(fs) && !AllPlain(fs) && Formats(g)
    ensures var d := Document(FaultsUnparse(fs, g)); d.Some? ==> FaultsOfTree(d.value) != Some(fs)
  {
    hide Starts, Elements, Members, Value, Listed, StringBody, Colon, AllStorable, AllPlain, Formats, Quote,
         KeyText, FaultsOf;
    var t := FaultsUnparse(fs, g);
    var list := Listed(fs, g);
    FaultsText(list);
    var inner := Quote("faults") + ([':'] + (['['] + ((list + [']']) + ['}'])));
    assert t == ['{'] + inner by { Spread(list); }
    Whole0(t);
    StartsWith(t, 0, '{', inner);
    HeadRead(t, list);
    assert [] + (list + [']']) == list + [']'];
    ElementsDiffer(t, 11, fs, g, true);
    RootDiffers(t, fs);
  }

  lemma RootDiffers(t: string, fs: seq<Fault>)
    requires 10 < |t| && t[0] == '{' && t[1] == '"' && StringBody(t, 2) == Some(Parsed("faults", 9))
             && Colon(t, 9) == Some(10)
    requires t[10] == '[' && Differ(Elements(t, 11, false), fs)
    ensures Document(t).Some? ==> FaultsOfTree(Document(t).value) != Some(fs)
  {
    hide Elements, Members, Value, StringBody, Colon, FaultsOf, SkipSpace, CString;
    ContainerDies(t, 10);
    ContainerValue(t, 10);
    ContainerDies(t, 0);
    ContainerValue(t, 0);
    if Elements(t, 11, false).None? {
      MemberDies(t, 1, Parsed("faults", 9), 10);
    } else {
      var vs := Elements(t, 11, false).value;
      MemberFirst(t, 1, Parsed("faults", 9), 10, Parsed(Arr(vs.v), vs.next));
      CStringWhole("faults");
    }
  }

  /**
   For every list of faults that memory can hold: what faults_unparse writes is read back as
   the same list if and only if all faults are error codes and no path has a quote or a
   backslash.
   */
  lemma RoundTripExact(fs: seq<Fault>, g: real -> Numeral)
    requires AllStorable(fs) && Formats(g)
    ensures FaultsParse(FaultsUnparse(fs, g)) == Some(fs) <==> AllCodes(fs) && AllPlain(fs)
  {
    hide Document, FaultsOfTree, FaultsUnparse, Formats;
    NoBom(fs, g);
    if AllPlain(fs) {
      RoundTrip(fs, g);
    } else {
      DocumentDiffers(fs, g);
    }
  }

  /** With C strings for paths, to be plain is to have neither a quote nor a backslash. */
  lemma PlainIs(s: string)
    requires NUL !in s
    ensures Plain(s) <==> '"' !in s && '\\' !in s
  {
  }
}
