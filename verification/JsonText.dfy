/**
 The parser's language from end to end: from the text, with or without a byte order mark,
 to the nodes in memory.
 */
module JsonText {
  import opened CText
  import opened JsonReference
  import opened JsonGrammar
  import opened JsonGrammarReads
  import opened JsonLayout
  import opened JsonMemory
  import JsonGrammarSound
  import JsonMachine
  import JsonParser
  import JsonRfc

  /** White space, a text of the grammar, white space. */
  ghost predicate IsText(t: string, before: string, c: Cst, after: string) {
    AllSpace(before) && AllSpace(after) && Ok(c) && t == before + Write(c) + after
  }

  /** No text begins with a byte order mark, so there is never a second one to skip. */
  lemma NoBom(before: string, c: Cst, after: string)
    requires AllSpace(before) && (c.CNum? ==> NumeralOk(c.n))
    ensures SkipBom(before + Write(c) + after) == before + Write(c) + after
  {
    hide WritePieces, WriteElems, WriteFields, WriteFrac, WriteExp;
    var t := before + Write(c) + after;
    if before != [] {
      assert t[0] == before[0];
    } else {
      assert t[0] == Write(c)[0] by { TextParts(before, Write(c), after); StartsAt(t, 0, Write(c), 0); }
      if c.CNum? {
        var w := WriteNumeral(c.n);
        assert w[0] == if c.n.negative then '-' else c.n.whole[0];
      }
    }
  }

  /** The three bytes of a byte order mark, and nothing else, are skipped. */
  lemma BomRead(json: string)
    ensures var bom := [0xEF as char, 0xBB as char, 0xBF as char];
            && ParseText(bom + json) == Document(json)
            && (!(bom <= json) ==> ParseText(json) == Document(json))
  {
    hide Document;
    var bom := [0xEF as char, 0xBB as char, 0xBF as char];
    assert (bom + json)[3..] == json;
    if bom[0] == '\U{00EF}' && |json| >= 3 && json[0] == bom[0] && json[1] == bom[1] && json[2] == bom[2] {
      assert json[..3] == bom;
    }
  }

  /** Every text of the grammar is accepted as its meaning. */
  lemma TextRead(before: string, c: Cst, after: string)
    requires AllSpace(before) && AllSpace(after) && Ok(c)
    ensures ParseText(before + Write(c) + after) == Some(Meaning(c))
  {
    hide Document, Write, Meaning, SkipBom, AllSpace;
    NoBom(before, c, after);
    DocumentRead(before, c, after);
  }

  /** A text without NUL, less its byte order mark, is accepted if and only if it is a text of the grammar. */
  lemma Language(json: string)
    requires NUL !in json
    ensures ParseText(json).Some? <==> exists before, c, after :: IsText(SkipBom(json), before, c, after)
  {
    hide Document, Write, Meaning, Ok, AllSpace;
    var t := SkipBom(json);
    assert NUL !in t;
    if ParseText(json).Some? {
      var before, c, after := JsonGrammarSound.DocumentSound(t);
      assert IsText(t, before, c, after);
    }
    if before, c, after :| IsText(t, before, c, after) {
      DocumentRead(before, c, after);
    }
  }

  /** The texts of RFC 8259, from end to end. */
  lemma RfcRead(before: string, c: Cst, after: string)
    requires AllSpace(before) && AllSpace(after) && JsonRfc.Rfc(c)
    ensures var v := ParseText(before + Write(c) + after);
            && (v.Some? <==> JsonRfc.AllFollowed(c))
            && (JsonRfc.AllPaired(c) && JsonRfc.Small(c) ==>
                  v.Some? && (v.value == JsonRfc.Denoted(c) <==> JsonRfc.AllClear(c)))
  {
    assert c.CNum? ==> NumeralOk(c.n);
    NoBom(before, c, after);
    hide Document, Write, SkipBom, AllSpace, JsonRfc.Rfc, JsonRfc.AllFollowed, JsonRfc.AllPaired, JsonRfc.Small,
         JsonRfc.Denoted, JsonRfc.AllClear;
    JsonRfc.RfcDocumentRead(before, c, after);
  }

  /** json_parse: NULL exactly for what is no text, and otherwise memory that represents the text's meaning. */
  method Parse(json: string) returns (root: JsonMachine.Ptr, heap: seq<JsonMachine.Node>)
    ensures NUL !in json ==>
              (root != JsonMachine.NULL <==> exists before, c, after :: IsText(SkipBom(json), before, c, after))
    ensures forall before, c, after :: IsText(SkipBom(json), before, c, after) ==>
              Represents(heap, root, JsonMachine.NULL, Meaning(c))
  {
    hide Document, Write, Meaning, Ok, AllSpace, Represents, FilledTree;
    var freed;
    root, heap, freed := JsonParser.ParseEx(json);
    if NUL !in json {
      Language(json);
    }
    forall before, c, after | IsText(SkipBom(json), before, c, after)
      ensures Represents(heap, root, JsonMachine.NULL, Meaning(c))
    {
      DocumentRead(before, c, after);
    }
  }
}
