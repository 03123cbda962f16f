/**
 The text of every kind of fault, spelled out byte by byte as the formats of fault.c print it.
 */
module FaultFormat {
  import opened CText
  import opened Digits
  import opened JsonGrammar
  import opened Fault
  import opened FaultText
  import opened FaultExact
  import FaultPrinter

  lemma PathText(name: string, prefix: string, suffix: string, rest: string)
    ensures ['{'] + (KeyText("type", Quote(name)) + ", " + (KeyText("prefix", Quote(prefix)) + ", " +
                     (KeyText("suffix", Quote(suffix)) + ", " + rest))) + ['}'] ==
            "{\"type\":\"" + name + "\", \"prefix\":\"" + prefix + "\", \"suffix\":\"" + suffix + "\", " + rest + "}"
  {
    Field("type", name);
    Field("prefix", prefix);
    Field("suffix", suffix);
    Joined(name, prefix, suffix, rest);
  }

  lemma Field(key: string, s: string)
    ensures KeyText(key, Quote(s)) == (Quote(key) + ":\"") + s + "\""
  {
    assert Quote(key) + [':'] + (['"'] + s + ['"']) == (Quote(key) + ([':'] + ['"'])) + s + ['"'];
  }

  lemma Joined(n: string, p: string, s: string, rest: string)
    ensures ['{'] + ((Quote("type") + ":\"" + n + "\"") + ", " + ((Quote("prefix") + ":\"" + p + "\"") + ", " +
                     ((Quote("suffix") + ":\"" + s + "\"") + ", " + rest))) + ['}'] ==
            "{\"type\":\"" + n + "\", \"prefix\":\"" + p + "\", \"suffix\":\"" + s + "\", " + rest + "}"
  {
    var a, b, c, d := "{\"type\":\"", "\", \"prefix\":\"", "\", \"suffix\":\"", "\", ";
    assert ['{'] + (Quote("type") + ":\"") == a;
    assert "\"" + ", " + (Quote("prefix") + ":\"") == b;
    assert "\"" + ", " + (Quote("suffix") + ":\"") == c;
    assert "\"" + ", " == d;
    Pieces(['{'], Quote("type") + ":\"", n, "\"", ", ", Quote("prefix") + ":\"", p, Quote("suffix") + ":\"", s, rest,
           ['}']);
  }

  lemma Pieces(o: string, t: string, n: string, q: string, k: string, u: string, p: string, v: string, s: string,
               rest: string, e: string)
    ensures o + ((t + n + q) + k + ((u + p + q) + k + ((v + s + q) + k + rest))) + e ==
            (o + t) + n + (q + k + u) + p + (q + k + v) + s + (q + k) + rest + e
  {
    var x := (v + s + q) + k + rest;
    assert x == v + s + (q + k) + rest;
    var y := (u + p + q) + k + x;
    assert y == u + p + (q + k + v) + s + (q + k) + rest;
    assert o + ((t + n + q) + k + y) + e == (o + t) + n + (q + k + u) + p + (q + k + v) + s + (q + k) + rest + e;
  }

  /** The numbers of a fault as they are printed. */
  lemma NumberText(f: Fault, g: real -> Numeral)
    ensures Pairs(Numbers(f, g)) ==
            match f
            case Unreadable(_, _, code) => "\"code\":" + Show(code)
            case Unwritable(_, _, code) => "\"code\":" + Show(code)
            case ReadDelay(_, _, ms, x) => "\"delay_ms\":" + Show(Wrap32(ms)) + "d, \"fraction\":" + WriteNumeral(g(x))
            case WriteDelay(_, _, ms, x) => "\"delay_ms\":" + Show(Wrap32(ms)) + "d, \"fraction\":" + WriteNumeral(g(x))
            case ReadCorrupt(_, _, mode, _, x) =>
              "\"mode\":" + Show(Wrap32(mode)) + ", \"fraction\":" + WriteNumeral(g(x))
            case WriteCorrupt(_, _, mode, _, x) =>
              "\"mode\":" + Show(Wrap32(mode)) + ", \"fraction\":" + WriteNumeral(g(x))
  {
    hide Show, WriteNumeral, Wrap32;
    KeyIs("code", "\"code\":");
    KeyIs("mode", "\"mode\":");
    KeyIs("delay_ms", "\"delay_ms\":");
    KeyIs("fraction", "\"fraction\":");
    var ns := Numbers(f, g);
    if |ns| == 2 {
      assert ns[1..] == [ns[1]];
      Two(ns[0], ns[1]);
      hide Pairs;
      if IsDelay(f) {
        Stray("\"delay_ms\":", Show(Wrap32(f.delayMs)), "\"fraction\":", WriteNumeral(g(f.fraction)));
      } else {
        Stray2("\"mode\":", Show(Wrap32(f.mode)), "\"fraction\":", WriteNumeral(g(f.fraction)));
      }
    }
  }

  lemma KeyIs(key: string, text: string)
    requires text == ['"'] + key + ['"'] + [':']
    ensures forall s :: KeyText(key, s) == text + s
  {
  }

  lemma Two(a: (string, string), b: (string, string))
    ensures Pairs([a, b]) == KeyText(a.0, a.1) + ", " + KeyText(b.0, b.1)
  {
    hide KeyText;
    assert [a, b][1..] == [b];
  }

  lemma Stray(k: string, n: string, l: string, x: string)
    requires l == "\"fraction\":"
    ensures k + (n + "d") + ", " + (l + x) == k + n + "d, \"fraction\":" + x
  {
    assert "d" + ", " + l == "d, \"fraction\":";
    assert k + (n + "d") + ", " + (l + x) == k + n + ("d" + ", " + l) + x;
  }

  lemma Stray2(k: string, n: string, l: string, x: string)
    requires l == "\"fraction\":"
    ensures k + n + ", " + (l + x) == k + n + ", \"fraction\":" + x
  {
    assert ", " + l == ", \"fraction\":";
    assert k + n + ", " + (l + x) == k + n + (", " + l) + x;
  }

  /** The text of any fault. */
  lemma UnparseText(f: Fault, g: real -> Numeral)
    ensures Unparse(f, g) ==
            "{\"type\":\"" + TypeName(f) + "\", \"prefix\":\"" + f.prefix + "\", \"suffix\":\"" + f.suffix + "\", " +
            Pairs(Numbers(f, g)) + "}"
  {
    hide TypeName;
    var kvs := Paths(f) + Numbers(f, g);
    assert kvs[3..] == Numbers(f, g);
    FourPairs(kvs);
    hide Pairs, KeyText, Quote, Numbers;
    PathText(TypeName(f), f.prefix, f.suffix, Pairs(Numbers(f, g)));
  }

  /** The text of a list: the faults in order, with a comma and a space between them. */
  lemma ListText(fs: seq<Fault>, f: Fault, g: real -> Numeral)
    ensures FaultsUnparse([], g) == "{\"faults\":[]}"
    ensures FaultsUnparse([f], g) == "{\"faults\":[" + Unparse(f, g) + "]}"
    ensures FaultsUnparse(fs, g) == "{\"faults\":[" + Listed(fs, g) + "]}"
    ensures fs != [] ==> Listed(fs + [f], g) == Listed(fs, g) + ", " + Unparse(f, g)
  {
    hide Unparse;
    assert Listed([f], g) == Unparse(f, g);
    if fs != [] {
      FaultPrinter.ListedLast(fs + [f], g);
      assert (fs + [f])[..|fs|] == fs;
    }
  }
}
