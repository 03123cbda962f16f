/**
 faults_unparse and join_strs as they are written: a list of pieces, measured and then
 copied into one buffer.
 */
module FaultPrinter {
  import opened CText
  import opened JsonGrammar
  import opened Fault
  import opened FaultText

  function Concat(strs: seq<string>): string {
    if strs == [] then [] else Concat(strs[..|strs| - 1]) + strs[|strs| - 1]
  }

  lemma ConcatAppend(strs: seq<string>, x: string)
    ensures Concat(strs + [x]) == Concat(strs) + x
  {
    assert (strs + [x])[..|strs|] == strs;
  }

  lemma ConcatNothing()
    ensures Concat([]) == []
  {
  }

  /** A C string is given by its bytes; its terminator is not among them. */
  method JoinStrs(strs: seq<string>) returns (ret: array<char>)
    ensures fresh(ret) && ret[..] == Concat(strs) + [NUL]
  {
    var len := 1;
    for i := 0 to |strs|
      invariant len == |Concat(strs[..i])| + 1
    {
      assert strs[..i + 1][..i] == strs[..i];
      len := len + |strs[i]|;
    }
    assert strs[..|strs|] == strs;
    ret := new char[len](_ => NUL);
    var s := 0;
    for i := 0 to |strs|
      invariant s == |Concat(strs[..i])| && s + 1 <= ret.Length == |Concat(strs)| + 1
      invariant ret[..s] == Concat(strs[..i]) && ret[s] == NUL
    {
      assert strs[..i + 1][..i] == strs[..i];
      PartFits(strs, i + 1);
      CopyString(ret, s, strs[i]);
      s := s + |strs[i]|;
    }
  }

  lemma {:induction false} PartFits(strs: seq<string>, i: nat)
    requires i <= |strs|
    ensures |Concat(strs[..i])| <= |Concat(strs)|
    decreases |strs| - i
  {
    if i < |strs| {
      assert strs[..i + 1][..i] == strs[..i];
      PartFits(strs, i + 1);
    } else {
      assert strs[..i] == strs;
    }
  }

  /** strcpy */
  method CopyString(a: array<char>, at: nat, str: string)
    requires at + |str| < a.Length
    modifies a
    ensures a[..] == old(a[..at]) + str + [NUL] + old(a[at + |str| + 1..])
  {
    for i := 0 to |str|
      invariant a[..at] == old(a[..at]) && a[at..at + i] == str[..i]
      invariant a[at + i..] == old(a[at + i..])
    {
      a[at + i] := str[i];
    }
    a[at + |str|] := NUL;
    assert a[..] == a[..at] + a[at..at + |str|] + [a[at + |str|]] + a[at + |str| + 1..];
  }

  /** The pieces of the list with their separators. */
  function Pieces(fs: seq<Fault>, g: real -> Numeral): seq<string> {
    if fs == [] then []
    else if |fs| == 1 then [Unparse(fs[0], g)]
    else Pieces(fs[..|fs| - 1], g) + [", ", Unparse(fs[|fs| - 1], g)]
  }

  lemma {:induction false} PiecesListed(fs: seq<Fault>, g: real -> Numeral)
    ensures Concat(Pieces(fs, g)) == Listed(fs, g)
    decreases |fs|
  {
    hide Unparse, Concat;
    ConcatNothing();
    if |fs| == 1 {
      assert Pieces(fs, g) == [] + [Unparse(fs[0], g)];
      ConcatAppend([], Unparse(fs[0], g));
    } else if |fs| > 1 {
      var n := |fs| - 1;
      PiecesListed(fs[..n], g);
      var ps, w := Pieces(fs[..n], g), Unparse(fs[n], g);
      Twice(ps, w);
      ListedLast(fs, g);
    }
  }

  lemma {:induction false} ListedLast(fs: seq<Fault>, g: real -> Numeral)
    requires |fs| > 1
    ensures Listed(fs, g) == Listed(fs[..|fs| - 1], g) + ", " + Unparse(fs[|fs| - 1], g)
    decreases |fs|
  {
    hide Unparse;
    var n := |fs| - 1;
    if |fs| == 2 {
      assert fs[1..] == [fs[1]] && fs[..1] == [fs[0]];
    } else {
      ListedLast(fs[1..], g);
      assert fs[1..][..n - 1] == fs[..n][1..];
      var a, b, c := Unparse(fs[0], g), Listed(fs[..n][1..], g), Unparse(fs[n], g);
      assert a + ", " + (b + ", " + c) == (a + ", " + b) + ", " + c;
    }
  }

  /** faults_unparse */
  method UnparseFaults(fs: seq<Fault>, g: real -> Numeral) returns (json: array<char>)
    ensures fresh(json) && json[..] == FaultsUnparse(fs, g) + [NUL]
  {
    hide Unparse, Concat;
    ghost var head := "{\"faults\":[";
    var strs := ["{\"faults\":["];
    for i := 0 to |fs|
      invariant strs == [head] + Pieces(fs[..i], g)
    {
      assert fs[..i + 1][..i] == fs[..i];
      if i != 0 {
        strs := strs + [", "];
      }
      strs := strs + [Unparse(fs[i], g)];
      assert strs == [head] + Pieces(fs[..i + 1], g);
    }
    assert fs[..|fs|] == fs;
    PiecesListed(fs, g);
    ConcatPrepend(head, Pieces(fs, g));
    ConcatAppend(strs, "]}");
    json := JoinStrs(strs + ["]}"]);
  }

  lemma {:induction false} ConcatPrepend(x: string, strs: seq<string>)
    ensures Concat([x] + strs) == x + Concat(strs)
    decreases |strs|
  {
    if strs == [] {
      assert [x] + strs == [] + [x];
      ConcatAppend([], x);
    } else {
      var n := |strs| - 1;
      assert [x] + strs == ([x] + strs[..n]) + [strs[n]];
      ConcatAppend([x] + strs[..n], strs[n]);
      ConcatPrepend(x, strs[..n]);
    }
  }

  lemma Twice(ps: seq<string>, w: string)
    ensures Concat(ps + [", ", w]) == Concat(ps) + ", " + w
  {
    hide Concat;
    assert ps + [", ", w] == (ps + [", "]) + [w];
    ConcatAppend(ps, ", ");
    ConcatAppend(ps + [", "], w);
  }
}
