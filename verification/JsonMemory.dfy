/**
 What a client of json_parse_ex finds behind the returned pointer.
 */
module JsonMemory {
  import opened CText
  import opened JsonMachine
  import opened JsonReference
  import opened JsonLayout

  /** Following parent, values and name pointers from `a` one reads the tree `v`. */
  ghost predicate Represents(h: seq<Node>, a: Ptr, parent: Ptr, v: Json)
    decreases v
  {
    && 0 <= a < |h| && h[a].parent == parent
    && var u := h[a].u;
       match v
       case Null => u == PNull
       case Bool(b) => u == PBool(b)
       case Int(i) => u == PInt(i)
       case Dbl(r) => u == PDbl(r)
       case Str(s) => u == PStr(|s|, s + [NUL])
       case Arr(vs) =>
         && u.PArr? && u.length == |vs| == |u.slots|
         && forall i :: 0 <= i < |vs| ==> Represents(h, u.slots[i], a, vs[i])
       case Obj(ms) =>
         && u.PObj? && u.length == |ms|
         && (ms != [] ==>
               && u.values.Allocated? && |u.values.entries| == |ms|
               && forall i :: 0 <= i < |ms| ==>
                    && NameAt(u.values.names, u.values.entries[i], ms[i].name)
                    && Represents(h, u.values.entries[i].value, a, ms[i].value))
  }

  /** The entry's name pointer leads to `name` and its terminator. */
  predicate NameAt(names: string, e: Entry, name: string) {
    && e.nameLength == |name| && e.name + |name| < |names|
    && names[e.name..e.name + |name|] == name && names[e.name + |name|] == NUL
  }

  /** Memory determines the tree. */
  lemma {:induction false} RepresentsOne(h: seq<Node>, a: Ptr, parent: Ptr, v: Json, w: Json)
    requires Represents(h, a, parent, v) && Represents(h, a, parent, w)
    ensures v == w
    decreases v
  {
    match v
    case Arr(vs) =>
      var ws := w.elems;
      assert |ws| == |vs|;
      forall i | 0 <= i < |vs| ensures vs[i] == ws[i] {
        RepresentsOne(h, h[a].u.slots[i], a, vs[i], ws[i]);
      }
    case Obj(ms) =>
      var ns := w.members;
      assert |ns| == |ms|;
      forall i | 0 <= i < |ms| ensures ms[i] == ns[i] {
        RepresentsOne(h, h[a].u.values.entries[i].value, a, ms[i].value, ns[i].value);
      }
    case Str(s) =>
      assert (s + [NUL])[..|s|] == s && (w.s + [NUL])[..|s|] == w.s;
    case _ =>
  }

  lemma {:induction false} TreeRepresents(h: seq<Node>, v: Json, parent: Ptr, base: nat)
    requires base + Size(v) <= |h| && h[base..base + Size(v)] == FilledTree(v, parent, base)
    ensures Represents(h, base, parent, v)
    decreases v
  {
    hide FilledAll, FilledMembers, SizeAll, SizeMembers, Ids, Entries, NameArea, NameAt;
    assert h[base] == h[base..base + Size(v)][0];
    match v
    case Arr(vs) =>
      SliceSplit(h, base, [h[base]], FilledAll(vs, base, base + 1));
      AllRepresent(h, vs, base, base + 1);
    case Obj(ms) =>
      SliceSplit(h, base, [h[base]], FilledMembers(ms, base, base + 1));
      MembersRepresent(h, ms, base, base + 1, 0);
      var names := NameArea(ms);
      assert names[0..|names|] == names;
      NamesRepresent(names, ms, 0, base + 1);
    case _ =>
  }

  lemma {:induction false} AllRepresent(h: seq<Node>, vs: seq<Json>, parent: Ptr, base: nat)
    requires base + SizeAll(vs) <= |h| && h[base..base + SizeAll(vs)] == FilledAll(vs, parent, base)
    ensures forall i :: 0 <= i < |vs| ==> Represents(h, Ids(vs, base)[i], parent, vs[i])
    decreases vs
  {
    hide Represents, FilledTree;
    if vs != [] {
      var k := base + Size(vs[0]);
      SliceSplit(h, base, FilledTree(vs[0], parent, base), FilledAll(vs[1..], parent, k));
      TreeRepresents(h, vs[0], parent, base);
      AllRepresent(h, vs[1..], parent, k);
      forall i | 0 < i < |vs| ensures Represents(h, Ids(vs, base)[i], parent, vs[i]) {
        assert Ids(vs, base)[i] == Ids(vs[1..], k)[i - 1] && vs[i] == vs[1..][i - 1];
      }
    }
  }

  lemma {:induction false} MembersRepresent(h: seq<Node>, ms: seq<Member>, parent: Ptr, base: nat, off: nat)
    requires base + SizeMembers(ms) <= |h| && h[base..base + SizeMembers(ms)] == FilledMembers(ms, parent, base)
    ensures forall i :: 0 <= i < |ms| ==> Represents(h, Entries(ms, off, base)[i].value, parent, ms[i].value)
    decreases ms
  {
    hide Represents, FilledTree, Entries;
    if ms != [] {
      var k, o := base + Size(ms[0].value), off + |ms[0].name| + 1;
      SliceSplit(h, base, FilledTree(ms[0].value, parent, base), FilledMembers(ms[1..], parent, k));
      TreeRepresents(h, ms[0].value, parent, base);
      MembersRepresent(h, ms[1..], parent, k, o);
      EntryShift(ms, off, base);
      forall i | 0 < i < |ms| ensures Represents(h, Entries(ms, off, base)[i].value, parent, ms[i].value) {
        assert ms[i] == ms[1..][i - 1];
      }
    }
  }

  lemma EntryShift(ms: seq<Member>, off: nat, base: nat)
    requires ms != []
    ensures Entries(ms, off, base)[0] == Entry(off, |ms[0].name|, base)
    ensures forall i :: 0 < i < |ms| ==>
              Entries(ms, off, base)[i] == Entries(ms[1..], off + |ms[0].name| + 1, base + Size(ms[0].value))[i - 1]
  {
  }

  lemma {:induction false} NamesRepresent(names: string, ms: seq<Member>, off: nat, base: nat)
    requires off + NameBytes(ms) <= |names| && names[off..off + NameBytes(ms)] == NameArea(ms)
    ensures forall i :: 0 <= i < |ms| ==> NameAt(names, Entries(ms, off, base)[i], ms[i].name)
    decreases ms
  {
    hide NameAt, Entries, NameArea, NameBytes;
    if ms != [] {
      var k, o := base + Size(ms[0].value), off + |ms[0].name| + 1;
      FirstName(names, ms, off, base);
      NamesRepresent(names, ms[1..], o, k);
      EntryShift(ms, off, base);
      forall i | 0 < i < |ms| ensures NameAt(names, Entries(ms, off, base)[i], ms[i].name) {
        assert ms[i] == ms[1..][i - 1];
      }
    }
  }

  lemma FirstName(names: string, ms: seq<Member>, off: nat, base: nat)
    requires ms != [] && off + NameBytes(ms) <= |names| && names[off..off + NameBytes(ms)] == NameArea(ms)
    ensures NameAt(names, Entry(off, |ms[0].name|, base), ms[0].name)
    ensures var o := off + |ms[0].name| + 1;
            o + NameBytes(ms[1..]) <= |names| && names[o..o + NameBytes(ms[1..])] == NameArea(ms[1..])
  {
    Terminated(names, off, ms[0].name, NameArea(ms[1..]));
  }

  lemma Terminated(names: string, off: nat, name: string, rest: string)
    requires var n := |name| + 1 + |rest|; off + n <= |names| && names[off..off + n] == name + [NUL] + rest
    ensures names[off..off + |name|] == name
    ensures names[off + |name|] == NUL
    ensures var o := off + |name| + 1; names[o..o + |rest|] == rest
  {
    var area := names[off..off + |name| + 1 + |rest|];
    assert area[..|name|] == name && area[|name|] == NUL && area[|name| + 1..] == rest;
  }
}
