/**
 What the parser returns is a tree that the release loop can take apart.
 */
module JsonFreeParsed {
  import opened JsonMachine
  import opened JsonReference
  import opened JsonLayout
  import opened JsonFree

  function Kids(v: Json): (ks: seq<Json>)
    ensures forall i :: 0 <= i < |ks| ==> ks[i] < v
  {
    match v
    case Arr(vs) => vs
    case Obj(ms) => seq(|ms|, i requires 0 <= i < |ms| => ms[i].value)
    case _ => []
  }

  /** The shape of the filled layout of v. */
  function ShapeOf(v: Json, base: nat): (t: Shape)
    ensures t.addr == base
    decreases v, 1, 0
  {
    var ks := Kids(v);
    Shape(base, v.Str? || ks != [], ShapesOf(v, ks, base + 1))
  }

  function ShapesOf(ghost whole: Json, vs: seq<Json>, base: nat): (ts: seq<Shape>)
    requires forall i :: 0 <= i < |vs| ==> vs[i] < whole
    ensures |ts| == |vs|
    decreases whole, 0, |vs|
  {
    if vs == [] then []
    else
      assert vs[0] < whole;
      [ShapeOf(vs[0], base)] + ShapesOf(whole, vs[1..], base + Size(vs[0]))
  }

  ghost predicate Within(xs: set<Ptr>, lo: int, hi: int) {
    forall x :: x in xs ==> lo <= x < hi
  }

  lemma Apart(xs: set<Ptr>, ys: set<Ptr>, lo: int, mid: int, hi: int)
    requires Within(xs, lo, mid) && Within(ys, mid, hi) && lo <= mid <= hi
    ensures xs !! ys && Within(xs + ys, lo, hi)
  {
    assert forall x :: x in xs ==> x !in ys;
  }

  /** Putting a tree before others. */
  lemma {:induction false} ConsSeparate(t: Shape, ts: seq<Shape>)
    requires Separate(t) && AllSeparate(ts) && Nodes(t) !! NodesOf(ts)
    ensures AllSeparate([t] + ts) && NodesOf([t] + ts) == Nodes(t) + NodesOf(ts)
    decreases |ts|
  {
    hide Nodes, Separate;
    var all := [t] + ts;
    if ts == [] {
      assert all[..0] == [];
    } else {
      var n := |ts| - 1;
      assert all[..n + 1] == [t] + ts[..n];
      ConsSeparate(t, ts[..n]);
    }
  }

  /** The members of an object lie like the elements of an array. */
  lemma {:induction false} MembersAreAll(ms: seq<Member>, parent: Ptr, base: nat, off: nat)
    ensures var vs := Kids(Obj(ms));
            && SizeMembers(ms) == SizeAll(vs) && FilledMembers(ms, parent, base) == FilledAll(vs, parent, base)
            && forall i :: 0 <= i < |ms| ==> Entries(ms, off, base)[i].value == Ids(vs, base)[i]
    decreases |ms|
  {
    hide FilledTree;
    if ms != [] {
      var vs := Kids(Obj(ms));
      assert vs[1..] == Kids(Obj(ms[1..]));
      MembersAreAll(ms[1..], parent, base + Size(ms[0].value), off + |ms[0].name| + 1);
    }
  }

  lemma {:induction false} TreeLaid(h: seq<Node>, v: Json, parent: Ptr, base: nat)
    requires base + Size(v) <= |h| && h[base..base + Size(v)] == FilledTree(v, parent, base)
    ensures var t := ShapeOf(v, base);
            Laid(h, parent, t) && Separate(t) && Within(Nodes(t), base, base + Size(v))
    decreases v, 1, 0
  {
    hide FilledTree, FilledAll, Size, SizeAll, Ids, Kids, ShapesOf, HasBuffer, Length, Children, FilledRoot,
         NodesOf, AllSeparate;
    Unfolded(h, v, parent, base);
    AllLaid(h, v, Kids(v), base, base + 1);
  }

  lemma Unfolded(h: seq<Node>, v: Json, parent: Ptr, base: nat)
    requires base + Size(v) <= |h| && h[base..base + Size(v)] == FilledTree(v, parent, base)
    ensures var vs := Kids(v);
            && Size(v) == 1 + SizeAll(vs) && h[base] == Node(parent, FilledRoot(v, base))
            && h[base + 1..base + 1 + SizeAll(vs)] == FilledAll(vs, base, base + 1)
            && var u := h[base].u;
               && HasBuffer(u) == (v.Str? || vs != []) && Length(u) == |vs| == |Children(u)|
               && forall i :: 0 <= i < |vs| ==> Children(u)[i] == Ids(vs, base + 1)[i]
  {
    hide FilledAll, FilledMembers, SizeAll, SizeMembers, Ids, Entries, NameArea;
    if v.Obj? {
      MembersAreAll(v.members, base, base + 1, 0);
    }
    assert h[base] == h[base..base + Size(v)][0];
    var vs := Kids(v);
    if v.Obj? || v.Arr? {
      SliceSplit(h, base, [h[base]], FilledAll(vs, base, base + 1));
    } else {
      assert h[base + 1..base + 1] == [];
      assert FilledAll([], base, base + 1) == [] && SizeAll([]) == 0 by { Nothing(base); }
    }
  }

  lemma Nothing(base: nat)
    ensures FilledAll([], base, base + 1) == [] && SizeAll([]) == 0
  {
  }

  lemma NoShapes()
    ensures AllSeparate([]) && NodesOf([]) == {}
  {
  }

  lemma {:induction false} AllLaid(h: seq<Node>, whole: Json, vs: seq<Json>, parent: Ptr, base: nat)
    requires forall i :: 0 <= i < |vs| ==> vs[i] < whole
    requires base + SizeAll(vs) <= |h| && h[base..base + SizeAll(vs)] == FilledAll(vs, parent, base)
    ensures var ts := ShapesOf(whole, vs, base);
            && AllSeparate(ts) && Within(NodesOf(ts), base, base + SizeAll(vs))
            && forall i :: 0 <= i < |vs| ==> ts[i].addr == Ids(vs, base)[i] && Laid(h, parent, ts[i])
    decreases whole, 0, |vs|
  {
    hide FilledTree, Laid, ShapeOf, Nodes, Separate, NodesOf, AllSeparate;
    NoShapes();
    if vs != [] {
      assert vs[0] < whole;
      var k := base + Size(vs[0]);
      SliceSplit(h, base, FilledTree(vs[0], parent, base), FilledAll(vs[1..], parent, k));
      TreeLaid(h, vs[0], parent, base);
      AllLaid(h, whole, vs[1..], parent, k);
      Apart(Nodes(ShapeOf(vs[0], base)), NodesOf(ShapesOf(whole, vs[1..], k)), base, k, base + SizeAll(vs));
      ConsSeparate(ShapeOf(vs[0], base), ShapesOf(whole, vs[1..], k));
    }
  }

  /** The parser's result is released completely: as many nodes as the tree has values. */
  method FreeParsed(h: seq<Node>, ghost v: Json) returns (log: seq<Event>)
    requires h == FilledTree(v, NULL, 0)
    ensures log == Order(ShapeOf(v, 0)) && multiset(log) == multiset(Owned(ShapeOf(v, 0)))
  {
    hide FilledTree, Laid, Order, Owned, Separate;
    assert h[0..Size(v)] == h;
    TreeLaid(h, v, NULL, 0);
    ghost var t := ShapeOf(v, 0);
    assert h[0].parent == NULL by { LaidParent(h, NULL, t); }
    var rest;
    rest, log := FreeEx(h, 0, t);
  }
}
