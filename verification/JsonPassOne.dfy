/**
 The first pass accepts exactly what the reference accepts, and then leaves the counted
 layout of the tree in the arena.
 */
module JsonPassOne {
  import opened CText
  import opened JsonEscape
  import opened JsonMachine
  import opened JsonReference
  import opened JsonLayout
  import opened JsonNumbers

  /** Bookkeeping between values: the allocation list is the arena in order. */
  predicate Tidy(s: State) {
    && s.reserved == Chain(|s.heap|)
    && s.alloc == |s.heap| - 1
    && s.root == (if s.heap == [] then NULL else 0)
    && (s.heap == [] ==> s.top == NULL)
    && (s.heap != [] ==>
          && 0 <= s.top < |s.heap|
          && (s.heap[s.top].u.PArr? || (s.heap[s.top].u.PObj? && s.heap[s.top].u.values.Counted?)))
  }

  /** A container with n more elements. */
  function Grown(u: Payload, n: nat): Payload {
    match u
    case PArr(k, slots) => PArr(k + n, slots)
    case PObj(k, values) => PObj(k + n, values)
    case _ => u
  }

  function ModeIn(u: Payload): Mode {
    if u.PArr? then Seek(true, false) else InObject(true)
  }

  /** The state after the value `v` that ends before `q`. */
  function After(s: State, v: Json, q: nat): State
    requires Tidy(s)
  {
    var tree := CountedTree(v, s.top, |s.heap|);
    var h := if s.heap == [] then tree
             else s.heap[s.top := s.heap[s.top].(u := Grown(s.heap[s.top].u, 1))] + tree;
    State(q, if s.heap == [] then Finished else ModeIn(s.heap[s.top].u),
          if s.heap == [] then 0 else s.top, 0, |h| - 1, h, Chain(|h|))
  }

  lemma AllocateTidy(s: State, u: Payload)
    requires Tidy(s)
    ensures var z := Allocate(s, u);
            && z.heap == s.heap + [Node(s.top, u)] && z.top == |s.heap| && z.root == 0 && z.alloc == |s.heap|
            && z.reserved == Chain(|s.heap| + 1) && z.p == s.p && z.mode == s.mode
  {
    assert Allocate(s, u).reserved == Chain(|s.heap| + 1);
  }

  /** Whatever the kind of value: handing a finished tree to its parent. */
  lemma NextDone(s: State, v: Json, z: State)
    requires Tidy(s)
    requires z.heap == s.heap + CountedTree(v, s.top, |s.heap|)
    requires z.top == |s.heap| && z.root == 0 && z.alloc == |z.heap| - 1 && z.reserved == Chain(|z.heap|)
    ensures Next(true, z) == Running(After(s, v, z.p))
  {
    var tree := CountedTree(v, s.top, |s.heap|);
    assert z.heap[z.top] == tree[0];
    assert tree[0].parent == s.top;
    if s.heap != [] {
      var u := s.heap[s.top].u;
      assert z.heap[s.top] == s.heap[s.top];
      assert Attach(true, u, z.top) == Some(Grown(u, 1));
      assert z.heap[s.top := s.heap[s.top].(u := Grown(u, 1))]
             == s.heap[s.top := s.heap[s.top].(u := Grown(u, 1))] + tree;
    } else {
      assert z.heap == tree;
    }
  }

  // ---- strings

  lemma {:induction false} StringRun(t: string, s: State, len: nat)
    requires s.p <= |t| && s.mode == InString(false, len)
    ensures var r := StringBody(t, s.p);
            Run(t, true, s) ==
            if r.None? then Rejected
            else Run(t, true, s.(p := r.value.next - 1, mode := InString(false, len + |r.value.v|)))
    decreases |t| - s.p
  {
    hide Run, Escape, EndString;
    var b := At(t, s.p);
    if b == NUL {
      RunStep(t, true, s);
    } else if b == '"' {
      assert s.(p := s.p, mode := InString(false, len)) == s;
    } else if b != '\\' {
      RunStep(t, true, s);
      StringRun(t, s.(p := s.p + 1, mode := InString(false, len + 1)), len + 1);
    } else {
      RunStep(t, true, s);
      var s1 := s.(p := s.p + 1, mode := InString(true, len));
      RunStep(t, true, s1);
      if At(t, s.p + 1) != NUL && Escape(t, s.p + 1).Some? {
        var e := Escape(t, s.p + 1).value;
        EscapeCount(t, s.p + 1);
        StringRun(t, s.(p := e.next, mode := InString(false, len + e.count)), len + e.count);
      }
    }
  }

  // ---- containers

  /** The state in which the container `top`, grown by `n` and followed by `kids`, is about to be handed on. */
  function Closed(s: State, u: Payload, kids: seq<Node>, q: nat): State
    requires Tidy(s) && s.heap != []
  {
    var h := s.heap[s.top := s.heap[s.top].(u := u)] + kids;
    State(q, Finished, s.top, 0, |h| - 1, h, Chain(|h|))
  }

  function ClosedArray(s: State, vs: seq<Json>, q: nat): State
    requires Tidy(s) && s.heap != []
  {
    Closed(s, Grown(s.heap[s.top].u, |vs|), CountedAll(vs, s.top, |s.heap|), q)
  }

  function WithMembers(u: Payload, ms: seq<Member>): Payload {
    match u
    case PObj(k, Counted(bytes)) => PObj(k + |ms|, Values.Counted(bytes + NameBytes(ms)))
    case _ => u
  }

  function ClosedObject(s: State, ms: seq<Member>, q: nat): State
    requires Tidy(s) && s.heap != []
  {
    Closed(s, WithMembers(s.heap[s.top].u, ms), CountedMembers(ms, s.top, |s.heap|), q)
  }

  lemma AfterTidy(s: State, v: Json, q: nat)
    requires Tidy(s)
    ensures s.heap != [] ==>
              var z := After(s, v, q);
              && Tidy(z) && z.heap != [] && z.top == s.top && z.p == q && z.mode == ModeIn(s.heap[s.top].u)
              && z.heap[z.top].u == Grown(s.heap[s.top].u, 1)
              && |z.heap| == |s.heap| + Size(v)
  {
  }

  /** Replacing a node before or after appending trees. */
  lemma Regrow(h: seq<Node>, a: nat, x: Node, y: Node, g: Node, tree: seq<Node>, rest: seq<Node>)
    requires a < |h|
    ensures (h[a := x][a := y] + tree)[a := g] + rest == h[a := g] + (tree + rest)
  {
  }

  lemma ArrayCons(s: State, v: Json, q1: nat, vs: seq<Json>, q: nat)
    requires Tidy(s) && s.heap != [] && s.heap[s.top].u.PArr?
    requires Tidy(After(s, v, q1))
    ensures ClosedArray(After(s, v, q1), vs, q) == ClosedArray(s, [v] + vs, q)
  {
    var z := After(s, v, q1);
    AfterTidy(s, v, q1);
    assert ([v] + vs)[1..] == vs;
    var tree := CountedTree(v, s.top, |s.heap|);
    var rest := CountedAll(vs, s.top, |z.heap|);
    assert CountedAll([v] + vs, s.top, |s.heap|) == tree + rest;
    var node := s.heap[s.top];
    var g := node.(u := Grown(node.u, 1 + |vs|));
    assert s.heap[s.top := node] == s.heap;
    Regrow(s.heap, s.top, node, node.(u := Grown(node.u, 1)), g, tree, rest);
  }

  lemma ClosedNothing(s: State, q: nat)
    requires Tidy(s) && s.heap != []
    ensures ClosedArray(s, [], q) == s.(p := q, mode := Finished)
    ensures ClosedObject(s, [], q) == s.(p := q, mode := Finished)
  {
    assert s.heap[s.top := s.heap[s.top]] == s.heap;
  }

  lemma {:induction false} ElementsRun(t: string, s: State, needComma: bool)
    requires Tidy(s) && s.heap != [] && s.heap[s.top].u.PArr?
    requires s.p <= |t| && s.mode == Seek(needComma, false)
    ensures var r := Elements(t, s.p, needComma);
            Run(t, true, s) ==
            if r.None? then Rejected
            else Continue(t, true, Next(true, ClosedArray(s, r.value.v, r.value.next)))
    decreases |t| - s.p, 3
  {
    hide Run, Next, ClosedArray, Value, After, StartValue;
    if s.p == |t| {
      ElementsAtEnd(t, s, needComma);
    } else {
      var b := t[s.p];
      if !IsSpace(b) && b != ']' && !needComma {
        ValueRun(t, s);
        var v := Value(t, s.p);
        if v.Some? {
          var z := After(s, v.value.v, v.value.next);
          AfterTidy(s, v.value.v, v.value.next);
          ElementsRun(t, z, true);
          var vs := Elements(t, v.value.next, true);
          if vs.Some? {
            ArrayCons(s, v.value.v, v.value.next, vs.value.v, vs.value.next);
          }
        }
      } else {
        RunStep(t, true, s);
        if IsSpace(b) {
          ClosedElsewhere(s, s.(p := s.p + 1));
          ElementsRun(t, s.(p := s.p + 1), needComma);
        } else if b == ']' {
          ClosedNothing(s, s.p + 1);
          NextModeless(true, s.(p := s.p + 1), Finished);
        } else if b == ',' {
          ClosedElsewhere(s, s.(p := s.p + 1, mode := Seek(false, false)));
          ElementsRun(t, s.(p := s.p + 1, mode := Seek(false, false)), false);
        }
      }
    }
  }

  lemma ClosedElsewhere(s: State, z: State)
    requires Tidy(s) && s.heap != []
    requires z == s.(p := z.p, mode := z.mode)
    ensures Tidy(z)
    ensures forall vs, q :: ClosedArray(z, vs, q) == ClosedArray(s, vs, q)
    ensures forall ms, q :: ClosedObject(z, ms, q) == ClosedObject(s, ms, q)
  {
  }

  lemma ElementsAtEnd(t: string, s: State, needComma: bool)
    requires s.p == |t| && s.mode == Seek(needComma, false)
    ensures Run(t, true, s) == Rejected
  {
    hide Run, Next;
    RunStep(t, true, s);
  }

  // ---- object members

  /** After a member name of `len` bytes whose closing quote is before `q`. */
  function Named(s: State, len: nat, q: nat): State
    requires Tidy(s) && s.heap != [] && s.heap[s.top].u.PObj?
  {
    var n := s.heap[s.top];
    s.(p := q, mode := Seek(false, true),
       heap := s.heap[s.top := n.(u := PObj(n.u.length, Values.Counted(n.u.values.bytes + len + 1)))])
  }

  lemma {:induction false} NameRun(t: string, s: State)
    requires Tidy(s) && s.heap != [] && s.heap[s.top].u.PObj?
    requires s.p < |t| && t[s.p] == '"' && s.mode == InObject(false)
    ensures var r := StringBody(t, s.p + 1);
            Run(t, true, s) ==
            if r.None? then Rejected else Run(t, true, Named(s, |r.value.v|, r.value.next))
  {
    hide Run, Step, StringBody, Named;
    NameOpens(t, s);
    RunStep(t, true, s);
    StringRun(t, s.(p := s.p + 1, mode := InString(false, 0)), 0);
    var r := StringBody(t, s.p + 1);
    if r.Some? {
      var n, q := |r.value.v|, r.value.next;
      NameCloses(t, s, n, q);
      RunStep(t, true, s.(p := q - 1, mode := InString(false, n)));
    }
  }

  lemma NameOpens(t: string, s: State)
    requires Tidy(s) && s.heap != [] && s.heap[s.top].u.PObj?
    requires s.p < |t| && t[s.p] == '"' && s.mode == InObject(false)
    ensures Step(t, true, s) == Running(s.(p := s.p + 1, mode := InString(false, 0)))
  {
    hide Next, Chain;
  }

  lemma NameCloses(t: string, s: State, n: nat, q: nat)
    requires Tidy(s) && s.heap != [] && s.heap[s.top].u.PObj?
    requires 0 < q <= |t| && t[q - 1] == '"'
    ensures Step(t, true, s.(p := q - 1, mode := InString(false, n))) == Running(Named(s, n, q))
  {
    hide Next, Chain;
    var y := s.(p := q - 1, mode := InString(false, n));
    assert Step(t, true, y) == EndString(true, y, n);
  }

  lemma {:induction false} ColonRun(t: string, s: State)
    requires Tidy(s) && s.heap != [] && s.heap[s.top].u.PObj?
    requires s.p <= |t| && s.mode == Seek(false, true)
    ensures var c := Colon(t, s.p);
            Run(t, true, s) == if c.None? then Rejected else Run(t, true, s.(p := c.value, mode := Seek(false, false)))
    decreases |t| - s.p
  {
    hide Run, Next, Chain;
    RunStep(t, true, s);
    if s.p < |t| && IsSpace(t[s.p]) {
      ColonRun(t, s.(p := s.p + 1));
    }
  }

  lemma ObjectCons(s: State, name: string, c: nat, v: Json, q1: nat, ms: seq<Member>, q: nat)
    requires Tidy(s) && s.heap != [] && s.heap[s.top].u.PObj?
    requires var n := Named(s, |name|, c).(mode := Seek(false, false)); Tidy(n) && Tidy(After(n, v, q1))
    ensures var n := Named(s, |name|, c).(mode := Seek(false, false));
            ClosedObject(After(n, v, q1), ms, q) == ClosedObject(s, [Member(name, v)] + ms, q)
  {
    hide Chain, Size;
    var n := Named(s, |name|, c).(mode := Seek(false, false));
    var z := After(n, v, q1);
    AfterTidy(n, v, q1);
    var all := [Member(name, v)] + ms;
    assert all[1..] == ms;
    var tree := CountedTree(v, s.top, |s.heap|);
    var rest := CountedMembers(ms, s.top, |z.heap|);
    assert CountedMembers(all, s.top, |s.heap|) == tree + rest;
    assert NameBytes(all) == |name| + 1 + NameBytes(ms);
    var node := s.heap[s.top];
    var g := node.(u := WithMembers(node.u, all));
    Regrow(s.heap, s.top, n.heap[s.top], node.(u := Grown(n.heap[s.top].u, 1)), g, tree, rest);
  }

  lemma {:induction false} MembersRun(t: string, s: State, needComma: bool)
    requires Tidy(s) && s.heap != [] && s.heap[s.top].u.PObj?
    requires s.p <= |t| && s.mode == InObject(needComma)
    ensures var r := Members(t, s.p, needComma);
            Run(t, true, s) ==
            if r.None? then Rejected
            else Continue(t, true, Next(true, ClosedObject(s, r.value.v, r.value.next)))
    decreases |t| - s.p, 3
  {
    hide Run, Next, ClosedObject, Value, After, StringBody, Colon;
    if s.p < |t| && t[s.p] == '"' && !needComma {
      MemberRun(t, s);
    } else {
      RunStep(t, true, s);
      if s.p < |t| {
        var b := t[s.p];
        if IsSpace(b) {
          ClosedElsewhere(s, s.(p := s.p + 1));
          MembersRun(t, s.(p := s.p + 1), needComma);
        } else if b == '}' {
          ClosedNothing(s, s.p + 1);
          NextModeless(true, s.(p := s.p + 1), Finished);
        } else if b == ',' && needComma {
          ClosedElsewhere(s, s.(p := s.p + 1, mode := InObject(false)));
          MembersRun(t, s.(p := s.p + 1, mode := InObject(false)), false);
        }
      }
    }
  }

  /** One member and those after it. */
  lemma {:induction false} MemberRun(t: string, s: State)
    requires Tidy(s) && s.heap != [] && s.heap[s.top].u.PObj?
    requires s.p < |t| && t[s.p] == '"' && s.mode == InObject(false)
    ensures var r := Members(t, s.p, false);
            Run(t, true, s) ==
            if r.None? then Rejected
            else Continue(t, true, Next(true, ClosedObject(s, r.value.v, r.value.next)))
    decreases |t| - s.p, 2
  {
    hide Run, Next, ClosedObject, Value, After, StringBody, Colon, Step, Continue;
    NameRun(t, s);
    var name := StringBody(t, s.p + 1);
    if name.Some? {
      var n := Named(s, |name.value.v|, name.value.next);
      ColonRun(t, n);
      var c := Colon(t, name.value.next);
      if c.Some? {
        var n' := n.(p := c.value, mode := Seek(false, false));
        assert n' == Named(s, |name.value.v|, c.value).(mode := Seek(false, false));
        ValueRun(t, n');
        var v := Value(t, c.value);
        if v.Some? {
          var z := After(n', v.value.v, v.value.next);
          AfterTidy(n', v.value.v, v.value.next);
          MembersRun(t, z, true);
          var ms := Members(t, v.value.next, true);
          if ms.Some? {
            ObjectCons(s, name.value.v, c.value, v.value.v, v.value.next, ms.value.v, ms.value.next);
          }
        }
      }
    }
  }

  // ---- values

  lemma {:induction false} ValueRun(t: string, s: State)
    requires Tidy(s) && s.p <= |t| && s.mode == Seek(false, false)
    requires s.heap != [] && s.heap[s.top].u.PArr? ==> s.p < |t| && !IsSpace(t[s.p]) && t[s.p] != ']'
    ensures var r := Value(t, s.p);
            Run(t, true, s) == if r.None? then Rejected else Run(t, true, After(s, r.value.v, r.value.next))
    decreases |t| - s.p, 1
  {
    hide Run, Step, Tidy, After, Elements, Members, StringBody, Number, Keyword;
    if s.p == |t| {
      ElementsAtEnd(t, s, false);
    } else {
      var b := t[s.p];
      if IsSpace(b) {
        SpaceRun(t, s);
        ValueRun(t, s.(p := s.p + 1));
      } else if b == '{' {
        ObjectRun(t, s);
      } else if b == '[' {
        ArrayRun(t, s);
      } else if b == '"' {
        StringValueRun(t, s);
      } else if b == '-' || IsDigit(b) {
        NoKeyword(t, s.p);
        NumberValueRun(t, s);
      } else {
        LiteralRun(t, s);
      }
    }
  }

  lemma SpaceRun(t: string, s: State)
    requires Tidy(s) && s.p < |t| && s.mode == Seek(false, false) && IsSpace(t[s.p])
    ensures Tidy(s.(p := s.p + 1))
    ensures Run(t, true, s) == Run(t, true, s.(p := s.p + 1))
    ensures forall v, q :: After(s.(p := s.p + 1), v, q) == After(s, v, q)
  {
    hide Run, Next, StartValue;
    RunStep(t, true, s);
  }

  lemma {:induction false} ArrayRun(t: string, s: State)
    requires Tidy(s) && s.p < |t| && s.mode == Seek(false, false) && t[s.p] == '['
    ensures var r := Elements(t, s.p + 1, false);
            Run(t, true, s) == if r.None? then Rejected else Run(t, true, After(s, Arr(r.value.v), r.value.next))
    decreases |t| - s.p, 0
  {
    hide Run, Next, Elements, After;
    RunStep(t, true, s);
    AllocateTidy(s, PArr(0, []));
    var z := Allocate(s, PArr(0, [])).(p := s.p + 1, mode := Seek(false, false));
    ElementsRun(t, z, false);
    var r := Elements(t, s.p + 1, false);
    if r.Some? {
      var c := ClosedArray(z, r.value.v, r.value.next);
      assert c.heap == s.heap + CountedTree(Arr(r.value.v), s.top, |s.heap|);
      NextDone(s, Arr(r.value.v), c);
    }
  }

  lemma {:induction false} ObjectRun(t: string, s: State)
    requires Tidy(s) && s.p < |t| && s.mode == Seek(false, false) && t[s.p] == '{'
    ensures var r := Members(t, s.p + 1, false);
            Run(t, true, s) == if r.None? then Rejected else Run(t, true, After(s, Obj(r.value.v), r.value.next))
    decreases |t| - s.p, 0
  {
    hide Run, Next, Members, After;
    RunStep(t, true, s);
    var u := PObj(0, Values.Counted(0));
    AllocateTidy(s, u);
    var z := Allocate(s, u).(p := s.p + 1, mode := InObject(false));
    MembersRun(t, z, false);
    var r := Members(t, s.p + 1, false);
    if r.Some? {
      var c := ClosedObject(z, r.value.v, r.value.next);
      assert c.heap == s.heap + CountedTree(Obj(r.value.v), s.top, |s.heap|);
      NextDone(s, Obj(r.value.v), c);
    }
  }

  lemma {:induction false} StringValueRun(t: string, s: State)
    requires Tidy(s) && s.p < |t| && s.mode == Seek(false, false) && t[s.p] == '"'
    ensures var r := StringBody(t, s.p + 1);
            Run(t, true, s) == if r.None? then Rejected else Run(t, true, After(s, Str(r.value.v), r.value.next))
  {
    hide Run, Next, StringBody, After;
    RunStep(t, true, s);
    AllocateTidy(s, PStr(0, []));
    var z := Allocate(s, PStr(0, [])).(p := s.p + 1, mode := InString(false, 0));
    StringRun(t, z, 0);
    var r := StringBody(t, s.p + 1);
    if r.Some? {
      var len := |r.value.v|;
      var y := z.(p := r.value.next - 1, mode := InString(false, len));
      RunStep(t, true, y);
      var c := y.(p := r.value.next, heap := y.heap[y.top := y.heap[y.top].(u := PStr(len, []))]);
      assert c.heap == s.heap + CountedTree(Str(r.value.v), s.top, |s.heap|);
      NextDone(s, Str(r.value.v), c);
    }
  }

  lemma {:induction false} NumberValueRun(t: string, s: State)
    requires Tidy(s) && s.p < |t| && s.mode == Seek(false, false) && (t[s.p] == '-' || IsDigit(t[s.p]))
    ensures var r := Number(t, s.p);
            Run(t, true, s) == if r.None? then Rejected else Run(t, true, After(s, r.value.v, r.value.next))
  {
    hide Run, Next, Number, After;
    RunStep(t, true, s);
    AllocateTidy(s, PInt(0));
    var z := Allocate(s, PInt(0));
    var d := if t[s.p] == '-' then s.p + 1 else s.p;
    assert z.heap[z.top := z.heap[z.top].(u := PInt(0))] == z.heap;
    NumberRun(t, z, s.p);
    NumberIsNumber(t, s.p);
    var r := Number(t, s.p);
    if r.Some? {
      var c := Holding(z, r.value.next, NumberPayload(r.value.v));
      assert c.heap == s.heap + CountedTree(r.value.v, s.top, |s.heap|);
      NextDone(s, r.value.v, c);
    }
  }

  lemma NumberIsNumber(t: string, p: nat)
    requires p < |t| && (t[p] == '-' || IsDigit(t[p]))
    ensures Number(t, p).Some? ==> Number(t, p).value.v.Int? || Number(t, p).value.v.Dbl?
  {
    hide Fraction, Exponent, Decimal, Wrap64, Scale;
  }

  /** true, false, null, and everything that starts no value. */
  lemma {:induction false} LiteralRun(t: string, s: State)
    requires Tidy(s) && s.p < |t| && s.mode == Seek(false, false)
    requires var b := t[s.p]; !IsSpace(b) && b !in "{[\"-" && !IsDigit(b)
    requires t[s.p] == ']' ==> s.heap == [] || !s.heap[s.top].u.PArr?
    ensures Run(t, true, s) ==
            if Keyword(t, s.p, "true") then Run(t, true, After(s, Bool(true), s.p + 4))
            else if Keyword(t, s.p, "false") then Run(t, true, After(s, Bool(false), s.p + 5))
            else if Keyword(t, s.p, "null") then Run(t, true, After(s, Null, s.p + 4))
            else Rejected
  {
    hide Run, Next, After, Allocate, Spells, Keyword;
    RunStep(t, true, s);
    SpellsKeyword(t, s.p, 't', "rue");
    SpellsKeyword(t, s.p, 'f', "alse");
    SpellsKeyword(t, s.p, 'n', "ull");
    assert ['t'] + "rue" == "true" && ['f'] + "alse" == "false" && ['n'] + "ull" == "null";
    if t[s.p] == 't' {
      LiteralNode(t, s, true, PBool(false), Bool(true), 4);
    } else if t[s.p] == 'f' {
      LiteralNode(t, s, false, PBool(false), Bool(false), 5);
    } else if t[s.p] == 'n' {
      LiteralNode(t, s, false, PNull, Null, 4);
    }
  }

  lemma LiteralNode(t: string, s: State, truth: bool, u: Payload, v: Json, width: nat)
    requires Tidy(s) && (v.Bool? || v.Null?)
    requires CountedRoot(v) == if truth then PBool(true) else u
    ensures Literal(true, s, truth, u, width) == Running(After(s, v, s.p + width))
  {
    hide Next, After, Allocate;
    AllocateTidy(s, u);
    var z := Allocate(s, u);
    var c := z.(p := s.p + width, heap := z.heap[z.top := z.heap[z.top].(u := CountedRoot(v))]);
    assert c.heap == s.heap + CountedTree(v, s.top, |s.heap|);
    NextDone(s, v, c);
  }

  lemma SpellsKeyword(t: string, p: nat, c: char, rest: string)
    requires p < |t| && NUL !in rest
    ensures Keyword(t, p, [c] + rest) <==> t[p] == c && Spells(t, p, rest)
  {
    if t[p] == c && Spells(t, p, rest) {
      assert forall i :: 0 <= i < |rest| ==> rest[i] in rest;
      if |rest| > 0 {
        assert At(t, p + 1 + (|rest| - 1)) == rest[|rest| - 1];
      }
      assert t[p..][..|rest| + 1] == [c] + rest;
    }
    if Keyword(t, p, [c] + rest) {
      assert t[p..][0] == ([c] + rest)[0];
      forall i | 0 <= i < |rest| ensures At(t, p + 1 + i) == rest[i] {
        assert t[p..][i + 1] == ([c] + rest)[i + 1];
      }
    }
  }

  // ---- the pass

  const START := State(0, Seek(false, false), NULL, NULL, NULL, [], [])

  lemma {:induction false} TrailingSpace(t: string, s: State)
    requires s.mode == Finished && s.p <= |t|
    ensures var q := SkipSpace(t, s.p);
            Run(t, true, s) == if At(t, q) == NUL then Accepted(s.(p := q)) else Rejected
    decreases |t| - s.p
  {
    hide Run;
    RunStep(t, true, s);
    if s.p < |t| && IsSpace(t[s.p]) {
      TrailingSpace(t, s.(p := s.p + 1));
    }
  }

  /** The arena after an accepting first pass over a text of `v`. */
  function Counted(v: Json, q: nat): State {
    var h := CountedTree(v, NULL, 0);
    State(q, Finished, 0, 0, |h| - 1, h, Chain(|h|))
  }

  /**
   For every text, NUL bytes included: the first pass rejects it exactly when the reference
   does, never makes a bad memory access, and otherwise leaves the counted layout of the
   reference's tree, with the allocation list in text order.
   */
  lemma PassOneCorrect(t: string)
    ensures var o := Run(t, true, START);
            match Document(t)
            case None => o == Rejected
            case Some(v) => o == Accepted(Counted(v, SkipSpace(t, Value(t, 0).value.next)))
  {
    hide Run, Value;
    ValueRun(t, START);
    var r := Value(t, 0);
    if r.Some? {
      TrailingSpace(t, After(START, r.value.v, r.value.next));
    }
  }
}
