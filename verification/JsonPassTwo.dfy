/**
 The second pass over an accepted text pops, for every value, the node that the first
 pass made for it, and fills every buffer exactly.
 */
module JsonPassTwo {
  import opened CText
  import opened JsonEscape
  import opened JsonMachine
  import opened JsonReference
  import opened JsonLayout
  import opened JsonNumbers
  import JsonPassOne

  /** Replace the part of the arena from k on by `tree`. */
  function Fill(h: seq<Node>, k: nat, tree: seq<Node>): (r: seq<Node>)
    requires k + |tree| <= |h|
    ensures |r| == |h|
  {
    h[..k] + tree + h[k + |tree|..]
  }

  /** k nodes have been popped; the rest of the allocation list is untouched. */
  ghost predicate Popped(s: State, k: nat) {
    && |s.reserved| == |s.heap| && k <= |s.heap|
    && s.alloc == (if k < |s.heap| then k else NULL)
    && forall i :: k <= i < |s.heap| ==> s.reserved[i] == NextAlloc(if i + 1 < |s.heap| then i + 1 else NULL)
  }

  /** The popped nodes keep their reserved word. */
  ghost predicate Keeps(s: State, z: State, k: nat) {
    && |z.heap| == |s.heap| && |z.reserved| == |s.reserved| == |s.heap| && k <= |s.heap|
    && forall i :: 0 <= i < k ==> z.reserved[i] == s.reserved[i]
  }

  // ---- strings

  predicate Writable(s: State) {
    && Live(s, s.top)
    && var u := s.heap[s.top].u;
       u.PStr? || (u.PObj? && u.values.Allocated? && s.reserved[s.top].ObjectMem?)
  }

  function Buffer(u: Payload): string {
    match u
    case PStr(_, buf) => buf
    case PObj(_, Allocated(_, names)) => names
    case _ => []
  }

  function Offset(s: State): nat
    requires Writable(s)
  {
    if s.heap[s.top].u.PStr? then 0 else s.reserved[s.top].off
  }

  function PutBuffer(u: Payload, i: nat, out: string): Payload
    requires i + |out| <= |Buffer(u)|
  {
    match u
    case PStr(n, buf) => PStr(n, Splice(buf, i, out))
    case PObj(n, Allocated(es, names)) => PObj(n, Allocated(es, Splice(names, i, out)))
    case _ => u
  }

  /** `s` with `out` written from byte i of the current string on. */
  function Written(s: State, i: nat, out: string): State
    requires Writable(s) && Offset(s) + i + |out| <= |Buffer(s.heap[s.top].u)|
  {
    s.(heap := s.heap[s.top := s.heap[s.top].(u := PutBuffer(s.heap[s.top].u, Offset(s) + i, out))])
  }

  lemma WriteFits(s: State, i: nat, out: string)
    requires Writable(s) && Offset(s) + i + |out| <= |Buffer(s.heap[s.top].u)|
    ensures Write(s, i, out) == Running(Written(s, i, out))
    ensures Writable(Written(s, i, out)) && Offset(Written(s, i, out)) == Offset(s)
    ensures |Buffer(Written(s, i, out).heap[s.top].u)| == |Buffer(s.heap[s.top].u)|
  {
    hide Splice;
  }

  lemma SpliceTwice(buf: string, i: nat, a: string, b: string)
    requires i + |a| + |b| <= |buf|
    ensures Splice(Splice(buf, i, a), i + |a|, b) == Splice(buf, i, a + b)
  {
  }

  lemma PutTwice(u: Payload, i: nat, a: string, b: string)
    requires i + |a| + |b| <= |Buffer(u)|
    ensures |Buffer(PutBuffer(u, i, a))| == |Buffer(u)|
    ensures PutBuffer(PutBuffer(u, i, a), i + |a|, b) == PutBuffer(u, i, a + b)
  {
    SpliceTwice(Buffer(u), i, a, b);
    hide Splice;
  }

  lemma WrittenTwice(s: State, i: nat, a: string, b: string)
    requires Writable(s) && Offset(s) + i + |a| + |b| <= |Buffer(s.heap[s.top].u)|
    ensures Writable(Written(s, i, a)) && Offset(Written(s, i, a)) == Offset(s)
    ensures |Buffer(Written(s, i, a).heap[s.top].u)| == |Buffer(s.heap[s.top].u)|
    ensures Written(Written(s, i, a), i + |a|, b) == Written(s, i, a + b)
  {
    WriteFits(s, i, a);
    PutTwice(s.heap[s.top].u, Offset(s) + i, a, b);
    hide PutBuffer, Buffer, Writable, Offset;
    var y, z := Written(s, i, a), Written(Written(s, i, a), i + |a|, b);
    assert y.heap[s.top].u == PutBuffer(s.heap[s.top].u, Offset(s) + i, a);
    assert z.heap == Written(s, i, a + b).heap;
  }

  lemma WrittenNothing(s: State, i: nat)
    requires Writable(s) && Offset(s) + i <= |Buffer(s.heap[s.top].u)|
    ensures Written(s, i, []) == s
  {
    var b := Buffer(s.heap[s.top].u);
    assert Splice(b, Offset(s) + i, []) == b;
    assert s.heap[s.top := s.heap[s.top]] == s.heap;
  }

  lemma {:induction false} StringFill(t: string, s: State, len: nat, str: string, q: nat)
    requires s.p <= |t| && s.mode == InString(false, len)
    requires StringBody(t, s.p) == Some(Parsed(str, q))
    requires Writable(s) && Offset(s) + len + |str| <= |Buffer(s.heap[s.top].u)|
    ensures Run(t, false, s) == Run(t, false, Written(s, len, str).(p := q - 1, mode := InString(false, len + |str|)))
    decreases |t| - s.p
  {
    hide Run, Escape, EndString, Written, Write, Writable, Offset, Buffer;
    var b := At(t, s.p);
    if b == '"' {
      WrittenNothing(s, len);
      assert s.(p := s.p, mode := InString(false, len)) == s;
    } else {
      RunStep(t, false, s);
      var s1, head := s, Esc([b], 1, s.p + 1);
      if b == '\\' {
        s1, head := s.(p := s.p + 1, mode := InString(true, len)), Escape(t, s.p + 1).value;
        RunStep(t, false, s1);
      }
      var tail := StringBody(t, head.next).value.v;
      assert str == head.out + tail;
      StringPiece(s1, s, len, head, tail);
      var z := Written(s, len, head.out).(p := head.next, mode := InString(false, len + |head.out|));
      StringFill(t, z, len + |head.out|, tail, q);
    }
  }

  /** One emitted piece, and what it leaves for the rest of the string. */
  lemma StringPiece(s1: State, s: State, len: nat, head: Esc, tail: string)
    requires s1 == s.(p := s1.p, mode := s1.mode)
    requires Writable(s) && Offset(s) + len + |head.out + tail| <= |Buffer(s.heap[s.top].u)|
    ensures var z := Written(s, len, head.out).(p := head.next, mode := InString(false, len + |head.out|));
            && Emit(false, s1, len, head.out, head.count, head.next) == Running(z)
            && Writable(z) && Offset(z) + len + |head.out| + |tail| <= |Buffer(z.heap[z.top].u)|
            && Written(z, len + |head.out|, tail) ==
               Written(s, len, head.out + tail).(p := z.p, mode := z.mode)
  {
    WriteFits(s1, len, head.out);
    WrittenTwice(s, len, head.out, tail);
    hide Write, PutBuffer, Buffer;
  }

  // ---- finished values

  /** The arena once the tree at k has been handed to its parent. */
  ghost predicate Handed(s: State, k: nat, z: State)
  {
    && |z.heap| == |s.heap|
    && if s.top == NULL then z.heap == s.heap && z.top == k && z.mode == Finished
       else
         && 0 <= s.top < k <= |s.heap|
         && Attach(false, s.heap[s.top].u, k).Some?
         && z.top == s.top
         && z.heap == s.heap[s.top := s.heap[s.top].(u := Attach(false, s.heap[s.top].u, k).value)]
         && z.mode == (if s.heap[s.top].u.PArr? then Seek(true, false) else InObject(true))
  }

  /** The container `top`, if there is one, has room for another value. */
  predicate Room4One(s: State, k: nat) {
    && |s.heap| == |s.reserved|
    && (s.top == NULL || (0 <= s.top < k <= |s.heap| && Attach(false, s.heap[s.top].u, k).Some?))
  }

  /** What one value does in the second pass. */
  ghost predicate Filled(s: State, v: Json, q: nat, k: nat, z: State)
    requires k + Size(v) <= |s.heap|
  {
    && z.p == q
    && z.root == (if s.root == NULL then k else s.root)
    && Keeps(s, z, k) && Popped(z, k + Size(v))
    && Handed(s.(heap := Fill(s.heap, k, FilledTree(v, s.top, k))), k, z)
  }

  /** The nodes from k on are those that the first pass made for `v`. */
  ghost predicate Awaits(s: State, v: Json, k: nat) {
    && Popped(s, k) && k + Size(v) <= |s.heap|
    && s.heap[k..k + Size(v)] == CountedTree(v, s.top, k)
    && Room4One(s, k)
  }

  /** `new_value` in the second pass. */
  lemma PopAwaited(s: State, v: Json, k: nat, w: Payload)
    requires Awaits(s, v, k) && SameKind(CountedRoot(v), w)
    ensures var u := CountedRoot(v);
            var z := s.(heap := s.heap[k := Node(s.top, Room(u))],
                        reserved := if HasNames(u) then s.reserved[k := ObjectMem(0)] else s.reserved,
                        root := if s.root == NULL then k else s.root,
                        alloc := if k + 1 < |s.heap| then k + 1 else NULL,
                        top := k);
            && Pop(s, w) == Running(z) && Popped(z, k + 1) && Keeps(s, z, k)
  {
    hide Room;
    assert s.heap[k] == s.heap[k..k + Size(v)][0];
    assert CountedTree(v, s.top, k)[0] == Node(s.top, CountedRoot(v));
  }

  /** Handing a filled tree to its parent, or to nobody. */
  lemma NextFilled(s: State, v: Json, k: nat, y: State)
    requires k + Size(v) <= |s.heap| && Room4One(s, k)
    requires y.heap == Fill(s.heap, k, FilledTree(v, s.top, k))
    requires y.top == k && y.root == (if s.root == NULL then k else s.root)
    requires Keeps(s, y, k) && Popped(y, k + Size(v))
    ensures Next(false, y).Running? && Filled(s, v, y.p, k, Next(false, y).s)
  {
    hide FilledTree, Attach, Popped, Fill, Next, FilledRoot;
    FilledAt(s, v, k);
    if s.top == NULL {
      NextRoot(y, k);
    } else {
      NextParent(y, s.top, k);
    }
    PoppedSame(y, Next(false, y).s, k + Size(v));
  }

  /** The root of the filled tree and the node above it. */
  lemma FilledAt(s: State, v: Json, k: nat)
    requires k + Size(v) <= |s.heap| && Room4One(s, k)
    ensures var h := Fill(s.heap, k, FilledTree(v, s.top, k));
            h[k] == Node(s.top, FilledRoot(v, k)) && (s.top != NULL ==> h[s.top] == s.heap[s.top])
  {
    hide FilledTree, FilledRoot, Attach;
    TreeParent(v, s.top, k);
  }

  lemma NextRoot(y: State, k: nat)
    requires y.top == k < |y.heap| == |y.reserved| && y.heap[k].parent == NULL
    ensures Next(false, y) == Running(y.(mode := Finished))
  {
  }

  lemma NextParent(y: State, up: Ptr, k: nat)
    requires y.top == k < |y.heap| == |y.reserved| && y.heap[k].parent == up && 0 <= up < |y.heap|
    requires Attach(false, y.heap[up].u, k).Some?
    ensures var u := Attach(false, y.heap[up].u, k).value;
            Next(false, y) == Running(y.(mode := if y.heap[up].u.PArr? then Seek(true, false) else InObject(true),
                                         heap := y.heap[up := y.heap[up].(u := u)], top := up))
  {
    hide Attach;
    AttachKind(y.heap[up].u, k);
  }

  lemma PoppedSame(s: State, z: State, k: nat)
    requires Popped(s, k) && |z.heap| == |s.heap| && z.reserved == s.reserved && z.alloc == s.alloc
    ensures Popped(z, k)
  {
  }

  lemma TreeParent(v: Json, parent: Ptr, k: nat)
    ensures FilledTree(v, parent, k)[0] == Node(parent, FilledRoot(v, k))
  {
  }

  lemma AttachKind(u: Payload, a: Ptr)
    requires Attach(false, u, a).Some?
    ensures Attach(false, u, a).value.PArr? == u.PArr?
  {
  }

  lemma FillOne(h: seq<Node>, k: nat, n: Node)
    requires k < |h|
    ensures h[k := n] == Fill(h, k, [n])
  {
  }

  lemma FillTwice(h: seq<Node>, a: nat, x: Node, g: Node, k: nat, one: seq<Node>, two: seq<Node>)
    requires a < k && k + |one| + |two| <= |h|
    ensures Fill(Fill(h, k, one)[a := x][a := g], k + |one|, two) == Fill(h[a := g], k, one + two)
  {
  }

  // ---- leaves

  /** The skip loop of the second pass stops where the first pass ended the number. */
  lemma SkipExact(t: string, p: nat)
    requires p < |t| && (t[p] == '-' || IsDigit(t[p])) && Number(t, p).Some?
    requires !IsNumberChar(At(t, Number(t, p).value.next))
    ensures SkipNumber(t, p) == Number(t, p).value.next
  {
    hide Decimal, Wrap64, Scale, Fraction, Exponent;
    var d := DigitsEnd(t, if t[p] == '-' then p + 1 else p);
    var f := Fraction(t, d).value.next;
    var q := Exponent(t, f).value.next;
    FractionChars(t, d);
    ExponentChars(t, f);
    assert Number(t, p).value.next == q;
  }

  lemma FractionChars(t: string, p: nat)
    requires p <= |t| && Fraction(t, p).Some?
    ensures forall i :: p <= i < Fraction(t, p).value.next ==> IsNumberChar(t[i])
    ensures Fraction(t, p).value.v.None? ==> Fraction(t, p).value.next == p
  {
    hide Decimal, Wrap64, Tail;
  }

  lemma ExponentChars(t: string, p: nat)
    requires p <= |t| && Exponent(t, p).Some?
    ensures forall i :: p <= i < Exponent(t, p).value.next ==> IsNumberChar(t[i])
    ensures Exponent(t, p).value.v.None? ==> Exponent(t, p).value.next == p
  {
    hide Decimal, Wrap64;
  }

  lemma LeafFilled(s: State, v: Json, k: nat, y: State)
    requires Awaits(s, v, k) && !v.Arr? && !v.Obj?
    requires y.heap == s.heap[k := Node(s.top, FilledRoot(v, k))]
    requires y.top == k && y.root == (if s.root == NULL then k else s.root)
    requires Keeps(s, y, k) && Popped(y, k + 1)
    ensures Next(false, y).Running? && Filled(s, v, y.p, k, Next(false, y).s)
  {
    FillOne(s.heap, k, Node(s.top, FilledRoot(v, k)));
    NextFilled(s, v, k, y);
  }

  lemma {:induction false} FillNumber(t: string, s: State, k: nat) returns (z: State)
    requires s.p < |t| && s.mode == Seek(false, false) && (t[s.p] == '-' || IsDigit(t[s.p]))
    requires Number(t, s.p).Some? && !IsNumberChar(At(t, Number(t, s.p).value.next))
    requires Awaits(s, Number(t, s.p).value.v, k)
    ensures Run(t, false, s) == Run(t, false, z)
    ensures Filled(s, Number(t, s.p).value.v, Number(t, s.p).value.next, k, z)
  {
    hide Run, Number, Next, Filled, Pop, Awaits;
    var v, q := Number(t, s.p).value.v, Number(t, s.p).value.next;
    RunStep(t, false, s);
    SkipExact(t, s.p);
    NumberLeaf(t, s.p);
    PopAwaited(s, v, k, PInt(0));
    var y := Pop(s, PInt(0)).s.(p := q);
    LeafFilled(s, v, k, y);
    z := Next(false, y).s;
  }

  lemma NumberLeaf(t: string, p: nat)
    requires p < |t| && (t[p] == '-' || IsDigit(t[p])) && Number(t, p).Some?
    ensures var v := Number(t, p).value.v; (v.Int? || v.Dbl?) && Room(CountedRoot(v)) == FilledRoot(v, 0)
  {
    hide Fraction, Exponent, Decimal, Wrap64, Scale;
  }

  lemma {:induction false} FillLiteral(t: string, s: State, v: Json, width: nat, k: nat) returns (z: State)
    requires s.p < |t| && s.mode == Seek(false, false)
    requires (v, width) in [(Bool(true), 4), (Bool(false), 5), (Null, 4)]
    requires Keyword(t, s.p, if v == Bool(true) then "true" else if v == Bool(false) then "false" else "null")
    requires Awaits(s, v, k)
    ensures Run(t, false, s) == Run(t, false, z)
    ensures Filled(s, v, s.p + width, k, z)
  {
    hide Run, Next, Filled, Pop, Awaits, Spells, Keyword;
    RunStep(t, false, s);
    JsonPassOne.SpellsKeyword(t, s.p, 't', "rue");
    JsonPassOne.SpellsKeyword(t, s.p, 'f', "alse");
    JsonPassOne.SpellsKeyword(t, s.p, 'n', "ull");
    assert ['t'] + "rue" == "true" && ['f'] + "alse" == "false" && ['n'] + "ull" == "null";
    var w := if v.Null? then PNull else PBool(false);
    PopAwaited(s, v, k, w);
    var p := Pop(s, w).s;
    var y := p.(p := s.p + width, heap := p.heap[k := p.heap[k].(u := FilledRoot(v, k))]);
    assert y.heap == s.heap[k := Node(s.top, FilledRoot(v, k))];
    LeafFilled(s, v, k, y);
    z := Next(false, y).s;
  }

  lemma {:induction false} FillString(t: string, s: State, str: string, q: nat, k: nat) returns (z: State)
    requires s.p < |t| && s.mode == Seek(false, false) && t[s.p] == '"'
    requires StringBody(t, s.p + 1) == Some(Parsed(str, q))
    requires Awaits(s, Str(str), k)
    ensures Run(t, false, s) == Run(t, false, z)
    ensures Filled(s, Str(str), q, k, z)
  {
    hide Run, Next, Filled, Pop, Awaits, StringBody, Written, Write;
    RunStep(t, false, s);
    PopAwaited(s, Str(str), k, PStr(0, []));
    var a := Pop(s, PStr(0, [])).s.(p := s.p + 1, mode := InString(false, 0));
    StringFill(t, a, 0, str, q);
    var y, w := StringClose(t, a, str, q);
    RunStep(t, false, w);
    assert y.heap == s.heap[k := Node(s.top, FilledRoot(Str(str), k))];
    LeafFilled(s, Str(str), k, y);
    z := Next(false, y).s;
  }

  /** The closing quote of a string value. */
  lemma StringClose(t: string, a: State, str: string, q: nat) returns (y: State, w: State)
    requires Live(a, a.top) && a.heap[a.top].u.PStr? && |a.heap[a.top].u.buf| == |str| + 1
    requires 0 < q <= |t| && t[q - 1] == '"'
    ensures w == Written(a, 0, str).(p := q - 1, mode := InString(false, |str|))
    ensures y == a.(p := q, mode := w.mode, heap := a.heap[a.top := a.heap[a.top].(u := PStr(|str|, str + [NUL]))])
    ensures Step(t, false, w) == Next(false, y)
  {
    hide Next, Splice;
    w := Written(a, 0, str).(p := q - 1, mode := InString(false, |str|));
    y := a.(p := q, mode := w.mode, heap := a.heap[a.top := a.heap[a.top].(u := PStr(|str|, str + [NUL]))]);
    WriteFits(a, 0, str);
    var buf := a.heap[a.top].u.buf;
    SpliceTwice(buf, 0, str, [NUL]);
    SpliceWhole(buf, str + [NUL]);
    var e := Write(w, |str|, [NUL]).s;
    assert e.heap[a.top].u.buf == str + [NUL];
    assert e.heap[a.top := a.heap[a.top].(u := PStr(|str|, str + [NUL]))] == y.heap;
  }

  lemma SpliceWhole(buf: string, out: string)
    requires |buf| == |out|
    ensures Splice(buf, 0, out) == out
  {
  }

  // ---- arrays

  /** The array `top` waits for exactly the elements `vs`. */
  ghost predicate AwaitsAll(s: State, vs: seq<Json>, k: nat) {
    && Popped(s, k) && k + SizeAll(vs) <= |s.heap| && 0 <= s.top < k
    && s.heap[k..k + SizeAll(vs)] == CountedAll(vs, s.top, k)
    && s.heap[s.top].u.PArr?
    && |s.heap[s.top].u.slots| == s.heap[s.top].u.length + |vs|
  }

  function WithElements(u: Payload, vs: seq<Json>, k: nat): Payload
    requires u.PArr? && u.length <= |u.slots|
  {
    PArr(u.length + |vs|, u.slots[..u.length] + Ids(vs, k))
  }

  /** All elements are in place and the array is about to be handed on. */
  ghost predicate FilledElements(s: State, vs: seq<Json>, q: nat, k: nat, y: State)
    requires AwaitsAll(s, vs, k)
  {
    && y.p == q && y.top == s.top && y.root == s.root
    && Keeps(s, y, k) && Popped(y, k + SizeAll(vs))
    && y.heap == Fill(s.heap[s.top := s.heap[s.top].(u := WithElements(s.heap[s.top].u, vs, k))], k,
       FilledAll(vs, s.top, k))
  }

  lemma ElementsDelimited(t: string, p: nat)
    requires p <= |t| && Elements(t, p, true).Some?
    ensures !IsNumberChar(At(t, p))
  {
  }

  /** The first of several awaited elements is awaited as a value. */
  lemma AwaitsFirst(s: State, vs: seq<Json>, k: nat)
    requires AwaitsAll(s, vs, k) && vs != []
    ensures Awaits(s, vs[0], k)
    ensures k + Size(vs[0]) + SizeAll(vs[1..]) <= |s.heap|
    ensures s.heap[k + Size(vs[0])..k + Size(vs[0]) + SizeAll(vs[1..])] == CountedAll(vs[1..], s.top, k + Size(vs[0]))
  {
    SliceSplit(s.heap, k, CountedTree(vs[0], s.top, k), CountedAll(vs[1..], s.top, k + Size(vs[0])));
  }

  /** After one element the array waits for the others. */
  lemma AwaitsRest(s: State, vs: seq<Json>, q1: nat, k: nat, z: State)
    requires AwaitsAll(s, vs, k) && vs != []
    requires k + Size(vs[0]) <= |s.heap| && Filled(s, vs[0], q1, k, z)
    ensures AwaitsAll(z, vs[1..], k + Size(vs[0])) && z.mode == Seek(true, false) && z.top == s.top
            && z.root == (if s.root == NULL then k else s.root)
    ensures var u := s.heap[s.top].u;
            && z.heap[s.top] == s.heap[s.top].(u := PArr(u.length + 1, u.slots[u.length := k]))
            && z.heap == Fill(s.heap, k, FilledTree(vs[0], s.top, k))[s.top := z.heap[s.top]]
  {
    hide FilledTree, CountedAll, SizeAll;
    AwaitsFirst(s, vs, k);
    var k1 := k + Size(vs[0]);
    var n := SizeAll(vs[1..]);
    assert z.heap[k1..k1 + n] == s.heap[k1..k1 + n];
  }

  lemma NextSlot(slots: seq<Ptr>, n: nat, k: Ptr, ids: seq<Ptr>)
    requires n < |slots|
    ensures slots[n := k][..n + 1] + ids == slots[..n] + ([k] + ids)
  {
  }

  lemma ElementsCons(s: State, vs: seq<Json>, q1: nat, q: nat, k: nat, z: State, y: State)
    requires AwaitsAll(s, vs, k) && vs != [] && s.root != NULL
    requires k + Size(vs[0]) <= |s.heap| && Filled(s, vs[0], q1, k, z)
    requires AwaitsAll(z, vs[1..], k + Size(vs[0])) && FilledElements(z, vs[1..], q, k + Size(vs[0]), y)
    ensures FilledElements(s, vs, q, k, y)
  {
    hide FilledTree, CountedAll, Handed, Fill;
    AwaitsRest(s, vs, q1, k, z);
    var k1 := k + Size(vs[0]);
    var u := s.heap[s.top].u;
    var g := s.heap[s.top].(u := WithElements(u, vs, k));
    NextSlot(u.slots, u.length, k, Ids(vs[1..], k1));
    FillTwice(s.heap, s.top, z.heap[s.top], g, k, FilledTree(vs[0], s.top, k), FilledAll(vs[1..], s.top, k1));
  }

  lemma {:induction false} FillElements(t: string, s: State, needComma: bool, vs: seq<Json>, q: nat, k: nat)
    returns (y: State)
    requires s.p <= |t| && s.mode == Seek(needComma, false) && s.root != NULL
    requires Elements(t, s.p, needComma) == Some(Parsed(vs, q))
    requires AwaitsAll(s, vs, k)
    ensures Run(t, false, s) == Continue(t, false, Next(false, y))
    ensures FilledElements(s, vs, q, k, y)
    decreases |t| - s.p, 3
  {
    hide Run, Next, Value, StartValue, FilledElements, AwaitsAll, Filled, Awaits;
    var b := t[s.p];
    if !IsSpace(b) && b != ']' && !needComma {
      var v := Value(t, s.p).value;
      var rest := Elements(t, v.next, true).value;
      assert vs == [v.v] + rest.v && vs[1..] == rest.v;
      AwaitsFirst(s, vs, k);
      ElementsDelimited(t, v.next);
      var z := FillValue(t, s, v.v, v.next, k);
      AwaitsRest(s, vs, v.next, k, z);
      FilledPopped(s, v.v, v.next, k, z);
      y := FillElements(t, z, true, rest.v, q, k + Size(v.v));
      ElementsCons(s, vs, v.next, q, k, z, y);
    } else {
      RunStep(t, false, s);
      if b == ']' {
        y := s.(p := s.p + 1);
        NoElements(s, q, k);
      } else {
        var s1 := s.(p := s.p + 1, mode := Seek(needComma && b != ',', false));
        ElementsElsewhere(s, s1, vs, q, k);
        y := FillElements(t, s1, needComma && b != ',', vs, q, k);
      }
    }
  }

  lemma NoElements(s: State, q: nat, k: nat)
    requires AwaitsAll(s, [], k)
    ensures Live(s, s.top) && s.heap[s.top].u.PArr?
    ensures FilledElements(s, [], q, k, s.(p := q))
  {
    var u := s.heap[s.top].u;
    assert u.slots[..u.length] + [] == u.slots;
    assert s.heap[s.top := s.heap[s.top]] == s.heap;
    assert Fill(s.heap, k, []) == s.heap;
  }

  lemma ElementsElsewhere(s: State, z: State, vs: seq<Json>, q: nat, k: nat)
    requires AwaitsAll(s, vs, k) && z == s.(p := z.p, mode := z.mode)
    ensures AwaitsAll(z, vs, k)
    ensures forall y :: FilledElements(z, vs, q, k, y) ==> FilledElements(s, vs, q, k, y)
  {
  }

  // ---- objects

  /** The object `top` waits for exactly the members `ms`. */
  ghost predicate AwaitsMembers(s: State, ms: seq<Member>, k: nat) {
    && Popped(s, k) && k + SizeMembers(ms) <= |s.heap| && 0 <= s.top < k
    && s.heap[k..k + SizeMembers(ms)] == CountedMembers(ms, s.top, k)
    && s.heap[s.top].u.PObj?
    && (ms != [] ==> RoomFor(s.heap[s.top].u, s.reserved[s.top], ms))
  }

  predicate RoomFor(u: Payload, r: Reserved, ms: seq<Member>) {
    && u.PObj? && u.values.Allocated? && r.ObjectMem?
    && |u.values.entries| == u.length + |ms|
    && |u.values.names| == r.off + NameBytes(ms)
  }

  function WithMembers(u: Payload, r: Reserved, ms: seq<Member>, k: nat): Payload
    requires ms != [] ==> RoomFor(u, r, ms)
  {
    if ms == [] then u
    else
      PObj(u.length + |ms|,
           Allocated(u.values.entries[..u.length] + Entries(ms, r.off, k), u.values.names[..r.off] + NameArea(ms)))
  }

  ghost predicate FilledMembersOf(s: State, ms: seq<Member>, q: nat, k: nat, y: State)
    requires AwaitsMembers(s, ms, k)
  {
    && y.p == q && y.top == s.top && y.root == s.root
    && |y.heap| == |s.heap| && |y.reserved| == |s.reserved|
    && (forall i :: 0 <= i < k && i != s.top ==> y.reserved[i] == s.reserved[i])
    && Popped(y, k + SizeMembers(ms))
    && y.heap == Fill(s.heap[s.top := s.heap[s.top].(u := WithMembers(s.heap[s.top].u, s.reserved[s.top], ms, k))],
                      k, FilledMembers(ms, s.top, k))
  }

  lemma MembersDelimited(t: string, p: nat)
    requires p <= |t| && Members(t, p, true).Some?
    ensures !IsNumberChar(At(t, p))
  {
  }

  /** The payload of an object after a member name has been written. */
  function NamedPayload(u: Payload, off: nat, name: string): Payload
    requires u.PObj? && u.values.Allocated? && u.length < |u.values.entries| && off + |name| + 1 <= |u.values.names|
  {
    var es := u.values.entries;
    PObj(u.length, Allocated(es[u.length := Entry(off, |name|, es[u.length].value)],
                             Splice(u.values.names, off, name + [NUL])))
  }

  predicate NameRoom(s: State, name: string) {
    && Writable(s) && s.heap[s.top].u.PObj?
    && s.heap[s.top].u.length < |s.heap[s.top].u.values.entries|
    && Offset(s) + |name| + 1 <= |s.heap[s.top].u.values.names|
  }

  /** After a member name and its colon. */
  function Named(s: State, name: string, c: nat): State
    requires NameRoom(s, name)
  {
    s.(p := c, mode := Seek(false, false),
       heap := s.heap[s.top := s.heap[s.top].(u := NamedPayload(s.heap[s.top].u, Offset(s), name))],
       reserved := s.reserved[s.top := ObjectMem(Offset(s) + |name| + 1)])
  }

  lemma {:induction false} FillName(t: string, s: State, name: string, q: nat, c: nat)
    requires s.p < |t| && t[s.p] == '"' && s.mode == InObject(false)
    requires StringBody(t, s.p + 1) == Some(Parsed(name, q)) && Colon(t, q) == Some(c)
    requires NameRoom(s, name)
    ensures Run(t, false, s) == Run(t, false, Named(s, name, c))
  {
    hide Run, Next, Write, StringBody, Splice, Named, Written, Colon;
    RunStep(t, false, s);
    var a := s.(p := s.p + 1, mode := InString(false, 0));
    StringFill(t, a, 0, name, q);
    NameClose(t, a, name, q, c);
    RunStep(t, false, Written(a, 0, name).(p := q - 1, mode := InString(false, |name|)));
    NamedElsewhere(s, a, name, c);
    ColonSkip(t, Named(s, name, c).(p := q, mode := Seek(false, true)));
    assert Named(s, name, c).(p := c, mode := Seek(false, false)) == Named(s, name, c) by { NamedFacts(s, name, c); }
  }

  lemma NamedElsewhere(s: State, a: State, name: string, c: nat)
    requires NameRoom(s, name)
    requires a == s.(p := a.p, mode := a.mode)
    ensures NameRoom(a, name) && Named(a, name, c) == Named(s, name, c)
  {
  }

  /** The closing quote of a member name. */
  lemma NameClose(t: string, a: State, name: string, q: nat, c: nat)
    requires NameRoom(a, name) && 0 < q <= |t| && t[q - 1] == '"'
    ensures var w := Written(a, 0, name).(p := q - 1, mode := InString(false, |name|));
            Step(t, false, w) == Running(Named(a, name, c).(p := q, mode := Seek(false, true)))
  {
    hide Splice;
    var w := Written(a, 0, name).(p := q - 1, mode := InString(false, |name|));
    WriteFits(a, 0, name);
    var u := a.heap[a.top].u;
    SpliceTwice(u.values.names, Offset(a), name, [NUL]);
    var e := Write(w, |name|, [NUL]).s;
    assert e.heap[a.top].u == PObj(u.length,
           Allocated(u.values.entries, Splice(u.values.names, Offset(a), name + [NUL])));
    var g := a.heap[a.top].(u := NamedPayload(u, Offset(a), name));
    assert e.heap[a.top := g] == a.heap[a.top := g];
  }

  lemma {:induction false} ColonSkip(t: string, s: State)
    requires s.p <= |t| && s.mode == Seek(false, true) && Colon(t, s.p).Some?
    ensures Run(t, false, s) == Run(t, false, s.(p := Colon(t, s.p).value, mode := Seek(false, false)))
    decreases |t| - s.p
  {
    hide Run, Next, StartValue;
    RunStep(t, false, s);
    if s.p < |t| && IsSpace(t[s.p]) {
      ColonSkip(t, s.(p := s.p + 1));
    }
  }

  lemma AwaitsFirstMember(s: State, ms: seq<Member>, k: nat, c: nat)
    requires AwaitsMembers(s, ms, k) && ms != []
    ensures NameRoom(s, ms[0].name)
    ensures Awaits(Named(s, ms[0].name, c), ms[0].value, k)
    ensures k + Size(ms[0].value) + SizeMembers(ms[1..]) <= |s.heap|
    ensures var k1 := k + Size(ms[0].value);
            s.heap[k1..k1 + SizeMembers(ms[1..])] == CountedMembers(ms[1..], s.top, k1)
  {
    var k1 := k + Size(ms[0].value);
    SliceSplit(s.heap, k, CountedTree(ms[0].value, s.top, k), CountedMembers(ms[1..], s.top, k1));
    hide CountedMembers, CountedTree, Splice;
    var n := Named(s, ms[0].name, c);
    assert n.heap[k..k1] == s.heap[k..k1];
  }

  /** What handing a value to an existing container leaves. */
  lemma FilledParts(n: State, v: Json, q: nat, k: nat, z: State)
    requires k + Size(v) <= |n.heap| && Filled(n, v, q, k, z) && n.top != NULL
    ensures 0 <= n.top < k && Attach(false, n.heap[n.top].u, k).Some?
    ensures z.heap[n.top] == n.heap[n.top].(u := Attach(false, n.heap[n.top].u, k).value)
    ensures z.heap == Fill(n.heap, k, FilledTree(v, n.top, k))[n.top := z.heap[n.top]]
    ensures z.heap[k + Size(v)..] == n.heap[k + Size(v)..]
    ensures z.top == n.top && z.mode == (if n.heap[n.top].u.PArr? then Seek(true, false) else InObject(true))
    ensures |z.reserved| == |n.reserved| == |n.heap| == |z.heap| && z.reserved[n.top] == n.reserved[n.top]
  {
    hide FilledTree, Attach;
  }

  /** The object node after one more member. */
  function OneMember(u: Payload, off: nat, name: string, k: nat): Payload
    requires u.PObj? && u.values.Allocated? && u.length < |u.values.entries| && off + |name| + 1 <= |u.values.names|
  {
    PObj(u.length + 1, Allocated(u.values.entries[u.length := Entry(off, |name|, k)],
                                 Splice(u.values.names, off, name + [NUL])))
  }

  lemma AttachNamed(u: Payload, off: nat, name: string, k: nat)
    requires u.PObj? && u.values.Allocated? && u.length < |u.values.entries| && off + |name| + 1 <= |u.values.names|
    ensures Attach(false, NamedPayload(u, off, name), k) == Some(OneMember(u, off, name, k))
  {
    hide Splice;
    var es := u.values.entries;
    assert es[u.length := Entry(off, |name|, es[u.length].value)][u.length := Entry(off, |name|, k)]
        == es[u.length := Entry(off, |name|, k)];
  }

  lemma FillUpdated(h: seq<Node>, a: nat, x: Node, g: Node, k: nat, tree: seq<Node>)
    requires a < k && k + |tree| <= |h|
    ensures Fill(h[a := x], k, tree)[a := g] == Fill(h, k, tree)[a := g]
    ensures h[a := x][k + |tree|..] == h[k + |tree|..]
  {
  }

  lemma MemberParts(s: State, name: string, c: nat, v: Json, q1: nat, k: nat, z: State)
    requires NameRoom(s, name) && |s.heap| == |s.reserved|
    requires k + Size(v) <= |s.heap| && Filled(Named(s, name, c), v, q1, k, z)
    ensures 0 <= s.top < k
    ensures z.heap[s.top] == s.heap[s.top].(u := OneMember(s.heap[s.top].u, Offset(s), name, k))
    ensures z.heap == Fill(s.heap, k, FilledTree(v, s.top, k))[s.top := z.heap[s.top]]
    ensures z.heap[k + Size(v)..] == s.heap[k + Size(v)..]
    ensures z.top == s.top && z.mode == InObject(true)
    ensures |z.reserved| == |z.heap| == |s.heap| && z.reserved[s.top] == ObjectMem(Offset(s) + |name| + 1)
  {
    hide Filled, NamedPayload, OneMember, FilledTree, Fill, Attach;
    var n := Named(s, name, c);
    NamedFacts(s, name, c);
    FilledParts(n, v, q1, k, z);
    AttachNamed(s.heap[s.top].u, Offset(s), name, k);
    FillUpdated(s.heap, s.top, n.heap[s.top], z.heap[s.top], k, FilledTree(v, s.top, k));
  }

  lemma AwaitsRestMembers(s: State, ms: seq<Member>, c: nat, q1: nat, k: nat, z: State)
    requires AwaitsMembers(s, ms, k) && ms != []
    requires NameRoom(s, ms[0].name)
    requires k + Size(ms[0].value) <= |s.heap| && Filled(Named(s, ms[0].name, c), ms[0].value, q1, k, z)
    ensures AwaitsMembers(z, ms[1..], k + Size(ms[0].value)) && z.mode == InObject(true)
  {
    hide Filled, Named, CountedMembers, CountedTree, Splice, NameBytes, FilledTree, Fill, RoomFor, WithMembers,
         SizeMembers;
    AwaitsFirstMember(s, ms, k, c);
    MemberParts(s, ms[0].name, c, ms[0].value, q1, k, z);
    MemberPayload(s.heap[s.top].u, s.reserved[s.top], ms, k);
    FilledPopped(Named(s, ms[0].name, c), ms[0].value, q1, k, z);
    var k1 := k + Size(ms[0].value);
    var n := SizeMembers(ms[1..]);
    assert z.heap[k1..k1 + n] == z.heap[k1..][..n];
    assert s.heap[k1..k1 + n] == s.heap[k1..][..n];
  }

  lemma FilledPopped(s: State, v: Json, q: nat, k: nat, z: State)
    requires k + Size(v) <= |s.heap| && Filled(s, v, q, k, z)
    ensures Popped(z, k + Size(v)) && Keeps(s, z, k) && z.p == q
    ensures s.root != NULL ==> z.root == s.root
  {
  }

  lemma MembersCons(s: State, ms: seq<Member>, c: nat, q1: nat, q: nat, k: nat, z: State, y: State)
    requires AwaitsMembers(s, ms, k) && ms != [] && s.root != NULL
    requires NameRoom(s, ms[0].name)
    requires k + Size(ms[0].value) <= |s.heap| && Filled(Named(s, ms[0].name, c), ms[0].value, q1, k, z)
    requires AwaitsMembers(z, ms[1..], k + Size(ms[0].value))
             && FilledMembersOf(z, ms[1..], q, k + Size(ms[0].value), y)
    ensures FilledMembersOf(s, ms, q, k, y)
  {
    hide Filled, Named, OneMember, Splice, NameBytes, WithMembers, Fill, CountedMembers;
    var u, r := s.heap[s.top].u, s.reserved[s.top];
    NamedFacts(s, ms[0].name, c);
    MemberParts(s, ms[0].name, c, ms[0].value, q1, k, z);
    MemberPayload(u, r, ms, k);
    FilledPopped(Named(s, ms[0].name, c), ms[0].value, q1, k, z);
    MembersReserved(s, ms, c, k, z, y, q);
    var k1 := k + Size(ms[0].value);
    var g := s.heap[s.top].(u := WithMembers(u, r, ms, k));
    FillTwice(s.heap, s.top, z.heap[s.top], g, k, FilledTree(ms[0].value, s.top, k), FilledMembers(ms[1..], s.top, k1));
    assert FilledMembers(ms, s.top, k) == FilledTree(ms[0].value, s.top, k) + FilledMembers(ms[1..], s.top, k1);
  }

  lemma MembersReserved(s: State, ms: seq<Member>, c: nat, k: nat, z: State, y: State, q: nat)
    requires AwaitsMembers(s, ms, k) && ms != []
    requires NameRoom(s, ms[0].name)
    requires Keeps(Named(s, ms[0].name, c), z, k)
    requires z.top == s.top
    requires AwaitsMembers(z, ms[1..], k + Size(ms[0].value))
             && FilledMembersOf(z, ms[1..], q, k + Size(ms[0].value), y)
    ensures |y.reserved| == |s.reserved|
    ensures forall i :: 0 <= i < k && i != s.top ==> y.reserved[i] == s.reserved[i]
  {
    hide NamedPayload, Fill, WithMembers, CountedMembers, FilledMembers, SizeMembers;
  }

  lemma MemberPayload(u: Payload, r: Reserved, ms: seq<Member>, k: nat)
    requires ms != [] && RoomFor(u, r, ms)
    ensures var one := OneMember(u, r.off, ms[0].name, k);
            var r1 := ObjectMem(r.off + |ms[0].name| + 1);
            && (ms[1..] != [] ==> RoomFor(one, r1, ms[1..]))
            && WithMembers(one, r1, ms[1..], k + Size(ms[0].value)) == WithMembers(u, r, ms, k)
  {
    var es, names, name := u.values.entries, u.values.names, ms[0].name;
    var es1 := es[u.length := Entry(r.off, |name|, k)];
    var names1 := Splice(names, r.off, name + [NUL]);
    var k1, off1 := k + Size(ms[0].value), r.off + |name| + 1;
    assert es1[..u.length + 1] + Entries(ms[1..], off1, k1) == es[..u.length] + Entries(ms, r.off, k);
    assert names1[..off1] == names[..r.off] + (name + [NUL]);
    assert names1[..off1] + NameArea(ms[1..]) == names[..r.off] + NameArea(ms);
    if ms[1..] == [] {
      assert es1[..u.length + 1] + [] == es1 && names1[..off1] + [] == names1;
      assert Entries(ms[1..], off1, k1) == [] && NameArea(ms[1..]) == [];
    }
  }

  lemma NoMembers(s: State, q: nat, k: nat)
    requires AwaitsMembers(s, [], k)
    ensures Live(s, s.top)
    ensures FilledMembersOf(s, [], q, k, s.(p := q))
  {
    assert s.heap[s.top := s.heap[s.top]] == s.heap;
    assert Fill(s.heap, k, []) == s.heap;
  }

  lemma MembersElsewhere(s: State, z: State, ms: seq<Member>, q: nat, k: nat)
    requires AwaitsMembers(s, ms, k) && z == s.(p := z.p, mode := z.mode)
    ensures AwaitsMembers(z, ms, k)
    ensures forall y :: FilledMembersOf(z, ms, q, k, y) ==> FilledMembersOf(s, ms, q, k, y)
  {
  }

  lemma {:induction false} FillMembers(t: string, s: State, needComma: bool, ms: seq<Member>, q: nat, k: nat)
    returns (y: State)
    requires s.p <= |t| && s.mode == InObject(needComma) && s.root != NULL
    requires Members(t, s.p, needComma) == Some(Parsed(ms, q))
    requires AwaitsMembers(s, ms, k)
    ensures Run(t, false, s) == Continue(t, false, Next(false, y))
    ensures FilledMembersOf(s, ms, q, k, y)
    decreases |t| - s.p, 3
  {
    hide Run, Next, Value, StringBody, Colon, FilledMembersOf, Filled, Awaits;
    var b := t[s.p];
    if b == '"' {
      y := FillMember(t, s, ms, q, k);
    } else {
      RunStep(t, false, s);
      if b == '}' {
        y := s.(p := s.p + 1);
        NoMembers(s, q, k);
      } else {
        var s1 := s.(p := s.p + 1, mode := InObject(needComma && b != ','));
        MembersElsewhere(s, s1, ms, q, k);
        y := FillMembers(t, s1, needComma && b != ',', ms, q, k);
      }
    }
  }

  /** One member and those after it. */
  lemma {:induction false} FillMember(t: string, s: State, ms: seq<Member>, q: nat, k: nat) returns (y: State)
    requires s.p < |t| && t[s.p] == '"' && s.mode == InObject(false) && s.root != NULL
    requires Members(t, s.p, false) == Some(Parsed(ms, q))
    requires AwaitsMembers(s, ms, k)
    ensures Run(t, false, s) == Continue(t, false, Next(false, y))
    ensures FilledMembersOf(s, ms, q, k, y)
    decreases |t| - s.p, 2
  {
    hide Run, Next, Step, Value, StringBody, Colon, FilledMembersOf, AwaitsMembers, Filled, Awaits, Named,
         NameRoom, Continue;
    var name := StringBody(t, s.p + 1).value;
    var c := Colon(t, name.next).value;
    var v := Value(t, c).value;
    var rest := Members(t, v.next, true).value;
    assert ms == [Member(name.v, v.v)] + rest.v && ms[1..] == rest.v;
    AwaitsFirstMember(s, ms, k, c);
    FillName(t, s, name.v, name.next, c);
    var n := Named(s, name.v, c);
    NamedFacts(s, name.v, c);
    MembersDelimited(t, v.next);
    var z := FillValue(t, n, v.v, v.next, k);
    AwaitsRestMembers(s, ms, c, v.next, k, z);
    FilledPopped(n, v.v, v.next, k, z);
    y := FillMembers(t, z, true, rest.v, q, k + Size(v.v));
    MembersCons(s, ms, c, v.next, q, k, z, y);
  }

  lemma NamedFacts(s: State, name: string, c: nat)
    requires NameRoom(s, name)
    ensures var n := Named(s, name, c);
            n.p == c && n.mode == Seek(false, false) && n.top == s.top && n.root == s.root && |n.heap| == |s.heap|
            && n.heap[n.top].u.PObj?
  {
  }

  // ---- values

  lemma {:induction false} FillValue(t: string, s: State, v: Json, q: nat, k: nat) returns (z: State)
    requires s.p <= |t| && s.mode == Seek(false, false)
    requires Value(t, s.p) == Some(Parsed(v, q)) && !IsNumberChar(At(t, q))
    requires Awaits(s, v, k)
    requires s.top != NULL && s.heap[s.top].u.PArr? ==> !IsSpace(At(t, s.p)) && At(t, s.p) != ']'
    ensures Run(t, false, s) == Run(t, false, z)
    ensures Filled(s, v, q, k, z)
    decreases |t| - s.p, 1
  {
    hide Run, Step, Elements, Members, StringBody, Number, Keyword, Awaits, Filled;
    var b := t[s.p];
    if IsSpace(b) {
      SkipOne(t, s, v, q, k);
      z := FillValue(t, s.(p := s.p + 1), v, q, k);
    } else if b == '{' {
      z := FillObject(t, s, v.members, q, k);
    } else if b == '[' {
      z := FillArray(t, s, v.elems, q, k);
    } else if b == '"' {
      z := FillString(t, s, v.s, q, k);
    } else if b == '-' || IsDigit(b) {
      NoKeyword(t, s.p);
      z := FillNumber(t, s, k);
    } else {
      z := FillLiteral(t, s, v, if v == Bool(false) then 5 else 4, k);
    }
  }

  lemma SkipOne(t: string, s: State, v: Json, q: nat, k: nat)
    requires s.p < |t| && s.mode == Seek(false, false) && IsSpace(t[s.p]) && Awaits(s, v, k)
    ensures Run(t, false, s) == Run(t, false, s.(p := s.p + 1))
    ensures Awaits(s.(p := s.p + 1), v, k)
    ensures forall z :: Filled(s.(p := s.p + 1), v, q, k, z) ==> Filled(s, v, q, k, z)
  {
    hide Run, Next, StartValue;
    RunStep(t, false, s);
  }

  lemma {:induction false} FillArray(t: string, s: State, vs: seq<Json>, q: nat, k: nat) returns (z: State)
    requires s.p < |t| && s.mode == Seek(false, false) && t[s.p] == '['
    requires Elements(t, s.p + 1, false) == Some(Parsed(vs, q))
    requires Awaits(s, Arr(vs), k)
    ensures Run(t, false, s) == Run(t, false, z)
    ensures Filled(s, Arr(vs), q, k, z)
    decreases |t| - s.p, 0
  {
    hide Run, Next, Elements, Pop, Filled, FilledElements, AwaitsAll, Fill, FilledTree, CountedTree, Room;
    RunStep(t, false, s);
    PopAwaited(s, Arr(vs), k, PArr(0, []));
    var a := Pop(s, PArr(0, [])).s.(p := s.p + 1, mode := Seek(false, false));
    ArrayAwaits(s, vs, k, a);
    var y := FillElements(t, a, false, vs, q, k + 1);
    ArrayFilled(s, vs, k, a, q, y);
    NextFilled(s, Arr(vs), k, y);
    z := Next(false, y).s;
  }

  lemma ArrayAwaits(s: State, vs: seq<Json>, k: nat, a: State)
    requires Awaits(s, Arr(vs), k) && Popped(a, k + 1) && a.top == k
    requires a.heap == s.heap[k := Node(s.top, Room(PArr(|vs|, [])))]
    ensures AwaitsAll(a, vs, k + 1)
  {
    var n := SizeAll(vs);
    SliceSplit(s.heap, k, [Node(s.top, PArr(|vs|, []))], CountedAll(vs, k, k + 1));
    assert a.heap[k + 1..k + 1 + n] == s.heap[k + 1..k + 1 + n];
  }

  lemma ArrayFilled(s: State, vs: seq<Json>, k: nat, a: State, q: nat, y: State)
    requires Awaits(s, Arr(vs), k) && Popped(a, k + 1) && a.top == k && Keeps(s, a, k)
    requires a.heap == s.heap[k := Node(s.top, Room(PArr(|vs|, [])))]
    requires AwaitsAll(a, vs, k + 1) && FilledElements(a, vs, q, k + 1, y)
    ensures y.heap == Fill(s.heap, k, FilledTree(Arr(vs), s.top, k))
    ensures Keeps(s, y, k) && Popped(y, k + Size(Arr(vs))) && y.top == k && y.root == a.root && y.p == q
  {
    var u := a.heap[k].u;
    assert u.slots[..0] + Ids(vs, k + 1) == Ids(vs, k + 1);
    assert WithElements(u, vs, k + 1) == FilledRoot(Arr(vs), k);
    FillNode(s.heap, k, a.heap[k], Node(s.top, FilledRoot(Arr(vs), k)), FilledAll(vs, k, k + 1));
  }

  lemma FillNode(h: seq<Node>, k: nat, x: Node, n: Node, kids: seq<Node>)
    requires k + 1 + |kids| <= |h|
    ensures Fill(h[k := x][k := n], k + 1, kids) == Fill(h, k, [n] + kids)
  {
  }

  lemma {:induction false} FillObject(t: string, s: State, ms: seq<Member>, q: nat, k: nat) returns (z: State)
    requires s.p < |t| && s.mode == Seek(false, false) && t[s.p] == '{'
    requires Members(t, s.p + 1, false) == Some(Parsed(ms, q))
    requires Awaits(s, Obj(ms), k)
    ensures Run(t, false, s) == Run(t, false, z)
    ensures Filled(s, Obj(ms), q, k, z)
    decreases |t| - s.p, 0
  {
    hide Run, Next, Members, Pop, Filled, FilledMembersOf, AwaitsMembers, Fill, FilledTree, CountedTree, Room;
    RunStep(t, false, s);
    PopAwaited(s, Obj(ms), k, PObj(0, Values.Counted(0)));
    var a := Pop(s, PObj(0, Values.Counted(0))).s.(p := s.p + 1, mode := InObject(false));
    ObjectAwaits(s, ms, k, a);
    var y := FillMembers(t, a, false, ms, q, k + 1);
    ObjectFilled(s, ms, k, a, q, y);
    NextFilled(s, Obj(ms), k, y);
    z := Next(false, y).s;
  }

  lemma ObjectAwaits(s: State, ms: seq<Member>, k: nat, a: State)
    requires Awaits(s, Obj(ms), k) && Popped(a, k + 1) && a.top == k
    requires a.heap == s.heap[k := Node(s.top, Room(CountedRoot(Obj(ms))))]
    requires ms != [] ==> a.reserved[k] == ObjectMem(0)
    ensures AwaitsMembers(a, ms, k + 1)
  {
    hide CountedMembers;
    var n := SizeMembers(ms);
    SliceSplit(s.heap, k, [Node(s.top, CountedRoot(Obj(ms)))], CountedMembers(ms, k, k + 1));
    assert a.heap[k + 1..k + 1 + n] == s.heap[k + 1..k + 1 + n];
  }

  lemma ObjectFilled(s: State, ms: seq<Member>, k: nat, a: State, q: nat, y: State)
    requires Awaits(s, Obj(ms), k) && Popped(a, k + 1) && a.top == k && Keeps(s, a, k)
    requires a.heap == s.heap[k := Node(s.top, Room(CountedRoot(Obj(ms))))]
    requires ms != [] ==> a.reserved[k] == ObjectMem(0)
    requires AwaitsMembers(a, ms, k + 1) && FilledMembersOf(a, ms, q, k + 1, y)
    ensures y.heap == Fill(s.heap, k, FilledTree(Obj(ms), s.top, k))
    ensures Keeps(s, y, k) && Popped(y, k + Size(Obj(ms))) && y.top == k && y.root == a.root && y.p == q
  {
    var u := a.heap[k].u;
    if ms != [] {
      assert u.values.entries[..0] + Entries(ms, 0, k + 1) == Entries(ms, 0, k + 1);
      assert u.values.names[..0] + NameArea(ms) == NameArea(ms);
    }
    assert WithMembers(u, a.reserved[k], ms, k + 1) == FilledRoot(Obj(ms), k);
    FillNode(s.heap, k, a.heap[k], Node(s.top, FilledRoot(Obj(ms), k)), FilledMembers(ms, k, k + 1));
  }

  // ---- the pass

  /** The state in which the loop starts over: `alloc = root`. */
  function Restart(s: State): State {
    State(0, Seek(false, false), NULL, NULL, s.root, s.heap, s.reserved)
  }

  lemma {:induction false} FinalSpace(t: string, s: State)
    requires s.mode == Finished && s.p <= |t| && At(t, SkipSpace(t, s.p)) == NUL
    ensures Run(t, false, s) == Accepted(s.(p := SkipSpace(t, s.p)))
    decreases |t| - s.p
  {
    hide Run;
    RunStep(t, false, s);
    if s.p < |t| && IsSpace(t[s.p]) {
      FinalSpace(t, s.(p := s.p + 1));
    }
  }

  /**
   On every text of which the reference reads `v`, the second pass, started on what the
   first pass left, never writes outside an allocation, exhausts the allocation list and
   leaves exactly the filled layout of `v`.
   */
  lemma PassTwoCorrect(t: string, v: Json) returns (z: State)
    requires Document(t) == Some(v)
    ensures Run(t, false, Restart(JsonPassOne.Counted(v, SkipSpace(t, Value(t, 0).value.next)))) == Accepted(z)
    ensures z.heap == FilledTree(v, NULL, 0) && z.root == 0 && z.alloc == NULL
  {
    hide Run, Value, CountedTree, FilledTree, Attach;
    var q := Value(t, 0).value.next;
    var s := Restart(JsonPassOne.Counted(v, SkipSpace(t, q)));
    assert At(t, q) == NUL || IsSpace(At(t, q));
    assert s.heap[0..Size(v)] == s.heap;
    var y := FillValue(t, s, v, q, 0);
    assert Fill(s.heap, 0, FilledTree(v, NULL, 0)) == FilledTree(v, NULL, 0);
    FinalSpace(t, y);
    z := y.(p := SkipSpace(t, q));
  }
}
