/**
 How a JSON tree lies in the node arena: its nodes in the order in which their first
 bytes occur in the text. `Counted...` is the arena after the first pass, `Filled...`
 after the second.
 */
module JsonLayout {
  import opened CText
  import opened JsonMachine
  import opened JsonReference

  // ---- sizes

  function Size(v: Json): (n: nat)
    ensures n > 0
    decreases v
  {
    match v
    case Arr(vs) => 1 + SizeAll(vs)
    case Obj(ms) => 1 + SizeMembers(ms)
    case _ => 1
  }

  function SizeAll(vs: seq<Json>): nat
    decreases vs
  {
    if vs == [] then 0 else Size(vs[0]) + SizeAll(vs[1..])
  }

  function SizeMembers(ms: seq<Member>): nat
    decreases ms
  {
    if ms == [] then 0 else Size(ms[0].value) + SizeMembers(ms[1..])
  }

  /** Bytes that the names of an object take, each with its terminator. */
  function NameBytes(ms: seq<Member>): nat {
    if ms == [] then 0 else |ms[0].name| + 1 + NameBytes(ms[1..])
  }

  // ---- after the first pass

  function CountedRoot(v: Json): Payload {
    match v
    case Null => PNull
    case Bool(b) => PBool(b)
    case Int(i) => PInt(i)
    case Dbl(r) => PDbl(r)
    case Str(s) => PStr(|s|, [])
    case Arr(vs) => PArr(|vs|, [])
    case Obj(ms) => PObj(|ms|, Values.Counted(NameBytes(ms)))
  }

  function CountedTree(v: Json, parent: Ptr, base: nat): (h: seq<Node>)
    ensures |h| == Size(v)
    decreases v
  {
    [Node(parent, CountedRoot(v))] +
    match v
    case Arr(vs) => CountedAll(vs, base, base + 1)
    case Obj(ms) => CountedMembers(ms, base, base + 1)
    case _ => []
  }

  function CountedAll(vs: seq<Json>, parent: Ptr, base: nat): (h: seq<Node>)
    ensures |h| == SizeAll(vs)
    decreases vs
  {
    if vs == [] then []
    else CountedTree(vs[0], parent, base) + CountedAll(vs[1..], parent, base + Size(vs[0]))
  }

  function CountedMembers(ms: seq<Member>, parent: Ptr, base: nat): (h: seq<Node>)
    ensures |h| == SizeMembers(ms)
    decreases ms
  {
    if ms == [] then []
    else CountedTree(ms[0].value, parent, base) + CountedMembers(ms[1..], parent, base + Size(ms[0].value))
  }

  /** The allocation list after n allocations. */
  function Chain(n: nat): (r: seq<Reserved>)
    ensures |r| == n
    ensures forall i :: 0 <= i < n ==> r[i] == NextAlloc(if i + 1 < n then i + 1 else NULL)
  {
    seq(n, i => NextAlloc(if i + 1 < n then i + 1 else NULL))
  }

  // ---- after the second pass

  /** The ids of the roots of consecutive trees laid out from `base`. */
  function Ids(vs: seq<Json>, base: nat): (r: seq<Ptr>)
    ensures |r| == |vs|
    decreases vs
  {
    if vs == [] then [] else [base] + Ids(vs[1..], base + Size(vs[0]))
  }

  function NameArea(ms: seq<Member>): (r: string)
    ensures |r| == NameBytes(ms)
  {
    if ms == [] then [] else ms[0].name + [NUL] + NameArea(ms[1..])
  }

  function Entries(ms: seq<Member>, off: nat, base: nat): (r: seq<Entry>)
    ensures |r| == |ms|
    decreases ms
  {
    if ms == [] then []
    else [Entry(off, |ms[0].name|, base)] + Entries(ms[1..], off + |ms[0].name| + 1, base + Size(ms[0].value))
  }

  function FilledRoot(v: Json, base: nat): Payload {
    match v
    case Str(s) => PStr(|s|, s + [NUL])
    case Arr(vs) => PArr(|vs|, Ids(vs, base + 1))
    case Obj(ms) =>
      if ms == [] then PObj(0, Values.Counted(0))
      else PObj(|ms|, Allocated(Entries(ms, 0, base + 1), NameArea(ms)))
    case _ => CountedRoot(v)
  }

  function FilledTree(v: Json, parent: Ptr, base: nat): (h: seq<Node>)
    ensures |h| == Size(v)
    decreases v
  {
    [Node(parent, FilledRoot(v, base))] +
    match v
    case Arr(vs) => FilledAll(vs, base, base + 1)
    case Obj(ms) => FilledMembers(ms, base, base + 1)
    case _ => []
  }

  function FilledAll(vs: seq<Json>, parent: Ptr, base: nat): (h: seq<Node>)
    ensures |h| == SizeAll(vs)
    decreases vs
  {
    if vs == [] then []
    else FilledTree(vs[0], parent, base) + FilledAll(vs[1..], parent, base + Size(vs[0]))
  }

  function FilledMembers(ms: seq<Member>, parent: Ptr, base: nat): (h: seq<Node>)
    ensures |h| == SizeMembers(ms)
    decreases ms
  {
    if ms == [] then []
    else FilledTree(ms[0].value, parent, base) + FilledMembers(ms[1..], parent, base + Size(ms[0].value))
  }

  // ---- slices

  lemma SliceSplit(h: seq<Node>, k: nat, one: seq<Node>, two: seq<Node>)
    requires k + |one| + |two| <= |h| && h[k..k + |one| + |two|] == one + two
    ensures h[k..k + |one|] == one && h[k + |one|..k + |one| + |two|] == two
  {
    assert h[k..k + |one|] == h[k..k + |one| + |two|][..|one|];
    assert h[k + |one|..k + |one| + |two|] == h[k..k + |one| + |two|][|one|..];
  }
}
