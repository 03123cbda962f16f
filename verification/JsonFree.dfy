/**
 json_value_free_ex: releasing a tree by a loop that uses the length fields and parent
 pointers of the nodes as its stack.
 */
module JsonFree {
  import opened JsonMachine

  datatype Event = FreeBuffer(owner: Ptr) | FreeNode(a: Ptr)

  /** `live[a]` until node a is released; touching it afterwards is the outcome Boom. */
  datatype Store = Store(heap: seq<Node>, live: seq<bool>, value: Ptr, log: seq<Event>)
  datatype Result = Go(s: Store) | Stop(s: Store) | Boom

  function Length(u: Payload): nat {
    match u
    case PArr(n, _) => n
    case PObj(n, _) => n
    case _ => 0
  }

  function WithLength(u: Payload, n: nat): Payload {
    match u
    case PArr(_, slots) => PArr(n, slots)
    case PObj(_, values) => PObj(n, values)
    case _ => u
  }

  function Children(u: Payload): seq<Ptr> {
    match u
    case PArr(_, slots) => slots
    case PObj(_, Allocated(es, _)) => seq(|es|, i requires 0 <= i < |es| => es[i].value)
    case _ => []
  }

  /** The node owns an allocation of its own; a null pointer is not one. */
  predicate HasBuffer(u: Payload) {
    match u
    case PArr(_, slots) => slots != []
    case PObj(_, values) => values.Allocated?
    case PStr(_, buf) => buf != []
    case _ => false
  }

  /** One turn of the loop. */
  function Release(s: Store): Result {
    if s.value == NULL then Stop(s)
    else if !(0 <= s.value < |s.heap| == |s.live|) || !s.live[s.value] then Boom
    else
      var node := s.heap[s.value];
      var n := Length(node.u);
      if n > 0 then
        if n > |Children(node.u)| then Boom
        else
          Go(s.(heap := s.heap[s.value := node.(u := WithLength(node.u, n - 1))],
                value := Children(node.u)[n - 1]))
      else
        Go(s.(live := s.live[s.value := false],
              value := node.parent,
              log := s.log + (if HasBuffer(node.u) then [FreeBuffer(s.value)] else []) + [FreeNode(s.value)]))
  }

  // ---- termination

  /** Every live node counts for itself and for the children it still has to visit. */
  function Weight(h: seq<Node>, live: seq<bool>): nat
    requires |h| == |live|
  {
    if h == [] then 0
    else Weight(h[..|h| - 1], live[..|h| - 1]) + (if live[|h| - 1] then 1 + Length(h[|h| - 1].u) else 0)
  }

  lemma {:induction false} WeightAt(h: seq<Node>, live: seq<bool>, a: nat, x: Node, b: bool)
    requires |h| == |live| && a < |h| && live[a]
    requires var n := if b then 1 + Length(x.u) else 0; n < 1 + Length(h[a].u)
    ensures Weight(h[a := x], live[a := b]) < Weight(h, live)
  {
    var k := |h| - 1;
    var h', live' := h[a := x], live[a := b];
    if a == k {
      assert h'[..k] == h[..k] && live'[..k] == live[..k];
    } else {
      assert h'[..k] == h[..k][a := x] && live'[..k] == live[..k][a := b];
      WeightAt(h[..k], live[..k], a, x, b);
    }
  }

  function Measure(s: Store): nat {
    if |s.heap| == |s.live| then Weight(s.heap, s.live) else 0
  }

  lemma ReleaseDecreases(s: Store)
    ensures Release(s).Go? ==> Measure(Release(s).s) < Measure(s)
  {
    hide Weight;
    if Release(s).Go? {
      var node := s.heap[s.value];
      if Length(node.u) > 0 {
        assert s.live[s.value := true] == s.live;
        WeightAt(s.heap, s.live, s.value, node.(u := WithLength(node.u, Length(node.u) - 1)), true);
      } else {
        assert s.heap[s.value := node] == s.heap;
        WeightAt(s.heap, s.live, s.value, node, false);
      }
    }
  }

  function Loop(s: Store): Result
    decreases Measure(s)
  {
    var r := Release(s);
    if r.Go? then
      ReleaseDecreases(s);
      Loop(r.s)
    else r
  }

  // ---- trees of nodes

  /** Where the nodes of a tree are, and which of them own a buffer. */
  datatype Shape = Shape(addr: Ptr, buffered: bool, kids: seq<Shape>)

  /** Memory from t.addr on is the tree t. */
  ghost predicate Laid(h: seq<Node>, parent: Ptr, t: Shape)
    decreases t
  {
    && 0 <= t.addr < |h| && h[t.addr].parent == parent
    && var u := h[t.addr].u;
       && HasBuffer(u) == t.buffered
       && Length(u) == |t.kids| == |Children(u)|
       && forall i :: 0 <= i < |t.kids| ==> Children(u)[i] == t.kids[i].addr && Laid(h, t.addr, t.kids[i])
  }

  ghost function Nodes(t: Shape): set<Ptr> {
    {t.addr} + NodesOf(t.kids)
  }

  ghost function NodesOf(ts: seq<Shape>): set<Ptr> {
    if ts == [] then {} else NodesOf(ts[..|ts| - 1]) + Nodes(ts[|ts| - 1])
  }

  /** No node occurs twice. */
  ghost predicate Separate(t: Shape) {
    t.addr !in NodesOf(t.kids) && AllSeparate(t.kids)
  }

  ghost predicate AllSeparate(ts: seq<Shape>) {
    ts == [] ||
    (Separate(ts[|ts| - 1]) && NodesOf(ts[..|ts| - 1]) !! Nodes(ts[|ts| - 1]) && AllSeparate(ts[..|ts| - 1]))
  }

  /** The order of release: children from the last to the first, then the node's buffer and the node. */
  function Order(t: Shape): seq<Event> {
    OrderOf(t.kids) + (if t.buffered then [FreeBuffer(t.addr)] else []) + [FreeNode(t.addr)]
  }

  function OrderOf(ts: seq<Shape>): seq<Event> {
    if ts == [] then [] else Order(ts[|ts| - 1]) + OrderOf(ts[..|ts| - 1])
  }

  lemma {:induction false} NodesIn(ts: seq<Shape>, i: nat)
    requires i < |ts|
    ensures Nodes(ts[i]) <= NodesOf(ts)
    decreases |ts|
  {
    if i < |ts| - 1 {
      NodesIn(ts[..|ts| - 1], i);
    }
  }

  /** A tree is a matter of its own nodes. */
  lemma {:induction false} LaidFrame(h: seq<Node>, h': seq<Node>, parent: Ptr, t: Shape)
    requires Laid(h, parent, t) && |h'| == |h|
    requires forall x :: x in Nodes(t) && 0 <= x < |h| ==> h'[x] == h[x]
    ensures Laid(h', parent, t)
    decreases t
  {
    hide HasBuffer, Length, Children;
    forall i | 0 <= i < |t.kids| ensures Laid(h', t.addr, t.kids[i]) {
      NodesIn(t.kids, i);
      LaidFrame(h, h', t.addr, t.kids[i]);
    }
  }

  /** From s to z exactly the nodes in `dead` have been released and nothing else has changed. */
  ghost predicate Released(s: Store, z: Store, dead: set<Ptr>) {
    && |z.heap| == |s.heap| && |z.live| == |s.live| == |s.heap|
    && forall x :: 0 <= x < |s.heap| ==>
         (x in dead ==> !z.live[x]) && (x !in dead ==> z.live[x] == s.live[x] && z.heap[x] == s.heap[x])
  }

  ghost predicate AllLive(s: Store, xs: set<Ptr>) {
    |s.live| == |s.heap| && forall x :: x in xs ==> 0 <= x < |s.live| && s.live[x]
  }

  lemma LoopStep(s: Store)
    ensures Loop(s) == if Release(s).Go? then Loop(Release(s).s) else Release(s)
  {
  }

  lemma {:induction false} FreeTree(s: Store, t: Shape) returns (z: Store)
    requires s.value == t.addr && 0 <= t.addr < |s.heap|
    requires Laid(s.heap, s.heap[t.addr].parent, t) && Separate(t) && AllLive(s, Nodes(t))
    ensures Loop(s) == Loop(z) && Released(s, z, Nodes(t))
    ensures z.value == s.heap[t.addr].parent && z.log == s.log + Order(t)
    decreases t, 0
  {
    hide Loop, Laid, HasBuffer;
    LaidRoot(s.heap, t);
    var y := FreeKids(s, t.addr, t.kids);
    LoopStep(y);
    z := Release(y).s;
    var node := s.heap[t.addr];
    assert y.heap[t.addr] == node.(u := WithLength(node.u, 0));
    BufferStays(node.u, 0);
    assert s.log + OrderOf(t.kids) + (if t.buffered then [FreeBuffer(t.addr)] else []) + [FreeNode(t.addr)]
           == s.log + Order(t);
  }

  lemma LaidRoot(h: seq<Node>, t: Shape)
    requires 0 <= t.addr < |h| && Laid(h, h[t.addr].parent, t)
    ensures var u := h[t.addr].u;
            && HasBuffer(u) == t.buffered && Length(u) == |t.kids| == |Children(u)|
            && forall i :: 0 <= i < |t.kids| ==> Children(u)[i] == t.kids[i].addr && Laid(h, t.addr, t.kids[i])
  {
  }

  lemma BufferStays(u: Payload, n: nat)
    ensures HasBuffer(WithLength(u, n)) == HasBuffer(u) && Children(WithLength(u, n)) == Children(u)
    ensures u.PArr? || u.PObj? ==> Length(WithLength(u, n)) == n
  {
  }

  /** The first children of the node a, from the last of them to the first. */
  lemma {:induction false} FreeKids(s: Store, a: Ptr, ts: seq<Shape>) returns (z: Store)
    requires s.value == a && 0 <= a < |s.heap| && a !in NodesOf(ts) && AllLive(s, {a} + NodesOf(ts))
    requires var u := s.heap[a].u;
             && Length(u) == |ts| <= |Children(u)|
             && forall i :: 0 <= i < |ts| ==> Children(u)[i] == ts[i].addr && Laid(s.heap, a, ts[i])
    requires AllSeparate(ts)
    ensures Loop(s) == Loop(z) && z.value == a && z.log == s.log + OrderOf(ts)
    ensures |z.heap| == |s.heap| && z.heap[a] == s.heap[a].(u := WithLength(s.heap[a].u, 0))
    ensures Released(s, z.(heap := z.heap[a := s.heap[a]]), NodesOf(ts))
    decreases ts, 1
  {
    hide Loop, Laid, HasBuffer, Nodes, Separate, Order, Released;
    var u := s.heap[a].u;
    if ts == [] {
      z := s;
      assert u == WithLength(u, 0);
      assert s.heap[a := s.heap[a]] == s.heap;
      assert Released(s, s, {}) by { Untouched(s); }
    } else {
      var n := |ts| - 1;
      var t := ts[n];
      var s1 := Descend(s, a, ts);
      var s2 := FreeTree(s1, t);
      KidsRemain(s, s1, s2, a, ts);
      z := FreeKids(s2, a, ts[..n]);
      Composed(s, s1, s2, z, a, Nodes(t), NodesOf(ts[..n]));
      assert s.log + Order(t) + OrderOf(ts[..n]) == s.log + OrderOf(ts);
    }
  }

  /** To the last child that is left. */
  lemma Descend(s: Store, a: Ptr, ts: seq<Shape>) returns (z: Store)
    requires ts != [] && s.value == a && 0 <= a < |s.heap| && a !in NodesOf(ts) && AllLive(s, {a} + NodesOf(ts))
    requires var u := s.heap[a].u;
             && Length(u) == |ts| <= |Children(u)|
             && forall i :: 0 <= i < |ts| ==> Children(u)[i] == ts[i].addr && Laid(s.heap, a, ts[i])
    ensures var t := ts[|ts| - 1];
            && z == s.(value := t.addr, heap := s.heap[a := s.heap[a].(u := WithLength(s.heap[a].u, |ts| - 1))])
            && Loop(s) == Loop(z) && 0 <= t.addr < |z.heap| && z.heap[t.addr].parent == a && Laid(z.heap, a, t)
            && AllLive(z, Nodes(t)) && a !in Nodes(t)
  {
    hide Loop, Laid, HasBuffer, Nodes;
    var t := ts[|ts| - 1];
    LoopStep(s);
    z := Release(s).s;
    NodesIn(ts, |ts| - 1);
    assert Laid(s.heap, a, t);
    LaidFrame(s.heap, z.heap, a, t);
    LaidParent(z.heap, a, t);
  }

  /** Releasing one child leaves its elder siblings and the node above them alone. */
  lemma KidsRemain(s: Store, s1: Store, s2: Store, a: Ptr, ts: seq<Shape>)
    requires ts != [] && 0 <= a < |s.heap| && a !in NodesOf(ts) && AllLive(s, {a} + NodesOf(ts)) && AllSeparate(ts)
    requires forall i :: 0 <= i < |ts| ==> Laid(s.heap, a, ts[i])
    requires s.heap[a].u.PArr? || s.heap[a].u.PObj?
    requires s1.heap == s.heap[a := s.heap[a].(u := WithLength(s.heap[a].u, |ts| - 1))] && s1.live == s.live
    requires Released(s1, s2, Nodes(ts[|ts| - 1]))
    ensures var n := |ts| - 1;
            && a !in NodesOf(ts[..n]) && AllLive(s2, {a} + NodesOf(ts[..n])) && |s2.heap| == |s.heap|
            && s2.heap[a] == s.heap[a].(u := WithLength(s.heap[a].u, n))
            && Length(s2.heap[a].u) == n && Children(s2.heap[a].u) == Children(s.heap[a].u)
            && forall i :: 0 <= i < n ==> Laid(s2.heap, a, ts[..n][i])
  {
    hide Laid, HasBuffer, Nodes, WithLength, Length, Children;
    var n := |ts| - 1;
    NodesIn(ts, n);
    BufferStays(s.heap[a].u, n);
    forall i | 0 <= i < n ensures Laid(s2.heap, a, ts[..n][i]) {
      NodesIn(ts[..n], i);
      assert Laid(s.heap, a, ts[i]);
      LaidFrame(s.heap, s2.heap, a, ts[i]);
    }
  }

  lemma Composed(s: Store, s1: Store, s2: Store, z: Store, a: Ptr, one: set<Ptr>, two: set<Ptr>)
    requires 0 <= a < |s.heap| && a !in one && |s1.heap| == |s2.heap| == |z.heap| == |s.heap| && s1.live == s.live
    requires s1.heap == s.heap[a := s1.heap[a]]
    requires Released(s1, s2, one)
    requires Released(s2, z.(heap := z.heap[a := s2.heap[a]]), two)
    ensures Released(s, z.(heap := z.heap[a := s.heap[a]]), two + one)
  {
  }

  lemma Untouched(s: Store)
    requires |s.live| == |s.heap|
    ensures Released(s, s, {})
  {
  }

  lemma LaidParent(h: seq<Node>, parent: Ptr, t: Shape)
    requires Laid(h, parent, t)
    ensures 0 <= t.addr < |h| && h[t.addr].parent == parent
  {
  }

  // ---- exactly once

  /** Everything a tree owns. */
  ghost function Owned(t: Shape): set<Event> {
    OwnedOf(t.kids) + (if t.buffered then {FreeBuffer(t.addr)} else {}) + {FreeNode(t.addr)}
  }

  ghost function OwnedOf(ts: seq<Shape>): set<Event> {
    if ts == [] then {} else OwnedOf(ts[..|ts| - 1]) + Owned(ts[|ts| - 1])
  }

  function Place(e: Event): Ptr {
    if e.FreeNode? then e.a else e.owner
  }

  lemma {:induction false} OwnedPlace(t: Shape)
    ensures forall e :: e in Owned(t) ==> Place(e) in Nodes(t)
    decreases t, 0
  {
    OwnedPlaces(t.kids);
  }

  lemma {:induction false} OwnedPlaces(ts: seq<Shape>)
    ensures forall e :: e in OwnedOf(ts) ==> Place(e) in NodesOf(ts)
    decreases ts, 1
  {
    if ts != [] {
      OwnedPlaces(ts[..|ts| - 1]);
      OwnedPlace(ts[|ts| - 1]);
    }
  }

  /** The order of release names every node and every buffer of the tree once. */
  lemma {:induction false} OrderOnce(t: Shape)
    requires Separate(t)
    ensures multiset(Order(t)) == multiset(Owned(t))
    decreases t, 0
  {
    OrderOnceOf(t.kids);
    OwnedPlaces(t.kids);
    hide OwnedOf, OrderOf, NodesOf, AllSeparate;
    assert forall e :: e in OwnedOf(t.kids) ==> Place(e) != t.addr;
    OneMore(OrderOf(t.kids), OwnedOf(t.kids), t.addr, t.buffered);
  }

  lemma OneMore(order: seq<Event>, kids: set<Event>, a: Ptr, buffered: bool)
    requires multiset(order) == multiset(kids) && forall e :: e in kids ==> Place(e) != a
    ensures var buf := if buffered then {FreeBuffer(a)} else {};
            multiset(order + (if buffered then [FreeBuffer(a)] else []) + [FreeNode(a)])
              == multiset(kids + buf + {FreeNode(a)})
  {
    assert FreeNode(a) !in kids && FreeBuffer(a) !in kids;
    var buf := if buffered then {FreeBuffer(a)} else {};
    assert multiset(kids + buf) == multiset(kids) + multiset(buf);
    assert multiset(kids + buf + {FreeNode(a)}) == multiset(kids + buf) + multiset{FreeNode(a)};
  }

  lemma {:induction false} OrderOnceOf(ts: seq<Shape>)
    requires AllSeparate(ts)
    ensures multiset(OrderOf(ts)) == multiset(OwnedOf(ts))
    decreases ts, 1
  {
    hide Owned, Order, Nodes, Separate;
    if ts != [] {
      var n := |ts| - 1;
      OrderOnce(ts[n]);
      OrderOnceOf(ts[..n]);
      OwnedPlace(ts[n]);
      OwnedPlaces(ts[..n]);
      Joined(OwnedOf(ts[..n]), Owned(ts[n]), NodesOf(ts[..n]), Nodes(ts[n]));
      assert multiset(OrderOf(ts)) == multiset(Order(ts[n])) + multiset(OrderOf(ts[..n]));
    }
  }

  lemma Joined(one: set<Event>, two: set<Event>, a: set<Ptr>, b: set<Ptr>)
    requires a !! b && (forall e :: e in one ==> Place(e) in a) && (forall e :: e in two ==> Place(e) in b)
    ensures multiset(one + two) == multiset(one) + multiset(two)
  {
    assert one !! two;
  }

  // ---- the loop

  /**
   Whatever tree of nodes is given: the loop touches no released node, releases every node
   and every buffer of the tree exactly once, children before parents, and nothing else.
   */
  method FreeEx(nodes: seq<Node>, root: Ptr, ghost t: Shape) returns (heap: seq<Node>, log: seq<Event>)
    requires root != NULL ==> t.addr == root && 0 <= root < |nodes| && Laid(nodes, nodes[root].parent, t) && Separate(t)
    ensures root == NULL ==> log == [] && heap == nodes
    ensures root != NULL ==> log == Order(t) && multiset(log) == multiset(Owned(t))
    ensures |heap| == |nodes|
    ensures forall x :: 0 <= x < |nodes| && (root == NULL || x !in Nodes(t)) ==> heap[x] == nodes[x]
  {
    heap, log := nodes, [];
    if root == NULL {
      return;
    }
    hide Loop, Laid, Separate, Order, Owned, Nodes;
    heap := heap[root := heap[root].(parent := NULL)];
    var value := root;
    ghost var live := seq(|heap|, _ => true);
    ghost var start := Store(heap, live, value, log);
    RootDetached(nodes, heap, t);
    ghost var z := FreeTree(start, t);
    OrderOnce(t);
    while value != NULL
      invariant |heap| == |nodes| == |live|
      invariant Loop(Store(heap, live, value, log)) == Loop(start)
      decreases Measure(Store(heap, live, value, log))
    {
      ghost var s := Store(heap, live, value, log);
      NeverBoom(s, start, z);
      LoopStep(s);
      ReleaseDecreases(s);
      heap, value, log, live := ReleaseOne(heap, value, log, live);
    }
    LoopStep(Store(heap, live, value, log));
    LoopStep(z);
    RootIn(t);
  }

  /** One turn of the loop: down to the last child, or release the node and go up. */
  method ReleaseOne(nodes: seq<Node>, at: Ptr, events: seq<Event>, ghost alive: seq<bool>)
    returns (heap: seq<Node>, value: Ptr, log: seq<Event>, ghost live: seq<bool>)
    requires |nodes| == |alive| && at != NULL && !Release(Store(nodes, alive, at, events)).Boom?
    ensures |heap| == |live| == |nodes|
    ensures Release(Store(nodes, alive, at, events)) == Go(Store(heap, live, value, log))
  {
    heap, value, log, live := nodes, at, events, alive;
    var node := heap[value];
    var n := Length(node.u);
    if n > 0 {
      heap := heap[value := node.(u := WithLength(node.u, n - 1))];
      value := Children(node.u)[n - 1];
    } else {
      if HasBuffer(node.u) {
        log := log + [FreeBuffer(value)];
      }
      log := log + [FreeNode(value)];
      live := live[value := false];
      value := node.parent;
    }
  }

  /** The loop stops at z, so it never reaches a released node. */
  lemma NeverBoom(s: Store, start: Store, z: Store)
    requires Loop(s) == Loop(start) == Loop(z) && z.value == NULL
    ensures !Release(s).Boom?
  {
    LoopStep(s);
    LoopStep(z);
  }

  lemma RootIn(t: Shape)
    ensures t.addr in Nodes(t)
  {
  }

  /** value->parent = 0 */
  lemma RootDetached(h: seq<Node>, h': seq<Node>, t: Shape)
    requires 0 <= t.addr < |h| && Laid(h, h[t.addr].parent, t) && Separate(t)
    requires h' == h[t.addr := h[t.addr].(parent := NULL)]
    ensures Laid(h', NULL, t)
    ensures forall x :: x in Nodes(t) ==> 0 <= x < |h|
  {
    hide HasBuffer, Length, Children;
    LaidInside(h, h[t.addr].parent, t);
    forall i | 0 <= i < |t.kids| ensures Laid(h', t.addr, t.kids[i]) {
      NodesIn(t.kids, i);
      LaidFrame(h, h', t.addr, t.kids[i]);
    }
  }

  lemma {:induction false} LaidInside(h: seq<Node>, parent: Ptr, t: Shape)
    requires Laid(h, parent, t)
    ensures forall x :: x in Nodes(t) ==> 0 <= x < |h|
    decreases t, 0
  {
    hide HasBuffer, Length, Children;
    forall i | 0 <= i < |t.kids| ensures forall x :: x in Nodes(t.kids[i]) ==> 0 <= x < |h| {
      LaidInside(h, t.addr, t.kids[i]);
    }
    AllInside(h, t.kids);
  }

  lemma {:induction false} AllInside(h: seq<Node>, ts: seq<Shape>)
    requires forall i :: 0 <= i < |ts| ==> forall x :: x in Nodes(ts[i]) ==> 0 <= x < |h|
    ensures forall x :: x in NodesOf(ts) ==> 0 <= x < |h|
    decreases |ts|
  {
    hide Nodes;
    if ts != [] {
      AllInside(h, ts[..|ts| - 1]);
    }
  }
}
