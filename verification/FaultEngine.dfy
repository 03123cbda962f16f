/**
 Choosing a fault for an operation and applying it: path matching, random draws, the
 countdown of corrupt faults and the corruption of buffers.
 */
module FaultEngine {
  import opened CText
  import opened Fault

  // ---- randomness

  /** A result of drand48. */
  type Unit = x: real | 0.0 <= x < 1.0

  /** The results of the successive calls of drand48 and lrand48, the latter cut to its low byte. */
  datatype Oracle = Oracle(u: nat -> Unit, low: nat -> char)

  class Rng {
    const o: Oracle
    var next: nat

    constructor (o: Oracle)
      ensures this.o == o && next == 0
    {
      this.o := o;
      next := 0;
    }

    method Drand48() returns (x: Unit)
      modifies this
      ensures x == o.u(old(next)) && next == old(next) + 1
    {
      x := o.u(next);
      next := next + 1;
    }

    method Lrand48() returns (c: char)
      modifies this
      ensures c == o.low(old(next)) && next == old(next) + 1
    {
      c := o.low(next);
      next := next + 1;
    }
  }

  // ---- matching

  datatype Op = Read | Write

  function OpOf(f: Fault): Op {
    if f.Unreadable? || f.ReadDelay? || f.ReadCorrupt? then Read else Write
  }

  predicate PathMatches(f: Fault, path: string) {
    f.prefix <= path && |f.suffix| <= |path| && path[|path| - |f.suffix|..] == f.suffix
  }

  /** The fault concerns this path and operation; only a delay then still asks for a draw. */
  predicate Concerns(f: Fault, path: string, op: Op) {
    OpOf(f) == op && PathMatches(f, path)
  }

  /** Whether the fault matches when the next draw would be `x`. */
  predicate Hits(f: Fault, path: string, op: Op, x: real) {
    Concerns(f, path, op) && (IsDelay(f) ==> x <= f.fraction)
  }

  /** How many draws visiting the first i faults takes. */
  function Draws(fs: seq<Fault>, path: string, op: Op, i: nat): nat
    requires i <= |fs|
  {
    if i == 0 then 0
    else Draws(fs, path, op, i - 1) + if Concerns(fs[i - 1], path, op) && IsDelay(fs[i - 1]) then 1 else 0
  }

  /** Fault i matches under the draw that is next when the search reaches it. */
  predicate HitsAt(fs: seq<Fault>, path: string, op: Op, o: Oracle, n: nat, i: nat)
    requires i < |fs|
  {
    Hits(fs[i], path, op, o.u(n + Draws(fs, path, op, i)))
  }

  /** kibosh_fault_matches */
  method Matches(f: Fault, path: string, op: Op, rng: Rng) returns (b: bool)
    modifies rng
    ensures b == Hits(f, path, op, rng.o.u(old(rng.next)))
    ensures rng.next == old(rng.next) + if Concerns(f, path, op) && IsDelay(f) then 1 else 0
  {
    if OpOf(f) != op {
      return false;
    }
    if !(f.prefix <= path) {
      return false;
    }
    if |f.suffix| > |path| || path[|path| - |f.suffix|..] != f.suffix {
      return false;
    }
    if IsDelay(f) {
      var x := rng.Drand48();
      return x <= f.fraction;
    }
    return true;
  }

  /** The first fault that matches, and the number of calls made when it is found. */
  ghost predicate IsFirst(fs: seq<Fault>, path: string, op: Op, o: Oracle, n: nat, r: Option<nat>, after: nat) {
    match r
    case Some(i) =>
      && i < |fs| && HitsAt(fs, path, op, o, n, i)
      && (forall j: nat :: j < i ==> !HitsAt(fs, path, op, o, n, j))
      && after == n + Draws(fs, path, op, i + 1)
    case None =>
      && (forall j: nat :: j < |fs| ==> !HitsAt(fs, path, op, o, n, j))
      && after == n + Draws(fs, path, op, |fs|)
  }

  // ---- the same in terms of prefixes, suffixes and draws

  /** A read fault for a read, a write fault for a write, whose prefix begins the path and whose suffix ends it. */
  ghost predicate Touches(f: Fault, path: string, op: Op) {
    && (match f
        case Unreadable(_, _, _) => op == Read
        case ReadDelay(_, _, _, _) => op == Read
        case ReadCorrupt(_, _, _, _, _) => op == Read
        case Unwritable(_, _, _) => op == Write
        case WriteDelay(_, _, _, _) => op == Write
        case WriteCorrupt(_, _, _, _, _) => op == Write)
    && (exists rest :: path == f.prefix + rest) && (exists rest :: path == rest + f.suffix)
  }

  lemma ConcernsIs(f: Fault, path: string, op: Op)
    ensures Concerns(f, path, op) <==> Touches(f, path, op)
  {
    PrefixIs(f.prefix, path);
    SuffixIs(f.suffix, path);
  }

  lemma PrefixIs(prefix: string, path: string)
    ensures prefix <= path <==> exists rest :: path == prefix + rest
  {
    if prefix <= path {
      assert path == prefix + path[|prefix|..];
    }
  }

  lemma SuffixIs(suffix: string, path: string)
    ensures |suffix| <= |path| && path[|path| - |suffix|..] == suffix <==> exists rest :: path == rest + suffix
  {
    var k := |path| - |suffix|;
    if k >= 0 && path[k..] == suffix {
      assert path == path[..k] + suffix;
    }
    if rest :| path == rest + suffix {
      assert |rest| == k && path[k..] == suffix;
    }
  }

  /** How many delays among the first i faults touch the path: each of them takes one draw when it is visited. */
  ghost function Delays(fs: seq<Fault>, path: string, op: Op, i: nat): nat
    requires i <= |fs|
  {
    if i == 0 then 0
    else
      Delays(fs, path, op, i - 1) +
      if (fs[i - 1].ReadDelay? || fs[i - 1].WriteDelay?) && Touches(fs[i - 1], path, op) then 1 else 0
  }

  lemma {:induction false} DrawsAre(fs: seq<Fault>, path: string, op: Op, i: nat)
    requires i <= |fs|
    ensures Draws(fs, path, op, i) == Delays(fs, path, op, i)
  {
    hide Concerns, Touches;
    if i > 0 {
      DrawsAre(fs, path, op, i - 1);
      ConcernsIs(fs[i - 1], path, op);
    }
  }

  /** Fault i acts: it touches the path and, if it is a delay, its draw is at most its fraction. */
  ghost predicate Acts(fs: seq<Fault>, path: string, op: Op, o: Oracle, n: nat, i: nat)
    requires i < |fs|
  {
    && Touches(fs[i], path, op)
    && (fs[i].ReadDelay? || fs[i].WriteDelay? ==> o.u(n + Delays(fs, path, op, i)) <= fs[i].fraction)
  }

  /** r is the earliest fault that acts, `after` the number of draws made by then. */
  ghost predicate Earliest(fs: seq<Fault>, path: string, op: Op, o: Oracle, n: nat, r: Option<nat>, after: nat) {
    var end := if r.Some? then r.value else |fs|;
    && end <= |fs| && (forall j: nat :: j < end ==> !Acts(fs, path, op, o, n, j))
    && match r
       case Some(i) => i < |fs| && Acts(fs, path, op, o, n, i) && after == n + Delays(fs, path, op, i + 1)
       case None => after == n + Delays(fs, path, op, |fs|)
  }

  lemma ActsIs(fs: seq<Fault>, path: string, op: Op, o: Oracle, n: nat, i: nat)
    requires i < |fs|
    ensures HitsAt(fs, path, op, o, n, i) <==> Acts(fs, path, op, o, n, i)
  {
    hide Concerns, Touches, Draws, Delays;
    ConcernsIs(fs[i], path, op);
    DrawsAre(fs, path, op, i);
  }

  lemma FirstIsEarliest(fs: seq<Fault>, path: string, op: Op, o: Oracle, n: nat, r: Option<nat>, after: nat)
    ensures IsFirst(fs, path, op, o, n, r, after) <==> Earliest(fs, path, op, o, n, r, after)
  {
    forall j: nat | j < |fs|
      ensures HitsAt(fs, path, op, o, n, j) <==> Acts(fs, path, op, o, n, j)
    {
      ActsIs(fs, path, op, o, n, j);
    }
    hide HitsAt, Acts, Draws, Delays;
    if r.None? {
      DrawsAre(fs, path, op, |fs|);
    } else if r.value < |fs| {
      DrawsAre(fs, path, op, r.value + 1);
    }
  }

  /** If no fault touches the path, none is found and nothing is drawn. */
  lemma {:induction false} Untouched(fs: seq<Fault>, path: string, op: Op, o: Oracle, n: nat)
    requires forall j :: 0 <= j < |fs| ==> !Touches(fs[j], path, op)
    ensures Earliest(fs, path, op, o, n, None, n)
  {
    NoDelays(fs, path, op, |fs|);
    hide Touches;
  }

  lemma {:induction false} NoDelays(fs: seq<Fault>, path: string, op: Op, i: nat)
    requires i <= |fs| && forall j :: 0 <= j < |fs| ==> !Touches(fs[j], path, op)
    ensures Delays(fs, path, op, i) == 0
  {
    hide Touches;
    if i > 0 {
      NoDelays(fs, path, op, i - 1);
    }
  }

  /** A fault that touches the path and is no delay, or a delay with a fraction of one, stops the search. */
  lemma SureStops(fs: seq<Fault>, path: string, op: Op, o: Oracle, n: nat, i: nat, r: Option<nat>, after: nat)
    requires i < |fs| && Touches(fs[i], path, op) && (IsDelay(fs[i]) ==> fs[i].fraction >= 1.0)
    requires Earliest(fs, path, op, o, n, r, after)
    ensures r.Some? && r.value <= i
  {
    hide Touches, Delays;
    assert Acts(fs, path, op, o, n, i);
  }

  /** find_first_fault */
  method FindFirst(fs: seq<Fault>, path: string, op: Op, rng: Rng) returns (r: Option<nat>)
    modifies rng
    ensures Earliest(fs, path, op, rng.o, old(rng.next), r, rng.next)
    ensures IsFirst(fs, path, op, rng.o, old(rng.next), r, rng.next)
  {
    hide Hits, Concerns, IsDelay, Acts, Delays, Earliest;
    ghost var n := rng.next;
    for i := 0 to |fs|
      invariant rng.next == n + Draws(fs, path, op, i)
      invariant forall j: nat :: j < i ==> !HitsAt(fs, path, op, rng.o, n, j)
    {
      var b := Matches(fs[i], path, op, rng);
      if b {
        FirstIsEarliest(fs, path, op, rng.o, n, Some(i), rng.next);
        return Some(i);
      }
    }
    FirstIsEarliest(fs, path, op, rng.o, n, None, rng.next);
    return None;
  }

  /** What is found for a read is a read fault, for a write a write fault, and it concerns the path. */
  lemma FirstConcerns(fs: seq<Fault>, path: string, op: Op, o: Oracle, n: nat, r: Option<nat>, after: nat)
    requires IsFirst(fs, path, op, o, n, r, after) && r.Some?
    ensures OpOf(fs[r.value]) == op && PathMatches(fs[r.value], path)
  {
    assert HitsAt(fs, path, op, o, n, r.value);
  }

  /** The choice is determined by the draws. */
  lemma FirstUnique(fs: seq<Fault>, path: string, op: Op, o: Oracle, n: nat, r: Option<nat>, after: nat,
                    r': Option<nat>, after': nat)
    requires IsFirst(fs, path, op, o, n, r, after) && IsFirst(fs, path, op, o, n, r', after')
    ensures r == r' && after == after'
  {
    hide HitsAt;
  }

  /** The choice as a function, for the specifications of the callers. */
  function First(fs: seq<Fault>, path: string, op: Op, o: Oracle, n: nat, i: nat): (res: (Option<nat>, nat))
    requires i <= |fs|
    decreases |fs| - i
  {
    if i == |fs| then (None, n)
    else
      var n' := if Concerns(fs[i], path, op) && IsDelay(fs[i]) then n + 1 else n;
      if Hits(fs[i], path, op, o.u(n)) then (Some(i), n') else First(fs, path, op, o, n', i + 1)
  }

  lemma {:induction false} FirstIsFirst(fs: seq<Fault>, path: string, op: Op, o: Oracle, n: nat, i: nat)
    requires i <= |fs|
    requires forall j: nat :: j < i ==> !HitsAt(fs, path, op, o, n, j)
    ensures var r := First(fs, path, op, o, n + Draws(fs, path, op, i), i);
            IsFirst(fs, path, op, o, n, r.0, r.1)
    decreases |fs| - i
  {
    hide Hits, Concerns, IsDelay;
    if i < |fs| && !HitsAt(fs, path, op, o, n, i) {
      FirstIsFirst(fs, path, op, o, n, i + 1);
    }
  }

  // ---- corruption

  lemma ScaledInside(x: real, y: real)
    requires 0.0 <= x < 1.0 && 0.0 < y
    ensures 0.0 <= x * y < y
  {
    assert 0.0 < (1.0 - x) * y;
  }

  function Truncate(y: real, size: nat): (r: nat)
    requires 0.0 <= y < size as real
    ensures r < size && r as real <= y < (r + 1) as real
  {
    y.Floor
  }

  /** (int) (drand48 () * size) */
  function Cut(x: Unit, size: nat): (r: nat)
    ensures r <= size
    ensures size > 0 ==> r < size
  {
    if size == 0 then 0
    else
      ScaledInside(x, size as real);
      Truncate(x * size as real, size)
  }

  /** The draw, scaled to the size, lies between the cut and the next integer. */
  lemma CutIs(x: Unit, size: nat)
    requires size > 0
    ensures Cut(x, size) as real <= x * size as real < (Cut(x, size) + 1) as real
  {
    ScaledInside(x, size as real);
  }

  lemma CutBelow(y: real, cut: nat, i: nat)
    requires cut as real <= y < (cut + 1) as real
    ensures i < cut <==> (i + 1) as real <= y
  {
    if i < cut {
      assert (i + 1) as real <= cut as real;
    } else {
      assert (cut + 1) as real <= (i + 1) as real;
    }
  }

  function Zeroed(buf: seq<char>, fraction: real, o: Oracle, n: nat): (r: seq<char>)
    ensures |r| == |buf|
  {
    seq(|buf|, i requires 0 <= i < |buf| => if o.u(n + i) <= fraction then NUL else buf[i])
  }

  /** CORRUPT_RAND from byte i on: a draw for each byte and, if it is hit, another for its value. */
  function Randomised(buf: seq<char>, i: nat, fraction: real, o: Oracle, n: nat): (r: (seq<char>, nat))
    requires i <= |buf|
    ensures |r.0| == |buf|
    decreases |buf| - i
  {
    if i == |buf| then (buf, n)
    else if o.u(n) <= fraction then Randomised(buf[i := o.low(n + 1)], i + 1, fraction, o, n + 2)
    else Randomised(buf, i + 1, fraction, o, n + 1)
  }

  function Noise(k: nat, o: Oracle, n: nat): (r: seq<char>)
    ensures |r| == k
  {
    seq(k, i requires 0 <= i => o.low(n + i))
  }

  function Zeros(k: nat): (r: seq<char>)
    ensures |r| == k
  {
    seq(k, _ => NUL)
  }

  /** The buffer, the length to report and the number of calls made so far. */
  datatype Corruption = Corruption(buf: seq<char>, ret: nat, next: nat)

  function Corrupted(buf: seq<char>, mode: int, fraction: real, o: Oracle, n: nat): Corruption {
    var size := |buf|;
    var cut := Cut(o.u(n), size);
    if mode == CORRUPT_ZERO then Corruption(Zeroed(buf, fraction, o, n), size, n + size)
    else if mode == CORRUPT_RAND then
      var r := Randomised(buf, 0, fraction, o, n);
      Corruption(r.0, size, r.1)
    else if mode == CORRUPT_RAND_SEQ then Corruption(buf[..cut] + Noise(size - cut, o, n + 1), size, n + 1 + size - cut)
    else if mode == CORRUPT_ZERO_SEQ then Corruption(buf[..cut] + Zeros(size - cut), size, n + 1)
    else if mode == CORRUPT_DROP then Corruption(buf, cut, n + 1)
    else Corruption(buf, size, n)
  }

  /** corrupt_buffer */
  method CorruptBuffer(buf: array<char>, size: nat, mode: int, fraction: real, rng: Rng) returns (ret: nat)
    requires size <= buf.Length
    modifies buf, rng
    ensures Corrupted(old(buf[..size]), mode, fraction, rng.o, old(rng.next)) == Corruption(buf[..size], ret, rng.next)
    ensures buf[size..] == old(buf[size..])
  {
    hide Cut, Zeroed, Randomised, Noise, Zeros;
    if mode == CORRUPT_ZERO {
      CorruptZero(buf, size, fraction, rng);
    } else if mode == CORRUPT_RAND {
      CorruptRand(buf, size, fraction, rng);
    } else if mode == CORRUPT_RAND_SEQ {
      CorruptRandSeq(buf, size, rng);
    } else if mode == CORRUPT_ZERO_SEQ {
      CorruptZeroSeq(buf, size, rng);
    } else if mode == CORRUPT_DROP {
      var x := rng.Drand48();
      return Cut(x, size);
    }
    return size;
  }

  method CorruptZero(buf: array<char>, size: nat, fraction: real, rng: Rng)
    requires size <= buf.Length
    modifies buf, rng
    ensures rng.next == old(rng.next) + size
    ensures buf[..size] == Zeroed(old(buf[..size]), fraction, rng.o, old(rng.next))
    ensures buf[size..] == old(buf[size..])
  {
    ghost var n := rng.next;
    for i := 0 to size
      invariant rng.next == n + i
      invariant forall j :: 0 <= j < i ==> buf[j] == if rng.o.u(n + j) <= fraction then NUL else old(buf[j])
      invariant forall j :: i <= j < buf.Length ==> buf[j] == old(buf[j])
    {
      var x := rng.Drand48();
      if x <= fraction {
        buf[i] := NUL;
      }
    }
  }

  method CorruptRand(buf: array<char>, size: nat, fraction: real, rng: Rng)
    requires size <= buf.Length
    modifies buf, rng
    ensures Randomised(old(buf[..size]), 0, fraction, rng.o, old(rng.next)) == (buf[..size], rng.next)
    ensures buf[size..] == old(buf[size..])
  {
    ghost var goal := Randomised(buf[..size], 0, fraction, rng.o, rng.next);
    for i := 0 to size
      invariant Randomised(buf[..size], i, fraction, rng.o, rng.next) == goal
      invariant buf[size..] == old(buf[size..])
    {
      var x := rng.Drand48();
      if x <= fraction {
        var c := rng.Lrand48();
        ghost var before := buf[..size];
        buf[i] := c;
        assert buf[..size] == before[i := c];
      }
    }
  }

  method CorruptRandSeq(buf: array<char>, size: nat, rng: Rng)
    requires size <= buf.Length
    modifies buf, rng
    ensures var n := old(rng.next); var cut := Cut(rng.o.u(n), size);
            && buf[..size] == old(buf[..size])[..cut] + Noise(size - cut, rng.o, n + 1)
            && rng.next == n + 1 + size - cut
    ensures buf[size..] == old(buf[size..])
  {
    hide Cut;
    ghost var n := rng.next;
    var x := rng.Drand48();
    var i := Cut(x, size);
    ghost var cut := i;
    while i < size
      invariant cut <= i <= size && rng.next == n + 1 + i - cut
      invariant forall j :: 0 <= j < cut || i <= j < buf.Length ==> buf[j] == old(buf[j])
      invariant forall j :: cut <= j < i ==> buf[j] == rng.o.low(n + 1 + (j - cut))
    {
      var c := rng.Lrand48();
      buf[i] := c;
      i := i + 1;
    }
    assert buf[cut..size] == Noise(size - cut, rng.o, n + 1);
  }

  method CorruptZeroSeq(buf: array<char>, size: nat, rng: Rng)
    requires size <= buf.Length
    modifies buf, rng
    ensures var cut := Cut(rng.o.u(old(rng.next)), size);
            buf[..size] == old(buf[..size])[..cut] + Zeros(size - cut)
    ensures rng.next == old(rng.next) + 1
    ensures buf[size..] == old(buf[size..])
  {
    hide Cut;
    var x := rng.Drand48();
    var i := Cut(x, size);
    forall j | i <= j < size {
      buf[j] := NUL;
    }
    assert buf[i..size] == Zeros(size - i);
  }

  /** The draw of each byte of CORRUPT_RAND, from byte i on: a byte that is hit takes a second one. */
  function DrawOf(i: nat, j: nat, fraction: real, o: Oracle, n: nat): nat
    requires i <= j
    decreases j
  {
    if j == i then n
    else
      var m := DrawOf(i, j - 1, fraction, o, n);
      if o.u(m) <= fraction then m + 2 else m + 1
  }

  lemma {:induction false} DrawShift(i: nat, j: nat, fraction: real, o: Oracle, n: nat)
    requires i < j
    ensures DrawOf(i, j, fraction, o, n) == DrawOf(i + 1, j, fraction, o, if o.u(n) <= fraction then n + 2 else n + 1)
    decreases j
  {
    if j > i + 1 {
      DrawShift(i, j - 1, fraction, o, n);
    } else {
      assert DrawOf(i, i, fraction, o, n) == n;
    }
  }

  lemma {:induction false} RandomisedIs(buf: seq<char>, i: nat, fraction: real, o: Oracle, n: nat)
    requires i <= |buf|
    ensures var r := Randomised(buf, i, fraction, o, n);
            && r.0[..i] == buf[..i] && r.1 == DrawOf(i, |buf|, fraction, o, n)
            && forall j :: i <= j < |buf| ==>
                 var m := DrawOf(i, j, fraction, o, n);
                 r.0[j] == if o.u(m) <= fraction then o.low(m + 1) else buf[j]
    decreases |buf| - i
  {
    if i < |buf| {
      var hit := o.u(n) <= fraction;
      var b, n' := if hit then buf[i := o.low(n + 1)] else buf, if hit then n + 2 else n + 1;
      RandomisedIs(b, i + 1, fraction, o, n');
      var r := Randomised(b, i + 1, fraction, o, n');
      assert r.0[..i] == r.0[..i + 1][..i] && b[..i + 1][..i] == buf[..i];
      assert r.0[i] == r.0[..i + 1][i] == b[i];
      forall j | i < j <= |buf|
        ensures DrawOf(i, j, fraction, o, n) == DrawOf(i + 1, j, fraction, o, n')
      {
        DrawShift(i, j, fraction, o, n);
      }
      assert DrawOf(i, i, fraction, o, n) == n;
    }
  }

  lemma {:induction false} DrawBounds(j: nat, fraction: real, o: Oracle, n: nat)
    ensures n + j <= DrawOf(0, j, fraction, o, n) <= n + 2 * j
    ensures fraction >= 1.0 ==> DrawOf(0, j, fraction, o, n) == n + 2 * j
    ensures fraction < 0.0 ==> DrawOf(0, j, fraction, o, n) == n + j
  {
    if j > 0 {
      DrawBounds(j - 1, fraction, o, n);
    }
  }

  /**
   The length reported is the whole buffer for every mode but DROP, which changes nothing and reports the draw's
   share of it, rounded down. The number of calls made is given for each mode.
   */
  lemma CorruptedLength(buf: seq<char>, mode: int, fraction: real, o: Oracle, n: nat)
    ensures var c, y := Corrupted(buf, mode, fraction, o, n), o.u(n) * |buf| as real;
            && |c.buf| == |buf| && c.ret <= |buf| && c.next >= n
            && (mode != CORRUPT_DROP ==> c.ret == |buf|)
            && (mode == CORRUPT_DROP ==>
                  && c.buf == buf && c.next == n + 1
                  && if buf == [] then c.ret == 0 else c.ret < |buf| && c.ret as real <= y < (c.ret + 1) as real)
            && (mode == CORRUPT_ZERO ==> c.next == n + |buf|)
            && (mode == CORRUPT_ZERO_SEQ ==> c.next == n + 1)
            && (mode == CORRUPT_RAND ==> c.next == DrawOf(0, |buf|, fraction, o, n))
            && (mode !in {CORRUPT_ZERO, CORRUPT_RAND, CORRUPT_ZERO_SEQ, CORRUPT_RAND_SEQ, CORRUPT_DROP} ==>
                  c == Corruption(buf, |buf|, n))
  {
    if mode == CORRUPT_DROP {
      DropLength(buf, fraction, o, n);
      hide Corrupted, DrawOf;
    } else {
      RandomisedIs(buf, 0, fraction, o, n);
      DrawBounds(|buf|, fraction, o, n);
      hide Cut, Zeroed, Noise, Zeros, DrawOf, Randomised;
    }
  }

  lemma DropLength(buf: seq<char>, fraction: real, o: Oracle, n: nat)
    ensures var c, y := Corrupted(buf, CORRUPT_DROP, fraction, o, n), o.u(n) * |buf| as real;
            && c.buf == buf && c.next == n + 1
            && if buf == [] then c.ret == 0 else c.ret < |buf| && c.ret as real <= y < (c.ret + 1) as real
  {
    if buf != [] {
      CutIs(o.u(n), |buf|);
    }
    hide Cut, Zeroed, Noise, Zeros, Randomised;
  }

  /**
   Byte by byte: ZERO and RAND hit a byte if its draw is at most the fraction; the -SEQ modes keep a byte if and only if
   it lies wholly before the draw's share of the buffer, and overwrite the others in order.
   */
  lemma CorruptedBytes(buf: seq<char>, mode: int, fraction: real, o: Oracle, n: nat, i: nat)
    requires i < |buf|
    ensures var c, y := Corrupted(buf, mode, fraction, o, n), o.u(n) * |buf| as real;
            var m := DrawOf(0, i, fraction, o, n);
            && (mode == CORRUPT_ZERO ==> c.buf[i] == if o.u(n + i) <= fraction then NUL else buf[i])
            && (mode == CORRUPT_RAND ==> c.buf[i] == if o.u(m) <= fraction then o.low(m + 1) else buf[i])
            && (mode == CORRUPT_ZERO_SEQ ==> c.buf[i] == if (i + 1) as real <= y then buf[i] else NUL)
            && (mode == CORRUPT_RAND_SEQ ==>
                  if (i + 1) as real <= y then c.buf[i] == buf[i]
                  else c.buf[i] == o.low(c.next - (|buf| - i)) && c.next - (|buf| - i) > n)
  {
    if mode == CORRUPT_ZERO || mode == CORRUPT_RAND {
      RandomisedIs(buf, 0, fraction, o, n);
      hide Cut, DrawOf, Randomised;
    } else {
      SequentialBytes(buf, mode, fraction, o, n, i);
      hide Corrupted, DrawOf;
    }
  }

  lemma SequentialBytes(buf: seq<char>, mode: int, fraction: real, o: Oracle, n: nat, i: nat)
    requires i < |buf|
    ensures var c, y := Corrupted(buf, mode, fraction, o, n), o.u(n) * |buf| as real;
            && (mode == CORRUPT_ZERO_SEQ ==> c.buf[i] == if (i + 1) as real <= y then buf[i] else NUL)
            && (mode == CORRUPT_RAND_SEQ ==>
                  if (i + 1) as real <= y then c.buf[i] == buf[i]
                  else c.buf[i] == o.low(c.next - (|buf| - i)) && c.next - (|buf| - i) > n)
  {
    var cut := Cut(o.u(n), |buf|);
    CutIs(o.u(n), |buf|);
    CutBelow(o.u(n) * |buf| as real, cut, i);
    hide Cut, Randomised, Zeroed;
    if mode == CORRUPT_RAND_SEQ {
      assert (buf[..cut] + Noise(|buf| - cut, o, n + 1))[i] == if i < cut then buf[i] else o.low(n + 1 + (i - cut));
    }
  }

  /** RAND_SEQ takes one call for the cut and one for each byte behind it. */
  lemma RandSeqCalls(buf: seq<char>, fraction: real, o: Oracle, n: nat)
    requires buf != []
    ensures var c, y := Corrupted(buf, CORRUPT_RAND_SEQ, fraction, o, n), o.u(n) * |buf| as real;
            var kept := n + 1 + |buf| - c.next;
            0 <= kept < |buf| && kept as real <= y < (kept + 1) as real
  {
    CutIs(o.u(n), |buf|);
    hide Cut;
  }

  /** A fraction of one hits every byte. */
  lemma WholeFraction(buf: seq<char>, fraction: real, o: Oracle, n: nat, i: nat)
    requires i < |buf| && fraction >= 1.0
    ensures Corrupted(buf, CORRUPT_ZERO, fraction, o, n).buf[i] == NUL
    ensures Corrupted(buf, CORRUPT_RAND, fraction, o, n).buf[i] == o.low(n + 2 * i + 1)
  {
    CorruptedBytes(buf, CORRUPT_ZERO, fraction, o, n, i);
    CorruptedBytes(buf, CORRUPT_RAND, fraction, o, n, i);
    DrawBounds(i, fraction, o, n);
    hide Corrupted, DrawOf;
  }

  // ---- the countdown

  /** What an application does to the fault itself. */
  function Counted(f: Fault): (r: Fault)
    ensures r.ReadCorrupt? == f.ReadCorrupt? && r.WriteCorrupt? == f.WriteCorrupt?
  {
    match f
    case ReadCorrupt(p, s, mode, count, fraction) =>
      if count > 0 then ReadCorrupt(p, s, mode, count - 1, fraction)
      else if count == 0 then ReadCorrupt(p, s, CORRUPT_DROP, 0, 1.0)
      else f
    case WriteCorrupt(p, s, mode, count, fraction) =>
      if count > 0 then WriteCorrupt(p, s, mode, count - 1, fraction)
      else if count == 0 then WriteCorrupt(p, s, CORRUPT_DROP, 0, 1.0)
      else f
    case _ => f
  }

  function CountedBy(f: Fault, k: nat): (r: Fault)
    ensures r.ReadCorrupt? == f.ReadCorrupt? && r.WriteCorrupt? == f.WriteCorrupt?
  {
    if k == 0 then f else Counted(CountedBy(f, k - 1))
  }

  /** The k-th application of a corrupt fault with count n uses its own mode up to k = n and drops ever after. */
  lemma {:induction false} Countdown(f: Fault, k: nat)
    requires IsCorrupt(f) && k > 0
    ensures CountedBy(f, k) == if f.count < 0 then f
                               else if k <= f.count then f.(count := f.count - k)
                               else f.(count := 0, mode := CORRUPT_DROP, fraction := 1.0)
  {
    if k == 1 {
      assert CountedBy(f, 1) == Counted(CountedBy(f, 0)) == Counted(f);
    } else {
      Countdown(f, k - 1);
    }
  }

  // ---- applying

  /** -|code| */
  function ErrorOf(code: int): int {
    if code < 0 then code else -code
  }

  /** The fault afterwards, the buffer, the result, the delay and the calls made. */
  datatype Applied = Applied(fault: Fault, buf: seq<char>, ret: int, delayMs: int, next: nat)

  function ReadApplied(f: Fault, buf: seq<char>, o: Oracle, n: nat): Applied {
    match f
    case Unreadable(_, _, code) => Applied(f, buf, ErrorOf(code), 0, n)
    case ReadDelay(_, _, ms, _) => Applied(f, buf, |buf|, ms, n)
    case ReadCorrupt(_, _, _, _, _) =>
      var c := Corrupted(buf, Counted(f).mode, Counted(f).fraction, o, n);
      Applied(Counted(f), c.buf, c.ret, 0, c.next)
    case _ => Applied(f, buf, |buf|, 0, n)
  }

  /** apply_read_fault on the first nread bytes of buf. */
  method ApplyRead(f: Fault, buf: array<char>, nread: nat, rng: Rng) returns (f': Fault, ret: int, delayMs: int)
    requires nread <= buf.Length
    modifies buf, rng
    ensures ReadApplied(f, old(buf[..nread]), rng.o, old(rng.next)) == Applied(f', buf[..nread], ret, delayMs, rng.next)
    ensures buf[nread..] == old(buf[nread..])
  {
    hide Corrupted;
    f', ret, delayMs := f, nread, 0;
    match f {
      case Unreadable(_, _, code) =>
        ret := if code < 0 then code else -code;
      case ReadDelay(_, _, ms, _) =>
        delayMs := ms;
      case ReadCorrupt(prefix, suffix, m, n, x) =>
        var mode, count, fraction := m, n, x;
        if count > 0 {
          count := count - 1;
        } else if count == 0 {
          mode := CORRUPT_DROP;
          fraction := 1.0;
        }
        f' := ReadCorrupt(prefix, suffix, mode, count, fraction);
        ret := CorruptBuffer(buf, nread, mode, fraction, rng);
      case _ =>
    }
  }

  /** Writes hand on a private copy when they corrupt, and the caller's bytes otherwise. */
  function WriteApplied(f: Fault, buf: seq<char>, o: Oracle, n: nat): Applied {
    match f
    case Unwritable(_, _, code) => Applied(f, buf, ErrorOf(code), 0, n)
    case WriteDelay(_, _, ms, _) => Applied(f, buf, |buf|, ms, n)
    case WriteCorrupt(_, _, _, _, _) =>
      var c := Corrupted(buf, Counted(f).mode, Counted(f).fraction, o, n);
      Applied(Counted(f), c.buf, c.ret, 0, c.next)
    case _ => Applied(f, buf, |buf|, 0, n)
  }

  /** apply_write_fault: the caller's buffer is never modified. */
  method ApplyWrite(f: Fault, buf: array<char>, rng: Rng)
    returns (f': Fault, effective: array<char>, ret: int, delayMs: int)
    modifies rng
    ensures WriteApplied(f, buf[..], rng.o, old(rng.next)) == Applied(f', effective[..], ret, delayMs, rng.next)
    ensures effective == buf || fresh(effective)
  {
    f', effective, ret, delayMs := f, buf, buf.Length, 0;
    match f {
      case Unwritable(_, _, code) =>
        ret := if code < 0 then code else -code;
      case WriteDelay(_, _, ms, _) =>
        delayMs := ms;
      case WriteCorrupt(prefix, suffix, m, n, x) =>
        var mode, count, fraction := m, n, x;
        if count > 0 {
          count := count - 1;
        } else if count == 0 {
          mode := CORRUPT_DROP;
          fraction := 1.0;
        }
        f' := WriteCorrupt(prefix, suffix, mode, count, fraction);
        if mode == CORRUPT_DROP {
          var draw := rng.Drand48();
          ret := Cut(draw, buf.Length);
        } else {
          effective, ret := CorruptCopy(buf, mode, fraction, rng);
        }
      case _ =>
    }
  }

  method CorruptCopy(buf: array<char>, mode: int, fraction: real, rng: Rng) returns (copy: array<char>, ret: nat)
    modifies rng
    ensures fresh(copy)
    ensures Corrupted(buf[..], mode, fraction, rng.o, old(rng.next)) == Corruption(copy[..], ret, rng.next)
  {
    copy := new char[buf.Length];
    forall i | 0 <= i < buf.Length {
      copy[i] := buf[i];
    }
    assert copy[..copy.Length] == copy[..] == buf[..];
    hide Corrupted;
    ret := CorruptBuffer(copy, copy.Length, mode, fraction, rng);
    assert copy[..copy.Length] == copy[..];
  }

  // ---- what a fault answers

  /**
   What an operation on `bytes` gets from fault f, found after n draws: an error is minus the absolute value of the
   code, a delay hands on all bytes after its time, and a corrupt fault corrupts with its own mode unless its count is
   used up.
   */
  ghost predicate Answers(f: Fault, bytes: string, o: Oracle, n: nat, out: string, ret: int, delayMs: int) {
    match f
    case Unreadable(_, _, code) => out == bytes && ret <= 0 && (ret == code || ret == -code) && delayMs == 0
    case Unwritable(_, _, code) => out == bytes && ret <= 0 && (ret == code || ret == -code) && delayMs == 0
    case ReadDelay(_, _, ms, _) => out == bytes && ret == |bytes| && delayMs == ms
    case WriteDelay(_, _, ms, _) => out == bytes && ret == |bytes| && delayMs == ms
    case ReadCorrupt(_, _, mode, count, fraction) =>
      CorruptAnswers(mode, count, fraction, bytes, o, n, out, ret) && delayMs == 0
    case WriteCorrupt(_, _, mode, count, fraction) =>
      CorruptAnswers(mode, count, fraction, bytes, o, n, out, ret) && delayMs == 0
  }

  ghost predicate CorruptAnswers(mode: int, count: int, fraction: real, bytes: string, o: Oracle, n: nat, out: string,
                                 ret: int)
  {
    var c := if count == 0 then Corrupted(bytes, CORRUPT_DROP, 1.0, o, n) else Corrupted(bytes, mode, fraction, o, n);
    out == c.buf && ret == c.ret
  }

  lemma AppliedAnswers(f: Fault, buf: string, o: Oracle, n: nat)
    ensures OpOf(f) == Read ==>
              var a := ReadApplied(f, buf, o, n); Answers(f, buf, o, n, a.buf, a.ret, a.delayMs)
    ensures OpOf(f) == Write ==>
              var a := WriteApplied(f, buf, o, n); Answers(f, buf, o, n, a.buf, a.ret, a.delayMs)
  {
    hide Corrupted;
  }

  /** No answer changes how many bytes there are. */
  lemma AnswersLength(f: Fault, bytes: string, o: Oracle, n: nat, out: string, ret: int, delayMs: int)
    requires Answers(f, bytes, o, n, out, ret, delayMs)
    ensures |out| == |bytes| && ret <= |bytes|
  {
    hide Corrupted;
    if IsCorrupt(f) {
      CorruptedLength(bytes, f.mode, f.fraction, o, n);
      CorruptedLength(bytes, CORRUPT_DROP, 1.0, o, n);
    }
  }
}
