/**
 The two-pass parser of json.c as a machine over explicit memory.

 Nodes live in an arena `heap`; a pointer is an index and NULL is -1. The `_reserved`
 union of node i is `reserved[i]`. One machine serves both passes: `first` selects, as
 `state.first_pass` does, between counting and filling.

 A bad memory access (through a bad pointer, or outside an allocation) is the outcome Crash,
 and so are combinations of flags and node types for which the code has no case.
 */
module JsonMachine {
  import opened CText
  import opened JsonEscape

  type Ptr = int
  const NULL: Ptr := -1

  /** What malloc leaves in memory that has not been written. */
  const JUNK: char := '\U{00A5}'

  datatype Entry = Entry(name: nat, nameLength: nat, value: Ptr)

  /** u.object.values: a byte counter in the first pass, an allocation in the second. */
  datatype Values = Counted(bytes: nat) | Allocated(entries: seq<Entry>, names: string)

  datatype Payload =
    | PNull
    | PBool(b: bool)
    | PInt(i: int)
    | PDbl(r: real)
    | PStr(length: nat, buf: string)
    | PArr(length: nat, slots: seq<Ptr>)
    | PObj(length: nat, values: Values)

  datatype Node = Node(parent: Ptr, u: Payload)

  datatype Reserved = NextAlloc(next: Ptr) | ObjectMem(off: nat)

  /** Registers used while the first pass reads a number. */
  datatype Num = Num(negative: bool, zero: bool, e: bool, gotSign: bool, eNegative: bool,
                     digits: nat, fraction: int, exp: int)

  const NUM0 := Num(false, false, false, false, false, 0, 0, 0)

  /** What `flags` and the type of `top` say about the next byte. */
  datatype Mode =
    | Seek(needComma: bool, needColon: bool)
    | InString(escaped: bool, len: nat)
    | InNumber(num: Num)
    | InObject(needComma: bool)
    | Finished

  datatype State = State(p: nat, mode: Mode, top: Ptr, root: Ptr, alloc: Ptr, heap: seq<Node>, reserved: seq<Reserved>)

  datatype Outcome = Running(s: State) | Accepted(s: State) | Rejected | Crash

  predicate Live(s: State, a: Ptr) {
    0 <= a < |s.heap| && |s.heap| == |s.reserved|
  }

  // ---- new_value

  /** First pass: append a node and link it behind the previous allocation. */
  function Allocate(s: State, u: Payload): State {
    var a := |s.heap|;
    var reserved := if 0 <= s.alloc < |s.reserved| then s.reserved[s.alloc := NextAlloc(a)] else s.reserved;
    s.(heap := s.heap + [Node(s.top, u)],
       reserved := reserved + [NextAlloc(NULL)],
       root := if s.root == NULL then a else s.root,
       alloc := a,
       top := a)
  }

  /** Second pass: the buffers that a counted node gets. */
  function Room(u: Payload): Payload {
    match u
    case PArr(n, _) => if n == 0 then u else PArr(0, seq(n, _ => NULL))
    case PObj(n, Counted(bytes)) =>
      if n == 0 then u else PObj(0, Allocated(seq(n, _ => Entry(0, 0, NULL)), seq(bytes, _ => JUNK)))
    case PStr(n, _) => PStr(0, seq(n + 1, _ => JUNK))
    case _ => u
  }

  predicate HasNames(u: Payload) {
    u.PObj? && u.length != 0
  }

  predicate SameKind(u: Payload, w: Payload) {
    || (u.PNull? && w.PNull?)
    || (u.PBool? && w.PBool?)
    || ((u.PInt? || u.PDbl?) && (w.PInt? || w.PDbl?))
    || (u.PStr? && w.PStr?)
    || (u.PArr? && w.PArr?)
    || (u.PObj? && w.PObj?)
  }

  /** Second pass: take the next node off the allocation list; it must be the node of a value like `u`. */
  function Pop(s: State, u: Payload): Outcome {
    if !Live(s, s.alloc) || !s.reserved[s.alloc].NextAlloc? || !SameKind(s.heap[s.alloc].u, u) then Crash
    else
      var a := s.alloc;
      var counted := s.heap[a].u;
      Running(s.(heap := s.heap[a := s.heap[a].(u := Room(counted))],
                 reserved := if HasNames(counted) then s.reserved[a := ObjectMem(0)] else s.reserved,
                 root := if s.root == NULL then a else s.root,
                 alloc := s.reserved[a].next,
                 top := a))
  }

  function NewValue(first: bool, s: State, u: Payload): Outcome {
    if first then Running(Allocate(s, u)) else Pop(s, u)
  }

  // ---- strings

  /** `string [i] = ...` for the bytes of `out`; `string` points into the node `top`. */
  function Write(s: State, i: nat, out: string): Outcome {
    if !Live(s, s.top) then Crash
    else
      match s.heap[s.top].u
      case PStr(n, buf) =>
        if i + |out| <= |buf| then
          Running(s.(heap := s.heap[s.top := s.heap[s.top].(u := PStr(n, Splice(buf, i, out)))]))
        else Crash
      case PObj(n, Allocated(es, names)) =>
        if s.reserved[s.top].ObjectMem? && s.reserved[s.top].off + i + |out| <= |names| then
          Running(s.(heap := s.heap[s.top := s.heap[s.top].(
            u := PObj(n, Allocated(es, Splice(names, s.reserved[s.top].off + i, out))))]))
        else Crash
      case _ => Crash
  }

  function Splice(buf: string, i: nat, out: string): (r: string)
    requires i + |out| <= |buf|
    ensures |r| == |buf|
  {
    buf[..i] + out + buf[i + |out|..]
  }

  /** string_add and its multi-byte relatives: count in the first pass, write in the second. */
  function Emit(first: bool, s: State, len: nat, out: string, count: nat, next: nat): Outcome {
    if first then Running(s.(p := next, mode := InString(false, len + count)))
    else
      var w := Write(s, len, out);
      if w.Running? then Running(w.s.(p := next, mode := InString(false, len + |out|))) else Crash
  }

  function StepString(t: string, first: bool, s: State, escaped: bool, len: nat): Outcome
    requires s.p <= |t|
  {
    var b := At(t, s.p);
    if b == NUL then Rejected
    else if escaped then
      var e := Escape(t, s.p);
      if e.None? then Rejected else Emit(first, s, len, e.value.out, e.value.count, e.value.next)
    else if b == '\\' then Running(s.(p := s.p + 1, mode := InString(true, len)))
    else if b == '"' then EndString(first, s, len)
    else Emit(first, s, len, [b], 1, s.p + 1)
  }

  /** The closing quote: terminate the buffer, then finish a string value or a member name. */
  function EndString(first: bool, s: State, len: nat): Outcome {
    var w := if first then Running(s) else Write(s, len, [NUL]);
    if w.Running? && Live(w.s, s.top) then
      var n := w.s.heap[s.top];
      match n.u
      case PStr(_, buf) =>
        Next(first, w.s.(p := s.p + 1, heap := w.s.heap[s.top := n.(u := PStr(len, buf))]))
      case PObj(k, Counted(bytes)) =>
        if first then
          Running(w.s.(p := s.p + 1, mode := Seek(false, true),
                       heap := w.s.heap[s.top := n.(u := PObj(k, Counted(bytes + len + 1)))]))
        else Crash
      case PObj(k, Allocated(es, names)) =>
        if !first && k < |es| && w.s.reserved[s.top].ObjectMem? then
          var off := w.s.reserved[s.top].off;
          var entry := Entry(off, len, es[k].value);
          Running(w.s.(p := s.p + 1, mode := Seek(false, true),
                       heap := w.s.heap[s.top := n.(u := PObj(k, Allocated(es[k := entry], names)))],
                       reserved := w.s.reserved[s.top := ObjectMem(off + len + 1)]))
        else Crash
      case _ => Crash
    else Crash
  }

  // ---- flag_next: hand the finished value to its parent

  function Attach(first: bool, u: Payload, a: Ptr): Option<Payload> {
    match u
    case PArr(n, slots) =>
      if first then Some(PArr(n + 1, slots))
      else if n < |slots| then Some(PArr(n + 1, slots[n := a])) else None
    case PObj(n, Allocated(es, names)) =>
      if first then None
      else if n < |es| then Some(PObj(n + 1, Allocated(es[n := es[n].(value := a)], names))) else None
    case PObj(n, Counted(bytes)) =>
      if first then Some(PObj(n + 1, u.values)) else None
    case _ => None
  }

  function Next(first: bool, s: State): Outcome {
    if !Live(s, s.top) then Crash
    else
      var up := s.heap[s.top].parent;
      if up == NULL then Running(s.(mode := Finished))
      else if !Live(s, up) then Crash
      else
        var u := Attach(first, s.heap[up].u, s.top);
        if u.None? then Crash
        else
          Running(s.(mode := if u.value.PArr? then Seek(true, false) else InObject(true),
                     heap := s.heap[up := s.heap[up].(u := u.value)],
                     top := up))
  }

  // ---- values

  function StepSeek(t: string, first: bool, s: State, needComma: bool, needColon: bool): Outcome
    requires s.p <= |t|
  {
    var b := At(t, s.p);
    if IsSpace(b) then Running(s.(p := s.p + 1))
    else if b == ']' then
      if !Live(s, s.top) || !s.heap[s.top].u.PArr? then Rejected
      else if needColon then Crash
      else Next(first, s.(p := s.p + 1))
    else if needComma then
      if b == ',' then Running(s.(p := s.p + 1, mode := Seek(false, needColon))) else Rejected
    else if needColon then
      if b == ':' then Running(s.(p := s.p + 1, mode := Seek(false, false))) else Rejected
    else StartValue(t, first, s, b)
  }

  /** Whether the bytes after `p` spell the rest of a literal; `guard` is the length test before them. */
  predicate Spells(t: string, p: nat, rest: string)
    requires p <= |t|
  {
    |t| - p >= |rest| && forall i :: 0 <= i < |rest| ==> At(t, p + 1 + i) == rest[i]
  }

  function StartValue(t: string, first: bool, s: State, b: char): Outcome
    requires s.p <= |t|
  {
    match b
    case '{' => Begin(first, s, PObj(0, Counted(0)), InObject(false))
    case '[' => Begin(first, s, PArr(0, []), Seek(false, false))
    case '"' => Begin(first, s, PStr(0, []), InString(false, 0))
    case 't' => if Spells(t, s.p, "rue") then Literal(first, s, true, PBool(false), 4) else Rejected
    case 'f' => if Spells(t, s.p, "alse") then Literal(first, s, false, PBool(false), 5) else Rejected
    case 'n' => if Spells(t, s.p, "ull") then Literal(first, s, false, PNull, 4) else Rejected
    case _ => if IsDigit(b) || b == '-' then StartNumber(t, first, s, b) else Rejected
  }

  function Begin(first: bool, s: State, u: Payload, mode: Mode): Outcome {
    var o := NewValue(first, s, u);
    if o.Running? then Running(o.s.(p := s.p + 1, mode := mode)) else Crash
  }

  function Literal(first: bool, s: State, truth: bool, u: Payload, width: nat): Outcome {
    var o := NewValue(first, s, u);
    if !o.Running? || !Live(o.s, o.s.top) then Crash
    else
      var n := o.s.heap[o.s.top];
      var u' := if truth then PBool(true) else n.u;
      Next(first, o.s.(p := s.p + width, heap := o.s.heap[o.s.top := n.(u := u')]))
  }

  // ---- numbers

  /** Second pass: the first position from `p` on that no number can contain. */
  function SkipNumber(t: string, p: nat): (q: nat)
    requires p <= |t|
    ensures p <= q <= |t|
    ensures !IsNumberChar(At(t, q))
    ensures forall i :: p <= i < q ==> IsNumberChar(t[i])
    decreases |t| - p
  {
    if p < |t| && IsNumberChar(t[p]) then SkipNumber(t, p + 1) else p
  }

  function StartNumber(t: string, first: bool, s: State, b: char): Outcome
    requires s.p <= |t|
  {
    var o := NewValue(first, s, PInt(0));
    if !o.Running? then Crash
    else if !first then Next(first, o.s.(p := SkipNumber(t, s.p)))
    else if b != '-' then Running(o.s.(mode := InNumber(NUM0)))
    else Running(o.s.(p := s.p + 1, mode := InNumber(NUM0.(negative := true))))
  }

  /** First pass: one more byte of a number. */
  function StepNumber(t: string, first: bool, s: State, num: Num): Outcome
    requires s.p <= |t|
  {
    if !Live(s, s.top) || !(s.heap[s.top].u.PInt? || s.heap[s.top].u.PDbl?) then Crash
    else
      var b := At(t, s.p);
      var u := s.heap[s.top].u;
      if IsDigit(b) then NumberDigit(s, num.(digits := num.digits + 1), u, b)
      else if (b == '+' || b == '-') && num.e && !num.gotSign then
        More(s, num.(gotSign := true, eNegative := num.eNegative || b == '-'), u)
      else if b == '.' && u.PInt? then
        if num.digits == 0 then Rejected
        else More(s, num.(digits := 0), PDbl(u.i as real))
      else if !num.e then
        if u.PDbl? && num.digits == 0 then Rejected
        else
          var u' := if u.PDbl? then PDbl(u.r + Tail(num.fraction, num.digits)) else u;
          if b == 'e' || b == 'E' then
            More(s, num.(e := true, digits := 0, zero := false), if u'.PInt? then PDbl(u'.i as real) else u')
          else EndNumber(first, s, num, u')
      else if u.PInt? then Crash
      else if num.digits == 0 then Rejected
      else EndNumber(first, s, num, PDbl(Scale(u.r, if num.eNegative then Wrap64(-num.exp) else num.exp)))
  }

  function NumberDigit(s: State, num: Num, u: Payload, b: char): Outcome
    requires IsDigit(b) && (u.PInt? || u.PDbl?)
  {
    if num.e then
      More(s, num.(gotSign := true, exp := Wrap64(num.exp * 10 + DigitOf(b))), u)
    else if u.PInt? then
      if num.zero then Rejected
      else More(s, num.(zero := num.digits == 1 && b == '0'), PInt(Wrap64(u.i * 10 + DigitOf(b))))
    else More(s, num.(fraction := Wrap64(num.fraction * 10 + DigitOf(b))), u)
  }

  function SetTop(s: State, u: Payload): State {
    if Live(s, s.top) then s.(heap := s.heap[s.top := s.heap[s.top].(u := u)]) else s
  }

  function More(s: State, num: Num, u: Payload): Outcome {
    Running(SetTop(s, u).(p := s.p + 1, mode := InNumber(num)))
  }

  /** The byte after the number is left to be read again. */
  function EndNumber(first: bool, s: State, num: Num, u: Payload): Outcome {
    var u' :=
      if !num.negative then u
      else if u.PInt? then PInt(Wrap64(-u.i))
      else if u.PDbl? then PDbl(-u.r)
      else u;
    Next(first, SetTop(s, u'))
  }

  // ---- objects

  function StepObject(t: string, s: State, first: bool, needComma: bool): Outcome
    requires s.p <= |t|
  {
    var b := At(t, s.p);
    if !Live(s, s.top) || !s.heap[s.top].u.PObj? then Crash
    else if IsSpace(b) then Running(s.(p := s.p + 1))
    else if b == '"' then
      if needComma then Rejected else Running(s.(p := s.p + 1, mode := InString(false, 0)))
    else if b == '}' then Next(first, s.(p := s.p + 1))
    else if b == ',' && needComma then Running(s.(p := s.p + 1, mode := InObject(false)))
    else Rejected
  }

  // ---- the loop

  function Step(t: string, first: bool, s: State): Outcome {
    if s.p > |t| then Crash
    else
      match s.mode
      case InString(escaped, len) => StepString(t, first, s, escaped, len)
      case Finished =>
        if At(t, s.p) == NUL then Accepted(s)
        else if IsSpace(At(t, s.p)) then Running(s.(p := s.p + 1))
        else Rejected
      case Seek(comma, colon) => StepSeek(t, first, s, comma, colon)
      case InObject(comma) => StepObject(t, s, first, comma)
      case InNumber(num) => StepNumber(t, first, s, num)
  }

  /** One for the states that look at a byte without consuming it. */
  function Rereads(t: string, s: State): nat {
    if s.p > |t| then 0
    else if s.mode.InNumber? && !IsDigit(At(t, s.p)) then 1
    else if s.mode == Seek(false, false) && IsDigit(At(t, s.p)) then 1
    else 0
  }

  /** Bound on the iterations left: at most two for each byte and the terminator. */
  function Measure(t: string, s: State): nat {
    if s.p > |t| then 0 else 2 * (|t| - s.p) + 1 + Rereads(t, s)
  }

  // The bound holds for every state, reachable or not.

  lemma NextStays(first: bool, s: State)
    ensures Next(first, s).Running? ==>
              Next(first, s).s.p == s.p && Next(first, s).s.mode in {Finished, Seek(true, false), InObject(true)}
  {
  }

  lemma StringDecreases(t: string, first: bool, s: State, escaped: bool, len: nat)
    requires s.p <= |t| && s.mode == InString(escaped, len)
    ensures var o := StepString(t, first, s, escaped, len); o.Running? ==> o.s.p > s.p
  {
    hide Unicode, Next, Splice;
    forall z: State | true ensures Next(first, z).Running? ==> Next(first, z).s.p == z.p { NextStays(first, z); }
  }

  lemma ValueDecreases(t: string, first: bool, s: State)
    requires s.p <= |t| && s.mode == Seek(false, false)
    ensures var o := StartValue(t, first, s, At(t, s.p)); o.Running? ==> Measure(t, o.s) < Measure(t, s)
  {
    hide Next, Spells, Room;
    forall z: State ensures Next(first, z).Running? ==>
        && Next(first, z).s.p == z.p
        && Next(first, z).s.mode in {Finished, Seek(true, false), InObject(true)}
    {
      NextStays(first, z);
    }
  }

  lemma NumberDecreases(t: string, first: bool, s: State, num: Num)
    requires s.p <= |t| && s.mode == InNumber(num)
    ensures var o := StepNumber(t, first, s, num); o.Running? ==> Measure(t, o.s) < Measure(t, s)
  {
    hide Next, Live, Scale, Wrap64, Tail;
    forall z: State ensures Next(first, z).Running? ==>
        && Next(first, z).s.p == z.p
        && Next(first, z).s.mode in {Finished, Seek(true, false), InObject(true)}
    {
      NextStays(first, z);
    }
  }

  lemma StepDecreases(t: string, first: bool, s: State)
    ensures Step(t, first, s).Running? ==> Measure(t, Step(t, first, s).s) < Measure(t, s)
  {
    hide StepString, StartValue, StepNumber, Next;
    if s.p <= |t| {
      match s.mode
      case InString(escaped, len) => StringDecreases(t, first, s, escaped, len);
      case Finished =>
      case Seek(comma, colon) =>
        NextStays(first, s.(p := s.p + 1));
        if !comma && !colon { ValueDecreases(t, first, s); }
      case InObject(comma) => NextStays(first, s.(p := s.p + 1));
      case InNumber(num) => NumberDecreases(t, first, s, num);
    }
  }

  function Run(t: string, first: bool, s: State): Outcome
    decreases Measure(t, s)
  {
    var o := Step(t, first, s);
    if o.Running? then
      StepDecreases(t, first, s);
      Run(t, first, o.s)
    else o
  }
}
