/**
 Faults, and how they are read from the JSON tree of a control file.
 */
module Fault {
  import opened CText
  import opened JsonReference

  const CORRUPT_ZERO := 1000
  const CORRUPT_RAND := 1001
  const CORRUPT_ZERO_SEQ := 1100
  const CORRUPT_RAND_SEQ := 1101
  const CORRUPT_DROP := 1200

  datatype Fault =
    | Unreadable(prefix: string, suffix: string, code: int)
    | ReadDelay(prefix: string, suffix: string, delayMs: int, fraction: real)
    | Unwritable(prefix: string, suffix: string, code: int)
    | WriteDelay(prefix: string, suffix: string, delayMs: int, fraction: real)
    | ReadCorrupt(prefix: string, suffix: string, mode: int, count: int, fraction: real)
    | WriteCorrupt(prefix: string, suffix: string, mode: int, count: int, fraction: real)

  predicate IsCode(f: Fault) {
    f.Unreadable? || f.Unwritable?
  }

  predicate IsDelay(f: Fault) {
    f.ReadDelay? || f.WriteDelay?
  }

  predicate IsCorrupt(f: Fault) {
    f.ReadCorrupt? || f.WriteCorrupt?
  }

  function TypeName(f: Fault): string {
    match f
    case Unreadable(_, _, _) => "unreadable"
    case ReadDelay(_, _, _, _) => "read_delay"
    case Unwritable(_, _, _) => "unwritable"
    case WriteDelay(_, _, _, _) => "write_delay"
    case ReadCorrupt(_, _, _, _, _) => "read_corrupt"
    case WriteCorrupt(_, _, _, _, _) => "write_corrupt"
  }

  // ---- reading a tree

  /** The first member whose name, as a C string, is `name`. */
  function FirstMember(ms: seq<Member>, name: string): Option<Json> {
    if ms == [] then None
    else if CString(ms[0].name) == name then Some(ms[0].value)
    else FirstMember(ms[1..], name)
  }

  function Child(v: Json, name: string): Option<Json> {
    if v.Obj? then FirstMember(v.members, name) else None
  }

  /** An optional string member with a default; None if the member is no string. */
  function StringMember(v: Json, name: string, default: string): Option<string> {
    match Child(v, name)
    case None => Some(default)
    case Some(Str(s)) => Some(CString(s))
    case Some(_) => None
  }

  function IntMember(v: Json, name: string): Option<int> {
    match Child(v, name)
    case Some(Int(i)) => Some(i)
    case _ => None
  }

  function DoubleMember(v: Json, name: string): Option<real> {
    match Child(v, name)
    case Some(Dbl(r)) => Some(r)
    case _ => None
  }

  /** kibosh_fault_base_parse */
  function FaultOf(v: Json): Option<Fault> {
    match Child(v, "type")
    case Some(Str(s)) =>
      var prefix, suffix := StringMember(v, "prefix", "/"), StringMember(v, "suffix", "");
      if prefix.None? || suffix.None? then None
      else WithPaths(v, CString(s), prefix.value, suffix.value)
    case _ => None
  }

  function WithPaths(v: Json, name: string, prefix: string, suffix: string): Option<Fault> {
    var code, delay, mode, count := IntMember(v, "code"), IntMember(v, "delay_ms"), IntMember(v, "mode"),
        IntMember(v, "count");
    var fraction := DoubleMember(v, "fraction");
    if name == "unreadable" then
      if code.None? then None else Some(Unreadable(prefix, suffix, Wrap32(code.value)))
    else if name == "unwritable" then
      if code.None? then None else Some(Unwritable(prefix, suffix, Wrap32(code.value)))
    else if name == "read_delay" then
      if delay.None? || fraction.None? then None
      else Some(ReadDelay(prefix, suffix, Unsigned32(delay.value), fraction.value))
    else if name == "write_delay" then
      if delay.None? || fraction.None? then None
      else Some(WriteDelay(prefix, suffix, Unsigned32(delay.value), fraction.value))
    else if name == "read_corrupt" then
      if mode.None? || fraction.None? || count.None? then None
      else Some(ReadCorrupt(prefix, suffix, Unsigned32(mode.value), Wrap32(count.value), fraction.value))
    else if name == "write_corrupt" then
      if mode.None? || fraction.None? || count.None? then None
      else Some(WriteCorrupt(prefix, suffix, Unsigned32(mode.value), Wrap32(count.value), fraction.value))
    else None
  }

  /** All or nothing. */
  function FaultsOf(vs: seq<Json>): (r: Option<seq<Fault>>)
    ensures r.Some? ==> |r.value| == |vs|
  {
    if vs == [] then Some([])
    else
      var f, fs := FaultOf(vs[0]), FaultsOf(vs[1..]);
      if f.None? || fs.None? then None else Some([f.value] + fs.value)
  }

  /** A tree without a "faults" member is an empty list of faults. */
  function FaultsOfTree(root: Json): Option<seq<Fault>> {
    match Child(root, "faults")
    case None => Some([])
    case Some(Arr(vs)) => FaultsOf(vs)
    case Some(_) => None
  }
}
