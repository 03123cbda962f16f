/**
 The control file protocol as a state machine whose steps are the sections that run under
 the lock and the system calls outside it, so that its runs are all the interleavings of
 opens, writes, truncations, releases and data operations.
 */
module Control {
  import opened CText
  import opened Fault
  import opened FaultParser
  import opened FaultEngine
  import opened Io

  const CONTROL_BUF_LEN := 16384

  /** The text a control file holds: its first CONTROL_BUF_LEN - 1 bytes, cut at NUL. */
  function TextOf(bytes: string): string {
    CString(Found(bytes, 0, CONTROL_BUF_LEN - 1))
  }

  /** The text is the longest start of the file without NUL that leaves one of 16384 bytes for the terminator. */
  lemma TextIs(bytes: string, text: string)
    ensures TextOf(bytes) == text <==>
            && text <= bytes && NUL !in text && |text| <= 16383
            && (|text| < |bytes| && |text| < 16383 ==> bytes[|text|] == NUL)
  {
    hide CString;
    var found, t := Found(bytes, 0, CONTROL_BUF_LEN - 1), TextOf(bytes);
    assert found <= bytes && |found| == if |bytes| < 16383 then |bytes| else 16383;
    assert t == bytes[..|t|];
  }

  /** An accessor between memfd_create and the end of open, one in use, one between unlock and close; or a data file. */
  datatype Stage = Opening | Accessor | Closing | Normal

  datatype Handle = Handle(stage: Stage, path: string, fd: int)

  datatype Fs = Fs(files: map<int, File>, control: int, text: string, faults: seq<Fault>, handles: map<int, Handle>,
                   next: nat)

  datatype Event =
    | MemfdCreate(h: int, fd: int, path: string)
    | Populate(h: int)
    | LeaveEmpty(h: int)
    | Abandon(h: int)
    | OpenNormal(h: int, fd: int, path: string, bytes: string)
    | Pwrite(h: int, at: nat, data: string)
    | Truncate(h: int, size: nat)
    | FaultRead(h: int, buf: string)
    | FaultWrite(h: int, buf: string)
    | Release(h: int, failed: bool)
    | Close(h: int)

  predicate InStage(s: Fs, h: int, stages: set<Stage>) {
    h in s.handles && s.handles[h].stage in stages && s.handles[h].fd in s.files
  }

  predicate Enabled(s: Fs, e: Event) {
    match e
    case MemfdCreate(h, fd, _) => h !in s.handles && fd !in s.files
    case Populate(h) => InStage(s, h, {Opening}) && s.control in s.files
    case LeaveEmpty(h) => InStage(s, h, {Opening})
    case Abandon(h) => InStage(s, h, {Opening})
    case OpenNormal(h, fd, _, _) => h !in s.handles && fd !in s.files
    case Pwrite(h, _, _) => InStage(s, h, {Accessor, Normal})
    case Truncate(h, _) => InStage(s, h, {Accessor, Normal})
    case FaultRead(h, buf) => InStage(s, h, {Accessor, Normal}) && buf != ""
    case FaultWrite(h, _) => InStage(s, h, {Accessor, Normal})
    case Release(h, _) => InStage(s, h, {Accessor})
    case Close(h) => InStage(s, h, {Closing, Normal})
  }

  function SetStage(s: Fs, h: int, stage: Stage): Fs
    requires h in s.handles
  {
    s.(handles := s.handles[h := s.handles[h].(stage := stage)])
  }

  function SetBytes(s: Fs, h: int, bytes: string): Fs
    requires h in s.handles && s.handles[h].fd in s.files
  {
    var fd := s.handles[h].fd;
    s.(files := s.files[fd := s.files[fd].(bytes := bytes)])
  }

  function Drop(s: Fs, h: int): Fs
    requires h in s.handles
  {
    s.(files := s.files - {s.handles[h].fd}, handles := s.handles - {h})
  }

  function Truncated(bytes: string, size: nat): string {
    if size <= |bytes| then bytes[..size] else bytes + seq(size - |bytes|, _ => NUL)
  }

  /** Truncating sets the size: what was there stays, and what was not there is zero. */
  lemma TruncatedAt(bytes: string, size: nat)
    ensures |Truncated(bytes, size)| == size
    ensures forall i :: 0 <= i < size ==> Truncated(bytes, size)[i] == if i < |bytes| then bytes[i] else NUL
  {
  }

  /** The faults that a release of these bytes installs over the current text, if it installs any. */
  function Verdict(text: string, bytes: string): Option<seq<Fault>> {
    if TextOf(bytes) == text then None else FaultsParse(TextOf(bytes))
  }

  /** Installing hands the accessor's descriptor to the file system and closes the one it replaces. */
  function Install(s: Fs, h: int, fs: seq<Fault>): Fs
    requires h in s.handles && s.handles[h].fd in s.files
  {
    var fd := s.handles[h].fd;
    s.(text := TextOf(s.files[fd].bytes), faults := fs, control := fd,
       handles := s.handles[h := s.handles[h].(stage := Closing, fd := s.control)])
  }

  function Released(s: Fs, h: int, failed: bool): Fs
    requires h in s.handles && s.handles[h].fd in s.files
  {
    match if failed then None else Verdict(s.text, s.files[s.handles[h].fd].bytes)
    case None => SetStage(s, h, Closing)
    case Some(fs) => Install(s, h, fs)
  }

  /** The fault that an operation on this path finds, and the number of calls of the generator made by then. */
  function Hit(o: Oracle, s: Fs, h: int, op: Op): (r: (Option<nat>, nat))
    requires h in s.handles
    ensures r.0.Some? ==> r.0.value < |s.faults|
  {
    FirstInside(s.faults, s.handles[h].path, op, o, s.next, 0);
    First(s.faults, s.handles[h].path, op, o, s.next, 0)
  }

  lemma {:induction false} FirstInside(fs: seq<Fault>, path: string, op: Op, o: Oracle, n: nat, i: nat)
    requires i <= |fs|
    ensures var r := First(fs, path, op, o, n, i); r.0.Some? ==> r.0.value < |fs|
    decreases |fs| - i
  {
    if i < |fs| {
      FirstInside(fs, path, op, o, if Concerns(fs[i], path, op) && IsDelay(fs[i]) then n + 1 else n, i + 1);
    }
  }

  function Injected(o: Oracle, s: Fs, h: int, op: Op, buf: string): Fs
    requires h in s.handles
  {
    var (r, n) := Hit(o, s, h, op);
    match r
    case None => s.(next := n)
    case Some(i) =>
      var a := if op == Read then ReadApplied(s.faults[i], buf, o, n) else WriteApplied(s.faults[i], buf, o, n);
      s.(faults := s.faults[i := a.fault], next := a.next)
  }

  function Step(o: Oracle, s: Fs, e: Event): Fs
    requires Enabled(s, e)
  {
    match e
    case MemfdCreate(h, fd, path) =>
      s.(files := s.files[fd := File("", true)], handles := s.handles[h := Handle(Opening, path, fd)])
    case Populate(h) => SetBytes(SetStage(s, h, Accessor), h, s.files[s.control].bytes)
    case LeaveEmpty(h) => SetStage(s, h, Accessor)
    case Abandon(h) => Drop(s, h)
    case OpenNormal(h, fd, path, bytes) =>
      s.(files := s.files[fd := File(bytes, false)], handles := s.handles[h := Handle(Normal, path, fd)])
    case Pwrite(h, at, data) => SetBytes(s, h, Overwrite(s.files[s.handles[h].fd].bytes, at, data))
    case Truncate(h, size) => SetBytes(s, h, Truncated(s.files[s.handles[h].fd].bytes, size))
    case FaultRead(h, buf) => Injected(o, s, h, Read, buf)
    case FaultWrite(h, buf) => Injected(o, s, h, Write, buf)
    case Release(h, failed) => Released(s, h, failed)
    case Close(h) => Drop(s, h)
  }

  const EMPTY_TEXT := "{\"faults\":[]}"

  /** kibosh_fs_alloc */
  function Initial(fd: int, n: nat): Fs {
    Fs(map[fd := File(EMPTY_TEXT, true)], fd, EMPTY_TEXT, [], map[], n)
  }

  // ---- runs

  predicate Valid(o: Oracle, s: Fs, trace: seq<Event>)
    decreases |trace|
  {
    trace == [] || (Enabled(s, trace[0]) && Valid(o, Step(o, s, trace[0]), trace[1..]))
  }

  function After(o: Oracle, s: Fs, trace: seq<Event>): Fs
    requires Valid(o, s, trace)
    decreases |trace|
  {
    if trace == [] then s else After(o, Step(o, s, trace[0]), trace[1..])
  }

  /** The event is a release whose text differs from the current one and parses. */
  predicate Installs(s: Fs, e: Event) {
    Enabled(s, e) && e.Release? && !e.failed && Verdict(s.text, s.files[s.handles[e.h].fd].bytes).Some?
  }

  function TextRead(s: Fs, e: Event): string
    requires Installs(s, e)
  {
    TextOf(s.files[s.handles[e.h].fd].bytes)
  }

  predicate Quiet(o: Oracle, s: Fs, trace: seq<Event>)
    requires Valid(o, s, trace)
    decreases |trace|
  {
    trace == [] || (!Installs(s, trace[0]) && Quiet(o, Step(o, s, trace[0]), trace[1..]))
  }

  /** The fault an event applies. */
  function Used(o: Oracle, s: Fs, e: Event): (r: Option<nat>)
    requires Enabled(s, e)
    ensures r.Some? ==> r.value < |s.faults|
  {
    match e
    case FaultRead(h, _) => Hit(o, s, h, Read).0
    case FaultWrite(h, _) => Hit(o, s, h, Write).0
    case _ => None
  }

  /** How often fault i is applied in a run. */
  function Uses(o: Oracle, s: Fs, trace: seq<Event>, i: nat): nat
    requires Valid(o, s, trace)
    decreases |trace|
  {
    if trace == [] then 0
    else (if Used(o, s, trace[0]) == Some(i) then 1 else 0) + Uses(o, Step(o, s, trace[0]), trace[1..], i)
  }

  lemma {:induction false} Split(o: Oracle, s: Fs, a: seq<Event>, b: seq<Event>)
    ensures Valid(o, s, a + b) <==> Valid(o, s, a) && Valid(o, After(o, s, a), b)
    ensures Valid(o, s, a + b) ==> After(o, s, a + b) == After(o, After(o, s, a), b)
    decreases |a|
  {
    hide Enabled, Step;
    if a == [] {
      assert a + b == b;
    } else {
      assert (a + b)[0] == a[0] && (a + b)[1..] == a[1..] + b;
      if Enabled(s, a[0]) {
        Split(o, Step(o, s, a[0]), a[1..], b);
      }
    }
  }
}
