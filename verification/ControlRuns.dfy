/**
 What holds in every state that the control file protocol can reach, and over its runs.
 */
module ControlRuns {
  import opened CText
  import opened Fault
  import opened FaultParser
  import opened FaultEngine
  import opened Io
  import opened Control
  import FaultText
  import FaultRoundTrip
  import JsonGrammar
  import JsonGrammarReads
  import opened JsonReference

  // ---- descriptors

  ghost predicate Owned(s: Fs, fd: int) {
    exists h :: h in s.handles && s.handles[h].fd == fd
  }

  ghost predicate Descriptors(s: Fs) {
    && s.control in s.files && s.files[s.control].memfd
    && (forall h :: h in s.handles ==>
          var fd := s.handles[h].fd;
          fd in s.files && fd != s.control && s.files[fd].memfd == (s.handles[h].stage != Normal))
    && (forall h, g :: h in s.handles && g in s.handles && h != g ==> s.handles[h].fd != s.handles[g].fd)
    && (forall fd :: fd in s.files ==> fd == s.control || Owned(s, fd))
  }

  lemma SetStageKeeps(s: Fs, h: int, stage: Stage)
    requires Descriptors(s) && h in s.handles && (stage == Normal <==> s.handles[h].stage == Normal)
    ensures Descriptors(SetStage(s, h, stage))
  {
    var s' := SetStage(s, h, stage);
    forall fd | fd in s'.files
      ensures fd == s'.control || Owned(s', fd)
    {
      if fd != s.control {
        var g :| g in s.handles && s.handles[g].fd == fd;
        assert s'.handles[g].fd == fd;
      }
    }
  }

  lemma AddKeeps(s: Fs, h: int, fd: int, handle: Handle, file: File)
    requires Descriptors(s) && h !in s.handles && fd !in s.files && handle.fd == fd
    requires file.memfd == (handle.stage != Normal)
    ensures Descriptors(s.(files := s.files[fd := file], handles := s.handles[h := handle]))
  {
    var s' := s.(files := s.files[fd := file], handles := s.handles[h := handle]);
    forall x | x in s'.files
      ensures x == s'.control || Owned(s', x)
    {
      if x == fd {
        assert s'.handles[h].fd == x;
      } else if x != s.control {
        var g :| g in s.handles && s.handles[g].fd == x;
        assert s'.handles[g].fd == x;
      }
    }
  }

  lemma DropKeeps(s: Fs, h: int)
    requires Descriptors(s) && h in s.handles
    ensures Descriptors(Drop(s, h))
  {
    var s' := Drop(s, h);
    forall x | x in s'.files
      ensures x == s'.control || Owned(s', x)
    {
      if x != s.control {
        var g :| g in s.handles && s.handles[g].fd == x;
        assert s'.handles[g].fd == x;
      }
    }
  }

  lemma SameHandlesKeeps(s: Fs, s': Fs)
    requires Descriptors(s) && s'.handles == s.handles && s'.control == s.control && s'.files.Keys == s.files.Keys
    requires forall fd :: fd in s.files ==> s'.files[fd].memfd == s.files[fd].memfd
    ensures Descriptors(s')
  {
    forall x | x in s'.files
      ensures x == s'.control || Owned(s', x)
    {
      if x != s.control {
        var g :| g in s.handles && s.handles[g].fd == x;
        assert s'.handles[g].fd == x;
      }
    }
  }

  lemma InstallKeeps(s: Fs, h: int, fs: seq<Fault>)
    requires Descriptors(s) && h in s.handles && s.handles[h].stage == Accessor
    ensures Descriptors(Install(s, h, fs))
  {
    var s' := Install(s, h, fs);
    forall x | x in s'.files
      ensures x == s'.control || Owned(s', x)
    {
      if x == s.control {
        assert s'.handles[h].fd == x;
      } else if x != s'.control {
        var g :| g in s.handles && s.handles[g].fd == x;
        assert s'.handles[g].fd == x;
      }
    }
  }

  lemma DescriptorsKept(o: Oracle, s: Fs, e: Event)
    requires Descriptors(s) && Enabled(s, e)
    ensures Descriptors(Step(o, s, e))
  {
    hide Descriptors, Overwrite, Truncated, Verdict, Injected;
    match e {
      case MemfdCreate(h, fd, path) => AddKeeps(s, h, fd, Handle(Opening, path, fd), File("", true));
      case OpenNormal(h, fd, path, bytes) => AddKeeps(s, h, fd, Handle(Normal, path, fd), File(bytes, false));
      case Populate(h) =>
        SetStageKeeps(s, h, Accessor);
        SameHandlesKeeps(SetStage(s, h, Accessor), Step(o, s, e));
      case LeaveEmpty(h) => SetStageKeeps(s, h, Accessor);
      case Abandon(h) => DropKeeps(s, h);
      case Close(h) => DropKeeps(s, h);
      case Release(h, failed) =>
        match if failed then None else Verdict(s.text, s.files[s.handles[h].fd].bytes) {
          case None => SetStageKeeps(s, h, Closing);
          case Some(fs) => InstallKeeps(s, h, fs);
        }
      case FaultRead(h, buf) =>
        InjectedFrame(o, s, h, Read, buf);
        SameHandlesKeeps(s, Step(o, s, e));
      case FaultWrite(h, buf) =>
        InjectedFrame(o, s, h, Write, buf);
        SameHandlesKeeps(s, Step(o, s, e));
      case _ => SameHandlesKeeps(s, Step(o, s, e));
    }
  }

  /** Injecting faults touches only the faults. */
  lemma InjectedFrame(o: Oracle, s: Fs, h: int, op: Op, buf: string)
    requires h in s.handles
    ensures var s' := Injected(o, s, h, op, buf);
            s' == s.(faults := s'.faults, next := s'.next) && |s'.faults| == |s.faults|
  {
    hide First, ReadApplied, WriteApplied;
  }

  function Memfds(s: Fs): set<int> {
    set fd | fd in s.files && s.files[fd].memfd
  }

  function Accessors(s: Fs): set<int> {
    set h | h in s.handles && s.handles[h].stage != Normal
  }

  function FdsOf(s: Fs, hs: set<int>): set<int>
    requires hs <= s.handles.Keys
  {
    set h | h in hs :: s.handles[h].fd
  }

  lemma {:induction false} FdsCount(s: Fs, hs: set<int>)
    requires hs <= s.handles.Keys
    requires forall h, g :: h in s.handles && g in s.handles && h != g ==> s.handles[h].fd != s.handles[g].fd
    ensures |FdsOf(s, hs)| == |hs|
    decreases |hs|
  {
    if hs == {} {
      assert FdsOf(s, hs) == {};
    } else {
      var h :| h in hs;
      FdsCount(s, hs - {h});
      assert FdsOf(s, hs) == FdsOf(s, hs - {h}) + {s.handles[h].fd};
    }
  }

  /** The open memfds are the control descriptor and one of its own for each accessor. */
  lemma MemfdsExact(s: Fs)
    requires Descriptors(s)
    ensures Memfds(s) == {s.control} + FdsOf(s, Accessors(s))
    ensures s.control !in FdsOf(s, Accessors(s))
    ensures |Memfds(s)| == 1 + |Accessors(s)|
  {
    forall fd | fd in Memfds(s)
      ensures fd == s.control || fd in FdsOf(s, Accessors(s))
    {
      if fd != s.control {
        var h :| h in s.handles && s.handles[h].fd == fd;
        assert h in Accessors(s);
      }
    }
    FdsCount(s, Accessors(s));
  }

  /** A release followed by its close shuts one descriptor, never the one that is then installed. */
  lemma ReleaseCloses(o: Oracle, s: Fs, h: int, failed: bool)
    requires Descriptors(s) && Enabled(s, Release(h, failed))
    ensures Valid(o, s, [Release(h, failed), Close(h)])
    ensures var s' := After(o, s, [Release(h, failed), Close(h)]);
            var shut := if Installs(s, Release(h, failed)) then s.control else s.handles[h].fd;
            && s'.files == s.files - {shut} && shut in s.files && shut != s'.control && s'.control in s'.files
            && s'.handles == s.handles - {h}
  {
    hide Verdict, TextOf;
    var mid := Step(o, s, Release(h, failed));
    DescriptorsKept(o, s, Release(h, failed));
    assert Enabled(mid, Close(h));
    var trace := [Release(h, failed), Close(h)];
    assert trace[1..] == [Close(h)] && [Close(h)][1..] == [];
    assert Valid(o, Drop(mid, h), []);
    assert Valid(o, mid, [Close(h)]);
    assert After(o, s, trace) == After(o, mid, [Close(h)]) == After(o, Drop(mid, h), []);
  }

  // ---- text and faults

  ghost predicate Installed(s: Fs) {
    s.control in s.files && s.text == TextOf(s.files[s.control].bytes) && FaultsParse(s.text).Some?
  }

  lemma InstalledKept(o: Oracle, s: Fs, e: Event)
    requires Descriptors(s) && Installed(s) && Enabled(s, e)
    ensures Installed(Step(o, s, e))
  {
    hide TextOf, FaultsParse, Overwrite, Truncated, Injected;
    match e {
      case FaultRead(h, buf) => InjectedFrame(o, s, h, Read, buf);
      case FaultWrite(h, buf) => InjectedFrame(o, s, h, Write, buf);
      case _ =>
    }
  }

  lemma InitialParses()
    ensures FaultsParse(EMPTY_TEXT) == Some([])
  {
    var g := (r: real) => JsonGrammar.Numeral(false, "0", None, None);
    hide FaultsParse;
    FaultText.UnparseNothing(g);
    FaultRoundTrip.RoundTrip([], g);
  }

  lemma ShortText(bytes: string)
    requires |bytes| < CONTROL_BUF_LEN && NUL !in bytes
    ensures TextOf(bytes) == bytes
  {
    hide CString;
    assert Found(bytes, 0, CONTROL_BUF_LEN - 1) == bytes;
    CStringWhole(bytes);
  }

  lemma InitialHolds(fd: int, n: nat)
    ensures Descriptors(Initial(fd, n)) && Installed(Initial(fd, n))
  {
    hide FaultsParse, TextOf;
    InitialParses();
    ShortText(EMPTY_TEXT);
  }

  lemma {:induction false} RunKeeps(o: Oracle, s: Fs, trace: seq<Event>)
    requires Descriptors(s) && Installed(s) && Valid(o, s, trace)
    ensures Descriptors(After(o, s, trace)) && Installed(After(o, s, trace))
    decreases |trace|
  {
    hide Descriptors, Installed, Enabled, Step;
    if trace != [] {
      DescriptorsKept(o, s, trace[0]);
      InstalledKept(o, s, trace[0]);
      RunKeeps(o, Step(o, s, trace[0]), trace[1..]);
    }
  }

  /** In every reachable state the text in force is what the installed control file holds, and it parses. */
  lemma Reachable(o: Oracle, fd: int, n: nat, trace: seq<Event>)
    requires Valid(o, Initial(fd, n), trace)
    ensures var s := After(o, Initial(fd, n), trace);
            && Descriptors(s) && s.text == TextOf(s.files[s.control].bytes) && FaultsParse(s.text).Some?
            && Memfds(s) == {s.control} + FdsOf(s, Accessors(s)) && |Memfds(s)| == 1 + |Accessors(s)|
  {
    hide TextOf, FaultsParse;
    InitialHolds(fd, n);
    RunKeeps(o, Initial(fd, n), trace);
    MemfdsExact(After(o, Initial(fd, n), trace));
  }

  // ---- counting down

  /** An operation applies at most one fault, the first that matches, and only counts it down. */
  lemma InjectedCounts(o: Oracle, s: Fs, h: int, op: Op, buf: string)
    requires h in s.handles
    ensures var r := Hit(o, s, h, op).0;
            Injected(o, s, h, op, buf).faults ==
            if r.None? then s.faults else s.faults[r.value := Counted(s.faults[r.value])]
  {
    hide First, IsFirst, Corrupted;
    var r := Hit(o, s, h, op);
    FirstIsFirst(s.faults, s.handles[h].path, op, o, s.next, 0);
    if r.0.Some? {
      FirstConcerns(s.faults, s.handles[h].path, op, o, s.next, r.0, r.1);
    }
  }

  /** Any other event leaves text and faults untouched, unless it installs. */
  lemma StepCounts(o: Oracle, s: Fs, e: Event)
    requires Enabled(s, e) && !Installs(s, e)
    ensures var s' := Step(o, s, e);
            && s'.text == s.text && s'.control == s.control
            && s'.faults == match Used(o, s, e)
                            case None => s.faults
                            case Some(i) => s.faults[i := Counted(s.faults[i])]
  {
    hide TextOf, FaultsParse, Overwrite, Truncated, Injected, Hit;
    match e {
      case FaultRead(h, buf) =>
        InjectedFrame(o, s, h, Read, buf);
        InjectedCounts(o, s, h, Read, buf);
      case FaultWrite(h, buf) =>
        InjectedFrame(o, s, h, Write, buf);
        InjectedCounts(o, s, h, Write, buf);
      case _ =>
    }
  }

  lemma {:induction false} CountedAgain(f: Fault, k: nat)
    ensures CountedBy(Counted(f), k) == CountedBy(f, k + 1)
  {
    if k == 0 {
      assert CountedBy(f, 1) == Counted(CountedBy(f, 0));
    } else {
      CountedAgain(f, k - 1);
    }
  }

  /** While nothing is installed the text stays, and each fault is counted down once per application. */
  lemma {:induction false} QuietRun(o: Oracle, s: Fs, trace: seq<Event>)
    requires Valid(o, s, trace) && Quiet(o, s, trace)
    ensures var s' := After(o, s, trace);
            && s'.text == s.text && s'.control == s.control && |s'.faults| == |s.faults|
            && forall i :: 0 <= i < |s.faults| ==> s'.faults[i] == CountedBy(s.faults[i], Uses(o, s, trace, i))
    decreases |trace|
  {
    hide Enabled, Step, Installs, Used, Counted;
    if trace != [] {
      var mid := Step(o, s, trace[0]);
      StepCounts(o, s, trace[0]);
      QuietRun(o, mid, trace[1..]);
      forall i | 0 <= i < |s.faults|
        ensures After(o, s, trace).faults[i] == CountedBy(s.faults[i], Uses(o, s, trace, i))
      {
        if Used(o, s, trace[0]) == Some(i) {
          CountedAgain(s.faults[i], Uses(o, mid, trace[1..], i));
        }
      }
    }
  }

  // ---- the last install

  function LastInstall(o: Oracle, s: Fs, trace: seq<Event>): Option<nat>
    requires Valid(o, s, trace)
    decreases |trace|
  {
    if trace == [] then None
    else
      match LastInstall(o, Step(o, s, trace[0]), trace[1..])
      case Some(k) => Some(k + 1)
      case None => if Installs(s, trace[0]) then Some(0) else None
  }

  /** The k-th event installs. */
  ghost predicate InstallsAt(o: Oracle, s: Fs, trace: seq<Event>, k: nat) {
    k < |trace| && Valid(o, s, trace[..k]) && Installs(After(o, s, trace[..k]), trace[k])
  }

  /** The state after the k-th event. */
  ghost function Since(o: Oracle, s: Fs, trace: seq<Event>, k: nat): Fs
    requires InstallsAt(o, s, trace, k)
  {
    Step(o, After(o, s, trace[..k]), trace[k])
  }

  /** The k-th event installs, and the rest of the run does not. */
  ghost predicate InstallsLast(o: Oracle, s: Fs, trace: seq<Event>, k: nat) {
    && InstallsAt(o, s, trace, k) && Valid(o, s, trace)
    && Valid(o, Since(o, s, trace, k), trace[k + 1..]) && Quiet(o, Since(o, s, trace, k), trace[k + 1..])
    && After(o, s, trace) == After(o, Since(o, s, trace, k), trace[k + 1..])
  }

  lemma {:induction false} LastInstallExact(o: Oracle, s: Fs, trace: seq<Event>)
    requires Valid(o, s, trace)
    ensures match LastInstall(o, s, trace)
            case None => Quiet(o, s, trace)
            case Some(k) => InstallsLast(o, s, trace, k)
    decreases |trace|
  {
    hide Enabled, Step, Installs, InstallsLast;
    if trace != [] {
      var mid := Step(o, s, trace[0]);
      LastInstallExact(o, mid, trace[1..]);
      match LastInstall(o, mid, trace[1..]) {
        case None =>
          if Installs(s, trace[0]) {
            InstallsFirst(o, s, trace);
          }
        case Some(k) => InstallsEarlier(o, s, trace, k);
      }
    }
  }

  lemma InstallsFirst(o: Oracle, s: Fs, trace: seq<Event>)
    requires trace != [] && Valid(o, s, trace) && Installs(s, trace[0])
    requires Quiet(o, Step(o, s, trace[0]), trace[1..])
    ensures InstallsLast(o, s, trace, 0)
  {
    hide Enabled, Step, Installs;
    assert trace[..0] == [];
  }

  lemma InstallsEarlier(o: Oracle, s: Fs, trace: seq<Event>, k: nat)
    requires trace != [] && Enabled(s, trace[0]) && InstallsLast(o, Step(o, s, trace[0]), trace[1..], k)
    ensures InstallsLast(o, s, trace, k + 1)
  {
    hide Enabled, Step, Installs;
    assert trace[..k + 1][1..] == trace[1..][..k];
    assert trace[1..][k + 1..] == trace[k + 2..];
    assert Valid(o, s, trace[..k + 1]);
  }

  /** Text and faults come from event k; fault i was counted down once per application since then. */
  ghost predicate DecidedBy(o: Oracle, s: Fs, trace: seq<Event>, k: nat)
    requires InstallsLast(o, s, trace, k)
  {
    var installed, s' := Since(o, s, trace, k), After(o, s, trace);
    && s'.text == TextRead(After(o, s, trace[..k]), trace[k])
    && FaultsParse(s'.text) == Some(installed.faults) && |s'.faults| == |installed.faults|
    && forall i :: 0 <= i < |s'.faults| ==>
         s'.faults[i] == CountedBy(installed.faults[i], Uses(o, installed, trace[k + 1..], i))
  }

  /** The configuration in force is that of the last release whose text differed and parsed, counted down since. */
  lemma Decided(o: Oracle, fd: int, n: nat, trace: seq<Event>)
    requires Valid(o, Initial(fd, n), trace)
    ensures var s := After(o, Initial(fd, n), trace);
            match LastInstall(o, Initial(fd, n), trace)
            case None => s.text == EMPTY_TEXT && s.faults == []
            case Some(k) => InstallsLast(o, Initial(fd, n), trace, k) && DecidedBy(o, Initial(fd, n), trace, k)
  {
    hide Step, Enabled, Installs, Used, TextOf, FaultsParse, LastInstall;
    var init := Initial(fd, n);
    LastInstallExact(o, init, trace);
    match LastInstall(o, init, trace) {
      case None => QuietRun(o, init, trace);
      case Some(k) =>
        QuietRun(o, Since(o, init, trace, k), trace[k + 1..]);
        InstallSets(o, After(o, init, trace[..k]), trace[k]);
    }
  }

  lemma InstallSets(o: Oracle, s: Fs, e: Event)
    requires Installs(s, e)
    ensures var s' := Step(o, s, e);
            s'.text == TextRead(s, e) != s.text && FaultsParse(s'.text) == Some(s'.faults)
  {
    hide TextOf, FaultsParse;
  }

  // ---- countdowns over runs

  function OpOfEvent(e: Event): Op {
    if e.FaultRead? then Read else Write
  }

  /** What an operation that applies fault i makes of its bytes. */
  function Outcome(o: Oracle, s: Fs, e: Event): Applied
    requires Enabled(s, e) && Used(o, s, e).Some?
  {
    var op := OpOfEvent(e);
    var (r, n) := Hit(o, s, e.h, op);
    if op == Read then ReadApplied(s.faults[r.value], e.buf, o, n) else WriteApplied(s.faults[r.value], e.buf, o, n)
  }

  /** The k-th application of a corrupt fault since it was installed corrupts with its own mode or drops. */
  lemma CountdownOverRun(o: Oracle, s: Fs, trace: seq<Event>, e: Event, i: nat)
    requires i < |s.faults| && IsCorrupt(s.faults[i])
    requires Valid(o, s, trace) && Quiet(o, s, trace)
    requires Enabled(After(o, s, trace), e) && Used(o, After(o, s, trace), e) == Some(i)
    ensures var f, k := s.faults[i], Uses(o, s, trace, i) + 1;
            var own := f.count < 0 || k <= f.count;
            var mode, fraction := if own then f.mode else CORRUPT_DROP, if own then f.fraction else 1.0;
            var a := Outcome(o, After(o, s, trace), e);
            var c := Corrupted(e.buf, mode, fraction, o, Hit(o, After(o, s, trace), e.h, OpOfEvent(e)).1);
            a.buf == c.buf && a.ret == c.ret && a.next == c.next
  {
    hide Enabled, Step, Installs, Corrupted, Hit;
    QuietRun(o, s, trace);
    var now, k := After(o, s, trace), Uses(o, s, trace, i) + 1;
    Countdown(s.faults[i], k);
    assert Counted(now.faults[i]) == CountedBy(s.faults[i], k);
    OutcomeCorrupts(o, now, e, i);
  }

  lemma OutcomeCorrupts(o: Oracle, s: Fs, e: Event, i: nat)
    requires Enabled(s, e) && Used(o, s, e) == Some(i) && IsCorrupt(s.faults[i])
    ensures var f, a := Counted(s.faults[i]), Outcome(o, s, e);
            var c := Corrupted(e.buf, f.mode, f.fraction, o, Hit(o, s, e.h, OpOfEvent(e)).1);
            a.buf == c.buf && a.ret == c.ret && a.next == c.next
  {
    hide First, IsFirst, Corrupted;
    var op := OpOfEvent(e);
    var r := Hit(o, s, e.h, op);
    FirstIsFirst(s.faults, s.handles[e.h].path, op, o, s.next, 0);
    FirstConcerns(s.faults, s.handles[e.h].path, op, o, s.next, r.0, r.1);
    CorruptedLength(e.buf, Counted(s.faults[i]).mode, Counted(s.faults[i]).fraction, o, r.1);
  }

  // ---- accessors that are not written

  /** The event does not write, release or close handle h. */
  predicate Spares(e: Event, h: int) {
    e.h != h || e.FaultRead? || e.FaultWrite?
  }

  lemma SparedStep(o: Oracle, s: Fs, e: Event, h: int)
    requires Descriptors(s) && Enabled(s, e) && h in s.handles && Spares(e, h)
    ensures var s' := Step(o, s, e);
            && h in s'.handles && s'.handles[h] == s.handles[h]
            && s.handles[h].fd in s'.files && s'.files[s.handles[h].fd] == s.files[s.handles[h].fd]
  {
    hide Verdict, Overwrite, Truncated, Injected, TextOf;
    match e {
      case FaultRead(g, buf) => InjectedFrame(o, s, g, Read, buf);
      case FaultWrite(g, buf) => InjectedFrame(o, s, g, Write, buf);
      case _ =>
    }
  }

  lemma {:induction false} SparedRun(o: Oracle, s: Fs, trace: seq<Event>, h: int)
    requires Descriptors(s) && Valid(o, s, trace) && h in s.handles
    requires forall i :: 0 <= i < |trace| ==> Spares(trace[i], h)
    ensures var s' := After(o, s, trace);
            && Descriptors(s') && h in s'.handles && s'.handles[h] == s.handles[h]
            && s.handles[h].fd in s'.files && s'.files[s.handles[h].fd] == s.files[s.handles[h].fd]
    decreases |trace|
  {
    hide Enabled, Step, Spares;
    assert s.handles[h].fd in s.files;
    if trace != [] {
      SparedStep(o, s, trace[0], h);
      DescriptorsKept(o, s, trace[0]);
      SparedRun(o, Step(o, s, trace[0]), trace[1..], h);
    }
  }

  /** Releasing a populated accessor that was not written installs exactly when the text in force is no longer
      the one it was populated from. */
  lemma UnwrittenRelease(o: Oracle, s: Fs, h: int, trace: seq<Event>)
    requires Descriptors(s) && Installed(s) && Enabled(s, Populate(h))
    requires Valid(o, Step(o, s, Populate(h)), trace)
    requires forall i :: 0 <= i < |trace| ==> Spares(trace[i], h)
    ensures var now := After(o, Step(o, s, Populate(h)), trace);
            Enabled(now, Release(h, false)) && (Installs(now, Release(h, false)) <==> now.text != s.text)
  {
    hide TextOf, FaultsParse, Spares, Valid, After;
    var mid := Step(o, s, Populate(h));
    DescriptorsKept(o, s, Populate(h));
    SparedRun(o, mid, trace, h);
    assert mid.files[mid.handles[h].fd].bytes == s.files[s.control].bytes;
  }

  /** Opening without O_TRUNC, not writing, and releasing with no install in between is a no-op. */
  lemma UnwrittenNoOp(o: Oracle, s: Fs, h: int, trace: seq<Event>)
    requires Descriptors(s) && Installed(s) && Enabled(s, Populate(h))
    requires Valid(o, Step(o, s, Populate(h)), trace) && Quiet(o, Step(o, s, Populate(h)), trace)
    requires forall i :: 0 <= i < |trace| ==> Spares(trace[i], h)
    ensures var now := After(o, Step(o, s, Populate(h)), trace);
            && Valid(o, now, [Release(h, false), Close(h)])
            && var end := After(o, now, [Release(h, false), Close(h)]);
               && end.text == now.text == s.text && end.faults == now.faults && end.control == now.control == s.control
               && end.files == now.files - {s.handles[h].fd} && end.handles == now.handles - {h}
  {
    hide TextOf, FaultsParse, Spares, Valid, After, Quiet;
    var mid := Step(o, s, Populate(h));
    var now := After(o, mid, trace);
    DescriptorsKept(o, s, Populate(h));
    UnwrittenRelease(o, s, h, trace);
    SparedRun(o, mid, trace, h);
    QuietRun(o, mid, trace);
    ReleaseCloses(o, now, h, false);
    TwoSteps(o, now, Release(h, false), Close(h));
    NotInstalled(o, now, h);
  }

  /** A release that does not install, and its close, leave text, faults and the control file alone. */
  lemma NotInstalled(o: Oracle, s: Fs, h: int)
    requires Enabled(s, Release(h, false)) && !Installs(s, Release(h, false))
    requires Enabled(Step(o, s, Release(h, false)), Close(h))
    ensures var end := Step(o, Step(o, s, Release(h, false)), Close(h));
            && end.text == s.text && end.faults == s.faults && end.control == s.control
            && end.files == s.files - {s.handles[h].fd} && end.handles == s.handles - {h}
  {
    hide Verdict;
  }

  lemma TwoSteps(o: Oracle, s: Fs, e: Event, e': Event)
    requires Valid(o, s, [e, e'])
    ensures Enabled(s, e) && Enabled(Step(o, s, e), e') && After(o, s, [e, e']) == Step(o, Step(o, s, e), e')
  {
    hide Enabled, Step;
    assert [e, e'] == [e] + [e'];
    Split(o, s, [e], [e']);
    OneStep(o, s, e);
    OneStep(o, Step(o, s, e), e');
  }

  lemma BracesParse()
    ensures FaultsParse("{}") == Some([])
  {
    hide Document;
    var c := JsonGrammar.CObj([], false, "");
    assert "" + JsonGrammar.Write(c) + "" == "{}" by {
      assert JsonGrammar.WriteFields([], false, "", false) == "}";
    }
    JsonGrammarReads.DocumentRead("", c, "");
    assert SkipBom("{}") == "{}";
    assert JsonGrammar.Meaning(c) == Obj([]);
    assert Child(Obj([]), "faults").None?;
  }

  /** One accessor populated from the initial text, a second one with braces written to it. */
  function TwoAccessors(fd: int, n: nat): Fs {
    Fs(map[fd := File(EMPTY_TEXT, true), fd + 1 := File(EMPTY_TEXT, true), fd + 2 := File("{}", true)],
       fd, EMPTY_TEXT, [],
       map[1 := Handle(Accessor, "", fd + 1), 2 := Handle(Accessor, "", fd + 2)], n)
  }

  function TwoOpens(fd: int): seq<Event> {
    [MemfdCreate(1, fd + 1, ""), Populate(1), MemfdCreate(2, fd + 2, ""), LeaveEmpty(2), Pwrite(2, 0, "{}")]
  }

  lemma FirstOpenRun(o: Oracle, fd: int, n: nat)
    ensures var s, a, b := Initial(fd, n), MemfdCreate(1, fd + 1, ""), Populate(1);
            && Enabled(s, a) && Enabled(Step(o, s, a), b)
            && Step(o, Step(o, s, a), b) ==
               Fs(s.files[fd + 1 := File(EMPTY_TEXT, true)], fd, EMPTY_TEXT, [],
                  map[1 := Handle(Accessor, "", fd + 1)], n)
  {
  }

  lemma SecondOpenRun(o: Oracle, s: Fs, fd: int)
    requires fd + 2 !in s.files && 2 !in s.handles
    ensures var a, b := MemfdCreate(2, fd + 2, ""), LeaveEmpty(2);
            && Enabled(s, a) && Enabled(Step(o, s, a), b)
            && Step(o, Step(o, s, a), b) ==
               s.(files := s.files[fd + 2 := File("", true)], handles := s.handles[2 := Handle(Accessor, "", fd + 2)])
  {
  }

  lemma TwoOpensRun(o: Oracle, fd: int, n: nat)
    ensures Valid(o, Initial(fd, n), TwoOpens(fd)) && After(o, Initial(fd, n), TwoOpens(fd)) == TwoAccessors(fd, n)
  {
    FirstOpenRun(o, fd, n);
    var s0 := Initial(fd, n);
    var b := Step(o, Step(o, s0, MemfdCreate(1, fd + 1, "")), Populate(1));
    SecondOpenRun(o, b, fd);
    var d := Step(o, Step(o, b, MemfdCreate(2, fd + 2, "")), LeaveEmpty(2));
    BracesWritten(o, fd, n, d);
    hide Step, Enabled;
    FiveSteps(o, s0, MemfdCreate(1, fd + 1, ""), Populate(1), MemfdCreate(2, fd + 2, ""), LeaveEmpty(2),
      Pwrite(2, 0, "{}"));
  }

  lemma BracesWritten(o: Oracle, fd: int, n: nat, s: Fs)
    requires s == TwoAccessors(fd, n).(files := TwoAccessors(fd, n).files[fd + 2 := File("", true)])
    ensures Enabled(s, Pwrite(2, 0, "{}")) && Step(o, s, Pwrite(2, 0, "{}")) == TwoAccessors(fd, n)
  {
    hide Overwrite;
    OverwriteEmpty("{}");
  }

  /** Not writing is not enough: an accessor opened before somebody else's install puts the old text back. */
  lemma StaleReinstalls(o: Oracle, fd: int, n: nat)
    ensures var trace := TwoOpens(fd) + [Release(2, false)];
            && Valid(o, Initial(fd, n), trace)
            && var s := After(o, Initial(fd, n), trace);
               s.text == "{}" && Installs(s, Release(1, false)) && TextRead(s, Release(1, false)) == EMPTY_TEXT
  {
    hide TextOf, FaultsParse, TwoOpens, Valid, After;
    TwoOpensRun(o, fd, n);
    Split(o, Initial(fd, n), TwoOpens(fd), [Release(2, false)]);
    var s := TwoAccessors(fd, n);
    ShortText("{}");
    BracesParse();
    ShortText(EMPTY_TEXT);
    InitialParses();
    assert Enabled(s, Release(2, false));
    OneStep(o, s, Release(2, false));
  }

  lemma OverwriteEmpty(data: string)
    ensures Overwrite("", 0, data) == data
  {
  }

  lemma FiveSteps(o: Oracle, s: Fs, a: Event, b: Event, c: Event, d: Event, e: Event)
    requires Enabled(s, a) && Enabled(Step(o, s, a), b) && Enabled(Step(o, Step(o, s, a), b), c)
    requires var s' := Step(o, Step(o, Step(o, s, a), b), c); Enabled(s', d) && Enabled(Step(o, s', d), e)
    ensures Valid(o, s, [a, b, c, d, e])
    ensures After(o, s, [a, b, c, d, e]) == Step(o, Step(o, Step(o, Step(o, Step(o, s, a), b), c), d), e)
  {
    hide Enabled, Step;
    assert [a, b, c, d, e] == [a] + ([b] + ([c] + ([d] + [e])));
    var s1 := Step(o, s, a);
    var s2 := Step(o, s1, b);
    var s3 := Step(o, s2, c);
    OneStep(o, s, a);
    OneStep(o, s1, b);
    OneStep(o, s2, c);
    OneStep(o, s3, d);
    OneStep(o, Step(o, s3, d), e);
    Split(o, s3, [d], [e]);
    Split(o, s2, [c], [d] + [e]);
    Split(o, s1, [b], [c] + ([d] + [e]));
    Split(o, s, [a], [b] + ([c] + ([d] + [e])));
  }

  lemma OneStep(o: Oracle, s: Fs, e: Event)
    requires Enabled(s, e)
    ensures Valid(o, s, [e]) && After(o, s, [e]) == Step(o, s, e)
  {
    hide Enabled, Step;
    assert [e][1..] == [];
    assert Valid(o, Step(o, s, e), []);
  }
}
