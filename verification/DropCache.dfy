/**
 The cache dropping thread and the call that stops it, as a machine over the steps of the
 two threads; its runs are all their interleavings.
 */
module DropCache {

  datatype Owner = Nobody | Worker | Joiner

  /** Where the thread is. Waiting is inside pthread_cond_timedwait; Woken has to get the lock back. */
  datatype WorkerAt = Locking | Checking | Waiting | Woken | Waited | Leaving | Dropping | Exited

  /** Where the caller of drop_cache_thread_join is; Away before the call. */
  datatype JoinerAt =
    | Away | Stopping | Signalling | Unlocking | Joining
    | DestroyingCond | DestroyingLock | FreeingPath | FreeingStruct | Finished

  /** `late` counts the drops begun after stop was set, `misuse` records any use of something destroyed. */
  datatype State = State(lock: Owner, shouldRun: bool, w: WorkerAt, j: JoinerAt, drops: nat, late: nat,
                         hasCond: bool, hasLock: bool, hasPath: bool, hasStruct: bool, misuse: bool)

  /** drop_cache_thread_start */
  const START := State(Nobody, true, Locking, Away, 0, 0, true, true, true, true, false)

  datatype Event =
    | Lock | Check | Wake | Relock | Unlock | Begin | End
    | JoinLock | Stop | Signal | JoinUnlock | Join | DestroyCond | DestroyLock | FreePath | FreeStruct

  predicate Enabled(s: State, e: Event) {
    match e
    case Lock => s.w == Locking && s.lock == Nobody
    case Check => s.w == Checking
    case Wake => s.w == Waiting
    case Relock => s.w == Woken && s.lock == Nobody
    case Unlock => s.w == Waited
    case Begin => s.w == Leaving
    case End => s.w == Dropping
    case JoinLock => s.j == Away && s.lock == Nobody
    case Stop => s.j == Stopping
    case Signal => s.j == Signalling
    case JoinUnlock => s.j == Unlocking
    case Join => s.j == Joining && s.w == Exited
    case DestroyCond => s.j == DestroyingCond
    case DestroyLock => s.j == DestroyingLock
    case FreePath => s.j == FreeingPath
    case FreeStruct => s.j == FreeingStruct
  }

  /** Using the lock, the condition or the path is a misuse once it, or the struct that holds it, is gone. */
  function Use(s: State, alive: bool): State {
    s.(misuse := s.misuse || !alive || !s.hasStruct)
  }

  function Step(s: State, e: Event): State
    requires Enabled(s, e)
  {
    match e
    case Lock => Use(s, s.hasLock).(w := Checking, lock := Worker)
    case Check =>
      if s.shouldRun then Use(s, s.hasLock && s.hasCond).(w := Waiting, lock := Nobody)
      else Use(s, s.hasLock).(w := Exited, lock := Nobody)
    case Wake => Use(s, s.hasCond).(w := Woken)
    case Relock => Use(s, s.hasLock).(w := Waited, lock := Worker)
    case Unlock => Use(s, s.hasLock).(w := Leaving, lock := Nobody)
    case Begin =>
      Use(s, s.hasPath).(w := Dropping, drops := s.drops + 1, late := s.late + if s.shouldRun then 0 else 1)
    case End => s.(w := Locking)
    case JoinLock => Use(s, s.hasLock).(j := Stopping, lock := Joiner)
    case Stop => Use(s, true).(j := Signalling, shouldRun := false)
    case Signal => Use(s, s.hasCond).(j := Unlocking, w := if s.w == Waiting then Woken else s.w)
    case JoinUnlock => Use(s, s.hasLock).(j := Joining, lock := Nobody)
    case Join => Use(s, true).(j := DestroyingCond)
    case DestroyCond => Use(s, s.hasCond).(j := DestroyingLock, hasCond := false)
    case DestroyLock => Use(s, s.hasLock).(j := FreeingPath, hasLock := false)
    case FreePath => Use(s, s.hasPath).(j := FreeingStruct, hasPath := false)
    case FreeStruct => Use(s, true).(j := Finished, hasStruct := false)
  }

  // ---- runs

  predicate Valid(s: State, trace: seq<Event>)
    decreases |trace|
  {
    trace == [] || (Enabled(s, trace[0]) && Valid(Step(s, trace[0]), trace[1..]))
  }

  function After(s: State, trace: seq<Event>): State
    requires Valid(s, trace)
    decreases |trace|
  {
    if trace == [] then s else After(Step(s, trace[0]), trace[1..])
  }

  /** The thread has yet to decide on the drop that its wait ends with. */
  predicate Owes(w: WorkerAt) {
    w.Waiting? || w.Woken? || w.Waited? || w.Leaving?
  }

  predicate Inv(s: State) {
    && (s.lock == Worker <==> s.w in {Checking, Waited})
    && (s.lock == Joiner <==> s.j in {Stopping, Signalling, Unlocking})
    && (s.shouldRun <==> s.j in {Away, Stopping})
    && (!s.shouldRun && s.j != Signalling ==> s.w != Waiting)
    && (s.shouldRun ==> s.late == 0)
    && s.late + (if Owes(s.w) then 1 else 0) <= 1
    && (s.j in {DestroyingCond, DestroyingLock, FreeingPath, FreeingStruct, Finished} ==> s.w == Exited)
    && (s.w == Exited ==> !s.shouldRun)
    && (s.hasCond <==> s.j !in {DestroyingLock, FreeingPath, FreeingStruct, Finished})
    && (s.hasLock <==> s.j !in {FreeingPath, FreeingStruct, Finished})
    && (s.hasPath <==> s.j !in {FreeingStruct, Finished})
    && (s.hasStruct <==> s.j != Finished)
    && !s.misuse
  }

  lemma InvKept(s: State, e: Event)
    requires Inv(s) && Enabled(s, e)
    ensures Inv(Step(s, e))
  {
  }

  lemma {:induction false} InvRun(s: State, trace: seq<Event>)
    requires Inv(s) && Valid(s, trace)
    ensures Inv(After(s, trace))
    decreases |trace|
  {
    hide Inv, Enabled, Step;
    if trace != [] {
      InvKept(s, trace[0]);
      InvRun(Step(s, trace[0]), trace[1..]);
    }
  }

  /** In every reachable state: the lock is not held while dropping, nobody waits unsignalled for a stop, at most one
      drop begins after it, and what the thread uses is destroyed only after the thread has exited. */
  lemma Safe(trace: seq<Event>)
    requires Valid(START, trace)
    ensures var s := After(START, trace);
            && (s.w in {Leaving, Dropping} ==> s.lock != Worker)
            && (!s.shouldRun && s.w == Waiting ==> s.j == Signalling && s.lock == Joiner)
            && s.late <= 1
            && (!s.hasCond || !s.hasLock || !s.hasPath || !s.hasStruct ==> s.w == Exited)
            && !s.misuse
  {
    hide Valid, After;
    InvRun(START, trace);
  }

  // ---- the thread exits

  predicate IsWorkers(e: Event) {
    e in {Lock, Check, Wake, Relock, Unlock, Begin, End}
  }

  /** How many steps of its own the thread can still take once stop is set. */
  function Left(w: WorkerAt): nat {
    match w
    case Waiting => 7
    case Woken => 6
    case Waited => 5
    case Leaving => 4
    case Dropping => 3
    case Locking => 2
    case Checking => 1
    case Exited => 0
  }

  function Taken(trace: seq<Event>): nat {
    if trace == [] then 0 else (if IsWorkers(trace[0]) then 1 else 0) + Taken(trace[1..])
  }

  lemma {:induction false} StoppedRun(s: State, trace: seq<Event>)
    requires Inv(s) && !s.shouldRun && Valid(s, trace)
    ensures var s' := After(s, trace); !s'.shouldRun && Taken(trace) + Left(s'.w) <= Left(s.w)
    decreases |trace|
  {
    if trace != [] {
      InvKept(s, trace[0]);
      StoppedRun(Step(s, trace[0]), trace[1..]);
    }
  }

  /** After stop the thread takes at most seven more steps, in which it begins at most one drop. */
  lemma StopsSoon(before: seq<Event>, after: seq<Event>)
    requires Valid(START, before) && !After(START, before).shouldRun && Valid(After(START, before), after)
    ensures var s, s' := After(START, before), After(After(START, before), after);
            Taken(after) + Left(s'.w) <= 7 && s'.late <= 1
  {
    hide Valid, After, Taken;
    InvRun(START, before);
    InvRun(After(START, before), after);
    StoppedRun(After(START, before), after);
  }

  /** Until the thread has exited, it can take its next step, or the joiner who holds the lock can; after that the
      joiner can go on to the end. */
  lemma NeverStuck(trace: seq<Event>)
    requires Valid(START, trace)
    ensures var s := After(START, trace);
            && (s.j == Finished || exists e :: Enabled(s, e))
            && (s.w != Exited && s.lock != Joiner ==> exists e :: IsWorkers(e) && Enabled(s, e))
            && (s.lock == Joiner || (s.w == Exited && s.j !in {Away, Finished})
               ==> exists e :: !IsWorkers(e) && Enabled(s, e))
  {
    hide Valid, After;
    InvRun(START, trace);
    var s := After(START, trace);
    var e := WorkerNext(s.w);
    var f := JoinerNext(s.j);
    assert s.w != Exited && s.lock != Joiner ==> IsWorkers(e) && Enabled(s, e);
    assert s.lock == Joiner || (s.w == Exited && s.j !in {Away, Finished}) ==> !IsWorkers(f) && Enabled(s, f);
  }

  function WorkerNext(w: WorkerAt): Event {
    match w
    case Locking => Lock
    case Checking => Check
    case Waiting => Wake
    case Woken => Relock
    case Waited => Unlock
    case Leaving => Begin
    case _ => End
  }

  function JoinerNext(j: JoinerAt): Event {
    match j
    case Away => JoinLock
    case Stopping => Stop
    case Signalling => Signal
    case Unlocking => JoinUnlock
    case Joining => Join
    case DestroyingCond => DestroyCond
    case DestroyingLock => DestroyLock
    case FreeingPath => FreePath
    case _ => FreeStruct
  }

  // ---- the thread drops

  function Count(trace: seq<Event>, e: Event): nat {
    if trace == [] then 0 else (if trace[0] == e then 1 else 0) + Count(trace[1..], e)
  }

  /** Drops begun since the last check of the stop flag. */
  function Begun(w: WorkerAt): nat {
    if Owes(w) then 0 else 1
  }

  lemma {:induction false} UncheckedRun(s: State, trace: seq<Event>)
    requires Valid(s, trace) && Check !in trace && s.w != Exited
    ensures var s' := After(s, trace);
            s'.w != Exited && Count(trace, Begin) + Begun(s.w) == Begun(s'.w)
    decreases |trace|
  {
    hide Enabled, Step, Begun;
    if trace != [] {
      assert trace[0] != Check;
      UncheckedStep(s, trace[0]);
      UncheckedRun(Step(s, trace[0]), trace[1..]);
    }
  }

  lemma UncheckedStep(s: State, e: Event)
    requires Enabled(s, e) && e != Check && s.w != Exited
    ensures Step(s, e).w != Exited && (if e == Begin then 1 else 0) + Begun(s.w) == Begun(Step(s, e).w)
  {
    match e
    case Lock =>
    case Wake =>
    case Relock =>
    case Unlock =>
    case Begin =>
    case End =>
    case Signal =>
    case _ =>
  }

  /** In every interleaving, exactly one drop begins between two checks of the stop flag, and none before the first. */
  lemma OneDropBetweenChecks(before: seq<Event>, between: seq<Event>)
    requires Valid(START, before) && Enabled(After(START, before), Check)
    requires var s := Step(After(START, before), Check);
             Check !in between && Valid(s, between) && Enabled(After(s, between), Check)
    ensures Count(between, Begin) == 1
    ensures Check !in before ==> Count(before, Begin) == 0
  {
    var s := Step(After(START, before), Check);
    if s.w == Exited {
      ExitedRun(s, between);
    } else {
      UncheckedRun(s, between);
    }
    if Check !in before {
      UncheckedRun(START, before);
    }
  }

  lemma {:induction false} ExitedRun(s: State, trace: seq<Event>)
    requires Valid(s, trace) && s.w == Exited
    ensures After(s, trace).w == Exited && Count(trace, Begin) == 0
    decreases |trace|
  {
    hide Enabled, Step;
    if trace != [] {
      ExitedStep(s, trace[0]);
      ExitedRun(Step(s, trace[0]), trace[1..]);
    }
  }

  lemma ExitedStep(s: State, e: Event)
    requires Enabled(s, e) && s.w == Exited
    ensures Step(s, e).w == Exited && e != Begin
  {
    match e
    case Signal =>
    case Join =>
    case _ =>
  }

  /** A check exits exactly if stop is set; otherwise the thread waits, and every wait is followed by a drop. */
  lemma CheckDecides(s: State)
    requires Enabled(s, Check)
    ensures Step(s, Check).w == if s.shouldRun then Waiting else Exited
  {
  }

  /** After stop, the drops that still begin are the one owed by a wait that was under way. */
  lemma {:induction false} StoppedDrops(s: State, trace: seq<Event>)
    requires !s.shouldRun && Valid(s, trace) && After(s, trace).w == Exited
    ensures Count(trace, Begin) == if Owes(s.w) then 1 else 0
    decreases |trace|
  {
    hide Enabled, Step, Owes;
    if trace == [] {
      assert !Owes(Exited) by { OwesStep(s, Wake); }
    } else {
      OwesStep(s, trace[0]);
      StoppedDrops(Step(s, trace[0]), trace[1..]);
    }
  }

  lemma OwesStep(s: State, e: Event)
    requires !s.shouldRun
    ensures !Owes(Exited)
    ensures Enabled(s, e) ==>
              var s' := Step(s, e);
              && !s'.shouldRun
              && (if e == Begin then 1 else 0) + (if Owes(s'.w) then 1 else 0) == if Owes(s.w) then 1 else 0
  {
    match e
    case Check =>
    case Begin =>
    case Signal =>
    case _ =>
  }
}
