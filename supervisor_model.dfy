/**
 * Value-level model of the FFprobe command supervisor: its timeout field and
 * its single task slot, the effect of each operation on them, and what every
 * sequence of operations preserves.  The class in FFprobeSupervisor is proved
 * against the functions of this module.
 */
module SupervisorModel {

  /** Bounds of Java's 64-bit `long`. */
  const LongMin: int := -0x8000_0000_0000_0000
  const LongMax: int := 0x7FFF_FFFF_FFFF_FFFF

  type Long = x: int | LongMin <= x <= LongMax

  /** The smallest timeout, in milliseconds, that setTimeout accepts (10 * 1000). */
  const MinimumTimeout: Long := 10 * 1000

  /** The timeout a new supervisor starts with: Long.MAX_VALUE. */
  const InitialTimeout: Long := LongMax

  datatype Option<T> = None | Some(value: T)

  datatype Result<T, E> = Ok(value: T) | Err(error: E)

  /** The two exceptions execute throws before starting anything. */
  datatype ExecuteError =
    | CommandAlreadyRunning  // FFprobeCommandAlreadyRunningException
    | IllegalArgument        // IllegalArgumentException("shell command cannot be empty")

  /**
   * What the supervisor sees of an asynchronous task: the command vector it
   * was built with, the timeout it was given, and whether its process has
   * completed (a flag the environment sets and never clears).
   */
  datatype TaskView = TaskView(command: seq<string>, timeout: Long, completed: bool)

  /** The supervisor's two fields; `slot == None` stands for a null task field. */
  datatype State = State(timeout: Long, slot: Option<TaskView>)

  /** The result of execute: the next state and either the new task or the exception. */
  datatype Outcome = Outcome(next: State, result: Result<TaskView, ExecuteError>)

  /** Field invariant on the timeout: its initial value, or a value setTimeout accepted. */
  predicate TimeoutOk(t: Long) {
    t == InitialTimeout || t >= MinimumTimeout
  }

  /** A new supervisor: unbounded timeout and an empty slot. */
  function Init(): (s: State)
    ensures s.timeout == InitialTimeout && s.slot == None
    ensures TimeoutOk(s.timeout) && !Running(s) && Inv(s)
  {
    State(InitialTimeout, None)
  }

  /** isCommandRunning: the slot holds a task whose process has not completed. */
  predicate Running(s: State) {
    s.slot.Some? && !s.slot.value.completed
  }

  /**
   * execute: the already-running check comes first, then the empty-command
   * check; only then is a new task holding the binary path followed by the
   * arguments, with the current timeout, put in the slot.
   */
  function Execute(s: State, binary: string, cmd: seq<string>): (r: Outcome)
    ensures Running(s) ==> r == Outcome(s, Err(CommandAlreadyRunning))
    ensures !Running(s) && cmd == [] ==> r == Outcome(s, Err(IllegalArgument))
    ensures !Running(s) && cmd != [] ==>
              && r.result.Ok?
              && r.next == s.(slot := Some(r.result.value))
              && Running(r.next)
              && |r.result.value.command| == 1 + |cmd|
              && r.result.value.command[0] == binary
              && (forall i :: 0 <= i < |cmd| ==> r.result.value.command[i + 1] == cmd[i])
              && r.result.value.timeout == s.timeout
    ensures r.next.timeout == s.timeout
  {
    if Running(s) then
      Outcome(s, Err(CommandAlreadyRunning))
    else if |cmd| != 0 then
      var task := TaskView([binary] + cmd, s.timeout, false);
      Outcome(s.(slot := Some(task)), Ok(task))
    else
      Outcome(s, Err(IllegalArgument))
  }

  /** setTimeout: values below the minimum are ignored, the task slot is never touched. */
  function SetTimeout(s: State, t: Long): (r: State)
    ensures t >= MinimumTimeout ==> r.timeout == t
    ensures t < MinimumTimeout ==> r == s
    ensures r.slot == s.slot
    ensures TimeoutOk(s.timeout) ==> TimeoutOk(r.timeout)
  {
    if t >= MinimumTimeout then s.(timeout := t) else s
  }

  /** killRunningProcesses: whatever the kill reports, the slot ends up empty. */
  function Kill(s: State): (r: State)
    ensures r.slot.None? && !Running(r)
    ensures r.timeout == s.timeout
  {
    s.(slot := None)
  }

  /** The environment observes the held task's process end; the flag then stays set. */
  function Complete(s: State): (r: State)
    ensures !Running(r)
    ensures r.timeout == s.timeout
    ensures s.slot.None? ==> r == s
    ensures s.slot.Some? ==> r.slot == Some(s.slot.value.(completed := true))
  {
    match s.slot
    case None => s
    case Some(task) => s.(slot := Some(task.(completed := true)))
  }

  /**
   * After killRunningProcesses nothing is running, so the next execute of a
   * non-empty command starts a task instead of failing with already-running.
   */
  lemma KillClearsWayForExecute(s: State, binary: string, cmd: seq<string>)
    requires cmd != []
    ensures !Running(Kill(s))
    ensures Execute(Kill(s), binary, cmd).result.Ok?
  {
  }

  /** One step a client or the environment can take on the supervisor. */
  datatype Event =
    | Exec(binary: string, cmd: seq<string>)  // execute, whichever overload
    | KillAll                                 // killRunningProcesses
    | SetTimeoutTo(t: Long)                   // setTimeout
    | QuitSignal                              // sendQuitSignal
    | ProcessEnds                             // the held task's process completes

  /**
   * The effect of one event.  sendQuitSignal changes neither field (and when
   * the slot is empty it throws before changing anything); the failed
   * executes leave the state as it was.
   */
  function Step(s: State, e: Event): State {
    match e
    case Exec(binary, cmd) => Execute(s, binary, cmd).next
    case KillAll => Kill(s)
    case SetTimeoutTo(t) => SetTimeout(s, t)
    case QuitSignal => s
    case ProcessEnds => Complete(s)
  }

  /** The state after the events, applied in order from the first to the last. */
  function Run(s: State, events: seq<Event>): State
    decreases |events|
  {
    if events == [] then s
    else Step(Run(s, events[..|events| - 1]), events[|events| - 1])
  }

  /** The argument of the most recent setTimeout call that was accepted, if any. */
  function LastAcceptedTimeout(events: seq<Event>): (r: Option<Long>)
    ensures r.Some? ==> r.value >= MinimumTimeout
    ensures r.Some? ==> SetTimeoutTo(r.value) in events
    ensures r.None? ==> forall e :: e in events && e.SetTimeoutTo? ==> e.t < MinimumTimeout
    ensures r.Some? ==>
              exists i :: 0 <= i < |events| && events[i] == SetTimeoutTo(r.value) &&
                forall j :: i < j < |events| ==> !(events[j].SetTimeoutTo? && events[j].t >= MinimumTimeout)
    decreases |events|
  {
    if events == [] then None
    else
      var e := events[|events| - 1];
      if e.SetTimeoutTo? && e.t >= MinimumTimeout then Some(e.t)
      else LastAcceptedTimeout(events[..|events| - 1])
  }

  /**
   * The timeout after any sequence of operations is the most recent value
   * setTimeout accepted, or the starting timeout when it accepted none.
   */
  lemma {:induction false} RunTimeout(s: State, events: seq<Event>)
    ensures Run(s, events).timeout ==
              match LastAcceptedTimeout(events)
              case Some(t) => t
              case None => s.timeout
    decreases |events|
  {
    if events != [] {
      RunTimeout(s, events[..|events| - 1]);
    }
  }

  /** The timeout field invariant holds in every reachable state. */
  lemma {:induction false} TimeoutInvariant(events: seq<Event>)
    ensures TimeoutOk(Run(Init(), events).timeout)
  {
    RunTimeout(Init(), events);
  }

  /**
   * Invariant of the supervisor: the timeout field invariant, and a task in
   * the slot carries a timeout that satisfies it and a command of at least
   * two elements.
   */
  predicate Inv(s: State) {
    && TimeoutOk(s.timeout)
    && (s.slot.Some? ==> TimeoutOk(s.slot.value.timeout) && |s.slot.value.command| >= 2)
  }

  /** Every event preserves Inv. */
  lemma StepKeepsInv(s: State, e: Event)
    requires Inv(s)
    ensures Inv(Step(s, e))
  {
  }

  /** Every sequence of events from any state satisfying Inv reaches only states satisfying Inv. */
  lemma {:induction false} RunKeepsInv(s: State, events: seq<Event>)
    requires Inv(s)
    ensures Inv(Run(s, events))
    decreases |events|
  {
    if events != [] {
      RunKeepsInv(s, events[..|events| - 1]);
      StepKeepsInv(Run(s, events[..|events| - 1]), events[|events| - 1]);
    }
  }
}
