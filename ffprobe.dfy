/**
 * The FFprobe supervisor as the source has it: an object whose two fields,
 * the timeout and the slot holding the one asynchronous task, are updated in
 * place by its methods.  Each method is proved against the value-level
 * function of SupervisorModel that describes its effect.
 */
module FFprobeSupervisor {
  import opened SupervisorModel

  /** Environment variables overlaid on the binary's inherited environment. */
  type Environment = map<string, string>

  /**
   * The asynchronous task that runs one command.  Only what the supervisor
   * relies on is modelled: the command vector and timeout it was built with,
   * whether its process has completed, and whether a quit signal was sent.
   */
  class CommandTask {
    const command: seq<string>
    const timeout: Long
    var completed: bool
    var quitRequested: bool

    constructor (command: seq<string>, timeout: Long)
      ensures this.command == command && this.timeout == timeout
      ensures !completed && !quitRequested
    {
      this.command := command;
      this.timeout := timeout;
      completed := false;
      quitRequested := false;
    }

    /** What the supervisor sees of this task. */
    function View(): TaskView
      reads this
    {
      TaskView(command, timeout, completed)
    }

    /**
     * The environment observes the task's process end.  The only change ever
     * made to `completed` is this one, so once set it stays set.
     */
    method Complete()
      modifies this
      ensures completed && quitRequested == old(quitRequested)
      ensures View() == old(View()).(completed := true)
    {
      completed := true;
    }

    /** Asks the process to quit; what the process then does is not modelled. */
    method SendQuitSignal()
      modifies this
      ensures quitRequested && completed == old(completed)
      ensures View() == old(View())
    {
      quitRequested := true;
    }
  }

  /**
   * System.arraycopy: copies `length` elements of `src` from `srcPos` into
   * `dest` from `destPos`, as if through a temporary copy (so `src` and
   * `dest` may be the same array); every other element of `dest` is kept.
   */
  method ArrayCopy<T>(src: array<T>, srcPos: nat, dest: array<T>, destPos: nat, length: nat)
    requires srcPos + length <= src.Length && destPos + length <= dest.Length
    modifies dest
    ensures dest[..destPos] == old(dest[..destPos])
    ensures dest[destPos..destPos + length] == old(src[srcPos..srcPos + length])
    ensures dest[destPos + length..] == old(dest[destPos + length..])
  {
    var copied := src[srcPos..srcPos + length];
    var i := 0;
    while i < length
      invariant 0 <= i <= length
      invariant dest[..destPos] == old(dest[..destPos])
      invariant dest[destPos..destPos + i] == copied[..i]
      invariant dest[destPos + i..] == old(dest[destPos + i..])
    {
      dest[destPos + i] := copied[i];
      i := i + 1;
    }
  }

  /** concatenate: a new array holding the elements of `a` and then those of `b`. */
  method Concatenate<T(0)>(a: array<T>, b: array<T>) returns (c: array<T>)
    ensures fresh(c)
    ensures c.Length == a.Length + b.Length
    ensures c[..a.Length] == a[..] && c[a.Length..] == b[..]
  {
    c := new T[a.Length + b.Length];
    ArrayCopy(a, 0, c, 0, a.Length);
    ArrayCopy(b, 0, c, a.Length, b.Length);
  }

  class FFprobe {
    /**
     * The path of the installed binary, for an optional environment overlay;
     * stands for the path lookup bound to the application context, which is
     * not part of this model.
     */
    const binaryCommand: Option<Environment> -> string

    /** The task of the last command started, or null. */
    var slot: CommandTask?

    /** The timeout handed to every new task, in milliseconds. */
    var timeout: Long

    /** The invariant of the value model, read off the object's fields. */
    ghost predicate Valid()
      reads this, slot
    {
      Inv(View())
    }

    /** The supervisor's state as a value. */
    function View(): State
      reads this, slot
    {
      State(timeout, if slot == null then None else Some(slot.View()))
    }

    constructor (binaryCommand: Option<Environment> -> string)
      ensures Valid()
      ensures this.binaryCommand == binaryCommand
      ensures slot == null && timeout == InitialTimeout && View() == Init()
    {
      this.binaryCommand := binaryCommand;
      slot := null;
      timeout := InitialTimeout;
    }

    /**
     * execute(environmentVars, cmd, handler): refuses while the held task
     * runs, then refuses an empty command; otherwise stores and returns a new
     * task for the binary path followed by `cmd`, with the current timeout.
     * Starting the process and its output handler are not modelled.
     */
    method ExecuteWithEnvironment(env: Option<Environment>, cmd: array<string>)
      returns (r: Result<CommandTask, ExecuteError>)
      requires Valid()
      modifies this
      ensures Valid() && timeout == old(timeout)
      ensures View() == SupervisorModel.Execute(old(View()), binaryCommand(env), cmd[..]).next
      ensures r.Err? ==>
                && slot == old(slot)
                && SupervisorModel.Execute(old(View()), binaryCommand(env), cmd[..]).result == Err(r.error)
      ensures r.Ok? ==>
                && fresh(r.value) && slot == r.value
                && SupervisorModel.Execute(old(View()), binaryCommand(env), cmd[..]).result == Ok(r.value.View())
    {
      if slot != null && !slot.completed {
        return Err(CommandAlreadyRunning);
      }
      if cmd.Length != 0 {
        var binary := new string[1];
        binary[0] := binaryCommand(env);
        var command := Concatenate(binary, cmd);
        assert command[..] == [binaryCommand(env)] + cmd[..] by {
          assert command[..] == command[..1] + command[1..];
        }
        var task := new CommandTask(command[..], timeout);
        slot := task;
        return Ok(task);
      } else {
        return Err(IllegalArgument);
      }
    }

    /** execute(cmd, handler): the same as execute with no environment overlay. */
    method Execute(cmd: array<string>) returns (r: Result<CommandTask, ExecuteError>)
      requires Valid()
      modifies this
      ensures Valid() && timeout == old(timeout)
      ensures View() == SupervisorModel.Execute(old(View()), binaryCommand(None), cmd[..]).next
      ensures r.Err? ==>
                && slot == old(slot)
                && SupervisorModel.Execute(old(View()), binaryCommand(None), cmd[..]).result == Err(r.error)
      ensures r.Ok? ==>
                && fresh(r.value) && slot == r.value
                && SupervisorModel.Execute(old(View()), binaryCommand(None), cmd[..]).result == Ok(r.value.View())
    {
      r := ExecuteWithEnvironment(None, cmd);
    }

    /** isCommandRunning: a task is held and its process has not completed. */
    method IsCommandRunning() returns (running: bool)
      ensures running <==> slot != null && !slot.completed
      ensures running <==> Running(View())
    {
      running := slot != null && !slot.completed;
    }

    /** The readiness predicate polled by whenFFbinaryIsReady: nothing is running. */
    method IsReadyToProceed() returns (ready: bool)
      ensures ready <==> !Running(View())
    {
      var running := IsCommandRunning();
      ready := !running;
    }

    /**
     * killRunningProcesses: `killed` is what the kill of the held task
     * reported, returned as it is; the slot is emptied in every case.
     */
    method KillRunningProcesses(killed: bool) returns (status: bool)
      requires Valid()
      modifies this
      ensures Valid()
      ensures status == killed
      ensures slot == null && timeout == old(timeout)
      ensures View() == Kill(old(View())) && !Running(View())
    {
      status := killed;
      slot := null;
    }

    /** setTimeout: accepted only at or above the minimum, otherwise ignored. */
    method SetTimeout(t: Long)
      requires Valid()
      modifies this`timeout
      ensures Valid()
      ensures t >= MinimumTimeout ==> timeout == t
      ensures t < MinimumTimeout ==> timeout == old(timeout)
      ensures View() == SupervisorModel.SetTimeout(old(View()), t)
    {
      if t >= MinimumTimeout {
        timeout := t;
      }
    }

    /**
     * sendQuitSignal: forwards the signal to the held task, which must exist
     * (the source dereferences the slot unchecked); the slot is not cleared.
     */
    method SendQuitSignal()
      requires slot != null
      modifies slot
      ensures slot == old(slot) && slot.quitRequested
      ensures View() == old(View())
    {
      slot.SendQuitSignal();
    }
  }
}
