# FFprobe command supervisor, modelled in Dafny

This project models the single-flight command supervisor of the `FFprobe` class
of the FFmpeg-Android library. An `FFprobe` object holds two fields:

- the slot holding the asynchronous task of the last command started (or null);
- the timeout handed to every new task. It starts at `Long.MAX_VALUE`, and
  `setTimeout` only replaces it with values of at least 10 000 ms.

Its operations are:

- `execute` refuses while the held task has not completed, then refuses an
  empty command. Otherwise it builds the command vector from the binary's path
  followed by the arguments, and stores and returns a new task with the current
  timeout.
- `isCommandRunning` and the readiness predicate of `whenFFbinaryIsReady` query
  the slot.
- `killRunningProcesses` empties the slot.
- `setTimeout` changes the timeout.
- `sendQuitSignal` forwards a quit request to the held task.

There are two modules:

- `SupervisorModel` (`supervisor_model.dfy`) describes the supervisor's state
  as a value: the timeout and an optional `TaskView` (command, timeout,
  completed flag). It gives the effect of each operation as a function, and
  proves what every sequence of operations preserves. A sequence is a list of
  `Event`s applied by `Run`.
- `FFprobeSupervisor` (`ffprobe.dfy`) is the object as the source has it. It has
  a class `FFprobe` with the fields `slot` and `timeout`, and a class
  `CommandTask` for the asynchronous task. It also has `Concatenate` and the
  `System.arraycopy` it relies on, on arrays. Each `FFprobe` method states its
  effect on the fields directly. It also states that its new `View()` is the
  matching `SupervisorModel` function applied to the old `View()`. The object's
  invariant `Valid()` is the value model's `Inv` of `View()`.

Things the model takes as parameters:

- The binary's path is produced by the library's path lookup from the
  application context and an optional environment map. It is the class's
  constant `binaryCommand: Option<Environment> -> string`, given to the
  constructor.
- The boolean that the kill of the held task reports is the `killed` parameter
  of `KillRunningProcesses`.
- A task's process completing is the environment calling `CommandTask.Complete`.
  That is the only place `completed` is changed, so once it is set it stays set.

Three behaviours of the code, and how the model treats them:

- `sendQuitSignal` dereferences the slot without a null check
  (FFprobe.java:167), so on an empty slot it throws a NullPointerException.
  The model makes a non-empty slot its precondition.
- `killRunningProcesses` returns whatever `Util.killAsync` returns for the held
  task, which may be null (FFprobe.java:153). `Util.killAsync` is not part of
  this model, so the result is left unconstrained, even when the slot is empty.
- `setTimeout` ignores a value below 10 000 ms and keeps the previous timeout
  (FFprobe.java:160). It does not raise the value to the minimum.

## Model

| member | source | states |
|---|---|---|
| SupervisorModel.Init | android-ffmpeg/src/main/java/nl/bravobit/ffmpeg/FFprobe.java:19-22 | a new supervisor has the timeout `Long.MAX_VALUE` and an empty slot. It meets the supervisor invariant, and nothing is running |
| SupervisorModel.Execute | android-ffmpeg/src/main/java/nl/bravobit/ffmpeg/FFprobe.java:114-126 | if a task is running: already-running error and state unchanged, even for an empty command. Otherwise, if the command is empty: illegal-argument error and state unchanged. Otherwise the slot holds the returned task, which is running. Its command has length 1+\|cmd\|, element 0 is the binary path and element i+1 is cmd[i]. Its timeout is the current timeout. The timeout field is never changed |
| SupervisorModel.SetTimeout | android-ffmpeg/src/main/java/nl/bravobit/ffmpeg/FFprobe.java:159-163 | t >= 10000 becomes the timeout. A smaller t leaves the whole state unchanged. The slot is never touched, and the timeout invariant is preserved |
| SupervisorModel.Kill | android-ffmpeg/src/main/java/nl/bravobit/ffmpeg/FFprobe.java:152-156 | afterwards the slot is empty and nothing is running. The timeout is unchanged |
| SupervisorModel.Complete | android-ffmpeg/src/main/java/nl/bravobit/ffmpeg/FFprobe.java:147-149 | once the held task's process completes, nothing is running. The task is otherwise the same, and an empty slot stays empty |
| SupervisorModel.KillClearsWayForExecute | android-ffmpeg/src/main/java/nl/bravobit/ffmpeg/FFprobe.java:152-156 | after a kill nothing is running, so execute of a non-empty command succeeds, whatever ran before |
| SupervisorModel.LastAcceptedTimeout | android-ffmpeg/src/main/java/nl/bravobit/ffmpeg/FFprobe.java:159-163 | the most recent timeout that setTimeout accepted is at least 10000 and was passed to a setTimeout call in the sequence, and no later setTimeout call was accepted. When there is none, every setTimeout call in the sequence passed a value below 10000 |
| SupervisorModel.RunTimeout | android-ffmpeg/src/main/java/nl/bravobit/ffmpeg/FFprobe.java:159-163 | after any sequence of operations, the timeout is the most recent setTimeout argument that was >= 10000, or the starting timeout if there was none |
| SupervisorModel.TimeoutInvariant | android-ffmpeg/src/main/java/nl/bravobit/ffmpeg/FFprobe.java:21-22 | in every state reachable from a new supervisor, the timeout is `Long.MAX_VALUE` or at least 10000 |
| SupervisorModel.StepKeepsInv | android-ffmpeg/src/main/java/nl/bravobit/ffmpeg/FFprobe.java:118-121 | every operation preserves the invariant: the timeout invariant holds, and a held task has a timeout meeting it and a command of at least two elements |
| SupervisorModel.RunKeepsInv | android-ffmpeg/src/main/java/nl/bravobit/ffmpeg/FFprobe.java:118-121 | every sequence of operations preserves that invariant |
| FFprobeSupervisor.CommandTask.constructor | android-ffmpeg/src/main/java/nl/bravobit/ffmpeg/FFprobe.java:121 | a new task holds the command and timeout it was built with and has not completed |
| FFprobeSupervisor.CommandTask.Complete | android-ffmpeg/src/main/java/nl/bravobit/ffmpeg/FFprobe.java:148 | the environment sets the completed flag that isCommandRunning reads. Nothing else changes |
| FFprobeSupervisor.CommandTask.SendQuitSignal | android-ffmpeg/src/main/java/nl/bravobit/ffmpeg/FFprobe.java:167 | the task records the quit request, and its command, timeout and completed flag are unchanged |
| FFprobeSupervisor.ArrayCopy | android-ffmpeg/src/main/java/nl/bravobit/ffmpeg/FFprobe.java:135-136 | the destination range receives the source range as it was before the copy. Every other destination element is kept |
| FFprobeSupervisor.Concatenate | android-ffmpeg/src/main/java/nl/bravobit/ffmpeg/FFprobe.java:129-139 | the result is a new array of length \|a\|+\|b\|. Its first \|a\| elements are a and the rest are b, in order |
| FFprobeSupervisor.FFprobe.constructor | android-ffmpeg/src/main/java/nl/bravobit/ffmpeg/FFprobe.java:19-29 | a new supervisor has an empty slot and the timeout `Long.MAX_VALUE`, and meets the supervisor invariant |
| FFprobeSupervisor.FFprobe.ExecuteWithEnvironment | android-ffmpeg/src/main/java/nl/bravobit/ffmpeg/FFprobe.java:114-127 | the new state is `SupervisorModel.Execute` of the old one, with the binary path for the given environment. On an error the slot object is unchanged. On success the returned task is new and is the one in the slot. The timeout is unchanged |
| FFprobeSupervisor.FFprobe.Execute | android-ffmpeg/src/main/java/nl/bravobit/ffmpeg/FFprobe.java:142-144 | the same effect and result as execute with no environment overlay |
| FFprobeSupervisor.FFprobe.IsCommandRunning | android-ffmpeg/src/main/java/nl/bravobit/ffmpeg/FFprobe.java:147-149 | true exactly when the slot holds a task that has not completed. It changes nothing |
| FFprobeSupervisor.FFprobe.IsReadyToProceed | android-ffmpeg/src/main/java/nl/bravobit/ffmpeg/FFprobe.java:172-178 | the readiness predicate is exactly the negation of isCommandRunning. It changes nothing |
| FFprobeSupervisor.FFprobe.KillRunningProcesses | android-ffmpeg/src/main/java/nl/bravobit/ffmpeg/FFprobe.java:152-156 | returns what the kill reported. The slot is empty afterwards in every case, so nothing is running. The timeout is unchanged |
| FFprobeSupervisor.FFprobe.SetTimeout | android-ffmpeg/src/main/java/nl/bravobit/ffmpeg/FFprobe.java:159-163 | t >= 10000 becomes the timeout and a smaller t is ignored. Only the timeout field may change, and its invariant is kept |
| FFprobeSupervisor.FFprobe.SendQuitSignal | android-ffmpeg/src/main/java/nl/bravobit/ffmpeg/FFprobe.java:166-168 | needs a task in the slot. The signal reaches that task, and the slot and the supervisor's state are unchanged |

## Left out

- `isSupported` is left out because it is platform I/O: CPU detection, preference bookkeeping, asset extraction, `chmod` and file permissions.
- The `getInstance` singleton and the Android context provider are left out. They are object-lifecycle glue; the constructor takes the path lookup instead.
- The path lookup for the binary is left out: it is foreign string construction from the context and the environment map. It is an opaque function parameter.
- The task's own behaviour is left out: spawning the process, streaming its output to the response handler, its timeout timer, and how it reacts to a quit signal. Only the completed flag and a record of the quit request are modelled.
- The task kill (`Util.killAsync`) is left out: whether it succeeds is a parameter, and its effect on the task object is not modelled.
- The polling of `Util.observeOnce` in `whenFFbinaryIsReady` is left out. Only the predicate it polls is modelled.
- Logging is output only and is left out.
- FFprobeSupervisor.FFprobe.ExecuteWithEnvironment: `cmd` is a non-null Dafny array of non-null strings, so a null `cmd` or null arguments cannot be passed. In the source a null `cmd` still gets the already-running exception while a task runs (FFprobe.java:115-116); otherwise it throws NullPointerException at `cmd.length` (FFprobe.java:118). Null elements are copied into the command unchecked. The model does not capture either.
- FFprobeSupervisor.FFprobe.Execute: the same restriction on `cmd` as for ExecuteWithEnvironment.
- Concurrency is left out: the source has no synchronisation, and each operation is modelled as one atomic sequential step.
- FFprobeSupervisor.CommandTask: keeps the command as a sequence copied from the freshly concatenated array. The array is handed only to the task's constructor (FFprobe.java:121), and nothing in FFprobe.java writes it afterwards. The task's internals are not modelled, so the model keeps an immutable copy.
