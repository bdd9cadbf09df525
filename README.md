# Batch file deletion with a cancellable asynchronous task — Dafny model

This project models the task engine of the Multi-Directory-File-Delete utility and its one
specialisation, the batch file-deletion task.

- `AsyncTaskBase.dfy` (module `AsyncTasks`) models `AsyncTaskBase` and `AsyncTaskBase<T>`.
  - `AsyncTaskBase` is a class. Its fields are the cancellation flag, the FIFO queue of
    auxiliary wait handles, the main wait handle and the set of handles the task has closed.
    A `history` field records every notification raised and every handle joined, oldest first.
  - The progress percentage `(done * 100) / total` is computed on C# `int`s. The multiply wraps
    (unchecked arithmetic) and the division truncates toward zero. `PercentOf` returns `None`
    in the two cases where that division throws: a zero total, and `int.MinValue / -1`.
  - `AsyncTaskWithResult<T>` is the typed layer: a `Result` (`None` is C#'s initial null) and
    the awaiting accessor that returns it.
- `DeleteFileTask.dfy` (module `DeleteFileTasks`) models `DeleteFileTask` and a minimal `TaskResult`.
  - `DoWork` is the imperative loop over `Files`: poll for cancellation, attempt the delete,
    record the failure, report progress.
  - Its outcome is specified by functions of two oracle sequences. `deleteOk[i]` is the
    outcome of `File.Delete` on file i. `hostCancels[i]` says the host called `Cancel` before
    the check for file i.
  - `Start` runs the protocol of `AsyncTaskBase.Start` to the end in one thread.
- `Wrappers.dfy` holds `Option`.

Dafny has no class inheritance without traits, so the C# hierarchy is modelled by composition.
A `DeleteFileTask` holds `task: AsyncTaskWithResult<TaskResult>`, which holds `base: AsyncTaskBase`.
Two pieces of `AsyncTaskBase.Start` are methods of the base:

- `BeginStart` records the worker's wait handle as `mainWait`.
- `FinishRun` is the worker's `finally` (drain the queue) followed by the completion callback.

`DeleteFileTask.Start` runs them around `DoWork`, as the base's `Start` does around the virtual call.

Wait handles and exceptions are opaque ids. "Blocking on a handle and closing it" is a
`Joined(handle)` entry in the history, so the history shows that completion comes after every join.
The queue's entries are `Option<WaitHandle>`, with `None` for a null reference. The task keeps the
set of handles it has closed. Waiting on a null entry throws `NullReferenceException`, and waiting on
a closed handle throws `ObjectDisposedException`; the model's `JoinFault` stands for both.
`Drain` specifies the drain loop, including where it stops:

- A handle queued twice is joined once. The second wait throws (`DrainRepeatedHandle`).
- That exception is thrown in the worker's `finally`, outside its `catch`, so it leaves the worker.
  `EndInvoke` rethrows it in the completion callback, and no completion is ever raised.
  `FinishRun` and `Start` return it as `escaped` and append no completion.
- `DrainJoinable`: the drain runs to the end exactly when the queue holds distinct, open, non-null handles.

With more than `MaxExactDone` = 21474836 files, `done * 100` overflows a C# `int`.
`PercentWrapsPastMaxExactDone` shows 21474837 of 21474837 files reporting -99 percent.
The range, monotonicity and "ends at 100" lemmas therefore require at most that many files.

The code does not guard against misuse, and neither does the model:

- A second `Start`, or an await before `Start`, is not rejected.
- `Start` has no precondition on the task's state. A second run sees the flag the first run left, and replaces `Result`.
- `AwaitTask` before `Start` does nothing.

## Model

| member | source | states |
|---|---|---|
| `AsyncTasks.AsyncTaskBase.constructor` | FileDeleteExample/FileDeleteExample/Tasks/AsyncTaskBase.cs:47-51 | a new task is not cancelled, has an empty queue, no main handle, no closed handles and an empty history |
| `AsyncTasks.AsyncTaskBase.IsCancelled` | FileDeleteExample/FileDeleteExample/Tasks/AsyncTaskBase.cs:73-80 | returns the current value of the cancellation flag |
| `AsyncTasks.AsyncTaskBase.Cancel` | FileDeleteExample/FileDeleteExample/Tasks/AsyncTaskBase.cs:137-141 | afterwards the flag is set and nothing else changed; on a cancelled task it changes nothing (idempotent) |
| `AsyncTasks.AsyncTaskBase.Enqueue` | FileDeleteExample/FileDeleteExample/Tasks/AsyncTaskBase.cs:147-151 | the handle, possibly null, is appended at the back of the wait queue; flag, main handle, closed handles and history are untouched |
| `AsyncTasks.AsyncTaskBase.AwaitWorkers` | FileDeleteExample/FileDeleteExample/Tasks/AsyncTaskBase.cs:170-181 | the queue, the closed handles and the history end as Drain of the old queue says: the joins front first, and the exception that stopped the drain, if any, is returned |
| `AsyncTasks.AsyncTaskBase.DrainQueue` | FileDeleteExample/FileDeleteExample/Tasks/AsyncTaskBase.cs:172-180 | the loop's outcome is exactly Drain of the queue and the closed handles: the rest still queued, the closed set, the joins appended in order, and the fault |
| `AsyncTasks.Drain` | FileDeleteExample/FileDeleteExample/Tasks/AsyncTaskBase.cs:172-180 | the drain never joins more entries than are queued |
| `AsyncTasks.DrainFacts` | FileDeleteExample/FileDeleteExample/Tasks/AsyncTaskBase.cs:172-180 | the joined handles are the queue's front entries in order; the drain stops only at a null entry or a handle already closed (before or during the drain), which is dequeued too; a drain with no fault empties the queue; the closed set grows by exactly the joined handles |
| `AsyncTasks.DrainJoinable` | FileDeleteExample/FileDeleteExample/Tasks/AsyncTaskBase.cs:172-180 | the drain raises no exception if and only if every entry is non-null, not closed, and no entry is queued twice |
| `AsyncTasks.DrainRepeatedHandle` | FileDeleteExample/FileDeleteExample/Tasks/AsyncTaskBase.cs:172-180 | with one handle queued twice, it is joined once and the second wait throws ObjectDisposedException |
| `AsyncTasks.DrainAdvance` | FileDeleteExample/FileDeleteExample/Tasks/AsyncTaskBase.cs:172-180 | one pass of the loop either ends the drain with the outcome Drain predicts or leaves one more handle joined and closed |
| `AsyncTasks.JoinsAppend` | FileDeleteExample/FileDeleteExample/Tasks/AsyncTaskBase.cs:147-181 | a handle enqueued behind a queue is joined after every handle already in it (FIFO) |
| `AsyncTasks.AsyncTaskBase.AwaitTask` | FileDeleteExample/FileDeleteExample/Tasks/AsyncTaskBase.cs:157-165 | a set, open main handle is joined, closed and cleared; a closed one makes the wait throw and leaves everything as it was; with no main handle (before Start, or a second call) nothing changes |
| `AsyncTasks.AsyncTaskWithResult.constructor` | FileDeleteExample/FileDeleteExample/Tasks/AsyncTaskBase.cs:251 | a new typed task has no Result (C#'s initial null) and a new, initial base |
| `AsyncTasks.AsyncTaskWithResult.AwaitTask` | FileDeleteExample/FileDeleteExample/Tasks/AsyncTaskBase.cs:258-262 | does the base await, then returns the current Result unchanged; when the wait throws, the exception is returned instead of a result |
| `AsyncTasks.Wrap32` | FileDeleteExample/FileDeleteExample/Tasks/AsyncTaskBase.cs:190 | unchecked int arithmetic: agrees with the mathematical value in range, otherwise differs from it by a multiple of 2^32 |
| `AsyncTasks.TruncDiv` | FileDeleteExample/FileDeleteExample/Tasks/AsyncTaskBase.cs:190 | C# int division: the magnitude of the quotient is the floor of the magnitudes' quotient, and a non-zero quotient is positive exactly when the operands have the same sign |
| `AsyncTasks.TruncDivRoundsTowardZero` | FileDeleteExample/FileDeleteExample/Tasks/AsyncTaskBase.cs:190 | C# int division: the quotient times the divisor lies between 0 and the dividend, less than one divisor away from it |
| `AsyncTasks.TruncDivInRange` | FileDeleteExample/FileDeleteExample/Tasks/AsyncTaskBase.cs:190 | an int divided by a non-zero int is an int again, except MinValue / -1 |
| `AsyncTasks.PercentOf` | FileDeleteExample/FileDeleteExample/Tasks/AsyncTaskBase.cs:188-190 | the division throws exactly for a zero total or MinValue / -1; for 0 <= done <= MaxExactDone and a positive total it is the floor of done*100/total |
| `AsyncTasks.PercentInRange` | FileDeleteExample/FileDeleteExample/Tasks/AsyncTaskBase.cs:188-190 | for 0 <= done <= total, total > 0 and no overflow, the percentage is in [0, 100] |
| `AsyncTasks.PercentMonotone` | FileDeleteExample/FileDeleteExample/Tasks/AsyncTaskBase.cs:188-190 | for done up to MaxExactDone and a positive total, the percentage never decreases as done grows |
| `AsyncTasks.PercentComplete` | FileDeleteExample/FileDeleteExample/Tasks/AsyncTaskBase.cs:188-190 | for done == total up to MaxExactDone, the percentage is exactly 100 |
| `AsyncTasks.PercentWrapsPastMaxExactDone` | FileDeleteExample/FileDeleteExample/Tasks/AsyncTaskBase.cs:190 | one file past the bound the wrapped product reports -99 percent for a finished batch |
| `AsyncTasks.ProgressEvent` | FileDeleteExample/FileDeleteExample/Tasks/AsyncTaskBase.cs:192 | a progress notification carrying PercentOf(done, total); for a positive total and done up to MaxExactDone it carries the floor of done*100/total, which lies in [0, 100] when done <= total |
| `AsyncTasks.AsyncTaskBase.OnTaskProgressChanged` | FileDeleteExample/FileDeleteExample/Tasks/AsyncTaskBase.cs:188-194 | callers must avoid the throwing division; one progress notification carrying PercentOf(done, total) is appended |
| `AsyncTasks.AsyncTaskBase.OnTaskProgressChangedPercent` | FileDeleteExample/FileDeleteExample/Tasks/AsyncTaskBase.cs:200-205 | one progress notification carrying the given percent unchanged is appended |
| `AsyncTasks.AsyncTaskBase.OnTaskProgressChangedArgs` | FileDeleteExample/FileDeleteExample/Tasks/AsyncTaskBase.cs:211-216 | one progress notification carrying the given payload is appended |
| `AsyncTasks.AsyncTaskBase.OnTaskCompleted` | FileDeleteExample/FileDeleteExample/Tasks/AsyncTaskBase.cs:223-228 | one completion notification carrying the exception and the flag (default false) is appended |
| `AsyncTasks.AsyncTaskBase.OnTaskCompletedArgs` | FileDeleteExample/FileDeleteExample/Tasks/AsyncTaskBase.cs:234-239 | one completion notification carrying the given payload is appended |
| `AsyncTasks.AsyncTaskBase.BeginStart` | FileDeleteExample/FileDeleteExample/Tasks/AsyncTaskBase.cs:114-125 | the worker's wait handle becomes the main wait handle; like every handle BeginInvoke returns, it is new, so neither closed nor queued |
| `AsyncTasks.AsyncTaskBase.FinishRun` | FileDeleteExample/FileDeleteExample/Tasks/AsyncTaskBase.cs:92-125 | whatever the worker threw (or nothing), the queue is drained front first; if the drain completes, exactly one completion carrying that exception and the flag as read after the drain follows; if the drain throws, that exception escapes and no completion is raised |
| `AsyncTasks.FaultedRunShape` | FileDeleteExample/FileDeleteExample/Tasks/AsyncTaskBase.cs:103-123 | a run whose drain threw holds no completion notification at all |
| `AsyncTasks.RunHistoryShape` | FileDeleteExample/FileDeleteExample/Tasks/AsyncTaskBase.cs:92-125 | a run's history is its progress, then the joins in queue order, then one completion, last |
| `DeleteFileTasks.TaskResult.constructor` | FileDeleteExample/FileDeleteExample/Tasks/DeleteFileTask.cs:31 | a new result has no files left |
| `DeleteFileTasks.TaskResult.Add` | FileDeleteExample/FileDeleteExample/Tasks/DeleteFileTask.cs:48 | the file is appended to FilesLeft |
| `DeleteFileTasks.DeleteFileTask.constructor` | FileDeleteExample/FileDeleteExample/Tasks/DeleteFileTask.cs:20-24 | Files equals the input sequence, in order; the task starts uncancelled with an empty queue, no main handle, no Result and an empty history |
| `DeleteFileTasks.FirstTrue` | FileDeleteExample/FileDeleteExample/Tasks/DeleteFileTask.cs:34-37 | the first position whose entry is true (or the length): all before it are false |
| `DeleteFileTasks.Attempted` | FileDeleteExample/FileDeleteExample/Tasks/DeleteFileTask.cs:34-37 | a run attempts every file unless it was cancelled before or the host cancelled at some position; it never attempts a file at or past a cancellation |
| `DeleteFileTasks.AttemptedNext` | FileDeleteExample/FileDeleteExample/Tasks/DeleteFileTask.cs:36-37 | the check before file i stops the run there exactly when the flag is set at that moment |
| `DeleteFileTasks.Failures` | FileDeleteExample/FileDeleteExample/Tasks/DeleteFileTask.cs:39-49 | the in-order list of files whose delete failed, never longer than the batch |
| `DeleteFileTasks.FailedPositions` | FileDeleteExample/FileDeleteExample/Tasks/DeleteFileTask.cs:39-49 | strictly increasing positions, exactly those whose delete failed |
| `DeleteFileTasks.FailuresStep` | FileDeleteExample/FileDeleteExample/Tasks/DeleteFileTask.cs:39-49 | one more attempt adds that file at the back exactly when its delete failed |
| `DeleteFileTasks.FailuresInOrder` | FileDeleteExample/FileDeleteExample/Tasks/DeleteFileTask.cs:34-49 | FilesLeft is the subsequence of the batch at the failed positions, in increasing position order |
| `DeleteFileTasks.FailuresMembership` | FileDeleteExample/FileDeleteExample/Tasks/DeleteFileTask.cs:34-49 | a path is left over if and only if some attempt at it failed, so every left-over path is in Files |
| `DeleteFileTasks.AllDeletedNothingLeft` | FileDeleteExample/FileDeleteExample/Tasks/DeleteFileTask.cs:39-49 | when every delete succeeds nothing is left over |
| `DeleteFileTasks.SingleFailure` | FileDeleteExample/FileDeleteExample/Tasks/DeleteFileTask.cs:39-49 | when only file f fails, FilesLeft is exactly [file f] |
| `DeleteFileTasks.FailuresPrefix` | FileDeleteExample/FileDeleteExample/Tasks/DeleteFileTask.cs:34-49 | a run stopped after k files leaves a prefix of what the uncancelled run would leave |
| `DeleteFileTasks.ProgressTrace` | FileDeleteExample/FileDeleteExample/Tasks/DeleteFileTask.cs:51 | k attempts give exactly k notifications, each a progress notification |
| `DeleteFileTasks.ProgressTraceStep` | FileDeleteExample/FileDeleteExample/Tasks/DeleteFileTask.cs:51 | each attempt appends the notification for (attempts so far, Files.Count) |
| `DeleteFileTasks.ProgressTraceAt` | FileDeleteExample/FileDeleteExample/Tasks/DeleteFileTask.cs:51 | k attempts give k notifications, the i-th for i + 1 files done out of the batch size |
| `DeleteFileTasks.ProgressTraceBounded` | FileDeleteExample/FileDeleteExample/Tasks/DeleteFileTask.cs:51 | for at most MaxExactDone files the percentages are in [0, 100] and non-decreasing, and a run that attempted every file ends at 100 |
| `DeleteFileTasks.DeleteFileTask.PollCancellation` | FileDeleteExample/FileDeleteExample/Tasks/DeleteFileTask.cs:36 | the flag read is the old flag or the host's cancel since the last check, and it stays set |
| `DeleteFileTasks.DeleteFileTask.DoWork` | FileDeleteExample/FileDeleteExample/Tasks/DeleteFileTask.cs:29-53 | never throws; Result is a fresh TaskResult; FilesLeft is Failures of the attempted prefix; the history gains ProgressTrace of the attempts (none for an empty batch, so no division by zero); the flag is set exactly when it was already set or the run stopped early |
| `DeleteFileTasks.DeleteFileTask.Start` | FileDeleteExample/FileDeleteExample/Tasks/AsyncTaskBase.cs:88-126 | mainWait is the worker handle; the queue and closed handles end as Drain says; the history gains the progress of the attempted files, the joins in FIFO order, and one completion with no error and the flag read last exactly when the drain did not throw |
| `DeleteFileTasks.RunHistory` | FileDeleteExample/FileDeleteExample/Tasks/AsyncTaskBase.cs:88-126 | what Start adds holds exactly one completion, last, if and only if the queue held distinct, open, non-null handles, and no completion otherwise |
| `DeleteFileTasks.RunHistoryOrder` | FileDeleteExample/FileDeleteExample/Tasks/AsyncTaskBase.cs:88-126 | within what Start adds, the i-th notification reports i + 1 files done, and the joins that follow are the queue's handles in FIFO order |

## Left out

- Threads, the thread pool, `BeginInvoke`/`EndInvoke` and the `lock (sync)` blocks are not modelled. A run executes to the end inside `Start`. The host's concurrent `Cancel` calls are the `hostCancels` and `lateCancel` parameters.
- The unlocked read of `waitQueue.Count` in `AwaitWorkers` is a race and is not modelled. So is the chance that `AwaitTask` returns before the completion callback runs.
- `WaitHandle.WaitOne` and `Close` do not block here. Each pair is a `Joined` entry in the history.
- AsyncTasks.AsyncTaskBase.AwaitTask: its throwing branch (a main handle that is already closed) cannot be reached from `Start`, whose handle is new; it is kept for a caller that drives the class directly.
- Only handles that this task closed count as closed. A handle closed by other code is not tracked, and waiting on it would throw in the source.
- AsyncTasks.AsyncTaskBase.AwaitWorkers: the loop (`DrainQueue`) dequeues from a copy of the queue and writes the queue, the closed handles and the history back once it ends. No other thread runs in the model, so the intermediate states are not observable.
- An exception that escapes the completion callback (the `escaped` result of `FinishRun` and `Start`) goes to the thread pool in the source. What the runtime then does with it is not modelled.
- `File.Delete` is a foreign call. Whether it throws is the oracle `deleteOk`, and no filesystem condition is hard-coded.
- `Thread.Sleep`, `Console.WriteLine` and the DEBUG stopwatch are left out: they have no effect on the modelled state.
- Subscribers are not modelled. Each notification is recorded as raised, as if a listener were attached. The source's null check for "no listener" is therefore not modelled.
- The user state of the event arguments is null in the payloads the task builds itself (AsyncTaskBase.cs:192, 203, 226). The user state of caller-supplied payloads (AsyncTaskBase.cs:211-216, 234-239) is not modelled.
- An exception thrown by a subscriber inside `DoWork` is not modelled. `DeleteFileTask.DoWork` is proved never to throw, so the faulted path is shown only by `FinishRun`, for an arbitrary exception.
- `DeleteFileTask.DoWork` and `DeleteFileTask.Start` require at most `Int32Max` files. That is the `int` count of a C# `List`.
- AsyncTasks.AsyncTaskBase.OnTaskProgressChanged: requires a division that does not throw, so the `DivideByZeroException` of a zero total (and the overflow of `MinValue / -1`) is not modelled as a path of this method. `PercentOf` returns `None` in exactly those cases. The only caller, DeleteFileTask.cs:51, passes `Files.Count` inside the loop over `Files`, so it always passes a total of at least 1.
- ProgressTraceBounded: states its bounds only for batches of at most MaxExactDone files, because beyond that the C# multiply wraps (see PercentWrapsPastMaxExactDone).
- The body of `TaskResult` is not part of this model. It is reduced to `FilesLeft` and `Add`.
- The GUI form, the test-file generator and process start-up are not part of this model.
