/**
  The batch file-deletion task: it deletes its files in order, polls for
  cancellation before each one, records every file whose delete failed,
  and reports progress after every attempt.

  The outcome of each File.Delete call and the moments at which the host
  calls Cancel are not visible to the task; they are oracle sequences
  indexed by file position.
*/
module DeleteFileTasks {
  import opened Wrappers
  import opened AsyncTasks

  type Path = string

  /** The outcome of one run: the files that could not be deleted, in order. */
  class TaskResult {
    var FilesLeft: seq<Path>

    constructor ()
      ensures FilesLeft == []
    {
      FilesLeft := [];
    }

    /** Appends a file that could not be deleted. */
    method Add(file: Path)
      modifies this
      ensures FilesLeft == old(FilesLeft) + [file]
    {
      FilesLeft := FilesLeft + [file];
    }
  }

  // ---------------------------------------------------------------------
  // What a run does, as functions of the oracles
  // ---------------------------------------------------------------------

  /** The position of the first `true` in `s`, or |s| when there is none. */
  function FirstTrue(s: seq<bool>): (r: nat)
    ensures r <= |s|
    ensures forall j :: 0 <= j < r ==> !s[j]
    ensures r < |s| ==> s[r]
  {
    if s == [] then 0
    else if s[0] then 0
    else 1 + FirstTrue(s[1..])
  }

  /**
    How many files a run attempts. `hostCancels[i]` says that the host calls
    Cancel just before the check that precedes file i; a task cancelled
    before the run attempts nothing.
  */
  function Attempted(cancelledBefore: bool, hostCancels: seq<bool>): (k: nat)
    ensures k <= |hostCancels|
    ensures k < |hostCancels| <==> |hostCancels| > 0 && (cancelledBefore || exists j :: 0 <= j < |hostCancels| && hostCancels[j])
    ensures forall j :: 0 <= j < |hostCancels| && hostCancels[j] ==> k <= j
  {
    if cancelledBefore then 0 else FirstTrue(hostCancels)
  }

  /** The files whose delete failed, in the order they were attempted. */
  function Failures(files: seq<Path>, deleteOk: seq<bool>): (left: seq<Path>)
    requires |files| == |deleteOk|
    ensures |left| <= |files|
  {
    if files == [] then []
    else
      var n := |files| - 1;
      Failures(files[..n], deleteOk[..n]) + (if deleteOk[n] then [] else [files[n]])
  }

  /** The positions whose delete failed, in increasing order. */
  function FailedPositions(deleteOk: seq<bool>): (ps: seq<nat>)
    ensures forall j :: 0 <= j < |ps| ==> ps[j] < |deleteOk| && !deleteOk[ps[j]]
    ensures forall i, j :: 0 <= i < j < |ps| ==> ps[i] < ps[j]
    ensures forall p :: 0 <= p < |deleteOk| && !deleteOk[p] ==> p in ps
  {
    if deleteOk == [] then []
    else
      var n := |deleteOk| - 1;
      FailedPositions(deleteOk[..n]) + (if deleteOk[n] then [] else [n])
  }

  /** The progress notifications of the first k attempts out of `total` files. */
  function ProgressTrace(k: nat, total: int32): (t: seq<Event>)
    requires k <= total
    ensures |t| == k
    ensures forall i :: 0 <= i < k ==> t[i].ProgressChanged?
  {
    if k == 0 then []
    else ProgressTrace(k - 1, total) + [ProgressEvent(k as int32, total)]
  }

  /** The check before file i stops the run exactly when the flag is then set. */
  lemma AttemptedNext(cancelledBefore: bool, hostCancels: seq<bool>, i: nat)
    requires i < |hostCancels| && i <= Attempted(cancelledBefore, hostCancels)
    ensures cancelledBefore || hostCancels[i] ==> Attempted(cancelledBefore, hostCancels) == i
    ensures !(cancelledBefore || hostCancels[i]) ==> i < Attempted(cancelledBefore, hostCancels)
  {
  }

  /** One more attempt extends the record of failures by that file at most. */
  lemma FailuresStep(files: seq<Path>, deleteOk: seq<bool>, i: nat)
    requires |files| == |deleteOk| && i < |files|
    ensures Failures(files[..i + 1], deleteOk[..i + 1])
         == Failures(files[..i], deleteOk[..i]) + (if deleteOk[i] then [] else [files[i]])
  {
    assert files[..i + 1][..i] == files[..i] && deleteOk[..i + 1][..i] == deleteOk[..i];
  }

  /** One more attempt appends its progress notification to the history. */
  lemma ProgressTraceStep(before: seq<Event>, i: nat, total: int32)
    requires i < total
    ensures before + ProgressTrace(i, total) + [ProgressEvent((i + 1) as int32, total)]
         == before + ProgressTrace(i + 1, total)
  {
  }

  // ---------------------------------------------------------------------
  // The task
  // ---------------------------------------------------------------------

  class DeleteFileTask {
    /** The inherited engine and typed result, by composition. */
    const task: AsyncTaskWithResult<TaskResult>
    var Files: seq<Path>

    /** Copies `items` into Files, in order. */
    constructor (items: seq<Path>)
      ensures Files == items
      ensures fresh(task) && fresh(task.base) && task.Result == None
      ensures !task.base.cancelled && task.base.waitQueue == [] && task.base.mainWait == None
      ensures task.base.closed == {} && task.base.history == []
    {
      task := new AsyncTaskWithResult<TaskResult>();
      Files := items;
    }

    /**
      The cancellation check before one file: the host may have called
      Cancel since the previous check (`hostCancel`), then IsCancelled is read.
    */
    method PollCancellation(hostCancel: bool) returns (c: bool)
      modifies task.base`cancelled
      ensures c == task.base.cancelled == (old(task.base.cancelled) || hostCancel)
    {
      if hostCancel {
        task.base.Cancel();
      }
      c := task.base.IsCancelled();
    }

    /**
      The worker body. It starts a fresh result, then for each file in order:
      stops if cancelled, attempts the delete (`deleteOk`), records a failure,
      and reports progress (done, |Files|). It never throws.
    */
    method DoWork(deleteOk: seq<bool>, hostCancels: seq<bool>) returns (fault: Option<TaskException>)
      requires |Files| <= Int32Max
      requires |deleteOk| == |Files| && |hostCancels| == |Files|
      modifies task`Result, task.base`cancelled, task.base`history
      ensures fault == None
      ensures task.Result.Some? && fresh(task.Result.value)
      ensures var k := Attempted(old(task.base.cancelled), hostCancels);
        && task.Result.value.FilesLeft == Failures(Files[..k], deleteOk[..k])
        && task.base.history == old(task.base.history) + ProgressTrace(k, |Files|)
        && task.base.cancelled == (old(task.base.cancelled) || k < |Files|)
    {
      var core, files := task.base, Files;
      ghost var cancelledBefore, historyBefore := core.cancelled, core.history;
      var result := new TaskResult();
      task.Result := Some(result);
      var progress: int32 := 0;
      var total: int32 := |files|;
      for i := 0 to |files|
        invariant task.Result == Some(result)
        invariant progress == i
        invariant result.FilesLeft == Failures(files[..i], deleteOk[..i])
        invariant core.history == historyBefore + ProgressTrace(i, total)
        invariant core.cancelled == cancelledBefore
        invariant i <= Attempted(cancelledBefore, hostCancels)
      {
        var c := PollCancellation(hostCancels[i]);
        AttemptedNext(cancelledBefore, hostCancels, i);
        if c {
          return None;
        }
        var file := files[i];
        if !deleteOk[i] {
          result.Add(file);
        }
        FailuresStep(files, deleteOk, i);
        progress := progress + 1;
        core.OnTaskProgressChanged(progress, total);
        ProgressTraceStep(historyBefore, i, total);
      }
      assert files[..|files|] == files && deleteOk[..|files|] == deleteOk;
      fault := None;
    }

    /**
      Start, run to the end in one thread: the main wait handle is recorded,
      the worker body runs, the host may call Cancel once more (`lateCancel`),
      then the queue is drained and completion reports the flag as it is then.
      When the drain throws, that exception escapes and no completion is raised.
    */
    method Start(workerHandle: WaitHandle, deleteOk: seq<bool>, hostCancels: seq<bool>, lateCancel: bool)
      returns (escaped: Option<JoinFault>)
      requires workerHandle !in task.base.closed && Some(workerHandle) !in task.base.waitQueue
      requires |Files| <= Int32Max
      requires |deleteOk| == |Files| && |hostCancels| == |Files|
      modifies task`Result, task.base`cancelled, task.base`history, task.base`waitQueue
      modifies task.base`mainWait, task.base`closed
      ensures task.base.mainWait == Some(workerHandle)
      ensures task.Result.Some? && fresh(task.Result.value)
      ensures var k := Attempted(old(task.base.cancelled), hostCancels);
        var wasCancelled := old(task.base.cancelled) || k < |Files| || lateCancel;
        var d := Drain(old(task.base.waitQueue), old(task.base.closed));
        && task.Result.value.FilesLeft == Failures(Files[..k], deleteOk[..k])
        && task.base.cancelled == wasCancelled
        && escaped == d.fault && task.base.waitQueue == d.rest && task.base.closed == d.closed
        && task.base.history == old(task.base.history) + ProgressTrace(k, |Files|) + Joins(d.joined)
             + (if d.fault.None? then [TaskCompleted(CompletedArgs(None, wasCancelled))] else [])
    {
      task.base.BeginStart(workerHandle);
      var taskException := DoWork(deleteOk, hostCancels);
      if lateCancel {
        task.base.Cancel();
      }
      escaped := task.base.FinishRun(taskException);
    }
  }

  // ---------------------------------------------------------------------
  // Properties of a run
  // ---------------------------------------------------------------------

  /** FilesLeft lists exactly the failed positions' files, in increasing position order. */
  lemma {:induction false} FailuresInOrder(files: seq<Path>, deleteOk: seq<bool>)
    requires |files| == |deleteOk|
    ensures var left, ps := Failures(files, deleteOk), FailedPositions(deleteOk);
      |left| == |ps| && forall j :: 0 <= j < |ps| ==> left[j] == files[ps[j]]
  {
    if files != [] {
      var n := |files| - 1;
      FailuresInOrder(files[..n], deleteOk[..n]);
      var left', ps' := Failures(files[..n], deleteOk[..n]), FailedPositions(deleteOk[..n]);
      var left, ps := Failures(files, deleteOk), FailedPositions(deleteOk);
      var tail, tailPs := if deleteOk[n] then [] else [files[n]], if deleteOk[n] then [] else [n];
      assert left == left' + tail && ps == ps' + tailPs;
      forall j | 0 <= j < |ps|
        ensures left[j] == files[ps[j]]
      {
        if j < |ps'| {
          assert left[j] == left'[j] && ps[j] == ps'[j];
          assert ps'[j] < n;
        }
      }
    }
  }

  /** A file is left over exactly when some attempt at it failed. */
  lemma FailuresMembership(files: seq<Path>, deleteOk: seq<bool>, x: Path)
    requires |files| == |deleteOk|
    ensures x in Failures(files, deleteOk) <==> exists i :: 0 <= i < |files| && files[i] == x && !deleteOk[i]
  {
    var left, ps := Failures(files, deleteOk), FailedPositions(deleteOk);
    FailuresInOrder(files, deleteOk);
    if x in left {
      var j :| 0 <= j < |left| && left[j] == x;
      assert files[ps[j]] == x && !deleteOk[ps[j]];
    }
    if exists i :: 0 <= i < |files| && files[i] == x && !deleteOk[i] {
      var i :| 0 <= i < |files| && files[i] == x && !deleteOk[i];
      var j :| 0 <= j < |ps| && ps[j] == i;
      assert left[j] == x;
    }
  }

  /** When every delete succeeds nothing is left over. */
  lemma {:induction false} AllDeletedNothingLeft(files: seq<Path>, deleteOk: seq<bool>)
    requires |files| == |deleteOk|
    requires forall i :: 0 <= i < |deleteOk| ==> deleteOk[i]
    ensures Failures(files, deleteOk) == []
  {
    if files != [] {
      var n := |files| - 1;
      AllDeletedNothingLeft(files[..n], deleteOk[..n]);
    }
  }

  /** A run stopped after k files leaves a prefix of what a full run would leave. */
  lemma {:induction false} FailuresPrefix(files: seq<Path>, deleteOk: seq<bool>, k: nat)
    requires |files| == |deleteOk| && k <= |files|
    ensures Failures(files[..k], deleteOk[..k]) <= Failures(files, deleteOk)
  {
    if k < |files| {
      var n := |files| - 1;
      FailuresPrefix(files[..n], deleteOk[..n], k);
      assert files[..n][..k] == files[..k] && deleteOk[..n][..k] == deleteOk[..k];
    } else {
      assert files[..k] == files && deleteOk[..k] == deleteOk;
    }
  }

  /** A single failing file among successes is the whole of FilesLeft. */
  lemma {:induction false} SingleFailure(files: seq<Path>, deleteOk: seq<bool>, f: nat)
    requires |files| == |deleteOk| && f < |files|
    requires forall i :: 0 <= i < |deleteOk| ==> (deleteOk[i] <==> i != f)
    ensures Failures(files, deleteOk) == [files[f]]
  {
    var n := |files| - 1;
    if f < n {
      SingleFailure(files[..n], deleteOk[..n], f);
    } else {
      AllDeletedNothingLeft(files[..n], deleteOk[..n]);
    }
  }

  /** The i-th progress notification of a run reports i + 1 files done out of `total`. */
  lemma {:induction false} ProgressTraceAt(k: nat, total: int32)
    requires k <= total
    ensures |ProgressTrace(k, total)| == k
    ensures forall i :: 0 <= i < k ==> ProgressTrace(k, total)[i] == ProgressEvent((i + 1) as int32, total)
  {
    if k > 0 {
      ProgressTraceAt(k - 1, total);
    }
  }

  /**
    For up to MaxExactDone files, every reported percentage is in [0, 100],
    the percentages never decrease, and a run that attempted every file ends
    with 100.
  */
  lemma ProgressTraceBounded(k: nat, total: int32)
    requires k <= total <= MaxExactDone
    ensures var t := ProgressTrace(k, total);
      && (forall i :: 0 <= i < |t| ==> t[i].ProgressChanged? && 0 <= t[i].progress.percentage <= 100)
      && (forall i, j :: 0 <= i <= j < |t| ==> t[i].progress.percentage <= t[j].progress.percentage)
      && (k == total > 0 ==> t[|t| - 1] == ProgressChanged(ProgressChangedArgs(100)))
  {
    var t := ProgressTrace(k, total);
    ProgressTraceAt(k, total);
    forall i | 0 <= i < |t|
      ensures t[i].ProgressChanged? && 0 <= t[i].progress.percentage <= 100
    {
      PercentInRange((i + 1) as int32, total);
    }
    forall i, j | 0 <= i <= j < |t|
      ensures t[i].progress.percentage <= t[j].progress.percentage
    {
      PercentMonotone((i + 1) as int32, (j + 1) as int32, total);
    }
    if k == total > 0 {
      PercentComplete(total);
    }
  }

  /**
    The history a run adds: its progress notifications, the joins of the
    drain, then the completion. Exactly one completion is raised, last, when
    the queue held distinct, open, non-null handles, and none at all otherwise.
  */
  lemma RunHistory(k: nat, total: int32, queue: seq<Option<WaitHandle>>, closed: set<WaitHandle>, c: CompletedArgs)
    requires k <= total
    ensures var d := Drain(queue, closed);
      var run := ProgressTrace(k, total) + Joins(d.joined) + (if d.fault.None? then [TaskCompleted(c)] else []);
      && (Joinable(queue, closed) ==> |run| == k + |queue| + 1 && run[|run| - 1] == TaskCompleted(c))
      && (CompletionCount(run) == 1 <==> Joinable(queue, closed))
      && (!Joinable(queue, closed) ==> CompletionCount(run) == 0)
  {
    DrainJoinable(queue, closed);
    DrainFacts(queue, closed);
    var t, d := ProgressTrace(k, total), Drain(queue, closed);
    var prefix := t + Joins(d.joined);
    if d.fault.None? {
      RunHistoryShape(t, d.joined, c);
    } else {
      FaultedRunShape(t, d.joined);
      assert prefix + [] == prefix;
    }
  }

  /**
    Within a run, the i-th notification reports i + 1 files done, and the
    joins that follow are the queue's handles in FIFO order.
  */
  lemma RunHistoryOrder(k: nat, total: int32, queue: seq<Option<WaitHandle>>, closed: set<WaitHandle>)
    requires k <= total
    ensures var d := Drain(queue, closed);
      var prefix := ProgressTrace(k, total) + Joins(d.joined);
      && |prefix| == k + |d.joined|
      && (forall i :: 0 <= i < k ==> prefix[i] == ProgressEvent((i + 1) as int32, total))
      && (forall i :: 0 <= i < |d.joined| ==> prefix[k + i] == Joined(d.joined[i]) && queue[i] == Some(d.joined[i]))
  {
    ProgressTraceAt(k, total);
    DrainFacts(queue, closed);
  }
}
