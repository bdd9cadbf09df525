/**
  The reusable task engine of the file-deletion utility: a cancellation flag,
  a FIFO queue of auxiliary wait handles joined before completion, progress
  and completion notifications, and the run protocol of Start.

  Threads are abstracted away. Wait handles and exceptions are opaque ids;
  blocking on and closing a handle is recorded as a Joined entry in the
  task's history, and every notification raised is recorded there too, so
  the history is the observable order of everything the task does. The
  task remembers which handles it has closed: waiting on one of those, or
  on a null handle, throws.
*/
module AsyncTasks {
  import opened Wrappers

  // ---------------------------------------------------------------------
  // C# 32-bit integer arithmetic
  // ---------------------------------------------------------------------

  const Int32Min: int := -0x8000_0000
  const Int32Max: int := 0x7FFF_FFFF
  const TwoTo32: int := 0x1_0000_0000

  /** The values of a C# `int`. */
  type int32 = x: int | Int32Min <= x <= Int32Max

  /** The largest `done` for which `done * 100` does not wrap around. */
  const MaxExactDone: int := Int32Max / 100

  function Abs(x: int): nat
  {
    if x < 0 then -x else x
  }

  /** The result of unchecked C# `int` arithmetic: the mathematical value reduced modulo 2^32 into the signed range. */
  function Wrap32(x: int): (r: int32)
    ensures Int32Min <= x <= Int32Max ==> r == x
    ensures (x - r) % TwoTo32 == 0
  {
    var m := x % TwoTo32;
    if m <= Int32Max then m else m - TwoTo32
  }

  lemma MulNonneg(x: int, y: int)
    requires x >= 0 && y >= 0
    ensures x * y >= 0
  {
  }

  /** Euclidean division facts for a non-negative dividend and a positive divisor. */
  lemma DivFacts(x: int, y: int)
    requires x >= 0 && y > 0
    ensures 0 <= x / y <= x
    ensures 0 <= x / y * y <= x < x / y * y + y
    ensures y >= 2 && x >= 1 ==> x / y < x
  {
    var q := x / y;
    assert x == y * q + x % y;
    MulNonneg(y - 1, q);
    assert y * q == (y - 1) * q + q;
    if y >= 2 {
      MulNonneg(y - 2, q);
      assert y * q == (y - 2) * q + 2 * q;
    }
  }

  /** C# integer division, which truncates toward zero (Dafny's `/` is Euclidean). */
  function TruncDiv(a: int, b: int): (q: int)
    requires b != 0
    ensures Abs(q) == Abs(a) / Abs(b)
    ensures q != 0 ==> (q > 0 <==> (a > 0) == (b > 0))
  {
    DivFacts(Abs(a), Abs(b));
    if a >= 0 && b > 0 then a / b
    else if a < 0 && b < 0 then -a / -b
    else if a < 0 then -(-a / b)
    else -(a / -b)
  }

  /** TruncDiv is truncating division: the product with the divisor lies between 0 and the dividend, less than one divisor away from it. */
  lemma TruncDivRoundsTowardZero(a: int, b: int)
    requires b != 0
    ensures a >= 0 ==> 0 <= TruncDiv(a, b) * b <= a
    ensures a <= 0 ==> a <= TruncDiv(a, b) * b <= 0
    ensures Abs(a - TruncDiv(a, b) * b) < Abs(b)
  {
    DivFacts(Abs(a), Abs(b));
  }

  /** The quotient of two C# ints is an int again, except for MinValue / -1. */
  lemma TruncDivInRange(a: int32, b: int32)
    requires b != 0 && !(a == Int32Min && b == -1)
    ensures Int32Min <= TruncDiv(a, b) <= Int32Max
  {
    DivFacts(Abs(a), Abs(b));
  }

  /**
    The percentage that OnTaskProgressChanged(done, total) computes as
    `(done * 100) / total` on C# ints; None where the division throws
    (a zero total, or the one overflowing quotient).
  */
  function PercentOf(done: int32, total: int32): (r: Option<int32>)
    ensures r.None? <==> total == 0 || (Wrap32(done * 100) == Int32Min && total == -1)
    ensures 0 <= done <= MaxExactDone && 0 < total ==> r == Some(done * 100 / total)
  {
    var product := Wrap32(done * 100);
    if total == 0 || (product == Int32Min && total == -1) then None
    else
      TruncDivInRange(product, total);
      Some(TruncDiv(product, total))
  }

  /** With 0 <= done <= total, the percentage lies in [0, 100]. */
  lemma PercentInRange(done: int32, total: int32)
    requires 0 < total && 0 <= done <= total && done <= MaxExactDone
    ensures PercentOf(done, total).Some?
    ensures 0 <= PercentOf(done, total).value <= 100
  {
    DivFacts(done * 100, total);
    DivMonotone(done * 100, total * 100, total);
    MulDivCancel(100, total);
  }

  /** The percentage never decreases as `done` grows. */
  lemma PercentMonotone(done1: int32, done2: int32, total: int32)
    requires 0 < total && 0 <= done1 <= done2 <= MaxExactDone
    ensures PercentOf(done1, total).Some? && PercentOf(done2, total).Some?
    ensures PercentOf(done1, total).value <= PercentOf(done2, total).value
  {
    DivMonotone(done1 * 100, done2 * 100, total);
  }

  /** All the work done is 100 percent. */
  lemma PercentComplete(total: int32)
    requires 0 < total <= MaxExactDone
    ensures PercentOf(total, total) == Some(100)
  {
    MulDivCancel(100, total);
  }

  /** Past MaxExactDone the product wraps: 21474837 of 21474837 reports -99 percent. */
  lemma PercentWrapsPastMaxExactDone()
    ensures PercentOf(MaxExactDone + 1, MaxExactDone + 1) == Some(-99)
  {
    assert Wrap32(2147483700) == -2147483596;
    assert Abs(-2147483596) / Abs(21474837) == 99;
  }

  lemma MulBelowOne(d: int, x: int)
    requires d > 0 && d * x < d
    ensures x < 1
  {
  }

  lemma MulNonnegFactor(d: int, y: int)
    requires d > 0 && d * y >= 0
    ensures y >= 0
  {
  }

  lemma MulDivCancel(x: int, d: int)
    requires d > 0
    ensures d * x / d == x
  {
    var q := d * x / d;
    assert d * x == d * q + d * x % d;
    assert d * (x - q) == d * x % d;
    MulBelowOne(d, x - q);
    MulNonnegFactor(d, x - q);
  }

  lemma DivMonotone(a: int, b: int, d: int)
    requires 0 <= a <= b && 0 < d
    ensures a / d <= b / d
  {
    var qa, qb := a / d, b / d;
    assert d * qa <= a;
    assert b < d * qb + d;
    assert d * (qa - qb) < d;
    MulBelowOne(d, qa - qb);
  }

  // ---------------------------------------------------------------------
  // Handles, exceptions and notifications
  // ---------------------------------------------------------------------

  /** An opaque WaitHandle. */
  datatype WaitHandle = WaitHandle(id: nat)

  /** An opaque exception object. */
  datatype TaskException = TaskException(id: nat)

  /** What WaitOne throws: NullReferenceException on a null handle, ObjectDisposedException on a closed one. */
  datatype JoinFault = NullHandle | DisposedHandle(handle: WaitHandle)

  /** The payload of a TaskProgressChanged notification (its user state is not modelled). */
  datatype ProgressChangedArgs = ProgressChangedArgs(percentage: int32)

  /** The payload of a TaskCompleted notification: the captured exception (None for null) and the cancelled flag. */
  datatype CompletedArgs = CompletedArgs(error: Option<TaskException>, cancelled: bool)

  /** One observable step of a task. */
  datatype Event =
    | ProgressChanged(progress: ProgressChangedArgs)
    | TaskCompleted(completion: CompletedArgs)
    | Joined(handle: WaitHandle)   // WaitOne returned on the handle and it was closed

  /** The progress notification raised for `done` items out of `total`. */
  function ProgressEvent(done: int32, total: int32): (e: Event)
    requires PercentOf(done, total).Some?
    ensures e.ProgressChanged? && PercentOf(done, total) == Some(e.progress.percentage)
    ensures 0 <= done <= MaxExactDone && 0 < total ==> e.progress.percentage == done * 100 / total
    ensures 0 <= done <= total && done <= MaxExactDone ==> 0 <= e.progress.percentage <= 100
  {
    var percent := PercentOf(done, total).value;
    if 0 <= done <= total && done <= MaxExactDone then
      PercentInRange(done, total);
      ProgressChanged(ProgressChangedArgs(percent))
    else
      ProgressChanged(ProgressChangedArgs(percent))
  }

  /** The history entries of joining the handles of `queue`, front first. */
  function Joins(queue: seq<WaitHandle>): (r: seq<Event>)
    ensures |r| == |queue|
    ensures forall i :: 0 <= i < |queue| ==> r[i] == Joined(queue[i])
  {
    if queue == [] then [] else [Joined(queue[0])] + Joins(queue[1..])
  }

  /** A handle enqueued behind `queue` is joined after all of it. */
  lemma JoinsAppend(queue: seq<WaitHandle>, h: WaitHandle)
    ensures Joins(queue + [h]) == Joins(queue) + [Joined(h)]
  {
    assert Joins(queue + [h])[|queue|] == Joined((queue + [h])[|queue|]);
  }

  /**
    What draining a wait queue does, given the handles already closed: the
    handles joined (and closed) front first, the exception that stopped the
    drain if any, the entries still queued, and the closed handles afterwards.
  */
  datatype DrainOutcome = DrainOutcome(
    joined: seq<WaitHandle>, fault: Option<JoinFault>, rest: seq<Option<WaitHandle>>, closed: set<WaitHandle>)

  /**
    AwaitWorkers' loop as a function: each entry is dequeued, then waited on
    and closed; a null entry or one already closed throws, leaving the
    entries behind it queued.
  */
  function Drain(queue: seq<Option<WaitHandle>>, closed: set<WaitHandle>): (d: DrainOutcome)
    ensures |d.joined| <= |queue|
  {
    if queue == [] then DrainOutcome([], None, [], closed)
    else match queue[0]
      case None => DrainOutcome([], Some(NullHandle), queue[1..], closed)
      case Some(h) =>
        if h in closed then DrainOutcome([], Some(DisposedHandle(h)), queue[1..], closed)
        else
          var d := Drain(queue[1..], closed + {h});
          DrainOutcome([h] + d.joined, d.fault, d.rest, d.closed)
  }

  /**
    The drain joins a prefix of the queue. It stops only at a null entry or
    at a handle closed before or during the drain, and that entry is
    dequeued too; the handles it joined are closed afterwards.
  */
  lemma {:induction false} DrainFacts(queue: seq<Option<WaitHandle>>, closed: set<WaitHandle>)
    ensures var d := Drain(queue, closed);
      && (forall i :: 0 <= i < |d.joined| ==> queue[i] == Some(d.joined[i]))
      && (d.fault.None? ==> |d.joined| == |queue| && d.rest == [])
      && (d.fault.Some? ==> |d.joined| < |queue| && d.rest == queue[|d.joined| + 1..])
      && (d.fault.Some? ==> (d.fault.value == NullHandle <==> queue[|d.joined|] == None))
      && (d.fault.Some? && queue[|d.joined|].Some? ==>
           var h := queue[|d.joined|].value;
           d.fault.value == DisposedHandle(h) && (h in closed || h in d.joined))
      && (forall h :: h in d.closed <==> h in closed || h in d.joined)
  {
    if queue != [] && queue[0].Some? && queue[0].value !in closed {
      var h, tail := queue[0].value, queue[1..];
      DrainFacts(tail, closed + {h});
      var d, d' := Drain(queue, closed), Drain(tail, closed + {h});
      assert d.joined == [h] + d'.joined;
      forall i | 0 <= i < |d.joined|
        ensures queue[i] == Some(d.joined[i])
      {
        if i > 0 {
          assert d.joined[i] == d'.joined[i - 1];
        }
      }
      if d.fault.Some? {
        assert queue[|d.joined|] == tail[|d'.joined|];
        assert queue[|d.joined| + 1..] == tail[|d'.joined| + 1..];
      }
    }
  }

  /** Every entry is a handle, none of them closed, no two the same. */
  predicate Joinable(queue: seq<Option<WaitHandle>>, closed: set<WaitHandle>)
  {
    && (forall i :: 0 <= i < |queue| ==> queue[i].Some? && queue[i].value !in closed)
    && (forall i, j :: 0 <= i < j < |queue| ==> queue[i] != queue[j])
  }

  /** The drain runs to the end exactly when the queue holds distinct, open, non-null handles. */
  lemma {:induction false} DrainJoinable(queue: seq<Option<WaitHandle>>, closed: set<WaitHandle>)
    ensures Drain(queue, closed).fault.None? <==> Joinable(queue, closed)
  {
    if queue != [] && queue[0].Some? && queue[0].value !in closed {
      var h, tail := queue[0].value, queue[1..];
      DrainJoinable(tail, closed + {h});
      if Joinable(queue, closed) {
        forall i | 0 <= i < |tail|
          ensures tail[i].Some? && tail[i].value !in closed + {h}
        {
          assert queue[0] != queue[i + 1];
        }
        forall i, j | 0 <= i < j < |tail|
          ensures tail[i] != tail[j]
        {
          assert queue[i + 1] != queue[j + 1];
        }
      }
      if Joinable(tail, closed + {h}) {
        forall i, j | 0 <= i < j < |queue|
          ensures queue[i] != queue[j]
        {
          if i > 0 {
            assert tail[i - 1] != tail[j - 1];
          } else {
            assert tail[j - 1].value != h;
          }
        }
      }
    }
  }

  /** A handle queued twice is joined once; waiting on it again throws ObjectDisposedException. */
  lemma DrainRepeatedHandle(h: WaitHandle)
    ensures Drain([Some(h), Some(h)], {}) == DrainOutcome([h], Some(DisposedHandle(h)), [], {h})
  {
    assert [Some(h), Some(h)][1..] == [Some(h)];
  }

  /** The number of completion notifications in a history. */
  function CompletionCount(h: seq<Event>): nat
  {
    if h == [] then 0
    else CompletionCount(h[..|h| - 1]) + (if h[|h| - 1].TaskCompleted? then 1 else 0)
  }

  lemma {:induction false} CompletionCountAppend(a: seq<Event>, b: seq<Event>)
    ensures CompletionCount(a + b) == CompletionCount(a) + CompletionCount(b)
  {
    if b != [] {
      assert (a + b)[..|a + b| - 1] == a + b[..|b| - 1];
      CompletionCountAppend(a, b[..|b| - 1]);
    } else {
      assert a + b == a;
    }
  }

  lemma {:induction false} CompletionCountNone(h: seq<Event>)
    requires forall i :: 0 <= i < |h| ==> !h[i].TaskCompleted?
    ensures CompletionCount(h) == 0
  {
    if h != [] {
      CompletionCountNone(h[..|h| - 1]);
    }
  }

  // ---------------------------------------------------------------------
  // The task engine
  // ---------------------------------------------------------------------

  /** The base class of every asynchronously run task. */
  class AsyncTaskBase {
    var cancelled: bool
    /** The queued handles, None standing for a null reference. */
    var waitQueue: seq<Option<WaitHandle>>
    var mainWait: Option<WaitHandle>
    /** The handles this task has waited on and closed. */
    var closed: set<WaitHandle>
    /** Everything raised or joined so far, oldest first. */
    var history: seq<Event>

    constructor ()
      ensures !cancelled && waitQueue == [] && mainWait == None && closed == {} && history == []
    {
      cancelled := false;
      waitQueue := [];
      mainWait := None;
      closed := {};
      history := [];
    }

    /** Reads the cancellation flag. */
    method IsCancelled() returns (c: bool)
      ensures c == cancelled
    {
      c := cancelled;
    }

    /** Requests cooperative cancellation; a second request changes nothing. */
    method Cancel()
      modifies this`cancelled
      ensures cancelled
      ensures old(cancelled) ==> unchanged(this)
    {
      cancelled := true;
    }

    /** Adds a wait handle, possibly null, at the back of the queue. */
    method Enqueue(waitHandle: Option<WaitHandle>)
      modifies this`waitQueue
      ensures waitQueue == old(waitQueue) + [waitHandle]
    {
      waitQueue := waitQueue + [waitHandle];
    }

    /**
      Waits for the whole run, once: the main handle is joined, closed and
      dropped. Waiting on a main handle that is already closed throws, and
      then the handle stays set.
    */
    method AwaitTask() returns (fault: Option<JoinFault>)
      modifies this`mainWait, this`closed, this`history
      ensures old(mainWait).None? ==> fault == None && unchanged(this)
      ensures old(mainWait).Some? && old(mainWait).value in old(closed) ==>
        fault == Some(DisposedHandle(old(mainWait).value)) && unchanged(this)
      ensures old(mainWait).Some? && old(mainWait).value !in old(closed) ==>
        && fault == None && mainWait == None
        && closed == old(closed) + {old(mainWait).value}
        && history == old(history) + [Joined(old(mainWait).value)]
    {
      fault := None;
      if mainWait.Some? {
        var h := mainWait.value;
        if h in closed {
          return Some(DisposedHandle(h));
        }
        history := history + [Joined(h)];
        closed := closed + {h};
        mainWait := None;
      }
    }

    /**
      Joins the queued handles front first until the queue is empty, or
      until waiting on a dequeued entry throws (see Drain).
    */
    method AwaitWorkers() returns (fault: Option<JoinFault>)
      modifies this`waitQueue, this`closed, this`history
      ensures var d := Drain(old(waitQueue), old(closed));
        && fault == d.fault && waitQueue == d.rest && closed == d.closed
        && history == old(history) + Joins(d.joined)
    {
      waitQueue, closed, history, fault := DrainQueue(waitQueue, closed, history);
    }

    /**
      AwaitWorkers' loop: dequeue the front entry, wait on it and close it;
      a null entry, or a handle closed already, throws and ends the loop.
    */
    static method DrainQueue(queue0: seq<Option<WaitHandle>>, closed0: set<WaitHandle>, log0: seq<Event>)
      returns (queue: seq<Option<WaitHandle>>, closed: set<WaitHandle>, log: seq<Event>, fault: Option<JoinFault>)
      ensures var d := Drain(queue0, closed0);
        && fault == d.fault && queue == d.rest && closed == d.closed
        && log == log0 + Joins(d.joined)
    {
      queue, closed, log := queue0, closed0, log0;
      ghost var joined: seq<WaitHandle> := [];
      ghost var d0 := Drain(queue, closed);
      assert DrainPending(d0, joined, queue, closed);
      fault := None;
      while |queue| > 0
        invariant DrainPending(d0, joined, queue, closed)
        invariant log == log0 + Joins(joined)
      {
        DrainAdvance(d0, joined, queue, closed);
        var wh := queue[0];
        queue := queue[1..];
        if wh.None? {
          fault := Some(NullHandle);
          break;
        }
        var h := wh.value;
        if h in closed {
          fault := Some(DisposedHandle(h));
          break;
        }
        log := log + [Joined(h)];
        closed := closed + {h};
        JoinsAppend(joined, h);
        joined := joined + [h];
      }
      if fault.None? {
        DrainAdvance(d0, joined, queue, closed);
      }
    }

    /** Raises a progress notification for `done` items out of `total`. */
    method OnTaskProgressChanged(done: int32, total: int32)
      requires total != 0 && !(Wrap32(done * 100) == Int32Min && total == -1)
      modifies this`history
      ensures PercentOf(done, total).Some?
      ensures history == old(history) + [ProgressEvent(done, total)]
    {
      var progress := PercentOf(done, total).value;
      history := history + [ProgressChanged(ProgressChangedArgs(progress))];
    }

    /** Raises a progress notification carrying `percent` unchanged. */
    method OnTaskProgressChangedPercent(percent: int32)
      modifies this`history
      ensures history == old(history) + [ProgressChanged(ProgressChangedArgs(percent))]
    {
      history := history + [ProgressChanged(ProgressChangedArgs(percent))];
    }

    /** Raises a progress notification with the given payload. */
    method OnTaskProgressChangedArgs(e: ProgressChangedArgs)
      modifies this`history
      ensures history == old(history) + [ProgressChanged(e)]
    {
      history := history + [ProgressChanged(e)];
    }

    /** Raises the completion notification for exception `e` and flag `wasCancelled`. */
    method OnTaskCompleted(e: Option<TaskException>, wasCancelled: bool := false)
      modifies this`history
      ensures history == old(history) + [TaskCompleted(CompletedArgs(e, wasCancelled))]
    {
      history := history + [TaskCompleted(CompletedArgs(e, wasCancelled))];
    }

    /** Raises the completion notification with the given payload. */
    method OnTaskCompletedArgs(e: CompletedArgs)
      modifies this`history
      ensures history == old(history) + [TaskCompleted(e)]
    {
      history := history + [TaskCompleted(e)];
    }

    /**
      The part of Start run by the caller: the worker's handle becomes the
      main wait handle. BeginInvoke hands out a new handle, so it is neither
      closed nor queued.
    */
    method BeginStart(workerHandle: WaitHandle)
      requires workerHandle !in closed && Some(workerHandle) !in waitQueue
      modifies this`mainWait
      ensures mainWait == Some(workerHandle)
    {
      mainWait := Some(workerHandle);
    }

    /**
      The part of Start run after the worker body has returned or thrown
      `taskException`: the `finally` drains the wait queue, then the
      completion callback reports the exception and the flag as it is then.
      An exception thrown by the drain escapes the worker and is rethrown by
      EndInvoke in the callback, so it is returned and nothing is reported.
    */
    method FinishRun(taskException: Option<TaskException>) returns (escaped: Option<JoinFault>)
      modifies this`waitQueue, this`closed, this`history
      ensures var d := Drain(old(waitQueue), old(closed));
        && escaped == d.fault && waitQueue == d.rest && closed == d.closed
        && history == old(history) + Joins(d.joined)
             + (if d.fault.None? then [TaskCompleted(CompletedArgs(taskException, cancelled))] else [])
    {
      escaped := AwaitWorkers();
      if escaped.None? {
        var c := IsCancelled();
        OnTaskCompleted(taskException, c);
      }
    }
  }

  /** A task that produces a result of type T; None stands for C#'s initial null. */
  class AsyncTaskWithResult<T> {
    const base: AsyncTaskBase
    var Result: Option<T>

    constructor ()
      ensures fresh(base) && Result == None
      ensures !base.cancelled && base.waitQueue == [] && base.mainWait == None && base.closed == {} && base.history == []
    {
      base := new AsyncTaskBase();
      Result := None;
    }

    /**
      Waits for the whole run like AsyncTaskBase.AwaitTask, then returns the
      current result; when the wait throws, no result is returned.
    */
    method AwaitTask() returns (r: Option<T>, fault: Option<JoinFault>)
      modifies base`mainWait, base`closed, base`history
      ensures Result == old(Result)
      ensures fault.None? ==> r == Result
      ensures fault.Some? ==> r == None
      ensures old(base.mainWait).None? ==> fault == None && unchanged(base)
      ensures old(base.mainWait).Some? && old(base.mainWait).value in old(base.closed) ==>
        fault == Some(DisposedHandle(old(base.mainWait).value)) && unchanged(base)
      ensures old(base.mainWait).Some? && old(base.mainWait).value !in old(base.closed) ==>
        && fault == None && base.mainWait == None
        && base.closed == old(base.closed) + {old(base.mainWait).value}
        && base.history == old(base.history) + [Joined(old(base.mainWait).value)]
    {
      r := None;
      fault := base.AwaitTask();
      if fault.None? {
        r := Result;
      }
    }
  }

  /** The drain `d0` has joined `joined` so far and still has to drain `queue` with `closed` shut. */
  ghost predicate DrainPending(d0: DrainOutcome, joined: seq<WaitHandle>, queue: seq<Option<WaitHandle>>, closed: set<WaitHandle>)
  {
    var d := Drain(queue, closed);
    d0 == DrainOutcome(joined + d.joined, d.fault, d.rest, d.closed)
  }

  /** One step of AwaitWorkers' loop keeps the drain pending or ends it as `d0` says. */
  lemma DrainAdvance(d0: DrainOutcome, joined: seq<WaitHandle>, queue: seq<Option<WaitHandle>>, closed: set<WaitHandle>)
    requires DrainPending(d0, joined, queue, closed)
    ensures queue == [] ==> d0 == DrainOutcome(joined, None, [], closed)
    ensures queue != [] && queue[0].None? ==> d0 == DrainOutcome(joined, Some(NullHandle), queue[1..], closed)
    ensures queue != [] && queue[0].Some? && queue[0].value in closed ==>
      d0 == DrainOutcome(joined, Some(DisposedHandle(queue[0].value)), queue[1..], closed)
    ensures queue != [] && queue[0].Some? && queue[0].value !in closed ==>
      DrainPending(d0, joined + [queue[0].value], queue[1..], closed + {queue[0].value})
  {
    assert joined + [] == joined;
    if queue != [] && queue[0].Some? && queue[0].value !in closed {
      var h := queue[0].value;
      var d := Drain(queue[1..], closed + {h});
      assert joined + ([h] + d.joined) == joined + [h] + d.joined;
    }
  }

  /** A run whose drain threw holds no completion notification at all. */
  lemma FaultedRunShape(progress: seq<Event>, joined: seq<WaitHandle>)
    requires forall i :: 0 <= i < |progress| ==> progress[i].ProgressChanged?
    ensures CompletionCount(progress + Joins(joined)) == 0
  {
    CompletionCountNone(progress);
    CompletionCountNone(Joins(joined));
    CompletionCountAppend(progress, Joins(joined));
  }

  /**
    A run's own history: its progress notifications, then the joins of the
    queue it drained, then exactly one completion notification, last.
  */
  lemma RunHistoryShape(progress: seq<Event>, queue: seq<WaitHandle>, c: CompletedArgs)
    requires forall i :: 0 <= i < |progress| ==> progress[i].ProgressChanged?
    ensures var run := progress + Joins(queue) + [TaskCompleted(c)];
      && CompletionCount(run) == 1
      && run[|run| - 1] == TaskCompleted(c)
      && run[|progress|..|run| - 1] == Joins(queue)
  {
    var joins := Joins(queue);
    CompletionCountNone(progress);
    CompletionCountNone(joins);
    CompletionCountAppend(progress, joins);
    CompletionCountAppend(progress + joins, [TaskCompleted(c)]);
    assert CompletionCount([TaskCompleted(c)]) == 1 by {
      assert [TaskCompleted(c)][..0] == [];
    }
    var run := progress + joins + [TaskCompleted(c)];
    assert run[|progress|..|run| - 1] == joins;
  }
}
