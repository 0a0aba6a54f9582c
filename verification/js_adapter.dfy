/**
 * `ReadableStreamSourceJsAdapter`: exposes a KJ `ReadableStreamSource` to
 * JavaScript.  The adapter is `Active`, `Closed` or holds the exception it was
 * canceled with.  While active it owns a FIFO queue of tasks (reads and the
 * final close) that one `run()` coroutine executes one at a time against the
 * source.
 *
 * Promises are modelled by task ids: `read` and `close` return the id of the
 * task they queued, the runtime later reports how the source call behind the
 * in-flight task ended (`TaskDone`), and every settlement of a task's
 * fulfiller is appended to `Adapter.settled`.  The JavaScript continuations
 * that run once a task's promise settles are the `On...` operations.
 */
module JsSourceAdapter {
  import opened Wrappers
  import opened KjTypes

  datatype TaskKind =
    | ReadTask(minBytes: nat, maxBytes: nat)   // source->tryRead(buffer, minBytes, size)
    | CloseTask                                 // co_return 0

  datatype Task = Task(id: nat, kind: TaskKind)

  /** How a task's fulfiller was settled. */
  datatype Settlement = Fulfilled(id: nat, amount: nat) | Rejected(id: nat, error: Exception)

  /** The underlying source: still owned, or dropped (canceled first, or not). */
  datatype Source = SourceOpen | SourceReleased(canceledWith: Option<Exception>)

  /** The `Active` struct. `inFlight` is the task `run()` is awaiting. */
  datatype Active = Active(
    queue: seq<Task>,
    inFlight: Option<Task>,
    running: bool,
    canceled: bool,
    closePending: bool,
    pendingCancel: Option<Exception>,
    source: Source)

  const FreshActive := Active([], None, false, false, false, None, SourceOpen)

  /** The exception the `Active` destructor cancels with. */
  const DroppedException := Exception(Disconnected, "Writable stream is canceled or closed.")

  const ShutdownException := Exception(Disconnected, "Stream was shut down.")

  /** Every task not yet settled, in the order `run()` will execute them. */
  function Pending(a: Active): seq<Task> {
    (match a.inFlight case Some(t) => [t] case None => []) + a.queue
  }

  function Rejections(tasks: seq<Task>, e: Exception): (r: seq<Settlement>)
    ensures |r| == |tasks|
    ensures forall i :: 0 <= i < |tasks| ==> r[i] == Rejected(tasks[i].id, e)
  {
    seq(|tasks|, i requires 0 <= i < |tasks| => Rejected(tasks[i].id, e))
  }

  /**
   * `Active::cancel`: a no-op the second time.  The first time it rejects the
   * in-flight task and then every queued task with the exception, leaves the
   * queue empty, and drops the source, canceling it first unless the
   * exception is `DISCONNECTED`.
   */
  function CancelActive(a: Active, e: Exception): (r: (Active, seq<Settlement>))
    ensures a.canceled ==> r == (a, [])
    ensures r.0.canceled
    ensures !a.canceled ==> Pending(r.0) == [] && r.1 == Rejections(Pending(a), e)
    ensures !a.canceled ==> r.0.pendingCancel == Some(e) && !r.0.running
    ensures !a.canceled ==> r.0.source.SourceReleased? &&
                            (r.0.source.canceledWith.Some? <==> e.kind != Disconnected)
    ensures r.0.closePending == a.closePending
  {
    if a.canceled then (a, [])
    else
      var released := SourceReleased(if e.kind != Disconnected then Some(e) else None);
      (a.(canceled := true, pendingCancel := Some(e), queue := [], inFlight := None, running := false,
          source := released),
       Rejections(Pending(a), e))
  }

  /** The head of `run()`'s loop: take the next task, or stop running. */
  function Pump(a: Active): Active {
    if |a.queue| > 0 && !a.canceled then
      a.(inFlight := Some(a.queue[0]), queue := a.queue[1..], running := true)
    else
      a.(inFlight := None, running := false)
  }

  /** `Active::enqueue`: push the task; start `run()` only when it is not running. */
  function Enqueue(a: Active, t: Task): Active {
    var pushed := a.(queue := a.queue + [t]);
    if a.running then pushed else Pump(pushed)
  }

  /** How the source call behind the in-flight task ended. */
  datatype TaskOutcome = Produced(amount: nat) | Threw(error: Exception)

  /**
   * `run()` resuming after its in-flight task settled: fulfil it and move on,
   * or reject it and leave the loop.
   */
  function Complete(a: Active, o: TaskOutcome): (Active, seq<Settlement>) {
    match a.inFlight
    case None => (a, [])
    case Some(t) =>
      match o
      case Produced(n) => (Pump(a.(inFlight := None)), [Fulfilled(t.id, n)])
      case Threw(e) => (a.(inFlight := None, running := false), [Rejected(t.id, e)])
  }

  /** `run()` over a series of task outcomes, until it stops running. */
  function Drain(a: Active, outcomes: seq<TaskOutcome>): (Active, seq<Settlement>)
    decreases |outcomes|
  {
    if |outcomes| == 0 || a.inFlight.None? then (a, [])
    else
      var (a1, s1) := Complete(a, outcomes[0]);
      var (a2, s2) := Drain(a1, outcomes[1..]);
      (a2, s1 + s2)
  }

  // ---------------------------------------------------------------------------
  // minBytes for read()
  // ---------------------------------------------------------------------------

  /**
   * `read`'s minBytes: the requested amount (default: one element) raised to
   * one element and capped at the buffer size, then rounded up to a whole
   * number of elements.
   */
  function MinBytes(requested: Option<nat>, elementSize: nat, size: nat): (m: nat)
    requires elementSize >= 1
  {
    var requestedOrElement := match requested case Some(n) => n case None => elementSize;
    var clamped := Min(Max(requestedOrElement, elementSize), size);
    if elementSize > 1 then clamped + (elementSize - clamped % elementSize) % elementSize else clamped
  }

  /**
   * The result is the least multiple of the element size that is at least the
   * clamped request; for a buffer holding whole elements it never exceeds the
   * buffer.
   */
  lemma MinBytesRoundsUp(requested: Option<nat>, elementSize: nat, size: nat)
    requires elementSize >= 1
    ensures var clamped := Min(Max(match requested case Some(n) => n case None => elementSize, elementSize), size);
      var m := MinBytes(requested, elementSize, size);
      && m % elementSize == 0
      && clamped <= m < clamped + elementSize
      && (size % elementSize == 0 ==> m <= size)
      && (size >= elementSize ==> m >= elementSize)
  {
    var clamped := Min(Max(match requested case Some(n) => n case None => elementSize, elementSize), size);
    if elementSize > 1 {
      RoundUp(clamped, elementSize);
      if size % elementSize == 0 {
        RoundUpWithin(clamped, elementSize, size);
      }
    }
  }

  // Size arithmetic behind the rounding.

  lemma {:induction false} MulMod(k: nat, e: nat)
    requires e > 0
    ensures (k * e) % e == 0
  {
    if k > 0 {
      MulMod(k - 1, e);
      assert k * e == (k - 1) * e + e;
      ModAddDivisor((k - 1) * e, e);
    }
  }

  lemma ModAddDivisor(y: nat, e: nat)
    requires e > 0
    ensures (y + e) % e == y % e
  {
    var q, r := y / e, y % e;
    var d, r' := (y + e) / e, (y + e) % e;
    assert y == q * e + r;
    assert y + e == d * e + r';
    assert (q + 1) * e == q * e + e;
    assert (q + 2) * e == q * e + e + e;
    if d > q + 1 {
      MulMono(q + 2, d, e);
      assert false;
    }
    if d < q + 1 {
      MulMono(d, q, e);
      assert false;
    }
  }

  lemma {:induction false} MulMono(a: nat, b: nat, e: nat)
    requires a <= b
    ensures a * e <= b * e
    decreases b - a
  {
    if a < b {
      MulMono(a, b - 1, e);
      assert b * e == (b - 1) * e + e;
    }
  }

  lemma RoundUp(x: nat, e: nat)
    requires e > 1
    ensures var r := x + (e - x % e) % e;
      r % e == 0 && x <= r < x + e
  {
    var q := x / e;
    var rem := x % e;
    DivModSplit(x, e);
    if rem == 0 {
      SmallMod(0, e);
      ModAddDivisor(0, e);
    } else {
      SmallMod(e - rem, e);
      MulSucc(q, e);
      MulMod(q + 1, e);
    }
  }

  lemma DivModSplit(x: nat, e: nat)
    requires e > 0
    ensures x == (x / e) * e + x % e && 0 <= x % e < e
  {
  }

  lemma SmallMod(a: nat, e: nat)
    requires a < e
    ensures a % e == a
  {
  }

  lemma RoundUpWithin(x: nat, e: nat, size: nat)
    requires e > 1 && x <= size && size % e == 0
    ensures x + (e - x % e) % e <= size
  {
    RoundUp(x, e);
    var r := x + (e - x % e) % e;
    var a, k := r / e, size / e;
    MultipleOf(r, e);
    MultipleOf(size, e);
    if k < a {
      MulMono(k, a - 1, e);
      MulSucc(a - 1, e);
      assert false;
    }
    MulMono(a, k, e);
  }

  lemma MultipleOf(n: nat, e: nat)
    requires e > 0 && n % e == 0
    ensures n == (n / e) * e
  {
  }

  lemma MulSucc(a: nat, e: nat)
    ensures (a + 1) * e == a * e + e
  {
  }

  // ---------------------------------------------------------------------------
  // The adapter
  // ---------------------------------------------------------------------------

  datatype State = Open(active: Active) | Closed | Errored(error: Exception)

  /** The adapter, the log of settled task fulfillers, and the next task id. */
  datatype Adapter = Adapter(state: State, settled: seq<Settlement>, nextId: nat)

  const FreshAdapter := Adapter(Open(FreshActive), [], 0)

  /** What a JavaScript promise is rejected with, or a call throws: a KJ exception, a `TypeError` or a plain `Error`. */
  datatype JsError = KjError(exception: Exception) | TypeError | PlainError

  /**
   * The representation invariant every reachable adapter keeps: while active,
   * `running` is set exactly when a task is in flight, the `Active` has not
   * been canceled, and every pending task has an id below `nextId`.
   */
  ghost predicate Inv(ad: Adapter) {
    ad.state.Open? ==>
      var a := ad.state.active;
      && (a.running <==> a.inFlight.Some?)
      && !a.canceled
      && a.pendingCancel.None?
      && a.source == SourceOpen
      && forall i :: 0 <= i < |Pending(a)| ==> Pending(a)[i].id < ad.nextId
  }

  /** Replacing the state destroys the `Active`, whose destructor cancels it. */
  function Retire(ad: Adapter, next: State): Adapter {
    match ad.state
    case Open(a) => Adapter(next, ad.settled + CancelActive(a, DroppedException).1, ad.nextId)
    case _ => ad.(state := next)
  }

  /** `cancel(exception)`: cancel the `Active` if any; the state becomes the exception. */
  function Cancel(ad: Adapter, e: Exception): (r: Adapter)
    ensures r.state == Errored(e)
    ensures r.nextId == ad.nextId
    ensures ad.state.Open? ==> r.settled == ad.settled + CancelActive(ad.state.active, e).1
    ensures !ad.state.Open? ==> r.settled == ad.settled
  {
    match ad.state
    case Open(a) => Adapter(Errored(e), ad.settled + CancelActive(a, e).1, ad.nextId)
    case _ => ad.(state := Errored(e))
  }

  /**
   * `shutdown`: only an active adapter moves, to `Closed`, canceling its
   * `Active` with DISCONNECTED "Stream was shut down.", which rejects every
   * pending task; otherwise a no-op.
   */
  function Shutdown(ad: Adapter): (r: Adapter)
    ensures ad.state.Open? ==> r.state == Closed && r.nextId == ad.nextId
    ensures ad.state.Open? && !ad.state.active.canceled ==>
      r.settled == ad.settled + Rejections(Pending(ad.state.active), ShutdownException)
    ensures ad.state.Open? && ad.state.active.canceled ==> r.settled == ad.settled
    ensures !ad.state.Open? ==> r == ad
  {
    match ad.state
    case Open(a) => Adapter(Closed, ad.settled + CancelActive(a, ShutdownException).1, ad.nextId)
    case _ => ad
  }

  datatype ReadReply =
    | Resolved(bytesRead: nat, done: bool)
    | ReadRejected(error: JsError)
    | ReadQueued(task: nat)

  /** `read(options)` with a buffer of `size` bytes made of `elementSize`-byte elements. */
  function Read(ad: Adapter, requested: Option<nat>, elementSize: nat, size: nat): (r: (Adapter, ReadReply))
    requires elementSize >= 1
  {
    match ad.state
    case Open(a) =>
      if a.closePending then (ad, Resolved(0, true))
      else
        var t := Task(ad.nextId, ReadTask(MinBytes(requested, elementSize, size), size));
        (Adapter(Open(Enqueue(a, t)), ad.settled, ad.nextId + 1), ReadQueued(t.id))
    case Closed => (ad, Resolved(0, true))
    case Errored(e) => (ad, ReadRejected(KjError(e)))
  }

  /** The continuation of a read whose task was fulfilled with `bytesRead`. */
  function OnReadFulfilled(ad: Adapter, bytesRead: nat): (Adapter, ReadReply) {
    if bytesRead == 0 then
      var next := match ad.state
        case Open(a) => ad.(state := Open(a.(closePending := true)))
        case _ => ad;
      (next, Resolved(0, true))
    else (ad, Resolved(bytesRead, false))
  }

  /** The continuation of a read whose task was rejected: cancel, then rethrow. */
  function OnReadRejected(ad: Adapter, e: Exception): (Adapter, ReadReply) {
    (Cancel(ad, e), ReadRejected(KjError(e)))
  }

  datatype CloseReply = CloseResolved | CloseRejected(error: JsError) | CloseQueued(task: nat)

  /** `close()`: mark the close pending and queue a task that produces 0. */
  function Close(ad: Adapter): (Adapter, CloseReply) {
    match ad.state
    case Open(a) =>
      if a.closePending then (ad, CloseRejected(TypeError))
      else
        var t := Task(ad.nextId, CloseTask);
        (Adapter(Open(Enqueue(a.(closePending := true), t)), ad.settled, ad.nextId + 1), CloseQueued(t.id))
    case Errored(e) => (ad, CloseRejected(KjError(e)))
    case Closed => (ad, CloseResolved)
  }

  /**
   * The continuation of a fulfilled close task: the state becomes `Closed`
   * whatever it was; an `Active` still held is destroyed, which rejects any
   * task still pending with the destructor's exception.
   */
  function OnCloseFulfilled(ad: Adapter): (r: Adapter)
    ensures r.state == Closed && r.nextId == ad.nextId
    ensures ad.state.Open? && !ad.state.active.canceled ==>
      r.settled == ad.settled + Rejections(Pending(ad.state.active), DroppedException)
    ensures !(ad.state.Open? && !ad.state.active.canceled) ==> r.settled == ad.settled
  {
    Retire(ad, Closed)
  }

  datatype TeeReply = Teed | NoTee | TeeThrew(error: JsError)

  /**
   * `tryTee`: only an idle, not-closing adapter may tee; when the source tees
   * the adapter hands it to the two branches and becomes `Closed`.
   */
  function TryTee(ad: Adapter, sourceTees: bool): (Adapter, TeeReply) {
    match ad.state
    case Open(a) =>
      if a.closePending || a.running || |a.queue| > 0 then (ad, TeeThrew(PlainError))
      else if sourceTees then (Retire(ad, Closed), Teed)
      else (ad, NoTee)
    case Closed => (ad, NoTee)
    case Errored(e) => (ad, TeeThrew(KjError(e)))
  }

  /** The runtime reports how the in-flight task's source call ended. */
  function TaskDone(ad: Adapter, o: TaskOutcome): Adapter {
    match ad.state
    case Open(a) =>
      var (a', s) := Complete(a, o);
      Adapter(Open(a'), ad.settled + s, ad.nextId)
    case _ => ad
  }

  /** Everything that can happen to an adapter. */
  datatype Op =
    | ReadOp(requested: Option<nat>, elementSize: nat, size: nat)
    | ReadFulfilledOp(bytesRead: nat)
    | ReadRejectedOp(readError: Exception)
    | CloseOp
    | CloseFulfilledOp
    | CloseRejectedOp(closeError: Exception)
    | TaskDoneOp(outcome: TaskOutcome)
    | CancelOp(reason: Exception)
    | ShutdownOp
    | TeeOp(sourceTees: bool)

  function Apply(ad: Adapter, op: Op): Adapter {
    match op
    case ReadOp(req, es, size) => if es >= 1 then Read(ad, req, es, size).0 else ad
    case ReadFulfilledOp(n) => OnReadFulfilled(ad, n).0
    case ReadRejectedOp(e) => OnReadRejected(ad, e).0
    case CloseOp => Close(ad).0
    case CloseFulfilledOp => OnCloseFulfilled(ad)
    case CloseRejectedOp(e) => Cancel(ad, e)
    case TaskDoneOp(o) => TaskDone(ad, o)
    case CancelOp(e) => Cancel(ad, e)
    case ShutdownOp => Shutdown(ad)
    case TeeOp(b) => TryTee(ad, b).0
  }

  // ---------------------------------------------------------------------------
  // Properties
  // ---------------------------------------------------------------------------

  /**
   * `enqueue` keeps FIFO order: the new task runs after every pending one.  It
   * starts `run()` only when `run()` is not already running, and leaves an
   * in-flight task alone.
   */
  lemma EnqueueFifo(a: Active, t: Task)
    requires a.running <==> a.inFlight.Some?
    requires !a.canceled
    ensures Pending(Enqueue(a, t)) == Pending(a) + [t]
    ensures Enqueue(a, t).running && Enqueue(a, t).inFlight.Some?
    ensures a.running ==> Enqueue(a, t).inFlight == a.inFlight
    ensures !a.running ==> Enqueue(a, t).inFlight == Some((a.queue + [t])[0])
  {
    if !a.running {
      var pushed := a.queue + [t];
      assert [pushed[0]] + pushed[1..] == pushed;
    }
  }

  /**
   * While every task succeeds, `run()` settles the pending tasks one by one in
   * FIFO order, fulfilling each with what its source call produced.
   */
  lemma {:induction false} DrainFifo(a: Active, outcomes: seq<TaskOutcome>)
    requires a.running <==> a.inFlight.Some?
    requires a.inFlight.None? ==> a.queue == []
    requires !a.canceled
    requires |outcomes| <= |Pending(a)|
    requires forall i :: 0 <= i < |outcomes| ==> outcomes[i].Produced?
    ensures var (a', settled) := Drain(a, outcomes);
      && Pending(a') == Pending(a)[|outcomes|..]
      && (a'.running <==> a'.inFlight.Some?)
      && |settled| == |outcomes|
      && forall i :: 0 <= i < |outcomes| ==> settled[i] == Fulfilled(Pending(a)[i].id, outcomes[i].amount)
    decreases |outcomes|
  {
    if |outcomes| > 0 {
      var t := a.inFlight.value;
      var (a1, s1) := Complete(a, outcomes[0]);
      assert s1 == [Fulfilled(t.id, outcomes[0].amount)];
      assert Pending(a1) == a.queue by {
        if |a.queue| > 0 {
          assert [a.queue[0]] + a.queue[1..] == a.queue;
        }
      }
      assert Pending(a)[1..] == a.queue;
      DrainFifo(a1, outcomes[1..]);
      assert Pending(a)[1..][|outcomes| - 1..] == Pending(a)[|outcomes|..];
      var (a2, s2) := Drain(a1, outcomes[1..]);
      forall i | 0 <= i < |outcomes|
        ensures (s1 + s2)[i] == Fulfilled(Pending(a)[i].id, outcomes[i].amount)
      {
        if i > 0 {
          assert (s1 + s2)[i] == s2[i - 1];
          assert outcomes[1..][i - 1] == outcomes[i];
          assert Pending(a)[1..][i - 1] == Pending(a)[i];
        }
      }
    }
  }

  /**
   * The first failing task stops `run()`: it is rejected with its own error,
   * every earlier task is fulfilled, and the later tasks stay queued, unsettled.
   */
  lemma {:induction false} DrainStopsAtFailure(a: Active, outcomes: seq<TaskOutcome>, k: nat)
    requires a.running <==> a.inFlight.Some?
    requires a.inFlight.None? ==> a.queue == []
    requires !a.canceled
    requires k < |outcomes| && k < |Pending(a)|
    requires forall i :: 0 <= i < k ==> outcomes[i].Produced?
    requires outcomes[k].Threw?
    ensures var (a', settled) := Drain(a, outcomes);
      && !a'.running && a'.inFlight.None?
      && a'.queue == Pending(a)[k + 1..]
      && |settled| == k + 1
      && (forall i :: 0 <= i < k ==> settled[i] == Fulfilled(Pending(a)[i].id, outcomes[i].amount))
      && settled[k] == Rejected(Pending(a)[k].id, outcomes[k].error)
    decreases k
  {
    var t := a.inFlight.value;
    var (a1, s1) := Complete(a, outcomes[0]);
    if k == 0 {
      assert a1.queue == Pending(a)[1..];
      assert Drain(a1, outcomes[1..]) == (a1, []);
    } else {
      assert Pending(a1) == a.queue by {
        if |a.queue| > 0 {
          assert [a.queue[0]] + a.queue[1..] == a.queue;
        }
      }
      assert Pending(a)[1..] == a.queue;
      DrainStopsAtFailure(a1, outcomes[1..], k - 1);
      assert Pending(a)[1..][k..] == Pending(a)[k + 1..];
      var (a2, s2) := Drain(a1, outcomes[1..]);
      forall i | 0 <= i <= k
        ensures i < k ==> (s1 + s2)[i] == Fulfilled(Pending(a)[i].id, outcomes[i].amount)
        ensures i == k ==> (s1 + s2)[i] == Rejected(Pending(a)[k].id, outcomes[k].error)
      {
        if i > 0 {
          assert (s1 + s2)[i] == s2[i - 1];
          assert outcomes[1..][i - 1] == outcomes[i];
          assert Pending(a)[1..][i - 1] == Pending(a)[i];
        }
      }
    }
  }

  /** Every operation keeps the representation invariant. */
  lemma InvPreserved(ad: Adapter, op: Op)
    requires Inv(ad)
    ensures Inv(Apply(ad, op))
  {
    match op
    case ReadOp(req, es, size) => InvRead(ad, req, es, size);
    case CloseOp => InvClose(ad);
    case TaskDoneOp(o) => InvTaskDone(ad, o);
    case ReadFulfilledOp(n) =>
      if n == 0 && ad.state.Open? {
        assert Pending(ad.state.active.(closePending := true)) == Pending(ad.state.active);
      }
    case ReadRejectedOp(e) =>
    case CloseFulfilledOp =>
    case CloseRejectedOp(e) =>
    case CancelOp(e) =>
    case ShutdownOp =>
    case TeeOp(b) =>
  }

  lemma InvRead(ad: Adapter, requested: Option<nat>, elementSize: nat, size: nat)
    requires Inv(ad)
    ensures Inv(Apply(ad, ReadOp(requested, elementSize, size)))
  {
    if elementSize >= 1 && ad.state.Open? && !ad.state.active.closePending {
      EnqueueFifo(ad.state.active, Task(ad.nextId, ReadTask(MinBytes(requested, elementSize, size), size)));
    }
  }

  lemma InvClose(ad: Adapter)
    requires Inv(ad)
    ensures Inv(Apply(ad, CloseOp))
  {
    if ad.state.Open? && !ad.state.active.closePending {
      var a := ad.state.active.(closePending := true);
      assert Pending(a) == Pending(ad.state.active);
      EnqueueFifo(a, Task(ad.nextId, CloseTask));
    }
  }

  lemma InvTaskDone(ad: Adapter, o: TaskOutcome)
    requires Inv(ad)
    ensures Inv(Apply(ad, TaskDoneOp(o)))
  {
    if ad.state.Open? && ad.state.active.inFlight.Some? {
      var a := ad.state.active;
      assert Pending(a)[1..] == a.queue;
      if o.Produced? && |a.queue| > 0 {
        assert Pending(Pump(a.(inFlight := None))) == a.queue by {
          assert [a.queue[0]] + a.queue[1..] == a.queue;
        }
      }
    }
  }

  /**
   * `read` with a close pending, or on a closed adapter, resolves at once with
   * an empty, done result and queues nothing; on an errored adapter it
   * rejects with the stored exception; otherwise it queues one read task
   * behind every pending task.
   */
  lemma ReadByState(ad: Adapter, requested: Option<nat>, elementSize: nat, size: nat)
    requires Inv(ad)
    requires elementSize >= 1
    ensures var (ad', reply) := Read(ad, requested, elementSize, size);
      && ((ad.state.Closed? || (ad.state.Open? && ad.state.active.closePending)) ==>
            ad' == ad && reply == Resolved(0, true))
      && (ad.state.Errored? ==> ad' == ad && reply == ReadRejected(KjError(ad.state.error)))
      && (ad.state.Open? && !ad.state.active.closePending ==>
            && reply == ReadQueued(ad.nextId)
            && ad'.state.Open?
            && Pending(ad'.state.active) ==
                 Pending(ad.state.active) + [Task(ad.nextId, ReadTask(MinBytes(requested, elementSize, size), size))])
  {
    if ad.state.Open? && !ad.state.active.closePending {
      EnqueueFifo(ad.state.active, Task(ad.nextId, ReadTask(MinBytes(requested, elementSize, size), size)));
    }
  }

  /**
   * A read that produced 0 bytes marks the close pending: from then on reads
   * resolve as done without queueing anything, and `close` rejects.
   */
  lemma ZeroByteReadEndsStream(ad: Adapter, requested: Option<nat>, elementSize: nat, size: nat)
    requires ad.state.Open?
    requires elementSize >= 1
    ensures var (ad', reply) := OnReadFulfilled(ad, 0);
      && reply == Resolved(0, true)
      && ad'.state.Open? && ad'.state.active.closePending
      && Read(ad', requested, elementSize, size) == (ad', Resolved(0, true))
      && Close(ad') == (ad', CloseRejected(TypeError))
  {
  }

  /**
   * `close` queues a task behind every pending read; a second `close` while
   * that is pending rejects and changes nothing; `close` on a closed adapter
   * resolves and changes nothing.
   */
  lemma CloseRules(ad: Adapter)
    requires Inv(ad)
    ensures ad.state.Closed? ==> Close(ad) == (ad, CloseResolved)
    ensures ad.state.Errored? ==> Close(ad) == (ad, CloseRejected(KjError(ad.state.error)))
    ensures ad.state.Open? && !ad.state.active.closePending ==>
      var (ad', reply) := Close(ad);
      && reply == CloseQueued(ad.nextId)
      && ad'.state.Open? && ad'.state.active.closePending
      && Pending(ad'.state.active) == Pending(ad.state.active) + [Task(ad.nextId, CloseTask)]
      && Close(ad') == (ad', CloseRejected(TypeError))
  {
    if ad.state.Open? && !ad.state.active.closePending {
      EnqueueFifo(ad.state.active.(closePending := true), Task(ad.nextId, CloseTask));
    }
  }

  /**
   * `cancel` leaves the adapter holding the given exception whatever its
   * state, and every task still pending is rejected with that exception.
   */
  lemma CancelRejectsPending(ad: Adapter, e: Exception)
    requires Inv(ad)
    ensures Cancel(ad, e).state == Errored(e)
    ensures ad.state.Open? ==>
      Cancel(ad, e).settled == ad.settled + Rejections(Pending(ad.state.active), e)
    ensures Cancel(Cancel(ad, e), e) == Cancel(ad, e)
  {
  }

  /** A new adapter is active and idle with nothing pending or settled: the base case of `Inv`. */
  lemma InvInitial()
    ensures Inv(FreshAdapter)
    ensures FreshAdapter.state.Open? && Pending(FreshAdapter.state.active) == [] && FreshAdapter.settled == []
  {
  }

  /**
   * `shutdown` of an active adapter leaves it closed and rejects every
   * pending task, the in-flight one first, with DISCONNECTED "Stream was
   * shut down."; a second `shutdown` changes nothing.
   */
  lemma ShutdownRejectsPending(ad: Adapter)
    requires Inv(ad)
    ensures ad.state.Open? ==>
      Shutdown(ad) == Adapter(Closed, ad.settled + Rejections(Pending(ad.state.active), ShutdownException), ad.nextId)
    ensures Shutdown(Shutdown(ad)) == Shutdown(ad)
    ensures Inv(Shutdown(ad))
  {
  }

  /**
   * Once the close task, queued last, has run, the queue is drained: the
   * close task is fulfilled with 0, and its continuation leaves the adapter
   * `Closed` without settling anything further.
   */
  lemma CloseCompletes(ad: Adapter, id: nat)
    requires Inv(ad) && ad.state.Open?
    requires ad.state.active.inFlight == Some(Task(id, CloseTask)) && ad.state.active.queue == []
    ensures var done := TaskDone(ad, Produced(0));
      && done.settled == ad.settled + [Fulfilled(id, 0)]
      && done.state.Open? && Pending(done.state.active) == []
      && OnCloseFulfilled(done) == Adapter(Closed, done.settled, ad.nextId)
  {
    var done := TaskDone(ad, Produced(0));
    assert Pending(done.state.active) == [];
    assert Rejections([], DroppedException) == [];
    assert done.settled + [] == done.settled;
  }

  /** Canceling an `Active` twice settles nothing the second time and changes nothing. */
  lemma CancelActiveIdempotent(a: Active, e: Exception, e2: Exception)
    ensures CancelActive(CancelActive(a, e).0, e2) == (CancelActive(a, e).0, [])
  {
  }

  /**
   * `tryTee` succeeds only on an active adapter with no close pending, `run()`
   * idle and the queue empty, and then leaves the adapter closed without
   * settling anything; a closed adapter answers "none".
   */
  lemma TeeRules(ad: Adapter, sourceTees: bool)
    requires Inv(ad)
    ensures TryTee(ad, sourceTees).1 == Teed <==>
      && ad.state.Open?
      && !ad.state.active.closePending && !ad.state.active.running && ad.state.active.queue == []
      && sourceTees
    ensures TryTee(ad, sourceTees).1 == Teed ==>
      TryTee(ad, sourceTees).0 == Adapter(Closed, ad.settled, ad.nextId)
    ensures ad.state.Closed? ==> TryTee(ad, sourceTees) == (ad, NoTee)
    ensures ad.state.Errored? ==> TryTee(ad, sourceTees) == (ad, TeeThrew(KjError(ad.state.error)))
    ensures ad.state.Open? && (ad.state.active.closePending || ad.state.active.running || ad.state.active.queue != []) ==>
      TryTee(ad, sourceTees) == (ad, TeeThrew(PlainError))
    ensures TryTee(ad, sourceTees).1 != Teed ==> TryTee(ad, sourceTees).0 == ad
  {
    if ad.state.Open? {
      var a := ad.state.active;
      if !a.closePending && !a.running && a.queue == [] && sourceTees {
        assert Pending(a) == [];
        assert Rejections([], DroppedException) == [];
        assert ad.settled + [] == ad.settled;
      }
    }
  }
}
