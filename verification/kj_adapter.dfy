/**
 * `ReadableStreamSourceKjAdapter`: exposes a JavaScript `ReadableStream` to KJ
 * as a byte source.  The adapter is `Active`, `Closed` or holds the exception
 * it was canceled with.  While active it keeps the bytes of a chunk that did
 * not fit the previous read (`leftOver`), allows one read at a time, and
 * remembers when the previous read came back short, which means the stream
 * has ended.
 *
 * A read has three phases.  `TryRead` is the synchronous part: it answers
 * from the left-over bytes, or starts a `ReadContext`.  `ReadInternal` is the
 * JavaScript promise chain that pulls chunks from the stream's reader into
 * the context; the chunks the reader yields are a parameter.  `FinishRead` and
 * `FailRead` are the continuations back in the adapter.
 *
 * Two defects of `tryReadImpl` are modelled both as written and corrected,
 * selected by `Build`; the corrected build is the model proper.
 */
module KjSourceAdapter {
  import opened Wrappers
  import opened KjTypes

  /** The `Active` struct.  `leftOver` is the unconsumed view of the stashed chunk. */
  datatype Active = Active(
    leftOver: seq<Byte>,
    readPending: bool,
    previousReadWasLast: bool,
    pendingCancel: Option<Exception>,
    canceled: bool)

  const FreshActive := Active([], false, false, None, false)

  datatype State = Open(active: Active) | Closed | Errored(error: Exception)

  /**
   * The adapter; the exception its stream's reader was canceled with, if any;
   * and the reason the `Active`'s canceler was canceled with, if it was.  A
   * read in flight at that moment rejects with that reason, whatever later
   * cancels store in the state.
   */
  datatype Adapter = Adapter(state: State, readerCanceledWith: Option<Exception>, cancelerReason: Option<Exception>)

  const FreshAdapter := Adapter(Open(FreshActive), None, None)

  /** The exception the `Active` destructor cancels with. */
  const DestroyedException := Exception(Disconnected, "ReadableStreamSourceKjAdapter is canceled.")

  /** What `KJ_REQUIRE(!readPending, ...)` throws. */
  const ConcurrentReadError := Exception(Failed, "Cannot have multiple concurrent reads.")

  /** The JavaScript `TypeError` for a chunk that is not bytes, as KJ receives it. */
  const NonBytesError := Exception(Failed,
    "jsg.TypeError: ReadableStream provided a non-bytes value. Only ArrayBuffer, ArrayBufferView, or string are supported.")

  /** Which `tryReadImpl` to run: the one in the repository, or the repaired one. */
  datatype Build = AsWritten | Corrected

  // ---------------------------------------------------------------------------
  // Cancel
  // ---------------------------------------------------------------------------

  /**
   * `Active::cancel`: a no-op the second time.  The first time it cancels the
   * reader with the reason and drops the left-over bytes, unless the previous
   * read was the last, in which case the reader is already gone.  The second
   * component is the reason the reader is canceled with by this call.
   */
  function CancelActive(a: Active, e: Exception): (r: (Active, Option<Exception>))
    ensures r.0.canceled
    ensures a.canceled ==> r == (a, None)
    ensures r.1.Some? <==> !a.canceled && !a.previousReadWasLast
    ensures r.1.Some? ==> r.1 == Some(e) && r.0.leftOver == []
    ensures r.0.previousReadWasLast == a.previousReadWasLast
  {
    if a.canceled then (a, None)
    else if a.previousReadWasLast then (a.(canceled := true), None)
    else (a.(canceled := true, leftOver := []), Some(e))
  }

  /**
   * Leave the `Open` state for `next`, canceling the `Active` with `reason`:
   * the reader may be canceled, and the first cancel fires the canceler.
   */
  function Release(ad: Adapter, a: Active, reason: Exception, next: State): Adapter {
    var (_, reader) := CancelActive(a, reason);
    Adapter(next,
            if reader.Some? then reader else ad.readerCanceledWith,
            if a.canceled then ad.cancelerReason else Some(reason))
  }

  /** Replacing the state destroys the `Active`, whose destructor cancels it. */
  function Retire(ad: Adapter, next: State): Adapter {
    match ad.state
    case Open(a) => Release(ad, a, DestroyedException, next)
    case _ => ad.(state := next)
  }

  /** `cancel(reason)`: cancel the `Active` if any; the state becomes the reason. */
  function Cancel(ad: Adapter, e: Exception): Adapter {
    match ad.state
    case Open(a) => Release(ad, a, e, Errored(e))
    case _ => ad.(state := Errored(e))
  }

  // ---------------------------------------------------------------------------
  // The synchronous part of a read
  // ---------------------------------------------------------------------------

  /**
   * A read in progress: the bytes written to the caller's buffer so far, the
   * room left in it, the count `tryRead` will report, the clamped minimum,
   * and the tail of a chunk that did not fit.
   */
  datatype ReadContext = ReadContext(
    filled: seq<Byte>,
    room: nat,
    totalRead: nat,
    minBytes: nat,
    leftOver: Option<seq<Byte>>)

  datatype ReadStart = Done(bytes: seq<Byte>) | Threw(error: Exception) | Started(context: ReadContext)

  /** `tryRead` clamps the minimum to `[1, maxBytes]`. */
  function ClampMin(minBytes: nat, maxBytes: nat): nat {
    Min(maxBytes, Max(minBytes, 1))
  }

  /** A read answered synchronously: the corrected build ends it here. */
  function EndSync(a: Active, build: Build): Active {
    if build == Corrected then a.(readPending := false) else a
  }

  /**
   * `tryReadImpl`: serve the read from the left-over bytes when they fill the
   * buffer or meet the minimum; otherwise copy them to the front of the buffer
   * and start reading from the stream into the rest.
   */
  function TryReadImpl(a: Active, dest: nat, minBytes: nat, build: Build): (r: (Active, ReadStart))
    requires dest > 0 && 1 <= minBytes <= dest
    ensures r.1.Done? ==> 0 < |r.1.bytes| <= dest && |r.1.bytes| >= minBytes && r.1.bytes + r.0.leftOver == a.leftOver
    ensures r.1.Started? ==>
      var c := r.1.context;
      && r.0.leftOver == [] && c.filled == a.leftOver && c.leftOver.None?
      && |c.filled| + c.room == dest && c.room > 0 && c.minBytes == minBytes
      && (build == Corrected ==> c.totalRead == |c.filled|)
      && (build == AsWritten ==> c.totalRead == 0)
    ensures !r.1.Threw?
    ensures r.0.readPending == (a.readPending && (build == AsWritten || r.1.Started?))
    ensures r.0.previousReadWasLast == a.previousReadWasLast && r.0.pendingCancel == a.pendingCancel
    ensures r.0.canceled == a.canceled
  {
    if |a.leftOver| > 0 then
      if |a.leftOver| >= dest then
        assert a.leftOver[..dest] + a.leftOver[dest..] == a.leftOver;
        (EndSync(a.(leftOver := a.leftOver[dest..]), build), Done(a.leftOver[..dest]))
      else
        var size := |a.leftOver|;
        var drained := a.(leftOver := []);
        if size >= minBytes then
          assert a.leftOver + [] == a.leftOver;
          (EndSync(drained, build), Done(a.leftOver))
        else
          (drained, Started(ReadContext(a.leftOver, dest - size, if build == Corrected then size else 0, minBytes, None)))
    else (a, Started(ReadContext([], dest, 0, minBytes, None)))
  }

  /**
   * `tryRead(buffer, minBytes, maxBytes)`.  An empty buffer reads nothing in
   * any state.  An active adapter refuses a second concurrent read, turns a
   * previous short read into `Closed` and a recorded failure into that error,
   * and otherwise marks a read pending and runs `tryReadImpl`.
   */
  function TryRead(ad: Adapter, minBytes: nat, maxBytes: nat, build: Build): (r: (Adapter, ReadStart))
    ensures r.1.Started? ==>
      var c := r.1.context;
      && ad.state.Open? && r.0.state.Open? && r.0.state.active.readPending
      && c.filled == ad.state.active.leftOver && c.leftOver.None?
      && c.room > 0 && |c.filled| + c.room == maxBytes
      && c.totalRead <= |c.filled| && c.minBytes == ClampMin(minBytes, maxBytes)
  {
    if maxBytes == 0 then (ad, Done([]))
    else
      var m := ClampMin(minBytes, maxBytes);
      match ad.state
      case Open(a) =>
        if a.readPending then (ad, Threw(ConcurrentReadError))
        else if a.previousReadWasLast then (Retire(ad, Closed), Done([]))
        else if a.pendingCancel.Some? then (Retire(ad, Errored(a.pendingCancel.value)), Threw(a.pendingCancel.value))
        else
          var (a', start) := TryReadImpl(a.(readPending := true), maxBytes, m, build);
          (ad.(state := Open(a')), start)
      case Closed => (ad, Done([]))
      case Errored(e) => (ad, Threw(e))
  }

  // ---------------------------------------------------------------------------
  // Pulling chunks from the reader
  // ---------------------------------------------------------------------------

  /**
   * What one `reader.read()` yields: a chunk of bytes (an `ArrayBuffer`, a
   * view, or a string taken as its bytes), the end of the stream (`done`, or
   * no value), a value that is not bytes, or a rejection.
   */
  datatype Pull = Chunk(data: seq<Byte>) | StreamDone | NonBytes | ReadFailed(error: Exception)

  /** The bytes a run of pulls carries. */
  function Flatten(pulls: seq<Pull>): seq<Byte> {
    if |pulls| == 0 then []
    else (if pulls[0].Chunk? then pulls[0].data else []) + Flatten(pulls[1..])
  }

  /**
   * Where `readInternal` stopped: the read completed after `used` pulls, it
   * was aborted at pull `used` (having canceled the reader itself when the value was
   * not bytes), or it is still waiting for the reader.
   */
  datatype ReadProgress =
    | Finished(context: ReadContext, used: nat)
    | Aborted(error: Exception, used: nat, readerCanceled: bool)
    | Waiting(context: ReadContext)

  /** Copy a chunk that fits into the buffer. */
  function Fill(c: ReadContext, data: seq<Byte>): ReadContext
    requires |data| <= c.room
  {
    c.(filled := c.filled + data, room := c.room - |data|, totalRead := c.totalRead + |data|)
  }

  /**
   * `readInternal`: copy each chunk into the buffer.  A chunk that fills the
   * buffer exactly completes the read; one that overflows it completes the
   * read and leaves its tail as left-over bytes; a smaller one completes the
   * read only once the minimum is met and fewer than 1024 bytes of room
   * remain, and otherwise the next chunk is pulled.  The end of the stream
   * completes the read with whatever was copied.
   */
  function ReadInternal(c: ReadContext, pulls: seq<Pull>): ReadProgress
    decreases |pulls|
  {
    if |pulls| == 0 then Waiting(c)
    else
      match pulls[0]
      case StreamDone => Finished(c, 1)
      case NonBytes => Aborted(NonBytesError, 1, true)
      case ReadFailed(e) => Aborted(e, 1, false)
      case Chunk(data) =>
        if |data| == c.room then Finished(Fill(c, data), 1)
        else if |data| < c.room then
          var c' := Fill(c, data);
          if c'.totalRead >= c'.minBytes && c'.room < 1024 then Finished(c', 1)
          else
            match ReadInternal(c', pulls[1..])
            case Finished(c'', used) => Finished(c'', used + 1)
            case Aborted(e, used, rc) => Aborted(e, used + 1, rc)
            case Waiting(c'') => Waiting(c'')
        else
          Finished(c.(filled := c.filled + data[..c.room], totalRead := c.totalRead + c.room, room := 0,
                      leftOver := Some(data[c.room..])), 1)
  }

  // ---------------------------------------------------------------------------
  // Back in the adapter
  // ---------------------------------------------------------------------------

  /**
   * A read whose promise was canceled because the `Active` went away: it
   * rejects with the reason the canceler fired with.  The first cancel of
   * an active adapter records it (`CancelRules`); the fallback is never
   * taken by an adapter that keeps `Inv` (`CanceledReadHasReason`).
   */
  function CanceledRead(ad: Adapter): Exception
    requires !ad.state.Open?
  {
    match ad.cancelerReason
    case Some(e) => e
    case None => DestroyedException
  }

  /**
   * The continuation of a completed read: stash the overflow, end the read,
   * and when it came back short of the minimum note that the stream ended and
   * drop the left-over bytes.  It reports the context's count.
   */
  function FinishRead(ad: Adapter, c: ReadContext): (r: (Adapter, Result<nat, Exception>))
    ensures ad.state.Open? <==> r.1.Ok?
    ensures r.1.Ok? ==> r.1.value == c.totalRead && r.0.state.Open? && !r.0.state.active.readPending
    ensures r.1.Ok? ==> (r.0.state.active.previousReadWasLast <==>
                          ad.state.active.previousReadWasLast || c.totalRead < c.minBytes)
    ensures !ad.state.Open? ==> r == (ad, Err(CanceledRead(ad)))
  {
    match ad.state
    case Open(a) =>
      var stashed := a.(leftOver := if c.leftOver.Some? then c.leftOver.value else a.leftOver, readPending := false);
      var a' := if c.totalRead < c.minBytes then stashed.(previousReadWasLast := true, leftOver := []) else stashed;
      (ad.(state := Open(a')), Ok(c.totalRead))
    case _ => (ad, Err(CanceledRead(ad)))
  }

  /** The continuation of a failed read: end the read and record the failure for the next one. */
  function FailRead(ad: Adapter, e: Exception): (r: (Adapter, Exception))
    ensures ad.state.Open? ==> r.1 == e && r.0.state == Open(ad.state.active.(readPending := false, pendingCancel := Some(e)))
    ensures !ad.state.Open? ==> r == (ad, CanceledRead(ad))
  {
    match ad.state
    case Open(a) => (ad.(state := Open(a.(readPending := false, pendingCancel := Some(e)))), e)
    case _ => (ad, CanceledRead(ad))
  }

  datatype ReadOutcome = Delivered(bytes: seq<Byte>, pullsUsed: nat) | Rejected(error: Exception) | InProgress

  /**
   * One whole `tryRead`, against the reader yielding `pulls`, with the adapter
   * left alone while the read is in progress.  The caller sees the first
   * `count` bytes of its buffer.
   */
  function ReadThrough(ad: Adapter, minBytes: nat, maxBytes: nat, pulls: seq<Pull>, build: Build): (Adapter, ReadOutcome)
  {
    var (ad1, start) := TryRead(ad, minBytes, maxBytes, build);
    match start
    case Done(bytes) => (ad1, Delivered(bytes, 0))
    case Threw(e) => (ad1, Rejected(e))
    case Started(c) =>
      match ReadInternal(c, pulls)
      case Waiting(_) => (ad1, InProgress)
      case Aborted(e, _, readerCanceled) =>
        var ad2 := if readerCanceled then ad1.(readerCanceledWith := Some(e)) else ad1;
        (FailRead(ad2, e).0, Rejected(FailRead(ad2, e).1))
      case Finished(c', used) =>
        var (ad2, count) := FinishRead(ad1, c');
        assert count.Ok? ==> count.value == c'.totalRead;
        match count
        case Ok(n) =>
          ReadInternalFinished(c, pulls);
          (ad2, Delivered(c'.filled[..n], used))
        case Err(e) => (ad2, Rejected(e))
  }

  // ---------------------------------------------------------------------------
  // Properties
  // ---------------------------------------------------------------------------

  /** The bytes a completed read copied plus its stashed tail. */
  function Copied(c: ReadContext): seq<Byte> {
    c.filled + (if c.leftOver.Some? then c.leftOver.value else [])
  }

  /**
   * `readInternal` neither loses nor invents bytes: what a completed read
   * copied plus the stashed tail is exactly what the consumed chunks carried,
   * the room it used is what it counted, and it completes with room to spare
   * only at the end of the stream or once the minimum is met with less than
   * 1024 bytes of room.
   */
  lemma ReadInternalFinished(c: ReadContext, pulls: seq<Pull>)
    requires c.leftOver.None? && c.room > 0
    requires ReadInternal(c, pulls).Finished?
    ensures var (c', used) := (ReadInternal(c, pulls).context, ReadInternal(c, pulls).used);
      && 0 < used <= |pulls|
      && Copied(c') == c.filled + Flatten(pulls[..used])
      && |c'.filled| + c'.room == |c.filled| + c.room
      && c'.totalRead + |c.filled| == c.totalRead + |c'.filled|
      && c'.minBytes == c.minBytes
      && (c'.leftOver.Some? ==> c'.room == 0 && |c'.leftOver.value| > 0)
      && (c'.room > 0 ==> pulls[used - 1] == StreamDone || (c'.totalRead >= c'.minBytes && c'.room < 1024))
  {
    FinishedCopies(c, pulls);
    FinishedStops(c, pulls);
  }

  /** The byte accounting half of `ReadInternalFinished`. */
  lemma {:induction false} FinishedCopies(c: ReadContext, pulls: seq<Pull>)
    requires c.leftOver.None? && c.room > 0
    requires ReadInternal(c, pulls).Finished?
    ensures var (c', used) := (ReadInternal(c, pulls).context, ReadInternal(c, pulls).used);
      && 0 < used <= |pulls|
      && Copied(c') == c.filled + Flatten(pulls[..used])
      && |c'.filled| + c'.room == |c.filled| + c.room
      && c'.totalRead + |c.filled| == c.totalRead + |c'.filled|
      && c'.minBytes == c.minBytes
    decreases |pulls|
  {
    assert pulls[..1] == [pulls[0]];
    assert Flatten([pulls[0]]) == (if pulls[0].Chunk? then pulls[0].data else []) + Flatten([]);
    match pulls[0]
    case StreamDone =>
    case Chunk(data) =>
      if |data| < c.room {
        var c1 := Fill(c, data);
        if !(c1.totalRead >= c1.minBytes && c1.room < 1024) {
          FinishedCopies(c1, pulls[1..]);
          var used := ReadInternal(c1, pulls[1..]).used;
          assert pulls[..used + 1] == [pulls[0]] + pulls[1..][..used];
          FlattenAppend([pulls[0]], pulls[1..][..used]);
        }
      } else if |data| > c.room {
        assert data[..c.room] + data[c.room..] == data;
      }
  }

  /** The stopping-rule half of `ReadInternalFinished`. */
  lemma {:induction false} FinishedStops(c: ReadContext, pulls: seq<Pull>)
    requires c.room > 0
    requires ReadInternal(c, pulls).Finished?
    ensures var (c', used) := (ReadInternal(c, pulls).context, ReadInternal(c, pulls).used);
      && 0 < used <= |pulls|
      && (c.leftOver.None? && c'.leftOver.Some? ==> c'.room == 0 && |c'.leftOver.value| > 0)
      && (c'.room > 0 ==> pulls[used - 1] == StreamDone || (c'.totalRead >= c'.minBytes && c'.room < 1024))
    decreases |pulls|
  {
    match pulls[0]
    case StreamDone =>
    case Chunk(data) =>
      if |data| < c.room {
        var c1 := Fill(c, data);
        if !(c1.totalRead >= c1.minBytes && c1.room < 1024) {
          FinishedStops(c1, pulls[1..]);
          var used := ReadInternal(c1, pulls[1..]).used;
          assert pulls[used] == pulls[1..][used - 1];
        }
      }
  }

  /**
   * `readInternal` is aborted only by a rejected pull, which it passes on, or
   * by a value that is not bytes, for which it cancels the reader itself.
   */
  lemma {:induction false} ReadInternalAborted(c: ReadContext, pulls: seq<Pull>)
    requires ReadInternal(c, pulls).Aborted?
    ensures var r := ReadInternal(c, pulls);
      && 0 < r.used <= |pulls|
      && (if r.readerCanceled then pulls[r.used - 1] == NonBytes && r.error == NonBytesError
          else pulls[r.used - 1] == ReadFailed(r.error))
    decreases |pulls|
  {
    if pulls[0].Chunk? {
      var c1 := Fill(c, pulls[0].data);
      ReadInternalAborted(c1, pulls[1..]);
      assert pulls[ReadInternal(c, pulls).used - 1] == pulls[1..][ReadInternal(c1, pulls[1..]).used - 1];
    }
  }

  /**
   * A read still waiting for the reader has copied every chunk it was given
   * into the buffer, still has room, and has not met the condition to stop.
   */
  lemma {:induction false} ReadInternalWaiting(c: ReadContext, pulls: seq<Pull>)
    requires c.leftOver.None? && c.room > 0
    requires ReadInternal(c, pulls).Waiting?
    ensures var c' := ReadInternal(c, pulls).context;
      && c'.filled == c.filled + Flatten(pulls)
      && |c'.filled| + c'.room == |c.filled| + c.room && c'.room > 0
      && c'.totalRead + |c.filled| == c.totalRead + |c'.filled|
      && c'.minBytes == c.minBytes && c'.leftOver.None?
      && (|pulls| > 0 ==> c'.totalRead < c'.minBytes || c'.room >= 1024)
    decreases |pulls|
  {
    if |pulls| > 0 {
      var data := pulls[0].data;
      var c1 := Fill(c, data);
      ReadInternalWaiting(c1, pulls[1..]);
      if |pulls| == 1 {
        assert Flatten(pulls[1..]) == [];
      }
    }
  }

  lemma {:induction false} FlattenAppend(p: seq<Pull>, q: seq<Pull>)
    ensures Flatten(p + q) == Flatten(p) + Flatten(q)
    decreases |p|
  {
    if |p| > 0 {
      assert (p + q)[1..] == p[1..] + q;
      FlattenAppend(p[1..], q);
    } else {
      assert p + q == q;
    }
  }

  /**
   * The representation invariant every reachable adapter keeps: an adapter
   * still active has not canceled its `Active`, and one that left the active
   * state did so through the first cancel, which recorded the canceler's reason.
   */
  ghost predicate Inv(ad: Adapter) {
    && (ad.state.Open? ==> !ad.state.active.canceled)
    && (!ad.state.Open? ==> ad.cancelerReason.Some?)
  }

  /** A new adapter keeps the invariant and is ready for its first read. */
  lemma InvInitial()
    ensures Inv(FreshAdapter) && Ready(FreshAdapter)
  {
  }

  /** Every operation on the adapter keeps the invariant. */
  lemma InvPreserved(ad: Adapter, e: Exception, c: ReadContext, minBytes: nat, maxBytes: nat, pulls: seq<Pull>, build: Build)
    requires Inv(ad)
    ensures Inv(Cancel(ad, e))
    ensures Inv(TryRead(ad, minBytes, maxBytes, build).0)
    ensures Inv(FinishRead(ad, c).0)
    ensures Inv(FailRead(ad, e).0)
    ensures Inv(ReadThrough(ad, minBytes, maxBytes, pulls, build).0)
  {
  }

  /**
   * Under the invariant a read the cancel cut short always rejects with the
   * reason the first cancel recorded, never with the fallback.
   */
  lemma CanceledReadHasReason(ad: Adapter)
    requires Inv(ad) && !ad.state.Open?
    ensures ad.cancelerReason == Some(CanceledRead(ad))
  {
  }

  /** An adapter that can start a read: active, none pending, the stream not ended, no recorded failure. */
  ghost predicate Ready(ad: Adapter) {
    && ad.state.Open?
    && !ad.state.active.readPending
    && !ad.state.active.previousReadWasLast
    && ad.state.active.pendingCancel.None?
  }

  /**
   * A read on a ready adapter delivers the stream's bytes in order with
   * nothing lost: the delivered bytes followed by the new left-over bytes are
   * the old left-over bytes followed by every chunk the read consumed.  It
   * delivers at most the buffer, and less than the clamped minimum only when
   * the stream ended, which is then remembered.  A read that completes or
   * fails is no longer pending; a failure is recorded for the next read.
   */
  lemma ReadDeliversInOrder(ad: Adapter, minBytes: nat, maxBytes: nat, pulls: seq<Pull>)
    requires Ready(ad) && maxBytes > 0
    ensures var (ad', out) := ReadThrough(ad, minBytes, maxBytes, pulls, Corrected);
      && ad'.state.Open?
      && (out.Delivered? ==>
           && out.pullsUsed <= |pulls|
           && out.bytes + ad'.state.active.leftOver == ad.state.active.leftOver + Flatten(pulls[..out.pullsUsed])
           && |out.bytes| <= maxBytes
           && !ad'.state.active.readPending
           && (ad'.state.active.previousReadWasLast <==> |out.bytes| < ClampMin(minBytes, maxBytes))
           && (|out.bytes| < ClampMin(minBytes, maxBytes) ==>
                 out.pullsUsed > 0 && pulls[out.pullsUsed - 1] == StreamDone))
      && (out.Rejected? ==>
           !ad'.state.active.readPending && ad'.state.active.pendingCancel == Some(out.error))
      && (out.InProgress? ==> ad'.state.active.readPending)
  {
    var a := ad.state.active;
    var m := ClampMin(minBytes, maxBytes);
    var (ad1, start) := TryRead(ad, minBytes, maxBytes, Corrected);
    if start.Done? {
      assert Flatten(pulls[..0]) == [];
    }
    if start.Started? {
      var c := start.context;
      if ReadInternal(c, pulls).Finished? {
        ReadInternalFinished(c, pulls);
      }
      assert a.leftOver == c.filled;
    }
  }

  /**
   * The repository's `tryReadImpl` returns from the left-over bytes without
   * clearing `readPending`, so the next read fails as if it were concurrent.
   */
  lemma StaleReadPendingAsWritten()
    ensures var (ad1, out) := ReadThrough(WithLeftOver([1, 2, 3, 4]), 1, 4, [], AsWritten);
      && out == Delivered([1, 2, 3, 4], 0)
      && TryRead(ad1, 1, 4, AsWritten) == (ad1, Threw(ConcurrentReadError))
  {
    var ad := WithLeftOver([1, 2, 3, 4]);
    var s: seq<Byte> := [1, 2, 3, 4];
    assert s[..4] == [1, 2, 3, 4];
  }

  /** The corrected build answers the same read and accepts the next one. */
  lemma LeftOverReadThenReadCorrected()
    ensures var (ad1, out) := ReadThrough(WithLeftOver([1, 2, 3, 4]), 1, 4, [], Corrected);
      && out == Delivered([1, 2, 3, 4], 0)
      && Ready(ad1)
      && TryRead(ad1, 1, 4, Corrected).1.Started?
  {
    var ad := WithLeftOver([1, 2, 3, 4]);
    var s: seq<Byte> := [1, 2, 3, 4];
    assert s[..4] == [1, 2, 3, 4];
  }

  /** An active adapter holding `leftOver` from an earlier chunk. */
  function WithLeftOver(leftOver: seq<Byte>): (ad: Adapter)
    ensures Ready(ad) && ad.state.active.leftOver == leftOver
  {
    Adapter(Open(FreshActive.(leftOver := leftOver)), None, None)
  }

  /**
   * When the left-over bytes do not meet the minimum, the repository's
   * `tryReadImpl` starts the stream read with a count of 0, so the count it
   * reports leaves out the left-over bytes it already copied: of eight bytes
   * written, the caller is told of five, and the last three are lost.
   */
  lemma LostBytesAsWritten()
    ensures var (ad1, out) := ReadThrough(WithLeftOver([1, 2, 3]), 4, 8, [Chunk([4, 5, 6, 7, 8])], AsWritten);
      && out == Delivered([1, 2, 3, 4, 5], 1)
      && ad1.state.Open? && ad1.state.active.leftOver == []
      && out.bytes + ad1.state.active.leftOver != [1, 2, 3] + Flatten([Chunk([4, 5, 6, 7, 8])])
  {
    var c := ReadContext([1, 2, 3], 5, 0, 4, None);
    var pulls := [Chunk([4, 5, 6, 7, 8])];
    assert ReadInternal(c, pulls) == Finished(Fill(c, [4, 5, 6, 7, 8]), 1);
    assert Fill(c, [4, 5, 6, 7, 8]).filled == [1, 2, 3, 4, 5, 6, 7, 8];
    var s: seq<Byte> := [1, 2, 3, 4, 5, 6, 7, 8];
    assert s[..5] == [1, 2, 3, 4, 5];
    assert Flatten(pulls) == [4, 5, 6, 7, 8] by {
      assert Flatten(pulls[1..]) == [];
    }
    assert |[1, 2, 3] + Flatten(pulls)| == 8;
  }

  /**
   * The same undercount makes a read that overflows the buffer look short:
   * the repository's build marks the stream ended and drops the overflow,
   * though the stream has not ended.
   */
  lemma PrematureEndAsWritten()
    ensures var (ad1, out) := ReadThrough(WithLeftOver([1, 2, 3]), 7, 8, [Chunk([4, 5, 6, 7, 8, 9, 10])], AsWritten);
      && out == Delivered([1, 2, 3, 4, 5], 1)
      && ad1.state.Open? && ad1.state.active.previousReadWasLast && ad1.state.active.leftOver == []
      && TryRead(ad1, 1, 8, AsWritten) == (Retire(ad1, Closed), Done([]))
  {
    var c := ReadContext([1, 2, 3], 5, 0, 7, None);
    var data: seq<Byte> := [4, 5, 6, 7, 8, 9, 10];
    var c1 := c.(filled := c.filled + data[..5], totalRead := 5, room := 0, leftOver := Some(data[5..]));
    assert ReadInternal(c, [Chunk(data)]) == Finished(c1, 1);
    assert c1.filled == [1, 2, 3, 4, 5, 6, 7, 8];
    var s: seq<Byte> := [1, 2, 3, 4, 5, 6, 7, 8];
    assert s[..5] == [1, 2, 3, 4, 5];
  }

  /** The corrected build reports all eight bytes, and keeps the overflow for the next read. */
  lemma NoLostBytesCorrected()
    ensures var (ad1, out) := ReadThrough(WithLeftOver([1, 2, 3]), 4, 8, [Chunk([4, 5, 6, 7, 8])], Corrected);
      && out == Delivered([1, 2, 3, 4, 5, 6, 7, 8], 1) && Ready(ad1)
    ensures var (ad1, out) := ReadThrough(WithLeftOver([1, 2, 3]), 7, 8, [Chunk([4, 5, 6, 7, 8, 9, 10])], Corrected);
      && out == Delivered([1, 2, 3, 4, 5, 6, 7, 8], 1) && Ready(ad1) && ad1.state.active.leftOver == [9, 10]
  {
    var c := ReadContext([1, 2, 3], 5, 3, 4, None);
    assert ReadInternal(c, [Chunk([4, 5, 6, 7, 8])]) == Finished(Fill(c, [4, 5, 6, 7, 8]), 1);
    assert Fill(c, [4, 5, 6, 7, 8]).filled == [1, 2, 3, 4, 5, 6, 7, 8];
    var s: seq<Byte> := [1, 2, 3, 4, 5, 6, 7, 8];
    assert s[..8] == [1, 2, 3, 4, 5, 6, 7, 8];
    var c' := ReadContext([1, 2, 3], 5, 3, 7, None);
    var data: seq<Byte> := [4, 5, 6, 7, 8, 9, 10];
    var c1 := c'.(filled := c'.filled + data[..5], totalRead := 8, room := 0, leftOver := Some(data[5..]));
    assert ReadInternal(c', [Chunk(data)]) == Finished(c1, 1);
    assert c1.filled == [1, 2, 3, 4, 5, 6, 7, 8];
    assert data[5..] == [9, 10];
  }

  /**
   * What `tryRead` does before any byte moves: an empty buffer reads nothing;
   * a closed adapter reads end-of-stream and an errored one rethrows, neither
   * changing; an active one refuses a concurrent read, closes after a short
   * read without canceling the reader, and surfaces a recorded failure by
   * moving to it, which drops the `Active` and so cancels the reader.
   */
  lemma TryReadByState(ad: Adapter, minBytes: nat, maxBytes: nat, build: Build)
    ensures maxBytes == 0 ==> TryRead(ad, minBytes, maxBytes, build) == (ad, Done([]))
    ensures maxBytes > 0 && ad.state.Closed? ==> TryRead(ad, minBytes, maxBytes, build) == (ad, Done([]))
    ensures maxBytes > 0 && ad.state.Errored? ==>
      TryRead(ad, minBytes, maxBytes, build) == (ad, Threw(ad.state.error))
    ensures maxBytes > 0 && ad.state.Open? && ad.state.active.readPending ==>
      TryRead(ad, minBytes, maxBytes, build) == (ad, Threw(ConcurrentReadError))
    ensures maxBytes > 0 && ad.state.Open? && !ad.state.active.readPending && ad.state.active.previousReadWasLast ==>
      TryRead(ad, minBytes, maxBytes, build) ==
        (Adapter(Closed, ad.readerCanceledWith,
                 if ad.state.active.canceled then ad.cancelerReason else Some(DestroyedException)), Done([]))
    ensures maxBytes > 0 && ad.state.Open? && !ad.state.active.readPending && !ad.state.active.previousReadWasLast &&
            !ad.state.active.canceled && ad.state.active.pendingCancel.Some? ==>
      var e := ad.state.active.pendingCancel.value;
      TryRead(ad, minBytes, maxBytes, build) ==
        (Adapter(Errored(e), Some(DestroyedException), Some(DestroyedException)), Threw(e))
    ensures maxBytes > 0 && TryRead(ad, minBytes, maxBytes, build).1.Started? ==>
      1 <= TryRead(ad, minBytes, maxBytes, build).1.context.minBytes <= maxBytes
  {
  }

  /**
   * A failed read is reported again by the next read, which moves the adapter
   * to the failure.
   */
  lemma FailureSurfacesOnNextRead(ad: Adapter, e: Exception, minBytes: nat, maxBytes: nat, build: Build)
    requires ad.state.Open? && !ad.state.active.previousReadWasLast
    requires maxBytes > 0
    ensures var ad1 := FailRead(ad, e).0;
      TryRead(ad1, minBytes, maxBytes, build).1 == Threw(e) &&
      TryRead(ad1, minBytes, maxBytes, build).0.state == Errored(e)
  {
  }

  /**
   * `cancel` always leaves the adapter holding the reason.  The reader is
   * canceled with it only by the first cancel of an active adapter whose
   * stream has not ended.  That first cancel also fires the canceler, so a
   * read in progress rejects with its reason; a later cancel changes only the
   * stored state, so such a read still rejects with the first reason, while
   * a new read rethrows the latest one.
   */
  lemma CancelRules(ad: Adapter, e: Exception, e2: Exception, c: ReadContext, minBytes: nat, maxBytes: nat, build: Build)
    ensures Cancel(ad, e).state == Errored(e)
    ensures Cancel(ad, e).readerCanceledWith ==
      if ad.state.Open? && !ad.state.active.canceled && !ad.state.active.previousReadWasLast then Some(e)
      else ad.readerCanceledWith
    ensures Cancel(ad, e).cancelerReason ==
      if ad.state.Open? && !ad.state.active.canceled then Some(e) else ad.cancelerReason
    ensures ad.state.Open? && !ad.state.active.canceled ==>
      && FinishRead(Cancel(ad, e), c) == (Cancel(ad, e), Err(e))
      && FailRead(Cancel(ad, e), e2) == (Cancel(ad, e), e)
      && FinishRead(Cancel(Cancel(ad, e), e2), c).1 == Err(e)
      && FailRead(Cancel(Cancel(ad, e), e2), e2).1 == e
    ensures !ad.state.Open? ==> FinishRead(Cancel(ad, e), c).1 == FinishRead(ad, c).1
    ensures maxBytes > 0 ==> TryRead(Cancel(ad, e), minBytes, maxBytes, build) == (Cancel(ad, e), Threw(e))
    ensures maxBytes > 0 ==> TryRead(Cancel(Cancel(ad, e), e2), minBytes, maxBytes, build).1 == Threw(e2)
    ensures Cancel(Cancel(ad, e), e2) == Cancel(ad, e).(state := Errored(e2))
  {
  }
}
