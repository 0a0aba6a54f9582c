# Tail-span aggregation, stream source adapters and fuzzer edge guards

This project models three small cores of the workerd runtime in Dafny and proves
properties of each model.

1. **The span aggregator of the SQL tail-stream test worker**
   (`src/workerd/api/sql-test-tail.js`), in `tail_spans.dfy` with its lemmas in
   `tail_spans_properties.dfy`.
   - `tailStream` registers one invocation promise and returns a visitor.
   - The visitors fold `spanOpen`, `attributes` and `spanClose` events into one
     shared insertion-ordered `Map`, and resolve their promise on `outcome`.
   - `test` filters out the `jsRpcSession` spans, waits on every invocation
     promise, and deep-compares the result with a list of `{name, closed}` objects.
   - The JavaScript heap is explicit: map entries hold object references, so
     the array `test` builds still sees mutations made while it waits.
2. **The stream source adapters** (`src/workerd/api/streams/readable-source-adapter.c++`).
   - `js_adapter.dfy`, `ReadableStreamSourceJsAdapter`: a FIFO task queue run
     by one `run()` loop, `read` with its `minBytes` rounding, `close`,
     `cancel`, `shutdown` and `tryTee`.
   - `kj_adapter.dfy`, `ReadableStreamSourceKjAdapter`: `tryRead`, the
     left-over bytes carried between reads, the `readInternal` chunk copy, and
     `cancel`.
   - Promises are modelled as task ids and settlements. The chunks a reader
     yields, and how a source call ends, are parameters.
3. **Fuzzilli coverage edge guards** (`src/workerd/api/fuzzilli.c++`), in
   `edge_guards.dfy`: guard numbering, the early returns of guard-section
   initialisation, and setting one bitmap bit per edge hit.

`wrappers.dfy` (`Option`, `Result`) and `kj_types.dfy` (KJ exceptions, bytes)
are shared vocabulary.

## Model

| member | source | states |
|---|---|---|
| TailSpans.Collect | src/workerd/api/sql-test-tail.js:11-13 | the filtered array throws exactly when some map entry holds `undefined`; otherwise it contains exactly the objects of entries whose name is not `jsRpcSession` |
| TailSpans.Run | src/workerd/api/sql-test-tail.js:2615-2647 | any trace of visitor calls keeps the map well formed (distinct keys, distinct live objects); promises and objects are never removed |
| TailSpanProperties.OpenFresh | src/workerd/api/sql-test-tail.js:2625-2628 | `spanOpen` with a new id appends `{name}` last in insertion order; every other span keeps its position and object |
| TailSpanProperties.OpenExisting | src/workerd/api/sql-test-tail.js:2626-2627 | `spanOpen` with a known id replaces its object with a fresh `{name}` without moving the key, so earlier attributes and `closed` are lost |
| TailSpanProperties.SetAllUntouched | src/workerd/api/sql-test-tail.js:2631-2633 | the attribute loop leaves every key not named by an entry unchanged |
| TailSpanProperties.SetAllLastWins | src/workerd/api/sql-test-tail.js:2631-2633 | after the loop, an own key holds the value of the last entry with that name; `__proto__` is not an own key |
| TailSpanProperties.SetAllSkipsProto | src/workerd/api/sql-test-tail.js:2632 | an entry named `__proto__` reaches the inherited accessor, whose setter ignores primitive values: that key's presence and value are unchanged, and a list of only such entries leaves the object as it was |
| TailSpanProperties.AttributesEffect | src/workerd/api/sql-test-tail.js:2629-2636 | `attributes` writes the entries onto the span's existing object, skipping `__proto__`; key order and all other spans stay as they were |
| TailSpanProperties.AttributeOverwritesField | src/workerd/api/sql-test-tail.js:2632 | an attribute named `name` or `closed` replaces that field, because attributes share the object |
| TailSpanProperties.CloseEffect | src/workerd/api/sql-test-tail.js:2637-2642 | `spanClose` sets `closed` to true on the span's object and changes nothing else |
| TailSpanProperties.CloseIdempotent | src/workerd/api/sql-test-tail.js:2637-2642 | closing twice gives the same state as closing once |
| TailSpanProperties.UnknownSpan | src/workerd/api/sql-test-tail.js:2630-2639 | for an unknown id, `spanClose` and non-empty `attributes` throw a TypeError and change nothing; empty `attributes` stores `undefined` under the id |
| TailSpanProperties.StepResolution | src/workerd/api/sql-test-tail.js:2616-2645 | `tailStream` adds exactly one pending promise; a promise becomes resolved only through an `outcome` sent to its own visitor, and then stays resolved |
| TailSpanProperties.OutcomeIdempotent | src/workerd/api/sql-test-tail.js:2643-2645 | a second `outcome` on a resolved invocation changes nothing |
| TailSpanProperties.StaysPending | src/workerd/api/sql-test-tail.js:2616-2621 | a promise that no step of a trace resolves is still pending after the trace |
| TailSpanProperties.PendingInvocationBlocksTest | src/workerd/api/sql-test-tail.js:2609 | if an invocation that existed when `test` started never sees `outcome`, `test` never passes the barrier |
| TailSpanProperties.IdsOnlyGrow | src/workerd/api/sql-test-tail.js:2623-2647 | no visitor step removes or reorders keys: the old key order is a prefix of the new one |
| TailSpanProperties.OpenOrder | src/workerd/api/sql-test-tail.js:2626-2627 | when every opened span id is new and no `attributes` event is empty, the map's key order equals the order of the `spanOpen` events, however invocations interleave |
| TailSpanProperties.FromInitial | src/workerd/api/sql-test-tail.js:3-4 | from the module's empty map and empty promise list nothing has been received; when every opened span id is distinct and no `attributes` event is empty, the map's keys are exactly the ids of the `spanOpen` events in trace order |
| TailSpanProperties.CollectAppend | src/workerd/api/sql-test-tail.js:11-13 | the filtered array follows map order: one more map entry at the end leaves the earlier array unchanged and appends that entry's object, unless its name is `jsRpcSession`; a stored `undefined` anywhere still throws |
| TailSpanProperties.OpenAppendsToReceived | src/workerd/api/sql-test-tail.js:11-13 | a newly opened span not named `jsRpcSession` appears last in `test`'s array; earlier elements keep their order |
| TailSpanProperties.RecordMatchesExactly | src/workerd/api/sql-test-tail.js:2610 | a span object deep-equals `{name, closed}` exactly when those are its only two fields and they hold the expected values |
| TailSpanProperties.RunTestPassed | src/workerd/api/sql-test-tail.js:10-2612 | `test` passes exactly when the array builds without throwing, every awaited promise resolves, and the objects after the wait match the expected list position by position |
| TailSpanProperties.LateCloseIsSeen | src/workerd/api/sql-test-tail.js:11-13 | the array `test` builds holds the span objects themselves: a stored span not named `jsRpcSession` is in the array, and a `spanClose` during the wait sets `closed` on that very object |
| TailSpanProperties.ReopenDetachesReceived | src/workerd/api/sql-test-tail.js:2625-2642 | re-opening a known span id stores a new object under it; a later `spanClose` closes the new object and leaves the old one (the one an earlier array holds) unchanged |
| JsSourceAdapter.CancelActive | src/workerd/api/streams/readable-source-adapter.c++:53-67 | the first cancel rejects every pending task with the exception, empties the queue, stops `run()` and releases the source, canceling it only for non-DISCONNECTED exceptions; a later cancel does nothing |
| JsSourceAdapter.Cancel | src/workerd/api/streams/readable-source-adapter.c++:118-123 | the adapter ends holding the exception in any state; an active adapter's pending tasks are settled as rejections |
| JsSourceAdapter.Shutdown | src/workerd/api/streams/readable-source-adapter.c++:129-135 | only an active adapter moves, to Closed, and its `Active` is canceled with DISCONNECTED "Stream was shut down.": every pending task, the in-flight one first, is rejected with it and the next task id is kept; Closed and errored adapters are unchanged |
| JsSourceAdapter.ShutdownRejectsPending | src/workerd/api/streams/readable-source-adapter.c++:129-135 | on a reachable active adapter, `shutdown` leaves it Closed having rejected every pending task with the shutdown exception; a second `shutdown` is a no-op, and the invariant is kept |
| JsSourceAdapter.EnqueueFifo | src/workerd/api/streams/readable-source-adapter.c++:69-77 | a new task goes after every pending task; `run()` starts only when it was not running, and an in-flight task is not disturbed |
| JsSourceAdapter.DrainFifo | src/workerd/api/streams/readable-source-adapter.c++:79-105 | while tasks succeed, `run()` fulfils pending tasks one at a time in FIFO order, each with its own result |
| JsSourceAdapter.DrainStopsAtFailure | src/workerd/api/streams/readable-source-adapter.c++:96-103 | the first failing task is rejected with its own error, earlier tasks are fulfilled, `run()` stops, and later tasks stay queued |
| JsSourceAdapter.InvPreserved | src/workerd/api/streams/readable-source-adapter.c++:30-35 | every adapter operation preserves: running iff a task is in flight, an active adapter is never canceled, and pending task ids are below the next id |
| JsSourceAdapter.InvInitial | src/workerd/api/streams/readable-source-adapter.c++:108-112 | a new adapter is active with a fresh `Active`, nothing pending or settled, and keeps the invariant |
| JsSourceAdapter.MinBytesRoundsUp | src/workerd/api/streams/readable-source-adapter.c++:169-178 | `minBytes` is the least multiple of the element size that is at least the clamped request; it fits a buffer of whole elements and, when the buffer holds an element, is at least one element |
| JsSourceAdapter.ReadByState | src/workerd/api/streams/readable-source-adapter.c++:148-245 | with a close pending, or when Closed, `read` resolves done with nothing queued; when errored it rejects with the stored exception; otherwise it queues one read task behind all pending tasks |
| JsSourceAdapter.ZeroByteReadEndsStream | src/workerd/api/streams/readable-source-adapter.c++:195-209 | a 0-byte read marks the close pending; afterwards reads resolve done without queueing and `close` rejects with a TypeError |
| JsSourceAdapter.CloseRules | src/workerd/api/streams/readable-source-adapter.c++:250-286 | `close` queues its task last; a second `close` rejects with a TypeError and changes nothing; when Closed it resolves, and when errored it rejects |
| JsSourceAdapter.OnCloseFulfilled | src/workerd/api/streams/readable-source-adapter.c++:264-265 | the continuation of a fulfilled close leaves the adapter Closed from any state; an `Active` still held is destroyed, rejecting any task still pending with the destructor's exception |
| JsSourceAdapter.CloseCompletes | src/workerd/api/streams/readable-source-adapter.c++:248-265 | once the close task, queued last, is in flight with nothing behind it, it is fulfilled with 0 and its continuation leaves the adapter Closed without settling anything more |
| JsSourceAdapter.CancelRejectsPending | src/workerd/api/streams/readable-source-adapter.c++:118-123 | cancel ends in the errored state, rejects every pending task with the reason, and canceling again with the same reason changes nothing |
| JsSourceAdapter.CancelActiveIdempotent | src/workerd/api/streams/readable-source-adapter.c++:53-55 | a second `Active::cancel` settles nothing and changes nothing |
| JsSourceAdapter.TeeRules | src/workerd/api/streams/readable-source-adapter.c++:424-453 | `tryTee` succeeds exactly on an idle active adapter (no close pending, not running, queue empty) whose source tees, then leaves it Closed; a closing or busy adapter throws an Error; Closed gives no tee; errored rethrows |
| KjSourceAdapter.CancelActive | src/workerd/api/streams/readable-source-adapter.c++:535-552 | the first cancel cancels the reader with the reason and drops the left-over bytes, unless the previous read was the last; a later cancel does nothing |
| KjSourceAdapter.TryReadImpl | src/workerd/api/streams/readable-source-adapter.c++:716-772 | a read served from left-over bytes returns at least the minimum and at most the buffer, and those bytes plus the remaining left-over are the old left-over bytes; otherwise the left-over bytes go to the front of the buffer and a stream read starts |
| KjSourceAdapter.TryRead | src/workerd/api/streams/readable-source-adapter.c++:837-872 | a started read leaves the adapter active with a read pending; its context starts with the left-over bytes and has the clamped minimum |
| KjSourceAdapter.TryReadByState | src/workerd/api/streams/readable-source-adapter.c++:837-882 | an empty buffer reads 0 in any state. Closed reads 0 and errored rethrows. A concurrent read throws. After a short read the adapter closes without canceling the reader. A recorded failure moves the adapter to that error and rethrows it. The started minimum lies in `[1, maxBytes]` |
| KjSourceAdapter.ReadInternalFinished | src/workerd/api/streams/readable-source-adapter.c++:637-711 | a completed chunk copy loses and invents no bytes: copied bytes plus the stashed tail equal the consumed chunks; the count grows by what was copied; the read stops with room left only at stream end, or when the minimum is met with under 1024 bytes of room |
| KjSourceAdapter.ReadInternalAborted | src/workerd/api/streams/readable-source-adapter.c++:586-622 | a read aborts only on a rejected pull, which it passes on, or on a non-bytes value, for which it cancels the reader with a TypeError |
| KjSourceAdapter.ReadInternalWaiting | src/workerd/api/streams/readable-source-adapter.c++:652-696 | a read still waiting has copied every chunk so far, has room left, and has not yet met the condition to stop |
| KjSourceAdapter.FinishRead | src/workerd/api/streams/readable-source-adapter.c++:783-822 | an active adapter ends the read and reports the context's count, marking the stream ended exactly when the count is below the minimum; once the adapter has been canceled the read rejects with the reason of the first cancel, which the canceler fired with |
| KjSourceAdapter.FailRead | src/workerd/api/streams/readable-source-adapter.c++:824-834 | a failed read ends the pending read and records the failure for the next read; once the adapter has been canceled it rejects with the canceler's reason instead |
| KjSourceAdapter.ReadDeliversInOrder | src/workerd/api/streams/readable-source-adapter.c++:716-872 | in the corrected build (see ## Findings), on a ready adapter, delivered bytes plus new left-over bytes equal old left-over bytes plus every consumed chunk. It delivers at most the buffer, and below the minimum only at stream end, which is then remembered. No read stays pending once it settles |
| KjSourceAdapter.StaleReadPendingAsWritten | src/workerd/api/streams/readable-source-adapter.c++:724-753 | as written, a read served from left-over bytes leaves `readPending` set, so the next `tryRead` throws "Cannot have multiple concurrent reads." |
| KjSourceAdapter.LeftOverReadThenReadCorrected | src/workerd/api/streams/readable-source-adapter.c++:724-753 | with `readPending` cleared, the same read leaves the adapter ready and the next read starts |
| KjSourceAdapter.LostBytesAsWritten | src/workerd/api/streams/readable-source-adapter.c++:737-772 | as written, a read that copies left-over bytes and then pulls from the stream reports a count that excludes the left-over bytes, so the last bytes written are lost |
| KjSourceAdapter.PrematureEndAsWritten | src/workerd/api/streams/readable-source-adapter.c++:766-806 | as written, the same undercount makes a full read look short: the stream is marked ended, the overflow is dropped, and the next read closes the adapter |
| KjSourceAdapter.NoLostBytesCorrected | src/workerd/api/streams/readable-source-adapter.c++:737-772 | counting the left-over bytes, both reads report all eight bytes, and the overflow is kept for the next read |
| KjSourceAdapter.FailureSurfacesOnNextRead | src/workerd/api/streams/readable-source-adapter.c++:824-834 | after a failed read, the next read rethrows the failure and moves the adapter to that error |
| KjSourceAdapter.CancelRules | src/workerd/api/streams/readable-source-adapter.c++:903-908 | cancel always leaves the reason as the state. Only the first cancel of an active, not-ended adapter cancels the reader. The first cancel of an active adapter fires the canceler: a read in progress rejects with that reason, even after a second cancel. New reads rethrow the latest reason. A second cancel changes only the stored state |
| KjSourceAdapter.InvInitial | src/workerd/api/streams/readable-source-adapter.c++:554-558 | a new adapter holds a fresh `Active`, keeps the invariant and can start a read |
| KjSourceAdapter.InvPreserved | src/workerd/api/streams/readable-source-adapter.c++:531-538 | cancel, `tryRead`, the read continuations and a whole read keep the invariant: an active adapter's `Active` is never canceled, and a non-active adapter has recorded the reason its canceler fired with |
| KjSourceAdapter.CanceledReadHasReason | src/workerd/api/streams/readable-source-adapter.c++:536-538 | on a reachable adapter that is no longer active, a read cut short by the canceler rejects with the reason the first cancel fired it with |
| EdgeGuards.ResetEdgeguards | src/workerd/api/fuzzilli.c++:31-34 | the first `min(section size, MAX_EDGES)` guards get 1, 2, ... truncated to 32 bits; later guards are untouched |
| EdgeGuards.Init | src/workerd/api/fuzzilli.c++:36-69 | an empty section, or one whose first guard is non-zero, is skipped; a second module's section exits the process; otherwise the section is renumbered and `num_edges` is its size |
| EdgeGuards.TraceSetsOneBit | src/workerd/api/fuzzilli.c++:71-81 | hitting an armed guard with number i sets exactly bit `i % 8` of byte `i / 8`, leaves all other bits and guards alone, and zeroes the guard; a zero guard changes nothing |
| EdgeGuards.TraceIdempotent | src/workerd/api/fuzzilli.c++:76-80 | hitting a guard twice gives the same state as hitting it once |
| EdgeGuards.TraceCommutes | src/workerd/api/fuzzilli.c++:79-80 | two different edges leave the same bitmap and guards in either order |
| EdgeGuards.InstalledGuardsInRange | src/workerd/api/fuzzilli.c++:31-34 | after numbering a zeroed section with `MAX_EDGES` below the bitmap's bit count, the armed guards are exactly the first `MAX_EDGES`, have distinct numbers, and each names a bit in the bitmap |

## Left out

- Promise, V8, `IoContext` and `jsg` plumbing are not modelled. Promises are task ids and settlements, and the runtime's scheduling is the order of operations applied.
- `readAllText`, `readAllBytes`, `tryGetLength`, `isClosed` and `isCanceled` of both adapters are not modelled. They are outside the modelled core.
- `pumpTo` and `pumpToImpl` of the KJ adapter are not modelled. Their 8192-byte "short read ends the pump" rule and the sink writes are outside the modelled core.
- The check in `readInternal` that the adapter is still active before pulling again is not modelled. Such a read can only be abandoned when the `Active` is being destroyed, and then its canceler already rejects the read, which `FinishRead` models.
- `KJ_DASSERT` checks are not modelled. They compile away in release builds, and the model follows release behaviour.
- When a short read marks the stream ended, the KJ adapter frees the left-over buffer but keeps its view. The model empties the view. The next read closes the adapter without touching the view.
- Strings from a reader are taken as their bytes. The model does not encode text.
- In the JS adapter's `run()`, the fallback rejection "Task was canceled." is left out. `cancel` always records `pendingCancel` before canceling `run()`, so that path is unreachable in the model.
- Adapter construction, including the stream-locking TypeErrors of `initReader`, is not modelled. Both models start from a fresh active adapter.
- `perform_wild_write`, `getenv`, `shm_open`, `mmap`, `malloc`, logging and `_exit` in the fuzzer file are not modelled. The mapped region is a parameter of `EdgeGuards.Init`, and the exit is the `Exited` outcome.
- `MAX_EDGES` and the width of `num_edges` are defined in `fuzzilli.h`, which is not part of this model. `MAX_EDGES` is a parameter, and `num_edges` is stored unbounded.
- The thread race on a guard described in the fuzzer file is not modelled. The model is sequential.
- EdgeGuards.InstalledGuardsInRange: assumes `MAX_EDGES` is below eight times the bitmap's size and below 2^32, because the header that fixes both values is not part of this model.
- In the test worker, `fetch`, the literal contents of the expected list, and node's `deepStrictEqual` prototype check are not modelled. `test` compares against a parameter list, and objects compare by their own fields.
- Span attribute values are limited to undefined, booleans, integers and strings. Floating point and nested values are not modelled.

## Findings

| source | as written | input that shows it | evidently intended | confidence | as-written member | corrected member |
|---|---|---|---|---|---|---|
| src/workerd/api/streams/readable-source-adapter.c++:724-753 | `tryRead` sets `readPending` (line 866), but `tryReadImpl` returns early from the left-over bytes (lines 734, 753) without clearing it | left-over bytes 1,2,3,4; `tryRead(min 1, max 4)` returns 4; a second `tryRead` throws "Cannot have multiple concurrent reads." | a read served from left-over bytes ends the read, as the stream-read paths do at lines 801 and 829 | not executed | KjSourceAdapter.StaleReadPendingAsWritten | KjSourceAdapter.ReadDeliversInOrder |
| src/workerd/api/streams/readable-source-adapter.c++:737-772 | left-over bytes that do not meet the minimum are copied into the buffer, but the read context starts `totalRead` at 0, so the count reported at line 822 leaves them out | left-over 1,2,3; `tryRead(min 4, max 8)`; reader yields 4..8: eight bytes are written, 5 are reported, and 6,7,8 are lost. With min 7 and a chunk 4..10 the read is also taken as the stream's end | `totalRead` starts at the number of left-over bytes copied | not executed | KjSourceAdapter.LostBytesAsWritten | KjSourceAdapter.NoLostBytesCorrected |
