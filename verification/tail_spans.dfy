/**
 * The span aggregator of the SQL tail-stream test worker.
 *
 * `tailStream` is called once per traced invocation: it pushes one pending
 * promise onto `invocationPromises` and returns a visitor.  Every visitor folds
 * `spanOpen`, `attributes` and `spanClose` events into one shared JavaScript
 * `Map` from span id to a plain object, and resolves its own promise on
 * `outcome`.  `test` copies the map's values (minus the `jsRpcSession`
 * bookkeeping spans) into an array, waits for every invocation promise, and
 * deep-compares the array against a list of `{name, closed}` objects.
 *
 * The JavaScript heap is explicit here: the map holds object references, and
 * the objects live in `Spans.heap`.  That is what lets the array taken by
 * `test` keep seeing mutations made while it waits, exactly as the shared
 * object references do in the worker.
 */
module TailSpans {
  import opened Wrappers

  type SpanId = string

  /** A reference to a JavaScript object: an index into `Spans.heap`. */
  type ObjRef = nat

  /** The JavaScript values an event can carry. */
  datatype JsValue = Undefined | Bool(b: bool) | Num(n: int) | Str(s: string)

  /** A plain JavaScript object, as its own enumerable properties. */
  type Record = map<string, JsValue>

  const NameKey: string := "name"
  const ClosedKey: string := "closed"
  const RpcSessionName: string := "jsRpcSession"

  /** One entry of the JavaScript `Map`; `obj == None` is a stored `undefined`. */
  datatype Slot = Slot(id: SpanId, obj: Option<ObjRef>)

  /** The `spans` map (entries in insertion order) and the objects it points to. */
  datatype Spans = Spans(slots: seq<Slot>, heap: seq<Record>)

  /** What a visitor call or `test` can throw. */
  datatype Error =
    | TypeError   // a property of `undefined` was read or written
    | NoVisitor   // an event addressed to an invocation that has no visitor yet

  // ---------------------------------------------------------------------------
  // The JavaScript `Map`
  // ---------------------------------------------------------------------------

  /** The map's keys in insertion order. */
  function Ids(slots: seq<Slot>): (ids: seq<SpanId>)
    ensures |ids| == |slots|
    ensures forall i :: 0 <= i < |slots| ==> ids[i] == slots[i].id
  {
    seq(|slots|, i requires 0 <= i < |slots| => slots[i].id)
  }

  ghost predicate DistinctIds(slots: seq<Slot>) {
    forall i, j :: 0 <= i < j < |slots| ==> slots[i].id != slots[j].id
  }

  /**
   * Representation invariant: keys are unique, every stored reference points
   * into the heap, and no object is stored under two keys.
   */
  ghost predicate Wf(s: Spans) {
    && DistinctIds(s.slots)
    && (forall i :: 0 <= i < |s.slots| && s.slots[i].obj.Some? ==> s.slots[i].obj.value < |s.heap|)
    && (forall i, j :: 0 <= i < j < |s.slots| && s.slots[i].obj.Some? && s.slots[j].obj.Some? ==>
          s.slots[i].obj.value != s.slots[j].obj.value)
  }

  /** The position of key `id`, if it is present. */
  function Find(slots: seq<Slot>, id: SpanId): (r: Option<nat>)
    ensures r.Some? ==> r.value < |slots| && slots[r.value].id == id
    ensures r.None? ==> forall i :: 0 <= i < |slots| ==> slots[i].id != id
  {
    if |slots| == 0 then None
    else if slots[|slots| - 1].id == id then Some(|slots| - 1)
    else Find(slots[..|slots| - 1], id)
  }

  /** `spans.has(id)`. */
  predicate Has(slots: seq<Slot>, id: SpanId) {
    Find(slots, id).Some?
  }

  /** `spans.get(id)`: `None` both for a missing key and for a stored `undefined`. */
  function Get(slots: seq<Slot>, id: SpanId): Option<ObjRef> {
    match Find(slots, id)
    case None => None
    case Some(i) => slots[i].obj
  }

  /** `spans.set(id, v)`: an existing key keeps its position, a new key goes last. */
  function MapSet(slots: seq<Slot>, id: SpanId, v: Option<ObjRef>): (r: seq<Slot>)
    ensures Has(slots, id) ==> r == slots[Find(slots, id).value := Slot(id, v)]
    ensures !Has(slots, id) ==> r == slots + [Slot(id, v)]
  {
    match Find(slots, id)
    case Some(i) => slots[i := Slot(id, v)]
    case None => slots + [Slot(id, v)]
  }

  /** The object stored under `id`, if the key holds one. */
  function Lookup(s: Spans, id: SpanId): Option<Record> {
    match Get(s.slots, id)
    case None => None
    case Some(ref) => if ref < |s.heap| then Some(s.heap[ref]) else None
  }

  // ---------------------------------------------------------------------------
  // The visitor's three span handlers
  // ---------------------------------------------------------------------------

  /** The object `{ name }` that `spanOpen` stores. */
  function FreshRecord(name: string): Record {
    map[NameKey := Str(name)]
  }

  /** `spanOpen`: store a newly allocated `{ name }` under the span id. */
  function Open(s: Spans, id: SpanId, name: string): (r: Spans)
    requires Wf(s)
    ensures Wf(r)
    ensures |r.heap| == |s.heap| + 1
  {
    Spans(MapSet(s.slots, id, Some(|s.heap|)), s.heap + [FreshRecord(name)])
  }

  datatype Attr = Attr(key: string, value: JsValue)

  /**
   * The key that names the inherited `Object.prototype.__proto__` accessor:
   * assigning to it creates no own field, and its setter ignores every value
   * a span attribute can carry, since none of them is an object or `null`.
   */
  const ProtoKey: string := "__proto__"

  /**
   * The `for` loop of `attributes`: `span[name] = value` for each entry in
   * order; an entry named `__proto__` writes nothing.
   */
  function SetAll(rec: Record, info: seq<Attr>): Record
    decreases |info|
  {
    if |info| == 0 then rec
    else if info[0].key == ProtoKey then SetAll(rec, info[1..])
    else SetAll(rec[info[0].key := info[0].value], info[1..])
  }

  /**
   * `attributes`: write every entry onto the stored object.  With no stored
   * object the first write throws; an empty list instead stores `undefined`.
   */
  function AddAttributes(s: Spans, id: SpanId, info: seq<Attr>): (r: Result<Spans, Error>)
    requires Wf(s)
    ensures r.Ok? ==> Wf(r.value) && |r.value.heap| == |s.heap|
  {
    match Get(s.slots, id)
    case None =>
      if |info| == 0 then Ok(Spans(MapSet(s.slots, id, None), s.heap)) else Err(TypeError)
    case Some(ref) =>
      Ok(Spans(MapSet(s.slots, id, Some(ref)), s.heap[ref := SetAll(s.heap[ref], info)]))
  }

  /** `spanClose`: set `closed = true` on the stored object; throws without one. */
  function Close(s: Spans, id: SpanId): (r: Result<Spans, Error>)
    requires Wf(s)
    ensures r.Ok? ==> Wf(r.value) && |r.value.heap| == |s.heap|
  {
    match Get(s.slots, id)
    case None => Err(TypeError)
    case Some(ref) =>
      Ok(Spans(MapSet(s.slots, id, Some(ref)), s.heap[ref := s.heap[ref][ClosedKey := Bool(true)]]))
  }

  // ---------------------------------------------------------------------------
  // Invocations and the event trace
  // ---------------------------------------------------------------------------

  datatype EventBody = SpanOpen(name: string) | Attributes(info: seq<Attr>) | SpanClose | Outcome | Other

  datatype TailEvent = TailEvent(spanId: SpanId, body: EventBody)

  /**
   * The module-level state: the span map and one flag per entry of
   * `invocationPromises`, true once that promise is resolved.
   */
  datatype Aggregator = Aggregator(spans: Spans, resolved: seq<bool>)

  /** One thing the runtime does: start an invocation, or feed an event to a visitor. */
  datatype Step = TailStream | Deliver(invocation: nat, event: TailEvent)

  const Initial := Aggregator(Spans([], []), [])

  /** The visitor of invocation `invocation` handling one event. */
  function Visit(agg: Aggregator, invocation: nat, e: TailEvent): (r: Result<Aggregator, Error>)
    requires Wf(agg.spans)
    requires invocation < |agg.resolved|
    ensures r.Ok? ==> Wf(r.value.spans) && |r.value.resolved| == |agg.resolved|
    ensures r.Ok? ==> |agg.spans.heap| <= |r.value.spans.heap|
  {
    match e.body
    case SpanOpen(name) => Ok(agg.(spans := Open(agg.spans, e.spanId, name)))
    case Attributes(info) =>
      (match AddAttributes(agg.spans, e.spanId, info)
       case Ok(sp) => Ok(agg.(spans := sp))
       case Err(x) => Err(x))
    case SpanClose =>
      (match Close(agg.spans, e.spanId)
       case Ok(sp) => Ok(agg.(spans := sp))
       case Err(x) => Err(x))
    case Outcome => Ok(agg.(resolved := agg.resolved[invocation := true]))
    case Other => Ok(agg)
  }

  /** One runtime step; `tailStream` pushes one pending promise. */
  function Apply(agg: Aggregator, step: Step): (r: Result<Aggregator, Error>)
    requires Wf(agg.spans)
    ensures r.Ok? ==> Wf(r.value.spans) && |agg.resolved| <= |r.value.resolved|
    ensures r.Ok? ==> |agg.spans.heap| <= |r.value.spans.heap|
  {
    match step
    case TailStream => Ok(agg.(resolved := agg.resolved + [false]))
    case Deliver(inv, e) => if inv < |agg.resolved| then Visit(agg, inv, e) else Err(NoVisitor)
  }

  /** The state after `Apply` whether or not the step threw. */
  function After(agg: Aggregator, step: Step): (r: Aggregator)
    requires Wf(agg.spans)
    ensures Wf(r.spans) && |agg.resolved| <= |r.resolved|
  {
    match Apply(agg, step)
    case Ok(a) => a
    case Err(_) => agg
  }

  /**
   * A serialised trace.  A throwing visitor call changes nothing (every throw
   * happens before the first write), so the trace simply moves on.
   */
  function Run(agg: Aggregator, steps: seq<Step>): (r: Aggregator)
    requires Wf(agg.spans)
    ensures Wf(r.spans)
    ensures |agg.resolved| <= |r.resolved|
    ensures |agg.spans.heap| <= |r.spans.heap|
    decreases |steps|
  {
    if |steps| == 0 then agg else Run(After(agg, steps[0]), steps[1..])
  }

  // ---------------------------------------------------------------------------
  // test(): filter, barrier, deep comparison
  // ---------------------------------------------------------------------------

  /** `span.name === 'jsRpcSession'` for the object behind `ref`. */
  predicate IsRpcSession(heap: seq<Record>, ref: ObjRef) {
    ref < |heap| && NameKey in heap[ref] && heap[ref][NameKey] == Str(RpcSessionName)
  }

  /**
   * `Array.from(spans.values()).filter(span => span.name !== 'jsRpcSession')`:
   * the kept object references in map order; reading `.name` of a stored
   * `undefined` throws.
   */
  function Collect(heap: seq<Record>, slots: seq<Slot>): (r: Result<seq<ObjRef>, Error>)
    ensures r.Err? <==> exists i :: 0 <= i < |slots| && slots[i].obj.None?
    ensures r.Ok? ==> forall ref :: ref in r.value <==>
              exists i :: 0 <= i < |slots| && slots[i].obj == Some(ref) && !IsRpcSession(heap, ref)
    decreases |slots|
  {
    if |slots| == 0 then Ok([])
    else
      match slots[0].obj
      case None => Err(TypeError)
      case Some(ref) =>
        match Collect(heap, slots[1..])
        case Err(e) => Err(e)
        case Ok(rest) =>
          assert forall i :: 0 <= i < |slots| - 1 ==> slots[1..][i] == slots[i + 1];
          Ok(if IsRpcSession(heap, ref) then rest else [ref] + rest)
  }

  function Received(s: Spans): Result<seq<ObjRef>, Error> {
    Collect(s.heap, s.slots)
  }

  /** One element of the literal `expected` list. */
  datatype Expected = Expected(name: string, closed: bool)

  function ExpectedRecord(x: Expected): Record {
    map[NameKey := Str(x.name), ClosedKey := Bool(x.closed)]
  }

  /** `assert.deepStrictEqual(received, expected)` holds. */
  predicate Matches(heap: seq<Record>, refs: seq<ObjRef>, expected: seq<Expected>) {
    && |refs| == |expected|
    && forall i :: 0 <= i < |refs| ==> refs[i] < |heap| && heap[refs[i]] == ExpectedRecord(expected[i])
  }

  datatype Verdict =
    | Passed
    | Mismatch         // deepStrictEqual threw
    | Waiting          // some awaited invocation promise is still pending
    | Threw(error: Error)

  /**
   * `test`, where `during` is what the runtime does while `test` awaits
   * `Promise.allSettled(invocationPromises)`.  The array is taken before the
   * await; the promises awaited are the ones that exist at that point.
   */
  function RunTest(agg: Aggregator, during: seq<Step>, expected: seq<Expected>): Verdict
    requires Wf(agg.spans)
  {
    match Received(agg.spans)
    case Err(e) => Threw(e)
    case Ok(refs) =>
      var later := Run(agg, during);
      if exists i :: 0 <= i < |agg.resolved| && !later.resolved[i] then Waiting
      else if Matches(later.spans.heap, refs, expected) then Passed
      else Mismatch
  }
}
