/**
 * Properties of the span aggregator: map ordering, the effect of each event
 * kind, the invocation barrier, and what `test` accepts.
 */
module TailSpanProperties {
  import opened Wrappers
  import opened TailSpans

  // ---------------------------------------------------------------------------
  // Helpers about the JavaScript `Map`
  // ---------------------------------------------------------------------------

  lemma FindIndex(slots: seq<Slot>, id: SpanId, i: nat)
    requires DistinctIds(slots)
    requires i < |slots| && slots[i].id == id
    ensures Find(slots, id) == Some(i)
  {
  }

  lemma MapSetDistinct(slots: seq<Slot>, id: SpanId, v: Option<ObjRef>)
    requires DistinctIds(slots)
    ensures DistinctIds(MapSet(slots, id, v))
  {
  }

  /** `set` never moves a key: an existing key stays put, a new key goes last. */
  lemma MapSetIds(slots: seq<Slot>, id: SpanId, v: Option<ObjRef>)
    ensures Has(slots, id) ==> Ids(MapSet(slots, id, v)) == Ids(slots)
    ensures !Has(slots, id) ==> Ids(MapSet(slots, id, v)) == Ids(slots) + [id]
  {
    var r := MapSet(slots, id, v);
    if Has(slots, id) {
      assert Ids(r) == Ids(slots);
    } else {
      assert Ids(r) == Ids(slots) + [id];
    }
  }

  /** After `set(id, v)`, `get(id)` is `v` and every other key reads as before. */
  lemma MapSetGet(slots: seq<Slot>, id: SpanId, v: Option<ObjRef>, other: SpanId)
    requires DistinctIds(slots)
    ensures Has(MapSet(slots, id, v), id) && Get(MapSet(slots, id, v), id) == v
    ensures other != id ==> Has(MapSet(slots, id, v), other) == Has(slots, other)
    ensures other != id ==> Get(MapSet(slots, id, v), other) == Get(slots, other)
  {
    MapSetDistinct(slots, id, v);
    MapSetGetSame(slots, id, v);
    if other != id {
      MapSetGetOther(slots, id, v, other);
    }
  }

  lemma MapSetGetSame(slots: seq<Slot>, id: SpanId, v: Option<ObjRef>)
    requires DistinctIds(slots) && DistinctIds(MapSet(slots, id, v))
    ensures Find(MapSet(slots, id, v), id) == Some(if Has(slots, id) then Find(slots, id).value else |slots|)
    ensures Get(MapSet(slots, id, v), id) == v
  {
    var r := MapSet(slots, id, v);
    var k := if Has(slots, id) then Find(slots, id).value else |slots|;
    assert r[k] == Slot(id, v);
    FindIndex(r, id, k);
  }

  lemma MapSetGetOther(slots: seq<Slot>, id: SpanId, v: Option<ObjRef>, other: SpanId)
    requires DistinctIds(slots) && DistinctIds(MapSet(slots, id, v))
    requires other != id
    ensures Find(MapSet(slots, id, v), other) == Find(slots, other)
  {
    var r := MapSet(slots, id, v);
    match Find(slots, other)
    case Some(j) =>
      assert r[j] == slots[j];
      FindIndex(r, other, j);
    case None =>
      assert forall i :: 0 <= i < |r| ==> r[i].id != other;
  }

  /** A span id that holds an object holds one inside the heap. */
  lemma GetInHeap(s: Spans, id: SpanId)
    requires Wf(s)
    requires Get(s.slots, id).Some?
    ensures Get(s.slots, id).value < |s.heap|
    ensures Lookup(s, id) == Some(s.heap[Get(s.slots, id).value])
  {
  }

  /** Two span ids never share an object. */
  lemma GetDistinct(s: Spans, id: SpanId, other: SpanId)
    requires Wf(s)
    requires id != other
    requires Get(s.slots, id).Some? && Get(s.slots, other).Some?
    ensures Get(s.slots, id).value != Get(s.slots, other).value
  {
    var i := Find(s.slots, id).value;
    var j := Find(s.slots, other).value;
    assert i != j;
    if i < j {
    } else {
    }
  }

  /**
   * Overwriting the object behind `id` in place (as `attributes` and
   * `spanClose` do) keeps the map's keys and every other span's object.
   */
  lemma UpdateInPlace(s: Spans, id: SpanId, rec: Record)
    requires Wf(s)
    requires Get(s.slots, id).Some?
    ensures var ref := Get(s.slots, id).value;
      var r := Spans(MapSet(s.slots, id, Some(ref)), s.heap[ref := rec]);
      && Ids(r.slots) == Ids(s.slots)
      && Lookup(r, id) == Some(rec)
      && forall other :: other != id ==> Lookup(r, other) == Lookup(s, other) && Has(r.slots, other) == Has(s.slots, other)
  {
    var ref := Get(s.slots, id).value;
    GetInHeap(s, id);
    var r := Spans(MapSet(s.slots, id, Some(ref)), s.heap[ref := rec]);
    MapSetIds(s.slots, id, Some(ref));
    MapSetGet(s.slots, id, Some(ref), id);
    forall other | other != id
      ensures Lookup(r, other) == Lookup(s, other) && Has(r.slots, other) == Has(s.slots, other)
    {
      MapSetGet(s.slots, id, Some(ref), other);
      if Get(s.slots, other).Some? {
        GetDistinct(s, id, other);
      }
    }
  }

  // ---------------------------------------------------------------------------
  // spanOpen
  // ---------------------------------------------------------------------------

  /**
   * `spanOpen` for a new span id appends `{ name }` at the end of insertion
   * order and leaves every other span where and as it was.
   */
  lemma OpenFresh(s: Spans, id: SpanId, name: string)
    requires Wf(s)
    requires !Has(s.slots, id)
    ensures Ids(Open(s, id, name).slots) == Ids(s.slots) + [id]
    ensures Lookup(Open(s, id, name), id) == Some(FreshRecord(name))
    ensures forall other :: other != id ==> Lookup(Open(s, id, name), other) == Lookup(s, other)
  {
    OpenEffect(s, id, name);
  }

  /**
   * `spanOpen` for a span id already in the map replaces its object with a
   * fresh `{ name }` (earlier attributes and `closed` are gone) without moving it.
   */
  lemma OpenExisting(s: Spans, id: SpanId, name: string)
    requires Wf(s)
    requires Has(s.slots, id)
    ensures Ids(Open(s, id, name).slots) == Ids(s.slots)
    ensures Lookup(Open(s, id, name), id) == Some(FreshRecord(name))
    ensures forall other :: other != id ==> Lookup(Open(s, id, name), other) == Lookup(s, other)
  {
    OpenEffect(s, id, name);
  }

  lemma OpenEffect(s: Spans, id: SpanId, name: string)
    requires Wf(s)
    ensures Has(s.slots, id) ==> Ids(Open(s, id, name).slots) == Ids(s.slots)
    ensures !Has(s.slots, id) ==> Ids(Open(s, id, name).slots) == Ids(s.slots) + [id]
    ensures Lookup(Open(s, id, name), id) == Some(FreshRecord(name))
    ensures forall other :: other != id ==> Lookup(Open(s, id, name), other) == Lookup(s, other)
  {
    var r := Open(s, id, name);
    MapSetIds(s.slots, id, Some(|s.heap|));
    MapSetGet(s.slots, id, Some(|s.heap|), id);
    forall other | other != id
      ensures Lookup(r, other) == Lookup(s, other)
    {
      MapSetGet(s.slots, id, Some(|s.heap|), other);
      if Get(s.slots, other).Some? {
        GetInHeap(s, other);
      }
    }
  }

  // ---------------------------------------------------------------------------
  // attributes
  // ---------------------------------------------------------------------------

  /** A key that no entry names keeps its presence and value. */
  lemma {:induction false} SetAllUntouched(rec: Record, info: seq<Attr>, k: string)
    requires forall j :: 0 <= j < |info| ==> info[j].key != k
    ensures k in SetAll(rec, info) <==> k in rec
    ensures k in rec ==> SetAll(rec, info)[k] == rec[k]
    decreases |info|
  {
    if |info| > 0 {
      if info[0].key == ProtoKey {
        SetAllUntouched(rec, info[1..], k);
      } else {
        SetAllUntouched(rec[info[0].key := info[0].value], info[1..], k);
      }
    }
  }

  /**
   * An entry named `__proto__` goes to the inherited accessor: whatever the
   * entries, the loop leaves that key's presence and value as they were, and
   * a list of such entries only leaves the object unchanged.
   */
  lemma {:induction false} SetAllSkipsProto(rec: Record, info: seq<Attr>)
    ensures ProtoKey in SetAll(rec, info) <==> ProtoKey in rec
    ensures ProtoKey in rec ==> SetAll(rec, info)[ProtoKey] == rec[ProtoKey]
    ensures (forall j :: 0 <= j < |info| ==> info[j].key == ProtoKey) ==> SetAll(rec, info) == rec
    decreases |info|
  {
    if |info| > 0 {
      if info[0].key == ProtoKey {
        SetAllSkipsProto(rec, info[1..]);
      } else {
        SetAllSkipsProto(rec[info[0].key := info[0].value], info[1..]);
      }
    }
  }

  /**
   * Last write wins: the value of an own key `k` after the loop is the value
   * of the last entry named `k` (`__proto__` is not an own key; see
   * `SetAllSkipsProto`).
   */
  lemma {:induction false} SetAllLastWins(rec: Record, info: seq<Attr>, j: nat)
    requires j < |info| && info[j].key != ProtoKey
    requires forall j' :: j < j' < |info| ==> info[j'].key != info[j].key
    ensures info[j].key in SetAll(rec, info)
    ensures SetAll(rec, info)[info[j].key] == info[j].value
    decreases |info|
  {
    if info[0].key == ProtoKey {
      SetAllLastWins(rec, info[1..], j - 1);
    } else {
      var rec' := rec[info[0].key := info[0].value];
      if j == 0 {
        SetAllUntouched(rec', info[1..], info[0].key);
      } else {
        SetAllLastWins(rec', info[1..], j - 1);
      }
    }
  }

  /**
   * `attributes` on a span holding an object writes the entries onto that
   * object; the map's order and every other span are untouched.
   */
  lemma AttributesEffect(s: Spans, id: SpanId, info: seq<Attr>)
    requires Wf(s)
    requires Lookup(s, id).Some?
    ensures AddAttributes(s, id, info).Ok?
    ensures var r := AddAttributes(s, id, info).value;
      && Ids(r.slots) == Ids(s.slots)
      && Lookup(r, id) == Some(SetAll(Lookup(s, id).value, info))
      && forall other :: other != id ==> Lookup(r, other) == Lookup(s, other)
  {
    GetInHeap(s, id);
    UpdateInPlace(s, id, SetAll(Lookup(s, id).value, info));
  }

  /**
   * Because attributes land on the same object as `name` and `closed`, an
   * attribute with either key replaces that field.
   */
  lemma AttributeOverwritesField(s: Spans, id: SpanId, key: string, value: JsValue)
    requires Wf(s)
    requires Lookup(s, id).Some?
    requires key == NameKey || key == ClosedKey
    ensures AddAttributes(s, id, [Attr(key, value)]).Ok?
    ensures var r := Lookup(AddAttributes(s, id, [Attr(key, value)]).value, id);
      r.Some? && key in r.value && r.value[key] == value
  {
    AttributesEffect(s, id, [Attr(key, value)]);
    SetAllLastWins(Lookup(s, id).value, [Attr(key, value)], 0);
  }

  // ---------------------------------------------------------------------------
  // spanClose
  // ---------------------------------------------------------------------------

  /** `spanClose` sets `closed` to true and changes nothing else. */
  lemma CloseEffect(s: Spans, id: SpanId)
    requires Wf(s)
    requires Lookup(s, id).Some?
    ensures Close(s, id).Ok?
    ensures var r := Close(s, id).value;
      && Ids(r.slots) == Ids(s.slots)
      && Lookup(r, id) == Some(Lookup(s, id).value[ClosedKey := Bool(true)])
      && forall other :: other != id ==> Lookup(r, other) == Lookup(s, other)
  {
    GetInHeap(s, id);
    UpdateInPlace(s, id, Lookup(s, id).value[ClosedKey := Bool(true)]);
  }

  /** Closing twice leaves exactly the state that closing once does. */
  lemma CloseIdempotent(s: Spans, id: SpanId)
    requires Wf(s)
    requires Lookup(s, id).Some?
    ensures Close(s, id).Ok?
    ensures Close(Close(s, id).value, id) == Close(s, id)
  {
    var ref := Get(s.slots, id).value;
    GetInHeap(s, id);
    var r := Close(s, id).value;
    var i := Find(s.slots, id).value;
    assert s.slots[i := Slot(id, Some(ref))] == s.slots;
    assert r.slots == s.slots;
    assert Get(r.slots, id) == Some(ref);
    var closed := s.heap[ref][ClosedKey := Bool(true)];
    assert r.heap[ref] == closed;
    assert closed[ClosedKey := Bool(true)] == closed;
    assert r.heap[ref := closed] == r.heap;
  }

  // ---------------------------------------------------------------------------
  // Events for a span id that holds no object
  // ---------------------------------------------------------------------------

  /**
   * `spanClose` and a non-empty `attributes` throw and change nothing; an empty
   * `attributes` instead stores `undefined`, appended when the key is new.
   */
  lemma UnknownSpan(s: Spans, id: SpanId, info: seq<Attr>)
    requires Wf(s)
    requires Lookup(s, id).None?
    ensures Close(s, id) == Err(TypeError)
    ensures |info| > 0 ==> AddAttributes(s, id, info) == Err(TypeError)
    ensures |info| == 0 ==> AddAttributes(s, id, info).Ok?
    ensures |info| == 0 ==> var r := AddAttributes(s, id, info).value;
      && r.heap == s.heap
      && Has(r.slots, id) && Get(r.slots, id).None?
      && Ids(r.slots) == (if Has(s.slots, id) then Ids(s.slots) else Ids(s.slots) + [id])
  {
    if Get(s.slots, id).Some? {
      GetInHeap(s, id);
    }
    MapSetIds(s.slots, id, None);
    MapSetGet(s.slots, id, None, id);
  }

  // ---------------------------------------------------------------------------
  // Invocation promises
  // ---------------------------------------------------------------------------

  /**
   * `tailStream` adds exactly one pending promise; a promise becomes resolved
   * only through an `outcome` delivered to its own visitor, and stays resolved.
   */
  lemma StepResolution(agg: Aggregator, step: Step)
    requires Wf(agg.spans)
    ensures |After(agg, step).resolved| == |agg.resolved| + (if step.TailStream? then 1 else 0)
    ensures step.TailStream? ==> !After(agg, step).resolved[|agg.resolved|]
    ensures forall i :: 0 <= i < |agg.resolved| ==>
      (After(agg, step).resolved[i] <==>
        agg.resolved[i] || (step.Deliver? && step.invocation == i && step.event.body.Outcome?))
  {
  }

  /** Resolving an already resolved promise is a no-op. */
  lemma OutcomeIdempotent(agg: Aggregator, i: nat, id: SpanId)
    requires Wf(agg.spans)
    ensures After(After(agg, Deliver(i, TailEvent(id, Outcome))), Deliver(i, TailEvent(id, Outcome)))
         == After(agg, Deliver(i, TailEvent(id, Outcome)))
  {
  }

  ghost predicate OutcomeFor(steps: seq<Step>, i: nat) {
    exists k :: 0 <= k < |steps| && steps[k].Deliver? && steps[k].invocation == i && steps[k].event.body.Outcome?
  }

  /** A pending promise that no step resolves is still pending after the trace. */
  lemma {:induction false} StaysPending(agg: Aggregator, steps: seq<Step>, i: nat)
    requires Wf(agg.spans)
    requires i < |agg.resolved| && !agg.resolved[i]
    requires !OutcomeFor(steps, i)
    ensures !Run(agg, steps).resolved[i]
    decreases |steps|
  {
    if |steps| > 0 {
      StepResolution(agg, steps[0]);
      forall k | 0 <= k < |steps[1..]|
        ensures !(steps[1..][k].Deliver? && steps[1..][k].invocation == i && steps[1..][k].event.body.Outcome?)
      {
        assert steps[1..][k] == steps[k + 1];
      }
      StaysPending(After(agg, steps[0]), steps[1..], i);
    }
  }

  /**
   * If an invocation that had started when `test` ran never sees its
   * `outcome`, `test` never gets past the barrier.
   */
  lemma PendingInvocationBlocksTest(agg: Aggregator, during: seq<Step>, expected: seq<Expected>, i: nat)
    requires Wf(agg.spans)
    requires Received(agg.spans).Ok?
    requires i < |agg.resolved| && !agg.resolved[i]
    requires !OutcomeFor(during, i)
    ensures RunTest(agg, during, expected) == Waiting
  {
    StaysPending(agg, during, i);
  }

  // ---------------------------------------------------------------------------
  // Insertion order over a whole trace
  // ---------------------------------------------------------------------------

  lemma StepIds(agg: Aggregator, step: Step)
    requires Wf(agg.spans)
    ensures Ids(agg.spans.slots) <= Ids(After(agg, step).spans.slots)
    ensures step.Deliver? && step.invocation < |agg.resolved| && step.event.body.SpanOpen?
              && !Has(agg.spans.slots, step.event.spanId)
            ==> Ids(After(agg, step).spans.slots) == Ids(agg.spans.slots) + [step.event.spanId]
    ensures !(step.Deliver? && step.invocation < |agg.resolved| && step.event.body.SpanOpen?)
              && !(step.Deliver? && step.event.body.Attributes? && |step.event.body.info| == 0)
            ==> Ids(After(agg, step).spans.slots) == Ids(agg.spans.slots)
    ensures step.Deliver? && step.event.body.SpanOpen? && Has(agg.spans.slots, step.event.spanId)
            ==> Ids(After(agg, step).spans.slots) == Ids(agg.spans.slots)
  {
    match step
    case TailStream =>
    case Deliver(inv, e) =>
      if inv < |agg.resolved| {
        var s := agg.spans;
        match e.body
        case SpanOpen(name) => OpenEffect(s, e.spanId, name);
        case Attributes(info) =>
          if Lookup(s, e.spanId).Some? {
            AttributesEffect(s, e.spanId, info);
          } else {
            UnknownSpan(s, e.spanId, info);
          }
        case SpanClose =>
          if Lookup(s, e.spanId).Some? {
            CloseEffect(s, e.spanId);
          } else {
            UnknownSpan(s, e.spanId, []);
          }
        case Outcome =>
        case Other =>
      }
  }

  /** No step ever reorders or removes a key: the old key order is a prefix of the new. */
  lemma {:induction false} IdsOnlyGrow(agg: Aggregator, steps: seq<Step>)
    requires Wf(agg.spans)
    ensures Ids(agg.spans.slots) <= Ids(Run(agg, steps).spans.slots)
    decreases |steps|
  {
    if |steps| > 0 {
      StepIds(agg, steps[0]);
      IdsOnlyGrow(After(agg, steps[0]), steps[1..]);
    }
  }

  /** The span ids of the `spanOpen` events that reach a visitor, in trace order. */
  function OpenIds(invocations: nat, steps: seq<Step>): seq<SpanId>
    decreases |steps|
  {
    if |steps| == 0 then []
    else
      match steps[0]
      case TailStream => OpenIds(invocations + 1, steps[1..])
      case Deliver(inv, e) =>
        (if inv < invocations && e.body.SpanOpen? then [e.spanId] else []) + OpenIds(invocations, steps[1..])
  }

  /** Every `attributes` event in the trace carries at least one entry. */
  ghost predicate NonEmptyAttributes(steps: seq<Step>) {
    forall k :: 0 <= k < |steps| && steps[k].Deliver? && steps[k].event.body.Attributes? ==>
      |steps[k].event.body.info| > 0
  }

  ghost predicate Distinct(ids: seq<SpanId>) {
    forall i, j :: 0 <= i < j < |ids| ==> ids[i] != ids[j]
  }

  /**
   * When every opened span id is new, the map's order is the order of the
   * `spanOpen` events, however the invocations interleave and whatever
   * `attributes`/`spanClose` events come in between.
   */
  lemma {:induction false} OpenOrder(agg: Aggregator, steps: seq<Step>)
    requires Wf(agg.spans)
    requires NonEmptyAttributes(steps)
    requires Distinct(Ids(agg.spans.slots) + OpenIds(|agg.resolved|, steps))
    ensures Ids(Run(agg, steps).spans.slots) == Ids(agg.spans.slots) + OpenIds(|agg.resolved|, steps)
    decreases |steps|
  {
    if |steps| > 0 {
      var step := steps[0];
      var next := After(agg, step);
      var ids := Ids(agg.spans.slots);
      var rest := OpenIds(|next.resolved|, steps[1..]);
      StepIds(agg, step);
      StepResolution(agg, step);
      assert NonEmptyAttributes(steps[1..]) by {
        forall k | 0 <= k < |steps[1..]| && steps[1..][k].Deliver? && steps[1..][k].event.body.Attributes?
          ensures |steps[1..][k].event.body.info| > 0
        {
          assert steps[1..][k] == steps[k + 1];
        }
      }
      assert step.Deliver? && step.event.body.Attributes? ==> |step.event.body.info| > 0 by {
        assert steps[0] == step;
      }
      if step.Deliver? && step.invocation < |agg.resolved| && step.event.body.SpanOpen? {
        var id := step.event.spanId;
        assert OpenIds(|agg.resolved|, steps) == [id] + rest;
        assert ids + OpenIds(|agg.resolved|, steps) == (ids + [id]) + rest;
        forall p | 0 <= p < |ids|
          ensures agg.spans.slots[p].id != id
        {
          assert (ids + [id] + rest)[p] == ids[p];
          assert (ids + [id] + rest)[|ids|] == id;
        }
        assert !Has(agg.spans.slots, id);
        assert Ids(next.spans.slots) == ids + [id];
        OpenOrder(next, steps[1..]);
      } else {
        assert OpenIds(|agg.resolved|, steps) == rest;
        assert Ids(next.spans.slots) == ids;
        OpenOrder(next, steps[1..]);
      }
    }
  }

  /**
   * From the module's initial state, an empty map and no invocation
   * promises, nothing has been received, and the map's keys are exactly
   * the ids of the `spanOpen` events in trace order.
   */
  lemma FromInitial(steps: seq<Step>)
    requires NonEmptyAttributes(steps)
    requires Distinct(OpenIds(0, steps))
    ensures Wf(Initial.spans) && Received(Initial.spans) == Ok([])
    ensures Ids(Run(Initial, steps).spans.slots) == OpenIds(0, steps)
  {
    OpenOrder(Initial, steps);
  }

  // ---------------------------------------------------------------------------
  // test()
  // ---------------------------------------------------------------------------

  lemma {:induction false} CollectHeapExtend(heap: seq<Record>, x: Record, slots: seq<Slot>)
    requires forall i :: 0 <= i < |slots| && slots[i].obj.Some? ==> slots[i].obj.value < |heap|
    ensures Collect(heap + [x], slots) == Collect(heap, slots)
    decreases |slots|
  {
    if |slots| > 0 {
      assert forall i :: 0 <= i < |slots| - 1 ==> slots[1..][i] == slots[i + 1];
      CollectHeapExtend(heap, x, slots[1..]);
      match slots[0].obj
      case None =>
      case Some(ref) =>
        assert IsRpcSession(heap + [x], ref) == IsRpcSession(heap, ref);
    }
  }

  /**
   * The array keeps map order: a map with one more entry at the end gives the
   * same array, plus that entry's object at the end unless it is filtered out.
   */
  lemma {:induction false} CollectAppend(heap: seq<Record>, slots: seq<Slot>, slot: Slot)
    requires slot.obj.Some?
    ensures Collect(heap, slots + [slot]) ==
      match Collect(heap, slots)
      case Err(e) => Err(e)
      case Ok(refs) => Ok(refs + (if IsRpcSession(heap, slot.obj.value) then [] else [slot.obj.value]))
    decreases |slots|
  {
    if |slots| == 0 {
      var ref := slot.obj.value;
      var tail: seq<ObjRef> := if IsRpcSession(heap, ref) then [] else [ref];
      assert slots + [slot] == [slot];
      assert [slot][1..] == [];
      assert Collect(heap, [slot][1..]) == Ok([]);
      assert [ref] + [] == [ref];
      assert Collect(heap, [slot]) == Ok(tail);
      assert [] + tail == tail;
    } else {
      assert (slots + [slot])[0] == slots[0];
      assert (slots + [slot])[1..] == slots[1..] + [slot];
      CollectAppend(heap, slots[1..], slot);
      match slots[0].obj
      case None =>
      case Some(ref) =>
        match Collect(heap, slots[1..])
        case Err(e) =>
        case Ok(rest) =>
          var tail := if IsRpcSession(heap, slot.obj.value) then [] else [slot.obj.value];
          assert ([ref] + rest) + tail == [ref] + (rest + tail);
    }
  }

  /**
   * A span opened under a new id, with a name other than `jsRpcSession`,
   * shows up last in the array `test` builds; everything before it is kept
   * in the same order.
   */
  lemma OpenAppendsToReceived(s: Spans, id: SpanId, name: string)
    requires Wf(s)
    requires !Has(s.slots, id)
    requires name != RpcSessionName
    requires Received(s).Ok?
    ensures Received(Open(s, id, name)) == Ok(Received(s).value + [|s.heap|])
  {
    var heap' := s.heap + [FreshRecord(name)];
    CollectHeapExtend(s.heap, FreshRecord(name), s.slots);
    CollectAppend(heap', s.slots, Slot(id, Some(|s.heap|)));
    assert !IsRpcSession(heap', |s.heap|);
  }

  /** An object equals `{name, closed}` exactly when those are its only two keys. */
  lemma RecordMatchesExactly(rec: Record, x: Expected)
    ensures rec == ExpectedRecord(x) <==>
      && rec.Keys == {NameKey, ClosedKey}
      && rec[NameKey] == Str(x.name)
      && rec[ClosedKey] == Bool(x.closed)
  {
    if rec.Keys == {NameKey, ClosedKey} && rec[NameKey] == Str(x.name) && rec[ClosedKey] == Bool(x.closed) {
      assert rec.Keys == ExpectedRecord(x).Keys;
      assert forall k :: k in rec ==> rec[k] == ExpectedRecord(x)[k];
    }
  }

  /** The object has exactly the fields `name` and `closed`, with the expected values. */
  ghost predicate ExactFields(rec: Record, x: Expected) {
    && rec.Keys == {NameKey, ClosedKey}
    && rec[NameKey] == Str(x.name)
    && rec[ClosedKey] == Bool(x.closed)
  }

  /**
   * `test` passes exactly when the array was built without throwing, every
   * awaited invocation has resolved, and the array's objects, as they are
   * after the wait, have exactly the fields `name` and `closed` with the
   * expected values, position by position.
   */
  lemma RunTestPassed(agg: Aggregator, during: seq<Step>, expected: seq<Expected>)
    requires Wf(agg.spans)
    ensures RunTest(agg, during, expected) == Passed <==>
      && Received(agg.spans).Ok?
      && (forall i :: 0 <= i < |agg.resolved| ==> Run(agg, during).resolved[i])
      && |Received(agg.spans).value| == |expected|
      && (forall i :: 0 <= i < |expected| ==> Received(agg.spans).value[i] < |Run(agg, during).spans.heap|)
      && (forall i :: 0 <= i < |expected| ==>
            ExactFields(Run(agg, during).spans.heap[Received(agg.spans).value[i]], expected[i]))
  {
    var got := Received(agg.spans);
    if got.Ok? {
      var later := Run(agg, during);
      MatchesExactly(later.spans.heap, got.value, expected);
    }
  }

  /** Deep equality with the expected list, field by field. */
  lemma MatchesExactly(heap: seq<Record>, refs: seq<ObjRef>, expected: seq<Expected>)
    ensures Matches(heap, refs, expected) <==>
      && |refs| == |expected|
      && (forall i :: 0 <= i < |expected| ==> refs[i] < |heap|)
      && (forall i :: 0 <= i < |expected| ==> ExactFields(heap[refs[i]], expected[i]))
  {
    if |refs| == |expected| && forall i :: 0 <= i < |refs| ==> refs[i] < |heap| {
      forall i | 0 <= i < |refs|
        ensures heap[refs[i]] == ExpectedRecord(expected[i]) <==> ExactFields(heap[refs[i]], expected[i])
      {
        RecordMatchesExactly(heap[refs[i]], expected[i]);
      }
    }
  }

  // ---------------------------------------------------------------------------
  // Shared objects: what `test` sees while it waits
  // ---------------------------------------------------------------------------

  /**
   * The array `test` builds holds references to the live span objects: a
   * span closed while `test` waits is closed in the array too.
   */
  lemma LateCloseIsSeen(agg: Aggregator, inv: nat, id: SpanId)
    requires Wf(agg.spans) && inv < |agg.resolved|
    requires Received(agg.spans).Ok? && Get(agg.spans.slots, id).Some?
    ensures var ref := Get(agg.spans.slots, id).value;
      var later := After(agg, Deliver(inv, TailEvent(id, SpanClose)));
      && (!IsRpcSession(agg.spans.heap, ref) ==> ref in Received(agg.spans).value)
      && ref < |later.spans.heap|
      && later.spans.heap[ref] == agg.spans.heap[ref][ClosedKey := Bool(true)]
  {
    var ref := Get(agg.spans.slots, id).value;
    GetInHeap(agg.spans, id);
    var i := Find(agg.spans.slots, id).value;
    assert agg.spans.slots[i].obj == Some(ref);
  }

  /**
   * A span re-opened while `test` waits gets a new object under its id; the
   * array keeps the old object, which a later close no longer reaches.
   */
  lemma ReopenDetachesReceived(agg: Aggregator, inv: nat, id: SpanId, name: string)
    requires Wf(agg.spans) && inv < |agg.resolved|
    requires Get(agg.spans.slots, id).Some?
    ensures var ref := Get(agg.spans.slots, id).value;
      var reopened := After(agg, Deliver(inv, TailEvent(id, SpanOpen(name))));
      var closed := After(reopened, Deliver(inv, TailEvent(id, SpanClose)));
      && Get(reopened.spans.slots, id) == Some(|agg.spans.heap|)
      && ref < |agg.spans.heap| <= |closed.spans.heap|
      && closed.spans.heap[ref] == agg.spans.heap[ref]
      && Lookup(closed.spans, id) == Some(FreshRecord(name)[ClosedKey := Bool(true)])
  {
    ReopenThenClose(agg.spans, id, name);
    var a1 := agg.(spans := Open(agg.spans, id, name));
    assert After(agg, Deliver(inv, TailEvent(id, SpanOpen(name)))) == a1;
    assert After(a1, Deliver(inv, TailEvent(id, SpanClose))) == a1.(spans := Close(a1.spans, id).value);
  }

  lemma ReopenThenClose(s: Spans, id: SpanId, name: string)
    requires Wf(s) && Get(s.slots, id).Some?
    ensures var ref := Get(s.slots, id).value;
      var reopened := Open(s, id, name);
      && Get(reopened.slots, id) == Some(|s.heap|)
      && ref < |s.heap|
      && Close(reopened, id).Ok?
      && Close(reopened, id).value.heap[ref] == s.heap[ref]
      && Lookup(Close(reopened, id).value, id) == Some(FreshRecord(name)[ClosedKey := Bool(true)])
  {
    var ref := Get(s.slots, id).value;
    GetInHeap(s, id);
    var reopened := Open(s, id, name);
    MapSetGet(s.slots, id, Some(|s.heap|), id);
    OpenExisting(s, id, name);
    CloseEffect(reopened, id);
    CloseTouchesOneObject(reopened, id, ref);
  }

  /** `spanClose` writes only the object stored under its own id. */
  lemma CloseTouchesOneObject(s: Spans, id: SpanId, j: nat)
    requires Wf(s) && Get(s.slots, id).Some?
    requires j < |s.heap| && j != Get(s.slots, id).value
    ensures Close(s, id).Ok? && Close(s, id).value.heap[j] == s.heap[j]
  {
  }
}
