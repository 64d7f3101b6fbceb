/**
 The collector's life outside `collect`: `reset` between measurements,
 the fixed profiler name, and the round trip through `serialize` and
 `unserialize` that the profiler uses to store a profile and view it later.
 Also two worked traces.
 */
module CollectorLifecycle {
  import opened Wrappers
  import opened OrderedArray
  import opened PhpValue
  import opened BlockDataCollector

  /** Whatever came before, `reset` leads to the state of a freshly built collector. */
  lemma ResetForgetsEverything(c: Collector, other: Collector)
    requires other.containerTypes == c.containerTypes
    ensures Reset(c) == New(c.containerTypes) == Reset(other)
    ensures Reset(Reset(c)) == Reset(c)
    ensures TotalBlock(Reset(c)) == 0
    ensures Collect(Reset(c), []) == Reset(c)
  {
  }

  /** `getName` does not depend on the state. */
  lemma NameIgnoresState(c: Collector, other: Collector)
    ensures Name(c) == Name(other) == "block"
  {
  }

  /**
   Unserializing what `serialize` produced restores the four collections
   into any receiver and keeps that receiver's container types.
   */
  lemma SerializeRoundTrip(c: Collector, receiver: Collector)
    ensures Unserialize(receiver, Serialize(c)) == Success(receiver.(
      blocks := c.blocks, containers := c.containers, realBlocks := c.realBlocks, events := c.events))
    ensures Unserialize(c, Serialize(c)) == Success(c)
  {
  }

  /** The container types are configuration: they never reach the serialized form. */
  lemma SerializeIgnoresConfiguration(c: Collector, containerTypes: seq<string>)
    ensures Serialize(c.(containerTypes := containerTypes)) == Serialize(c)
  {
  }

  /**
   A snapshot that decodes re-serializes to the same four collections, so
   serializing again and decoding gives back the same collector.
   */
  lemma UnserializeThenSerialize(c: Collector, data: Value)
    requires Unserialize(c, data).Success?
    ensures forall f | f in SerializedKeys ::
      Get(Serialize(Unserialize(c, data).value).entries, f) == Get(data.entries, f)
    ensures Unserialize(c, Serialize(Unserialize(c, data).value)) == Unserialize(c, data)
  {
    var r := Unserialize(c, data).value;
    SerializeRoundTrip(r, c);
  }

  /** A decoded value that is not an array, or lacks a collection, is rejected. */
  lemma UnserializeRejectsIncomplete(c: Collector, data: Value, f: string)
    requires !data.Arr? || (f in SerializedKeys && f !in KeySet(data.entries))
    ensures Unserialize(c, data).Failure?
  {
  }

  /** A block record of the given type and nothing else. */
  function BlockOfType(t: string): (v: Value)
    ensures v.Arr? && Get(v.entries, TypeKey) == Some(Scalar(t))
  {
    Arr([(TypeKey, Scalar(t))])
  }

  /** One container, one text block and one event, with `container` as the only container type. */
  lemma ClassifiesSampleTrace()
    ensures var a := BlockOfType("container");
            var b := BlockOfType("text");
            var events := [("e1", Arr([]))];
            var trace := [("a", a), ("b", b), (EventsKey, Arr(events))];
            && TypesPresent(trace)
            && var r := Collect(New(["container"]), trace);
               && r.containers == [("a", a)]
               && r.realBlocks == [("b", b)]
               && r.events == events
               && TotalBlock(r) == 2
  {
    var a := BlockOfType("container");
    var b := BlockOfType("text");
    var events: PhpArray := [("e1", Arr([]))];
    var trace := [("a", a), ("b", b), (EventsKey, Arr(events))];
    assert TypeKey in KeySet(a.entries) && TypeKey in KeySet(b.entries);
    IsContainerOfType(a, ["container"], "container");
    IsContainerOfType(b, ["container"], "text");
    assert trace[1..] == [("b", b), (EventsKey, Arr(events))];
    assert trace[1..][1..] == [(EventsKey, Arr(events))];
    assert trace[1..][1..][1..] == [];
    assert TypesPresent(trace[1..][1..]);
    assert TypesPresent(trace[1..]);
    var c0 := New(["container"]).(blocks := trace);
    var c1 := c0.(containers := Put(c0.containers, "a", a));
    var c2 := c1.(realBlocks := Put(c1.realBlocks, "b", b));
    assert events[1..] == [];
    assert PutAll([], events) == Put([], "e1", Arr([])) == events;
    var c3 := c2.(events := PutAll(c2.events, events));
    assert Walk(c0, trace) == Walk(c1, trace[1..]) == Walk(c2, trace[1..][1..]) == Walk(c3, []);
  }

  /** The empty trace leaves a fresh collector empty. */
  lemma ClassifiesEmptyTrace(containerTypes: seq<string>)
    ensures var r := Collect(New(containerTypes), []);
            r.containers == [] && r.realBlocks == [] && r.events == [] && TotalBlock(r) == 0
  {
  }
}
