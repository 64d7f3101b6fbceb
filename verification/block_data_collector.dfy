/**
 The profiler data collector of the block bundle. During a request, the block
 helper records a trace of every rendered block, keyed by block id, plus one
 reserved entry `_events` holding the block events that fired. `Collect`
 copies that trace and files each block as a container or as a real (leaf)
 block according to the configured container types.

 The collector object is modelled as an immutable record; each PHP method that
 assigns properties becomes a function from the old record to the new one.
 */
module BlockDataCollector {
  import opened Wrappers
  import opened OrderedArray
  import opened PhpValue

  /** The reserved trace key under which the block helper stores events. */
  const EventsKey: string := "_events"

  /** The field of a block's trace record naming its block type. */
  const TypeKey: string := "type"

  /** The name under which the profiler publishes this collector's data. */
  const CollectorName: string := "block"

  /**
   The properties of one collector: the configured container types, the raw
   trace of the last collection, and the three collections derived from it.
   */
  datatype Collector = Collector(
    containerTypes: seq<string>,
    blocks: PhpArray,
    containers: PhpArray,
    realBlocks: PhpArray,
    events: PhpArray)

  /** All four collections are empty. */
  predicate IsEmpty(c: Collector)
  {
    c.blocks == [] && c.containers == [] && c.realBlocks == [] && c.events == []
  }

  /** The derived collections are genuine PHP arrays: no key twice. */
  ghost predicate WellFormed(c: Collector)
  {
    DistinctKeys(c.containers) && DistinctKeys(c.realBlocks) && DistinctKeys(c.events)
  }

  /** The constructor: container types are configured, every collection starts empty. */
  function New(containerTypes: seq<string>): (c: Collector)
    ensures IsEmpty(c) && WellFormed(c)
    ensures c.containerTypes == containerTypes
  {
    Collector(containerTypes, [], [], [], [])
  }

  /**
   The `in_array($block['type'], $containerTypes)` test: the block is an
   array whose `type` is one of the container types. A `type` that is itself
   an array never equals a type name.
   */
  predicate IsContainer(block: Value, containerTypes: seq<string>): (b: bool)
    ensures b ==> block.Arr? && TypeKey in KeySet(block.entries)
    ensures b ==> Get(block.entries, TypeKey).value.Scalar?
    ensures b ==> Get(block.entries, TypeKey).value.repr in containerTypes
  {
    && block.Arr?
    && var blockType: Option<Value> := Get(block.entries, TypeKey);
       blockType.Some? && blockType.value.Scalar? && blockType.value.repr in containerTypes
  }

  /** A block whose `type` is the text `t` is a container exactly when `t` is a container type. */
  lemma IsContainerOfType(block: Value, containerTypes: seq<string>, t: string)
    requires block.Arr? && Get(block.entries, TypeKey) == Some(Scalar(t))
    ensures IsContainer(block, containerTypes) <==> t in containerTypes
  {
  }

  /**
   Every block record the walk reaches carries a `type` field. Reading a
   missing `type` only raises a notice in PHP; the model leaves that case out.
   */
  predicate TypesPresent(trace: PhpArray)
    decreases |trace|
  {
    || trace == []
    || !trace[0].1.Arr?
    || ((trace[0].0 == EventsKey || TypeKey in KeySet(trace[0].1.entries)) && TypesPresent(trace[1..]))
  }

  /**
   The entries the walk processes: the longest prefix of the trace whose
   values are all arrays. The first non-array value ends the walk.
   */
  function Processed(trace: PhpArray): (p: PhpArray)
    ensures |p| <= |trace| && p == trace[..|p|]
    ensures forall i | 0 <= i < |p| :: p[i].1.Arr?
    ensures |p| < |trace| ==> !trace[|p|].1.Arr?
    decreases |trace|
  {
    if trace == [] || !trace[0].1.Arr? then []
    else [trace[0]] + Processed(trace[1..])
  }

  /** The walk bailed out: some value of the trace is not an array. */
  function Aborted(trace: PhpArray): (b: bool)
    ensures b <==> exists i | 0 <= i < |trace| :: !trace[i].1.Arr?
  {
    var p := Processed(trace);
    assert |p| == |trace| ==> p == trace;
    |p| < |trace|
  }

  /**
   The `foreach` of `collect`, from the given entry on. A non-array value
   returns at once, keeping whatever was filed before it; the `_events`
   entry is copied key by key into `events`; every other entry is assigned
   under its own id to `containers` or `realBlocks`.
   */
  function Walk(c: Collector, rest: PhpArray): (r: Collector)
    requires TypesPresent(rest)
    ensures r.containerTypes == c.containerTypes && r.blocks == c.blocks
    ensures KeySet(c.containers) <= KeySet(r.containers)
    ensures KeySet(c.realBlocks) <= KeySet(r.realBlocks)
    ensures KeySet(c.events) <= KeySet(r.events)
    decreases |rest|
  {
    if rest == [] then c
    else
      var (id, block) := rest[0];
      if !block.Arr? then c
      else if id == EventsKey then
        Walk(c.(events := PutAll(c.events, block.entries)), rest[1..])
      else if IsContainer(block, c.containerTypes) then
        Walk(c.(containers := Put(c.containers, id, block)), rest[1..])
      else
        Walk(c.(realBlocks := Put(c.realBlocks, id, block)), rest[1..])
  }

  /**
   `collect`: store the trace as `blocks`, then classify it. The derived
   collections are not cleared first, so entries of an earlier collection
   survive unless the new trace overwrites their key.
   */
  function Collect(c: Collector, trace: PhpArray): (r: Collector)
    requires TypesPresent(trace)
    ensures r.blocks == trace
    ensures r.containerTypes == c.containerTypes
    ensures KeySet(c.containers) <= KeySet(r.containers)
    ensures KeySet(c.realBlocks) <= KeySet(r.realBlocks)
    ensures KeySet(c.events) <= KeySet(r.events)
  {
    Walk(c.(blocks := trace), trace)
  }

  /** `getTotalBlock`: the number of blocks filed, containers and real blocks alike. */
  function TotalBlock(c: Collector): (n: nat)
    ensures WellFormed(c) ==> n == |KeySet(c.realBlocks)| + |KeySet(c.containers)|
    ensures IsEmpty(c) ==> n == 0
  {
    DistinctKeysCard(c.realBlocks);
    DistinctKeysCard(c.containers);
    |c.realBlocks| + |c.containers|
  }

  /** `getName`: the fixed profiler name, whatever the state. */
  function Name(c: Collector): (name: string)
    ensures name == CollectorName
  {
    CollectorName
  }

  /** `reset`: empty the four collections; the configuration stays. */
  function Reset(c: Collector): (r: Collector)
    ensures IsEmpty(r) && WellFormed(r)
    ensures r.containerTypes == c.containerTypes
  {
    c.(blocks := [], containers := [], realBlocks := [], events := [])
  }

  /** The keys of the array that `serialize` hands to PHP's encoder. */
  const SerializedKeys: set<string> := {"blocks", "containers", "realBlocks", "events"}

  /**
   `serialize`, up to PHP's own encoder: the array of the four collections.
   The container types are configuration and are not part of it.
   */
  function Serialize(c: Collector): (data: Value)
    ensures data.Arr? && DistinctKeys(data.entries)
    ensures KeySet(data.entries) == SerializedKeys
    ensures Get(data.entries, "blocks") == Some(Arr(c.blocks))
    ensures Get(data.entries, "containers") == Some(Arr(c.containers))
    ensures Get(data.entries, "realBlocks") == Some(Arr(c.realBlocks))
    ensures Get(data.entries, "events") == Some(Arr(c.events))
  {
    var entries := [
      ("blocks", Arr(c.blocks)),
      ("containers", Arr(c.containers)),
      ("realBlocks", Arr(c.realBlocks)),
      ("events", Arr(c.events))];
    assert KeySet(entries) == SerializedKeys by {
      assert entries[0].0 == "blocks" && entries[1].0 == "containers";
      assert entries[2].0 == "realBlocks" && entries[3].0 == "events";
    }
    Arr(entries)
  }

  /** Why a serialized snapshot could not be restored. */
  datatype DecodeError =
    | NotAnArray
    | MissingField(name: string)
    | FieldNotAnArray(name: string)

  /** One field of the decoded snapshot, which must hold an array. */
  function Field(data: PhpArray, name: string): (r: Result<PhpArray, DecodeError>)
    ensures r.Success? <==> (Get(data, name).Some? && Get(data, name).value.Arr?)
    ensures r.Success? ==> Get(data, name) == Some(Arr(r.value))
    ensures r == Failure(MissingField(name)) <==> name !in KeySet(data)
  {
    var field: Option<Value> := Get(data, name);
    if field.None? then Failure(MissingField(name))
    else if field.value.Arr? then Success(field.value.entries)
    else Failure(FieldNotAnArray(name))
  }

  /** The decoded value holds all four collections as arrays. */
  predicate Decodable(data: Value)
  {
    && data.Arr?
    && Field(data.entries, "blocks").Success?
    && Field(data.entries, "containers").Success?
    && Field(data.entries, "realBlocks").Success?
    && Field(data.entries, "events").Success?
  }

  /**
   `unserialize`, after PHP's own decoder: restore the four collections from
   the decoded array and keep the receiver's configuration.
   */
  function Unserialize(c: Collector, data: Value): (r: Result<Collector, DecodeError>)
    ensures r.Success? <==> Decodable(data)
    ensures r.Success? ==> r.value.containerTypes == c.containerTypes
    ensures r.Success? ==> Get(data.entries, "blocks") == Some(Arr(r.value.blocks))
    ensures r.Success? ==> Get(data.entries, "containers") == Some(Arr(r.value.containers))
    ensures r.Success? ==> Get(data.entries, "realBlocks") == Some(Arr(r.value.realBlocks))
    ensures r.Success? ==> Get(data.entries, "events") == Some(Arr(r.value.events))
  {
    if !data.Arr? then Failure(NotAnArray)
    else
      var blocks :- Field(data.entries, "blocks");
      var containers :- Field(data.entries, "containers");
      var realBlocks :- Field(data.entries, "realBlocks");
      var events :- Field(data.entries, "events");
      Success(c.(blocks := blocks, containers := containers, realBlocks := realBlocks, events := events))
  }
}
