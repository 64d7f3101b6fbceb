/**
 What `collect` promises, proved equal to an independent reference: instead
 of routing entry by entry, filter the processed part of the trace into its
 container blocks, its real blocks and its event records, and assign each
 filtered list in one go.
 */
module CollectProperties {
  import opened Wrappers
  import opened OrderedArray
  import opened PhpValue
  import opened BlockDataCollector

  /** An entry that belongs in `containers` (or, when `toContainers` is false, in `realBlocks`). */
  predicate RoutedTo(entry: (string, Value), containerTypes: seq<string>, toContainers: bool)
  {
    entry.1.Arr? && entry.0 != EventsKey && IsContainer(entry.1, containerTypes) == toContainers
  }

  /** The entries of `p` routed to one side, in trace order. */
  function Routed(p: PhpArray, containerTypes: seq<string>, toContainers: bool): (r: PhpArray)
    ensures forall j | 0 <= j < |r| :: r[j] in p && RoutedTo(r[j], containerTypes, toContainers)
    ensures forall i | 0 <= i < |p| && RoutedTo(p[i], containerTypes, toContainers) :: p[i] in r
    ensures KeySet(r) <= KeySet(p) && EventsKey !in KeySet(r)
    ensures DistinctKeys(p) ==> DistinctKeys(r)
    decreases |p|
  {
    if p == [] then []
    else
      var tail := Routed(p[1..], containerTypes, toContainers);
      KeySetCons(p);
      var r := (if RoutedTo(p[0], containerTypes, toContainers) then [p[0]] else []) + tail;
      KeySetAppend(if RoutedTo(p[0], containerTypes, toContainers) then [p[0]] else [], tail);
      assert forall i | 1 <= i < |p| :: p[i] == p[1..][i - 1];
      assert DistinctKeys(p) ==> DistinctKeys(r) by {
        if DistinctKeys(p) && RoutedTo(p[0], containerTypes, toContainers) {
          assert p[0].0 !in KeySet(p[1..]) by {
            forall i | 0 <= i < |p[1..]| ensures p[1..][i].0 != p[0].0 {
              assert p[1..][i] == p[i + 1];
            }
          }
          DistinctCons(p[0], tail);
        }
      }
      r
  }

  lemma DistinctCons(x: (string, Value), s: PhpArray)
    requires DistinctKeys(s) && x.0 !in KeySet(s)
    ensures DistinctKeys([x] + s)
  {
    forall i, j | 0 <= i < j < |[x] + s| ensures ([x] + s)[i].0 != ([x] + s)[j].0 {
      assert ([x] + s)[j] == s[j - 1];
      if i > 0 {
        assert ([x] + s)[i] == s[i - 1];
      }
    }
  }

  /** The sub-entries of every `_events` array in `p`, in trace order. */
  function EventEntries(p: PhpArray): PhpArray
    decreases |p|
  {
    if p == [] then []
    else (if p[0].0 == EventsKey && p[0].1.Arr? then p[0].1.entries else []) + EventEntries(p[1..])
  }

  /** `collect` by filters: the reference the walk is proved equal to. */
  ghost function Reference(c: Collector, trace: PhpArray): Collector
  {
    var p := Processed(trace);
    c.(blocks := trace,
       containers := PutAll(c.containers, Routed(p, c.containerTypes, true)),
       realBlocks := PutAll(c.realBlocks, Routed(p, c.containerTypes, false)),
       events := PutAll(c.events, EventEntries(p)))
  }

  lemma PutAllSingle(m: PhpArray, x: (string, Value))
    ensures PutAll(m, [x]) == Put(m, x.0, x.1)
  {
    assert [x][1..] == [];
  }

  lemma {:induction false} WalkMatchesFilters(c: Collector, rest: PhpArray)
    requires TypesPresent(rest)
    ensures Walk(c, rest) == c.(
      containers := PutAll(c.containers, Routed(Processed(rest), c.containerTypes, true)),
      realBlocks := PutAll(c.realBlocks, Routed(Processed(rest), c.containerTypes, false)),
      events := PutAll(c.events, EventEntries(Processed(rest))))
    decreases |rest|
  {
    if rest != [] && rest[0].1.Arr? {
      var x := rest[0];
      var p := Processed(rest);
      var tail := Processed(rest[1..]);
      var types := c.containerTypes;
      assert p == [x] + tail;
      assert p[0] == x && p[1..] == tail;
      var hc: PhpArray := if RoutedTo(x, types, true) then [x] else [];
      var hr: PhpArray := if RoutedTo(x, types, false) then [x] else [];
      var he: PhpArray := if x.0 == EventsKey then x.1.entries else [];
      assert Routed(p, types, true) == hc + Routed(tail, types, true);
      assert Routed(p, types, false) == hr + Routed(tail, types, false);
      assert EventEntries(p) == he + EventEntries(tail);
      PutAllAppend(c.containers, hc, Routed(tail, types, true));
      PutAllAppend(c.realBlocks, hr, Routed(tail, types, false));
      PutAllAppend(c.events, he, EventEntries(tail));
      PutAllSingle(c.containers, x);
      PutAllSingle(c.realBlocks, x);
      var c' := c.(
        containers := PutAll(c.containers, hc),
        realBlocks := PutAll(c.realBlocks, hr),
        events := PutAll(c.events, he));
      assert Walk(c, rest) == Walk(c', rest[1..]);
      WalkMatchesFilters(c', rest[1..]);
    }
  }

  /** The walk and the filters agree on every prior state and every trace. */
  lemma CollectMatchesReference(c: Collector, trace: PhpArray)
    requires TypesPresent(trace)
    ensures Collect(c, trace) == Reference(c, trace)
  {
    WalkMatchesFilters(c.(blocks := trace), trace);
  }

  /** The records before a bad entry carry their `type` when the whole trace does. */
  lemma {:induction false} TypesPresentBefore(before: PhpArray, bad: (string, Value), after: PhpArray)
    requires forall i | 0 <= i < |before| :: before[i].1.Arr?
    requires TypesPresent(before + [bad] + after)
    ensures TypesPresent(before)
    decreases |before|
  {
    if before != [] {
      var trace := before + [bad] + after;
      assert trace[0] == before[0];
      assert trace[1..] == before[1..] + [bad] + after;
      TypesPresentBefore(before[1..], bad, after);
    }
  }

  /**
   The walk ends at the first non-array value, `_events` included: what came
   before is filed, nothing after it is looked at, and `blocks` still holds
   the whole trace.
   */
  lemma CollectStopsAtNonArray(c: Collector, before: PhpArray, id: string, bad: Value, after: PhpArray)
    requires forall i | 0 <= i < |before| :: before[i].1.Arr?
    requires !bad.Arr?
    requires TypesPresent(before + [(id, bad)] + after)
    ensures (TypesPresentBefore(before, (id, bad), after);
             Collect(c, before + [(id, bad)] + after) == Collect(c, before).(blocks := before + [(id, bad)] + after))
    ensures Aborted(before + [(id, bad)] + after) && !Aborted(before)
  {
    var trace := before + [(id, bad)] + after;
    TypesPresentBefore(before, (id, bad), after);
    var p := Processed(trace);
    assert trace[|before|] == (id, bad);
    assert forall i | 0 <= i < |before| :: trace[i] == before[i];
    assert |p| == |before|;
    assert p == before;
    assert Processed(before) == before;
    CollectMatchesReference(c, trace);
    CollectMatchesReference(c, before);
  }

  /** The reserved key is never filed as a block. */
  lemma CollectNeverFilesEventsKey(c: Collector, trace: PhpArray)
    requires TypesPresent(trace)
    ensures Get(Collect(c, trace).containers, EventsKey) == Get(c.containers, EventsKey)
    ensures Get(Collect(c, trace).realBlocks, EventsKey) == Get(c.realBlocks, EventsKey)
  {
    CollectMatchesReference(c, trace);
  }

  /**
   Only assignments: earlier entries keep their place, and a key the
   processed trace does not mention keeps its earlier value.
   */
  lemma CollectOnlyAddsOrOverwrites(c: Collector, trace: PhpArray, k: string)
    requires TypesPresent(trace)
    ensures |c.containers| <= |Collect(c, trace).containers|
    ensures |c.realBlocks| <= |Collect(c, trace).realBlocks|
    ensures |c.events| <= |Collect(c, trace).events|
    ensures forall i | 0 <= i < |c.containers| :: Collect(c, trace).containers[i].0 == c.containers[i].0
    ensures forall i | 0 <= i < |c.realBlocks| :: Collect(c, trace).realBlocks[i].0 == c.realBlocks[i].0
    ensures forall i | 0 <= i < |c.events| :: Collect(c, trace).events[i].0 == c.events[i].0
    ensures k !in KeySet(Processed(trace)) ==>
      && Get(Collect(c, trace).containers, k) == Get(c.containers, k)
      && Get(Collect(c, trace).realBlocks, k) == Get(c.realBlocks, k)
    ensures k !in KeySet(EventEntries(Processed(trace))) ==> Get(Collect(c, trace).events, k) == Get(c.events, k)
  {
    CollectMatchesReference(c, trace);
  }

  /** Among the processed entries of `p`, at most one has key `k`. */
  lemma RoutedLookup(p: PhpArray, types: seq<string>, side: bool, i: nat)
    requires DistinctKeys(p) && i < |p|
    ensures RoutedTo(p[i], types, side) ==> p[i].0 in KeySet(Routed(p, types, side)) && LastValue(Routed(p, types, side), p[i].0) == p[i].1
    ensures !RoutedTo(p[i], types, side) ==> p[i].0 !in KeySet(Routed(p, types, side))
  {
    var r := Routed(p, types, side);
    var k := p[i].0;
    forall j | 0 <= j < |r| && r[j].0 == k ensures r[j] == p[i] {
      var i' :| 0 <= i' < |p| && p[i'] == r[j];
    }
    if RoutedTo(p[i], types, side) {
      var j :| 0 <= j < |r| && r[j] == p[i];
      assert k in KeySet(r);
      LastValueDistinct(r, k);
    }
  }

  /**
   With a trace of distinct ids, every processed block lands under its own id,
   value unchanged, in `containers` when its type is a container type and in
   `realBlocks` otherwise; the other side keeps its earlier value for that id.
   */
  lemma CollectRoutesEachBlock(c: Collector, trace: PhpArray, i: nat)
    requires TypesPresent(trace) && DistinctKeys(trace)
    requires i < |Processed(trace)| && trace[i].0 != EventsKey
    ensures IsContainer(trace[i].1, c.containerTypes) ==>
      && Get(Collect(c, trace).containers, trace[i].0) == Some(trace[i].1)
      && Get(Collect(c, trace).realBlocks, trace[i].0) == Get(c.realBlocks, trace[i].0)
    ensures !IsContainer(trace[i].1, c.containerTypes) ==>
      && Get(Collect(c, trace).realBlocks, trace[i].0) == Some(trace[i].1)
      && Get(Collect(c, trace).containers, trace[i].0) == Get(c.containers, trace[i].0)
  {
    var p := Processed(trace);
    assert p[i] == trace[i];
    CollectMatchesReference(c, trace);
    RoutedLookup(p, c.containerTypes, true, i);
    RoutedLookup(p, c.containerTypes, false, i);
    GetPutAll(c.containers, Routed(p, c.containerTypes, true), trace[i].0);
    GetPutAll(c.realBlocks, Routed(p, c.containerTypes, false), trace[i].0);
  }

  lemma {:induction false} EventEntriesWithoutEvents(p: PhpArray)
    requires EventsKey !in KeySet(p)
    ensures EventEntries(p) == []
    decreases |p|
  {
    if p != [] {
      KeySetCons(p);
      EventEntriesWithoutEvents(p[1..]);
    }
  }

  /** With distinct keys, the event records are those of the one `_events` entry. */
  lemma {:induction false} EventEntriesOfSingle(p: PhpArray, i: nat)
    requires DistinctKeys(p) && i < |p| && p[i].0 == EventsKey && p[i].1.Arr?
    ensures EventEntries(p) == p[i].1.entries
    decreases |p|
  {
    KeySetCons(p);
    assert DistinctKeys(p[1..]) by {
      forall a, b | 0 <= a < b < |p[1..]| ensures p[1..][a].0 != p[1..][b].0 {
        assert p[1..][a] == p[a + 1] && p[1..][b] == p[b + 1];
      }
    }
    if i == 0 {
      assert EventsKey !in KeySet(p[1..]) by {
        forall j | 0 <= j < |p[1..]| ensures p[1..][j].0 != EventsKey {
          assert p[1..][j] == p[j + 1];
        }
      }
      EventEntriesWithoutEvents(p[1..]);
    } else {
      assert p[0].0 != EventsKey;
      assert p[1..][i - 1] == p[i];
      EventEntriesOfSingle(p[1..], i - 1);
    }
  }

  /**
   The `_events` entry's records are assigned into `events` under their own
   ids: each id ends up with the last value the entry gives it, whatever
   `events` held before, and no other id changes.
   */
  lemma CollectCopiesEvents(c: Collector, trace: PhpArray, i: nat, e: string)
    requires TypesPresent(trace) && DistinctKeys(trace)
    requires i < |Processed(trace)| && trace[i].0 == EventsKey
    ensures e in KeySet(trace[i].1.entries) ==> Get(Collect(c, trace).events, e) == Some(LastValue(trace[i].1.entries, e))
    ensures e !in KeySet(trace[i].1.entries) ==> Get(Collect(c, trace).events, e) == Get(c.events, e)
  {
    var p := Processed(trace);
    assert p[i] == trace[i];
    ProcessedDistinct(trace);
    EventEntriesOfSingle(p, i);
    CollectMatchesReference(c, trace);
    GetPutAll(c.events, EventEntries(p), e);
  }

  /** A trace without `_events` leaves `events` as it was. */
  lemma CollectWithoutEvents(c: Collector, trace: PhpArray)
    requires TypesPresent(trace) && EventsKey !in KeySet(trace)
    ensures Collect(c, trace).events == c.events
  {
    var p := Processed(trace);
    assert KeySet(p) <= KeySet(trace) by {
      forall k | k in KeySet(p) ensures k in KeySet(trace) {
        var j :| 0 <= j < |p| && p[j].0 == k;
        assert trace[j] == p[j];
      }
    }
    EventEntriesWithoutEvents(p);
    CollectMatchesReference(c, trace);
  }

  /** Well-formed derived collections stay well-formed. */
  lemma CollectPreservesWellFormed(c: Collector, trace: PhpArray)
    requires TypesPresent(trace) && WellFormed(c)
    ensures WellFormed(Collect(c, trace))
  {
    CollectMatchesReference(c, trace);
  }

  lemma RoutedPartition(p: PhpArray, types: seq<string>)
    requires DistinctKeys(p)
    requires forall i | 0 <= i < |p| :: p[i].1.Arr?
    ensures KeySet(Routed(p, types, true)) !! KeySet(Routed(p, types, false))
    ensures KeySet(Routed(p, types, true)) + KeySet(Routed(p, types, false)) == KeySet(p) - {EventsKey}
  {
    forall k | k in KeySet(p) && k != EventsKey
      ensures k in KeySet(Routed(p, types, true)) + KeySet(Routed(p, types, false))
    {
      var i :| 0 <= i < |p| && p[i].0 == k;
      RoutedLookup(p, types, true, i);
      RoutedLookup(p, types, false, i);
    }
    forall k | k in KeySet(Routed(p, types, true))
      ensures k !in KeySet(Routed(p, types, false))
    {
      var r := Routed(p, types, true);
      var j :| 0 <= j < |r| && r[j].0 == k;
      var i :| 0 <= i < |p| && p[i] == r[j];
      RoutedLookup(p, types, false, i);
    }
  }

  lemma ProcessedDistinct(trace: PhpArray)
    requires DistinctKeys(trace)
    ensures DistinctKeys(Processed(trace))
  {
    var p := Processed(trace);
    forall a, b | 0 <= a < b < |p| ensures p[a].0 != p[b].0 {
      assert p[a] == trace[a] && p[b] == trace[b];
    }
  }

  /** From an empty collector and distinct ids, each side is exactly its filter, in trace order. */
  lemma CollectFromEmptyFilters(c: Collector, trace: PhpArray)
    requires IsEmpty(c) && TypesPresent(trace) && DistinctKeys(trace)
    ensures Collect(c, trace).containers == Routed(Processed(trace), c.containerTypes, true)
    ensures Collect(c, trace).realBlocks == Routed(Processed(trace), c.containerTypes, false)
  {
    var p := Processed(trace);
    ProcessedDistinct(trace);
    var rc := Routed(p, c.containerTypes, true);
    var rr := Routed(p, c.containerTypes, false);
    assert [] + rc == rc && [] + rr == rr;
    PutAllFresh([], rc);
    PutAllFresh([], rr);
    CollectMatchesReference(c, trace);
  }

  /**
   From an empty collector and a trace of distinct ids, the processed block
   ids are split between `containers` and `realBlocks` with no id in both and
   no id missing, and the block count is the number of processed ids other
   than `_events`.
   */
  lemma CollectFromEmptyPartitions(c: Collector, trace: PhpArray)
    requires IsEmpty(c) && TypesPresent(trace) && DistinctKeys(trace)
    ensures KeySet(Collect(c, trace).containers) !! KeySet(Collect(c, trace).realBlocks)
    ensures KeySet(Collect(c, trace).containers) + KeySet(Collect(c, trace).realBlocks)
         == KeySet(Processed(trace)) - {EventsKey}
    ensures TotalBlock(Collect(c, trace)) == |KeySet(Processed(trace)) - {EventsKey}|
  {
    var r := Collect(c, trace);
    CollectFromEmptyFilters(c, trace);
    ProcessedDistinct(trace);
    RoutedPartition(Processed(trace), c.containerTypes);
    CollectPreservesWellFormed(c, trace);
    var kc := KeySet(r.containers);
    var kr := KeySet(r.realBlocks);
    assert TotalBlock(r) == |kr| + |kc|;
    assert |kc + kr| == |kc| + |kr|;
  }

  /** From an empty collector, `events` is the `_events` entry's array itself. */
  lemma CollectFromEmptyEvents(c: Collector, trace: PhpArray, i: nat)
    requires IsEmpty(c) && TypesPresent(trace) && DistinctKeys(trace)
    requires i < |Processed(trace)| && trace[i].0 == EventsKey
    requires DistinctKeys(trace[i].1.entries)
    ensures Collect(c, trace).events == trace[i].1.entries
  {
    var p := Processed(trace);
    assert p[i] == trace[i];
    ProcessedDistinct(trace);
    EventEntriesOfSingle(p, i);
    assert [] + trace[i].1.entries == trace[i].1.entries;
    PutAllFresh([], trace[i].1.entries);
    CollectMatchesReference(c, trace);
  }
}
