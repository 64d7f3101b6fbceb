# Block data collector, in Dafny

A model of `BlockDataCollector`, the Symfony profiler collector of the Sonata
block bundle. During a request the block helper records a trace of every
rendered block, keyed by block id, with one reserved entry `_events` that
holds the block events fired on the page. At the end of the request
`collect` copies that trace into `blocks` and walks it in order:

- a value that is not an array ends the walk at once, silently, keeping what
  was filed before it;
- the `_events` entry is copied record by record into `events`;
- every other entry is filed, unchanged and under its own id, into
  `containers` when its `type` is one of the configured container types and
  into `realBlocks` otherwise.

`getTotalBlock` counts containers plus real blocks, `reset` empties the four
collections, `getName` is the constant `"block"`, and `serialize` /
`unserialize` carry the four collections (not the configuration) through
PHP's serializer.

Files:

- `wrappers.dfy`: `Option` and `Result`.
- `ordered_array.dfy`: PHP arrays as ordered key/value sequences, with the
  assignment `$a[$k] = $v` (overwrite in place, or append) and its laws.
- `php_value.dfy`: trace values, an array or any other (scalar) PHP value.
- `block_data_collector.dfy`: the collector record and every method of the class.
- `collect_properties.dfy`: `collect` proved equal to a filter-based reference
  definition, and the properties that follow from it.
- `collector_lifecycle.dfy`: `reset`, `getName`, the serialization round trip,
  and two worked traces.

The collector object becomes an immutable `Collector` record; each method
that assigns properties becomes a function from the old record to the new
one. The read accessors `getEvents`, `getBlocks`, `getContainers` and
`getRealBlocks` return a property unchanged, so they are the record's field
selectors.

`collect` does not clear `containers`, `realBlocks` or `events` before the
walk: only `blocks` is reassigned. A second `collect` without `reset` therefore
keeps the earlier entries unless the new trace overwrites their id. So
`collect` does not replace the whole state on every call, and `containers`
and `realBlocks` need not partition `blocks`: the partition holds when
collecting into an empty collector, and then only for the part of the trace
the walk reaches (`CollectFromEmptyPartitions`). The model follows the code
here, not the reading in which every `collect` starts afresh.

## Model

| member | source | states |
|---|---|---|
| `OrderedArray.Get` | src/Profiler/DataCollector/BlockDataCollector.php:89 | Reading `$block['type']`: absent exactly when the key is not in the array, and otherwise a value the array pairs with that key |
| `OrderedArray.Put` | src/Profiler/DataCollector/BlockDataCollector.php:90-92 | `$a[$k] = $v`: afterwards `k` reads `v` and every other key reads as before; an existing key keeps its position and the length is unchanged, a new key is appended |
| `OrderedArray.PutKeys` | src/Profiler/DataCollector/BlockDataCollector.php:90-92 | An assignment adds exactly its key to the key set and never duplicates a key |
| `OrderedArray.PutAll` | src/Profiler/DataCollector/BlockDataCollector.php:82-84 | The per-record copy loop: existing keys keep their positions, the key set is the union, keys not assigned keep their values, and no key is duplicated |
| `OrderedArray.GetPutAll` | src/Profiler/DataCollector/BlockDataCollector.php:82-84 | After the copy loop, an assigned key holds the last value given to it (a later duplicate wins); an untouched key holds its old value |
| `BlockDataCollector.New` | src/Profiler/DataCollector/BlockDataCollector.php:62-66 | The constructor keeps the container types and starts with four empty collections |
| `BlockDataCollector.IsContainer` | src/Profiler/DataCollector/BlockDataCollector.php:89 | The routing test: only an array whose `type` is present, is not an array, and is one of the container types counts as a container |
| `BlockDataCollector.IsContainerOfType` | src/Profiler/DataCollector/BlockDataCollector.php:89 | Conversely, an array whose `type` is the text `t` is a container exactly when `t` is one of the container types |
| `BlockDataCollector.Processed` | src/Profiler/DataCollector/BlockDataCollector.php:76-79 | The entries the loop handles are the longest prefix of the trace whose values are all arrays; the entry right after it, if any, is not an array |
| `BlockDataCollector.Aborted` | src/Profiler/DataCollector/BlockDataCollector.php:77-79 | The loop returns early exactly when some trace value is not an array |
| `BlockDataCollector.Walk` | src/Profiler/DataCollector/BlockDataCollector.php:76-94 | The loop never changes `blocks` or the container types, and never removes a key from `containers`, `realBlocks` or `events` |
| `BlockDataCollector.Collect` | src/Profiler/DataCollector/BlockDataCollector.php:71-95 | After `collect`, `blocks` is the trace exactly as the helper returned it, the container types are unchanged, and the keys of the three derived collections only grow |
| `BlockDataCollector.TotalBlock` | src/Profiler/DataCollector/BlockDataCollector.php:102-105 | The count is the number of real-block ids plus the number of container ids, and zero for an empty collector |
| `BlockDataCollector.Name` | src/Profiler/DataCollector/BlockDataCollector.php:178-181 | The name is `"block"` |
| `BlockDataCollector.Reset` | src/Profiler/DataCollector/BlockDataCollector.php:186-192 | `reset` leaves all four collections empty and keeps the container types |
| `BlockDataCollector.Serialize` | src/Profiler/DataCollector/BlockDataCollector.php:150-160 | The serialized array has exactly the keys `blocks`, `containers`, `realBlocks`, `events`, each holding that collection |
| `BlockDataCollector.Field` | src/Profiler/DataCollector/BlockDataCollector.php:169-172 | A field decodes exactly when it is present and holds an array, and then it is that array; a missing field is reported as missing |
| `BlockDataCollector.Unserialize` | src/Profiler/DataCollector/BlockDataCollector.php:165-173 | Decoding succeeds exactly when the value is an array holding the four collections as arrays; the result holds those four arrays and keeps the receiver's container types |
| `CollectProperties.Routed` | src/Profiler/DataCollector/BlockDataCollector.php:89-93 | The reference filter keeps exactly the non-`_events` array entries on the requested side, never has the key `_events`, and keeps ids distinct |
| `CollectProperties.CollectMatchesReference` | src/Profiler/DataCollector/BlockDataCollector.php:71-95 | For every prior state and trace, `collect` equals assigning the filtered containers, the filtered real blocks and the `_events` records of the processed prefix onto the prior collections |
| `CollectProperties.CollectStopsAtNonArray` | src/Profiler/DataCollector/BlockDataCollector.php:76-79 | A non-array value, under any key including `_events`, ends the walk: the result is `collect` of the entries before it, nothing after it is filed, `blocks` is the whole trace, and no error is raised |
| `CollectProperties.CollectNeverFilesEventsKey` | src/Profiler/DataCollector/BlockDataCollector.php:81-87 | `collect` never writes the key `_events` into `containers` or `realBlocks` |
| `CollectProperties.CollectOnlyAddsOrOverwrites` | src/Profiler/DataCollector/BlockDataCollector.php:71-95 | Earlier entries of the three derived collections keep their positions, and an id that the processed trace does not mention keeps its earlier value |
| `CollectProperties.CollectRoutesEachBlock` | src/Profiler/DataCollector/BlockDataCollector.php:89-93 | With distinct ids, each processed block is stored unchanged under its id in `containers` when its type is a container type and in `realBlocks` otherwise, and the other side is untouched for that id |
| `CollectProperties.CollectCopiesEvents` | src/Profiler/DataCollector/BlockDataCollector.php:81-87 | Each record of the `_events` entry ends up in `events` under its own id with its last value, overriding an earlier value; other event ids keep their values |
| `CollectProperties.CollectWithoutEvents` | src/Profiler/DataCollector/BlockDataCollector.php:81-87 | A trace without `_events` leaves `events` unchanged |
| `CollectProperties.CollectPreservesWellFormed` | src/Profiler/DataCollector/BlockDataCollector.php:82-93 | If no derived collection repeats a key before `collect`, none does after it |
| `CollectProperties.CollectFromEmptyFilters` | src/Profiler/DataCollector/BlockDataCollector.php:89-93 | From an empty collector with distinct ids, `containers` and `realBlocks` are exactly the container and non-container blocks of the processed prefix, in trace order |
| `CollectProperties.CollectFromEmptyPartitions` | src/Profiler/DataCollector/BlockDataCollector.php:76-105 | From an empty collector with distinct ids, `containers` and `realBlocks` share no id and together hold every processed id except `_events`, and `getTotalBlock` is the number of those ids |
| `CollectProperties.CollectFromEmptyEvents` | src/Profiler/DataCollector/BlockDataCollector.php:81-87 | From an empty collector, `events` is the processed `_events` array itself |
| `CollectorLifecycle.ResetForgetsEverything` | src/Profiler/DataCollector/BlockDataCollector.php:186-192 | Whatever the prior state, `reset` gives a freshly built collector; it is idempotent and makes the count zero |
| `CollectorLifecycle.NameIgnoresState` | src/Profiler/DataCollector/BlockDataCollector.php:178-181 | The name is the same for every state |
| `CollectorLifecycle.SerializeRoundTrip` | src/Profiler/DataCollector/BlockDataCollector.php:150-173 | Unserializing a serialized collector restores its four collections into any receiver and keeps the receiver's container types |
| `CollectorLifecycle.SerializeIgnoresConfiguration` | src/Profiler/DataCollector/BlockDataCollector.php:150-160 | The container types never reach the serialized form |
| `CollectorLifecycle.UnserializeThenSerialize` | src/Profiler/DataCollector/BlockDataCollector.php:150-173 | A snapshot that decodes re-serializes to the same four collections |
| `CollectorLifecycle.UnserializeRejectsIncomplete` | src/Profiler/DataCollector/BlockDataCollector.php:165-173 | A decoded value that is not an array, or lacks one of the four collections, is rejected |
| `CollectorLifecycle.ClassifiesSampleTrace` | src/Profiler/DataCollector/BlockDataCollector.php:71-105 | With container type `container`, a container block, a text block and one event give one container, one real block, that event, and a count of 2 |
| `CollectorLifecycle.ClassifiesEmptyTrace` | src/Profiler/DataCollector/BlockDataCollector.php:71-105 | The empty trace leaves a fresh collector with empty collections and a count of 0 |

## Left out

- `BlockHelper::getTraces()` is not part of this model: the trace it returns is a parameter of `Collect`, and the `blocksHelper` property is not a field of the record.
- The `Request`, `Response` and exception arguments of `collect` are unused by it and are not modelled.
- PHP's native `serialize`/`unserialize` byte format is a library call; `Serialize` stops at the array handed to it and `Unserialize` starts from the decoded value.
- BlockDataCollector.Unserialize: PHP's behaviour on a decoded value that is not an array depends on what it is. Input PHP cannot decode gives `false`; for that, and for `null`, an integer, a float or a boolean, every `$merged['…']` reads as `null` and all four properties become `null` without an error. For a decoded string, PHP 7 warns "Illegal string offset" and assigns the string's first character. For a decoded object without `ArrayAccess`, `$merged['blocks']` throws an `Error`. The model maps every one of these decoded non-array values to `NotAnArray`. A missing field is read as `null` with a notice and assigned, and a non-array field is assigned as it is. The model rejects all three cases with a `DecodeError` (`NotAnArray`, `MissingField`, `FieldNotAnArray`) and promises nothing about the `null`-filled state PHP would produce.
- BlockDataCollector.Field: a missing field is `MissingField` and a non-array field is `FieldNotAnArray`. PHP reads the first as `null` (with a notice) and returns the second unchanged, so in both cases it assigns a value instead of failing.
- CollectorLifecycle.UnserializeRejectsIncomplete: the rejection it states is the model's `DecodeError` policy described above. PHP rejects only a decoded object, by throwing. For a missing field, or a decoded `false`, `null`, number or boolean, PHP assigns `null`. For a decoded string it assigns the string's first character.
- PHP's loose comparisons are not modelled: `'_events' == $id` is exact string equality (an integer key `0` would also match under PHP 7), keys are strings, and `in_array` compares type names exactly.
- A block record without a `type` field only raises a notice in PHP; `Collect` requires every record the walk reaches to carry one (`TypesPresent`).
- Every non-array PHP value (string, integer, boolean, null, object) is one `Scalar` case carrying a text, because the walk only asks whether a value is an array. `IsContainer` compares that text with the container type names exactly. PHP's loose `in_array` matches more, and those matches are left out: a `type` of `true` matches any type name other than `""` and `"0"`, and `"1e1"` matches `"10"`. An integer `5` is the `Scalar` with text `"5"`, so the model, like PHP, lets it match the type name `"5"`.
- PHP arrays never repeat a key; the model's arrays are sequences that may, so the lemmas that need unique ids say so (`DistinctKeys`).
- Aliasing and by-reference return of the collections do not arise with immutable values.
