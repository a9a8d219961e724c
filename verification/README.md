# Deduplicator of lib/streamaggr/dedup.go, modelled in Dafny

The deduplicator sits in front of stream aggregation. Producers push
(key, value) samples. The deduplicator keeps, per key, only the most recent
value. A flush then hands exactly one (key, value) pair per key to the
aggregation callback and starts a new window.

The store is a map from an opaque string key to a per-key entry
(`dedupStateValue`). Each entry holds the latest value and a `deleted`
(retired) flag:

- a push writes into the key's live entry, or creates the entry;
- a flush deletes each entry from the map, retires it, and emits its value;
- a push that finds a retired entry starts again from the map lookup.

`stop` ends the background loop and flushes one last time.

The model has three modules:

- `Samples` (samples.dfy) is the value-level view. It defines a sample and
  `Apply`, the last-value-wins store that a sequence of pushes produces, and
  `LastValue`, the independent reference definition that scans from the end.
  `Drained` describes what a complete drain of a store hands out. Lemmas
  connect all three.
- `Dedup` (dedup.dfy) is the imperative model. `Entry` and `Deduplicator`
  are classes whose fields the methods update in place:
  - `m` is the map of entries, and each entry's `value` and `deleted` are
    mutable fields;
  - each critical section of the source is one atomic method: the map's
    `Load`/`LoadOrStore`, a push's locked write, and a flush's locked
    read-and-retire;
  - `PushSample` keeps the `goto again` retry as a loop, and `Flush` drains
    the map key by key;
  - the callback's output is returned as a sequence of samples;
  - `PushSampleRacingFlush` shows the one interleaving the tombstone protocol
    exists for: a flush runs between a push's lookup and its locked write.
- `Trace` (trace.dfy) describes a run as a sequence of push and flush events.
  The run is cut into windows: one per flush, plus the window that `stop`
  closes. `RunTrace` drives a real `Deduplicator` through any trace and then
  stops it. It proves that each output hands out exactly the last value of
  every key pushed in its window, once. The lemmas show two more facts:
  - every push reaches the output of its own window;
  - nothing else is emitted.

Values are a type parameter `V`: the source only stores and copies its
`float64` values.

The source's `run` creates a ticker and stops it on the very next line
(lib/streamaggr/dedup.go:35-36). The background loop can therefore only
leave through the stop channel, and never flushes on its own. The model
follows the code: no periodic flush is claimed. A `Flushed` event in a trace
is a call of `flush`. In a run of the source as written, the only flush is
the one `stop` makes, so the whole run is one window.

## Model

| member | source | states |
|---|---|---|
| Dedup.Entry.constructor | lib/streamaggr/dedup.go:63 | A new entry holds the pushed value and is live (not deleted). |
| Dedup.Entry.TryWrite | lib/streamaggr/dedup.go:73-78 | Under the entry's lock, a live entry takes the new value. A retired entry keeps its value and stays retired, and the caller learns it must retry. |
| Dedup.Entry.Retire | lib/streamaggr/dedup.go:100-104 | Under the entry's lock, the flush reads the value and marks the entry retired. The value read is the entry's value at the moment of retirement, and the value is left unchanged. |
| Dedup.Deduplicator.constructor | lib/streamaggr/dedup.go:21-28 | `newDeduplicator` keeps the interval and starts with an empty map, no callback bound, and the background loop not started. |
| Dedup.Deduplicator.Run | lib/streamaggr/dedup.go:30-47 | `run` binds the callback and enters Running. It does not touch the map and flushes nothing. It needs a positive interval and is called once. |
| Dedup.Deduplicator.LoadOrCreate | lib/streamaggr/dedup.go:60-71 | `Load` then `LoadOrStore`. When the key is in the map, its entry is returned and the map is unchanged. Otherwise a fresh live entry holding the value is stored under the key, and nothing else changes. |
| Dedup.Deduplicator.PushSample | lib/streamaggr/dedup.go:58-84 | After a push, the buffered store equals the old store with the key set to the value, and every other key keeps its value. An existing entry is written in place, so the map is unchanged. A missing key gets one fresh entry. Every entry in the map stays live. |
| Dedup.Deduplicator.FlushKey | lib/streamaggr/dedup.go:95-107 | One step of the flush's `Range`: the key leaves the map, and its entry is retired holding the value it had. The key is emitted with that value. Nothing else changes. |
| Dedup.Deduplicator.Flush | lib/streamaggr/dedup.go:86-113 | The flush emits exactly one pair per key that was in the map, and no key twice. The emitted pairs make up the buffered store. Every removed entry is retired with the value that was emitted. The map is left empty. An empty map emits nothing. A non-empty map needs the callback bound. |
| Dedup.Deduplicator.Stop | lib/streamaggr/dedup.go:49-56 | Stop ends in Stopped with an empty map. It emits every buffered key once with its latest value, and retires every removed entry. A deduplicator that was never run emits nothing. Stopping twice is excluded (it closes a closed channel). |
| Dedup.Deduplicator.PushSampleRacingFlush | lib/streamaggr/dedup.go:58-84 | A push whose lookup finds a live entry, interleaved with a flush before its locked write. The flush emits the whole old store. The retired entry keeps the value the flush emitted, so the late write is not committed into it. The retry creates a fresh entry holding the pushed value, which is all the next window holds. A push that creates its entry is not affected. |
| Dedup.FlushMaybeNil | lib/streamaggr/dedup.go:86-89 | `flush` on a nil deduplicator emits nothing. On a real one, it empties the map and emits the buffered store. |
| Dedup.StopMaybeNil | lib/streamaggr/dedup.go:49-52 | `stop` on a nil deduplicator does nothing. On a real one, it stops, empties the map and emits the buffered store. |
| Dedup.FlushAfterPushes | lib/streamaggr/dedup.go:58-113 | Pushing cpu=10, cpu=20 and mem=5 and then flushing emits exactly cpu=20 and mem=5, once each. A second flush emits nothing. |
| Samples.LastValueWins | lib/streamaggr/dedup.go:72-78 | After a sequence of pushes, a key is in the store iff it was there before or some push names it. Its value is that of its last push, or its earlier value when no push names it. |
| Samples.DrainedEmits | lib/streamaggr/dedup.go:95-108 | A partial drain has emitted distinct keys that are all outside the part still in the map. Together they make up exactly the store minus that part. |
| Samples.DrainedAll | lib/streamaggr/dedup.go:95-108 | A complete drain emits every key of the store exactly once with its value: as many pairs as keys, no duplicates, and the emitted pairs rebuild the store. |
| Samples.EmissionSize | lib/streamaggr/dedup.go:95-108 | Pairs with distinct keys rebuild a store with exactly one key per pair. |
| Trace.PushLandsInItsWindow | lib/streamaggr/dedup.go:58-84 | Every push's sample lies in the window opened by the flushes before it. |
| Trace.WindowSampleFromPush | lib/streamaggr/dedup.go:58-84 | Every sample of a window comes from a push that happened between that window's flushes. |
| Trace.StopDeliversEveryPush | lib/streamaggr/dedup.go:53-55 | The window a push lands in hands its key downstream, with the key's last value in that window. No push before stop is lost. |
| Trace.EmittedWasPushed | lib/streamaggr/dedup.go:95-106 | A window emits only keys pushed in it, and each with a value pushed for that key in that window. |
| Trace.LastPushWins | lib/streamaggr/dedup.go:72-78 | Take a push of (k, v) that no later push of k follows before the next flush. Its window emits exactly v for k. |
| Trace.Replay | lib/streamaggr/dedup.go:58-113 | One push or flush on a running deduplicator keeps two facts in step with the windows of the trace extended by that event: what is buffered, and what has been emitted. |
| Trace.RunTrace | lib/streamaggr/dedup.go:49-56 | Run, any trace of pushes and flushes, then stop. The result is one output per window, and each output hands out every key of its window once, with its last value there. |

## Left out

- The goroutine, `sync.WaitGroup`, stop channel and `select` loop of `run`
  (lib/streamaggr/dedup.go:32-46) are reduced to the `Phase` flag. The ticker
  is stopped as soon as it is created, so that loop never flushes, and the
  model has no clock.
- Concurrency in general:
  - `sync.Map` and each entry's `sync.Mutex` are replaced by atomic methods;
  - only the interleaving in `PushSampleRacingFlush` is modelled, not
    arbitrary interleavings of many producers with a flush;
  - nor the termination of the retry loop under contention (run alone,
    `PushSample` finishes in one round).
- The iteration order of `Range` is not modelled: `Flush` takes the keys in
  an arbitrary order, and its contract only states facts that hold in every
  order.
- The scratch buffers `bbPool`, `promutils.GetLabels`/`PutLabels` and the
  buffer and label arguments passed to the callback
  (lib/streamaggr/dedup.go:91-93, 106, 110-112) are left out. They do not
  affect what is emitted.
- The aggregation callback `pushSamplesAgg` is replaced by the returned
  sequence of samples.
- `float64` values are a type parameter, since they are only copied.
- `time.Duration` is an unbounded `int`; its 64-bit range is not modelled.
- Panics are modelled as preconditions:
  - a non-positive interval in `time.NewTicker`;
  - closing the stop channel twice;
  - calling the unbound callback when flushing a non-empty map before `run`.
- Dedup.FlushMaybeNil: for a real deduplicator, it states only the emptied
  map and the emitted store. The retired flags and output length are stated
  by `Flush`, which it calls.
- Dedup.StopMaybeNil: for a real deduplicator, it states only the phase, the
  emptied map and the emitted store. The rest is stated by `Stop`, which it
  calls.
