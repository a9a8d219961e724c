/**
 The deduplicator of lib/streamaggr/dedup.go: a map from an opaque string key
 to a per-key entry holding the latest value and a `deleted` (retired) flag.
 Pushes upsert into the map; a flush removes every entry, retires it and emits
 one (key, value) pair per key; stop ends the background loop and flushes once
 more. Each critical section of the source (an entry's lock held from Lock to
 Unlock, and the map's LoadOrStore) is one atomic method here.
 */
module Dedup {
  import opened Samples

  /** Lifecycle of the deduplicator: constructed, background loop started, stopped. */
  datatype Phase = Idle | Running | Stopped

  /** The per-key entry (`dedupStateValue`): the latest value and the retired flag. */
  class Entry<V> {
    /** The key the entry was created for (a proof device: the source does not store it). */
    ghost const key: string
    var value: V
    var deleted: bool

    constructor (key: string, value: V)
      ensures this.key == key && this.value == value && !deleted
    {
      this.key := key;
      this.value := value;
      deleted := false;
    }

    /** A push's critical section: write the value unless the entry is retired.
        A retired entry is never written; `written` tells the caller whether to retry. */
    method TryWrite(v: V) returns (written: bool)
      modifies this
      ensures written == !old(deleted)
      ensures deleted == old(deleted)
      ensures value == (if written then v else old(value))
    {
      written := !deleted;
      if written {
        value := v;
      }
    }

    /** A flush's critical section: read the value and retire the entry. */
    method Retire() returns (last: V)
      modifies this
      ensures last == old(value) && value == old(value)
      ensures deleted
    {
      last := value;
      deleted := true;
    }
  }

  class Deduplicator<V> {
    /** The flush interval (a `time.Duration`, in nanoseconds). */
    const interval: int
    /** The key -> entry map (`m`, a `sync.Map` in the source). */
    var m: map<string, Entry<V>>
    /** Whether `run` has bound the aggregation callback (`pushSamplesAgg != nil`). */
    var bound: bool
    var phase: Phase

    /** Every entry in the map is live and was created for the key it is
        stored under, so no entry is shared by two keys. */
    ghost predicate Valid()
      reads this, m.Values
    {
      forall k :: k in m ==> m[k].key == k && !m[k].deleted
    }

    /** The buffered window: the latest value of every key in the map. */
    ghost function Contents(): map<string, V>
      reads this, m.Values
    {
      map k | k in m :: m[k].value
    }

    /** `newDeduplicator`: an empty map, no callback, background loop not started. */
    constructor (dedupInterval: int)
      ensures Valid()
      ensures interval == dedupInterval && m == map[] && !bound && phase == Idle
    {
      interval := dedupInterval;
      m := map[];
      bound := false;
      phase := Idle;
    }

    /** `run`: binds the aggregation callback and starts the background loop.
        The loop's ticker is stopped right after it is created, so the loop only
        waits for stop; no flush happens here. Creating the ticker panics on a
        non-positive interval, and the source starts the loop once. */
    method Run()
      requires Valid()
      requires phase == Idle
      requires interval > 0
      modifies this
      ensures Valid()
      ensures bound && phase == Running && m == old(m)
    {
      bound := true;
      phase := Running;
    }

    /** `Load` followed by `LoadOrStore`: the entry of `key`, created holding
        `value` when the map has none. */
    method LoadOrCreate(key: string, value: V) returns (e: Entry<V>, created: bool)
      requires Valid()
      modifies this
      ensures Valid()
      ensures created == (key !in old(m))
      ensures key in m && e == m[key]
      ensures !created ==> m == old(m)
      ensures created ==> fresh(e) && e.key == key && e.value == value && !e.deleted && m == old(m)[key := e]
      ensures bound == old(bound) && phase == old(phase)
    {
      if key in m {
        e, created := m[key], false;
      } else {
        e := new Entry(key, value);
        m, created := m[key := e], true;
      }
    }

    /** `pushSample`: the key's latest value becomes `value`; every other key
        keeps its entry and its value. A live entry is overwritten in place; a
        missing one is created fresh. Seeing a retired entry restarts from the
        lookup (`goto again`); run alone, the entry found is always live. */
    method PushSample(key: string, value: V)
      requires Valid()
      modifies this, m.Values
      ensures Valid()
      ensures Contents() == old(Contents())[key := value]
      ensures key in old(m) ==> m == old(m)
      ensures key !in old(m) ==> key in m && fresh(m[key]) && m == old(m)[key := m[key]]
      ensures bound == old(bound) && phase == old(phase)
    {
      var done := false;
      while !done
        invariant Valid()
        invariant bound == old(bound) && phase == old(phase)
        invariant !done ==> m == old(m) && Contents() == old(Contents())
        invariant done ==> Contents() == old(Contents())[key := value]
        invariant done && key in old(m) ==> m == old(m)
        invariant done && key !in old(m) ==> key in m && fresh(m[key]) && m == old(m)[key := m[key]]
        decreases !done
      {
        var e, created := LoadOrCreate(key, value);
        if created {
          done := true;
        } else {
          var written := e.TryWrite(value);
          done := written;
        }
      }
    }

    /** One step of the flush's `Range`: delete `k` from the map, retire its
        entry and emit (k, the entry's value at retirement). Nothing else changes. */
    method FlushKey(k: string) returns (s: Sample<V>)
      requires Valid() && k in m
      modifies this, m[k]
      ensures Valid() && m == old(m) - {k}
      ensures s == Sample(k, old(Contents())[k])
      ensures old(m)[k].deleted && old(m)[k].value == s.value
      ensures bound == old(bound) && phase == old(phase)
    {
      var e := m[k];
      m := m - {k};
      var v := e.Retire();
      s := Sample(k, v);
    }

    /** `flush`: every key of the map is removed and its entry retired, and one
        (key, value) pair per key is emitted, carrying the entry's value at the
        moment it was retired. The map is left empty; an empty map emits nothing.
        Emitting to an unbound callback panics, so a non-empty map needs `run` first. */
    method Flush() returns (out: seq<Sample<V>>)
      requires Valid()
      requires bound || m == map[]
      modifies this, m.Values
      ensures Valid() && m == map[]
      ensures NoDupKeys(out) && Apply(map[], out) == old(Contents())
      ensures |out| == |old(m)|
      ensures forall k :: k in old(m) ==> old(m)[k].deleted && old(m)[k].value == old(m[k].value)
      ensures old(m) == map[] ==> out == []
      ensures bound == old(bound) && phase == old(phase)
    {
      ghost var m0 := m;
      ghost var c0 := Contents();
      assert c0.Keys == m0.Keys;
      out := [];
      while m != map[]
        invariant m.Keys <= m0.Keys
        invariant forall k :: k in m0 ==>
          && m0[k].key == k && m0[k].value == c0[k]
          && (k in m <==> !m0[k].deleted) && (k in m ==> m[k] == m0[k])
        invariant Drained(c0, m.Keys, out)
        invariant bound == old(bound) && phase == old(phase)
        decreases m.Keys
      {
        var k :| k in m;
        DrainStep(c0, m.Keys, out, k);
        var s := FlushKey(k);
        out := out + [s];
      }
      assert m.Keys == {};
      DrainedAll(c0, out);
    }

    /** `stop`: ends the background loop (closing its stop channel, which
        panics when closed twice) and then flushes once more, so every buffered
        key is emitted exactly once and the map is left empty. Without `run`
        nothing is emitted. */
    method Stop() returns (out: seq<Sample<V>>)
      requires Valid()
      requires phase != Stopped
      requires bound || m == map[]
      modifies this, m.Values
      ensures Valid() && m == map[] && phase == Stopped && bound == old(bound)
      ensures NoDupKeys(out) && Apply(map[], out) == old(Contents())
      ensures |out| == |old(m)|
      ensures forall k :: k in old(m) ==> old(m)[k].deleted && old(m)[k].value == old(m[k].value)
      ensures !old(bound) ==> out == []
    {
      phase := Stopped;
      out := Flush();
    }

    /** A push racing with a flush: the push finds the key's entry, a flush
        runs before the push takes the entry's lock, the write then finds the
        entry retired and is dropped, and the retry creates a fresh entry that
        holds the value for the next flush. The retired entry keeps the value
        the flush emitted. A push that creates its entry returns before any lock. */
    method PushSampleRacingFlush(key: string, value: V) returns (flushed: seq<Sample<V>>)
      requires Valid()
      requires bound
      modifies this, m.Values
      ensures Valid() && bound && phase == old(phase)
      ensures key !in old(m) ==> flushed == [] && Contents() == old(Contents())[key := value]
      ensures key in old(m) ==>
        && NoDupKeys(flushed) && Apply(map[], flushed) == old(Contents())
        && old(m)[key].deleted && old(m)[key].value == old(m[key].value)
        && m.Keys == {key} && fresh(m[key]) && Contents() == map[key := value]
    {
      flushed := [];
      var e, created := LoadOrCreate(key, value);
      if created {
        return;
      }
      flushed := Flush();
      var written := e.TryWrite(value);
      if !written {
        e, created := LoadOrCreate(key, value);
      }
    }
  }

  /** `flush` on a possibly nil deduplicator: nil emits nothing. */
  method FlushMaybeNil<V>(d: Deduplicator?<V>) returns (out: seq<Sample<V>>)
    requires d != null ==> d.Valid() && (d.bound || d.m == map[])
    modifies (if d == null then {} else {d}), (if d == null then {} else d.m.Values)
    ensures d == null ==> out == []
    ensures d != null ==> d.Valid() && d.m == map[] && NoDupKeys(out) && Apply(map[], out) == old(d.Contents())
  {
    if d == null {
      out := [];
    } else {
      out := d.Flush();
    }
  }

  /** `stop` on a possibly nil deduplicator: nil does nothing. */
  method StopMaybeNil<V>(d: Deduplicator?<V>) returns (out: seq<Sample<V>>)
    requires d != null ==> d.Valid() && d.phase != Stopped && (d.bound || d.m == map[])
    modifies (if d == null then {} else {d}), (if d == null then {} else d.m.Values)
    ensures d == null ==> out == []
    ensures d != null ==>
      d.Valid() && d.m == map[] && d.phase == Stopped && NoDupKeys(out) && Apply(map[], out) == old(d.Contents())
  {
    if d == null {
      out := [];
    } else {
      out := d.Stop();
    }
  }

  /** Two pushes to "cpu" and one to "mem", then a flush: the flush emits
      exactly cpu = 20.0 and mem = 5.0, once each; a second flush emits nothing. */
  method FlushAfterPushes() returns (first: seq<Sample<real>>, second: seq<Sample<real>>)
    ensures NoDupKeys(first) && |first| == 2 && Apply(map[], first) == map["cpu" := 20.0, "mem" := 5.0]
    ensures second == []
  {
    var d := new Deduplicator<real>(1_000_000_000);
    d.Run();
    d.PushSample("cpu", 10.0);
    d.PushSample("cpu", 20.0);
    d.PushSample("mem", 5.0);
    assert d.Contents() == map["cpu" := 20.0, "mem" := 5.0];
    assert d.m.Keys == {"cpu", "mem"};
    first := d.Flush();
    second := d.Flush();
  }
}
