/**
 A run of the deduplicator as a trace of pushes and flushes followed by stop.
 The trace splits into windows, one per flush plus the one closed by stop;
 every window hands downstream the last value of each key pushed in it.
 */
module Trace {
  import opened Samples
  import opened Dedup

  /** One call on a started deduplicator: a push of a sample, or a flush. */
  datatype Event<V> = Pushed(key: string, value: V) | Flushed

  /** The number of flushes in `ops`. */
  function FlushCount<V>(ops: seq<Event<V>>): nat
  {
    if ops == [] then 0
    else FlushCount(ops[..|ops| - 1]) + (if ops[|ops| - 1].Flushed? then 1 else 0)
  }

  /** The pushes of `ops`, window by window: window j holds the pushes after
      the j-th flush and before the next one; the last window is still open
      (stop closes it). */
  function Windows<V>(ops: seq<Event<V>>): (w: seq<seq<Sample<V>>>)
    ensures |w| == 1 + FlushCount(ops)
  {
    if ops == [] then [[]]
    else
      var w := Windows(ops[..|ops| - 1]);
      match ops[|ops| - 1]
      case Pushed(k, v) => w[..|w| - 1] + [w[|w| - 1] + [Sample(k, v)]]
      case Flushed => w + [[]]
  }

  /** A prefix of a trace has no more flushes than the trace. */
  lemma {:induction false} FlushCountPrefix<V>(ops: seq<Event<V>>, i: nat)
    requires i <= |ops|
    ensures FlushCount(ops[..i]) <= FlushCount(ops)
    decreases |ops|
  {
    if i < |ops| {
      assert ops[..|ops| - 1][..i] == ops[..i];
      FlushCountPrefix(ops[..|ops| - 1], i);
    } else {
      assert ops[..i] == ops;
    }
  }

  /** Extending a trace leaves its earlier windows as they were and only adds
      to its last window. */
  lemma WindowsExtend<V>(ops: seq<Event<V>>, e: Event<V>, j: nat)
    requires j < |Windows(ops)| - 1
    ensures Windows(ops + [e])[j] == Windows(ops)[j]
  {
    assert (ops + [e])[..|ops|] == ops;
  }

  /** A push lands in the window of the flushes before it: that window holds
      the pushed sample. */
  lemma {:induction false} PushLandsInItsWindow<V>(ops: seq<Event<V>>, i: nat) returns (p: nat)
    requires i < |ops| && ops[i].Pushed?
    ensures FlushCount(ops[..i]) < |Windows(ops)|
    ensures p < |Windows(ops)[FlushCount(ops[..i])]|
    ensures Windows(ops)[FlushCount(ops[..i])][p] == Sample(ops[i].key, ops[i].value)
    decreases |ops|
  {
    var pre := ops[..|ops| - 1];
    var w := Windows(pre);
    var j := FlushCount(ops[..i]);
    if i == |ops| - 1 {
      assert ops[..i] == pre;
      p := |w[|w| - 1]|;
    } else {
      assert pre[..i] == ops[..i];
      p := PushLandsInItsWindow(pre, i);
      assert ops == pre + [ops[|ops| - 1]];
      if j < |w| - 1 {
        WindowsExtend(pre, ops[|ops| - 1], j);
      }
    }
  }

  /** Stop delivers every push: the window a push lands in hands downstream
      the push's key, with the key's last value in that window. */
  lemma StopDeliversEveryPush<V>(ops: seq<Event<V>>, i: nat)
    requires i < |ops| && ops[i].Pushed?
    ensures FlushCount(ops[..i]) < |Windows(ops)|
    ensures
      var w := Windows(ops)[FlushCount(ops[..i])];
      && ops[i].key in Apply(map[], w)
      && LastValue(w, ops[i].key).Some?
      && Apply(map[], w)[ops[i].key] == LastValue(w, ops[i].key).value
  {
    var p := PushLandsInItsWindow(ops, i);
    var w := Windows(ops)[FlushCount(ops[..i])];
    PushedHasLastValue(w, p);
    LastValueWins(map[], w, ops[i].key);
  }

  /** Every sample of a window comes from a push between the window's flushes. */
  lemma {:induction false} WindowSampleFromPush<V>(ops: seq<Event<V>>, j: nat, p: nat) returns (t: nat)
    requires j < |Windows(ops)| && p < |Windows(ops)[j]|
    ensures t < |ops| && FlushCount(ops[..t]) == j
    ensures ops[t] == Pushed(Windows(ops)[j][p].key, Windows(ops)[j][p].value)
    decreases |ops|
  {
    var pre, last := ops[..|ops| - 1], ops[|ops| - 1];
    var w := Windows(pre);
    assert ops == pre + [last];
    if last.Pushed? && j == |w| - 1 && p == |w[j]| {
      t := |ops| - 1;
      assert ops[..t] == pre;
    } else {
      t := WindowSampleFromPush(pre, j, p);
      assert ops[..t] == pre[..t];
    }
  }

  /** A window hands downstream only what was pushed in it: each key it emits
      was pushed between the window's flushes with the value emitted. */
  lemma EmittedWasPushed<V>(ops: seq<Event<V>>, j: nat, k: string)
    requires j < |Windows(ops)| && k in Apply(map[], Windows(ops)[j])
    ensures exists t ::
      && 0 <= t < |ops| && FlushCount(ops[..t]) == j
      && ops[t] == Pushed(k, Apply(map[], Windows(ops)[j])[k])
  {
    var w := Windows(ops)[j];
    LastValueWins(map[], w, k);
    LastValueAt(w, k);
    var p :| 0 <= p < |w| && w[p].key == k && w[p].value == LastValue(w, k).value;
    var t := WindowSampleFromPush(ops, j, p);
  }

  /** Last value wins across the trace: a push that no later push of the same
      key follows within its window is the value its window hands downstream. */
  lemma {:induction false} LastPushWins<V>(ops: seq<Event<V>>, i: nat)
    requires i < |ops| && ops[i].Pushed?
    requires forall t :: i < t < |ops| && ops[t].Pushed? && ops[t].key == ops[i].key ==>
      FlushCount(ops[..t]) > FlushCount(ops[..i])
    ensures FlushCount(ops[..i]) < |Windows(ops)|
    ensures
      var w := Windows(ops)[FlushCount(ops[..i])];
      ops[i].key in Apply(map[], w) && Apply(map[], w)[ops[i].key] == ops[i].value
    decreases |ops|
  {
    var pre, last := ops[..|ops| - 1], ops[|ops| - 1];
    var w := Windows(pre);
    var j := FlushCount(ops[..i]);
    assert ops == pre + [last];
    if i == |ops| - 1 {
      assert ops[..i] == pre;
    } else {
      assert pre[..i] == ops[..i];
      forall t | i < t < |pre| && pre[t].Pushed? && pre[t].key == pre[i].key
        ensures FlushCount(pre[..t]) > FlushCount(pre[..i])
      {
        assert pre[..t] == ops[..t];
      }
      LastPushWins(pre, i);
      if j < |w| - 1 {
        WindowsExtend(pre, last, j);
      } else if last.Pushed? {
        assert ops[..|ops| - 1] == pre;
        assert last.key != ops[i].key;
        ApplyAppend(map[], w[j], Sample(last.key, last.value));
      }
    }
  }

  /** `outs` hands downstream every window of `w` but the last, each key of
      a window once with its last value there. */
  ghost predicate Delivers<V>(outs: seq<seq<Sample<V>>>, w: seq<seq<Sample<V>>>)
  {
    && |outs| + 1 == |w|
    && forall j :: 0 <= j < |outs| ==>
      NoDupKeys(outs[j]) && Apply(map[], outs[j]) == Apply(map[], w[j])
  }

  /** Handing downstream the open window closes it. */
  lemma DeliverOpen<V>(outs: seq<seq<Sample<V>>>, w: seq<seq<Sample<V>>>, out: seq<Sample<V>>)
    requires Delivers(outs, w)
    requires NoDupKeys(out) && Apply(map[], out) == Apply(map[], w[|outs|])
    ensures |outs + [out]| == |w|
    ensures forall j :: 0 <= j < |outs + [out]| ==>
      NoDupKeys((outs + [out])[j]) && Apply(map[], (outs + [out])[j]) == Apply(map[], w[j])
    ensures Delivers(outs + [out], w + [[]])
  {
  }

  /** A push adds its sample to the open window and leaves the closed ones,
      and with them what has been handed downstream. */
  lemma PushStep<V>(outs: seq<seq<Sample<V>>>, ops: seq<Event<V>>, k: string, v: V)
    requires Delivers(outs, Windows(ops))
    ensures Delivers(outs, Windows(ops + [Pushed(k, v)]))
    ensures Apply(map[], Windows(ops + [Pushed(k, v)])[|outs|]) == Apply(map[], Windows(ops)[|outs|])[k := v]
  {
    assert (ops + [Pushed(k, v)])[..|ops|] == ops;
    var w, w' := Windows(ops), Windows(ops + [Pushed(k, v)]);
    ApplyAppend(map[], w[|w| - 1], Sample(k, v));
    assert forall j :: 0 <= j < |outs| ==> w'[j] == w[j] by {
      assert forall j :: 0 <= j < |outs| ==> w'[..|outs|][j] == w'[j] && w[..|outs|][j] == w[j];
    }
  }

  /** A flush closes the open window and opens an empty one. */
  lemma FlushStep<V>(ops: seq<Event<V>>)
    ensures Windows(ops + [Flushed]) == Windows(ops) + [[]]
  {
    assert (ops + [Flushed])[..|ops|] == ops;
  }

  /** One event of a trace on a started deduplicator: a push, or a flush
      whose output joins `outs`. The buffered window and the outputs so far
      match the windows of the trace extended by the event. */
  method Replay<V>(d: Deduplicator<V>, ghost ops: seq<Event<V>>, e: Event<V>, outs: seq<seq<Sample<V>>>)
    returns (outs': seq<seq<Sample<V>>>)
    requires d.Valid() && d.bound && d.phase == Running
    requires Delivers(outs, Windows(ops))
    requires d.Contents() == Apply(map[], Windows(ops)[|outs|])
    modifies d, d.m.Values
    ensures d.Valid() && d.bound && d.phase == Running
    ensures fresh(d.m.Values - old(d.m.Values))
    ensures Delivers(outs', Windows(ops + [e]))
    ensures d.Contents() == Apply(map[], Windows(ops + [e])[|outs'|])
  {
    match e
    case Pushed(k, v) =>
      d.PushSample(k, v);
      PushStep(outs, ops, k, v);
      outs' := outs;
    case Flushed =>
      var out := d.Flush();
      FlushStep(ops);
      DeliverOpen(outs, Windows(ops), out);
      outs' := outs + [out];
  }

  /** A started deduplicator driven through `ops` and then stopped hands
      downstream one flush output per window: each output names every key of
      its window once, with the key's last value in that window. */
  method RunTrace<V>(interval: int, ops: seq<Event<V>>) returns (outs: seq<seq<Sample<V>>>)
    requires interval > 0
    ensures |outs| == |Windows(ops)|
    ensures forall j :: 0 <= j < |outs| ==>
      NoDupKeys(outs[j]) && Apply(map[], outs[j]) == Apply(map[], Windows(ops)[j])
  {
    var d := new Deduplicator<V>(interval);
    d.Run();
    outs := [];
    for i := 0 to |ops|
      invariant fresh(d) && fresh(d.m.Values)
      invariant d.Valid() && d.bound && d.phase == Running
      invariant Delivers(outs, Windows(ops[..i]))
      invariant d.Contents() == Apply(map[], Windows(ops[..i])[|outs|])
    {
      assert ops[..i + 1] == ops[..i] + [ops[i]];
      outs := Replay(d, ops[..i], ops[i], outs);
    }
    assert ops[..|ops|] == ops;
    var last := d.Stop();
    DeliverOpen(outs, Windows(ops), last);
    outs := outs + [last];
  }
}
