/**
 The value-level view of the deduplicator: a (key, value) sample, the
 last-value-wins store a sequence of samples produces, and the facts about
 it that the flush and the trace rely on.
 */
module Samples {

  datatype Option<T> = None | Some(value: T)

  /** One (key, value) pair, as pushed by a producer or handed to the aggregation callback. */
  datatype Sample<V> = Sample(key: string, value: V)

  /** The store that results from pushing `ps`, in order, into store `c`: a later sample for a key replaces an earlier one. */
  function Apply<V>(c: map<string, V>, ps: seq<Sample<V>>): map<string, V>
  {
    if ps == [] then c
    else
      var last := ps[|ps| - 1];
      Apply(c, ps[..|ps| - 1])[last.key := last.value]
  }

  /** The value of the last sample for `k` in `ps`, scanning from the end; None when `ps` has no sample for `k`. */
  function LastValue<V>(ps: seq<Sample<V>>, k: string): Option<V>
  {
    if ps == [] then None
    else if ps[|ps| - 1].key == k then Some(ps[|ps| - 1].value)
    else LastValue(ps[..|ps| - 1], k)
  }

  /** Pushing one more sample updates the store at that sample's key. */
  lemma ApplyAppend<V>(c: map<string, V>, ps: seq<Sample<V>>, s: Sample<V>)
    ensures Apply(c, ps + [s]) == Apply(c, ps)[s.key := s.value]
  {
    assert (ps + [s])[..|ps|] == ps;
  }

  /** No key occurs twice in `s`. */
  ghost predicate NoDupKeys<V>(s: seq<Sample<V>>)
  {
    forall i, j :: 0 <= i < j < |s| ==> s[i].key != s[j].key
  }

  /** `out` hands out, once each and with their values in `c`, exactly the keys of `c` that are not in `rest`. */
  ghost predicate Drained<V>(c: map<string, V>, rest: set<string>, out: seq<Sample<V>>)
    decreases |out|
  {
    if out == [] then c.Keys <= rest
    else
      var last := out[|out| - 1];
      && last.key in c && last.key !in rest && last.value == c[last.key]
      && Drained(c, rest + {last.key}, out[..|out| - 1])
  }

  /** Handing out one more key of `rest`, with its value in `c`, takes it out of `rest`. */
  lemma DrainStep<V>(c: map<string, V>, rest: set<string>, out: seq<Sample<V>>, k: string)
    requires Drained(c, rest, out)
    requires k in rest && k in c
    ensures Drained(c, rest - {k}, out + [Sample(k, c[k])])
  {
    var out' := out + [Sample(k, c[k])];
    assert out'[..|out'| - 1] == out;
    assert rest - {k} + {k} == rest;
  }

  /** What a drain hands out: distinct keys, none of them in `rest`, that make up `c` outside `rest`. */
  lemma {:induction false} DrainedEmits<V>(c: map<string, V>, rest: set<string>, out: seq<Sample<V>>)
    requires Drained(c, rest, out)
    ensures NoDupKeys(out)
    ensures forall i :: 0 <= i < |out| ==> out[i].key !in rest
    ensures Apply(map[], out) == c - rest
    decreases |out|
  {
    if out == [] {
      assert (c - rest).Keys == {};
    } else {
      var init, last := out[..|out| - 1], out[|out| - 1];
      DrainedEmits(c, rest + {last.key}, init);
      assert forall i :: 0 <= i < |init| ==> out[i] == init[i];
      assert c - rest == (c - (rest + {last.key}))[last.key := last.value];
    }
  }

  /** A complete drain of `c` hands out exactly `c`, one sample per key. */
  lemma DrainedAll<V>(c: map<string, V>, out: seq<Sample<V>>)
    requires Drained(c, {}, out)
    ensures NoDupKeys(out) && Apply(map[], out) == c && |out| == |c|
  {
    DrainedEmits(c, {}, out);
    assert c - {} == c;
    EmissionSize(out);
  }

  /** Last value wins: after pushing `ps` into `c`, a key holds the value of its
      last sample in `ps`, or its value in `c` when `ps` has no sample for it. */
  lemma {:induction false} LastValueWins<V>(c: map<string, V>, ps: seq<Sample<V>>, k: string)
    ensures k in Apply(c, ps) <==> (k in c || LastValue(ps, k).Some?)
    ensures LastValue(ps, k).Some? ==> Apply(c, ps)[k] == LastValue(ps, k).value
    ensures LastValue(ps, k).None? && k in c ==> Apply(c, ps)[k] == c[k]
  {
    if ps != [] {
      LastValueWins(c, ps[..|ps| - 1], k);
    }
  }

  /** A key pushed anywhere in `ps` has a last value in `ps`. */
  lemma {:induction false} PushedHasLastValue<V>(ps: seq<Sample<V>>, p: nat)
    requires p < |ps|
    ensures LastValue(ps, ps[p].key).Some?
  {
    if p < |ps| - 1 && ps[|ps| - 1].key != ps[p].key {
      PushedHasLastValue(ps[..|ps| - 1], p);
    }
  }

  /** The last value of a key is the value of some sample of that key. */
  lemma {:induction false} LastValueAt<V>(ps: seq<Sample<V>>, k: string)
    requires LastValue(ps, k).Some?
    ensures exists i :: 0 <= i < |ps| && ps[i].key == k && ps[i].value == LastValue(ps, k).value
  {
    if ps[|ps| - 1].key != k {
      LastValueAt(ps[..|ps| - 1], k);
      var i :| 0 <= i < |ps| - 1 && ps[..|ps| - 1][i].key == k && ps[..|ps| - 1][i].value == LastValue(ps, k).value;
      assert ps[i] == ps[..|ps| - 1][i];
    }
  }

  /** A key that `ps` never pushes has no last value in `ps`. */
  lemma {:induction false} NotPushedHasNoLastValue<V>(ps: seq<Sample<V>>, k: string)
    requires forall i :: 0 <= i < |ps| ==> ps[i].key != k
    ensures LastValue(ps, k).None?
  {
    if ps != [] {
      NotPushedHasNoLastValue(ps[..|ps| - 1], k);
    }
  }

  /** A sequence of samples without repeated keys yields a store with exactly one key per sample. */
  lemma {:induction false} EmissionSize<V>(s: seq<Sample<V>>)
    requires NoDupKeys(s)
    ensures |Apply(map[], s)| == |s|
  {
    if s != [] {
      var init := s[..|s| - 1];
      var last := s[|s| - 1];
      assert NoDupKeys(init);
      EmissionSize(init);
      NotPushedHasNoLastValue(init, last.key);
      LastValueWins(map[], init, last.key);
      assert last.key !in Apply(map[], init);
    }
  }
}
