/**
 * "Keep the first occurrence of each key": the loop with a `seen` set that the
 * route code runs twice, once over city entries keyed by adcode (skipping
 * entries without one) and once over sampled points keyed by location.
 */
module Dedup {

  /** The keys of the elements of xs. */
  function Keys<T, K(==)>(xs: seq<T>, key: T -> K): set<K>
  {
    set k | 0 <= k < |xs| :: key(xs[k])
  }

  /** The keys of the admitted elements of xs. */
  function AdmittedKeys<T, K(==)>(xs: seq<T>, key: T -> K, admit: T -> bool): set<K>
  {
    set k | 0 <= k < |xs| && admit(xs[k]) :: key(xs[k])
  }

  /**
   * The admitted elements of xs whose key no earlier kept element has, in
   * their order in xs. Defined element by element from the end, as the
   * source's loop grows its output.
   */
  function KeepFirst<T, K(==)>(xs: seq<T>, key: T -> K, admit: T -> bool): (kept: seq<T>)
    ensures |kept| <= |xs|
    ensures forall k :: 0 <= k < |kept| ==> admit(kept[k])
  {
    if |xs| == 0 then []
    else
      var kept := KeepFirst(xs[..|xs| - 1], key, admit);
      var x := xs[|xs| - 1];
      if !admit(x) || key(x) in Keys(kept, key) then kept else kept + [x]
  }

  /** The index of the first admitted element of xs with key kv, or |xs| if there is none. */
  function FirstIndex<T, K(==)>(xs: seq<T>, key: T -> K, admit: T -> bool, kv: K): (i: nat)
    ensures i <= |xs|
    ensures i < |xs| ==> admit(xs[i]) && key(xs[i]) == kv
    ensures forall j :: 0 <= j < i ==> !(admit(xs[j]) && key(xs[j]) == kv)
  {
    if |xs| == 0 then 0
    else if admit(xs[0]) && key(xs[0]) == kv then 0
    else 1 + FirstIndex(xs[1..], key, admit, kv)
  }

  /** The first index is the one index before which no admitted element has key kv. */
  lemma {:induction false} FirstIndexUnique<T, K>(xs: seq<T>, key: T -> K, admit: T -> bool, kv: K, i: nat)
    requires i <= |xs|
    requires i < |xs| ==> admit(xs[i]) && key(xs[i]) == kv
    requires forall j :: 0 <= j < i ==> !(admit(xs[j]) && key(xs[j]) == kv)
    ensures FirstIndex(xs, key, admit, kv) == i
  {
  }

  /** Appending an element moves no first index that already existed. */
  lemma {:induction false} FirstIndexExtend<T, K>(xs: seq<T>, x: T, key: T -> K, admit: T -> bool, kv: K)
    ensures FirstIndex(xs, key, admit, kv) < |xs| ==>
              FirstIndex(xs + [x], key, admit, kv) == FirstIndex(xs, key, admit, kv)
    ensures FirstIndex(xs, key, admit, kv) == |xs| && admit(x) && key(x) == kv ==>
              FirstIndex(xs + [x], key, admit, kv) == |xs|
  {
    var f := FirstIndex(xs, key, admit, kv);
    var ys := xs + [x];
    assert forall j :: 0 <= j < |xs| ==> ys[j] == xs[j];
    if f < |xs| {
      FirstIndexUnique(ys, key, admit, kv, f);
    } else if admit(x) && key(x) == kv {
      assert ys[|xs|] == x;
      FirstIndexUnique(ys, key, admit, kv, |xs|);
    }
  }

  /** A key is among the admitted keys exactly when it has a first index. */
  lemma {:induction false} AdmittedKeysFirstIndex<T, K>(xs: seq<T>, key: T -> K, admit: T -> bool, kv: K)
    ensures kv in AdmittedKeys(xs, key, admit) <==> FirstIndex(xs, key, admit, kv) < |xs|
  {
    var f := FirstIndex(xs, key, admit, kv);
    if f < |xs| {
      assert key(xs[f]) in AdmittedKeys(xs, key, admit);
    }
  }

  /** The kept keys are exactly the keys of the admitted elements. */
  lemma {:induction false} KeepFirstKeys<T, K>(xs: seq<T>, key: T -> K, admit: T -> bool)
    ensures Keys(KeepFirst(xs, key, admit), key) == AdmittedKeys(xs, key, admit)
  {
    if |xs| > 0 {
      var p, x := xs[..|xs| - 1], xs[|xs| - 1];
      var kept := KeepFirst(p, key, admit);
      KeepFirstKeys(p, key, admit);
      assert xs == p + [x];
      assert AdmittedKeys(xs, key, admit) ==
             AdmittedKeys(p, key, admit) + (if admit(x) then {key(x)} else {}) by {
        forall kv | kv in AdmittedKeys(xs, key, admit)
          ensures kv in AdmittedKeys(p, key, admit) + (if admit(x) then {key(x)} else {})
        {
          var k :| 0 <= k < |xs| && admit(xs[k]) && key(xs[k]) == kv;
          if k < |p| {
            assert xs[k] == p[k];
          }
        }
        forall kv | kv in AdmittedKeys(p, key, admit) ensures kv in AdmittedKeys(xs, key, admit) {
          var k :| 0 <= k < |p| && admit(p[k]) && key(p[k]) == kv;
          assert xs[k] == p[k];
        }
        if admit(x) {
          assert xs[|xs| - 1] == x;
        }
      }
      if admit(x) && key(x) !in Keys(kept, key) {
        var kept' := kept + [x];
        assert Keys(kept', key) == Keys(kept, key) + {key(x)} by {
          forall kv | kv in Keys(kept', key) ensures kv in Keys(kept, key) + {key(x)} {
            var k :| 0 <= k < |kept'| && key(kept'[k]) == kv;
            if k < |kept| {
              assert kept'[k] == kept[k];
            }
          }
          forall kv | kv in Keys(kept, key) ensures kv in Keys(kept', key) {
            var k :| 0 <= k < |kept| && key(kept[k]) == kv;
            assert kept'[k] == kept[k];
          }
          assert kept'[|kept|] == x;
        }
      }
    }
  }

  /** Each element of out is the first admitted element of xs with its key. */
  ghost predicate FromFirstOccurrences<T, K>(xs: seq<T>, out: seq<T>, key: T -> K, admit: T -> bool)
  {
    forall k :: 0 <= k < |out| ==>
      FirstIndex(xs, key, admit, key(out[k])) < |xs| &&
      out[k] == xs[FirstIndex(xs, key, admit, key(out[k]))]
  }

  /** The elements of out appear in the order of their keys' first indices in xs. */
  ghost predicate InFirstSeenOrder<T, K>(xs: seq<T>, out: seq<T>, key: T -> K, admit: T -> bool)
  {
    forall a, b :: 0 <= a < b < |out| ==>
      FirstIndex(xs, key, admit, key(out[a])) < FirstIndex(xs, key, admit, key(out[b]))
  }

  /**
   * Each kept element is the first admitted element of xs with its key, and
   * the kept elements appear in the order of those first indices: the output
   * is the subsequence of first occurrences.
   */
  lemma {:induction false} KeepFirstOccurrences<T, K>(xs: seq<T>, key: T -> K, admit: T -> bool)
    ensures FromFirstOccurrences(xs, KeepFirst(xs, key, admit), key, admit)
    ensures InFirstSeenOrder(xs, KeepFirst(xs, key, admit), key, admit)
  {
    if |xs| > 0 {
      var p, x := xs[..|xs| - 1], xs[|xs| - 1];
      var kept := KeepFirst(p, key, admit);
      var out := KeepFirst(xs, key, admit);
      KeepFirstOccurrences(p, key, admit);
      assert FromFirstOccurrences(p, kept, key, admit);
      assert InFirstSeenOrder(p, kept, key, admit);
      assert xs == p + [x];
      forall k | 0 <= k < |kept|
        ensures FirstIndex(xs, key, admit, key(kept[k])) == FirstIndex(p, key, admit, key(kept[k]))
        ensures kept[k] == xs[FirstIndex(p, key, admit, key(kept[k]))]
      {
        FirstIndexExtend(p, x, key, admit, key(kept[k]));
      }
      if admit(x) && key(x) !in Keys(kept, key) {
        KeepFirstKeys(p, key, admit);
        AdmittedKeysFirstIndex(p, key, admit, key(x));
        FirstIndexExtend(p, x, key, admit, key(x));
        assert out == kept + [x];
        assert out[|kept|] == x;
        forall k | 0 <= k < |kept| ensures out[k] == kept[k] {
        }
      }
    }
  }

  /** No two kept elements share a key. */
  ghost predicate DistinctKeys<T, K>(out: seq<T>, key: T -> K)
  {
    forall a, b :: 0 <= a < b < |out| ==> key(out[a]) != key(out[b])
  }

  lemma {:induction false} KeepFirstDistinct<T, K>(xs: seq<T>, key: T -> K, admit: T -> bool)
    ensures DistinctKeys(KeepFirst(xs, key, admit), key)
  {
    KeepFirstOccurrences(xs, key, admit);
    var out := KeepFirst(xs, key, admit);
    assert InFirstSeenOrder(xs, out, key, admit);
  }

  /** Every kept element is an element of the input. */
  lemma {:induction false} KeepFirstMembers<T, K>(xs: seq<T>, key: T -> K, admit: T -> bool)
    ensures forall k :: 0 <= k < |KeepFirst(xs, key, admit)| ==> KeepFirst(xs, key, admit)[k] in xs
  {
    KeepFirstOccurrences(xs, key, admit);
    var out := KeepFirst(xs, key, admit);
    assert FromFirstOccurrences(xs, out, key, admit);
  }
}
