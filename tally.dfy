/**
 * Go's counter maps (`map[string]int` updated with `m[k]++`), as used for the
 * product, gender and risk distributions of the actuarial service.
 */
module Tally {

  /** Reading a Go map: an absent key reads as the zero value. */
  function Get(m: map<string, int>, k: string): int
  {
    if k in m then m[k] else 0
  }

  /** `m[k]++` on a Go map. */
  function Increment(m: map<string, int>, k: string): map<string, int>
  {
    m[k := Get(m, k) + 1]
  }

  /** The counter map obtained by incrementing, from an empty map, the key of every element of `ks` in order. */
  function Counts(ks: seq<string>): map<string, int>
    decreases |ks|
  {
    if ks == [] then map[] else Increment(Counts(ks[..|ks| - 1]), ks[|ks| - 1])
  }

  /** Counting one more key is one more `m[k]++`. */
  lemma CountsAppend(ks: seq<string>, k: string)
    ensures Counts(ks + [k]) == Increment(Counts(ks), k)
  {
    assert (ks + [k])[..|ks|] == ks;
  }

  /** The sum of all counters of a map. */
  ghost function MapSum(m: map<string, int>): int
    decreases |m.Keys|
  {
    if m.Keys == {} then 0
    else
      var k :| k in m.Keys;
      m[k] + MapSum(m - {k})
  }

  /** The sum does not depend on which key is taken out first. */
  lemma {:induction false} MapSumRemove(m: map<string, int>, k: string)
    requires k in m
    ensures MapSum(m) == m[k] + MapSum(m - {k})
    decreases |m.Keys|
  {
    var j :| j in m.Keys && MapSum(m) == m[j] + MapSum(m - {j});
    if j != k {
      RemoveBoth(m, j, k);
      MapSumRemove(m - {j}, k);
      MapSumRemove(m - {k}, j);
    }
  }

  /** Taking two keys out of a map, in either order, leaves the same map. */
  lemma RemoveBoth(m: map<string, int>, j: string, k: string)
    requires j in m && k in m && j != k
    ensures (m - {j}).Keys == m.Keys - {j} && k in m - {j}
    ensures (m - {k}).Keys == m.Keys - {k} && j in m - {k}
    ensures (m - {j}) - {k} == (m - {k}) - {j}
  {
  }

  /** One `m[k]++` adds exactly one to the sum of the counters. */
  lemma IncrementSum(m: map<string, int>, k: string)
    ensures MapSum(Increment(m, k)) == MapSum(m) + 1
  {
    var r := Increment(m, k);
    MapSumRemove(r, k);
    if k in m {
      MapSumRemove(m, k);
      assert r - {k} == m - {k};
    } else {
      assert r - {k} == m;
    }
  }

  /**
   * The tally counts every key exactly as often as it occurs, holds exactly the
   * keys that occur, and its counters add up to the number of elements.
   */
  lemma {:induction false} TallyCounts(ks: seq<string>)
    ensures forall k :: Get(Counts(ks), k) == multiset(ks)[k]
    ensures forall k :: k in Counts(ks) <==> k in ks
    ensures MapSum(Counts(ks)) == |ks|
    decreases |ks|
  {
    if ks != [] {
      var init, last := ks[..|ks| - 1], ks[|ks| - 1];
      assert ks == init + [last];
      TallyCounts(init);
      IncrementSum(Counts(init), last);
      assert multiset(ks) == multiset(init) + multiset{last};
    }
  }

  /** The counters of a tally add up to the number of elements counted. */
  lemma CountsSum(ks: seq<string>)
    ensures MapSum(Counts(ks)) == |ks|
  {
    TallyCounts(ks);
  }
}
