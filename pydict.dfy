/**
 Python's `dict(pairs)` built from a sequence of key/value pairs, and what
 it means for the map it returns: every key that appears is present, bound
 to the value of the LAST pair with that key.
 */
module PyDict {

  /** `dict(pairs)`: the pairs inserted in order, each one replacing any earlier binding of its key. */
  function FromPairs<K, V>(pairs: seq<(K, V)>): map<K, V>
    decreases |pairs|
  {
    if pairs == [] then map[]
    else
      var last := pairs[|pairs| - 1];
      FromPairs(pairs[..|pairs| - 1])[last.0 := last.1]
  }

  /** `j` is the position of the last pair whose key is `k`. */
  ghost predicate IsLastWithKey<K, V>(pairs: seq<(K, V)>, k: K, j: int) {
    && 0 <= j < |pairs|
    && pairs[j].0 == k
    && forall j' :: j < j' < |pairs| ==> pairs[j'].0 != k
  }

  /** Some pair of `pairs` has key `k`. */
  ghost predicate HasKey<K, V>(pairs: seq<(K, V)>, k: K) {
    exists i :: 0 <= i < |pairs| && pairs[i].0 == k
  }

  /** A key is in the dictionary exactly when some pair carries it, and it is
      bound to the value of the last such pair (last insertion wins). */
  lemma {:induction false} FromPairsLastWins<K, V>(pairs: seq<(K, V)>, k: K)
    ensures k in FromPairs(pairs) <==> HasKey(pairs, k)
    ensures k in FromPairs(pairs) ==>
      exists j :: IsLastWithKey(pairs, k, j) && FromPairs(pairs)[k] == pairs[j].1
    decreases |pairs|
  {
    if pairs != [] {
      var n := |pairs| - 1;
      var init := pairs[..n];
      FromPairsLastWins(init, k);
      if pairs[n].0 == k {
        assert IsLastWithKey(pairs, k, n);
      } else {
        if HasKey(pairs, k) {
          var i :| 0 <= i < |pairs| && pairs[i].0 == k;
          assert init[i].0 == k;
        }
        if HasKey(init, k) {
          var i :| 0 <= i < |init| && init[i].0 == k;
          assert pairs[i].0 == k;
        }
        if k in FromPairs(pairs) {
          var j :| IsLastWithKey(init, k, j) && FromPairs(init)[k] == init[j].1;
          assert IsLastWithKey(pairs, k, j);
        }
      }
    }
  }

  /** The dictionary has at most one key per pair. */
  lemma {:induction false} FromPairsSize<K, V>(pairs: seq<(K, V)>)
    ensures |FromPairs(pairs)| <= |pairs|
    decreases |pairs|
  {
    if pairs != [] {
      FromPairsSize(pairs[..|pairs| - 1]);
    }
  }

  /** When no key repeats, no pair is shadowed: the dictionary has one key per pair. */
  lemma {:induction false} FromPairsDistinct<K, V>(pairs: seq<(K, V)>)
    requires forall i, j :: 0 <= i < j < |pairs| ==> pairs[i].0 != pairs[j].0
    ensures |FromPairs(pairs)| == |pairs|
    decreases |pairs|
  {
    if pairs != [] {
      var n := |pairs| - 1;
      var init := pairs[..n];
      FromPairsDistinct(init);
      FromPairsLastWins(init, pairs[n].0);
      assert !HasKey(init, pairs[n].0);
    }
  }
}
