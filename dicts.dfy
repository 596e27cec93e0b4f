/** Python's `dict(pairs)` and its loop form `d[k] = v`: a dictionary built
    from a sequence of key/value pairs, where a later pair overwrites an
    earlier pair with the same key. Both `_name_to_index` and the loops of
    `get_relations` and `get_indexes` build their dictionaries this way. */
module Dicts {

  /** `i` is the position of the last pair in `pairs` whose key is `k`. */
  ghost predicate IsLastFor<K, V>(pairs: seq<(K, V)>, k: K, i: int)
  {
    0 <= i < |pairs| && pairs[i].0 == k &&
    forall j :: i < j < |pairs| ==> pairs[j].0 != k
  }

  /** `m` is the dictionary of `pairs`: every key of a pair is present,
      and each present key holds the value of the last pair with it. */
  ghost predicate Built<K, V>(pairs: seq<(K, V)>, m: map<K, V>)
  {
    (forall i :: 0 <= i < |pairs| ==> pairs[i].0 in m) &&
    (forall k :: k in m ==> exists i :: IsLastFor(pairs, k, i) && m[k] == pairs[i].1)
  }

  /** Writing the last pair into the dictionary of the others gives the
      dictionary of all of them. */
  lemma BuiltStep<K, V>(pairs: seq<(K, V)>, m: map<K, V>)
    requires pairs != [] && Built(pairs[..|pairs| - 1], m)
    ensures Built(pairs, m[pairs[|pairs| - 1].0 := pairs[|pairs| - 1].1])
  {
    var init, last := pairs[..|pairs| - 1], pairs[|pairs| - 1];
    var m' := m[last.0 := last.1];
    assert IsLastFor(pairs, last.0, |pairs| - 1);
    forall i | 0 <= i < |pairs| ensures pairs[i].0 in m' {
      if i < |init| {
        assert pairs[i] == init[i];
      }
    }
    forall k | k in m' && k != last.0
      ensures exists i :: IsLastFor(pairs, k, i) && m'[k] == pairs[i].1
    {
      var i :| IsLastFor(init, k, i) && m[k] == init[i].1;
      assert IsLastFor(pairs, k, i);
    }
  }

  /** The dictionary the pairs build, inserted left to right. */
  function DictOf<K, V>(pairs: seq<(K, V)>): (m: map<K, V>)
    ensures forall i :: 0 <= i < |pairs| ==> pairs[i].0 in m
    ensures forall k :: k in m ==> exists i :: IsLastFor(pairs, k, i) && m[k] == pairs[i].1
  {
    if pairs == [] then map[]
    else
      var init, last := pairs[..|pairs| - 1], pairs[|pairs| - 1];
      BuiltStep(pairs, DictOf(init));
      DictOf(init)[last.0 := last.1]
  }

  /** Appending one pair is the loop step `d[k] = v`. */
  lemma DictOfAppend<K, V>(pairs: seq<(K, V)>, p: (K, V))
    ensures DictOf(pairs + [p]) == DictOf(pairs)[p.0 := p.1]
  {
    assert (pairs + [p])[..|pairs|] == pairs;
  }

  /** The last pair with a given key is the one the dictionary keeps. */
  lemma DictOfLastWins<K, V>(pairs: seq<(K, V)>, i: int)
    requires 0 <= i < |pairs| && IsLastFor(pairs, pairs[i].0, i)
    ensures pairs[i].0 in DictOf(pairs) && DictOf(pairs)[pairs[i].0] == pairs[i].1
  {
    var m := DictOf(pairs);
    var j :| IsLastFor(pairs, pairs[i].0, j) && m[pairs[i].0] == pairs[j].1;
    assert i == j;
  }
}
