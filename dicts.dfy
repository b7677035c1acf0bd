/**
 * Python's dict, which remembers insertion order: `d[k] = v` replaces the
 * value of a key already present without moving it, and appends a new key
 * at the end.  A dict comprehension over pairs is a run of such assignments.
 */
module Dicts {

  datatype Dict<K(==), V> = Dict(keys: seq<K>, entries: map<K, V>)
  {
    /** keys lists every key of entries exactly once, in insertion order */
    predicate Valid() {
      && (forall i, j | 0 <= i < j < |keys| :: keys[i] != keys[j])
      && (forall i | 0 <= i < |keys| :: keys[i] in entries)
      && (forall k | k in entries :: k in keys)
    }
  }

  /** `d[k] = v` */
  function Put<K(==), V>(d: Dict<K, V>, k: K, v: V): (r: Dict<K, V>)
    requires d.Valid()
    ensures r.Valid()
    ensures k in r.entries && r.entries[k] == v
    ensures forall j :: j in d.entries && j != k ==> j in r.entries && r.entries[j] == d.entries[j]
    ensures forall j :: j in r.entries ==> j in d.entries || j == k
    ensures k in d.entries ==> r.keys == d.keys
    ensures k !in d.entries ==> r.keys == d.keys + [k]
  {
    Dict(if k in d.entries then d.keys else d.keys + [k], d.entries[k := v])
  }

  /** `{k: v for k, v in pairs}` */
  function FromPairs<K(==), V>(pairs: seq<(K, V)>): (d: Dict<K, V>)
    ensures d.Valid()
  {
    if |pairs| == 0 then Dict([], map[])
    else
      var last := pairs[|pairs| - 1];
      Put(FromPairs(pairs[..|pairs| - 1]), last.0, last.1)
  }

  /** A key is present exactly when some pair carries it. */
  lemma {:induction false} FromPairsDomain<K, V>(pairs: seq<(K, V)>, k: K)
    ensures k in FromPairs(pairs).entries <==> exists i :: 0 <= i < |pairs| && pairs[i].0 == k
  {
    if |pairs| > 0 {
      var init := pairs[..|pairs| - 1];
      FromPairsDomain(init, k);
      if k in FromPairs(init).entries {
        var i :| 0 <= i < |init| && init[i].0 == k;
        assert pairs[i].0 == k;
      }
      if exists i :: 0 <= i < |pairs| && pairs[i].0 == k {
        var i :| 0 <= i < |pairs| && pairs[i].0 == k;
        if i < |init| {
          assert init[i].0 == k;
        }
      }
    }
  }

  /** Every value in the dict comes from a pair that carries its key. */
  lemma {:induction false} FromPairsValue<K, V>(pairs: seq<(K, V)>, k: K)
    requires k in FromPairs(pairs).entries
    ensures exists i :: 0 <= i < |pairs| && pairs[i] == (k, FromPairs(pairs).entries[k])
  {
    var init := pairs[..|pairs| - 1];
    if pairs[|pairs| - 1].0 != k {
      FromPairsValue(init, k);
      var i :| 0 <= i < |init| && init[i] == (k, FromPairs(init).entries[k]);
      assert pairs[i] == init[i];
    }
  }

  /** A later pair with the same key overwrites an earlier one: every key holds the value of the last pair that carries it. */
  lemma {:induction false} FromPairsLastWins<K, V>(pairs: seq<(K, V)>, i: nat)
    requires i < |pairs|
    requires forall j :: i < j < |pairs| ==> pairs[j].0 != pairs[i].0
    ensures pairs[i].0 in FromPairs(pairs).entries
    ensures FromPairs(pairs).entries[pairs[i].0] == pairs[i].1
  {
    if i < |pairs| - 1 {
      var init := pairs[..|pairs| - 1];
      FromPairsLastWins(init, i);
    }
  }

  /** Keys are listed in the order of their first occurrence among the pairs. */
  lemma {:induction false} FromPairsOrder<K, V>(pairs: seq<(K, V)>, a: nat, b: nat)
    requires a < b < |FromPairs(pairs).keys|
    ensures exists i :: 0 <= i < |pairs| && pairs[i].0 == FromPairs(pairs).keys[a]
                        && forall j :: 0 <= j <= i ==> pairs[j].0 != FromPairs(pairs).keys[b]
    decreases |pairs|, 1
  {
    var init := pairs[..|pairs| - 1];
    var last := pairs[|pairs| - 1];
    var e := FromPairs(init);
    if last.0 in e.entries || b < |e.keys| {
      FromPairsOrderOlder(pairs, a, b);
    } else {
      FromPairsOrderNewest(pairs, a, b);
    }
  }

  /** FromPairsOrder when both keys were already present before the last pair. */
  lemma {:induction false} FromPairsOrderOlder<K, V>(pairs: seq<(K, V)>, a: nat, b: nat)
    requires |pairs| > 0
    requires a < b < |FromPairs(pairs).keys|
    requires pairs[|pairs| - 1].0 in FromPairs(pairs[..|pairs| - 1]).entries || b < |FromPairs(pairs[..|pairs| - 1]).keys|
    ensures exists i :: 0 <= i < |pairs| && pairs[i].0 == FromPairs(pairs).keys[a]
                        && forall j :: 0 <= j <= i ==> pairs[j].0 != FromPairs(pairs).keys[b]
    decreases |pairs|, 0
  {
    var d := FromPairs(pairs);
    var init := pairs[..|pairs| - 1];
    var e := FromPairs(init);
    assert d.keys[a] == e.keys[a] && d.keys[b] == e.keys[b];
    FromPairsOrder(init, a, b);
    var i :| 0 <= i < |init| && init[i].0 == e.keys[a]
             && forall j :: 0 <= j <= i ==> init[j].0 != e.keys[b];
    assert pairs[i].0 == d.keys[a];
    forall j | 0 <= j <= i
      ensures pairs[j].0 != d.keys[b]
    {
      assert pairs[j] == init[j];
    }
  }

  /** FromPairsOrder when the later key is the one the last pair introduces. */
  lemma {:induction false} FromPairsOrderNewest<K, V>(pairs: seq<(K, V)>, a: nat, b: nat)
    requires |pairs| > 0
    requires a < b < |FromPairs(pairs).keys|
    requires pairs[|pairs| - 1].0 !in FromPairs(pairs[..|pairs| - 1]).entries
    requires b >= |FromPairs(pairs[..|pairs| - 1]).keys|
    ensures exists i :: 0 <= i < |pairs| && pairs[i].0 == FromPairs(pairs).keys[a]
                        && forall j :: 0 <= j <= i ==> pairs[j].0 != FromPairs(pairs).keys[b]
  {
    var d := FromPairs(pairs);
    var init := pairs[..|pairs| - 1];
    var last := pairs[|pairs| - 1];
    var e := FromPairs(init);
    assert d.keys == e.keys + [last.0];
    assert d.keys[b] == last.0 && d.keys[a] == e.keys[a];
    assert e.keys[a] in e.entries;
    FromPairsDomain(init, e.keys[a]);
    FromPairsDomain(init, last.0);
    var i :| 0 <= i < |init| && init[i].0 == e.keys[a];
    assert pairs[i].0 == d.keys[a];
    forall j | 0 <= j <= i
      ensures pairs[j].0 != d.keys[b]
    {
      assert pairs[j] == init[j];
    }
  }
}
