/** Python dictionaries built from a sequence of key/value pairs, as a dict comprehension
    `{k: v for ...}` builds them: a repeated key keeps the position where it was first
    inserted and takes the value of its last pair. */
module Dicts {

  /** A Python dict: its keys in insertion order, and its key-to-value mapping. */
  datatype Dict<K, V> = Dict(keys: seq<K>, items: map<K, V>)

  /** The keys that occur in `pairs`. */
  function KeysOf<K, V>(pairs: seq<(K, V)>): set<K>
  {
    set i | 0 <= i < |pairs| :: pairs[i].0
  }

  /** The dict a comprehension over `pairs` evaluates to. */
  function FromPairs<K(==,!new), V>(pairs: seq<(K, V)>): (d: Dict<K, V>)
    ensures forall i, j :: 0 <= i < j < |d.keys| ==> d.keys[i] != d.keys[j]
    ensures forall k :: k in d.keys <==> k in d.items
    ensures d.items.Keys == KeysOf(pairs)
    ensures |d.keys| <= |pairs|
    decreases |pairs|
  {
    if pairs == [] then Dict([], map[])
    else
      var prefix := pairs[..|pairs| - 1];
      var d := FromPairs(prefix);
      var (k, v) := pairs[|pairs| - 1];
      assert KeysOf(pairs) == KeysOf(prefix) + {k} by {
        forall x | x in KeysOf(pairs) ensures x in KeysOf(prefix) + {k} {
          var i :| 0 <= i < |pairs| && pairs[i].0 == x;
          if i < |prefix| { assert prefix[i] == pairs[i]; }
        }
        forall x | x in KeysOf(prefix) ensures x in KeysOf(pairs) {
          var i :| 0 <= i < |prefix| && prefix[i].0 == x;
          assert pairs[i] == prefix[i];
        }
      }
      Dict(if k in d.items then d.keys else d.keys + [k], d.items[k := v])
  }

  /** Every key holds the value of the last pair that names it. */
  lemma {:induction false} LastValueWins<K(!new), V>(pairs: seq<(K, V)>, i: nat)
    requires i < |pairs|
    requires forall j :: i < j < |pairs| ==> pairs[j].0 != pairs[i].0
    ensures pairs[i].0 in FromPairs(pairs).items
    ensures FromPairs(pairs).items[pairs[i].0] == pairs[i].1
    decreases |pairs|
  {
    if i < |pairs| - 1 {
      var prefix := pairs[..|pairs| - 1];
      LastValueWins(prefix, i);
    }
  }

  /** Every value of the dict comes from a pair of `pairs` with its key. */
  lemma {:induction false} ValueFromPair<K(!new), V>(pairs: seq<(K, V)>, k: K)
    requires k in FromPairs(pairs).items
    ensures exists i :: 0 <= i < |pairs| && pairs[i] == (k, FromPairs(pairs).items[k])
    decreases |pairs|
  {
    var last := |pairs| - 1;
    if pairs[last].0 != k {
      var prefix := pairs[..last];
      ValueFromPair(prefix, k);
      var i :| 0 <= i < |prefix| && prefix[i] == (k, FromPairs(prefix).items[k]);
      assert pairs[i] == prefix[i];
    }
  }

  /** Keys are kept in the order of their first pair: a key is never placed before a key
      whose first pair comes earlier. */
  lemma {:induction false} FirstInsertionOrder<K(!new), V>(pairs: seq<(K, V)>, a: nat, b: nat, p: nat)
    requires a < b < |FromPairs(pairs).keys|
    requires p < |pairs| && pairs[p].0 == FromPairs(pairs).keys[b]
    ensures FromPairs(pairs).keys[a] in KeysOf(pairs[..p])
    decreases |pairs|
  {
    var prefix := pairs[..|pairs| - 1];
    var d := FromPairs(prefix);
    var k := pairs[|pairs| - 1].0;
    var keys := FromPairs(pairs).keys;
    if b < |d.keys| {
      assert keys[a] == d.keys[a] && keys[b] == d.keys[b];
      if p < |prefix| {
        FirstInsertionOrder(prefix, a, b, p);
        assert prefix[..p] == pairs[..p];
      } else {
        // the last pair names a key inserted earlier, so that key has a pair in the prefix
        assert keys[b] in KeysOf(prefix);
        var q :| 0 <= q < |prefix| && prefix[q].0 == keys[b];
        FirstInsertionOrder(prefix, a, b, q);
        var j :| 0 <= j < q && prefix[..q][j].0 == keys[a];
        assert pairs[..p][j] == prefix[j];
      }
    } else {
      // `keys[b]` is the last pair's key, new to the prefix
      assert keys[b] == k && k !in d.items;
      assert keys[a] == d.keys[a] && keys[a] in KeysOf(prefix);
      assert p == |prefix|;
      assert pairs[..p] == prefix;
    }
  }

  /** What every Python dict satisfies: each key listed once, and the listed keys are the
      mapped keys. */
  predicate WellFormed<K, V>(d: Dict<K, V>)
  {
    && (forall i, j :: 0 <= i < j < |d.keys| ==> d.keys[i] != d.keys[j])
    && (forall i :: 0 <= i < |d.keys| ==> d.keys[i] in d.items)
    && (forall k :: k in d.items ==> k in d.keys)
  }

  /** The keys of `pairs`, in order. */
  function PairKeys<K, V>(pairs: seq<(K, V)>): (keys: seq<K>)
    ensures |keys| == |pairs| && forall i :: 0 <= i < |pairs| ==> keys[i] == pairs[i].0
  {
    seq(|pairs|, i requires 0 <= i < |pairs| => pairs[i].0)
  }

  /** Without repeated keys, the dict lists the keys in the order of the pairs. */
  lemma {:induction false} DistinctKeysInOrder<K(!new), V>(pairs: seq<(K, V)>)
    requires forall i, j :: 0 <= i < j < |pairs| ==> pairs[i].0 != pairs[j].0
    ensures FromPairs(pairs).keys == PairKeys(pairs)
    decreases |pairs|
  {
    if pairs != [] {
      var prefix := pairs[..|pairs| - 1];
      var k := pairs[|pairs| - 1].0;
      DistinctKeysInOrder(prefix);
      forall i | 0 <= i < |prefix| ensures prefix[i].0 != k {
        assert prefix[i] == pairs[i];
      }
      assert k !in KeysOf(prefix);
      assert PairKeys(pairs) == PairKeys(prefix) + [k];
    }
  }
}
