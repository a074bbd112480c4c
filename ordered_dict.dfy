/** Python's `dict` as the handlers build it: keys kept in the order of
    first insertion, and a later assignment to a key replacing its value in
    place. */
module OrderedDict {

  datatype Dict<K, V> = Dict(keys: seq<K>, entries: map<K, V>)

  predicate NoDuplicates<K(==)>(s: seq<K>)
  {
    forall i, j :: 0 <= i < j < |s| ==> s[i] != s[j]
  }

  /** The key order lists each key of the mapping once. */
  predicate Valid<K(==), V>(d: Dict<K, V>)
  {
    NoDuplicates(d.keys) && (forall k :: k in d.keys ==> k in d.entries) && (forall k :: k in d.entries ==> k in d.keys)
  }

  /** `d[k] = v`. */
  function Put<K(==), V>(d: Dict<K, V>, k: K, v: V): Dict<K, V>
  {
    if k in d.entries then Dict(d.keys, d.entries[k := v])
    else Dict(d.keys + [k], d.entries[k := v])
  }

  /** The keys of a sequence of pairs, in order. */
  function PairKeys<K, V>(pairs: seq<(K, V)>): seq<K>
  {
    seq(|pairs|, i requires 0 <= i < |pairs| => pairs[i].0)
  }

  /** The comprehension's length and elements, for the proofs below. */
  lemma PairKeysIndex<K, V>(pairs: seq<(K, V)>)
    ensures |PairKeys(pairs)| == |pairs|
    ensures forall i :: 0 <= i < |pairs| ==> PairKeys(pairs)[i] == pairs[i].0
  {
  }

  /** The dict that `for k, v in pairs: d[k] = v` leaves, starting empty. */
  function FromPairs<K(==), V>(pairs: seq<(K, V)>): Dict<K, V>
    decreases |pairs|
  {
    if pairs == [] then Dict([], map[])
    else
      var n := |pairs| - 1;
      Put(FromPairs(pairs[..n]), pairs[n].0, pairs[n].1)
  }

  /** Does `pairs` hold no pair with the key of pairs[i] after index i? */
  predicate IsLastOccurrence<K(==), V>(pairs: seq<(K, V)>, i: int)
    requires 0 <= i < |pairs|
  {
    forall j :: i < j < |pairs| ==> pairs[j].0 != pairs[i].0
  }

  /** One assignment keeps the dict well formed, adds its key and changes
      no other key's value. */
  lemma PutContents<K, V>(d: Dict<K, V>, k: K, v: V)
    requires Valid(d)
    ensures Valid(Put(d, k, v))
    ensures forall x :: x in Put(d, k, v).entries <==> x in d.entries || x == k
    ensures Put(d, k, v).entries[k] == v
    ensures forall x :: x in d.entries && x != k ==> Put(d, k, v).entries[x] == d.entries[x]
  {
  }

  /** The dict is well formed, holds exactly the keys that occur, and maps
      each to the value of its last occurrence. */
  lemma {:induction false} FromPairsContents<K, V>(pairs: seq<(K, V)>)
    ensures Valid(FromPairs(pairs))
    ensures forall k :: k in FromPairs(pairs).entries <==> k in PairKeys(pairs)
    ensures forall i :: 0 <= i < |pairs| && IsLastOccurrence(pairs, i) ==>
              pairs[i].0 in FromPairs(pairs).entries && FromPairs(pairs).entries[pairs[i].0] == pairs[i].1
    decreases |pairs|
  {
    if pairs != [] {
      var n := |pairs| - 1;
      var prefix := pairs[..n];
      FromPairsContents(prefix);
      assert pairs == prefix + [(pairs[n].0, pairs[n].1)];
      PutLastValues(FromPairs(prefix), prefix, pairs[n].0, pairs[n].1, pairs);
    }
  }

  /** One more assignment: if `d` holds the keys of `prefix` with their
      last values, assigning (k, v) extends that to `prefix + [(k, v)]`. */
  lemma PutLastValues<K, V>(d: Dict<K, V>, prefix: seq<(K, V)>, k: K, v: V, pairs: seq<(K, V)>)
    requires pairs == prefix + [(k, v)]
    requires Valid(d)
    requires forall x :: x in d.entries <==> x in PairKeys(prefix)
    requires forall i :: 0 <= i < |prefix| && IsLastOccurrence(prefix, i) ==>
               prefix[i].0 in d.entries && d.entries[prefix[i].0] == prefix[i].1
    ensures var full := Put(d, k, v);
            && Valid(full)
            && (forall x :: x in full.entries <==> x in PairKeys(pairs))
            && (forall i :: 0 <= i < |pairs| && IsLastOccurrence(pairs, i) ==>
                  pairs[i].0 in full.entries && full.entries[pairs[i].0] == pairs[i].1)
  {
    var n := |prefix|;
    var full := Put(d, k, v);
    PutContents(d, k, v);
    assert pairs[..n] == prefix;
    PairKeysOfPrefix(pairs);
    forall i | 0 <= i < |pairs| && IsLastOccurrence(pairs, i)
      ensures pairs[i].0 in full.entries && full.entries[pairs[i].0] == pairs[i].1
    {
      if i < n {
        LastOccurrenceInPrefix(pairs, i);
        assert PairKeys(prefix)[i] == pairs[i].0;
      }
    }
  }

  /** The keys of a non-empty sequence: those of all but its final pair,
      then the final key. */
  lemma PairKeysOfPrefix<K, V>(pairs: seq<(K, V)>)
    requires pairs != []
    ensures PairKeys(pairs) == PairKeys(pairs[..|pairs| - 1]) + [pairs[|pairs| - 1].0]
  {
    var n := |pairs| - 1;
    var lhs, rhs := PairKeys(pairs), PairKeys(pairs[..n]) + [pairs[n].0];
    forall j | 0 <= j < |pairs| ensures lhs[j] == rhs[j] {
      if j < n {
        assert rhs[j] == PairKeys(pairs[..n])[j];
      }
    }
  }

  /** A last occurrence before the final pair is one in the prefix too. */
  lemma LastOccurrenceInPrefix<K, V>(pairs: seq<(K, V)>, i: int)
    requires 0 <= i < |pairs| - 1 && IsLastOccurrence(pairs, i)
    ensures pairs[..|pairs| - 1][i] == pairs[i]
    ensures IsLastOccurrence(pairs[..|pairs| - 1], i)
    ensures pairs[|pairs| - 1].0 != pairs[i].0
  {
  }

  /** The first key ever inserted stays first. */
  lemma {:induction false} FromPairsFirstKey<K, V>(pairs: seq<(K, V)>)
    requires pairs != []
    ensures FromPairs(pairs).keys != [] && FromPairs(pairs).keys[0] == pairs[0].0
    decreases |pairs|
  {
    var n := |pairs| - 1;
    if n > 0 {
      FromPairsFirstKey(pairs[..n]);
    }
  }

  /** With distinct keys (as a GROUP BY produces them) every pair survives,
      in order. */
  lemma {:induction false} FromPairsDistinct<K, V>(pairs: seq<(K, V)>)
    requires NoDuplicates(PairKeys(pairs))
    ensures FromPairs(pairs).keys == PairKeys(pairs)
    ensures forall i :: 0 <= i < |pairs| ==>
              pairs[i].0 in FromPairs(pairs).entries && FromPairs(pairs).entries[pairs[i].0] == pairs[i].1
    decreases |pairs|
  {
    FromPairsContents(pairs);
    PairKeysIndex(pairs);
    if pairs != [] {
      var n := |pairs| - 1;
      var prefix := pairs[..n];
      PairKeysIndex(prefix);
      assert PairKeys(pairs) == PairKeys(prefix) + [pairs[n].0];
      FromPairsDistinct(prefix);
      FromPairsContents(prefix);
      assert pairs[n].0 !in PairKeys(prefix);
      forall i | 0 <= i < |pairs| ensures IsLastOccurrence(pairs, i) {
        assert PairKeys(pairs)[i] == pairs[i].0;
      }
    }
    forall i | 0 <= i < |pairs| ensures pairs[i].0 in FromPairs(pairs).entries {
      assert PairKeys(pairs)[i] == pairs[i].0;
    }
  }

  /** The loops of SurfsUp/app.py lines 83-84, 128-129, 156-157, 187-188
      and 218-219: assign each pair into a fresh dict, in order. */
  method BuildDict<K(==), V>(pairs: seq<(K, V)>) returns (d: Dict<K, V>)
    ensures d == FromPairs(pairs)
  {
    var keys: seq<K> := [];
    var entries: map<K, V> := map[];
    var i := 0;
    while i < |pairs|
      invariant 0 <= i <= |pairs|
      invariant Dict(keys, entries) == FromPairs(pairs[..i])
    {
      var (k, v) := pairs[i];
      assert pairs[..i + 1][..i] == pairs[..i];
      if k !in entries {
        keys := keys + [k];
      }
      entries := entries[k := v];
      i := i + 1;
    }
    assert pairs[..i] == pairs;
    d := Dict(keys, entries);
  }
}
