/** String-keyed maps written as lists of assignments, in which the last one wins. */
module Maps {
  import opened Ordering

  type Pairs<V> = seq<(string, V)>

  function FromPairs<V>(ps: Pairs<V>): map<string, V> {
    if ps == [] then map[]
    else
      var (k, v) := ps[|ps| - 1];
      FromPairs(ps[..|ps| - 1])[k := v]
  }

  /** The same from left to right, on top of a map. */
  function Assign<V>(m: map<string, V>, ps: Pairs<V>): map<string, V>
    decreases |ps|
  {
    if ps == [] then m else Assign(m[ps[0].0 := ps[0].1], ps[1..])
  }

  lemma {:induction false} FromPairsCons<V>(k: string, v: V, ps: Pairs<V>)
    ensures FromPairs([(k, v)] + ps) == map[k := v] + FromPairs(ps)
    decreases |ps|
  {
    if ps == [] {
      assert [(k, v)] + ps == [(k, v)] && [(k, v)][..0] == [];
    } else {
      var init := ps[..|ps| - 1];
      FromPairsCons(k, v, init);
      assert ([(k, v)] + ps)[..|ps|] == [(k, v)] + init;
    }
  }

  lemma {:induction false} AssignFromPairs<V>(m: map<string, V>, ps: Pairs<V>)
    ensures Assign(m, ps) == m + FromPairs(ps)
    decreases |ps|
  {
    if ps != [] {
      AssignFromPairs(m[ps[0].0 := ps[0].1], ps[1..]);
      FromPairsCons(ps[0].0, ps[0].1, ps[1..]);
      assert ps == [(ps[0].0, ps[0].1)] + ps[1..];
    }
  }

  /** A key is in the map if some assignment is to it, with the value they all agree on. */
  lemma {:induction false} FromPairsAgreed<V>(ps: Pairs<V>, k: string, v: V)
    requires forall i :: 0 <= i < |ps| && ps[i].0 == k ==> ps[i].1 == v
    ensures k in FromPairs(ps) <==> exists i :: 0 <= i < |ps| && ps[i].0 == k
    ensures k in FromPairs(ps) ==> FromPairs(ps)[k] == v
    decreases |ps|
  {
    if ps != [] {
      var n := |ps| - 1;
      FromPairsAgreed(ps[..n], k, v);
      if k in FromPairs(ps[..n]) {
        var i :| 0 <= i < n && ps[..n][i].0 == k;
        assert ps[i].0 == k;
      }
      assert forall i :: 0 <= i < n ==> ps[..n][i] == ps[i];
    }
  }

  /** The assignments of a map for the given keys, in their order. */
  function PairsFor<V>(m: map<string, V>, keys: seq<string>): (ps: Pairs<V>)
    requires forall k :: k in keys ==> k in m
    ensures |ps| == |keys| && forall i :: 0 <= i < |keys| ==> ps[i] == (keys[i], m[keys[i]])
  {
    seq(|keys|, i requires 0 <= i < |keys| => (keys[i], m[keys[i]]))
  }

  lemma PairsForSnoc<V>(m: map<string, V>, keys: seq<string>)
    requires keys != [] && forall k :: k in keys ==> k in m
    ensures (forall k :: k in keys[..|keys| - 1] ==> k in m)
    ensures PairsFor(m, keys) == PairsFor(m, keys[..|keys| - 1]) + [(keys[|keys| - 1], m[keys[|keys| - 1]])]
  {
    assert forall k :: k in keys[..|keys| - 1] ==> k in keys;
  }

  lemma FromPairsSnoc<V>(ps: Pairs<V>, k: string, v: V)
    ensures FromPairs(ps + [(k, v)]) == FromPairs(ps)[k := v]
  {
    assert (ps + [(k, v)])[..|ps|] == ps;
  }

  lemma {:induction false} FromPairsFor<V>(m: map<string, V>, keys: seq<string>)
    requires forall k :: k in keys ==> k in m
    ensures FromPairs(PairsFor(m, keys)) == map k | k in keys :: m[k]
  {
    if keys != [] {
      var n := |keys| - 1;
      assert forall k :: k in keys[..n] ==> k in keys;
      FromPairsFor(m, keys[..n]);
      PairsForSnoc(m, keys);
      FromPairsSnoc(PairsFor(m, keys[..n]), keys[n], m[keys[n]]);
      assert forall k :: k in keys <==> k in keys[..n] || k == keys[n];
    }
  }

  /** Listing a map in the order of a `std::map` and assigning it back gives the map. */
  lemma FromSortedPairs<V>(m: map<string, V>)
    ensures (forall k :: k in SortedKeys(m.Keys) ==> k in m)
    ensures FromPairs(PairsFor(m, SortedKeys(m.Keys))) == m
  {
    var keys := SortedKeys(m.Keys);
    assert forall k :: k in keys <==> k in Elements(keys);
    FromPairsFor(m, keys);
  }

  /** The assignments of a map in the order of a `std::map`. */
  function SortedPairs<V>(m: map<string, V>): Pairs<V> {
    FromSortedPairs(m);
    PairsFor(m, SortedKeys(m.Keys))
  }

  lemma SortedPairsOf<V>(m: map<string, V>)
    ensures forall i :: 0 <= i < |SortedPairs(m)| ==>
              SortedPairs(m)[i].0 in m && SortedPairs(m)[i].1 == m[SortedPairs(m)[i].0]
    ensures FromPairs(SortedPairs(m)) == m
  {
    FromSortedPairs(m);
  }
}
