/**
 * The multimap helpers the builder's indices are made of: `MultiSet.put`,
 * `LazyMap.invertMultiSet` and `LazyMap.convertToMultiMapSorted`. A multimap
 * is a map from a name to a set of names; a key is present only once a value
 * has been put under it, so no key ever holds the empty set.
 */
module MultiMaps {
  import opened Wrappers
  import opened StringOrder

  type SetMap = map<string, set<string>>

  /** The set held under `k`; a missing key (Java's `null`) reads as no values. */
  function Values(m: SetMap, k: string): set<string> {
    if k in m then m[k] else {}
  }

  /** `get` on a fully initialised map: the set under `k`, or `null`. */
  function Lookup(m: SetMap, k: string): (r: Option<set<string>>)
    ensures r.Some? <==> k in m
    ensures r.Some? ==> r.value == m[k]
  {
    if k in m then Some(m[k]) else None
  }

  /** No key holds the empty set: the shape every map built by `put` has. */
  predicate NoEmptySets(m: SetMap) {
    forall k :: k in m ==> m[k] != {}
  }

  /** Two multimaps without empty sets that hold the same values under every key are equal. */
  lemma SameValuesSameMap(a: SetMap, b: SetMap)
    requires NoEmptySets(a) && NoEmptySets(b)
    requires forall k :: Values(a, k) == Values(b, k)
    ensures a == b
  {
    forall k | k in a ensures k in b {
      assert Values(a, k) != {};
    }
    forall k | k in b ensures k in a {
      assert Values(b, k) != {};
    }
    forall k | k in a ensures a[k] == b[k] {
      assert Values(a, k) == Values(b, k);
    }
  }

  /** `MultiSet.put(map, key, value)`: `value` joins the set under `key`, which is created on first use. */
  function Put(m: SetMap, key: string, value: string): (r: SetMap)
    ensures NoEmptySets(m) ==> NoEmptySets(r)
    ensures value in Values(r, key)
    ensures forall k :: Values(r, k) == Values(m, k) + (if k == key then {value} else {})
  {
    m[key := Values(m, key) + {value}]
  }

  /** One `put` per member of `values`, all under the same `key` (the inner loops of the builder). */
  method PutAll(m: SetMap, key: string, values: set<string>) returns (r: SetMap)
    ensures NoEmptySets(m) ==> NoEmptySets(r)
    ensures forall k :: Values(r, k) == Values(m, k) + (if k == key then values else {})
  {
    r := m;
    var rest := values;
    while rest != {}
      invariant rest <= values
      invariant NoEmptySets(m) ==> NoEmptySets(r)
      invariant forall k :: Values(r, k) == Values(m, k) + (if k == key then values - rest else {})
      decreases rest
    {
      var v :| v in rest;
      r := Put(r, key, v);
      rest := rest - {v};
    }
  }

  /** The same `values` put under each of `keys` in turn. */
  method PutUnderEach(m: SetMap, keys: set<string>, values: set<string>) returns (r: SetMap)
    ensures NoEmptySets(m) ==> NoEmptySets(r)
    ensures forall k :: Values(r, k) == Values(m, k) + (if k in keys then values else {})
  {
    r := m;
    var rest := keys;
    ghost var done: set<string> := {};
    while rest != {}
      invariant rest + done == keys
      invariant NoEmptySets(m) ==> NoEmptySets(r)
      invariant forall k :: Values(r, k) == Values(m, k) + (if k in done then values else {})
      decreases rest
    {
      var k :| k in rest;
      r := PutAll(r, k, values);
      rest := rest - {k};
      done := done + {k};
    }
  }

  /** The values held under keys of `universe`. */
  function Image(forward: SetMap, universe: set<string>): set<string> {
    set k, v | k in universe && k in forward && v in forward[k] :: v
  }

  /**
   * `LazyMap.invertMultiSet(forward, universe)`: the transpose of `forward`,
   * reading only the keys in `universe`. Each value maps back to the keys
   * that hold it.
   */
  function Invert(forward: SetMap, universe: set<string>): (r: SetMap)
    ensures NoEmptySets(r)
    ensures forall v, k :: k in Values(r, v) <==> k in universe && v in Values(forward, k)
  {
    var r := map v | v in Image(forward, universe) :: set k | k in universe && k in forward && v in forward[k];
    assert NoEmptySets(r) by {
      forall v | v in r ensures r[v] != {} {
        var k :| k in universe && k in forward && v in forward[k];
        assert k in r[v];
      }
    }
    r
  }

  /** The transposing loop of `invertMultiSet`: every key of `universe`, then every value under it. */
  method InvertMultiSet(forward: SetMap, universe: set<string>) returns (r: SetMap)
    ensures r == Invert(forward, universe)
  {
    r := map[];
    var keys := universe;
    while keys != {}
      invariant keys <= universe
      invariant NoEmptySets(r)
      invariant forall v, k :: k in Values(r, v) <==> k in universe - keys && v in Values(forward, k)
      decreases keys
    {
      var k :| k in keys;
      var values := Values(forward, k);
      ghost var before := r;
      while values != {}
        invariant values <= Values(forward, k)
        invariant NoEmptySets(r)
        invariant forall v, k' :: k' in Values(r, v) <==>
          k' in Values(before, v) || (k' == k && v in Values(forward, k) - values)
        decreases values
      {
        var v :| v in values;
        r := Put(r, v, k);
        values := values - {v};
      }
      forall v, k' ensures k' in Values(r, v) <==> k' in universe - (keys - {k}) && v in Values(forward, k') {
        assert k' in Values(r, v) <==> k' in Values(before, v) || (k' == k && v in Values(forward, k));
        assert k' in Values(before, v) <==> k' in universe - keys && v in Values(forward, k');
      }
      keys := keys - {k};
    }
    forall v ensures Values(r, v) == Values(Invert(forward, universe), v) {
      forall k ensures k in Values(r, v) <==> k in Values(Invert(forward, universe), v) {
        assert k in Values(r, v) <==> k in universe - keys && v in Values(forward, k);
        assert universe - keys == universe;
      }
    }
    SameValuesSameMap(r, Invert(forward, universe));
  }

  /** `convertToMultiMapSorted`, one key at a time: a set becomes its sorted list, `null` stays `null`. */
  function SortedValues(s: Option<set<string>>): (r: Option<seq<string>>)
    ensures r.Some? <==> s.Some?
    ensures r.Some? ==> StrictlySorted(r.value) && forall x :: x in r.value <==> x in s.value
  {
    match s
    case None => None
    case Some(values) => Some(SortedCopy(values))
  }

  /** The public getters' null check: a missing list reads as the empty list. */
  function OrEmpty(s: Option<seq<string>>): (r: seq<string>)
    ensures s.None? ==> r == []
    ensures s.Some? ==> r == s.value
  {
    match s
    case None => []
    case Some(names) => names
  }

}
