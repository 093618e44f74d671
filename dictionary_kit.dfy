/**
 The `NSDictionary` and `NSMutableDictionary` categories. A dictionary is a `map`
 together with `keys`, the fixed but otherwise unspecified order in which that dictionary
 instance enumerates its keys (each exactly once). Blocks receive a key and its value.
 Each `mutableXByY` selector returns a fresh mutable container with the same contents as
 `xByY`, and is modelled by the same function.
 */
module DictionaryKit {
  import opened Nullable
  import opened Sequences
  import opened OrderedSets
  import opened Entries
  import ArrayKit

  /** A key-value block, applied to a pair. */
  function OnPair<K, V, W>(transform: (K, V) -> Option<W>): ((K, V)) -> Option<W>
  {
    (p: (K, V)) => transform(p.0, p.1)
  }

  /** The entry a mapping block makes of a pair: same key, transformed value, or none. */
  function MappedEntry<K, V, W>(transform: (K, V) -> Option<W>): ((K, V)) -> Option<(K, W)>
  {
    (p: (K, V)) => if transform(p.0, p.1).Some? then Some((p.0, transform(p.0, p.1).value)) else None
  }

  /** The entry a filtering predicate makes of a pair: the pair itself, or none. */
  function FilteredEntry<K, V>(keep: (K, V) -> bool): ((K, V)) -> Option<(K, V)>
  {
    (p: (K, V)) => if keep(p.0, p.1) then Some(p) else None
  }

  /** The entry a rekeying block makes of a pair: new key, same value, or none. */
  function RekeyedEntry<K, V>(transform: (K, V) -> Option<K>): ((K, V)) -> Option<(K, V)>
  {
    (p: (K, V)) => if transform(p.0, p.1).Some? then Some((transform(p.0, p.1).value, p.1)) else None
  }

  /**
   Inserting the entries of the pairs of `m`, where each entry keeps its pair's key,
   yields exactly the keys whose entry is present, each with that entry's value.
   */
  lemma CollectPairs<K, V, W>(m: map<K, V>, keys: seq<K>, g: ((K, V)) -> Option<(K, W)>, k: K)
    requires Enumerates(keys, m.Keys)
    requires forall p :: g(p).Some? ==> g(p).value.0 == p.0
    ensures k in CollectBy(Pairs(m, keys), g) <==> k in m && g((k, m[k])).Some?
    ensures k in CollectBy(Pairs(m, keys), g) ==> CollectBy(Pairs(m, keys), g)[k] == g((k, m[k])).value.1
  {
    EnumerationMembership(keys, m.Keys);
    var ps := Pairs(m, keys);
    var r := CollectBy(ps, g);
    CollectByKeys(ps, g, k);
    if k in r {
      var x :| x in ps && EntryFor(g, x, k);
      CollectByLastWins(ps, g, k);
      var i :| 0 <= i < |ps| && g(ps[i]) == Some((k, r[k]))
               && forall j :: i < j < |ps| ==> !EntryFor(g, ps[j], k);
      assert ps[i] == (k, m[k]);
    } else if k in m {
      var i :| 0 <= i < |keys| && keys[i] == k;
      assert ps[i] == (k, m[k]);
      assert !EntryFor(g, ps[i], k);
    }
  }

  /** `dictionaryByMapping:` / `mutableDictionaryByMapping:` */
  function DictionaryByMapping<K, V, W>(m: map<K, V>, keys: seq<K>, transform: (K, V) -> Option<W>): (r: map<K, W>)
    requires Enumerates(keys, m.Keys)
    ensures forall k :: k in r ==> k in m && transform(k, m[k]) == Some(r[k])
    ensures forall k :: k in m && transform(k, m[k]).Some? ==> k in r
  {
    var g := MappedEntry(transform);
    var r := CollectBy(Pairs(m, keys), g);
    assert forall k :: k in r ==> k in m && transform(k, m[k]) == Some(r[k]) by {
      forall k | k in r ensures k in m && transform(k, m[k]) == Some(r[k]) {
        CollectPairs(m, keys, g, k);
      }
    }
    assert forall k :: k in m && transform(k, m[k]).Some? ==> k in r by {
      forall k | k in m && transform(k, m[k]).Some? ensures k in r {
        CollectPairs(m, keys, g, k);
      }
    }
    r
  }

  /** `arrayByMapping:` / `mutableArrayByMapping:` */
  function ArrayByMapping<K, V, W>(m: map<K, V>, keys: seq<K>, transform: (K, V) -> Option<W>): (r: seq<W>)
    requires Enumerates(keys, m.Keys)
    ensures |r| <= |m|
    ensures forall w :: w in r ==> exists k :: k in m && transform(k, m[k]) == Some(w)
    ensures forall k :: k in m && transform(k, m[k]).Some? ==> transform(k, m[k]).value in r
    ensures (forall i :: 0 <= i < |keys| ==> transform(keys[i], m[keys[i]]).Some?) ==>
              |r| == |keys| && forall i :: 0 <= i < |keys| ==> r[i] == transform(keys[i], m[keys[i]]).value
  {
    EnumerationMembership(keys, m.Keys);
    var ps := Pairs(m, keys);
    var f := OnPair(transform);
    var r := ArrayKit.ArrayByMapping(ps, f);
    assert forall w :: w in r ==> exists k :: k in m && transform(k, m[k]) == Some(w) by {
      forall w | w in r ensures exists k :: k in m && transform(k, m[k]) == Some(w) {
        MappedPairsImage(m, keys, transform, w);
      }
    }
    assert forall k :: k in m && transform(k, m[k]).Some? ==> transform(k, m[k]).value in r by {
      forall k | k in m && transform(k, m[k]).Some? ensures transform(k, m[k]).value in r {
        MappedPairsCover(m, keys, transform, k);
      }
    }
    assert (forall i :: 0 <= i < |keys| ==> transform(keys[i], m[keys[i]]).Some?) ==>
             |r| == |keys| && forall i :: 0 <= i < |keys| ==> r[i] == transform(keys[i], m[keys[i]]).value by {
      if forall i :: 0 <= i < |keys| ==> transform(keys[i], m[keys[i]]).Some? {
        MappedPairsTotal(m, keys, transform);
      }
    }
    r
  }

  /** Every result of mapping the pairs comes from some key and its value. */
  lemma MappedPairsImage<K, V, W>(m: map<K, V>, keys: seq<K>, transform: (K, V) -> Option<W>, w: W)
    requires Enumerates(keys, m.Keys)
    requires w in ArrayKit.ArrayByMapping(Pairs(m, keys), OnPair(transform))
    ensures exists k :: k in m && transform(k, m[k]) == Some(w)
  {
    var p :| p in Pairs(m, keys) && OnPair(transform)(p) == Some(w);
    PairsMembership(m, keys, p);
  }

  /** Every key whose block result is not `nil` contributes that result. */
  lemma MappedPairsCover<K, V, W>(m: map<K, V>, keys: seq<K>, transform: (K, V) -> Option<W>, k: K)
    requires Enumerates(keys, m.Keys)
    requires k in m && transform(k, m[k]).Some?
    ensures transform(k, m[k]).value in ArrayKit.ArrayByMapping(Pairs(m, keys), OnPair(transform))
  {
    PairsMembership(m, keys, (k, m[k]));
    assert OnPair(transform)((k, m[k])) == transform(k, m[k]);
  }

  /** When no block result is `nil`, the results line up with the key enumeration. */
  lemma MappedPairsTotal<K, V, W>(m: map<K, V>, keys: seq<K>, transform: (K, V) -> Option<W>)
    requires Enumerates(keys, m.Keys)
    requires forall i :: 0 <= i < |keys| ==> transform(keys[i], m[keys[i]]).Some?
    ensures |ArrayKit.ArrayByMapping(Pairs(m, keys), OnPair(transform))| == |keys|
    ensures forall i :: 0 <= i < |keys| ==>
              ArrayKit.ArrayByMapping(Pairs(m, keys), OnPair(transform))[i] == transform(keys[i], m[keys[i]]).value
  {
    var ps := Pairs(m, keys);
    var f := OnPair(transform);
    forall i | 0 <= i < |ps| ensures f(ps[i]) == transform(keys[i], m[keys[i]]) {
    }
  }

  /** `setByMapping:` / `mutableSetByMapping:` */
  function SetByMapping<K, V, W>(m: map<K, V>, keys: seq<K>, transform: (K, V) -> Option<W>): (r: set<W>)
    requires Enumerates(keys, m.Keys)
    ensures |r| <= |m|
    ensures forall w :: w in r ==> exists k :: k in m && transform(k, m[k]) == Some(w)
    ensures forall k :: k in m && transform(k, m[k]).Some? ==> transform(k, m[k]).value in r
  {
    var a := ArrayByMapping(m, keys, transform);
    assert |Elements(a)| <= |a| by {
      ElementsCardinality(a);
    }
    Elements(a)
  }

  /** `orderedSetByMapping:` / `mutableOrderedSetByMapping:` */
  function OrderedSetByMapping<K, V, W(==)>(m: map<K, V>, keys: seq<K>, transform: (K, V) -> Option<W>): (r: seq<W>)
    requires Enumerates(keys, m.Keys)
    ensures NoDuplicates(r) && |r| <= |m|
    ensures forall w :: w in r ==> exists k :: k in m && transform(k, m[k]) == Some(w)
    ensures forall k :: k in m && transform(k, m[k]).Some? ==> transform(k, m[k]).value in r
    ensures InFirstOccurrenceOrder(ArrayByMapping(m, keys, transform), r)
  {
    var a := ArrayByMapping(m, keys, transform);
    assert InFirstOccurrenceOrder(a, Dedup(a)) by {
      DedupKeepsFirstOccurrence(a);
    }
    assert forall w :: w in Dedup(a) ==> w in a by {
      forall w | w in Dedup(a) ensures w in a {
        assert w in Elements(Dedup(a));
      }
    }
    assert forall w :: w in a ==> w in Dedup(a) by {
      forall w | w in a ensures w in Dedup(a) {
        assert w in Elements(a);
      }
    }
    Dedup(a)
  }

  /** `dictionaryByFiltering:` / `mutableDictionaryByFiltering:` */
  function DictionaryByFiltering<K, V>(m: map<K, V>, keys: seq<K>, keep: (K, V) -> bool): (r: map<K, V>)
    requires Enumerates(keys, m.Keys)
    ensures forall k :: k in r ==> k in m && keep(k, m[k]) && r[k] == m[k]
    ensures forall k :: k in m && keep(k, m[k]) ==> k in r
  {
    var g := FilteredEntry(keep);
    var r := CollectBy(Pairs(m, keys), g);
    assert forall k :: k in r ==> k in m && keep(k, m[k]) && r[k] == m[k] by {
      forall k | k in r ensures k in m && keep(k, m[k]) && r[k] == m[k] {
        CollectPairs(m, keys, g, k);
      }
    }
    assert forall k :: k in m && keep(k, m[k]) ==> k in r by {
      forall k | k in m && keep(k, m[k]) ensures k in r {
        CollectPairs(m, keys, g, k);
      }
    }
    r
  }

  /** `initial:reduce:` folds over the values, in key enumeration order. */
  function Reduce<A, K, V>(m: map<K, V>, keys: seq<K>, initial: A, reduce: (A, V) -> A): (r: A)
    requires Enumerates(keys, m.Keys)
    ensures |m| == 0 ==> r == initial
    ensures keys != [] ==>
              && keys[0] in m
              && Enumerates(keys[1..], (m - {keys[0]}).Keys)
              && r == Reduce(m - {keys[0]}, keys[1..], reduce(initial, m[keys[0]]), reduce)
    decreases |keys|
  {
    EnumerationMembership(keys, m.Keys);
    var vs := Values(m, keys);
    assert keys != [] ==> Enumerates(keys[1..], (m - {keys[0]}).Keys) && vs[1..] == Values(m - {keys[0]}, keys[1..]) by {
      if keys != [] {
        EnumerationTail(keys, m.Keys);
        assert (m - {keys[0]}).Keys == m.Keys - {keys[0]};
      }
    }
    ArrayKit.Reduce(vs, initial, reduce)
  }

  /**
   The dictionary `compactRekey:` leaves behind: each pair whose new key is not `nil` is
   stored under that key, in key enumeration order, so that of several pairs given the
   same new key the last one enumerated wins.
   */
  function CompactRekeyed<K, V>(m: map<K, V>, keys: seq<K>, transform: (K, V) -> Option<K>): (r: map<K, V>)
    requires Enumerates(keys, m.Keys)
    ensures |r| <= |m|
    ensures forall j :: j in r ==> exists k :: k in m && transform(k, m[k]) == Some(j)
    ensures forall k :: k in m && transform(k, m[k]).Some? ==> transform(k, m[k]).value in r
    ensures forall j :: j in r ==>
              exists i :: 0 <= i < |keys| && transform(keys[i], m[keys[i]]) == Some(j) && r[j] == m[keys[i]]
                          && forall i' :: i < i' < |keys| ==> transform(keys[i'], m[keys[i']]) != Some(j)
  {
    EnumerationMembership(keys, m.Keys);
    var ps := Pairs(m, keys);
    var g := RekeyedEntry(transform);
    CollectBySize(ps, g);
    RekeyedAllLastWin(m, keys, transform);
    RekeyedAllCovered(m, keys, transform);
    CollectBy(ps, g)
  }

  /** Every key present after rekeying holds the value of the last pair enumerated that was given it. */
  lemma RekeyedAllLastWin<K, V>(m: map<K, V>, keys: seq<K>, transform: (K, V) -> Option<K>)
    requires Enumerates(keys, m.Keys)
    ensures forall i :: 0 <= i < |keys| ==> keys[i] in m
    ensures forall j :: j in CollectBy(Pairs(m, keys), RekeyedEntry(transform)) ==>
              exists i :: 0 <= i < |keys| && transform(keys[i], m[keys[i]]) == Some(j)
                          && CollectBy(Pairs(m, keys), RekeyedEntry(transform))[j] == m[keys[i]]
                          && forall i' :: i < i' < |keys| ==> transform(keys[i'], m[keys[i']]) != Some(j)
  {
    EnumerationMembership(keys, m.Keys);
    forall j | j in CollectBy(Pairs(m, keys), RekeyedEntry(transform))
      ensures exists i :: 0 <= i < |keys| && transform(keys[i], m[keys[i]]) == Some(j)
                          && CollectBy(Pairs(m, keys), RekeyedEntry(transform))[j] == m[keys[i]]
                          && forall i' :: i < i' < |keys| ==> transform(keys[i'], m[keys[i']]) != Some(j)
    {
      RekeyedLastWins(m, keys, transform, j);
    }
  }

  /** Every pair given a new key leaves that key present after rekeying. */
  lemma RekeyedAllCovered<K, V>(m: map<K, V>, keys: seq<K>, transform: (K, V) -> Option<K>)
    requires Enumerates(keys, m.Keys)
    ensures forall k :: k in m && transform(k, m[k]).Some? ==>
              transform(k, m[k]).value in CollectBy(Pairs(m, keys), RekeyedEntry(transform))
  {
    forall k | k in m && transform(k, m[k]).Some?
      ensures transform(k, m[k]).value in CollectBy(Pairs(m, keys), RekeyedEntry(transform))
    {
      RekeyedCovers(m, keys, transform, k);
    }
  }

  /** A key present after rekeying holds the value of the last pair enumerated that was given that key. */
  lemma RekeyedLastWins<K, V>(m: map<K, V>, keys: seq<K>, transform: (K, V) -> Option<K>, j: K)
    requires Enumerates(keys, m.Keys)
    requires j in CollectBy(Pairs(m, keys), RekeyedEntry(transform))
    ensures forall i :: 0 <= i < |keys| ==> keys[i] in m
    ensures exists i :: 0 <= i < |keys| && transform(keys[i], m[keys[i]]) == Some(j)
                        && CollectBy(Pairs(m, keys), RekeyedEntry(transform))[j] == m[keys[i]]
                        && forall i' :: i < i' < |keys| ==> transform(keys[i'], m[keys[i']]) != Some(j)
  {
    EnumerationMembership(keys, m.Keys);
    var ps := Pairs(m, keys);
    var g := RekeyedEntry(transform);
    var r := CollectBy(ps, g);
    CollectByLastWins(ps, g, j);
    var i :| 0 <= i < |ps| && g(ps[i]) == Some((j, r[j]))
             && forall i' :: i < i' < |ps| ==> !EntryFor(g, ps[i'], j);
    forall i' | i < i' < |keys| ensures transform(keys[i'], m[keys[i']]) != Some(j) {
      assert !EntryFor(g, ps[i'], j);
    }
  }

  /** Every pair given a new key leaves that key present after rekeying. */
  lemma RekeyedCovers<K, V>(m: map<K, V>, keys: seq<K>, transform: (K, V) -> Option<K>, k: K)
    requires Enumerates(keys, m.Keys)
    requires k in m && transform(k, m[k]).Some?
    ensures transform(k, m[k]).value in CollectBy(Pairs(m, keys), RekeyedEntry(transform))
  {
    EnumerationMembership(keys, m.Keys);
    var ps := Pairs(m, keys);
    var g := RekeyedEntry(transform);
    var i :| 0 <= i < |keys| && keys[i] == k;
    CollectByKeys(ps, g, transform(k, m[k]).value);
    assert EntryFor(g, ps[i], transform(k, m[k]).value);
  }

  /** A predicate that accepts every pair keeps the whole dictionary. */
  lemma FilteringAllTrue<K, V>(m: map<K, V>, keys: seq<K>, keep: (K, V) -> bool)
    requires Enumerates(keys, m.Keys)
    requires forall k :: k in m ==> keep(k, m[k])
    ensures DictionaryByFiltering(m, keys, keep) == m
  {
    var r := DictionaryByFiltering(m, keys, keep);
    assert r.Keys == m.Keys;
  }

  /** Mapping every pair to its own value gives back the dictionary. */
  lemma MappingIdentity<K, V>(m: map<K, V>, keys: seq<K>)
    requires Enumerates(keys, m.Keys)
    ensures DictionaryByMapping(m, keys, (k: K, v: V) => Some(v)) == m
  {
    var r := DictionaryByMapping(m, keys, (k: K, v: V) => Some(v));
    assert r.Keys == m.Keys;
  }

  /** Rekeying every pair to its own key gives back the dictionary. */
  lemma RekeyIdentity<K, V>(m: map<K, V>, keys: seq<K>)
    requires Enumerates(keys, m.Keys)
    ensures CompactRekeyed(m, keys, (k: K, v: V) => Some(k)) == m
  {
    var f := (k: K, v: V) => Some(k);
    var g := RekeyedEntry(f);
    var r := CollectBy(Pairs(m, keys), g);
    forall k | k in m ensures k in r {
      CollectPairs(m, keys, g, k);
    }
    forall k | k in r ensures k in m && r[k] == m[k] {
      CollectPairs(m, keys, g, k);
      assert g((k, m[k])) == Some((k, m[k]));
    }
    SameEntries(r, m);
  }

  /** A rekeyed dictionary never has more entries than the receiver had. */
  lemma RekeyNeverGrows<K, V>(m: map<K, V>, keys: seq<K>, transform: (K, V) -> Option<K>)
    requires Enumerates(keys, m.Keys)
    ensures |CompactRekeyed(m, keys, transform)| <= |m|
  {
  }

  /** An `NSMutableDictionary` receiver, with the order in which it currently enumerates its keys. */
  class MutableDictionary<K(==), V> {
    var entries: map<K, V>
    var order: seq<K>

    ghost predicate Valid()
      reads this
    {
      Enumerates(order, entries.Keys)
    }

    constructor (m: map<K, V>, enumeration: seq<K>)
      requires Enumerates(enumeration, m.Keys)
      ensures Valid() && entries == m && order == enumeration
    {
      entries, order := m, enumeration;
    }

    /** `map:` replaces, in place, the value of every key with the transform of that pair; returns the receiver. */
    method Map(transform: (K, V) -> V) returns (self: MutableDictionary<K, V>)
      requires Valid()
      modifies this
      ensures Valid() && self == this
      ensures entries.Keys == old(entries).Keys
      ensures forall k :: k in entries ==> entries[k] == transform(k, old(entries)[k])
      ensures entries == DictionaryByMapping(old(entries), old(order), Lift2(transform))
    {
      ghost var m0 := entries;
      var walk := order;
      EnumerationMembership(walk, m0.Keys);
      var i := 0;
      while i < |walk|
        invariant 0 <= i <= |walk|
        invariant entries.Keys == m0.Keys
        invariant order == walk
        invariant forall k :: k in entries ==> entries[k] == if k in walk[..i] then transform(k, m0[k]) else m0[k]
      {
        var k := walk[i];
        NotEarlier(walk, i);
        assert walk[..i + 1] == walk[..i] + [k];
        entries := entries[k := transform(k, entries[k])];
        i := i + 1;
      }
      assert walk[..i] == walk;
      ghost var d := DictionaryByMapping(m0, walk, Lift2(transform));
      SameEntries(d, entries);
      self := this;
    }

    /**
     `compactMap:` replaces, in place, the value of every key with the transform of that
     pair, and removes every key whose transform is `nil`; returns the receiver.
     */
    method CompactMap(transform: (K, V) -> Option<V>) returns (self: MutableDictionary<K, V>)
      requires Valid()
      modifies this
      ensures Valid() && self == this
      ensures entries == DictionaryByMapping(old(entries), old(order), transform)
    {
      ghost var m0 := entries;
      var walk := order;
      EnumerationMembership(walk, m0.Keys);
      var kept: seq<K> := [];
      var i := 0;
      while i < |walk|
        invariant 0 <= i <= |walk|
        invariant forall k :: k in entries <==> k in m0 && (k in walk[..i] ==> transform(k, m0[k]).Some?)
        invariant forall k :: k in entries ==>
                    entries[k] == if k in walk[..i] then transform(k, m0[k]).value else m0[k]
        invariant NoDuplicates(kept)
        invariant forall k :: k in kept <==> k in m0 && k in walk[..i] && transform(k, m0[k]).Some?
      {
        var k := walk[i];
        NotEarlier(walk, i);
        assert walk[..i + 1] == walk[..i] + [k];
        match transform(k, entries[k]) {
          case Some(v) =>
            entries := entries[k := v];
            kept := kept + [k];
          case None =>
            entries := entries - {k};
        }
        i := i + 1;
      }
      assert walk[..i] == walk;
      assert Elements(kept) == entries.Keys;
      order := kept;
      ghost var d := DictionaryByMapping(m0, walk, transform);
      SameEntries(d, entries);
      self := this;
    }

    /**
     `compactRekey:` replaces the contents with the pairs stored under their new keys,
     dropping every pair whose new key is `nil`; returns the receiver.
     */
    method CompactRekey(transform: (K, V) -> Option<K>) returns (self: MutableDictionary<K, V>)
      requires Valid()
      modifies this
      ensures Valid() && self == this
      ensures entries == CompactRekeyed(old(entries), old(order), transform)
    {
      var walk := order;
      EnumerationMembership(walk, entries.Keys);
      ghost var ps := Pairs(entries, walk);
      var result: map<K, V> := map[];
      var resultOrder: seq<K> := [];
      var i := 0;
      while i < |walk|
        invariant 0 <= i <= |walk|
        invariant result == CollectBy(ps[..i], RekeyedEntry(transform))
        invariant Enumerates(resultOrder, result.Keys)
      {
        var k := walk[i];
        var v := entries[k];
        assert ps[..i + 1][..i] == ps[..i];
        assert ps[i] == (k, v);
        match transform(k, v) {
          case Some(j) =>
            result := result[j := v];
            resultOrder := Insert(resultOrder, j);
          case None =>
        }
        i := i + 1;
      }
      assert ps[..i] == ps;
      entries, order := result, resultOrder;
      self := this;
    }

    /** `rekey:` replaces the contents with the pairs stored under their new keys; returns the receiver. */
    method Rekey(transform: (K, V) -> K) returns (self: MutableDictionary<K, V>)
      requires Valid()
      modifies this
      ensures Valid() && self == this
      ensures entries == CompactRekeyed(old(entries), old(order), Lift2(transform))
    {
      self := CompactRekey(Lift2(transform));
    }

    /** `filter:` removes, in place, every pair the predicate rejects; returns the receiver. */
    method Filter(keep: (K, V) -> bool) returns (self: MutableDictionary<K, V>)
      requires Valid()
      modifies this
      ensures Valid() && self == this
      ensures entries == DictionaryByFiltering(old(entries), old(order), keep)
    {
      ghost var m0 := entries;
      var walk := order;
      EnumerationMembership(walk, m0.Keys);
      var kept: seq<K> := [];
      var i := 0;
      while i < |walk|
        invariant 0 <= i <= |walk|
        invariant forall k :: k in entries <==> k in m0 && (k in walk[..i] ==> keep(k, m0[k]))
        invariant forall k :: k in entries ==> entries[k] == m0[k]
        invariant NoDuplicates(kept)
        invariant forall k :: k in kept <==> k in m0 && k in walk[..i] && keep(k, m0[k])
      {
        var k := walk[i];
        NotEarlier(walk, i);
        assert walk[..i + 1] == walk[..i] + [k];
        if keep(k, entries[k]) {
          kept := kept + [k];
        } else {
          entries := entries - {k};
        }
        i := i + 1;
      }
      assert walk[..i] == walk;
      assert Elements(kept) == entries.Keys;
      order := kept;
      ghost var d := DictionaryByFiltering(m0, walk, keep);
      SameEntries(d, entries);
      self := this;
    }
  }
}
