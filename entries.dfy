/**
 Dictionaries as a `map` together with an enumeration of its keys: the pairs and the
 values in enumeration order, and `CollectBy`, which builds a dictionary by inserting
 entries one after another (a later entry with an existing key overwrites it).
 */
module Entries {
  import opened Nullable
  import opened Sequences

  /** The key-value pairs of `m`, listed in the enumeration order `keys`. */
  function Pairs<K, V>(m: map<K, V>, keys: seq<K>): (r: seq<(K, V)>)
    requires Elements(keys) <= m.Keys
    ensures |r| == |keys|
    ensures forall i :: 0 <= i < |r| ==> r[i] == (keys[i], m[keys[i]])
  {
    seq(|keys|, i requires 0 <= i < |keys| => (keys[i], m[keys[i]]))
  }

  /** The values of `m`, listed in the enumeration order `keys`. */
  function Values<K, V>(m: map<K, V>, keys: seq<K>): (r: seq<V>)
    requires Elements(keys) <= m.Keys
    ensures |r| == |keys|
    ensures forall i :: 0 <= i < |r| ==> r[i] == m[keys[i]]
  {
    seq(|keys|, i requires 0 <= i < |keys| => m[keys[i]])
  }

  /** Each pair of `m` appears in its enumeration, and nothing else does. */
  lemma PairsMembership<K, V>(m: map<K, V>, keys: seq<K>, p: (K, V))
    requires Enumerates(keys, m.Keys)
    ensures p in Pairs(m, keys) <==> p.0 in m && p.1 == m[p.0]
  {
    var ps := Pairs(m, keys);
    if p.0 in m && p.1 == m[p.0] {
      assert p.0 in Elements(keys);
      var i :| 0 <= i < |keys| && keys[i] == p.0;
      assert ps[i] == p;
    }
  }

  /**
   The dictionary built by inserting, in order, the entry `g(x)` of every element `x`
   of `s` whose entry is not `nil`.
   */
  function CollectBy<X, K, W>(s: seq<X>, g: X -> Option<(K, W)>): map<K, W>
  {
    if s == [] then map[]
    else
      var r := CollectBy(s[..|s| - 1], g);
      match g(s[|s| - 1])
      case None => r
      case Some(e) => r[e.0 := e.1]
  }

  /** Two dictionaries with the same keys and the same value at each key are equal. */
  lemma SameEntries<K, V>(a: map<K, V>, b: map<K, V>)
    requires forall k :: k in a <==> k in b
    requires forall k :: k in a ==> a[k] == b[k]
    ensures a == b
  {
  }

  /** One value per key: the dictionary has at most one entry per inserted element. */
  lemma {:induction false} CollectBySize<X, K, W>(s: seq<X>, g: X -> Option<(K, W)>)
    ensures |CollectBy(s, g)| <= |s|
  {
    if s != [] {
      CollectBySize(s[..|s| - 1], g);
    }
  }

  /** `g` turns `x` into an entry for key `k`. */
  ghost predicate EntryFor<X, K, W>(g: X -> Option<(K, W)>, x: X, k: K)
  {
    g(x).Some? && g(x).value.0 == k
  }

  /** A key is present exactly when some element yields an entry for it. */
  lemma {:induction false} CollectByKeys<X, K, W>(s: seq<X>, g: X -> Option<(K, W)>, k: K)
    ensures k in CollectBy(s, g) <==> exists x :: x in s && EntryFor(g, x, k)
  {
    if s != [] {
      var n := |s| - 1;
      assert s == s[..n] + [s[n]];
      CollectByKeys(s[..n], g, k);
      if k in CollectBy(s, g) && k !in CollectBy(s[..n], g) {
        assert EntryFor(g, s[n], k);
      }
    }
  }

  /** Last write wins: a key holds the value of the last element, in order, that yields an entry for it. */
  lemma {:induction false} CollectByLastWins<X, K, W>(s: seq<X>, g: X -> Option<(K, W)>, k: K)
    requires k in CollectBy(s, g)
    ensures exists i :: 0 <= i < |s| && g(s[i]) == Some((k, CollectBy(s, g)[k]))
                     && forall j :: i < j < |s| ==> !EntryFor(g, s[j], k)
  {
    var n := |s| - 1;
    var r, rp := CollectBy(s, g), CollectBy(s[..n], g);
    if EntryFor(g, s[n], k) {
      assert g(s[n]) == Some((k, r[k]));
    } else {
      assert k in rp && r[k] == rp[k];
      CollectByLastWins(s[..n], g, k);
      var i :| 0 <= i < n && g(s[..n][i]) == Some((k, rp[k]))
               && forall j :: i < j < n ==> !EntryFor(g, s[..n][j], k);
      assert s[i] == s[..n][i];
      forall j | i < j < |s| ensures !EntryFor(g, s[j], k) {
        if j < n {
          assert s[j] == s[..n][j];
        }
      }
    }
  }
}
