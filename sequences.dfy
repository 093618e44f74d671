/**
 The generic kernel behind every container kind: compact-map (a map that drops `nil`
 results) and filter over a sequence in its enumeration order, together with the
 vocabulary used to state what they keep (elements, duplicate-freedom, enumerations,
 order-preserving embeddings).

 Every recursive function here peels the LAST element, so that a loop which has
 walked a prefix `s[..i]` of its source holds `F(s[..i])`.
 */
module Sequences {
  import opened Nullable

  /** The set of elements of a sequence. */
  function Elements<T>(s: seq<T>): set<T>
  {
    set x | x in s
  }

  /** No two positions of `s` hold equal elements (the ordered-set invariant). */
  ghost predicate NoDuplicates<T>(s: seq<T>)
  {
    forall i, j :: 0 <= i < j < |s| ==> s[i] != s[j]
  }

  /** `order` lists every element of `s` exactly once: an enumeration of an unordered container. */
  ghost predicate Enumerates<T>(order: seq<T>, s: set<T>)
  {
    NoDuplicates(order) && Elements(order) == s
  }

  /** `idx` is a strictly increasing list of positions of `b` at which `a` is found, in order. */
  ghost predicate Embedding<T>(idx: seq<nat>, a: seq<T>, b: seq<T>)
  {
    && |idx| == |a|
    && (forall k :: 0 <= k < |idx| ==> idx[k] < |b| && a[k] == b[idx[k]])
    && (forall k, l :: 0 <= k < l < |idx| ==> idx[k] < idx[l])
  }

  /** `a` is obtained from `b` by deleting elements, without reordering. */
  ghost predicate IsSubsequence<T>(a: seq<T>, b: seq<T>)
  {
    exists idx: seq<nat> :: Embedding(idx, a, b)
  }

  lemma ElementsAppend<T>(s: seq<T>, x: T)
    ensures Elements(s + [x]) == Elements(s) + {x}
  {
    assert forall y :: y in s + [x] <==> y in s || y == x;
  }

  /** A sequence has at most as many distinct elements as positions, and exactly as many without duplicates. */
  lemma {:induction false} ElementsCardinality<T>(s: seq<T>)
    ensures |Elements(s)| <= |s|
    ensures NoDuplicates(s) ==> |Elements(s)| == |s|
  {
    if s == [] {
      assert Elements(s) == {};
    } else {
      var n := |s| - 1;
      assert s == s[..n] + [s[n]];
      ElementsCardinality(s[..n]);
      ElementsAppend(s[..n], s[n]);
      if NoDuplicates(s) {
        assert NoDuplicates(s[..n]);
        assert s[n] !in Elements(s[..n]);
      }
    }
  }

  /** Membership in a set and in an enumeration of it agree, and the enumeration has the set's size. */
  lemma EnumerationMembership<T>(order: seq<T>, s: set<T>)
    requires Enumerates(order, s)
    ensures forall x :: x in order <==> x in s
    ensures |order| == |s|
  {
    forall x ensures x in order <==> x in s {
      assert x in order <==> x in Elements(order);
    }
    ElementsCardinality(order);
  }

  /** Removing the first enumerated element leaves a set enumerated by the remaining ones. */
  lemma EnumerationTail<T>(order: seq<T>, s: set<T>)
    requires Enumerates(order, s) && order != []
    ensures Enumerates(order[1..], s - {order[0]})
  {
    assert order == [order[0]] + order[1..];
    forall x ensures x in Elements(order[1..]) <==> x in s - {order[0]} {
      assert x in Elements(order) <==> x == order[0] || x in order[1..];
      if x in order[1..] {
        var j :| 0 <= j < |order[1..]| && order[1..][j] == x;
        assert order[j + 1] == x;
      }
    }
  }

  /** In a sequence without duplicates, no element occurs before its own position. */
  lemma NotEarlier<T>(s: seq<T>, i: nat)
    requires NoDuplicates(s) && i < |s|
    ensures s[i] !in s[..i]
  {
  }

  // ---------------------------------------------------------------------------
  // Compact-map

  /** The non-nil results of `f` over `s`, in the order of `s`. */
  function CompactMap<T, U>(s: seq<T>, f: T -> Option<U>): (r: seq<U>)
    ensures |r| <= |s|
  {
    if s == [] then []
    else
      var rest := CompactMap(s[..|s| - 1], f);
      match f(s[|s| - 1])
      case None => rest
      case Some(y) => rest + [y]
  }

  /** Compact-mapping one more element appends its result, if any. */
  lemma CompactMapSnoc<T, U>(s: seq<T>, x: T, f: T -> Option<U>)
    ensures f(x).None? ==> CompactMap(s + [x], f) == CompactMap(s, f)
    ensures f(x).Some? ==> CompactMap(s + [x], f) == CompactMap(s, f) + [f(x).value]
  {
    assert (s + [x])[..|s|] == s;
  }

  /** `y` is produced exactly when some element of `s` is transformed into it. */
  lemma {:induction false} CompactMapMembership<T, U>(s: seq<T>, f: T -> Option<U>, y: U)
    ensures y in CompactMap(s, f) <==> exists x :: x in s && f(x) == Some(y)
  {
    if s != [] {
      var n := |s| - 1;
      assert s == s[..n] + [s[n]];
      CompactMapMembership(s[..n], f, y);
      if y in CompactMap(s, f) && y !in CompactMap(s[..n], f) {
        assert f(s[n]) == Some(y);
      }
    }
  }

  /** Compact-map distributes over concatenation: it walks its source front to back. */
  lemma {:induction false} CompactMapAppend<T, U>(a: seq<T>, b: seq<T>, f: T -> Option<U>)
    ensures CompactMap(a + b, f) == CompactMap(a, f) + CompactMap(b, f)
  {
    if b == [] {
      assert a + b == a;
    } else {
      var n := |b| - 1;
      assert (a + b)[..|a + b| - 1] == a + b[..n];
      assert (a + b)[|a + b| - 1] == b[n];
      CompactMapAppend(a, b[..n], f);
    }
  }

  /**
   The full order characterization of compact-map: the result lists `f(s[i]).value`
   for exactly the positions `i` whose result is non-nil, in increasing order of `i`.
   */
  lemma {:induction false} CompactMapEmbedding<T, U>(s: seq<T>, f: T -> Option<U>) returns (idx: seq<nat>)
    ensures |idx| == |CompactMap(s, f)|
    ensures forall k :: 0 <= k < |idx| ==> idx[k] < |s| && f(s[idx[k]]) == Some(CompactMap(s, f)[k])
    ensures forall k, l :: 0 <= k < l < |idx| ==> idx[k] < idx[l]
    ensures forall i :: 0 <= i < |s| ==> (i in idx <==> f(s[i]).Some?)
  {
    if s == [] {
      idx := [];
    } else {
      var n := |s| - 1;
      var prefix := s[..n];
      var before := CompactMapEmbedding(prefix, f);
      var r, rp := CompactMap(s, f), CompactMap(prefix, f);
      assert forall i :: 0 <= i < n ==> s[i] == prefix[i];
      assert forall k :: 0 <= k < |before| ==> before[k] < n;
      if f(s[n]).Some? {
        idx := before + [n];
        assert r == rp + [f(s[n]).value];
        forall k | 0 <= k < |idx|
          ensures idx[k] < |s| && f(s[idx[k]]) == Some(r[k])
        {
          if k < |before| {
            assert idx[k] == before[k] && r[k] == rp[k];
          }
        }
        forall i | 0 <= i < |s|
          ensures i in idx <==> f(s[i]).Some?
        {
          assert i in idx <==> i in before || i == n;
        }
      } else {
        idx := before;
        assert r == rp;
      }
    }
  }

  /** With a transform that never returns nil, compact-map keeps every position. */
  lemma {:induction false} CompactMapTotal<T, U>(s: seq<T>, f: T -> Option<U>)
    requires forall i :: 0 <= i < |s| ==> f(s[i]).Some?
    ensures |CompactMap(s, f)| == |s|
    ensures forall i :: 0 <= i < |s| ==> CompactMap(s, f)[i] == f(s[i]).value
  {
    if s != [] {
      var n := |s| - 1;
      CompactMapTotal(s[..n], f);
    }
  }

  /** Compact-mapping with the transform that wraps every element is the identity. */
  lemma CompactMapIdentity<T>(s: seq<T>)
    ensures CompactMap(s, x => Some(x)) == s
  {
    CompactMapTotal(s, x => Some(x));
  }

  /** The number of non-nil results is the number of elements whose result is non-nil. */
  lemma {:induction false} CompactMapCount<T, U>(s: seq<T>, f: T -> Option<U>)
    ensures |CompactMap(s, f)| == |Filter(s, x => f(x).Some?)|
  {
    if s != [] {
      CompactMapCount(s[..|s| - 1], f);
    }
  }

  /** Over a duplicate-free source, there is one result per element whose result is non-nil. */
  lemma CompactMapCountDistinct<T, U>(s: seq<T>, f: T -> Option<U>)
    requires NoDuplicates(s)
    ensures |CompactMap(s, f)| == |set x | x in s && f(x).Some?|
  {
    var p := x => f(x).Some?;
    CompactMapCount(s, f);
    FilterNoDuplicates(s, p);
    FilterElements(s, p);
    ElementsCardinality(Filter(s, p));
    assert (set x | x in s && p(x)) == (set x | x in s && f(x).Some?);
  }

  // ---------------------------------------------------------------------------
  // Filter

  /** The elements of `s` satisfying `p`, in the order of `s`. */
  function Filter<T>(s: seq<T>, p: T -> bool): (r: seq<T>)
    ensures |r| <= |s|
  {
    if s == [] then []
    else
      var rest := Filter(s[..|s| - 1], p);
      if p(s[|s| - 1]) then rest + [s[|s| - 1]] else rest
  }

  /** Filtering one more element appends it when it is accepted. */
  lemma FilterSnoc<T>(s: seq<T>, x: T, p: T -> bool)
    ensures Filter(s + [x], p) == if p(x) then Filter(s, p) + [x] else Filter(s, p)
  {
    assert (s + [x])[..|s|] == s;
  }

  /** An element is kept exactly when it is in the source and satisfies the predicate. */
  lemma {:induction false} FilterMembership<T>(s: seq<T>, p: T -> bool, x: T)
    ensures x in Filter(s, p) <==> x in s && p(x)
  {
    if s != [] {
      var n := |s| - 1;
      assert s == s[..n] + [s[n]];
      FilterMembership(s[..n], p, x);
    }
  }

  /** Filter distributes over concatenation: it walks its source front to back. */
  lemma {:induction false} FilterAppend<T>(a: seq<T>, b: seq<T>, p: T -> bool)
    ensures Filter(a + b, p) == Filter(a, p) + Filter(b, p)
  {
    if b == [] {
      assert a + b == a;
    } else {
      var n := |b| - 1;
      assert (a + b)[..|a + b| - 1] == a + b[..n];
      assert (a + b)[|a + b| - 1] == b[n];
      FilterAppend(a, b[..n], p);
    }
  }

  /**
   The full order characterization of filter: the result is the subsequence of `s`
   at exactly the positions whose element satisfies `p`.
   */
  lemma {:induction false} FilterEmbedding<T>(s: seq<T>, p: T -> bool) returns (idx: seq<nat>)
    ensures Embedding(idx, Filter(s, p), s)
    ensures forall i :: 0 <= i < |s| ==> (i in idx <==> p(s[i]))
  {
    if s == [] {
      idx := [];
    } else {
      var n := |s| - 1;
      var prefix := s[..n];
      var before := FilterEmbedding(prefix, p);
      var r, rp := Filter(s, p), Filter(prefix, p);
      assert forall i :: 0 <= i < n ==> s[i] == prefix[i];
      assert forall k :: 0 <= k < |before| ==> before[k] < n;
      if p(s[n]) {
        idx := before + [n];
        assert r == rp + [s[n]];
        forall k | 0 <= k < |idx|
          ensures idx[k] < |s| && r[k] == s[idx[k]]
        {
          if k < |before| {
            assert idx[k] == before[k] && r[k] == rp[k];
          }
        }
        forall i | 0 <= i < |s|
          ensures i in idx <==> p(s[i])
        {
          assert i in idx <==> i in before || i == n;
        }
      } else {
        idx := before;
        assert r == rp;
      }
    }
  }

  lemma FilterIsSubsequence<T>(s: seq<T>, p: T -> bool)
    ensures IsSubsequence(Filter(s, p), s)
  {
    var idx := FilterEmbedding(s, p);
  }

  /** A subsequence of a duplicate-free sequence is duplicate-free. */
  lemma SubsequenceNoDuplicates<T>(a: seq<T>, b: seq<T>)
    requires IsSubsequence(a, b) && NoDuplicates(b)
    ensures NoDuplicates(a)
  {
    var idx: seq<nat> :| Embedding(idx, a, b);
    forall i, j | 0 <= i < j < |a| ensures a[i] != a[j] {
      assert idx[i] < idx[j];
    }
  }

  /** Filtering never introduces duplicates: a filtered ordered set is an ordered set. */
  lemma FilterNoDuplicates<T>(s: seq<T>, p: T -> bool)
    requires NoDuplicates(s)
    ensures NoDuplicates(Filter(s, p))
  {
    FilterIsSubsequence(s, p);
    SubsequenceNoDuplicates(Filter(s, p), s);
  }

  /** The elements kept by a filter are the elements of the source satisfying the predicate. */
  lemma FilterElements<T>(s: seq<T>, p: T -> bool)
    ensures Elements(Filter(s, p)) == set x | x in s && p(x)
  {
    var kept := set x | x in s && p(x);
    forall x ensures x in Elements(Filter(s, p)) <==> x in kept {
      FilterMembership(s, p, x);
      assert x in Elements(Filter(s, p)) <==> x in Filter(s, p);
      assert x in kept <==> x in s && p(x);
    }
    assert Elements(Filter(s, p)) == kept;
  }

  /** A predicate that holds of every element keeps the sequence intact. */
  lemma {:induction false} FilterAllTrue<T>(s: seq<T>, p: T -> bool)
    requires forall i :: 0 <= i < |s| ==> p(s[i])
    ensures Filter(s, p) == s
  {
    if s != [] {
      var n := |s| - 1;
      FilterAllTrue(s[..n], p);
      assert s == s[..n] + [s[n]];
    }
  }
}
