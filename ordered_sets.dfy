/**
 Ordered sets as duplicate-free sequences. Adding an element that is already present
 is ignored, so an ordered set built from a sequence keeps the first occurrence of
 each element, at the position where it first appeared.
 */
module OrderedSets {
  import opened Sequences
  import opened Folds

  /** Adds `x` at the end of the ordered set `os`, unless an equal element is already present. */
  function Insert<T(==)>(os: seq<T>, x: T): (r: seq<T>)
    ensures NoDuplicates(os) ==> NoDuplicates(r)
    ensures Elements(r) == Elements(os) + {x}
  {
    ElementsAppend(os, x);
    if x in os then os else os + [x]
  }

  /** The ordered set built from `s` by adding its elements in order. */
  function Dedup<T(==)>(s: seq<T>): (r: seq<T>)
    ensures NoDuplicates(r)
    ensures Elements(r) == Elements(s)
    ensures |r| <= |s|
  {
    if s == [] then []
    else
      var n := |s| - 1;
      assert s == s[..n] + [s[n]];
      ElementsAppend(s[..n], s[n]);
      Insert(Dedup(s[..n]), s[n])
  }

  /** Deduplicating one more element inserts it into the ordered set so far. */
  lemma DedupSnoc<T>(s: seq<T>, x: T)
    ensures Dedup(s + [x]) == Insert(Dedup(s), x)
  {
    assert (s + [x])[..|s|] == s;
  }

  /** The position of the first occurrence of `x` in `s`. */
  ghost function FirstIndex<T>(s: seq<T>, x: T): (i: nat)
    requires x in s
    ensures i < |s| && s[i] == x && x !in s[..i]
  {
    if s[0] == x then 0
    else
      var j := FirstIndex(s[1..], x);
      assert s[..1 + j] == [s[0]] + s[1..][..j];
      1 + j
  }

  /** Every element of `a` occurs in `s`, and `a` lists them in the order of their first occurrence in `s`. */
  ghost predicate InFirstOccurrenceOrder<T>(s: seq<T>, a: seq<T>)
  {
    && (forall i :: 0 <= i < |a| ==> a[i] in s)
    && (forall i, j :: 0 <= i < j < |a| ==> FirstIndex(s, a[i]) < FirstIndex(s, a[j]))
  }

  lemma {:induction false} FirstIndexAppend<T>(s: seq<T>, x: T, y: T)
    requires y in s
    ensures FirstIndex(s + [x], y) == FirstIndex(s, y)
  {
    if s[0] != y {
      assert (s + [x])[1..] == s[1..] + [x];
      FirstIndexAppend(s[1..], x, y);
    }
  }

  /** A prefix of a sequence in first-occurrence order is in first-occurrence order. */
  lemma PrefixInFirstOccurrenceOrder<T>(s: seq<T>, a: seq<T>, n: nat)
    requires n <= |a| && InFirstOccurrenceOrder(s, a)
    ensures InFirstOccurrenceOrder(s, a[..n])
  {
    forall i, j | 0 <= i < j < n
      ensures FirstIndex(s, a[..n][i]) < FirstIndex(s, a[..n][j])
    {
      assert a[..n][i] == a[i] && a[..n][j] == a[j];
    }
  }

  /** Building an ordered set keeps the first occurrences: its elements appear in the order of their first occurrence in `s`. */
  lemma {:induction false} DedupKeepsFirstOccurrence<T>(s: seq<T>)
    ensures InFirstOccurrenceOrder(s, Dedup(s))
  {
    if s != [] {
      var n := |s| - 1;
      var prefix, x := s[..n], s[n];
      assert s == prefix + [x];
      var d, dp := Dedup(s), Dedup(prefix);
      DedupKeepsFirstOccurrence(prefix);
      forall i | 0 <= i < |d| ensures d[i] in s && (i < |dp| ==> d[i] == dp[i] && FirstIndex(s, d[i]) < n) {
        if i < |dp| {
          assert d[i] == dp[i] && d[i] in Elements(dp);
          FirstIndexAppend(prefix, x, d[i]);
        }
      }
      forall i, j | 0 <= i < j < |d|
        ensures FirstIndex(s, d[i]) < FirstIndex(s, d[j])
      {
        FirstIndexAppend(prefix, x, d[i]);
        if j < |dp| {
          FirstIndexAppend(prefix, x, d[j]);
        } else {
          assert d[j] == x && x !in prefix;
          assert FirstIndex(s, x) == n;
        }
      }
    }
  }

  /** An ordered set built from a duplicate-free sequence is that sequence. */
  lemma {:induction false} DedupOfUnique<T>(s: seq<T>)
    requires NoDuplicates(s)
    ensures Dedup(s) == s
  {
    if s != [] {
      var n := |s| - 1;
      assert s == s[..n] + [s[n]];
      DedupOfUnique(s[..n]);
      assert s[n] !in s[..n];
    }
  }

  /** Building an ordered set from `s` is the left fold of `Insert` over `s` from the empty ordered set. */
  lemma {:induction false} DedupIsFoldOfInsert<T>(s: seq<T>)
    ensures Dedup(s) == FoldLeft([], s, Insert)
  {
    if s != [] {
      DedupIsFoldOfInsert(s[..|s| - 1]);
    }
  }

  /** Of a sequence in first-occurrence order, the last element has the largest first index. */
  lemma LastHasLargestFirstIndex<T>(s: seq<T>, a: seq<T>, y: T)
    requires a != [] && InFirstOccurrenceOrder(s, a)
    requires y in a && y != a[|a| - 1]
    ensures FirstIndex(s, y) < FirstIndex(s, a[|a| - 1])
  {
    var k :| 0 <= k < |a| && a[k] == y;
  }

  /** Two sequences in first-occurrence order over the same elements end with the same element. */
  lemma SameLast<T>(s: seq<T>, a: seq<T>, b: seq<T>)
    requires a != [] && b != [] && Elements(a) == Elements(b)
    requires InFirstOccurrenceOrder(s, a) && InFirstOccurrenceOrder(s, b)
    ensures a[|a| - 1] == b[|b| - 1]
  {
    var x, y := a[|a| - 1], b[|b| - 1];
    if x != y {
      assert x in Elements(b) && y in Elements(a);
      LastHasLargestFirstIndex(s, a, y);
      LastHasLargestFirstIndex(s, b, x);
    }
  }

  /** Dropping the last element of a duplicate-free sequence removes exactly that element. */
  lemma DropLastElements<T>(a: seq<T>)
    requires a != [] && NoDuplicates(a)
    ensures Elements(a[..|a| - 1]) == Elements(a) - {a[|a| - 1]}
    ensures NoDuplicates(a[..|a| - 1])
  {
    var n := |a| - 1;
    assert a == a[..n] + [a[n]];
    ElementsAppend(a[..n], a[n]);
    assert a[n] !in a[..n];
  }

  /**
   Two duplicate-free sequences over the same elements of `s`, both in first-occurrence
   order, are equal.
   */
  lemma {:induction false} OrderedByFirstIndexUnique<T>(s: seq<T>, a: seq<T>, b: seq<T>)
    requires NoDuplicates(a) && NoDuplicates(b)
    requires Elements(a) == Elements(b)
    requires InFirstOccurrenceOrder(s, a) && InFirstOccurrenceOrder(s, b)
    ensures a == b
    decreases |a|
  {
    ElementsCardinality(a);
    ElementsCardinality(b);
    assert |a| == |b|;
    if a != [] {
      var n := |a| - 1;
      SameLast(s, a, b);
      DropLastElements(a);
      DropLastElements(b);
      PrefixInFirstOccurrenceOrder(s, a, n);
      PrefixInFirstOccurrenceOrder(s, b, n);
      OrderedByFirstIndexUnique(s, a[..n], b[..n]);
      assert a == a[..n] + [a[n]] && b == b[..n] + [b[n]];
    }
  }

  /**
   The reference definition of "keep the first occurrence of each element": the
   sequence of the distinct elements of `s` ordered by first occurrence is `Dedup(s)`.
   */
  lemma DedupCharacterization<T>(s: seq<T>, r: seq<T>)
    requires NoDuplicates(r) && Elements(r) == Elements(s) && InFirstOccurrenceOrder(s, r)
    ensures r == Dedup(s)
  {
    DedupKeepsFirstOccurrence(s);
    OrderedByFirstIndexUnique(s, r, Dedup(s));
  }
}
