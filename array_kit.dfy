/**
 The `NSArray` and `NSMutableArray` categories. An array is a `seq`; its enumeration
 order is its index order. Each `mutableXByY` selector returns a fresh mutable
 container with the same contents as `xByY`, and is modelled by the same function.
 */
module ArrayKit {
  import opened Nullable
  import opened Sequences
  import opened OrderedSets
  import opened Folds

  /** `arrayByMapping:` / `mutableArrayByMapping:` */
  function ArrayByMapping<T, U>(s: seq<T>, block: T -> Option<U>): (r: seq<U>)
    ensures |r| <= |s|
    ensures forall y :: y in r ==> exists x :: x in s && block(x) == Some(y)
    ensures forall x :: x in s && block(x).Some? ==> block(x).value in r
    ensures (forall i :: 0 <= i < |s| ==> block(s[i]).Some?) ==>
              |r| == |s| && forall i :: 0 <= i < |s| ==> r[i] == block(s[i]).value
  {
    var r := CompactMap(s, block);
    assert forall y :: y in r ==> exists x :: x in s && block(x) == Some(y) by {
      forall y | y in r ensures exists x :: x in s && block(x) == Some(y) {
        CompactMapMembership(s, block, y);
      }
    }
    assert forall x :: x in s && block(x).Some? ==> block(x).value in r by {
      forall x | x in s && block(x).Some? ensures block(x).value in r {
        CompactMapMembership(s, block, block(x).value);
      }
    }
    assert (forall i :: 0 <= i < |s| ==> block(s[i]).Some?) ==>
             |r| == |s| && forall i :: 0 <= i < |s| ==> r[i] == block(s[i]).value by {
      if forall i :: 0 <= i < |s| ==> block(s[i]).Some? {
        CompactMapTotal(s, block);
      }
    }
    r
  }

  /** `setByMapping:` / `mutableSetByMapping:` */
  function SetByMapping<T, U>(s: seq<T>, block: T -> Option<U>): (r: set<U>)
    ensures |r| <= |s|
    ensures forall y :: y in r ==> exists x :: x in s && block(x) == Some(y)
    ensures forall x :: x in s && block(x).Some? ==> block(x).value in r
  {
    var a := ArrayByMapping(s, block);
    assert |Elements(a)| <= |a| by {
      ElementsCardinality(a);
    }
    Elements(a)
  }

  /** `orderedSetByMapping:` / `mutableOrderedSetByMapping:` */
  function OrderedSetByMapping<T(==), U(==)>(s: seq<T>, block: T -> Option<U>): (r: seq<U>)
    ensures NoDuplicates(r) && |r| <= |s|
    ensures forall y :: y in r ==> exists x :: x in s && block(x) == Some(y)
    ensures forall x :: x in s && block(x).Some? ==> block(x).value in r
    ensures InFirstOccurrenceOrder(ArrayByMapping(s, block), r)
  {
    var a := ArrayByMapping(s, block);
    var r := Dedup(a);
    assert InFirstOccurrenceOrder(a, r) by {
      DedupKeepsFirstOccurrence(a);
    }
    assert forall y :: y in r ==> y in a by {
      forall y | y in r ensures y in a {
        assert y in Elements(r);
      }
    }
    assert forall y :: y in a ==> y in r by {
      forall y | y in a ensures y in r {
        assert y in Elements(a);
      }
    }
    r
  }

  /** `arrayByFiltering:` / `mutableArrayByFiltering:` */
  function ArrayByFiltering<T>(s: seq<T>, block: T -> bool): (r: seq<T>)
    ensures |r| <= |s|
    ensures forall x :: x in r ==> x in s && block(x)
    ensures forall x :: x in s && block(x) ==> x in r
    ensures IsSubsequence(r, s)
  {
    var r := Filter(s, block);
    assert forall x :: x in r ==> x in s && block(x) by {
      forall x | x in r ensures x in s && block(x) {
        FilterMembership(s, block, x);
      }
    }
    assert forall x :: x in s && block(x) ==> x in r by {
      forall x | x in s && block(x) ensures x in r {
        FilterMembership(s, block, x);
      }
    }
    assert IsSubsequence(r, s) by {
      FilterIsSubsequence(s, block);
    }
    r
  }

  /** `initial:reduce:` */
  function Reduce<A, T>(s: seq<T>, initial: A, reduce: (A, T) -> A): (r: A)
    ensures s == [] ==> r == initial
    ensures s != [] ==> r == Reduce(s[1..], reduce(initial, s[0]), reduce)
  {
    assert s != [] ==> FoldLeft(initial, s, reduce) == FoldLeft(reduce(initial, s[0]), s[1..], reduce) by {
      if s != [] {
        FoldLeftFirst(initial, s, reduce);
      }
    }
    FoldLeft(initial, s, reduce)
  }

  /** `toSet` / `toMutableSet` */
  function ToSet<T>(s: seq<T>): (r: set<T>)
    ensures |r| <= |s|
    ensures forall x :: x in r ==> x in s
    ensures forall x :: x in s ==> x in r
  {
    assert |Elements(s)| <= |s| by {
      ElementsCardinality(s);
    }
    Elements(s)
  }

  /** `toOrderedSet` / `toMutableOrderedSet` */
  function ToOrderedSet<T(==)>(s: seq<T>): (r: seq<T>)
    ensures NoDuplicates(r) && Elements(r) == Elements(s)
    ensures InFirstOccurrenceOrder(s, r)
    ensures NoDuplicates(s) ==> r == s
  {
    assert InFirstOccurrenceOrder(s, Dedup(s)) by {
      DedupKeepsFirstOccurrence(s);
    }
    assert NoDuplicates(s) ==> Dedup(s) == s by {
      if NoDuplicates(s) {
        DedupOfUnique(s);
      }
    }
    Dedup(s)
  }

  /** Mapping with the identity transform yields the array itself, in the same order. */
  lemma MappingIdentity<T>(s: seq<T>)
    ensures ArrayByMapping(s, x => Some(x)) == s
  {
    CompactMapIdentity(s);
  }

  /** Filtering twice with the same block is filtering once. */
  lemma FilteringIdempotent<T>(s: seq<T>, block: T -> bool)
    ensures ArrayByFiltering(ArrayByFiltering(s, block), block) == ArrayByFiltering(s, block)
  {
    var r := ArrayByFiltering(s, block);
    forall i | 0 <= i < |r| ensures block(r[i]) {
      assert r[i] in r;
    }
    FilterAllTrue(r, block);
  }

  /** A block that accepts every element keeps the whole array. */
  lemma FilteringAllTrue<T>(s: seq<T>, block: T -> bool)
    requires forall x :: x in s ==> block(x)
    ensures ArrayByFiltering(s, block) == s
  {
    FilterAllTrue(s, block);
  }

  /** Converting to an ordered set twice is converting once. */
  lemma ToOrderedSetIdempotent<T>(s: seq<T>)
    ensures ToOrderedSet(ToOrderedSet(s)) == ToOrderedSet(s)
  {
  }

  /** `toOrderedSet` is the only duplicate-free ordering of the elements by first occurrence. */
  lemma ToOrderedSetUnique<T>(s: seq<T>, r: seq<T>)
    requires NoDuplicates(r) && Elements(r) == Elements(s) && InFirstOccurrenceOrder(s, r)
    ensures r == ToOrderedSet(s)
  {
    DedupCharacterization(s, r);
  }

  /** The ordered set of results is the deduplicated compact-map. */
  lemma OrderedSetByMappingIsDedup<T, U>(s: seq<T>, block: T -> Option<U>)
    ensures OrderedSetByMapping(s, block) == Dedup(CompactMap(s, block))
  {
  }

  /** The ordered set of accepted elements is the deduplicated filter. */
  lemma OrderedSetByFilteringIsDedup<T>(s: seq<T>, block: T -> bool)
    ensures ToOrderedSet(ArrayByFiltering(s, block)) == Dedup(Filter(s, block))
  {
  }

  /** An `NSMutableArray` receiver. */
  class MutableArray<T> {
    var elements: seq<T>

    constructor (s: seq<T>)
      ensures elements == s
    {
      elements := s;
    }

    /** `filter:` removes, in place, every element the block rejects, and returns the receiver. */
    method Filter(block: T -> bool) returns (self: MutableArray<T>)
      modifies this
      ensures self == this
      ensures elements == ArrayByFiltering(old(elements), block)
    {
      ghost var original := elements;
      var i := 0;
      ghost var seen := 0;
      while i < |elements|
        invariant 0 <= i <= |elements| && 0 <= seen <= |original|
        invariant elements[..i] == Sequences.Filter(original[..seen], block)
        invariant elements[i..] == original[seen..]
        decreases |elements| - i
      {
        assert original[..seen + 1] == original[..seen] + [original[seen]];
        if block(elements[i]) {
          i := i + 1;
        } else {
          elements := elements[..i] + elements[i + 1..];
        }
        seen := seen + 1;
      }
      assert original[..seen] == original;
      assert elements == elements[..i];
      self := this;
    }
  }
}
