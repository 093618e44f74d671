/**
 The `NSOrderedSet` and `NSMutableOrderedSet` categories. An ordered set is a
 duplicate-free `seq`; its enumeration order is its index order. Each `mutableXByY`
 selector returns a fresh mutable container with the same contents as `xByY`, and is
 modelled by the same function.
 */
module OrderedSetKit {
  import opened Nullable
  import opened Sequences
  import opened OrderedSets
  import ArrayKit

  /** `orderedSetByMapping:` / `mutableOrderedSetByMapping:` */
  function OrderedSetByMapping<T(==), U(==)>(s: seq<T>, transform: T -> Option<U>): (r: seq<U>)
    requires NoDuplicates(s)
    ensures NoDuplicates(r) && |r| <= |s|
    ensures forall y :: y in r ==> exists x :: x in s && transform(x) == Some(y)
    ensures forall x :: x in s && transform(x).Some? ==> transform(x).value in r
    ensures InFirstOccurrenceOrder(ArrayByMapping(s, transform), r)
  {
    ArrayKit.OrderedSetByMapping(s, transform)
  }

  /** `arrayByMapping:` / `mutableArrayByMapping:` */
  function ArrayByMapping<T, U>(s: seq<T>, transform: T -> Option<U>): (r: seq<U>)
    requires NoDuplicates(s)
    ensures |r| <= |s|
    ensures forall y :: y in r ==> exists x :: x in s && transform(x) == Some(y)
    ensures forall x :: x in s && transform(x).Some? ==> transform(x).value in r
    ensures |r| == |set x | x in s && transform(x).Some?|
  {
    assert |Sequences.CompactMap(s, transform)| == |set x | x in s && transform(x).Some?| by {
      CompactMapCountDistinct(s, transform);
    }
    ArrayKit.ArrayByMapping(s, transform)
  }

  /** `setByMapping:` / `mutableSetByMapping:` */
  function SetByMapping<T, U>(s: seq<T>, transform: T -> Option<U>): (r: set<U>)
    requires NoDuplicates(s)
    ensures |r| <= |s|
    ensures forall y :: y in r ==> exists x :: x in s && transform(x) == Some(y)
    ensures forall x :: x in s && transform(x).Some? ==> transform(x).value in r
  {
    ArrayKit.SetByMapping(s, transform)
  }

  /** `orderedSetByFiltering:` / `mutableOrderedSetByFiltering:` */
  function OrderedSetByFiltering<T>(s: seq<T>, keep: T -> bool): (r: seq<T>)
    requires NoDuplicates(s)
    ensures NoDuplicates(r)
    ensures forall x :: x in r ==> x in s && keep(x)
    ensures forall x :: x in s && keep(x) ==> x in r
    ensures IsSubsequence(r, s)
  {
    var r := ArrayKit.ArrayByFiltering(s, keep);
    assert NoDuplicates(r) by {
      FilterNoDuplicates(s, keep);
    }
    r
  }

  /** `initial:reduce:` */
  function Reduce<A, T>(s: seq<T>, initial: A, reduce: (A, T) -> A): (r: A)
    requires NoDuplicates(s)
    ensures s == [] ==> r == initial
    ensures s != [] ==> r == Reduce(s[1..], reduce(initial, s[0]), reduce)
  {
    ArrayKit.Reduce(s, initial, reduce)
  }

  /** `toSet` / `toMutableSet` */
  function ToSet<T>(s: seq<T>): (r: set<T>)
    requires NoDuplicates(s)
    ensures |r| == |s|
    ensures forall x :: x in r ==> x in s
    ensures forall x :: x in s ==> x in r
  {
    assert |Elements(s)| == |s| by {
      ElementsCardinality(s);
    }
    ArrayKit.ToSet(s)
  }

  /** `toArray` / `toMutableArray` */
  function ToArray<T>(s: seq<T>): (r: seq<T>)
    requires NoDuplicates(s)
    ensures r == s
  {
    seq(|s|, i requires 0 <= i < |s| => s[i])
  }

  /** `toArray` then `toOrderedSet` gives back the ordered set. */
  lemma ToArrayRoundTrip<T>(s: seq<T>)
    requires NoDuplicates(s)
    ensures ArrayKit.ToOrderedSet(ToArray(s)) == s
  {
  }

  /** `toSet` then `toOrderedSet` over that set's enumeration keeps the elements and the count. */
  lemma ToSetKeepsElements<T>(s: seq<T>)
    requires NoDuplicates(s)
    ensures ToSet(s) == Elements(s) && |ToSet(s)| == |s|
  {
  }

  /** An `NSMutableOrderedSet` receiver. */
  class MutableOrderedSet<T(==)> {
    var elements: seq<T>

    ghost predicate Valid()
      reads this
    {
      NoDuplicates(elements)
    }

    constructor (s: seq<T>)
      requires NoDuplicates(s)
      ensures Valid() && elements == s
    {
      elements := s;
    }

    /**
     `compactMap:` replaces the contents with the non-nil results of the transform, in
     order, adding a result only if an equal one is not already present; returns the receiver.
     */
    method CompactMap(transform: T -> Option<T>) returns (self: MutableOrderedSet<T>)
      requires Valid()
      modifies this
      ensures Valid() && self == this
      ensures elements == OrderedSetByMapping(old(elements), transform)
    {
      var s := elements;
      var result: seq<T> := [];
      var i := 0;
      while i < |s|
        invariant 0 <= i <= |s|
        invariant result == Dedup(Sequences.CompactMap(s[..i], transform))
      {
        var x := s[i];
        assert s[..i + 1] == s[..i] + [x];
        CompactMapSnoc(s[..i], x, transform);
        match transform(x) {
          case Some(y) =>
            DedupSnoc(Sequences.CompactMap(s[..i], transform), y);
            result := Insert(result, y);
          case None =>
        }
        i := i + 1;
      }
      assert s[..i] == s;
      ArrayKit.OrderedSetByMappingIsDedup(s, transform);
      elements := result;
      self := this;
    }

    /** `map:` replaces every element with the result of the transform, collapsing equal results; returns the receiver. */
    method Map(transform: T -> T) returns (self: MutableOrderedSet<T>)
      requires Valid()
      modifies this
      ensures Valid() && self == this
      ensures elements == OrderedSetByMapping(old(elements), Lift(transform))
    {
      self := CompactMap(Lift(transform));
    }

    /** `filter:` removes, in place, every element the predicate rejects; returns the receiver. */
    method Filter(keep: T -> bool) returns (self: MutableOrderedSet<T>)
      requires Valid()
      modifies this
      ensures Valid() && self == this
      ensures elements == OrderedSetByFiltering(old(elements), keep)
    {
      ghost var original := elements;
      var i := 0;
      ghost var seen := 0;
      while i < |elements|
        invariant 0 <= i <= |elements| && 0 <= seen <= |original|
        invariant elements[..i] == Sequences.Filter(original[..seen], keep)
        invariant elements[i..] == original[seen..]
        decreases |elements| - i
      {
        assert original[..seen + 1] == original[..seen] + [original[seen]];
        if keep(elements[i]) {
          i := i + 1;
        } else {
          elements := elements[..i] + elements[i + 1..];
        }
        seen := seen + 1;
      }
      assert original[..seen] == original;
      assert elements == elements[..i];
      FilterNoDuplicates(original, keep);
      self := this;
    }
  }
}
