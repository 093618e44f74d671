/**
 The `NSSet` and `NSMutableSet` categories. A set is a `set` together with `order`,
 the fixed but otherwise unspecified order in which that set instance enumerates its
 elements (each exactly once). Results that are sets are plain `set`s: their own
 enumeration order is not specified either. Each `mutableXByY` selector returns a fresh
 mutable container with the same contents as `xByY`, and is modelled by the same function.
 */
module SetKit {
  import opened Nullable
  import opened Sequences
  import opened OrderedSets
  import ArrayKit

  /** `setByMapping:` / `mutableSetByMapping:` */
  function SetByMapping<T, U>(s: set<T>, order: seq<T>, block: T -> Option<U>): (r: set<U>)
    requires Enumerates(order, s)
    ensures |r| <= |s|
    ensures forall y :: y in r ==> exists x :: x in s && block(x) == Some(y)
    ensures forall x :: x in s && block(x).Some? ==> block(x).value in r
  {
    EnumerationMembership(order, s);
    ArrayKit.SetByMapping(order, block)
  }

  /** `arrayByMapping:` / `mutableArrayByMapping:` */
  function ArrayByMapping<T, U>(s: set<T>, order: seq<T>, block: T -> Option<U>): (r: seq<U>)
    requires Enumerates(order, s)
    ensures forall y :: y in r ==> exists x :: x in s && block(x) == Some(y)
    ensures forall x :: x in s && block(x).Some? ==> block(x).value in r
    ensures |r| == |set x | x in s && block(x).Some?|
  {
    EnumerationMembership(order, s);
    assert |CompactMap(order, block)| == |set x | x in s && block(x).Some?| by {
      CompactMapCountDistinct(order, block);
      assert (set x | x in order && block(x).Some?) == (set x | x in s && block(x).Some?);
    }
    ArrayKit.ArrayByMapping(order, block)
  }

  /** `orderedSetByMapping:` / `mutableOrderedSetByMapping:` */
  function OrderedSetByMapping<T(==), U(==)>(s: set<T>, order: seq<T>, block: T -> Option<U>): (r: seq<U>)
    requires Enumerates(order, s)
    ensures NoDuplicates(r) && |r| <= |s|
    ensures forall y :: y in r ==> exists x :: x in s && block(x) == Some(y)
    ensures forall x :: x in s && block(x).Some? ==> block(x).value in r
    ensures InFirstOccurrenceOrder(ArrayByMapping(s, order, block), r)
  {
    EnumerationMembership(order, s);
    ArrayKit.OrderedSetByMapping(order, block)
  }

  /** `setByFiltering:` / `mutableSetByFiltering:` */
  function SetByFiltering<T>(s: set<T>, order: seq<T>, block: T -> bool): (r: set<T>)
    requires Enumerates(order, s)
    ensures r == set x | x in s && block(x)
  {
    EnumerationMembership(order, s);
    var kept := ArrayKit.ArrayByFiltering(order, block);
    assert Elements(kept) == set x | x in s && block(x) by {
      FilterElements(order, block);
    }
    Elements(kept)
  }

  /** `initial:reduce:` */
  function Reduce<A, T>(s: set<T>, order: seq<T>, initial: A, reduce: (A, T) -> A): (r: A)
    requires Enumerates(order, s)
    ensures s == {} ==> r == initial
    ensures order != [] ==>
              && Enumerates(order[1..], s - {order[0]})
              && r == Reduce(s - {order[0]}, order[1..], reduce(initial, order[0]), reduce)
    decreases |order|
  {
    EnumerationMembership(order, s);
    assert order != [] ==> Enumerates(order[1..], s - {order[0]}) by {
      if order != [] {
        EnumerationTail(order, s);
      }
    }
    ArrayKit.Reduce(order, initial, reduce)
  }

  /** `toArray` / `toMutableArray` */
  function ToArray<T>(s: set<T>, order: seq<T>): (r: seq<T>)
    requires Enumerates(order, s)
    ensures NoDuplicates(r) && Elements(r) == s && |r| == |s|
  {
    EnumerationMembership(order, s);
    order
  }

  /** `toOrderedSet` / `toMutableOrderedSet` */
  function ToOrderedSet<T(==)>(s: set<T>, order: seq<T>): (r: seq<T>)
    requires Enumerates(order, s)
    ensures r == ToArray(s, order)
    ensures NoDuplicates(r) && Elements(r) == s && |r| == |s|
  {
    ArrayKit.ToOrderedSet(ToArray(s, order))
  }

  /** `toArray` then `toSet` gives back the set. */
  lemma ToArrayRoundTrip<T>(s: set<T>, order: seq<T>)
    requires Enumerates(order, s)
    ensures ArrayKit.ToSet(ToArray(s, order)) == s
  {
  }

  /** A block that accepts every element keeps the whole set. */
  lemma FilteringAllTrue<T>(s: set<T>, order: seq<T>, block: T -> bool)
    requires Enumerates(order, s)
    requires forall x :: x in s ==> block(x)
    ensures SetByFiltering(s, order, block) == s
  {
  }

  /** An `NSMutableSet` receiver, with the order in which it currently enumerates its elements. */
  class MutableSet<T(==)> {
    var elements: set<T>
    var order: seq<T>

    ghost predicate Valid()
      reads this
    {
      Enumerates(order, elements)
    }

    constructor (s: set<T>, enumeration: seq<T>)
      requires Enumerates(enumeration, s)
      ensures Valid() && elements == s && order == enumeration
    {
      elements, order := s, enumeration;
    }

    /**
     `filter:` removes every element the block rejects and returns the receiver. The
     receiver's new enumeration order is not specified beyond listing each remaining
     element once.
     */
    method Filter(block: T -> bool) returns (self: MutableSet<T>)
      requires Valid()
      modifies this
      ensures Valid() && self == this
      ensures elements == SetByFiltering(old(elements), old(order), block)
    {
      ghost var s0 := elements;
      var walk := order;
      EnumerationMembership(walk, s0);
      var kept: seq<T> := [];
      var i := 0;
      while i < |walk|
        invariant 0 <= i <= |walk|
        invariant kept == Sequences.Filter(walk[..i], block)
        invariant forall x :: x in elements <==> x in s0 && (x in walk[..i] ==> block(x))
      {
        var x := walk[i];
        assert walk[..i + 1] == walk[..i] + [x];
        if block(x) {
          kept := kept + [x];
        } else {
          elements := elements - {x};
        }
        i := i + 1;
      }
      assert walk[..i] == walk;
      FilterNoDuplicates(walk, block);
      FilterElements(walk, block);
      order := kept;
      self := this;
    }
  }
}
