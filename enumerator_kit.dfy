/**
 The `NSEnumerator` category. An enumerator is single-pass: `remaining` holds the
 elements it has still to yield, and every operation pulls elements one at a time with
 `NextObject` until it is exhausted, accumulating into a fresh container. Each
 `mutableXByY` selector returns a fresh mutable container with the same contents as
 `xByY`, and is modelled by the same method.
 */
module EnumeratorKit {
  import opened Nullable
  import opened Sequences
  import opened OrderedSets
  import opened Folds
  import ArrayKit

  class Enumerator<T(==)> {
    var remaining: seq<T>

    constructor (s: seq<T>)
      ensures remaining == s
    {
      remaining := s;
    }

    /** `nextObject`: the next element, or `nil` once the enumerator is exhausted. */
    method NextObject() returns (next: Option<T>)
      modifies this
      ensures old(remaining) == [] ==> next == None && remaining == []
      ensures old(remaining) != [] ==> next == Some(old(remaining)[0]) && remaining == old(remaining)[1..]
    {
      if remaining == [] {
        next := None;
      } else {
        next := Some(remaining[0]);
        remaining := remaining[1..];
      }
    }

    /** `arrayByMapping:` / `mutableArrayByMapping:` */
    method ArrayByMapping<U>(transform: T -> Option<U>) returns (r: seq<U>)
      modifies this
      ensures remaining == []
      ensures r == ArrayKit.ArrayByMapping(old(remaining), transform)
    {
      ghost var all := remaining;
      ghost var seen: seq<T> := [];
      r := [];
      var next := NextObject();
      while next.Some?
        invariant next.Some? ==> all == seen + [next.value] + remaining
        invariant next.None? ==> all == seen && remaining == []
        invariant r == CompactMap(seen, transform)
        decreases |remaining|, next.Some?
      {
        var x := next.value;
        assert (seen + [x])[..|seen|] == seen;
        match transform(x) {
          case Some(y) => r := r + [y];
          case None =>
        }
        seen := seen + [x];
        next := NextObject();
      }
    }

    /** `setByMapping:` / `mutableSetByMapping:` */
    method SetByMapping<U>(transform: T -> Option<U>) returns (r: set<U>)
      modifies this
      ensures remaining == []
      ensures r == ArrayKit.SetByMapping(old(remaining), transform)
    {
      ghost var all := remaining;
      ghost var seen: seq<T> := [];
      r := {};
      var next := NextObject();
      while next.Some?
        invariant next.Some? ==> all == seen + [next.value] + remaining
        invariant next.None? ==> all == seen && remaining == []
        invariant r == Elements(CompactMap(seen, transform))
        decreases |remaining|, next.Some?
      {
        var x := next.value;
        assert (seen + [x])[..|seen|] == seen;
        match transform(x) {
          case Some(y) =>
            ElementsAppend(CompactMap(seen, transform), y);
            r := r + {y};
          case None =>
        }
        seen := seen + [x];
        next := NextObject();
      }
    }

    /**
     `orderedSetByMapping:` / `mutableOrderedSetByMapping:` drains the enumerator through
     the transform and keeps the first occurrence of each result.
     */
    method OrderedSetByMapping<U(==)>(transform: T -> Option<U>) returns (r: seq<U>)
      modifies this
      ensures remaining == []
      ensures r == ArrayKit.OrderedSetByMapping(old(remaining), transform)
    {
      ArrayKit.OrderedSetByMappingIsDedup(remaining, transform);
      var mapped := ArrayByMapping(transform);
      r := Dedup(mapped);
    }

    /** `arrayByFiltering:` / `mutableArrayByFiltering:` */
    method ArrayByFiltering(keep: T -> bool) returns (r: seq<T>)
      modifies this
      ensures remaining == []
      ensures r == ArrayKit.ArrayByFiltering(old(remaining), keep)
    {
      ghost var all := remaining;
      ghost var seen: seq<T> := [];
      r := [];
      var next := NextObject();
      while next.Some?
        invariant next.Some? ==> all == seen + [next.value] + remaining
        invariant next.None? ==> all == seen && remaining == []
        invariant r == Filter(seen, keep)
        decreases |remaining|, next.Some?
      {
        var x := next.value;
        assert (seen + [x])[..|seen|] == seen;
        if keep(x) {
          r := r + [x];
        }
        seen := seen + [x];
        next := NextObject();
      }
    }

    /** `setByFiltering:` / `mutableSetByFiltering:` */
    method SetByFiltering(keep: T -> bool) returns (r: set<T>)
      modifies this
      ensures remaining == []
      ensures r == set x | x in old(remaining) && keep(x)
    {
      ghost var all := remaining;
      ghost var seen: seq<T> := [];
      r := {};
      var next := NextObject();
      while next.Some?
        invariant next.Some? ==> all == seen + [next.value] + remaining
        invariant next.None? ==> all == seen && remaining == []
        invariant r == Elements(Filter(seen, keep))
        decreases |remaining|, next.Some?
      {
        var x := next.value;
        assert (seen + [x])[..|seen|] == seen;
        if keep(x) {
          ElementsAppend(Filter(seen, keep), x);
          r := r + {x};
        }
        seen := seen + [x];
        next := NextObject();
      }
      FilterElements(all, keep);
    }

    /**
     `orderedSetByFiltering:` / `mutableOrderedSetByFiltering:` drains the enumerator
     through the predicate and keeps the first occurrence of each accepted element.
     */
    method OrderedSetByFiltering(keep: T -> bool) returns (r: seq<T>)
      modifies this
      ensures remaining == []
      ensures r == ArrayKit.ToOrderedSet(ArrayKit.ArrayByFiltering(old(remaining), keep))
    {
      ArrayKit.OrderedSetByFilteringIsDedup(remaining, keep);
      var kept := ArrayByFiltering(keep);
      r := Dedup(kept);
    }

    /** `initial:reduce:` */
    method Reduce<A>(initial: A, reduce: (A, T) -> A) returns (r: A)
      modifies this
      ensures remaining == []
      ensures r == ArrayKit.Reduce(old(remaining), initial, reduce)
    {
      ghost var all := remaining;
      ghost var seen: seq<T> := [];
      r := initial;
      var next := NextObject();
      while next.Some?
        invariant next.Some? ==> all == seen + [next.value] + remaining
        invariant next.None? ==> all == seen && remaining == []
        invariant r == FoldLeft(initial, seen, reduce)
        decreases |remaining|, next.Some?
      {
        var x := next.value;
        assert (seen + [x])[..|seen|] == seen;
        r := reduce(r, x);
        seen := seen + [x];
        next := NextObject();
      }
    }
  }
}
