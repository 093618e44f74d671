/** Concrete uses of the kit: elision, folding, deduplication, rekey collisions, chaining and draining. */
module Scenarios {
  import opened Nullable
  import opened Sequences
  import opened Folds
  import ArrayKit
  import SetKit
  import OrderedSetKit
  import DictionaryKit
  import EnumeratorKit

  /** Keeps odd numbers, drops even ones. */
  function OddOnly(x: int): Option<int>
  {
    if x % 2 == 0 then None else Some(x)
  }

  /** Mapping `[1, 2, 3, 4]` with a block that is `nil` on even numbers gives `[1, 3]`. */
  lemma CompactMapElision()
    ensures ArrayKit.ArrayByMapping([1, 2, 3, 4], OddOnly) == [1, 3]
  {
    assert [1, 2, 3, 4][..3] == [1, 2, 3];
    assert [1, 2, 3][..2] == [1, 2];
    assert [1, 2][..1] == [1];
  }

  /** Adds an element to the running total. */
  function Add(total: int, x: int): int
  {
    total + x
  }

  /** Reducing an empty array gives the initial value. */
  lemma ReduceEmpty()
    ensures ArrayKit.Reduce([], 0, Add) == 0
  {
  }

  /** Reducing `[1, 2, 3]` from 0 with addition gives 6. */
  lemma ReduceSum()
    ensures ArrayKit.Reduce([1, 2, 3], 0, Add) == 6
  {
    assert [1, 2, 3][1..] == [2, 3];
    assert [2, 3][1..] == [3];
    assert [3][1..] == [];
  }

  /** Converting `[3, 1, 3, 2]` to an ordered set keeps first occurrences: `[3, 1, 2]`. */
  lemma DedupKeepsFirst()
    ensures ArrayKit.ToOrderedSet([3, 1, 3, 2]) == [3, 1, 2]
  {
    assert [3, 1, 3, 2][..3] == [3, 1, 3];
    assert [3, 1, 3][..2] == [3, 1];
    assert [3, 1][..1] == [3];
  }

  /** Sends every key to 0. */
  function ToZero(k: int, v: int): Option<int>
  {
    Some(0)
  }

  /**
   Rekeying `{1: 10, 2: 20}` so that both keys collide keeps one entry, holding the value
   of the pair enumerated last: 20 when key 2 comes last, 10 when key 1 does.
   */
  lemma RekeyCollision()
    ensures DictionaryKit.CompactRekeyed(map[1 := 10, 2 := 20], [1, 2], ToZero) == map[0 := 20]
    ensures DictionaryKit.CompactRekeyed(map[1 := 10, 2 := 20], [2, 1], ToZero) == map[0 := 10]
  {
    var m := map[1 := 10, 2 := 20];
    assert Elements([1, 2]) == {1, 2} == m.Keys;
    assert Elements([2, 1]) == {1, 2};
    RekeyOnlyKey(m, [1, 2]);
    RekeyOnlyKey(m, [2, 1]);
  }

  /** With every key sent to 0, the result holds only 0, with the value of the last key enumerated. */
  lemma RekeyOnlyKey(m: map<int, int>, keys: seq<int>)
    requires Enumerates(keys, m.Keys) && |keys| == 2
    ensures DictionaryKit.CompactRekeyed(m, keys, ToZero) == map[0 := m[keys[1]]]
  {
    var r := DictionaryKit.CompactRekeyed(m, keys, ToZero);
    assert keys[0] in m;
    assert 0 in r;
    var i :| 0 <= i < |keys| && ToZero(keys[i], m[keys[i]]) == Some(0) && r[0] == m[keys[i]]
             && forall i' :: i < i' < |keys| ==> ToZero(keys[i'], m[keys[i']]) != Some(0);
    assert i == 1;
    assert r.Keys == {0};
  }

  /**
   Filtering a mutable ordered set in place and then mapping it in place returns the
   receiver each time and leaves the content the non-mutating forms would produce.
   */
  method FilterThenMap(o: OrderedSetKit.MutableOrderedSet<int>, keep: int -> bool, transform: int -> int)
      returns (afterFilter: OrderedSetKit.MutableOrderedSet<int>, afterMap: OrderedSetKit.MutableOrderedSet<int>)
    requires o.Valid()
    modifies o
    ensures afterFilter == o && afterMap == o && o.Valid()
    ensures o.elements == ArrayKit.OrderedSetByMapping(
              OrderedSetKit.OrderedSetByFiltering(old(o.elements), keep), Lift(transform))
  {
    afterFilter := o.Filter(keep);
    afterMap := o.Map(transform);
  }

  /** A second operation on the same enumerator sees no elements. */
  method DrainTwice(e: EnumeratorKit.Enumerator<int>, transform: int -> Option<int>)
      returns (first: seq<int>, second: seq<int>)
    modifies e
    ensures first == ArrayKit.ArrayByMapping(old(e.remaining), transform)
    ensures second == [] && e.remaining == []
  {
    first := e.ArrayByMapping(transform);
    second := e.ArrayByMapping(transform);
  }
}
