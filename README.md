# CBHMapReduceKit in Dafny

CBHMapReduceKit is a set of Objective-C categories. They add map, compact-map, filter,
reduce and conversion operations to Foundation's `NSArray`, `NSSet`, `NSOrderedSet` and
`NSDictionary`, to their mutable subclasses, and to `NSEnumerator`. This project models
those operations and proves the contracts their headers state.

The model uses these representations:

- A block that may return `nil` becomes a function returning `Option`. `None` is `nil`.
- An array is a `seq`.
- An ordered set is a `seq` without duplicates.
- A set is a `set` plus `order`, a sequence listing each element once. `order` is the
  set's own enumeration order: fixed, but otherwise left abstract.
- A dictionary is a `map` plus `keys`, the dictionary's own key enumeration order. It is
  abstract in the same way.
- An enumerator is a class whose `remaining` field holds the elements it still has to
  yield.
- Each mutable receiver is a class. Its methods rewrite its fields and return the receiver.
- Each `mutableXByY` selector has the same contents as `xByY`. Both are modelled by one
  function, and its doc comment names both selectors.

Layout:

| file | module | contents |
|---|---|---|
| `nullable.dfy` | `Nullable` | `Option`, and `Lift`/`Lift2`, which view a block that never returns `nil` as a nullable one |
| `sequences.dfy` | `Sequences` | `CompactMap`, `Filter`, subsequence embeddings, and enumerations of a set |
| `folds.dfy` | `Folds` | the left fold `FoldLeft` |
| `ordered_sets.dfy` | `OrderedSets` | `Insert` and `Dedup` (keep the first occurrence), and first-occurrence order |
| `entries.dfy` | `Entries` | a dictionary's pairs and values in enumeration order; `CollectBy`, which builds a dictionary entry by entry |
| `array_kit.dfy` | `ArrayKit` | the `NSArray` category and `NSMutableArray.filter:` |
| `ordered_set_kit.dfy` | `OrderedSetKit` | the `NSOrderedSet` category and the `NSMutableOrderedSet` methods |
| `set_kit.dfy` | `SetKit` | the `NSSet` category and `NSMutableSet.filter:` |
| `dictionary_kit.dfy` | `DictionaryKit` | the `NSDictionary` category and the `NSMutableDictionary` methods |
| `enumerator_kit.dfy` | `EnumeratorKit` | the `NSEnumerator` category, as loops that pull from `NextObject`; the ordered-set forms drain through the array forms and then keep first occurrences |
| `scenarios.dfy` | `Scenarios` | concrete cases: elision, sums, first-occurrence order, rekey collisions, chaining, draining twice |

Every recursive kernel function peels the last element. A loop invariant of the form
`acc == F(s[..i])` therefore unfolds in one step. The first-to-last readings (`Reduce`
as a fold from the front, for instance) are proved as lemmas.

## Model

| member | source | states |
|---|---|---|
| Sequences.CompactMapMembership | CBHMapReduceKit/NSArray+CBHMapReduceKit.h:28-29 | a value is in the compact-map result exactly when some source element's block result is that value (a `nil` result never contributes) |
| Sequences.CompactMapEmbedding | CBHMapReduceKit/NSArray+CBHMapReduceKit.h:28-29 | the compact-map result lists the non-`nil` results at strictly increasing source positions, and a position appears exactly when its result is non-`nil` (source order is kept) |
| Sequences.CompactMapTotal | CBHMapReduceKit/NSArray+CBHMapReduceKit.h:28-29 | with a block that never returns `nil`, the result has the source's length and holds the i-th result at position i |
| Sequences.CompactMapCount | CBHMapReduceKit/NSArray+CBHMapReduceKit.h:28-29 | the result has one entry per element whose block result is non-`nil` |
| Sequences.CompactMapCountDistinct | CBHMapReduceKit/NSSet+CBHMapReduceKit.h:31-32 | over a duplicate-free source, the result's length equals the number of elements whose block result is non-`nil` |
| Sequences.FilterMembership | CBHMapReduceKit/NSArray+CBHMapReduceKit.h:40-41 | an element is kept exactly when it is in the source and the block accepts it |
| Sequences.FilterEmbedding | CBHMapReduceKit/NSArray+CBHMapReduceKit.h:40-41 | the filtered sequence is the order-preserving subsequence of exactly the positions the block accepts |
| Sequences.FilterNoDuplicates | CBHMapReduceKit/NSOrderedSet+CBHMapReduceKit.h:81-87 | filtering a duplicate-free sequence leaves it duplicate-free |
| Sequences.FilterElements | CBHMapReduceKit/NSSet+CBHMapReduceKit.h:39-40 | the elements kept are exactly the source elements the block accepts |
| Sequences.FilterAllTrue | CBHMapReduceKit/NSArray+CBHMapReduceKit.h:40-41 | a block that accepts every element keeps the sequence unchanged |
| Sequences.ElementsCardinality | CBHMapReduceKit/NSSet+CBHMapReduceKit.h:50-51 | a sequence has at most as many distinct elements as positions, and exactly as many when it has no duplicates |
| Sequences.EnumerationMembership | CBHMapReduceKit/NSSet+CBHMapReduceKit.h:50-51 | an enumeration of a set holds exactly the set's elements, and its length is the set's count |
| Folds.FoldLeftFirst | CBHMapReduceKit/NSArray+CBHMapReduceKit.h:46 | the fold of a non-empty sequence is the fold of its tail, starting from the combination of the initial value with the first element |
| Folds.FoldLeftAppend | CBHMapReduceKit/NSArray+CBHMapReduceKit.h:46 | folding a concatenation folds the second part from the result of folding the first |
| Folds.FoldLeftVisitsInOrder | CBHMapReduceKit/NSArray+CBHMapReduceKit.h:46 | the combiner is applied once per element, to the elements in sequence order |
| OrderedSets.Insert | CBHMapReduceKit/NSOrderedSet+CBHMapReduceKit.h:154-162 | adding an element to a duplicate-free sequence keeps it duplicate-free and adds exactly that element |
| OrderedSets.Dedup | CBHMapReduceKit/NSArray+CBHMapReduceKit.h:54-55 | the result is duplicate-free, holds exactly the source's elements, and is no longer than the source |
| OrderedSets.FirstIndex | CBHMapReduceKit/NSArray+CBHMapReduceKit.h:54-55 | the position of an element's first occurrence: it holds the element, and no earlier position does |
| OrderedSets.DedupKeepsFirstOccurrence | CBHMapReduceKit/NSArray+CBHMapReduceKit.h:54-55 | deduplication lists elements in the order of their first occurrences |
| OrderedSets.DedupOfUnique | CBHMapReduceKit/NSOrderedSet+CBHMapReduceKit.h:125-135 | deduplicating a duplicate-free sequence leaves it unchanged |
| OrderedSets.DedupIsFoldOfInsert | CBHMapReduceKit/NSArray+CBHMapReduceKit.h:34-35 | deduplication is the left fold that adds each element to an initially empty ordered set |
| OrderedSets.OrderedByFirstIndexUnique | CBHMapReduceKit/NSArray+CBHMapReduceKit.h:54-55 | two duplicate-free sequences with the same elements, both in first-occurrence order of the same source, are equal |
| OrderedSets.DedupCharacterization | CBHMapReduceKit/NSArray+CBHMapReduceKit.h:54-55 | any duplicate-free sequence of the source's elements in first-occurrence order is the deduplication |
| Entries.PairsMembership | CBHMapReduceKit/NSDictionary+CBHMapReduceKit.h:45-51 | a pair is enumerated exactly when it is a key of the dictionary with its value |
| Entries.CollectByKeys | CBHMapReduceKit/NSDictionary+CBHMapReduceKit.h:163-171 | a key is in a dictionary built entry by entry exactly when some element yields an entry for it |
| Entries.CollectByLastWins | CBHMapReduceKit/NSDictionary+CBHMapReduceKit.h:153-171 | each key holds the value of the last element, in order, that yields an entry for it |
| Entries.CollectBySize | CBHMapReduceKit/NSDictionary+CBHMapReduceKit.h:153-171 | one value per key: the dictionary has at most one entry per element |
| ArrayKit.ArrayByMapping | CBHMapReduceKit/NSArray+CBHMapReduceKit.h:28-29 | no longer than the source; holds exactly the non-`nil` block results; with a block that never returns `nil`, same length and i-th result at position i |
| ArrayKit.SetByMapping | CBHMapReduceKit/NSArray+CBHMapReduceKit.h:31-32 | exactly the set of non-`nil` block results, with at most the source's count |
| ArrayKit.OrderedSetByMapping | CBHMapReduceKit/NSArray+CBHMapReduceKit.h:34-35 | duplicate-free, exactly the non-`nil` results, each in the order of its first production |
| ArrayKit.ArrayByFiltering | CBHMapReduceKit/NSArray+CBHMapReduceKit.h:40-41 | an order-preserving subsequence of the source holding exactly the elements the block accepts |
| ArrayKit.Reduce | CBHMapReduceKit/NSArray+CBHMapReduceKit.h:46 | `initial` for an empty array; otherwise the reduction of the tail from `reduce(initial, first)`, a left-to-right fold |
| ArrayKit.ToSet | CBHMapReduceKit/NSArray+CBHMapReduceKit.h:51-52 | exactly the array's elements, with at most its count |
| ArrayKit.ToOrderedSet | CBHMapReduceKit/NSArray+CBHMapReduceKit.h:54-55 | duplicate-free, the array's elements in first-occurrence order, and the array itself when it has no duplicates |
| ArrayKit.MappingIdentity | CBHMapReduceKit/NSArray+CBHMapReduceKit.h:28 | mapping with the identity block yields the array in the same order |
| ArrayKit.FilteringIdempotent | CBHMapReduceKit/NSArray+CBHMapReduceKit.h:40 | filtering twice with one block equals filtering once |
| ArrayKit.FilteringAllTrue | CBHMapReduceKit/NSArray+CBHMapReduceKit.h:40 | a block that accepts every element returns the whole array |
| ArrayKit.ToOrderedSetIdempotent | CBHMapReduceKit/NSArray+CBHMapReduceKit.h:54 | converting to an ordered set twice equals converting once |
| ArrayKit.ToOrderedSetUnique | CBHMapReduceKit/NSArray+CBHMapReduceKit.h:54 | `toOrderedSet` is the only duplicate-free first-occurrence ordering of the elements |
| ArrayKit.MutableArray.constructor | CBHMapReduceKit/NSArray+CBHMapReduceKit.h:60 | a receiver holding the given elements |
| ArrayKit.MutableArray.Filter | CBHMapReduceKit/NSArray+CBHMapReduceKit.h:64 | removes the rejected elements in place, leaving exactly `arrayByFiltering:` of the old contents, and returns the receiver |
| OrderedSetKit.OrderedSetByMapping | CBHMapReduceKit/NSOrderedSet+CBHMapReduceKit.h:28-42 | duplicate-free, exactly the non-`nil` results, each at its first occurrence in receiver order |
| OrderedSetKit.ArrayByMapping | CBHMapReduceKit/NSOrderedSet+CBHMapReduceKit.h:45-59 | exactly the non-`nil` results; its length is the number of elements with a non-`nil` result, so at most the receiver's count |
| OrderedSetKit.SetByMapping | CBHMapReduceKit/NSOrderedSet+CBHMapReduceKit.h:62-76 | exactly the set of non-`nil` results, with at most the receiver's count |
| OrderedSetKit.OrderedSetByFiltering | CBHMapReduceKit/NSOrderedSet+CBHMapReduceKit.h:81-95 | a duplicate-free order-preserving subsequence holding exactly the accepted elements |
| OrderedSetKit.Reduce | CBHMapReduceKit/NSOrderedSet+CBHMapReduceKit.h:100-107 | `initial` for an empty ordered set; otherwise the left fold in receiver order |
| OrderedSetKit.ToSet | CBHMapReduceKit/NSOrderedSet+CBHMapReduceKit.h:112-122 | exactly the receiver's elements, with the same count |
| OrderedSetKit.ToArray | CBHMapReduceKit/NSOrderedSet+CBHMapReduceKit.h:125-135 | the same elements in the same order |
| OrderedSetKit.ToArrayRoundTrip | CBHMapReduceKit/NSOrderedSet+CBHMapReduceKit.h:125-129 | converting the array back to an ordered set recovers the receiver |
| OrderedSetKit.ToSetKeepsElements | CBHMapReduceKit/NSOrderedSet+CBHMapReduceKit.h:112-116 | the set holds the receiver's elements and has its count |
| OrderedSetKit.MutableOrderedSet.constructor | CBHMapReduceKit/NSOrderedSet+CBHMapReduceKit.h:140 | a receiver holding the given duplicate-free elements |
| OrderedSetKit.MutableOrderedSet.CompactMap | CBHMapReduceKit/NSOrderedSet+CBHMapReduceKit.h:154-162 | replaces the contents with `orderedSetByMapping:` of the old contents, keeps them duplicate-free, returns the receiver |
| OrderedSetKit.MutableOrderedSet.Map | CBHMapReduceKit/NSOrderedSet+CBHMapReduceKit.h:144-152 | replaces the contents with the transformed elements, equal results collapsed to their first occurrence; returns the receiver |
| OrderedSetKit.MutableOrderedSet.Filter | CBHMapReduceKit/NSOrderedSet+CBHMapReduceKit.h:167-173 | removes the rejected elements in place, leaving exactly the accepted ones in their original relative order; returns the receiver |
| SetKit.SetByMapping | CBHMapReduceKit/NSSet+CBHMapReduceKit.h:28-29 | exactly the set of non-`nil` results, with at most the receiver's count |
| SetKit.ArrayByMapping | CBHMapReduceKit/NSSet+CBHMapReduceKit.h:31-32 | exactly the non-`nil` results; one entry per element with a non-`nil` result |
| SetKit.OrderedSetByMapping | CBHMapReduceKit/NSSet+CBHMapReduceKit.h:34-35 | duplicate-free, exactly the non-`nil` results, in first-occurrence order of the set's enumeration |
| SetKit.SetByFiltering | CBHMapReduceKit/NSSet+CBHMapReduceKit.h:39-40 | the subset of elements the block accepts |
| SetKit.Reduce | CBHMapReduceKit/NSSet+CBHMapReduceKit.h:45 | `initial` for an empty set; otherwise the reduction of the rest from `reduce(initial, first enumerated)` |
| SetKit.ToArray | CBHMapReduceKit/NSSet+CBHMapReduceKit.h:50-51 | each element exactly once, with length equal to the set's count |
| SetKit.ToOrderedSet | CBHMapReduceKit/NSSet+CBHMapReduceKit.h:53-54 | the same as `toArray`: each element once, length equal to the count |
| SetKit.ToArrayRoundTrip | CBHMapReduceKit/NSSet+CBHMapReduceKit.h:50 | converting the array back to a set recovers the receiver |
| SetKit.FilteringAllTrue | CBHMapReduceKit/NSSet+CBHMapReduceKit.h:39 | a block that accepts every element returns the whole set |
| SetKit.MutableSet.constructor | CBHMapReduceKit/NSSet+CBHMapReduceKit.h:59 | a receiver holding the given set and enumeration |
| SetKit.MutableSet.Filter | CBHMapReduceKit/NSSet+CBHMapReduceKit.h:63 | leaves the receiver equal to the elements of the old receiver that the block accepts, and returns the receiver |
| DictionaryKit.CollectPairs | CBHMapReduceKit/NSDictionary+CBHMapReduceKit.h:28-34 | building a dictionary from the pairs with entries that keep their key yields exactly the keys whose entry is present, with that entry's value |
| DictionaryKit.DictionaryByMapping | CBHMapReduceKit/NSDictionary+CBHMapReduceKit.h:28-42 | keeps a key exactly when `transform(k, v)` is non-`nil`, maps it to that result, and has no other keys |
| DictionaryKit.ArrayByMapping | CBHMapReduceKit/NSDictionary+CBHMapReduceKit.h:45-59 | exactly the non-`nil` results, at most the dictionary's count; with a block that never returns `nil`, one result per key in key enumeration order |
| DictionaryKit.SetByMapping | CBHMapReduceKit/NSDictionary+CBHMapReduceKit.h:62-76 | exactly the set of non-`nil` results, with at most the dictionary's count |
| DictionaryKit.OrderedSetByMapping | CBHMapReduceKit/NSDictionary+CBHMapReduceKit.h:79-93 | duplicate-free, exactly the non-`nil` results, in first-occurrence order of the pair enumeration |
| DictionaryKit.DictionaryByFiltering | CBHMapReduceKit/NSDictionary+CBHMapReduceKit.h:98-112 | the submap of exactly the pairs the predicate accepts, values unchanged |
| DictionaryKit.Reduce | CBHMapReduceKit/NSDictionary+CBHMapReduceKit.h:117-124 | folds over the values: `initial` for an empty dictionary; otherwise the reduction of the rest from `reduce(initial, value of the first key)` |
| DictionaryKit.CompactRekeyed | CBHMapReduceKit/NSDictionary+CBHMapReduceKit.h:153-171 | keys are exactly the non-`nil` new keys; each holds the value of the last-enumerated pair given that key; at most the receiver's count |
| DictionaryKit.FilteringAllTrue | CBHMapReduceKit/NSDictionary+CBHMapReduceKit.h:98-104 | a predicate that accepts every pair returns the whole dictionary |
| DictionaryKit.MappingIdentity | CBHMapReduceKit/NSDictionary+CBHMapReduceKit.h:28-34 | mapping each pair to its own value returns the dictionary |
| DictionaryKit.RekeyedLastWins | CBHMapReduceKit/NSDictionary+CBHMapReduceKit.h:153-171 | a key present after rekeying holds the value of the last-enumerated pair given that key |
| DictionaryKit.RekeyedCovers | CBHMapReduceKit/NSDictionary+CBHMapReduceKit.h:163-171 | every pair given a non-`nil` new key leaves that key present |
| DictionaryKit.RekeyIdentity | CBHMapReduceKit/NSDictionary+CBHMapReduceKit.h:163-171 | rekeying each pair to its own key returns the dictionary |
| DictionaryKit.RekeyNeverGrows | CBHMapReduceKit/NSDictionary+CBHMapReduceKit.h:163-171 | a rekeyed dictionary has at most the receiver's count |
| DictionaryKit.MutableDictionary.constructor | CBHMapReduceKit/NSDictionary+CBHMapReduceKit.h:129 | a receiver holding the given dictionary and key enumeration |
| DictionaryKit.MutableDictionary.Map | CBHMapReduceKit/NSDictionary+CBHMapReduceKit.h:133-141 | leaves the key set unchanged, sets each value to `transform(k, old v)`, returns the receiver |
| DictionaryKit.MutableDictionary.CompactMap | CBHMapReduceKit/NSDictionary+CBHMapReduceKit.h:143-151 | removes exactly the keys whose transform is `nil`, replaces the other values with their transform, returns the receiver |
| DictionaryKit.MutableDictionary.Rekey | CBHMapReduceKit/NSDictionary+CBHMapReduceKit.h:153-161 | stores each value under its new key, the last-enumerated pair winning a collision; returns the receiver |
| DictionaryKit.MutableDictionary.CompactRekey | CBHMapReduceKit/NSDictionary+CBHMapReduceKit.h:163-171 | as `rekey:`, and drops the pairs whose new key is `nil`; returns the receiver |
| DictionaryKit.MutableDictionary.Filter | CBHMapReduceKit/NSDictionary+CBHMapReduceKit.h:176-182 | leaves exactly the original pairs the predicate accepts, returns the receiver |
| EnumeratorKit.Enumerator.constructor | CBHMapReduceKit/NSEnumerator+CBHMapReduceKit.h:24 | an enumerator that will yield the given elements |
| EnumeratorKit.Enumerator.NextObject | CBHMapReduceKit/NSEnumerator+CBHMapReduceKit.h:24 | yields and consumes the first remaining element, or `nil` once exhausted |
| EnumeratorKit.Enumerator.ArrayByMapping | CBHMapReduceKit/NSEnumerator+CBHMapReduceKit.h:28-42 | drains the enumerator; the non-`nil` results of the remaining elements, in enumeration order |
| EnumeratorKit.Enumerator.SetByMapping | CBHMapReduceKit/NSEnumerator+CBHMapReduceKit.h:45-59 | drains the enumerator; exactly the set of non-`nil` results |
| EnumeratorKit.Enumerator.OrderedSetByMapping | CBHMapReduceKit/NSEnumerator+CBHMapReduceKit.h:62-76 | drains the enumerator; the non-`nil` results deduplicated, first occurrences kept |
| EnumeratorKit.Enumerator.ArrayByFiltering | CBHMapReduceKit/NSEnumerator+CBHMapReduceKit.h:81-95 | drains the enumerator; the order-preserving subsequence of accepted elements |
| EnumeratorKit.Enumerator.SetByFiltering | CBHMapReduceKit/NSEnumerator+CBHMapReduceKit.h:98-112 | drains the enumerator; exactly the accepted elements, as a set |
| EnumeratorKit.Enumerator.OrderedSetByFiltering | CBHMapReduceKit/NSEnumerator+CBHMapReduceKit.h:115-129 | drains the enumerator; the accepted elements deduplicated, first occurrences kept |
| EnumeratorKit.Enumerator.Reduce | CBHMapReduceKit/NSEnumerator+CBHMapReduceKit.h:134-141 | drains the enumerator; `initial` when nothing is yielded, otherwise the left fold in enumeration order |
| Scenarios.CompactMapElision | CBHMapReduceKit/NSArray+CBHMapReduceKit.h:28 | `[1, 2, 3, 4]` mapped with a block that is `nil` on even numbers gives `[1, 3]` |
| Scenarios.ReduceEmpty | CBHMapReduceKit/NSArray+CBHMapReduceKit.h:46 | reducing an empty array from 0 gives 0 |
| Scenarios.ReduceSum | CBHMapReduceKit/NSArray+CBHMapReduceKit.h:46 | reducing `[1, 2, 3]` from 0 with addition gives 6 |
| Scenarios.DedupKeepsFirst | CBHMapReduceKit/NSArray+CBHMapReduceKit.h:54 | `[3, 1, 3, 2]` converted to an ordered set is `[3, 1, 2]` |
| Scenarios.RekeyCollision | CBHMapReduceKit/NSDictionary+CBHMapReduceKit.h:163-171 | two keys rekeyed to one keep the value of whichever pair is enumerated last, in one entry |
| Scenarios.RekeyOnlyKey | CBHMapReduceKit/NSDictionary+CBHMapReduceKit.h:163-171 | two keys sent to the same key leave one entry holding the second-enumerated value |
| Scenarios.FilterThenMap | CBHMapReduceKit/NSOrderedSet+CBHMapReduceKit.h:144-173 | in-place `filter:` then `map:` return the receiver each time and leave the content of the non-mutating forms applied in turn |
| Scenarios.DrainTwice | CBHMapReduceKit/NSEnumerator+CBHMapReduceKit.h:28-34 | a second operation on the same enumerator sees no elements |

## Left out

- `CBHMapReduceKit/CBHMapReduceKit.h`, the umbrella header, holds only version exports and imports. It is not part of this model.
- Foundation's hashing, `isEqual:` and concrete enumeration order. Dafny equality stands in for `isEqual:`. The enumeration order of each set and dictionary is a parameter.
- The enumeration order of a mutable set or dictionary after an in-place operation. The model only states that it lists every remaining element or key once. Foundation does not specify it.
- Exceptions raised inside blocks, and fault atomicity. Blocks are total functions here, and the headers promise nothing about faults.
- Block side effects, and ARC and memory management. Blocks are pure functions.
- The `@warning` notes say a mutating method may change the element, key or value type. The mutating methods here keep the receiver's type.
- Which value wins when `rekey:` or `compactRekey:` gives two pairs the same key. The headers are silent on this. The model assumes the last pair in key enumeration order wins, and `CompactRekeyed` states this outright.
- `mutableXByY` and `xByY` share one function. The model does not track the mutable-versus-immutable class of a fresh result.
- `NSMutableArray.filter:` is declared to return `NSMutableArray<id> *` rather than `instancetype`. It is modelled as returning the receiver.
- `NSEnumerator`'s own `nextObject` is not part of the kit. It is modelled only as far as the kit's methods need.
- Exactly-once invocation of blocks cannot be observed with pure blocks. `Folds.FoldLeftVisitsInOrder` shows that a fold visits each element once and in order.
- `NSOrderedSet`'s `mutableOrderedSetByMapping:` doc comment speaks of a "mutable set", and its `toMutableArray` doc comment of a "mutable ordered set". The model follows the declared return types, `NSMutableOrderedSet` and `NSMutableArray`.
- DictionaryKit.ArrayByMapping: bounds the length by the dictionary's count but does not state the exact number of pairs with a non-`nil` result.
