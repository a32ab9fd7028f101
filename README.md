# A verified model of `_Enumerable`

`_Enumerable` is a hand-written re-implementation of a slice of LINQ to Objects
in C#. It has the positional operators (`_Select`, `_SelectMany`, `_Take`,
`_Skip`, `_TakeWhile`, `_SkipWhile`, `_First`, both `_FirstOrDefault`s) and the
set operators (`_Distinct`, `_Union`, `_Intersect`). The set operators are
built on an internal open-hashing `Set<TElement>`.

This project models that code in Dafny and proves what it computes. It has four
modules:

- `SlotTable` (`slot_table.dfy`): the storage behind `Set<TElement>`. This is a
  bucket array plus a slot array whose chains and free list are threaded through
  integer `next` links.
  - A ghost `Shape` records which slots lie on which chain, in order, and which
    lie on the free list. `Valid` is the representation invariant that ties the
    arrays to that shape.
  - The stored values (`Has`) are the values of live slots.
  - There is one lemma per kind of update: link into a free slot, link at the
    high-water mark, unlink, and rebuild.
- `HashSet` (`hash_set.dfy`): `Set<TElement>` as a class over two arrays. Its
  methods (`Add`, `Contains`, `Remove`, `Find`, `Resize`, and the pieces they
  are split into) change the arrays in place, as the C# does. Each method
  states its effect on the abstract set of stored values and keeps `Valid`.
- `SetAlgebra` (`set_algebra.dfy`): reference definitions of `Distinct`,
  `Union` and `Intersect` on sequences, with lemmas about them. It also has
  the three iterators, written as the loops the C# runs over a `Set` and
  proved to produce exactly the reference sequence.
- `Positional` (`positional.dfy`): the positional operators as recursive
  functions on sequences. `Select`, `Take`, `Skip`, `TakeWhile`, `SkipWhile`
  and the `First` family have contracts that give the result in closed form.
  `SelectMany`'s contract gives only the empty case and the length; the lemma
  `SelectManyIsFlattenSelect` states its contents. Further lemmas relate the
  operators to each other.
- `Limits` (`limits.dfy`): the largest C# `int`, shared by the other modules.

All citations below are to `Enumerable/_Enumerable.cs`.

## Model

| member | source | states |
|---|---|---|
| SlotTable.MaskSign | Enumerable/_Enumerable.cs:316 | Clearing the sign bit gives a value in 0 .. 2^31-1 that is congruent to the hash code modulo 2^31. |
| SlotTable.InternalGetHashCode | Enumerable/_Enumerable.cs:314-317 | The internal hash code is never negative. It is 0 for null; otherwise it equals the comparer's hash code modulo 2^31. |
| SlotTable.DefaultComparer | Enumerable/_Enumerable.cs:224 | The default comparer is built-in equality. It is an equivalence under which equal values hash alike. |
| SlotTable.Bucket | Enumerable/_Enumerable.cs:244 | A non-negative hash code modulo the bucket count is a valid bucket index. |
| SlotTable.ValidLayout | Enumerable/_Enumerable.cs:226-228 | The representation invariant, read on the arrays (it also rests on lines 244, 271 and 316). freeList is -1 or a slot below count, and count fits the arrays. A slot below count is on the free list exactly when its hash code is -1. Every other slot holds its value's internal hash code and lies on the chain of bucket hashCode % buckets.Length. No slot is on both a chain and the free list. |
| SlotTable.HasClass | Enumerable/_Enumerable.cs:273 | Under an equivalence comparer, two equal values are both stored or both absent. |
| SlotTable.EmptyTable | Enumerable/_Enumerable.cs:222-229 | Zeroed buckets, no slots in use and freeList -1 make a valid table that stores nothing. |
| SlotTable.ScanMiss | Enumerable/_Enumerable.cs:271-274 | Suppose no slot on the value's bucket chain has the same hash code and an equal value. Then no stored value is equal to it, because equal values hash alike. |
| SlotTable.LinkChain | Enumerable/_Enumerable.cs:289-293 | Pushing a slot that is on no chain onto the head of its bucket's chain keeps one given chain well linked. |
| SlotTable.LinkChains | Enumerable/_Enumerable.cs:289-293 | The same, for every chain. |
| SlotTable.AddLive | Enumerable/_Enumerable.cs:290-293 | Storing an absent value in a slot that was not live keeps the stored values pairwise unequal. It adds exactly that value's class. |
| SlotTable.FreshSlots | Enumerable/_Enumerable.cs:283-288 | Inserting at the high-water mark keeps the free list and the slot bookkeeping intact. |
| SlotTable.InsertFresh | Enumerable/_Enumerable.cs:283-293 | Inserting an absent value at the high-water mark keeps the table valid and adds exactly its class. |
| SlotTable.ReuseFree | Enumerable/_Enumerable.cs:278-282 | Popping the free list's head for an insertion leaves a well-linked free list. |
| SlotTable.ReuseSlot | Enumerable/_Enumerable.cs:278-293 | Every slot's bookkeeping survives the reuse of the free list's head. |
| SlotTable.InsertReuse | Enumerable/_Enumerable.cs:278-293 | Inserting an absent value into the free list's head slot keeps the table valid and adds exactly its class. |
| SlotTable.UnlinkedSlot | Enumerable/_Enumerable.cs:250-261 | After unlinking, the cut slot holds hash code -1, the cleared value and a link to the old free-list head. Its predecessor on the chain takes over its link. Every other slot keeps its hash code, value and link. |
| SlotTable.CutChain | Enumerable/_Enumerable.cs:250-257 | The chain a slot is cut out of stays well linked. |
| SlotTable.OtherChains | Enumerable/_Enumerable.cs:250-257 | Every other chain stays well linked. |
| SlotTable.UnlinkFree | Enumerable/_Enumerable.cs:258-261 | The cut slot becomes the head of the free list, in front of the old one. |
| SlotTable.UnlinkSlot | Enumerable/_Enumerable.cs:250-261 | Every slot's bookkeeping survives the unlinking. |
| SlotTable.RemoveLive | Enumerable/_Enumerable.cs:246-262 | Taking the slot that holds v's class out of use removes exactly that class. The other stored values stay pairwise unequal. |
| SlotTable.Unlink | Enumerable/_Enumerable.cs:246-262 | Unlinking the slot that holds a value equal to v keeps the table valid. It removes exactly v's class. |
| SlotTable.AllLive | Enumerable/_Enumerable.cs:285 | With an empty free list, every slot below the high-water mark is live. This is why a full table can be rebuilt from slots 0 .. count-1. |
| SlotTable.PrefixMiss | Enumerable/_Enumerable.cs:304-309 | While a full table is rebuilt, the value of the next slot is not yet stored among the relinked ones. |
| SlotTable.RebuiltHas | Enumerable/_Enumerable.cs:298-312 | A valid table rebuilt with the same values in the same slots stores the same values. |
| SlotTable.ReuseStepValid | Enumerable/_Enumerable.cs:278-293 | With a non-empty free list, adding an absent value puts it in the free list's head slot. The table stays valid and the set gains exactly v's class. |
| SlotTable.FreshStepValid | Enumerable/_Enumerable.cs:283-293 | With room at the high-water mark, adding an absent value puts it in slot count. The table stays valid and the set gains exactly v's class. |
| SlotTable.UnlinkStepValid | Enumerable/_Enumerable.cs:250-261 | Removing the chain slot that holds a value equal to v keeps the table valid. The set loses exactly v's class. |
| SlotTable.RebuildStart | Enumerable/_Enumerable.cs:301-303 | Fresh zeroed buckets over a copy of a full table's slots start a rebuild. |
| SlotTable.RelinkStepValid | Enumerable/_Enumerable.cs:304-309 | Relinking slot i at the head of its new bucket's chain keeps the rebuild consistent. One more slot is then in place. |
| SlotTable.RebuildDone | Enumerable/_Enumerable.cs:304-311 | A finished rebuild has an empty free list and stores exactly the values of the table it was rebuilt from. |
| HashSet.Set.constructor | Enumerable/_Enumerable.cs:222-229 | A new set has 7 buckets, count 0 and freeList -1, stores nothing and is valid. |
| HashSet.Set.Add | Enumerable/_Enumerable.cs:231-234 | Add returns true iff no equal value was stored. Afterwards the value is stored, and the stored classes are the old ones plus its class. A false result changes nothing. A true result stores the value in the old free-list head if there was one (count unchanged), and otherwise in slot old count (count + 1, free list still empty). |
| HashSet.Set.Contains | Enumerable/_Enumerable.cs:236-239 | Contains returns whether an equal value is stored and changes nothing. |
| HashSet.Set.Remove | Enumerable/_Enumerable.cs:241-266 | Remove returns true iff an equal value was stored. Afterwards none is stored, and the other classes are unchanged. A miss changes nothing. On a hit, the slot that held the equal value becomes freeList, with hash code -1 and a link to the old free-list head. |
| HashSet.Set.RemoveAt | Enumerable/_Enumerable.cs:250-262 | Unlinking the found slot removes exactly the value's class. The slot gets hash code -1, links to the old free list and becomes freeList. |
| HashSet.Set.CutOut | Enumerable/_Enumerable.cs:250-261 | The array writes of a hit leave exactly the table that UnlinkStep describes. |
| HashSet.Set.Locate | Enumerable/_Enumerable.cs:243-249 | The chain scan returns a slot iff an equal value is stored. The slot is on the value's bucket chain, holds an equal value, and comes back with its predecessor (-1 at the head). |
| HashSet.Set.FindInBucket | Enumerable/_Enumerable.cs:270-274 | The chain scan reports true iff an equal value is stored. |
| HashSet.Set.Find | Enumerable/_Enumerable.cs:268-296 | Find returns whether an equal value was stored. Without add, or on a hit, nothing changes. With add, the value's class is added, into the free-list head or into slot count. |
| HashSet.Set.Insert | Enumerable/_Enumerable.cs:275-294 | An absent value is stored in the free-list head if there is one (count unchanged), else in slot count (count + 1). Exactly its class is added. |
| HashSet.Set.LinkIntoFree | Enumerable/_Enumerable.cs:278-293 | The value goes into the old free-list head, which is popped. Exactly its class is added and count is unchanged. |
| HashSet.Set.LinkAtEnd | Enumerable/_Enumerable.cs:283-293 | The value goes into slot count and count grows by one. Exactly its class is added. |
| HashSet.Set.GrowIfFull | Enumerable/_Enumerable.cs:285 | Afterwards there is a free slot or room below the array length. A non-empty free list or spare room below the array length means nothing changes. The stored values never change. |
| HashSet.Set.Resize | Enumerable/_Enumerable.cs:298-312 | A full table grows to count*2+1 buckets and slots. Every slot keeps its index, hash code and value, the same values stay stored, and the table stays valid. |
| HashSet.Set.Relink | Enumerable/_Enumerable.cs:304-309 | The loop relinks slots 0 .. count-1 and leaves the arrays equal to a finished rebuild. |
| HashSet.RemoveThenAdd | Enumerable/_Enumerable.cs:258-293 | Removing a stored value and adding it back leaves count unchanged, because the freed slot is reused, and restores the same stored classes. |
| SetAlgebra.IntComparer | Enumerable/_Enumerable.cs:224 | The default comparer on int is a valid comparer whose equality is `==`. It therefore satisfies the requirement of the worked examples. |
| SetAlgebra.DistinctHasEqual | Enumerable/_Enumerable.cs:163-168 | Distinct has an element equal to x iff the source has. |
| SetAlgebra.DistinctNoEqualPair | Enumerable/_Enumerable.cs:163-168 | No two elements of Distinct are equal. |
| SetAlgebra.DistinctOfNoEqualPair | Enumerable/_Enumerable.cs:163-168 | A sequence without equal pairs is its own Distinct. |
| SetAlgebra.DistinctIdempotent | Enumerable/_Enumerable.cs:163-168 | Distinct of Distinct is Distinct. |
| SetAlgebra.UnionSplit | Enumerable/_Enumerable.cs:183-190 | Union is Distinct(first) followed by the elements of Distinct(second) with no equal element in first. |
| SetAlgebra.UnionHasEqual | Enumerable/_Enumerable.cs:183-190 | Union has an element equal to x iff first or second has. No two of its elements are equal. |
| SetAlgebra.IntersectIsKeep | Enumerable/_Enumerable.cs:205-211 | Intersect is Distinct(first) restricted to the elements that have an equal element in second. |
| SetAlgebra.IntersectHasEqual | Enumerable/_Enumerable.cs:205-211 | Intersect has an element equal to x iff both first and second have. |
| SetAlgebra.IntersectNoEqualPair | Enumerable/_Enumerable.cs:205-211 | No two elements of Intersect are equal. |
| SetAlgebra.IntersectSelf | Enumerable/_Enumerable.cs:205-211 | A sequence intersected with itself is its Distinct. |
| SetAlgebra.DistinctExample | Enumerable/_Enumerable.cs:163-168 | With int equality, Distinct of [3,1,2,3,1] is [3,1,2]. |
| SetAlgebra.UnionExample | Enumerable/_Enumerable.cs:183-190 | With int equality, the union of [1,2] and [2,3] is [1,2,3]. |
| SetAlgebra.IntersectExample | Enumerable/_Enumerable.cs:205-211 | With int equality, the intersection of [1,2,2,3] and [2,3,4] is [2,3]. |
| SetAlgebra.AddNext | Enumerable/_Enumerable.cs:167 | set.Add on a set that has seen s accepts x iff nothing in s is equal to it. Afterwards the set has seen s + [x]. |
| SetAlgebra.YieldNext | Enumerable/_Enumerable.cs:166-167 | One step of the yielding loop extends the output from Distinct(s) to Distinct(s + [x]). |
| SetAlgebra.YieldAdded | Enumerable/_Enumerable.cs:186-189 | The yielding loop over source, on a set that has seen prior, extends Distinct(prior) to Distinct(prior + source). |
| SetAlgebra.AddAll | Enumerable/_Enumerable.cs:208 | The filling loop leaves the set holding exactly the classes of prior + source. |
| SetAlgebra.RemoveNext | Enumerable/_Enumerable.cs:209-210 | set.Remove(x) yields x iff its class was still held. The output extends from Intersect(p, second) to Intersect(p + [x], second). |
| SetAlgebra.YieldRemoved | Enumerable/_Enumerable.cs:209-210 | The removing loop over first, on a set holding second's classes, yields exactly Intersect(first, second). |
| SetAlgebra.DistinctIterator | Enumerable/_Enumerable.cs:163-168 | The iterator yields exactly Distinct(source): the first element of each class, in source order. |
| SetAlgebra.UnionIterator | Enumerable/_Enumerable.cs:183-190 | The iterator yields exactly Union(first, second) = Distinct(first + second). |
| SetAlgebra.IntersectIterator | Enumerable/_Enumerable.cs:205-211 | The iterator yields exactly Intersect(first, second): the first element of first of each class that second also has. |
| Positional.Select | Enumerable/_Enumerable.cs:18-26 | The result has the source's length, and element i is selector(source[i], i). |
| Positional.Expand | Enumerable/_Enumerable.cs:41-44 | The inner loop, defined one sub-element at a time, yields as many results as there are sub-elements, and result j is resultSelector(x, sub[j]). |
| Positional.SelectMany | Enumerable/_Enumerable.cs:35-46 | An empty source yields nothing, and the result's length is the total length of the sub-collections. |
| Positional.SelectManyIsFlattenSelect | Enumerable/_Enumerable.cs:35-46 | SelectMany is the concatenation, in source order, of each element's expanded sub-collection, with positions as Select numbers them. |
| Positional.SelectPrefix | Enumerable/_Enumerable.cs:18-26 | Select of a prefix is the prefix of Select. |
| Positional.Take | Enumerable/_Enumerable.cs:53-63 | A count <= 0 yields nothing; otherwise the first min(count, length) elements. |
| Positional.Skip | Enumerable/_Enumerable.cs:85-95 | A count <= 0 yields the whole source; otherwise everything after the first min(count, length) elements. |
| Positional.TakeSkip | Enumerable/_Enumerable.cs:53-95 | For every count, Take followed by Skip is the source. |
| Positional.TakeTake | Enumerable/_Enumerable.cs:53-63 | Take(Take(s, a), b) == Take(s, min(a, b)). |
| Positional.SkipSkip | Enumerable/_Enumerable.cs:85-95 | For non-negative counts, Skip(Skip(s, a), b) == Skip(s, a + b). |
| Positional.TakeSelect | Enumerable/_Enumerable.cs:18-63 | Take after Select is Select after Take: positions are kept. |
| Positional.TakeWhile | Enumerable/_Enumerable.cs:71-78 | The result is a prefix of the source whose every element satisfies the predicate. The next source element, if any, does not. |
| Positional.SkipWhile | Enumerable/_Enumerable.cs:103-111 | The result is a suffix of the source, and every dropped element satisfies the predicate. Its first element, if any, does not. |
| Positional.TakeWhileSkipWhile | Enumerable/_Enumerable.cs:71-111 | TakeWhile followed by SkipWhile is the source. |
| Positional.First | Enumerable/_Enumerable.cs:112-121 | None, standing for the exception, iff no element satisfies the predicate. Otherwise the result is the element at the least index that satisfies it. |
| Positional.FirstOrDefault | Enumerable/_Enumerable.cs:123-139 | The first element, or the default when the source is empty. This is First with the always-true predicate, with the default in place of the exception. |
| Positional.FirstOrDefaultWhere | Enumerable/_Enumerable.cs:141-150 | First's result, with the default in place of the exception. |
| Positional.FirstOrDefaultAll | Enumerable/_Enumerable.cs:123-150 | The overload without a predicate is the one with the always-true predicate. |

## Left out

- Deferred execution is not modelled. Each iterator is the whole finite sequence it would yield, so laziness, partial enumeration, disposal and infinite sources are not captured.
- The argument null checks (`ArgumentNullException`/`ArgumentException` on a null source, selector or predicate) are left out: Dafny sequences and function values cannot be null.
- `IEqualityComparer<T>` is a `Comparer` datatype holding `equals`, `getHashCode` and a null test. Validity means an equivalence under which equal values have equal internal hash codes; the C# trusts the comparer for this.
- `EqualityComparer<T>.Default` (line 224) is `DefaultComparer`, with the hash function supplied by the caller. The iterators take the comparer already resolved, so the null-comparer overloads are not separate members.
- The parameterless `Set()` constructor (line 220) is not a separate member: it is the constructor given the default comparer.
- `HashSet.Set.Add`: the checked `count * 2 + 1` of Resize (line 300) is a precondition. The model does not show the `OverflowException`. The iterators require fewer than 2^30 elements, which keeps every set below that bound.
- `Positional.Select`: the checked position counter (lines 23, 40) is a precondition of at most 2^31 elements, not an `OverflowException`. `Positional.SelectMany` has the same precondition.
- `SlotTable.MaskSign`: `& 0x7FFFFFFF` is computed as the residue modulo 2^31, which equals it on a 32-bit two's-complement word. The comparer's hash is an unbounded `int`.
- `HashSet.Set.Remove`: the cleared value `default(TElement)` is an arbitrary value of the type, since it is never read again.
- `Array.Copy` in Resize is an element-wise copy of the first `count` slots.
- `Positional.First`: the exception when no element matches is `None`.
- `Positional.FirstOrDefault`: the `IList<T>` fast path (lines 126-129) is not modelled separately. On a list it returns the same first element as the enumerator path, so one function covers both. `default(TSource)` is the `dflt` parameter.
- The worked examples fix the comparer only by its equality (`IsIntEquality`). `IntComparer`'s contract shows that the default int comparer is one such comparer.
- The insert-remove-reinsert scenario ({1, 2, 3}, remove 2, add 2) is `HashSet.RemoveThenAdd`, stated for any stored value of any set rather than for those literals.
