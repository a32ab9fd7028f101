/**
 * The internal `Set<TElement>` of `_Enumerable`: an open-hashing set with a pluggable
 * comparer, array-backed bucket chains, a free list of reclaimed slots and growth by
 * rebuilding. Its abstract state is the set of values stored in live slots, and the
 * question every client asks of it is `Has(v)`: is some stored value equal to v?
 */
module HashSet {
  import opened Limits
  import opened SlotTable

  class Set<T(0,!new)> {
    var buckets: array<int>
    var slots: array<Slot<T>>
    var count: int
    var freeList: int
    const comparer: Comparer<T>

    /** The arrays and counters as values, refreshed by every method that changes them. */
    ghost var table: Table<T>
    /** Which slots are on which chain and on the free list (see SlotTable.Shape). */
    ghost var shape: Shape
    ghost var Repr: set<object>

    ghost predicate Valid()
      reads this, Repr
    {
      && Repr == {this, buckets, slots}
      && table == Table(buckets[..], slots[..], count, freeList)
      && ValidComparer(comparer)
      && SlotTable.Valid(table, shape, comparer)
    }

    /** Some stored value is equal to `value` under the comparer. */
    ghost predicate Has(value: T)
      reads this
    {
      SlotTable.Has(table, shape, comparer, value)
    }

    /** A set with 7 empty buckets, 7 unused slots and an empty free list. */
    constructor (comparer: Comparer<T>)
      requires ValidComparer(comparer)
      ensures Valid() && fresh(Repr) && this.comparer == comparer
      ensures forall w :: !Has(w)
      ensures buckets.Length == 7 && count == 0 && freeList == -1
    {
      this.comparer := comparer;
      buckets := new int[7](_ => 0);
      slots := new Slot<T>[7];
      count := 0;
      freeList := -1;
      shape := Shape(seq(7, _ => []), [], []);
      new;
      Repr := {this, buckets, slots};
      table := Table(buckets[..], slots[..], count, freeList);
      EmptyTable(table, shape, comparer);
    }

    /** Adds `value` unless an equal value is stored; true when it was added. */
    method Add(value: T) returns (added: bool)
      requires Valid()
      requires freeList >= 0 || count < slots.Length || count * 2 + 1 <= Int32Max
      modifies Repr
      ensures Valid() && fresh(Repr - old(Repr))
      ensures added == !old(Has(value))
      ensures Has(value)
      ensures forall w :: Has(w) <==> old(Has(w)) || comparer.equals(value, w)
      ensures !added ==> unchanged(this) && unchanged(buckets) && unchanged(slots)
      ensures count <= old(count) + 1
      ensures added && old(freeList) >= 0 ==>
        count == old(count) && old(freeList) < count && slots[old(freeList)].value == value
      ensures added && old(freeList) < 0 ==>
        count == old(count) + 1 && slots[old(count)].value == value && freeList == -1
    {
      var found := Find(value, true);
      added := !found;
    }

    /** Whether a value equal to `value` is stored; the set is left as it was. */
    method Contains(value: T) returns (found: bool)
      requires Valid()
      modifies Repr
      ensures Valid() && Repr == old(Repr)
      ensures found == Has(value)
      ensures unchanged(this) && unchanged(buckets) && unchanged(slots)
    {
      found := Find(value, false);
    }

    /**
     * Removes the stored value equal to `value`, if any: it is cut out of its chain,
     * its slot is cleared (hash code -1, default value) and pushed onto the free list.
     */
    method Remove(value: T) returns (removed: bool)
      requires Valid()
      modifies Repr
      ensures Valid() && Repr == old(Repr)
      ensures removed == old(Has(value))
      ensures !Has(value)
      ensures forall w :: Has(w) <==> old(Has(w)) && !comparer.equals(value, w)
      ensures !removed ==> unchanged(this) && unchanged(buckets) && unchanged(slots)
      ensures count == old(count)
      ensures removed ==>
        && 0 <= freeList < count && comparer.equals(old(slots[..])[freeList].value, value)
        && slots[freeList].hashCode == -1 && slots[freeList].next == old(freeList)
    {
      var hashCode := InternalGetHashCode(comparer, value);
      var bucket := Bucket(hashCode, buckets.Length);
      var i, last, k := Locate(value, hashCode);
      if i < 0 {
        forall w | comparer.equals(value, w) ensures !Has(w) {
          HasClass(table, shape, comparer, value, w);
        }
        return false;
      }
      RemoveAt(value, bucket, i, last, k);
      return true;
    }

    /**
     * The unlinking half of Remove, for the slot `i` found at position `k` of bucket
     * `bucket`'s chain behind `last`: the chain skips it, and it is cleared and pushed
     * onto the free list.
     */
    method RemoveAt(ghost value: T, bucket: int, i: int, last: int, ghost k: int)
      requires Valid() && 0 <= bucket < buckets.Length
      requires var c := shape.chains[bucket];
        && 0 <= k < |c| && i == c[k] && 0 <= i < count
        && comparer.equals(slots[i].value, value)
        && last == if k == 0 then -1 else c[k - 1]
      modifies this, buckets, slots
      ensures Valid() && Repr == old(Repr)
      ensures forall w :: Has(w) <==> old(Has(w)) && !comparer.equals(value, w)
      ensures count == old(count) && freeList == i
      ensures slots[i].hashCode == -1 && slots[i].next == old(freeList)
    {
      ghost var t, sh := table, shape;
      var cleared: T := *;
      UnlinkStepValid(t, sh, comparer, value, bucket, k, cleared);
      CutOut(bucket, i, last, k, cleared);
      freeList := i;
      ghost var r := UnlinkStep(t, sh, bucket, k, cleared);
      table, shape := r.0, r.1;
    }

    /**
     * The array writes of Remove for the slot `i` found at position `k` of bucket
     * `bucket`'s chain behind `last`: the chain skips it, and it is cleared (hash code
     * -1, value `cleared`) and linked in front of the free list. The arrays then hold
     * the table `UnlinkStep` describes, whose free list starts at `i`.
     */
    method CutOut(bucket: int, i: int, last: int, ghost k: int, cleared: T)
      requires table == Table(buckets[..], slots[..], count, freeList) && Sized(table, shape)
      requires 0 <= bucket < buckets.Length
      requires var c := shape.chains[bucket];
        && 0 <= k < |c| && i == c[k] && 0 <= i < count
        && last == (if k == 0 then -1 else c[k - 1]) && (k > 0 ==> 0 <= last < count)
      modifies buckets, slots
      ensures Table(buckets[..], slots[..], count, i) == UnlinkStep(table, shape, bucket, k, cleared).0
    {
      var next := slots[i].next;
      if last < 0 {
        buckets[bucket] := next + 1;
      } else {
        slots[last] := slots[last].(next := next);
      }
      slots[i] := Slot(-1, cleared, freeList);
    }

    /**
     * The chain scan of Remove: walks the chain of `value`'s bucket, keeping the slot
     * before the current one, until a slot with the same hash code holds an equal
     * value. Returns that slot and its predecessor (-1 at the head of the chain), or
     * -1 when there is none; ghost `k` is the hit's position in the chain.
     */
    method Locate(value: T, hashCode: int) returns (i: int, last: int, ghost k: int)
      requires Valid() && hashCode == InternalGetHashCode(comparer, value)
      ensures i < 0 <==> !Has(value)
      ensures i >= 0 ==>
        var c := shape.chains[Bucket(hashCode, buckets.Length)];
        && 0 <= k < |c| && i == c[k] && 0 <= i < count
        && comparer.equals(slots[i].value, value)
        && last == if k == 0 then -1 else c[k - 1]
    {
      ghost var t, sh := table, shape;
      var bucket := Bucket(hashCode, buckets.Length);
      ghost var c := sh.chains[bucket];
      assert ChainOk(t, sh, bucket);
      k := 0;
      last := -1;
      i := buckets[bucket] - 1;
      while i >= 0
        invariant 0 <= k <= |c|
        invariant i == if k < |c| then c[k] else -1
        invariant last == if k == 0 then -1 else c[k - 1]
        invariant forall m :: 0 <= m < k ==>
          !(slots[c[m]].hashCode == hashCode && comparer.equals(slots[c[m]].value, value))
        decreases |c| - k
      {
        if slots[i].hashCode == hashCode && comparer.equals(slots[i].value, value) {
          assert Live(t, sh, i);
          return;
        }
        last := i;
        i := slots[i].next;
        k := k + 1;
      }
      ScanMiss(t, sh, comparer, value);
    }

    /**
     * The chain scan of Find: walks the chain of `value`'s bucket and reports whether
     * a slot with the same hash code holds an equal value.
     */
    method FindInBucket(value: T, hashCode: int) returns (found: bool)
      requires Valid() && hashCode == InternalGetHashCode(comparer, value)
      ensures found == Has(value)
    {
      ghost var t := table;
      var bucket := Bucket(hashCode, buckets.Length);
      ghost var c := shape.chains[bucket];
      assert ChainOk(t, shape, bucket);
      ghost var k := 0;
      var i := buckets[bucket] - 1;
      while i >= 0
        invariant 0 <= k <= |c|
        invariant i == if k < |c| then c[k] else -1
        invariant forall m :: 0 <= m < k ==>
          !(slots[c[m]].hashCode == hashCode && comparer.equals(slots[c[m]].value, value))
        decreases |c| - k
      {
        if slots[i].hashCode == hashCode && comparer.equals(slots[i].value, value) {
          assert Live(t, shape, i);
          return true;
        }
        i := slots[i].next;
        k := k + 1;
      }
      ScanMiss(t, shape, comparer, value);
      return false;
    }

    /**
     * Looks `value` up and, when `add` holds and it is absent, links it at the head of
     * its bucket's chain, in the slot at the head of the free list if there is one and
     * otherwise in the slot at the high-water mark (growing the table first when every
     * slot is in use). Returns whether an equal value was already stored.
     */
    method Find(value: T, add: bool) returns (found: bool)
      requires Valid()
      requires add ==> freeList >= 0 || count < slots.Length || count * 2 + 1 <= Int32Max
      modifies Repr
      ensures Valid() && fresh(Repr - old(Repr))
      ensures found == old(Has(value))
      ensures !add || found ==> unchanged(this) && unchanged(buckets) && unchanged(slots)
      ensures add ==> forall w :: Has(w) <==> old(Has(w)) || comparer.equals(value, w)
      ensures count <= old(count) + 1
      ensures add && !found && old(freeList) >= 0 ==>
        count == old(count) && slots == old(slots) && old(freeList) < count
        && slots[old(freeList)].value == value
        && freeList == old(slots[freeList].next)
      ensures add && !found && old(freeList) < 0 ==>
        count == old(count) + 1 && slots[old(count)].value == value && freeList == -1
    {
      var hashCode := InternalGetHashCode(comparer, value);
      found := FindInBucket(value, hashCode);
      if found || !add {
        if found {
          forall w | comparer.equals(value, w) ensures Has(w) {
            HasClass(table, shape, comparer, value, w);
          }
        }
        return;
      }
      Insert(value, hashCode);
    }

    /**
     * The adding half of Find, for a value known to be absent: takes the slot at the
     * head of the free list if there is one and otherwise the slot at the high-water
     * mark (growing the table first when every slot is in use), and links the value
     * into it at the head of its bucket's chain.
     */
    method Insert(value: T, hashCode: int)
      requires Valid() && hashCode == InternalGetHashCode(comparer, value) && !Has(value)
      requires freeList >= 0 || count < slots.Length || count * 2 + 1 <= Int32Max
      modifies Repr
      ensures Valid() && fresh(Repr - old(Repr))
      ensures forall w :: Has(w) <==> old(Has(w)) || comparer.equals(value, w)
      ensures old(freeList) >= 0 ==>
        count == old(count) && slots == old(slots) && old(freeList) < count
        && slots[old(freeList)].value == value
        && freeList == old(slots[freeList].next)
      ensures old(freeList) < 0 ==>
        count == old(count) + 1 && slots[old(count)].value == value && freeList == -1
    {
      if freeList >= 0 {
        LinkIntoFree(value, hashCode);
      } else {
        assert FreeOk(table, shape);
        GrowIfFull();
        LinkAtEnd(value, hashCode);
      }
    }

    /** Links an absent value into the slot at the head of the free list, which it pops. */
    method LinkIntoFree(value: T, hashCode: int)
      requires Valid() && hashCode == InternalGetHashCode(comparer, value) && !Has(value)
      requires freeList >= 0
      modifies this, slots, buckets
      ensures Valid() && Repr == old(Repr)
      ensures forall w :: Has(w) <==> old(Has(w)) || comparer.equals(value, w)
      ensures count == old(count) && old(freeList) < count
      ensures slots[old(freeList)].value == value && freeList == old(slots[freeList].next)
    {
      ReuseStepValid(table, shape, comparer, value);
      ghost var r := ReuseStep(table, shape, hashCode, value);
      var index := freeList;
      var bucket := Bucket(hashCode, buckets.Length);
      freeList := slots[index].next;
      slots[index] := Slot(hashCode, value, buckets[bucket] - 1);
      buckets[bucket] := index + 1;
      table, shape := r.0, r.1;
    }

    /** Links an absent value into the slot at the high-water mark, which moves up by one. */
    method LinkAtEnd(value: T, hashCode: int)
      requires Valid() && hashCode == InternalGetHashCode(comparer, value) && !Has(value)
      requires count < slots.Length
      modifies this, slots, buckets
      ensures Valid() && Repr == old(Repr)
      ensures forall w :: Has(w) <==> old(Has(w)) || comparer.equals(value, w)
      ensures count == old(count) + 1 && freeList == old(freeList)
      ensures slots[old(count)].value == value
    {
      FreshStepValid(table, shape, comparer, value);
      ghost var r := FreshStep(table, shape, hashCode, value);
      var index := count;
      var bucket := Bucket(hashCode, buckets.Length);
      slots[index] := Slot(hashCode, value, buckets[bucket] - 1);
      buckets[bucket] := index + 1;
      count := count + 1;
      table, shape := r.0, r.1;
    }

    /** The growth check of Find: a table whose every slot is in use is resized first. */
    method GrowIfFull()
      requires Valid() && (freeList >= 0 || count < slots.Length || count * 2 + 1 <= Int32Max)
      modifies this
      ensures Valid() && fresh(Repr - old(Repr))
      ensures freeList >= 0 || count < slots.Length
      ensures count == old(count) && freeList == old(freeList)
      ensures old(freeList) >= 0 || old(count) < old(slots.Length) ==>
        unchanged(this) && unchanged(buckets) && unchanged(slots)
      ensures forall w :: Has(w) <==> old(Has(w))
    {
      if freeList < 0 && count == slots.Length {
        Resize();
      }
    }

    /**
     * Grows a full table to `count * 2 + 1` buckets and slots: the slots keep their
     * indices and contents, and every one is relinked, in index order, at the head of
     * the chain of its hash code's bucket in the new size.
     */
    method Resize()
      requires Valid() && freeList < 0 && count == slots.Length && count * 2 + 1 <= Int32Max
      modifies this
      ensures Valid() && fresh(buckets) && fresh(slots)
      ensures count == old(count) && freeList == old(freeList)
      ensures buckets.Length == slots.Length == old(count) * 2 + 1
      ensures forall j :: 0 <= j < count ==>
        slots[j].hashCode == old(slots[j].hashCode) && slots[j].value == old(slots[j].value)
      ensures forall w :: Has(w) <==> old(Has(w))
    {
      ghost var t0, sh0 := table, shape;
      var newSize := count * 2 + 1;
      var newBuckets := new int[newSize](_ => 0);
      var newSlots := new Slot<T>[newSize];
      forall j | 0 <= j < count {
        newSlots[j] := slots[j];
      }
      ghost var ns0 := Shape(seq(newSize, _ => []), [], []);
      RebuildStart(t0, sh0, Table(newBuckets[..], newSlots[..], 0, -1), ns0, comparer);
      ghost var nt, ns := Relink(newBuckets, newSlots, count, t0, sh0, ns0);
      RebuildDone(t0, sh0, nt, ns, comparer);
      buckets := newBuckets;
      slots := newSlots;
      Repr := {this, buckets, slots};
      table, shape := nt, ns;
    }

    /**
     * The loop of Resize: relinks slots 0 .. n-1 of the copied slot array, in
     * index order, at the head of the chain of their hash code's bucket in the new,
     * empty bucket array. Returns the rebuilt table as a value.
     */
    method Relink(newBuckets: array<int>, newSlots: array<Slot<T>>, n: int, ghost t0: Table<T>, ghost sh0: Shape, ghost ns0: Shape)
        returns (ghost nt: Table<T>, ghost ns: Shape)
      requires Rebuilding(t0, sh0, Table(newBuckets[..], newSlots[..], 0, -1), ns0, comparer) && n == t0.count
      modifies newBuckets, newSlots
      ensures Rebuilding(t0, sh0, nt, ns, comparer) && nt.count == t0.count
      ensures newBuckets[..] == nt.buckets && newSlots[..] == nt.slots
    {
      nt, ns := Table(newBuckets[..], newSlots[..], 0, -1), ns0;
      for i := 0 to n
        invariant Rebuilding(t0, sh0, nt, ns, comparer) && nt.count == i
        invariant newBuckets[..] == nt.buckets && newSlots[..] == nt.slots
      {
        RelinkStepValid(t0, sh0, nt, ns, comparer);
        ghost var r := RelinkStep(nt, ns);
        var bucket := Bucket(newSlots[i].hashCode, newBuckets.Length);
        newSlots[i] := newSlots[i].(next := newBuckets[bucket] - 1);
        newBuckets[bucket] := i + 1;
        nt, ns := r.0, r.1;
      }
    }
  }

  /**
   * Removing a stored value and adding it again: the add takes the slot the remove
   * freed, so the high-water mark does not move, and the set holds the same classes
   * as before (inserting {1, 2, 3}, removing 2 and adding 2 again leaves 1, 2 and 3
   * all stored).
   */
  method RemoveThenAdd<T(0,!new)>(s: Set<T>, x: T)
    requires s.Valid() && s.Has(x)
    modifies s.Repr
    ensures s.Valid() && fresh(s.Repr - old(s.Repr))
    ensures s.count == old(s.count)
    ensures forall w :: s.Has(w) <==> old(s.Has(w))
  {
    ghost var t, sh := s.table, s.shape;
    var removed := s.Remove(x);
    var added := s.Add(x);
    forall w | s.comparer.equals(x, w) ensures SlotTable.Has(t, sh, s.comparer, w) {
      HasClass(t, sh, s.comparer, x, w);
    }
  }
}
