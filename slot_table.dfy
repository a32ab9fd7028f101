/**
 * The storage behind the internal `Set<TElement>` of `_Enumerable`: an open-hashing
 * table whose chains are threaded through a slot array by integer indices.
 *
 * This module is pure. It describes a snapshot of the table (`Table`), the ghost
 * shape that explains it (`Shape`: which slots lie on which bucket chain, in order,
 * and which lie on the free list), the representation invariant `Valid`, and one
 * lemma per kind of update the class in module HashSet makes.
 */
module SlotTable {
  import opened Limits

  /** Owner tag of a slot that is on the free list rather than on a bucket chain. */
  const Free: int := -1

  /**
   * An equality strategy: `IEqualityComparer<T>.Equals` and `GetHashCode`, together
   * with the null test the set makes before it asks for a hash code.
   */
  datatype Comparer<!T> = Comparer(equals: (T, T) -> bool, getHashCode: T -> int, isNull: T -> bool)

  /**
   * `value & 0x7FFFFFFF` on the two's-complement word of a C# `int`: clearing the sign
   * bit keeps the low 31 bits, which is the non-negative residue modulo 2^31.
   */
  function MaskSign(h: int): (r: int)
    ensures 0 <= r <= Int32Max
    ensures (r - h) % 0x8000_0000 == 0
  {
    h % 0x8000_0000
  }

  /** The hash code the set stores and buckets by: 0 for null, else the comparer's hash with the sign bit cleared. */
  function InternalGetHashCode<T>(cmp: Comparer<T>, value: T): (h: int)
    ensures 0 <= h <= Int32Max
    ensures cmp.isNull(value) ==> h == 0
    ensures !cmp.isNull(value) ==> (h - cmp.getHashCode(value)) % 0x8000_0000 == 0
  {
    if cmp.isNull(value) then 0 else MaskSign(cmp.getHashCode(value))
  }

  /** `eq` chains from a through b to c. */
  ghost predicate TransitiveAt<T>(eq: (T, T) -> bool, a: T, b: T, c: T)
  {
    eq(a, b) && eq(b, c) ==> eq(a, c)
  }

  /**
   * `equals` is an equivalence relation. Transitivity is stated through TransitiveAt,
   * so that a proof uses it only at the triples it names.
   */
  ghost predicate IsEquivalence<T(!new)>(eq: (T, T) -> bool)
  {
    && (forall a :: eq(a, a))
    && (forall a, b :: eq(a, b) ==> eq(b, a))
    && (forall a, b, c :: TransitiveAt(eq, a, b, c))
  }

  /** What the set relies on from its comparer: an equivalence that equal values hash alike under. */
  ghost predicate ValidComparer<T(!new)>(cmp: Comparer<T>)
  {
    IsEquivalence(cmp.equals) && HashConsistent(cmp)
  }

  /** Values the comparer calls equal get the same internal hash code. */
  ghost predicate HashConsistent<T(!new)>(cmp: Comparer<T>)
  {
    forall a, b :: cmp.equals(a, b) ==> InternalGetHashCode(cmp, a) == InternalGetHashCode(cmp, b)
  }

  /** `EqualityComparer<T>.Default` for a type with built-in equality: `==`, and null equals only null. */
  function DefaultComparer<T(!new,==)>(getHashCode: T -> int, isNull: T -> bool): (cmp: Comparer<T>)
    ensures ValidComparer(cmp)
    ensures forall a, b :: cmp.equals(a, b) <==> a == b
  {
    Comparer((a, b) => a == b, getHashCode, isNull)
  }

  /** The bucket of a non-negative hash code in a table of n buckets (`hashCode % buckets.Length`). */
  function Bucket(h: int, n: int): (b: int)
    requires 0 <= h && 0 < n
    ensures 0 <= b < n
  {
    h % n
  }

  /** One entry of the slot array: the stored hash code, the value and the chain link (-1 ends a chain). */
  datatype Slot<T> = Slot(hashCode: int, value: T, next: int)

  /**
   * A snapshot of the table: `buckets[b]` is one more than the index of the first slot
   * of bucket b's chain (0 for an empty chain); `count` is the high-water mark of slots
   * ever handed out; `freeList` is the first slot of the free list, or -1.
   */
  datatype Table<T> = Table(buckets: seq<int>, slots: seq<Slot<T>>, count: int, freeList: int)

  /**
   * The ghost explanation of a table: `chains[b]` lists the slots of bucket b's chain
   * from its head, `free` lists the free list from its head, and `owner[j]` is the
   * bucket whose chain slot j is on, or `Free`.
   */
  datatype Shape = Shape(chains: seq<seq<int>>, free: seq<int>, owner: seq<int>)

  /** The index a chain starts at, as the table encodes it (-1 for an empty chain). */
  function Head(c: seq<int>): int
  {
    if c == [] then -1 else c[0]
  }

  /** The link stored after position k of a chain. */
  function Succ(c: seq<int>, k: int): int
    requires 0 <= k < |c|
  {
    if k + 1 < |c| then c[k + 1] else -1
  }

  ghost predicate NoDup(c: seq<int>)
  {
    forall i, j :: 0 <= i < j < |c| ==> c[i] != c[j]
  }

  ghost predicate Sized<T>(t: Table<T>, sh: Shape)
  {
    && 0 < |t.buckets| == |t.slots|
    && 0 <= t.count <= |t.slots|
    && |sh.chains| == |t.buckets|
    && |sh.owner| == t.count
  }

  /** Bucket b's head and links follow `chains[b]`, whose slots are in use and owned by b. */
  ghost predicate ChainOk<T>(t: Table<T>, sh: Shape, b: int)
    requires Sized(t, sh) && 0 <= b < |t.buckets|
  {
    var c := sh.chains[b];
    && t.buckets[b] - 1 == Head(c)
    && NoDup(c)
    && (forall k :: 0 <= k < |c| ==> 0 <= c[k] < t.count && sh.owner[c[k]] == b)
    && forall k {:trigger t.slots[c[k]]} :: 0 <= k < |c| ==> t.slots[c[k]].next == Succ(c, k)
  }

  /** The free list starts at `freeList` and its links follow `free`, whose slots are owned by nobody. */
  ghost predicate FreeOk<T>(t: Table<T>, sh: Shape)
    requires Sized(t, sh)
  {
    var f := sh.free;
    && t.freeList == Head(f)
    && NoDup(f)
    && (forall k :: 0 <= k < |f| ==> 0 <= f[k] < t.count && sh.owner[f[k]] == Free)
    && forall k {:trigger t.slots[f[k]]} :: 0 <= k < |f| ==> t.slots[f[k]].next == Succ(f, k)
  }

  /**
   * Every slot below the high-water mark is on exactly the list its owner names: a
   * free slot carries hash code -1, a live slot the value's internal hash code, whose
   * residue modulo the bucket count is its bucket.
   */
  ghost predicate SlotOk<T(!new)>(t: Table<T>, sh: Shape, cmp: Comparer<T>, j: int)
    requires Sized(t, sh) && 0 <= j < t.count
  {
    var o := sh.owner[j];
    if o == Free then
      j in sh.free && t.slots[j].hashCode == -1
    else
      && 0 <= o < |t.buckets|
      && j in sh.chains[o]
      && t.slots[j].hashCode == InternalGetHashCode(cmp, t.slots[j].value)
      && Bucket(t.slots[j].hashCode, |t.buckets|) == o
  }

  /** Slot j holds a stored value. */
  ghost predicate Live<T>(t: Table<T>, sh: Shape, j: int)
  {
    0 <= j < t.count && j < |t.slots| && j < |sh.owner| && sh.owner[j] != Free
  }

  /** No two live slots hold values the comparer calls equal. */
  ghost predicate Unique<T(!new)>(t: Table<T>, sh: Shape, cmp: Comparer<T>)
  {
    forall i, j :: Live(t, sh, i) && Live(t, sh, j) && i != j ==>
      !cmp.equals(t.slots[i].value, t.slots[j].value)
  }

  /** The representation invariant of the table. */
  ghost predicate Valid<T(!new)>(t: Table<T>, sh: Shape, cmp: Comparer<T>)
  {
    && Sized(t, sh)
    && (forall b {:trigger sh.chains[b]} :: 0 <= b < |t.buckets| ==> ChainOk(t, sh, b))
    && FreeOk(t, sh)
    && (forall j :: 0 <= j < t.count ==> SlotOk(t, sh, cmp, j))
    && Unique(t, sh, cmp)
  }

  /** Some stored value is equal to v: the abstract membership the set offers. */
  ghost predicate Has<T>(t: Table<T>, sh: Shape, cmp: Comparer<T>, v: T)
  {
    exists j :: Live(t, sh, j) && cmp.equals(t.slots[j].value, v)
  }

  /**
   * What Valid says about the arrays themselves: freeList is -1 or a slot below the
   * high-water mark; a slot below it is on the free list exactly when its hash code is
   * -1; every other slot holds its value's internal hash code and lies on the chain
   * of bucket `hashCode % buckets.Length`; and no slot is on both a chain and the free
   * list.
   */
  lemma ValidLayout<T(!new)>(t: Table<T>, sh: Shape, cmp: Comparer<T>)
    requires Valid(t, sh, cmp)
    ensures -1 <= t.freeList < t.count <= |t.slots| == |t.buckets|
    ensures forall j :: 0 <= j < t.count ==> (j in sh.free <==> t.slots[j].hashCode == -1)
    ensures forall j :: 0 <= j < t.count && t.slots[j].hashCode != -1 ==>
      && t.slots[j].hashCode == InternalGetHashCode(cmp, t.slots[j].value)
      && j in sh.chains[Bucket(t.slots[j].hashCode, |t.buckets|)]
    ensures forall b, j :: 0 <= b < |t.buckets| && j in sh.chains[b] ==> j !in sh.free
  {
    assert FreeOk(t, sh);
    forall j | 0 <= j < t.count
      ensures j in sh.free <==> t.slots[j].hashCode == -1
      ensures t.slots[j].hashCode != -1 ==>
        && t.slots[j].hashCode == InternalGetHashCode(cmp, t.slots[j].value)
        && j in sh.chains[Bucket(t.slots[j].hashCode, |t.buckets|)]
    {
      assert SlotOk(t, sh, cmp, j);
    }
    forall b, j | 0 <= b < |t.buckets| && j in sh.chains[b] ensures j !in sh.free {
      assert ChainOk(t, sh, b);
    }
  }

  /** Equal values are stored or absent together. */
  lemma HasClass<T(!new)>(t: Table<T>, sh: Shape, cmp: Comparer<T>, v: T, w: T)
    requires IsEquivalence(cmp.equals) && cmp.equals(v, w)
    ensures Has(t, sh, cmp, v) <==> Has(t, sh, cmp, w)
  {
    if Has(t, sh, cmp, v) {
      var j :| Live(t, sh, j) && cmp.equals(t.slots[j].value, v);
      assert TransitiveAt(cmp.equals, t.slots[j].value, v, w);
    }
    if Has(t, sh, cmp, w) {
      var j :| Live(t, sh, j) && cmp.equals(t.slots[j].value, w);
      assert TransitiveAt(cmp.equals, t.slots[j].value, w, v);
    }
  }

  /** A new table of n empty buckets and no slots in use. */
  lemma EmptyTable<T(!new)>(t: Table<T>, sh: Shape, cmp: Comparer<T>)
    requires 0 < |t.buckets| == |t.slots| && t.count == 0 && t.freeList == -1
    requires forall b :: 0 <= b < |t.buckets| ==> t.buckets[b] == 0
    requires sh == Shape(seq(|t.buckets|, _ => []), [], [])
    ensures Valid(t, sh, cmp)
    ensures forall w :: !Has(t, sh, cmp, w)
  {
    forall b | 0 <= b < |t.buckets| ensures ChainOk(t, sh, b) {
      assert sh.chains[b] == [];
    }
  }

  /**
   * A chain scan that finds no slot with the value's hash code and an equal value
   * proves the value absent: an equal stored value would have the same hash code and
   * so would sit on that very chain.
   */
  lemma ScanMiss<T(!new)>(t: Table<T>, sh: Shape, cmp: Comparer<T>, v: T)
    requires Valid(t, sh, cmp) && HashConsistent(cmp)
    requires var h := InternalGetHashCode(cmp, v); var c := sh.chains[Bucket(h, |t.buckets|)];
      forall k :: 0 <= k < |c| ==> !(t.slots[c[k]].hashCode == h && cmp.equals(t.slots[c[k]].value, v))
    ensures !Has(t, sh, cmp, v)
  {
    var h := InternalGetHashCode(cmp, v);
    var c := sh.chains[Bucket(h, |t.buckets|)];
    forall j | Live(t, sh, j) ensures !cmp.equals(t.slots[j].value, v) {
      assert SlotOk(t, sh, cmp, j);
      if cmp.equals(t.slots[j].value, v) {
        assert false;
      }
    }
  }

  /*
   * Linking a value into a slot. Find puts a new value at the head of its bucket's
   * chain, in the slot at the head of the free list if there is one, and otherwise in
   * the slot at the high-water mark.
   */

  /** t', sh' are t, sh with value v stored in slot x at the head of its bucket's chain. */
  ghost predicate Linked<T>(t: Table<T>, sh: Shape, cmp: Comparer<T>, v: T, x: int, t': Table<T>, sh': Shape)
  {
    && Sized(t, sh) && 0 <= x < |t.slots|
    && var h := InternalGetHashCode(cmp, v);
       var b := Bucket(h, |t.buckets|);
       && t'.buckets == t.buckets[b := x + 1]
       && t'.slots == t.slots[x := Slot(h, v, t.buckets[b] - 1)]
       && sh'.chains == sh.chains[b := [x] + sh.chains[b]]
  }

  /** The insertion into the slot at the high-water mark, which then moves up by one. */
  ghost predicate FreshLinked<T>(t: Table<T>, sh: Shape, cmp: Comparer<T>, v: T, t': Table<T>, sh': Shape)
  {
    && Linked(t, sh, cmp, v, t.count, t', sh')
    && t'.count == t.count + 1
    && t'.freeList == t.freeList
    && sh'.free == sh.free
    && sh'.owner == sh.owner + [Bucket(InternalGetHashCode(cmp, v), |t.buckets|)]
  }

  /** The insertion into the slot at the head of the free list, which is popped. */
  ghost predicate ReuseLinked<T>(t: Table<T>, sh: Shape, cmp: Comparer<T>, v: T, t': Table<T>, sh': Shape)
  {
    && sh.free != []
    && 0 <= sh.free[0] < t.count
    && Linked(t, sh, cmp, v, sh.free[0], t', sh')
    && t'.count == t.count
    && t'.freeList == t.slots[sh.free[0]].next
    && sh'.free == sh.free[1..]
    && sh'.owner == sh.owner[sh.free[0] := Bucket(InternalGetHashCode(cmp, v), |t.buckets|)]
  }

  /** One chain stays well linked when a slot on none of them is pushed onto its value's chain. */
  lemma LinkChain<T>(t: Table<T>, sh: Shape, cmp: Comparer<T>, v: T, x: int, t': Table<T>, sh': Shape, b': int)
    requires Linked(t, sh, cmp, v, x, t', sh') && 0 <= b' < |t.buckets|
    requires ChainOk(t, sh, b') && x !in sh.chains[b']
    requires Sized(t', sh') && x < t'.count && t.count <= t'.count
    requires sh'.owner[x] == Bucket(InternalGetHashCode(cmp, v), |t.buckets|)
    requires forall j :: 0 <= j < t.count && j != x ==> sh'.owner[j] == sh.owner[j]
    ensures ChainOk(t', sh', b')
  {
    var b := Bucket(InternalGetHashCode(cmp, v), |t.buckets|);
    var c := sh.chains[b'];
    if b' == b {
      var c' := [x] + c;
      assert sh'.chains[b'] == c';
      forall k | 0 <= k < |c'|
        ensures 0 <= c'[k] < t'.count && sh'.owner[c'[k]] == b' && t'.slots[c'[k]].next == Succ(c', k)
      {
        if k > 0 {
          assert c'[k] == c[k - 1];
        }
      }
    } else {
      assert sh'.chains[b'] == c;
      forall k | 0 <= k < |c| ensures t'.slots[c[k]].next == Succ(c, k) && sh'.owner[c[k]] == b' {
      }
    }
  }

  /** The chains stay well linked when a slot on none of them is pushed onto its value's chain. */
  lemma LinkChains<T>(t: Table<T>, sh: Shape, cmp: Comparer<T>, v: T, x: int, t': Table<T>, sh': Shape)
    requires Linked(t, sh, cmp, v, x, t', sh')
    requires forall b :: 0 <= b < |t.buckets| ==> ChainOk(t, sh, b)
    requires forall b :: 0 <= b < |t.buckets| ==> x !in sh.chains[b]
    requires Sized(t', sh') && x < t'.count && t.count <= t'.count
    requires sh'.owner[x] == Bucket(InternalGetHashCode(cmp, v), |t.buckets|)
    requires forall j :: 0 <= j < t.count && j != x ==> sh'.owner[j] == sh.owner[j]
    ensures forall b :: 0 <= b < |t'.buckets| ==> ChainOk(t', sh', b)
  {
    forall b' | 0 <= b' < |t'.buckets| ensures ChainOk(t', sh', b') {
      LinkChain(t, sh, cmp, v, x, t', sh', b');
    }
  }

  /** Storing a value not yet present in a slot that was not live keeps the stored values pairwise unequal. */
  lemma AddLive<T(!new)>(t: Table<T>, sh: Shape, cmp: Comparer<T>, v: T, x: int, t': Table<T>, sh': Shape)
    requires Unique(t, sh, cmp) && IsEquivalence(cmp.equals)
    requires !Has(t, sh, cmp, v) && |t'.slots| == |t.slots|
    requires !Live(t, sh, x) && Live(t', sh', x) && t'.slots[x].value == v
    requires forall j :: j != x ==> (Live(t', sh', j) <==> Live(t, sh, j))
    requires forall j :: Live(t, sh, j) ==> t'.slots[j].value == t.slots[j].value
    ensures Unique(t', sh', cmp)
    ensures forall w :: Has(t', sh', cmp, w) <==> Has(t, sh, cmp, w) || cmp.equals(v, w)
  {
    forall i, j | Live(t', sh', i) && Live(t', sh', j) && i != j
      ensures !cmp.equals(t'.slots[i].value, t'.slots[j].value)
    {
      if i == x {
        assert !cmp.equals(t.slots[j].value, v);
      } else if j == x {
        assert !cmp.equals(t.slots[i].value, v);
      }
    }
    forall w ensures Has(t', sh', cmp, w) <==> Has(t, sh, cmp, w) || cmp.equals(v, w) {
      if Has(t, sh, cmp, w) {
        var j :| Live(t, sh, j) && cmp.equals(t.slots[j].value, w);
        assert Live(t', sh', j);
      }
      if Has(t', sh', cmp, w) {
        var j :| Live(t', sh', j) && cmp.equals(t'.slots[j].value, w);
        if j != x {
          assert Live(t, sh, j);
        }
      }
    }
  }

  /** Free list and slot bookkeeping for an insertion at the high-water mark. */
  lemma FreshSlots<T(!new)>(t: Table<T>, sh: Shape, cmp: Comparer<T>, v: T, t': Table<T>, sh': Shape)
    requires Valid(t, sh, cmp) && FreshLinked(t, sh, cmp, v, t', sh') && t.count < |t.slots|
    ensures Sized(t', sh') && FreeOk(t', sh')
    ensures forall j :: 0 <= j < t'.count ==> SlotOk(t', sh', cmp, j)
  {
    var x := t.count;
    var b := Bucket(InternalGetHashCode(cmp, v), |t.buckets|);
    assert FreeOk(t, sh);
    forall k | 0 <= k < |sh.free| ensures t'.slots[sh.free[k]].next == Succ(sh.free, k) && sh'.owner[sh.free[k]] == Free {
    }
    forall j | 0 <= j < t'.count ensures SlotOk(t', sh', cmp, j) {
      if j < x {
        assert SlotOk(t, sh, cmp, j);
        if sh.owner[j] == b {
          assert j in sh'.chains[b];
        }
      } else {
        assert sh'.chains[b] == [x] + sh.chains[b];
      }
    }
  }

  /**
   * Linking value v into a never-used slot (the high-water mark) at the head of its
   * bucket's chain keeps the table valid and adds v's class to the stored values.
   */
  lemma InsertFresh<T(!new)>(t: Table<T>, sh: Shape, cmp: Comparer<T>, v: T, t': Table<T>, sh': Shape)
    requires Valid(t, sh, cmp) && ValidComparer(cmp)
    requires t.count < |t.slots| && !Has(t, sh, cmp, v)
    requires FreshLinked(t, sh, cmp, v, t', sh')
    ensures Valid(t', sh', cmp)
    ensures forall w :: Has(t', sh', cmp, w) <==> Has(t, sh, cmp, w) || cmp.equals(v, w)
  {
    var x := t.count;
    FreshSlots(t, sh, cmp, v, t', sh');
    forall b | 0 <= b < |t.buckets| ensures x !in sh.chains[b] {
      assert ChainOk(t, sh, b);
    }
    LinkChains(t, sh, cmp, v, x, t', sh');
    AddLive(t, sh, cmp, v, x, t', sh');
  }

  /** The free list stays well linked when its head is popped for an insertion. */
  lemma ReuseFree<T>(t: Table<T>, sh: Shape, cmp: Comparer<T>, v: T, t': Table<T>, sh': Shape)
    requires ReuseLinked(t, sh, cmp, v, t', sh') && |sh.owner| == t.count && FreeOk(t, sh)
    ensures Sized(t', sh') && FreeOk(t', sh')
  {
    var x := sh.free[0];
    var f := sh.free;
    var f' := f[1..];
    forall k | 0 <= k < |f'| ensures 0 <= f'[k] < t'.count && t'.slots[f'[k]].next == Succ(f', k) && sh'.owner[f'[k]] == Free {
      assert f'[k] == f[k + 1] != x;
    }
  }

  /** Slot j stays on the list its owner names when the free list's head is popped for an insertion. */
  lemma ReuseSlot<T(!new)>(t: Table<T>, sh: Shape, cmp: Comparer<T>, v: T, t': Table<T>, sh': Shape, j: int)
    requires ReuseLinked(t, sh, cmp, v, t', sh') && |sh.owner| == t.count && 0 <= j < t.count
    requires NoDup(sh.free) && SlotOk(t, sh, cmp, j)
    ensures Sized(t', sh') && SlotOk(t', sh', cmp, j)
  {
    var x := sh.free[0];
    var b := Bucket(InternalGetHashCode(cmp, v), |t.buckets|);
    var f := sh.free;
    if j == x {
      assert sh'.chains[b] == [x] + sh.chains[b];
    } else if sh.owner[j] == Free {
      var k :| 0 <= k < |f| && f[k] == j;
      assert sh'.free[k - 1] == j;
    } else if sh.owner[j] == b {
      assert j in sh'.chains[b];
    }
  }

  /**
   * Linking value v into the slot at the head of the free list keeps the table valid
   * and adds v's class to the stored values.
   */
  lemma InsertReuse<T(!new)>(t: Table<T>, sh: Shape, cmp: Comparer<T>, v: T, t': Table<T>, sh': Shape)
    requires Valid(t, sh, cmp) && ValidComparer(cmp)
    requires !Has(t, sh, cmp, v)
    requires ReuseLinked(t, sh, cmp, v, t', sh')
    ensures Valid(t', sh', cmp)
    ensures forall w :: Has(t', sh', cmp, w) <==> Has(t, sh, cmp, w) || cmp.equals(v, w)
  {
    var x := sh.free[0];
    assert FreeOk(t, sh);
    ReuseFree(t, sh, cmp, v, t', sh');
    forall j | 0 <= j < t'.count ensures SlotOk(t', sh', cmp, j) {
      assert SlotOk(t, sh, cmp, j);
      ReuseSlot(t, sh, cmp, v, t', sh', j);
    }
    forall b | 0 <= b < |t.buckets| ensures x !in sh.chains[b] {
      assert ChainOk(t, sh, b);
    }
    LinkChains(t, sh, cmp, v, x, t', sh');
    AddLive(t, sh, cmp, v, x, t', sh');
  }

  /*
   * Unlinking a value. Remove takes the matching slot at position k of bucket b's
   * chain out of the chain (through the bucket head when k is 0, through the previous
   * slot's link otherwise), clears it and pushes it onto the free list.
   */

  /** t', sh' are t, sh with the slot at position k of bucket b's chain moved to the free list, its value replaced by d. */
  ghost predicate Unlinked<T>(t: Table<T>, sh: Shape, b: int, k: int, d: T, t': Table<T>, sh': Shape)
  {
    && Sized(t, sh) && 0 <= b < |t.buckets| && 0 <= k < |sh.chains[b]|
    && var c := sh.chains[b];
       var x := c[k];
       && 0 <= x < t.count
       && (k > 0 ==> 0 <= c[k - 1] < t.count)
       && var next := t.slots[x].next;
          var sl1 := if k == 0 then t.slots else t.slots[c[k - 1] := t.slots[c[k - 1]].(next := next)];
          && t'.buckets == (if k == 0 then t.buckets[b := next + 1] else t.buckets)
          && t'.slots == sl1[x := Slot(-1, d, t.freeList)]
          && t'.count == t.count
          && t'.freeList == x
          && sh' == Shape(sh.chains[b := c[..k] + c[k + 1..]], [x] + sh.free, sh.owner[x := Free])
  }

  /** Position m of a chain with position k cut out is position m or m + 1 of the chain. */
  lemma CutAt(c: seq<int>, k: int, m: int)
    requires 0 <= k < |c| && 0 <= m < |c| - 1
    ensures (c[..k] + c[k + 1..])[m] == if m < k then c[m] else c[m + 1]
  {
  }

  /** What unlinking does to one slot: the cut slot is cleared, the one before it takes over its link. */
  lemma UnlinkedSlot<T>(t: Table<T>, sh: Shape, b: int, k: int, d: T, t': Table<T>, sh': Shape, y: int)
    requires Unlinked(t, sh, b, k, d, t', sh') && 0 <= y < |t.slots|
    ensures Sized(t', sh') && |t'.slots| == |t.slots|
    ensures var c := sh.chains[b]; var x := c[k];
      && (y == x ==> t'.slots[y] == Slot(-1, d, t.freeList))
      && (y != x ==> t'.slots[y].hashCode == t.slots[y].hashCode && t'.slots[y].value == t.slots[y].value)
      && (y != x && (k == 0 || y != c[k - 1]) ==> t'.slots[y].next == t.slots[y].next)
      && (y != x && k > 0 && y == c[k - 1] ==> t'.slots[y].next == t.slots[x].next)
  {
  }

  /** The chain a slot is cut out of stays well linked. */
  lemma CutChain<T>(t: Table<T>, sh: Shape, b: int, k: int, d: T, t': Table<T>, sh': Shape)
    requires Unlinked(t, sh, b, k, d, t', sh') && ChainOk(t, sh, b)
    ensures Sized(t', sh') && ChainOk(t', sh', b)
  {
    var c := sh.chains[b];
    var x := c[k];
    UnlinkedSlot(t, sh, b, k, d, t', sh', x);
    var c' := c[..k] + c[k + 1..];
    assert sh'.chains[b] == c';
    forall m | 0 <= m < |c'|
      ensures 0 <= c'[m] < t'.count && sh'.owner[c'[m]] == b && t'.slots[c'[m]].next == Succ(c', m)
    {
      CutAt(c, k, m);
      UnlinkedSlot(t, sh, b, k, d, t', sh', c'[m]);
      if m + 1 < |c'| {
        CutAt(c, k, m + 1);
      }
    }
    forall i, j | 0 <= i < j < |c'| ensures c'[i] != c'[j] {
      CutAt(c, k, i);
      CutAt(c, k, j);
    }
    if k == 0 {
      assert c' == c[1..];
    } else {
      assert c'[0] == c[0];
    }
  }

  /** The chains a slot is not cut out of are untouched. */
  lemma OtherChains<T(!new)>(t: Table<T>, sh: Shape, cmp: Comparer<T>, b: int, k: int, d: T, t': Table<T>, sh': Shape, b': int)
    requires Valid(t, sh, cmp) && Unlinked(t, sh, b, k, d, t', sh')
    requires 0 <= b' < |t.buckets| && b' != b
    ensures Sized(t', sh') && ChainOk(t', sh', b')
  {
    var x := sh.chains[b][k];
    UnlinkedSlot(t, sh, b, k, d, t', sh', x);
    assert ChainOk(t, sh, b) && ChainOk(t, sh, b');
    var e := sh.chains[b'];
    forall m | 0 <= m < |e| ensures t'.slots[e[m]].next == Succ(e, m) && sh'.owner[e[m]] == b' {
      UnlinkedSlot(t, sh, b, k, d, t', sh', e[m]);
    }
  }

  /** The cut slot heads the free list, whose other links are untouched. */
  lemma UnlinkFree<T(!new)>(t: Table<T>, sh: Shape, cmp: Comparer<T>, b: int, k: int, d: T, t': Table<T>, sh': Shape)
    requires Valid(t, sh, cmp) && Unlinked(t, sh, b, k, d, t', sh')
    ensures Sized(t', sh') && FreeOk(t', sh')
  {
    var x := sh.chains[b][k];
    UnlinkedSlot(t, sh, b, k, d, t', sh', x);
    assert ChainOk(t, sh, b) && FreeOk(t, sh);
    var f := sh.free;
    var f' := [x] + f;
    assert x !in f;
    forall m | 0 <= m < |f'| ensures 0 <= f'[m] < t'.count && t'.slots[f'[m]].next == Succ(f', m) && sh'.owner[f'[m]] == Free {
      UnlinkedSlot(t, sh, b, k, d, t', sh', f'[m]);
      if m > 0 {
        assert f'[m] == f[m - 1];
      }
    }
  }

  /** Every slot's bookkeeping survives the unlinking. */
  lemma UnlinkSlot<T(!new)>(t: Table<T>, sh: Shape, cmp: Comparer<T>, b: int, k: int, d: T, t': Table<T>, sh': Shape, j: int)
    requires Unlinked(t, sh, b, k, d, t', sh')
    requires 0 <= j < t.count && SlotOk(t, sh, cmp, j)
    ensures Sized(t', sh') && SlotOk(t', sh', cmp, j)
  {
    var c := sh.chains[b];
    var x := c[k];
    UnlinkedSlot(t, sh, b, k, d, t', sh', j);
    if j == x {
      assert sh'.free[0] == x;
    } else {
      var o := sh.owner[j];
      assert sh'.owner[j] == o;
      if o == Free {
        var m :| 0 <= m < |sh.free| && sh.free[m] == j;
        assert sh'.free[m + 1] == j;
      } else if o == b {
        var c' := c[..k] + c[k + 1..];
        var m :| 0 <= m < |c| && c[m] == j;
        if m < k {
          CutAt(c, k, m);
          assert c'[m] == j;
        } else {
          CutAt(c, k, m - 1);
          assert c'[m - 1] == j;
        }
      } else {
        assert sh'.chains[o] == sh.chains[o];
      }
    }
  }

  /** Taking the one slot equal to v out of use removes exactly v's class from the stored values. */
  lemma RemoveLive<T(!new)>(t: Table<T>, sh: Shape, cmp: Comparer<T>, v: T, x: int, t': Table<T>, sh': Shape)
    requires Unique(t, sh, cmp) && IsEquivalence(cmp.equals) && |t'.slots| == |t.slots|
    requires Live(t, sh, x) && !Live(t', sh', x) && cmp.equals(t.slots[x].value, v)
    requires forall j :: j != x ==> (Live(t', sh', j) <==> Live(t, sh, j))
    requires forall j :: Live(t', sh', j) ==> t'.slots[j].value == t.slots[j].value
    ensures Unique(t', sh', cmp)
    ensures forall w :: Has(t', sh', cmp, w) <==> Has(t, sh, cmp, w) && !cmp.equals(v, w)
  {
    forall i, j | Live(t', sh', i) && Live(t', sh', j) && i != j
      ensures !cmp.equals(t'.slots[i].value, t'.slots[j].value)
    {
      assert Live(t, sh, i) && Live(t, sh, j);
    }
    forall w ensures Has(t', sh', cmp, w) <==> Has(t, sh, cmp, w) && !cmp.equals(v, w) {
      if Has(t', sh', cmp, w) {
        var j :| Live(t', sh', j) && cmp.equals(t'.slots[j].value, w);
        assert Live(t, sh, j) && j != x;
        var a, b := t.slots[j].value, t.slots[x].value;
        assert TransitiveAt(cmp.equals, b, v, w) && TransitiveAt(cmp.equals, b, w, a);
      }
      if Has(t, sh, cmp, w) && !cmp.equals(v, w) {
        var j :| Live(t, sh, j) && cmp.equals(t.slots[j].value, w);
        assert TransitiveAt(cmp.equals, v, t.slots[x].value, w);
        assert Live(t', sh', j);
      }
    }
  }

  /**
   * Cutting the slot that holds a value equal to v out of its chain and pushing it
   * onto the free list keeps the table valid and removes v's class from the stored
   * values.
   */
  lemma Unlink<T(!new)>(t: Table<T>, sh: Shape, cmp: Comparer<T>, v: T, b: int, k: int, d: T, t': Table<T>, sh': Shape)
    requires Valid(t, sh, cmp) && ValidComparer(cmp)
    requires Unlinked(t, sh, b, k, d, t', sh')
    requires cmp.equals(t.slots[sh.chains[b][k]].value, v)
    ensures Valid(t', sh', cmp)
    ensures forall w :: Has(t', sh', cmp, w) <==> Has(t, sh, cmp, w) && !cmp.equals(v, w)
  {
    var x := sh.chains[b][k];
    assert ChainOk(t, sh, b);
    CutChain(t, sh, b, k, d, t', sh');
    forall b' | 0 <= b' < |t'.buckets| ensures ChainOk(t', sh', b') {
      if b' != b {
        OtherChains(t, sh, cmp, b, k, d, t', sh', b');
      }
    }
    UnlinkFree(t, sh, cmp, b, k, d, t', sh');
    forall j | 0 <= j < t'.count ensures SlotOk(t', sh', cmp, j) {
      assert SlotOk(t, sh, cmp, j);
      UnlinkSlot(t, sh, cmp, b, k, d, t', sh', j);
    }
    forall j | Live(t', sh', j) ensures t'.slots[j].value == t.slots[j].value {
      UnlinkedSlot(t, sh, b, k, d, t', sh', j);
    }
    RemoveLive(t, sh, cmp, v, x, t', sh');
  }

  /*
   * Rebuilding. Resize runs only when the free list is empty and every slot is in
   * use; it relinks slots 0, 1, ... in order into a larger, empty bucket array, which
   * amounts to inserting each one afresh at the high-water mark.
   */

  /** With an empty free list, every slot below the high-water mark is live. */
  lemma AllLive<T(!new)>(t: Table<T>, sh: Shape, cmp: Comparer<T>)
    requires Valid(t, sh, cmp) && sh.free == []
    ensures forall j :: 0 <= j < t.count ==> Live(t, sh, j)
  {
    forall j | 0 <= j < t.count ensures Live(t, sh, j) {
      assert SlotOk(t, sh, cmp, j);
    }
  }

  /** While slots 0 .. i-1 of a full table are relinked, the value of slot i is not among them yet. */
  lemma PrefixMiss<T(!new)>(t0: Table<T>, sh0: Shape, t: Table<T>, sh: Shape, cmp: Comparer<T>, i: int)
    requires Valid(t0, sh0, cmp) && sh0.free == []
    requires 0 <= i < t0.count && t.count == i && t0.count <= |t.slots|
    requires forall j :: 0 <= j < t0.count ==> t.slots[j].value == t0.slots[j].value
    ensures !Has(t, sh, cmp, t0.slots[i].value)
  {
    AllLive(t0, sh0, cmp);
    assert Unique(t0, sh0, cmp);
    forall j | Live(t, sh, j) ensures !cmp.equals(t.slots[j].value, t0.slots[i].value) {
      assert Live(t0, sh0, j) && Live(t0, sh0, i);
    }
  }

  /** A table rebuilt from a full one, with the same values in the same slots, stores the same values. */
  lemma RebuiltHas<T(!new)>(t0: Table<T>, sh0: Shape, t: Table<T>, sh: Shape, cmp: Comparer<T>)
    requires Valid(t0, sh0, cmp) && sh0.free == []
    requires Valid(t, sh, cmp) && sh.free == []
    requires t.count == t0.count
    requires forall j :: 0 <= j < t0.count ==> t.slots[j].value == t0.slots[j].value
    ensures forall w :: Has(t, sh, cmp, w) <==> Has(t0, sh0, cmp, w)
  {
    AllLive(t0, sh0, cmp);
    AllLive(t, sh, cmp);
    forall w ensures Has(t, sh, cmp, w) <==> Has(t0, sh0, cmp, w) {
      if Has(t, sh, cmp, w) {
        var j :| Live(t, sh, j) && cmp.equals(t.slots[j].value, w);
        assert Live(t0, sh0, j);
      }
      if Has(t0, sh0, cmp, w) {
        var j :| Live(t0, sh0, j) && cmp.equals(t0.slots[j].value, w);
        assert Live(t, sh, j);
      }
    }
  }

  /*
   * The steps of the Set class as functions of the old table and shape. Each method
   * leaves its arrays equal to the table one of these computes; the lemmas below say
   * what each step does to validity and to the stored values.
   */

  /** Find's adding branch when the free list is not empty: v, of hash code h, goes into the slot at its head. */
  ghost function ReuseStep<T>(t: Table<T>, sh: Shape, h: int, v: T): (Table<T>, Shape)
    requires Sized(t, sh) && 0 <= h && 0 <= t.freeList < t.count && sh.free != []
  {
    var x := t.freeList;
    var b := Bucket(h, |t.buckets|);
    (Table(t.buckets[b := x + 1], t.slots[x := Slot(h, v, t.buckets[b] - 1)], t.count, t.slots[x].next),
     Shape(sh.chains[b := [x] + sh.chains[b]], sh.free[1..], sh.owner[x := b]))
  }

  /** Find's adding branch when the free list is empty: v, of hash code h, goes into the slot at the high-water mark. */
  ghost function FreshStep<T>(t: Table<T>, sh: Shape, h: int, v: T): (Table<T>, Shape)
    requires Sized(t, sh) && 0 <= h && t.count < |t.slots|
  {
    var x := t.count;
    var b := Bucket(h, |t.buckets|);
    (Table(t.buckets[b := x + 1], t.slots[x := Slot(h, v, t.buckets[b] - 1)], t.count + 1, t.freeList),
     Shape(sh.chains[b := [x] + sh.chains[b]], sh.free, sh.owner + [b]))
  }

  /** Remove's hit at position k of bucket b's chain: the slot is cut out, cleared to d and pushed onto the free list. */
  ghost function UnlinkStep<T>(t: Table<T>, sh: Shape, b: int, k: int, d: T): (Table<T>, Shape)
    requires Sized(t, sh) && 0 <= b < |t.buckets| && 0 <= k < |sh.chains[b]|
    requires 0 <= sh.chains[b][k] < t.count && (k > 0 ==> 0 <= sh.chains[b][k - 1] < t.count)
  {
    var c := sh.chains[b];
    var x := c[k];
    var next := t.slots[x].next;
    var slots := if k == 0 then t.slots else t.slots[c[k - 1] := t.slots[c[k - 1]].(next := next)];
    (Table(if k == 0 then t.buckets[b := next + 1] else t.buckets, slots[x := Slot(-1, d, t.freeList)], t.count, x),
     Shape(sh.chains[b := c[..k] + c[k + 1..]], [x] + sh.free, sh.owner[x := Free]))
  }

  /** One round of Resize's loop: slot t.count is pushed onto the chain of its hash code's bucket. */
  ghost function RelinkStep<T>(t: Table<T>, sh: Shape): (Table<T>, Shape)
    requires 0 < |t.buckets| == |sh.chains| && 0 <= t.count < |t.slots| && t.slots[t.count].hashCode >= 0
  {
    var i := t.count;
    var b := Bucket(t.slots[i].hashCode, |t.buckets|);
    (Table(t.buckets[b := i + 1], t.slots[i := t.slots[i].(next := t.buckets[b] - 1)], i + 1, t.freeList),
     Shape(sh.chains[b := [i] + sh.chains[b]], sh.free, sh.owner + [b]))
  }

  /** Adding an absent value into the slot at the head of the free list keeps the table valid and adds v's class. */
  lemma ReuseStepValid<T(!new)>(t: Table<T>, sh: Shape, cmp: Comparer<T>, v: T)
    requires Valid(t, sh, cmp) && ValidComparer(cmp) && t.freeList >= 0 && !Has(t, sh, cmp, v)
    ensures t.freeList < t.count && sh.free != []
    ensures var r := ReuseStep(t, sh, InternalGetHashCode(cmp, v), v);
      && Valid(r.0, r.1, cmp)
      && forall w :: Has(r.0, r.1, cmp, w) <==> Has(t, sh, cmp, w) || cmp.equals(v, w)
  {
    assert FreeOk(t, sh);
    var r := ReuseStep(t, sh, InternalGetHashCode(cmp, v), v);
    InsertReuse(t, sh, cmp, v, r.0, r.1);
  }

  /** Adding an absent value into the slot at the high-water mark keeps the table valid and adds v's class. */
  lemma FreshStepValid<T(!new)>(t: Table<T>, sh: Shape, cmp: Comparer<T>, v: T)
    requires Valid(t, sh, cmp) && ValidComparer(cmp) && t.count < |t.slots| && !Has(t, sh, cmp, v)
    ensures var r := FreshStep(t, sh, InternalGetHashCode(cmp, v), v);
      && Valid(r.0, r.1, cmp)
      && forall w :: Has(r.0, r.1, cmp, w) <==> Has(t, sh, cmp, w) || cmp.equals(v, w)
  {
    var r := FreshStep(t, sh, InternalGetHashCode(cmp, v), v);
    InsertFresh(t, sh, cmp, v, r.0, r.1);
  }

  /** Unlinking the slot holding a value equal to v keeps the table valid and removes v's class. */
  lemma UnlinkStepValid<T(!new)>(t: Table<T>, sh: Shape, cmp: Comparer<T>, v: T, b: int, k: int, d: T)
    requires Valid(t, sh, cmp) && ValidComparer(cmp)
    requires 0 <= b < |t.buckets| && 0 <= k < |sh.chains[b]| && 0 <= sh.chains[b][k] < t.count
    requires cmp.equals(t.slots[sh.chains[b][k]].value, v)
    ensures k > 0 ==> 0 <= sh.chains[b][k - 1] < t.count
    ensures var r := UnlinkStep(t, sh, b, k, d);
      && Valid(r.0, r.1, cmp)
      && forall w :: Has(r.0, r.1, cmp, w) <==> Has(t, sh, cmp, w) && !cmp.equals(v, w)
  {
    assert ChainOk(t, sh, b);
    var r := UnlinkStep(t, sh, b, k, d);
    Unlink(t, sh, cmp, v, b, k, d, r.0, r.1);
  }

  /**
   * The state of Resize's loop: t, sh is a valid table holding slots 0 .. t.count-1
   * of the full table t0, sh0 relinked, and slots t.count .. t0.count-1 still unlinked.
   */
  ghost predicate Rebuilding<T(!new)>(t0: Table<T>, sh0: Shape, t: Table<T>, sh: Shape, cmp: Comparer<T>)
  {
    && Valid(t0, sh0, cmp) && sh0.free == [] && ValidComparer(cmp)
    && Valid(t, sh, cmp) && sh.free == [] && t.freeList == -1
    && t.count <= t0.count <= |t.slots|
    && forall j :: 0 <= j < t0.count ==>
         t.slots[j].value == t0.slots[j].value && t.slots[j].hashCode == t0.slots[j].hashCode
  }

  /** An empty bucket array over a copy of a full table's slots starts the rebuild. */
  lemma RebuildStart<T(!new)>(t0: Table<T>, sh0: Shape, t: Table<T>, sh: Shape, cmp: Comparer<T>)
    requires Valid(t0, sh0, cmp) && ValidComparer(cmp) && t0.freeList < 0
    requires 0 < |t.buckets| == |t.slots| && t0.count <= |t.slots| && t.count == 0 && t.freeList == -1
    requires forall b :: 0 <= b < |t.buckets| ==> t.buckets[b] == 0
    requires forall j :: 0 <= j < t0.count ==> t.slots[j] == t0.slots[j]
    requires sh == Shape(seq(|t.buckets|, _ => []), [], [])
    ensures Rebuilding(t0, sh0, t, sh, cmp)
  {
    assert FreeOk(t0, sh0);
    EmptyTable(t, sh, cmp);
  }

  /** Relinking the next slot keeps the rebuild on track. */
  lemma RelinkStepValid<T(!new)>(t0: Table<T>, sh0: Shape, t: Table<T>, sh: Shape, cmp: Comparer<T>)
    requires Rebuilding(t0, sh0, t, sh, cmp) && t.count < t0.count
    ensures |t.buckets| == |sh.chains| && t.slots[t.count].hashCode >= 0
    ensures var r := RelinkStep(t, sh); Rebuilding(t0, sh0, r.0, r.1, cmp) && r.0.count == t.count + 1
  {
    var i := t.count;
    PrefixMiss(t0, sh0, t, sh, cmp, i);
    assert SlotOk(t0, sh0, cmp, i);
    var v := t0.slots[i].value;
    var r := RelinkStep(t, sh);
    assert FreshLinked(t, sh, cmp, v, r.0, r.1);
    InsertFresh(t, sh, cmp, v, r.0, r.1);
  }

  /** A finished rebuild stores exactly the values of the table it was rebuilt from. */
  lemma RebuildDone<T(!new)>(t0: Table<T>, sh0: Shape, t: Table<T>, sh: Shape, cmp: Comparer<T>)
    requires Rebuilding(t0, sh0, t, sh, cmp) && t.count == t0.count
    ensures t.freeList == t0.freeList
    ensures forall w :: Has(t, sh, cmp, w) <==> Has(t0, sh0, cmp, w)
  {
    assert FreeOk(t0, sh0);
    RebuiltHas(t0, sh0, t, sh, cmp);
  }
}
