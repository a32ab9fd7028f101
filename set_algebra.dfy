/**
 * The set operators of `_Enumerable`: `_Distinct`, `_Union` and `_Intersect`.
 *
 * Each operator is first defined as a function on sequences that reads the source
 * from its last element back (the reference definition), then its iterator is
 * written as the loop the source runs over a `HashSet.Set`, and the loop is proved
 * to produce exactly the reference sequence. Lemmas then say what the reference
 * sequences are: which classes they contain, that no two of their elements are
 * equal, and how the operators relate to each other.
 */
module SetAlgebra {
  import opened SlotTable
  import opened HashSet

  /** Some element of s is equal to x under the comparer. */
  predicate HasEqual<T>(cmp: Comparer<T>, s: seq<T>, x: T)
  {
    exists i :: 0 <= i < |s| && cmp.equals(s[i], x)
  }

  /** No two elements of s are equal under the comparer. */
  predicate NoEqualPair<T>(cmp: Comparer<T>, s: seq<T>)
  {
    forall i, j :: 0 <= i < j < |s| ==> !cmp.equals(s[i], s[j])
  }

  /** The elements of s, in order, that have no equal element before them: `_DistinctIterator`. */
  function Distinct<T>(cmp: Comparer<T>, s: seq<T>): seq<T>
  {
    if s == [] then []
    else
      var p, x := s[..|s| - 1], s[|s| - 1];
      if HasEqual(cmp, p, x) then Distinct(cmp, p) else Distinct(cmp, p) + [x]
  }

  /** `_UnionIterator`: the distinct elements of first followed by second. */
  function Union<T>(cmp: Comparer<T>, first: seq<T>, second: seq<T>): seq<T>
  {
    Distinct(cmp, first + second)
  }

  /**
   * `_IntersectIterator`: the elements of first, in order, that have an equal element
   * in second and none before them in first.
   */
  function Intersect<T>(cmp: Comparer<T>, first: seq<T>, second: seq<T>): seq<T>
  {
    if first == [] then []
    else
      var p, x := first[..|first| - 1], first[|first| - 1];
      if HasEqual(cmp, second, x) && !HasEqual(cmp, p, x) then Intersect(cmp, p, second) + [x]
      else Intersect(cmp, p, second)
  }

  /** The elements of s that have an equal element in b. */
  function Keep<T>(cmp: Comparer<T>, s: seq<T>, b: seq<T>): seq<T>
  {
    if s == [] then []
    else
      var p, x := s[..|s| - 1], s[|s| - 1];
      if HasEqual(cmp, b, x) then Keep(cmp, p, b) + [x] else Keep(cmp, p, b)
  }

  /** The elements of s that have no equal element in a. */
  function Omit<T>(cmp: Comparer<T>, s: seq<T>, a: seq<T>): seq<T>
  {
    if s == [] then []
    else
      var p, x := s[..|s| - 1], s[|s| - 1];
      if HasEqual(cmp, a, x) then Omit(cmp, p, a) else Omit(cmp, p, a) + [x]
  }

  /** A comparer on int that is plain equality. */
  ghost predicate IsIntEquality(cmp: Comparer<int>)
  {
    forall a, b :: cmp.equals(a, b) <==> a == b
  }

  /**
   * The comparer `EqualityComparer<int>.Default`: `==`, with an int's hash code being
   * the int itself. It is the comparer the worked examples below are stated for.
   */
  function IntComparer(): (cmp: Comparer<int>)
    ensures ValidComparer(cmp)
    ensures IsIntEquality(cmp)
  {
    DefaultComparer(x => x, x => false)
  }

  // ---------------------------------------------------------------------------
  // Membership

  /** A concatenation has an element equal to x exactly when one of its parts has. */
  lemma HasEqualConcat<T>(cmp: Comparer<T>, a: seq<T>, b: seq<T>, x: T)
    ensures HasEqual(cmp, a + b, x) <==> HasEqual(cmp, a, x) || HasEqual(cmp, b, x)
  {
    if HasEqual(cmp, a + b, x) {
      var i :| 0 <= i < |a + b| && cmp.equals((a + b)[i], x);
      if i >= |a| {
        assert b[i - |a|] == (a + b)[i];
      }
    }
    if HasEqual(cmp, a, x) {
      var i :| 0 <= i < |a| && cmp.equals(a[i], x);
      assert (a + b)[i] == a[i];
    }
    if HasEqual(cmp, b, x) {
      var i :| 0 <= i < |b| && cmp.equals(b[i], x);
      assert (a + b)[|a| + i] == b[i];
    }
  }

  /** Appending one element: s + [y] has an element equal to x when s has or y is. */
  lemma HasEqualSnoc<T>(cmp: Comparer<T>, s: seq<T>, y: T, x: T)
    ensures HasEqual(cmp, s + [y], x) <==> HasEqual(cmp, s, x) || cmp.equals(y, x)
  {
    HasEqualConcat(cmp, s, [y], x);
    assert HasEqual(cmp, [y], x) <==> cmp.equals(y, x) by {
      if cmp.equals(y, x) {
        assert [y][0] == y;
      }
    }
  }

  /** Extending a prefix of s by one element adds exactly that element's class. */
  lemma HasEqualPrefix<T>(cmp: Comparer<T>, s: seq<T>, i: int)
    requires 0 <= i < |s|
    ensures s[..i + 1] == s[..i] + [s[i]]
    ensures forall w :: HasEqual(cmp, s[..i + 1], w) <==> HasEqual(cmp, s[..i], w) || cmp.equals(s[i], w)
  {
    assert s[..i + 1] == s[..i] + [s[i]];
    forall w ensures HasEqual(cmp, s[..i + 1], w) <==> HasEqual(cmp, s[..i], w) || cmp.equals(s[i], w) {
      HasEqualSnoc(cmp, s[..i], s[i], w);
    }
  }

  /** Under an equivalence, having an element equal to y carries over to everything equal to y. */
  lemma HasEqualTrans<T(!new)>(cmp: Comparer<T>, s: seq<T>, y: T, x: T)
    requires IsEquivalence(cmp.equals) && HasEqual(cmp, s, y) && cmp.equals(y, x)
    ensures HasEqual(cmp, s, x)
  {
    var i :| 0 <= i < |s| && cmp.equals(s[i], y);
    assert TransitiveAt(cmp.equals, s[i], y, x);
  }

  /** Distinct keeps every class of the source: it has an element equal to x exactly when the source has. */
  lemma {:induction false} DistinctHasEqual<T(!new)>(cmp: Comparer<T>, s: seq<T>, x: T)
    requires IsEquivalence(cmp.equals)
    ensures HasEqual(cmp, Distinct(cmp, s), x) <==> HasEqual(cmp, s, x)
    decreases |s|
  {
    if s != [] {
      var p, y := s[..|s| - 1], s[|s| - 1];
      assert s == p + [y];
      DistinctHasEqual(cmp, p, x);
      HasEqualSnoc(cmp, p, y, x);
      if HasEqual(cmp, p, y) {
        if cmp.equals(y, x) {
          HasEqualTrans(cmp, p, y, x);
        }
      } else {
        HasEqualSnoc(cmp, Distinct(cmp, p), y, x);
      }
    }
  }

  /** Appending y keeps a sequence free of equal pairs exactly when no element is equal to y. */
  lemma NoEqualPairSnoc<T>(cmp: Comparer<T>, s: seq<T>, y: T)
    ensures NoEqualPair(cmp, s + [y]) <==> NoEqualPair(cmp, s) && !HasEqual(cmp, s, y)
  {
    var s' := s + [y];
    if NoEqualPair(cmp, s') {
      forall i, j | 0 <= i < j < |s| ensures !cmp.equals(s[i], s[j]) {
        assert s'[i] == s[i] && s'[j] == s[j];
      }
      forall i | 0 <= i < |s| ensures !cmp.equals(s[i], y) {
        assert s'[i] == s[i] && s'[|s|] == y;
      }
    }
    if NoEqualPair(cmp, s) && !HasEqual(cmp, s, y) {
      forall i, j | 0 <= i < j < |s'| ensures !cmp.equals(s'[i], s'[j]) {
        if j < |s| {
          assert s'[i] == s[i] && s'[j] == s[j];
        } else {
          assert s'[i] == s[i] && s'[j] == y;
        }
      }
    }
  }

  /** No two elements Distinct returns are equal. */
  lemma {:induction false} DistinctNoEqualPair<T(!new)>(cmp: Comparer<T>, s: seq<T>)
    requires IsEquivalence(cmp.equals)
    ensures NoEqualPair(cmp, Distinct(cmp, s))
    decreases |s|
  {
    if s != [] {
      var p, y := s[..|s| - 1], s[|s| - 1];
      DistinctNoEqualPair(cmp, p);
      if !HasEqual(cmp, p, y) {
        DistinctHasEqual(cmp, p, y);
        NoEqualPairSnoc(cmp, Distinct(cmp, p), y);
      }
    }
  }

  /** A sequence without equal pairs is its own Distinct. */
  lemma {:induction false} DistinctOfNoEqualPair<T>(cmp: Comparer<T>, s: seq<T>)
    requires NoEqualPair(cmp, s)
    ensures Distinct(cmp, s) == s
    decreases |s|
  {
    if s != [] {
      var p, y := s[..|s| - 1], s[|s| - 1];
      assert s == p + [y];
      NoEqualPairSnoc(cmp, p, y);
      DistinctOfNoEqualPair(cmp, p);
    }
  }

  /** Distinct is idempotent. */
  lemma DistinctIdempotent<T(!new)>(cmp: Comparer<T>, s: seq<T>)
    requires IsEquivalence(cmp.equals)
    ensures Distinct(cmp, Distinct(cmp, s)) == Distinct(cmp, s)
  {
    DistinctNoEqualPair(cmp, s);
    DistinctOfNoEqualPair(cmp, Distinct(cmp, s));
  }

  // ---------------------------------------------------------------------------
  // Union and intersection

  /**
   * The union is the distinct elements of first followed by those distinct elements
   * of second that have no equal element in first.
   */
  lemma {:induction false} UnionSplit<T>(cmp: Comparer<T>, first: seq<T>, second: seq<T>)
    ensures Union(cmp, first, second) == Distinct(cmp, first) + Omit(cmp, Distinct(cmp, second), first)
    decreases |second|
  {
    if second == [] {
      assert first + second == first;
    } else {
      var q, y := second[..|second| - 1], second[|second| - 1];
      assert first + second == (first + q) + [y];
      assert (first + second)[..|first + second| - 1] == first + q;
      UnionSplit(cmp, first, q);
      HasEqualConcat(cmp, first, q, y);
      var dq := Distinct(cmp, q);
      if !HasEqual(cmp, q, y) {
        assert (dq + [y])[..|dq|] == dq;
      }
    }
  }

  /** The union has an element equal to x exactly when first or second has, and no two of its elements are equal. */
  lemma UnionHasEqual<T(!new)>(cmp: Comparer<T>, first: seq<T>, second: seq<T>, x: T)
    requires IsEquivalence(cmp.equals)
    ensures HasEqual(cmp, Union(cmp, first, second), x) <==> HasEqual(cmp, first, x) || HasEqual(cmp, second, x)
    ensures NoEqualPair(cmp, Union(cmp, first, second))
  {
    DistinctHasEqual(cmp, first + second, x);
    HasEqualConcat(cmp, first, second, x);
    DistinctNoEqualPair(cmp, first + second);
  }

  /** The intersection is Distinct of first, restricted to the elements that have an equal element in second. */
  lemma {:induction false} IntersectIsKeep<T>(cmp: Comparer<T>, first: seq<T>, second: seq<T>)
    ensures Intersect(cmp, first, second) == Keep(cmp, Distinct(cmp, first), second)
    decreases |first|
  {
    if first != [] {
      var p, y := first[..|first| - 1], first[|first| - 1];
      IntersectIsKeep(cmp, p, second);
      var dp := Distinct(cmp, p);
      if !HasEqual(cmp, p, y) {
        assert (dp + [y])[..|dp|] == dp;
      }
    }
  }

  /** Every element Keep returns comes from its source. */
  lemma {:induction false} KeepHasEqual<T>(cmp: Comparer<T>, s: seq<T>, b: seq<T>, x: T)
    ensures HasEqual(cmp, Keep(cmp, s, b), x) ==> HasEqual(cmp, s, x)
    decreases |s|
  {
    if s != [] {
      var p, y := s[..|s| - 1], s[|s| - 1];
      assert s == p + [y];
      KeepHasEqual(cmp, p, b, x);
      HasEqualSnoc(cmp, p, y, x);
      if HasEqual(cmp, b, y) {
        HasEqualSnoc(cmp, Keep(cmp, p, b), y, x);
      }
    }
  }

  /** Keep of a sequence without equal pairs has none either. */
  lemma {:induction false} KeepNoEqualPair<T>(cmp: Comparer<T>, s: seq<T>, b: seq<T>)
    requires NoEqualPair(cmp, s)
    ensures NoEqualPair(cmp, Keep(cmp, s, b))
    decreases |s|
  {
    if s != [] {
      var p, y := s[..|s| - 1], s[|s| - 1];
      assert s == p + [y];
      NoEqualPairSnoc(cmp, p, y);
      KeepNoEqualPair(cmp, p, b);
      if HasEqual(cmp, b, y) {
        KeepHasEqual(cmp, p, b, y);
        NoEqualPairSnoc(cmp, Keep(cmp, p, b), y);
      }
    }
  }

  /**
   * The intersection has an element equal to x exactly when both first and second
   * have, and no two of its elements are equal.
   */
  lemma {:induction false} IntersectHasEqual<T(!new)>(cmp: Comparer<T>, first: seq<T>, second: seq<T>, x: T)
    requires IsEquivalence(cmp.equals)
    ensures HasEqual(cmp, Intersect(cmp, first, second), x) <==> HasEqual(cmp, first, x) && HasEqual(cmp, second, x)
    decreases |first|
  {
    if first != [] {
      var p, y := first[..|first| - 1], first[|first| - 1];
      assert first == p + [y];
      IntersectHasEqual(cmp, p, second, x);
      HasEqualSnoc(cmp, p, y, x);
      var ip := Intersect(cmp, p, second);
      if HasEqual(cmp, second, y) && !HasEqual(cmp, p, y) {
        HasEqualSnoc(cmp, ip, y, x);
        if cmp.equals(y, x) {
          HasEqualTrans(cmp, second, y, x);
        }
      } else if cmp.equals(y, x) && HasEqual(cmp, second, x) {
        assert cmp.equals(x, y);
        HasEqualTrans(cmp, second, x, y);
        HasEqualTrans(cmp, p, y, x);
      }
    }
  }

  /** No two elements of the intersection are equal. */
  lemma IntersectNoEqualPair<T(!new)>(cmp: Comparer<T>, first: seq<T>, second: seq<T>)
    requires IsEquivalence(cmp.equals)
    ensures NoEqualPair(cmp, Intersect(cmp, first, second))
  {
    IntersectIsKeep(cmp, first, second);
    DistinctNoEqualPair(cmp, first);
    KeepNoEqualPair(cmp, Distinct(cmp, first), second);
  }

  /** Keep changes nothing when every element has an equal element in b. */
  lemma {:induction false} KeepAll<T>(cmp: Comparer<T>, s: seq<T>, b: seq<T>)
    requires forall i :: 0 <= i < |s| ==> HasEqual(cmp, b, s[i])
    ensures Keep(cmp, s, b) == s
    decreases |s|
  {
    if s != [] {
      var p, y := s[..|s| - 1], s[|s| - 1];
      assert s == p + [y];
      assert forall i :: 0 <= i < |p| ==> p[i] == s[i];
      KeepAll(cmp, p, b);
    }
  }

  /** A sequence intersected with itself is its Distinct. */
  lemma IntersectSelf<T(!new)>(cmp: Comparer<T>, s: seq<T>)
    requires IsEquivalence(cmp.equals)
    ensures Intersect(cmp, s, s) == Distinct(cmp, s)
  {
    IntersectIsKeep(cmp, s, s);
    var d := Distinct(cmp, s);
    forall i | 0 <= i < |d| ensures HasEqual(cmp, s, d[i]) {
      assert cmp.equals(d[i], d[i]);
      DistinctHasEqual(cmp, s, d[i]);
    }
    KeepAll(cmp, d, s);
  }

  // ---------------------------------------------------------------------------
  // Worked examples with the default comparer on int (any comparer that is plain
  // equality on int, of which IntComparer() is one)

  /** Under plain equality, having an equal element is membership. */
  lemma HasEqualIn(cmp: Comparer<int>, s: seq<int>, x: int)
    requires IsIntEquality(cmp)
    ensures HasEqual(cmp, s, x) <==> x in s
  {
    if x in s {
      var i :| 0 <= i < |s| && s[i] == x;
      assert cmp.equals(s[i], x);
    }
    if HasEqual(cmp, s, x) {
      var i :| 0 <= i < |s| && cmp.equals(s[i], x);
      assert s[i] == x;
      assert x in s;
    }
  }

  lemma DistinctExample(cmp: Comparer<int>)
    requires IsIntEquality(cmp)
    ensures Distinct(cmp, [3, 1, 2, 3, 1]) == [3, 1, 2]
  {
    assert [3, 1, 2, 3, 1][..4] == [3, 1, 2, 3] && [3, 1, 2, 3][..3] == [3, 1, 2];
    assert [3, 1, 2][..2] == [3, 1] && [3, 1][..1] == [3] && [3][..0] == [];
    HasEqualIn(cmp, [], 3);
    HasEqualIn(cmp, [3], 1);
    HasEqualIn(cmp, [3, 1], 2);
    HasEqualIn(cmp, [3, 1, 2], 3);
    HasEqualIn(cmp, [3, 1, 2, 3], 1);
    assert Distinct(cmp, [3]) == [3];
    assert Distinct(cmp, [3, 1]) == [3, 1];
    assert Distinct(cmp, [3, 1, 2]) == [3, 1, 2];
    assert Distinct(cmp, [3, 1, 2, 3]) == [3, 1, 2];
  }

  lemma UnionExample(cmp: Comparer<int>)
    requires IsIntEquality(cmp)
    ensures Union(cmp, [1, 2], [2, 3]) == [1, 2, 3]
  {
    assert [1, 2] + [2, 3] == [1, 2, 2, 3];
    assert [1, 2, 2, 3][..3] == [1, 2, 2] && [1, 2, 2][..2] == [1, 2] && [1, 2][..1] == [1] && [1][..0] == [];
    HasEqualIn(cmp, [], 1);
    HasEqualIn(cmp, [1], 2);
    HasEqualIn(cmp, [1, 2], 2);
    HasEqualIn(cmp, [1, 2, 2], 3);
    assert Distinct(cmp, [1]) == [1];
    assert Distinct(cmp, [1, 2]) == [1, 2];
    assert Distinct(cmp, [1, 2, 2]) == [1, 2];
  }

  lemma IntersectExample(cmp: Comparer<int>)
    requires IsIntEquality(cmp)
    ensures Intersect(cmp, [1, 2, 2, 3], [2, 3, 4]) == [2, 3]
  {
    var b := [2, 3, 4];
    assert [1, 2, 2, 3][..3] == [1, 2, 2] && [1, 2, 2][..2] == [1, 2] && [1, 2][..1] == [1] && [1][..0] == [];
    HasEqualIn(cmp, b, 1);
    HasEqualIn(cmp, b, 2);
    HasEqualIn(cmp, b, 3);
    HasEqualIn(cmp, [], 1);
    HasEqualIn(cmp, [1], 2);
    HasEqualIn(cmp, [1, 2], 2);
    HasEqualIn(cmp, [1, 2, 2], 3);
    assert Intersect(cmp, [1], b) == [];
    assert Intersect(cmp, [1, 2], b) == [2];
    assert Intersect(cmp, [1, 2, 2], b) == [2];
  }

  // ---------------------------------------------------------------------------
  // The iterators, as loops over a Set

  /**
   * The set has seen exactly the elements of s: it is valid, it used at most one slot
   * per element, and it holds exactly their classes.
   */
  ghost predicate Seen<T(0,!new)>(seen: Set<T>, s: seq<T>)
    reads seen, seen.Repr
  {
    && seen.Valid()
    && seen.count <= |s|
    && forall w :: seen.Has(w) <==> HasEqual(seen.comparer, s, w)
  }

  /** Taking one more element of source. */
  lemma TakeOneMore<T>(prior: seq<T>, source: seq<T>, i: int)
    requires 0 <= i < |source|
    ensures prior + source[..i + 1] == (prior + source[..i]) + [source[i]]
  {
    assert source[..i + 1] == source[..i] + [source[i]];
  }

  /**
   * One step of the loops below: `set.Add(element)` where the set has seen s: it then
   * has seen s + [element], and it accepted the element when nothing in s was equal to it.
   */
  method AddNext<T(0,!new)>(seen: Set<T>, ghost s: seq<T>, x: T) returns (added: bool)
    requires Seen(seen, s) && |s| < 0x4000_0000
    modifies seen.Repr
    ensures Seen(seen, s + [x]) && fresh(seen.Repr - old(seen.Repr))
    ensures added == !HasEqual(seen.comparer, s, x)
  {
    added := seen.Add(x);
    forall w ensures seen.Has(w) <==> HasEqual(seen.comparer, s + [x], w) {
      HasEqualSnoc(seen.comparer, s, x, w);
    }
  }

  /** One step of the yielding loops: `if (set.Add(element)) yield return element;`. */
  method YieldNext<T(0,!new)>(seen: Set<T>, ghost s: seq<T>, x: T, out0: seq<T>) returns (out: seq<T>)
    requires Seen(seen, s) && |s| < 0x4000_0000 && out0 == Distinct(seen.comparer, s)
    modifies seen.Repr
    ensures Seen(seen, s + [x]) && fresh(seen.Repr - old(seen.Repr))
    ensures out == Distinct(seen.comparer, s + [x])
  {
    var added := AddNext(seen, s, x);
    assert (s + [x])[..|s|] == s;
    out := out0;
    if added {
      out := out + [x];
    }
  }

  /**
   * The loop `foreach (element in source) if (set.Add(element)) yield return element;`
   * on a set that has already seen `prior` and yielded Distinct of it: afterwards it
   * has seen prior + source and the yield is Distinct of that.
   */
  method YieldAdded<T(0,!new)>(seen: Set<T>, ghost prior: seq<T>, source: seq<T>, out0: seq<T>) returns (out: seq<T>)
    requires Seen(seen, prior) && |prior| + |source| < 0x4000_0000
    requires out0 == Distinct(seen.comparer, prior)
    modifies seen.Repr
    ensures Seen(seen, prior + source) && fresh(seen.Repr - old(seen.Repr))
    ensures out == Distinct(seen.comparer, prior + source)
  {
    assert source[..0] == [] && prior + [] == prior;
    out := out0;
    for i := 0 to |source|
      invariant Seen(seen, prior + source[..i]) && fresh(seen.Repr - old(seen.Repr))
      invariant out == Distinct(seen.comparer, prior + source[..i])
    {
      TakeOneMore(prior, source, i);
      out := YieldNext(seen, prior + source[..i], source[i], out);
    }
    assert source[..|source|] == source;
  }

  /** The loop `foreach (element in source) set.Add(element);` on a set that has already seen `prior`. */
  method AddAll<T(0,!new)>(seen: Set<T>, ghost prior: seq<T>, source: seq<T>)
    requires Seen(seen, prior) && |prior| + |source| < 0x4000_0000
    modifies seen.Repr
    ensures Seen(seen, prior + source) && fresh(seen.Repr - old(seen.Repr))
  {
    assert source[..0] == [] && prior + [] == prior;
    for i := 0 to |source|
      invariant Seen(seen, prior + source[..i]) && fresh(seen.Repr - old(seen.Repr))
    {
      TakeOneMore(prior, source, i);
      var _ := AddNext(seen, prior + source[..i], source[i]);
    }
    assert source[..|source|] == source;
  }

  /**
   * The state of `_IntersectIterator`'s second loop after the elements p of first: the
   * set is valid and holds the classes of second that no element of p has.
   */
  ghost predicate Left<T(0,!new)>(seen: Set<T>, second: seq<T>, p: seq<T>)
    reads seen, seen.Repr
  {
    && seen.Valid()
    && forall w :: seen.Has(w) <==> HasEqual(seen.comparer, second, w) && !HasEqual(seen.comparer, p, w)
  }

  /** One step of `_IntersectIterator`'s second loop: `if (set.Remove(element)) yield return element;`. */
  method RemoveNext<T(0,!new)>(seen: Set<T>, ghost second: seq<T>, ghost p: seq<T>, x: T, out0: seq<T>) returns (out: seq<T>)
    requires Left(seen, second, p) && out0 == Intersect(seen.comparer, p, second)
    modifies seen.Repr
    ensures Left(seen, second, p + [x]) && seen.Repr == old(seen.Repr)
    ensures out == Intersect(seen.comparer, p + [x], second)
  {
    var removed := seen.Remove(x);
    forall w ensures HasEqual(seen.comparer, p + [x], w) <==> HasEqual(seen.comparer, p, w) || seen.comparer.equals(x, w) {
      HasEqualSnoc(seen.comparer, p, x, w);
    }
    assert (p + [x])[..|p|] == p;
    out := out0;
    if removed {
      out := out + [x];
    }
  }

  /** `_DistinctIterator`: yields each element the set accepts. */
  method DistinctIterator<T(0,!new)>(source: seq<T>, cmp: Comparer<T>) returns (out: seq<T>)
    requires ValidComparer(cmp) && |source| < 0x4000_0000
    ensures out == Distinct(cmp, source)
  {
    var seen := new Set<T>(cmp);
    out := YieldAdded(seen, [], source, []);
    assert [] + source == source;
  }

  /** `_UnionIterator`: yields each element of first and then of second that the set accepts. */
  method UnionIterator<T(0,!new)>(first: seq<T>, second: seq<T>, cmp: Comparer<T>) returns (out: seq<T>)
    requires ValidComparer(cmp) && |first| + |second| < 0x4000_0000
    ensures out == Union(cmp, first, second)
  {
    var seen := new Set<T>(cmp);
    out := YieldAdded(seen, [], first, []);
    assert [] + first == first;
    out := YieldAdded(seen, first, second, out);
  }

  /**
   * `_IntersectIterator`: the set is filled with second; then each element of first
   * that the set gives up on removal is yielded.
   */
  method IntersectIterator<T(0,!new)>(first: seq<T>, second: seq<T>, cmp: Comparer<T>) returns (out: seq<T>)
    requires ValidComparer(cmp) && |second| < 0x4000_0000
    ensures out == Intersect(cmp, first, second)
  {
    var seen := new Set<T>(cmp);
    AddAll(seen, [], second);
    assert [] + second == second;
    out := YieldRemoved(seen, second, first);
  }

  /**
   * The loop `foreach (element in first) if (set.Remove(element)) yield return element;`
   * on a set that holds the classes of second.
   */
  method YieldRemoved<T(0,!new)>(seen: Set<T>, ghost second: seq<T>, first: seq<T>) returns (out: seq<T>)
    requires Seen(seen, second)
    modifies seen.Repr
    ensures Left(seen, second, first) && seen.Repr == old(seen.Repr)
    ensures out == Intersect(seen.comparer, first, second)
  {
    assert first[..0] == [];
    out := [];
    for i := 0 to |first|
      invariant Left(seen, second, first[..i]) && seen.Repr == old(seen.Repr)
      invariant out == Intersect(seen.comparer, first[..i], second)
    {
      assert first[..i + 1] == first[..i] + [first[i]];
      out := RemoveNext(seen, second, first[..i], first[i], out);
    }
    assert first[..|first|] == first;
  }
}
