/**
 * The positional operators of `_Enumerable`: `_Select`, `_SelectMany`, `_Take`,
 * `_Skip`, `_TakeWhile`, `_SkipWhile`, `_First` and both `_FirstOrDefault`s.
 *
 * Each iterator is modelled as the whole sequence it yields from a finite source;
 * selectors and predicates are Dafny function values. Each function is defined the
 * way its loop walks the source and its contract states the result in closed form
 * (a slice, an index-wise map, a first witness); lemmas relate the operators.
 */
module Positional {
  import opened Limits

  datatype Option<T> = None | Some(value: T)

  function Min(a: int, b: int): int
  {
    if a <= b then a else b
  }

  // ---------------------------------------------------------------------------
  // Select and SelectMany

  /**
   * `_SelectIterator`: each element together with its position. The position counter
   * is a checked `int` that starts at -1 and is incremented before each element, so
   * a source of more than 2^31 elements overflows it.
   */
  function Select<S, R>(source: seq<S>, selector: (S, int) -> R): (r: seq<R>)
    requires |source| <= Int32Max + 1
    ensures |r| == |source|
    ensures forall i :: 0 <= i < |source| ==> r[i] == selector(source[i], i)
  {
    if source == [] then []
    else Select(source[..|source| - 1], selector) + [selector(source[|source| - 1], |source| - 1)]
  }

  /**
   * The inner loop of `_SelectManyIterator` for one source element x: the results
   * yielded so far, one resultSelector call per sub-element, in order.
   */
  function Expand<S, C, R>(x: S, sub: seq<C>, resultSelector: (S, C) -> R): (r: seq<R>)
    ensures |r| == |sub|
    ensures forall j :: 0 <= j < |sub| ==> r[j] == resultSelector(x, sub[j])
  {
    if sub == [] then []
    else Expand(x, sub[..|sub| - 1], resultSelector) + [resultSelector(x, sub[|sub| - 1])]
  }

  /** The concatenation of a sequence of sequences. */
  function Flatten<R>(parts: seq<seq<R>>): seq<R>
  {
    if parts == [] then [] else Flatten(parts[..|parts| - 1]) + parts[|parts| - 1]
  }

  /**
   * `_SelectManyIterator`: for each element in order (with its checked position), the
   * results of resultSelector over the sub-collection collectionSelector gives it.
   */
  function SelectMany<S, C, R>(source: seq<S>, collectionSelector: (S, int) -> seq<C>, resultSelector: (S, C) -> R): (r: seq<R>)
    requires |source| <= Int32Max + 1
    ensures source == [] ==> r == []
    ensures |r| == TotalLength(source, collectionSelector)
  {
    if source == [] then []
    else
      var p, x := source[..|source| - 1], source[|source| - 1];
      SelectMany(p, collectionSelector, resultSelector) + Expand(x, collectionSelector(x, |p|), resultSelector)
  }

  /** SelectMany is Select followed by flattening: the sub-results come out whole and in source order. */
  lemma {:induction false} SelectManyIsFlattenSelect<S, C, R>(source: seq<S>, collectionSelector: (S, int) -> seq<C>, resultSelector: (S, C) -> R)
    requires |source| <= Int32Max + 1
    ensures SelectMany(source, collectionSelector, resultSelector)
         == Flatten(Select(source, (x, i) => Expand(x, collectionSelector(x, i), resultSelector)))
    decreases |source|
  {
    var f := (x, i) => Expand(x, collectionSelector(x, i), resultSelector);
    if source != [] {
      var p := source[..|source| - 1];
      SelectManyIsFlattenSelect(p, collectionSelector, resultSelector);
      var parts := Select(source, f);
      assert parts[..|parts| - 1] == Select(p, f);
    }
  }

  /** The total length of the sub-collections collectionSelector gives the elements of source, in order. */
  function TotalLength<S, C>(source: seq<S>, collectionSelector: (S, int) -> seq<C>): nat
  {
    if source == [] then 0
    else
      var p := source[..|source| - 1];
      TotalLength(p, collectionSelector) + |collectionSelector(source[|source| - 1], |p|)|
  }

  /** Select on a prefix is the prefix of the Select: positions do not depend on what follows. */
  lemma SelectPrefix<S, R>(source: seq<S>, selector: (S, int) -> R, n: int)
    requires |source| <= Int32Max + 1 && 0 <= n <= |source|
    ensures Select(source[..n], selector) == Select(source, selector)[..n]
  {
  }

  // ---------------------------------------------------------------------------
  // Take and Skip

  /**
   * `_TakeIterator`: nothing when count <= 0; otherwise elements are yielded and count
   * is decremented until it reaches 0 or the source ends.
   */
  function Take<T>(source: seq<T>, count: int): (r: seq<T>)
    ensures count <= 0 ==> r == []
    ensures count > 0 ==> r == source[..Min(count, |source|)]
    decreases |source|
  {
    if count <= 0 || source == [] then []
    else [source[0]] + Take(source[1..], count - 1)
  }

  /**
   * `_SkipIterator`: while count > 0 and the source has elements, one is consumed and
   * count decremented; the rest is yielded only when count has reached 0 or below,
   * so a source shorter than count yields nothing.
   */
  function Skip<T>(source: seq<T>, count: int): (r: seq<T>)
    ensures count <= 0 ==> r == source
    ensures count > 0 ==> r == source[Min(count, |source|)..]
    decreases |source|
  {
    if count <= 0 then source
    else if source == [] then []
    else Skip(source[1..], count - 1)
  }

  /** Take and Skip split the source at the same place, for every count. */
  lemma TakeSkip<T>(source: seq<T>, count: int)
    ensures Take(source, count) + Skip(source, count) == source
  {
    if count > 0 {
      assert source[..Min(count, |source|)] + source[Min(count, |source|)..] == source;
    }
  }

  /** Two Takes are the Take of the smaller count. */
  lemma TakeTake<T>(source: seq<T>, a: int, b: int)
    ensures Take(Take(source, a), b) == Take(source, Min(a, b))
  {
    if a > 0 && b > 0 {
      var m := Min(a, |source|);
      assert source[..m][..Min(b, m)] == source[..Min(Min(a, b), |source|)];
    }
  }

  /** Two Skips of non-negative counts are one Skip of their sum. */
  lemma SkipSkip<T>(source: seq<T>, a: int, b: int)
    requires a >= 0 && b >= 0
    ensures Skip(Skip(source, a), b) == Skip(source, a + b)
  {
  }

  /** Taking from a Select is selecting from the Take: the positions are the same. */
  lemma TakeSelect<S, R>(source: seq<S>, selector: (S, int) -> R, count: int)
    requires |source| <= Int32Max + 1
    ensures Take(Select(source, selector), count) == Select(Take(source, count), selector)
  {
    if count > 0 {
      SelectPrefix(source, selector, Min(count, |source|));
    }
  }

  // ---------------------------------------------------------------------------
  // TakeWhile and SkipWhile

  /** `_TakeWhileIterator`: elements are yielded until the first one the predicate rejects. */
  function TakeWhile<T>(source: seq<T>, pred: T -> bool): (r: seq<T>)
    ensures |r| <= |source| && r == source[..|r|]
    ensures forall i :: 0 <= i < |r| ==> pred(r[i])
    ensures |r| < |source| ==> !pred(source[|r|])
  {
    if source == [] || !pred(source[0]) then []
    else [source[0]] + TakeWhile(source[1..], pred)
  }

  /**
   * `_SkipWhileIterator`: elements are skipped while the predicate accepts them; from
   * the first one it rejects on (the `yielding` flag is set) everything is yielded,
   * without asking the predicate again.
   */
  function SkipWhile<T>(source: seq<T>, pred: T -> bool): (r: seq<T>)
    ensures |r| <= |source| && r == source[|source| - |r|..]
    ensures forall i :: 0 <= i < |source| - |r| ==> pred(source[i])
    ensures r != [] ==> !pred(r[0])
  {
    if source == [] then []
    else if pred(source[0]) then SkipWhile(source[1..], pred)
    else source
  }

  /** TakeWhile and SkipWhile split the source at the first element the predicate rejects. */
  lemma TakeWhileSkipWhile<T>(source: seq<T>, pred: T -> bool)
    ensures TakeWhile(source, pred) + SkipWhile(source, pred) == source
  {
    var t, d := TakeWhile(source, pred), SkipWhile(source, pred);
    var k := |source| - |d|;
    if |t| < k {
      assert false;
    } else if k < |t| {
      assert false;
    }
    assert source == source[..k] + source[k..];
  }

  // ---------------------------------------------------------------------------
  // First and FirstOrDefault

  /**
   * `_First`: the first element the predicate accepts; when there is none the source
   * throws, which is `None` here.
   */
  function First<T>(source: seq<T>, pred: T -> bool): (r: Option<T>)
    ensures r.None? <==> forall i :: 0 <= i < |source| ==> !pred(source[i])
    ensures r.Some? ==> exists i :: 0 <= i < |source| && source[i] == r.value && pred(source[i])
                          && forall j :: 0 <= j < i ==> !pred(source[j])
  {
    if source == [] then None
    else if pred(source[0]) then Some(source[0])
    else
      var r := First(source[1..], pred);
      assert r.Some? ==> exists i :: 0 <= i < |source| && source[i] == r.value && pred(source[i])
                          && forall j :: 0 <= j < i ==> !pred(source[j]) by {
        if r.Some? {
          var i :| 0 <= i < |source[1..]| && source[1..][i] == r.value && pred(source[1..][i])
                   && forall j :: 0 <= j < i ==> !pred(source[1..][j]);
          assert forall j :: 0 <= j < i + 1 ==> !pred(source[j]) by {
            forall j | 0 <= j < i + 1 ensures !pred(source[j]) {
              if j > 0 {
                assert source[j] == source[1..][j - 1];
              }
            }
          }
        }
      }
      r
  }

  /** `_FirstOrDefault` without a predicate: the first element, or the type's default (dflt) when empty. */
  function FirstOrDefault<T>(source: seq<T>, dflt: T): (r: T)
    ensures r == match First(source, _ => true) case Some(v) => v case None => dflt
  {
    if |source| > 0 then source[0] else dflt
  }

  /**
   * `_FirstOrDefault` with a predicate: the first element the predicate accepts, or the
   * type's default (dflt) when there is none.
   */
  function FirstOrDefaultWhere<T>(source: seq<T>, pred: T -> bool, dflt: T): (r: T)
    ensures r == match First(source, pred) case Some(v) => v case None => dflt
  {
    if source == [] then dflt
    else if pred(source[0]) then source[0]
    else FirstOrDefaultWhere(source[1..], pred, dflt)
  }

  /** FirstOrDefault is FirstOrDefaultWhere with the predicate that accepts everything. */
  lemma FirstOrDefaultAll<T>(source: seq<T>, dflt: T)
    ensures FirstOrDefault(source, dflt) == FirstOrDefaultWhere(source, _ => true, dflt)
  {
  }
}
