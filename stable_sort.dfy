/**
 * java.util.Collections.sort with a Comparator: a stable sort. An element is
 * moved ahead of another only when the comparator says it is strictly smaller,
 * so elements that compare equal keep their list order. `before(a, b)` stands
 * for compare(a, b) < 0.
 */
module StableSort {

  ghost predicate StrictWeakOrder<T(!new)>(before: (T, T) -> bool)
  {
    && (forall a :: !before(a, a))
    && (forall a, b, c :: before(a, b) && before(b, c) ==> before(a, c))
    && (forall a, b, c :: before(a, c) ==> before(a, b) || before(b, c))
  }

  /** No element is strictly smaller than one that precedes it. */
  ghost predicate Sorted<T>(s: seq<T>, before: (T, T) -> bool)
  {
    forall i, j :: 0 <= i < j < |s| ==> !before(s[j], s[i])
  }

  /** Places x in front of the first element it is strictly smaller than. */
  function Insert<T>(sorted: seq<T>, x: T, before: (T, T) -> bool): (r: seq<T>)
    ensures |r| == |sorted| + 1
  {
    if sorted == [] then [x]
    else if before(x, sorted[0]) then [x] + sorted
    else [sorted[0]] + Insert(sorted[1..], x, before)
  }

  /** The list Collections.sort leaves behind: each element inserted in list order. */
  function SortBy<T>(s: seq<T>, before: (T, T) -> bool): (r: seq<T>)
    ensures |r| == |s|
  {
    if s == [] then [] else Insert(SortBy(s[..|s| - 1], before), s[|s| - 1], before)
  }

  function RemoveAt<T>(s: seq<T>, k: nat): (r: seq<T>)
    requires k < |s|
    ensures |r| == |s| - 1
  {
    s[..k] + s[k + 1..]
  }

  /** Index of the first element that no other element is strictly smaller than. */
  function FirstMinIndex<T>(s: seq<T>, before: (T, T) -> bool): (k: nat)
    requires |s| > 0
    ensures k < |s|
  {
    if |s| == 1 then 0
    else
      var k' := FirstMinIndex(s[..|s| - 1], before);
      if before(s[|s| - 1], s[k']) then |s| - 1 else k'
  }

  lemma {:induction false} InsertPermutation<T>(sorted: seq<T>, x: T, before: (T, T) -> bool)
    ensures multiset(Insert(sorted, x, before)) == multiset(sorted) + multiset{x}
  {
    if sorted != [] && !before(x, sorted[0]) {
      InsertPermutation(sorted[1..], x, before);
      assert sorted == [sorted[0]] + sorted[1..];
    }
  }

  /** The sorted list holds exactly the input's elements, with their multiplicities. */
  lemma {:induction false} SortByPermutation<T>(s: seq<T>, before: (T, T) -> bool)
    ensures multiset(SortBy(s, before)) == multiset(s)
  {
    if s != [] {
      SortByPermutation(s[..|s| - 1], before);
      InsertPermutation(SortBy(s[..|s| - 1], before), s[|s| - 1], before);
      assert s == s[..|s| - 1] + [s[|s| - 1]];
    }
  }

  lemma {:induction false} InsertSorted<T(!new)>(sorted: seq<T>, x: T, before: (T, T) -> bool)
    requires StrictWeakOrder(before)
    requires Sorted(sorted, before)
    ensures Sorted(Insert(sorted, x, before), before)
  {
    if sorted != [] && !before(x, sorted[0]) {
      var rest := sorted[1..];
      InsertSorted(rest, x, before);
      InsertPermutation(rest, x, before);
      var r := Insert(sorted, x, before);
      forall j | 0 < j < |r|
        ensures !before(r[j], r[0])
      {
        assert r[j] in multiset(rest) + multiset{x};
        if r[j] != x {
          assert r[j] in rest;
        }
      }
    }
  }

  lemma {:induction false} SortBySorted<T(!new)>(s: seq<T>, before: (T, T) -> bool)
    requires StrictWeakOrder(before)
    ensures Sorted(SortBy(s, before), before)
  {
    if s != [] {
      SortBySorted(s[..|s| - 1], before);
      InsertSorted(SortBy(s[..|s| - 1], before), s[|s| - 1], before);
    }
  }

  /** An element not smaller than the head is inserted behind it. */
  lemma InsertBehindHead<T>(m: T, sortedRest: seq<T>, x: T, before: (T, T) -> bool)
    requires !before(x, m)
    ensures Insert([m] + sortedRest, x, before) == [m] + Insert(sortedRest, x, before)
  {
    assert ([m] + sortedRest)[1..] == sortedRest;
  }

  /** Sorting a list with one more element at the end inserts that element. */
  lemma SortBySnoc<T>(rest: seq<T>, x: T, before: (T, T) -> bool)
    ensures SortBy(rest + [x], before) == Insert(SortBy(rest, before), x, before)
  {
    assert (rest + [x])[..|rest|] == rest;
  }

  /** Removing the minimum from a list extended at the end. */
  lemma RemoveAtSnoc<T>(s: seq<T>, k: nat)
    requires k < |s| - 1
    ensures RemoveAt(s, k) == RemoveAt(s[..|s| - 1], k) + [s[|s| - 1]]
  {
  }

  /**
   * Stability, stated as selection: the sorted list starts with the first
   * minimal element, followed by the sorted rest. Holds for any comparator.
   */
  lemma {:induction false} SortBySelectsFirstMin<T>(s: seq<T>, before: (T, T) -> bool)
    requires |s| > 0
    ensures SortBy(s, before) == [s[FirstMinIndex(s, before)]] + SortBy(RemoveAt(s, FirstMinIndex(s, before)), before)
  {
    var n := |s|;
    if n > 1 {
      var s', x := s[..n - 1], s[n - 1];
      var k' := FirstMinIndex(s', before);
      SortBySelectsFirstMin(s', before);
      var m, rest := s'[k'], RemoveAt(s', k');
      assert SortBy(s, before) == Insert([m] + SortBy(rest, before), x, before);
      if !before(x, m) {
        InsertBehindHead(m, SortBy(rest, before), x, before);
        SortBySnoc(rest, x, before);
        RemoveAtSnoc(s, k');
      } else {
        assert RemoveAt(s, n - 1) == s';
      }
    }
  }

  /** The first minimal element is not beaten by any element and beats every earlier one. */
  lemma {:induction false} FirstMinIndexIsEarliestMinimum<T(!new)>(s: seq<T>, before: (T, T) -> bool)
    requires StrictWeakOrder(before)
    requires |s| > 0
    ensures forall j :: 0 <= j < |s| ==> !before(s[j], s[FirstMinIndex(s, before)])
    ensures forall j :: 0 <= j < FirstMinIndex(s, before) ==> before(s[FirstMinIndex(s, before)], s[j])
  {
    var n := |s|;
    if n > 1 {
      var s' := s[..n - 1];
      FirstMinIndexIsEarliestMinimum(s', before);
      var k' := FirstMinIndex(s', before);
      assert forall j :: 0 <= j < n - 1 ==> s[j] == s'[j];
    }
  }
}
