/**
 * The template-matching variant of the service (YourService_test.java): picking
 * the best template (getMxIndex), merging nearby match locations
 * (removeDuplicates) and finding the area that holds the target item.
 */
module TemplateMatching {
  import opened Wrappers

  /** An org.opencv.core.Point: a match location in the image. */
  datatype ImagePoint = ImagePoint(x: real, y: real)

  /** The square of calculateDistance. */
  function SqDist(p: ImagePoint, q: ImagePoint): (d: real)
    ensures d >= 0.0
  {
    (q.x - p.x) * (q.x - p.x) + (q.y - p.y) * (q.y - p.y)
  }

  /** The 10-pixel radius of removeDuplicates, squared. */
  const RadiusSquared: real := 100.0

  /** sqrt(d) <= 10 written without the square root: d <= 100. */
  predicate Near(p: ImagePoint, q: ImagePoint)
  {
    SqDist(p, q) <= RadiusSquared
  }

  predicate NearSome(p: ImagePoint, kept: seq<ImagePoint>)
  {
    exists q :: q in kept && Near(p, q)
  }

  /** The points removeDuplicates keeps: each one not near any point kept before it. */
  function Dedup(points: seq<ImagePoint>): (kept: seq<ImagePoint>)
    ensures |kept| <= |points|
  {
    if points == [] then []
    else
      var kept := Dedup(points[..|points| - 1]);
      var p := points[|points| - 1];
      if NearSome(p, kept) then kept else kept + [p]
  }

  /** Greedy de-duplication: a point is kept unless it lies within 10 of one already kept. */
  method RemoveDuplicates(points: seq<ImagePoint>) returns (uniquePoints: seq<ImagePoint>)
    ensures uniquePoints == Dedup(points)
  {
    uniquePoints := [];
    for i := 0 to |points|
      invariant uniquePoints == Dedup(points[..i])
    {
      assert points[..i + 1][..i] == points[..i];
      var point := points[i];
      var isIncluded := false;
      var j := 0;
      while j < |uniquePoints|
        invariant 0 <= j <= |uniquePoints|
        invariant isIncluded <==> exists k :: 0 <= k < j && Near(point, uniquePoints[k])
        invariant isIncluded ==> j > 0
      {
        var uniquePoint := uniquePoints[j];
        var distanceSquared := SqDist(point, uniquePoint);
        if distanceSquared <= RadiusSquared {
          isIncluded := true;
          j := j + 1;
          break;
        }
        j := j + 1;
      }
      if isIncluded {
        var k :| 0 <= k < j && Near(point, uniquePoints[k]);
        assert uniquePoints[k] in uniquePoints;
      } else {
        assert forall q :: q in uniquePoints ==> !Near(point, q);
        uniquePoints := uniquePoints + [point];
      }
    }
    assert points[..|points|] == points;
  }

  /** Every pair of kept points is more than 10 apart. */
  ghost predicate Separated(s: seq<ImagePoint>)
  {
    forall i, j :: 0 <= i < j < |s| ==> !Near(s[j], s[i])
  }

  lemma {:induction false} DedupSeparated(points: seq<ImagePoint>)
    ensures Separated(Dedup(points))
  {
    if points != [] {
      DedupSeparated(points[..|points| - 1]);
    }
  }

  /** Every input point lies within 10 of some kept point. */
  lemma {:induction false} DedupCovers(points: seq<ImagePoint>)
    ensures forall i :: 0 <= i < |points| ==> NearSome(points[i], Dedup(points))
  {
    if points != [] {
      var n := |points|;
      var prefix := points[..n - 1];
      DedupCovers(prefix);
      var p := points[n - 1];
      assert SqDist(p, p) == 0.0;
      forall i | 0 <= i < n
        ensures NearSome(points[i], Dedup(points))
      {
        if i < n - 1 {
          assert points[i] == prefix[i];
          var q :| q in Dedup(prefix) && Near(points[i], q);
          assert q in Dedup(points);
        } else if NearSome(p, Dedup(prefix)) {
          var q :| q in Dedup(prefix) && Near(p, q);
          assert q in Dedup(points);
        } else {
          assert p in Dedup(points);
        }
      }
    }
  }

  /** Subsequence: r can be obtained from s by deleting elements, order kept. */
  predicate IsSubsequence<T(==)>(r: seq<T>, s: seq<T>)
    decreases |s|
  {
    if r == [] then true
    else if s == [] then false
    else if r[|r| - 1] == s[|s| - 1] then IsSubsequence(r[..|r| - 1], s[..|s| - 1])
    else IsSubsequence(r, s[..|s| - 1])
  }

  lemma {:induction false} SubsequenceDropLast<T>(r: seq<T>, s: seq<T>)
    requires |s| > 0 && IsSubsequence(r, s[..|s| - 1])
    ensures IsSubsequence(r, s)
    decreases |s|, 0
  {
    if r != [] && r[|r| - 1] == s[|s| - 1] {
      // r is a subsequence of s without its last element, so r's prefix is one too
      SubsequencePrefix(r, s[..|s| - 1]);
    }
  }

  lemma {:induction false} SubsequencePrefix<T>(r: seq<T>, s: seq<T>)
    requires r != [] && IsSubsequence(r, s)
    ensures IsSubsequence(r[..|r| - 1], s)
    decreases |s|, 1
  {
    if s != [] {
      if r[|r| - 1] == s[|s| - 1] {
        SubsequenceDropLast(r[..|r| - 1], s);
      } else {
        SubsequencePrefix(r, s[..|s| - 1]);
        SubsequenceDropLast(r[..|r| - 1], s);
      }
    }
  }

  /** The output keeps input points in their input order. */
  lemma {:induction false} DedupIsSubsequence(points: seq<ImagePoint>)
    ensures IsSubsequence(Dedup(points), points)
  {
    if points != [] {
      var n := |points|;
      var prefix := points[..n - 1];
      DedupIsSubsequence(prefix);
      if NearSome(points[n - 1], Dedup(prefix)) {
        SubsequenceDropLast(Dedup(prefix), points);
      } else {
        var r := Dedup(points);
        assert r[..|r| - 1] == Dedup(prefix);
      }
    }
  }

  /** The first input point is always kept, at the front; an empty input gives an empty output. */
  lemma {:induction false} DedupKeepsFirst(points: seq<ImagePoint>)
    ensures points == [] <==> Dedup(points) == []
    ensures points != [] ==> Dedup(points)[0] == points[0]
  {
    if |points| > 1 {
      DedupKeepsFirst(points[..|points| - 1]);
    } else if |points| == 1 {
      assert points[..0] == [];
    }
  }

  /** A separated list is left as it is. */
  lemma {:induction false} DedupOfSeparated(points: seq<ImagePoint>)
    requires Separated(points)
    ensures Dedup(points) == points
  {
    if points != [] {
      var n := |points|;
      var prefix := points[..n - 1];
      assert Separated(prefix);
      DedupOfSeparated(prefix);
      assert prefix + [points[n - 1]] == points;
    }
  }

  /** Removing duplicates twice is removing them once. */
  lemma DedupIdempotent(points: seq<ImagePoint>)
    ensures Dedup(Dedup(points)) == Dedup(points)
  {
    DedupSeparated(points);
    DedupOfSeparated(Dedup(points));
  }

  /**
   * The index of the largest score; on a tie the first one, as the comparison is strict.
   * An empty array fails on its first read, as the Java indexing does.
   */
  method GetMxIndex(scores: array<int>) returns (r: Result<nat>)
    ensures scores.Length == 0 <==> r == Err(ArrayIndexOutOfBounds(0, 0))
    ensures scores.Length > 0 ==> r.Ok?
    ensures r.Ok? ==> r.value < scores.Length
    ensures r.Ok? ==> forall j :: 0 <= j < scores.Length ==> scores[j] <= scores[r.value]
    ensures r.Ok? ==> forall j :: 0 <= j < r.value ==> scores[j] < scores[r.value]
  {
    if scores.Length == 0 {
      return Err(ArrayIndexOutOfBounds(0, 0));
    }
    var max := scores[0];
    var maxIndex := 0;
    for i := 1 to scores.Length
      invariant maxIndex < i && max == scores[maxIndex]
      invariant forall j :: 0 <= j < i ==> scores[j] <= max
      invariant forall j :: 0 <= j < maxIndex ==> scores[j] < max
    {
      if scores[i] > max {
        max := scores[i];
        maxIndex := i;
      }
    }
    r := Ok(maxIndex);
  }

  /**
   * runPlan1's search for the area holding the target item: the first index whose item
   * equals the target, and 0 when none does.
   */
  method FindTargetArea(foundItems: array<string>, targetItem: string) returns (targetArea: nat)
    ensures foundItems.Length == 0 ==> targetArea == 0
    ensures foundItems.Length > 0 ==> targetArea < foundItems.Length
    ensures (exists i :: 0 <= i < foundItems.Length && foundItems[i] == targetItem) ==>
      foundItems[targetArea] == targetItem && forall j :: 0 <= j < targetArea ==> foundItems[j] != targetItem
    ensures (forall i :: 0 <= i < foundItems.Length ==> foundItems[i] != targetItem) ==> targetArea == 0
  {
    targetArea := 0;
    var i := 0;
    while i < foundItems.Length
      invariant 0 <= i <= foundItems.Length
      invariant targetArea == 0
      invariant forall j :: 0 <= j < i ==> foundItems[j] != targetItem
    {
      if foundItems[i] == targetItem {
        targetArea := i;
        break;
      }
      i := i + 1;
    }
  }
}
