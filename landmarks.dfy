/**
 * Landmark naming (YourService.getFirstLandmarkItem, the fallback chain of
 * handleSingleAreaDetection, the landmark catalog built by the constructor and
 * the unreported-name draw of getRandomUnreportedLandmark).
 */
module Landmarks {
  import opened Wrappers
  import opened JavaStrings
  import opened StableSort

  /** A Map.Entry<String, Integer> of a landmark-quantity map. */
  type Entry = (string, int)

  /** The comparator of getFirstLandmarkItem, compare(a, b) < 0: larger count first, then smaller name. */
  predicate EntryBefore(a: Entry, b: Entry)
  {
    a.1 > b.1 || (a.1 == b.1 && StrLess(a.0, b.0))
  }

  lemma EntryBeforeIsStrictWeakOrder()
    ensures StrictWeakOrder(EntryBefore)
  {
    forall a: Entry
      ensures !EntryBefore(a, a)
    {
      StrLessIrreflexive(a.0);
    }
    forall a: Entry, b: Entry, c: Entry | EntryBefore(a, b) && EntryBefore(b, c)
      ensures EntryBefore(a, c)
    {
      if a.1 == b.1 == c.1 {
        StrLessTransitive(a.0, b.0, c.0);
      }
    }
    forall a: Entry, b: Entry, c: Entry | EntryBefore(a, c)
      ensures EntryBefore(a, b) || EntryBefore(b, c)
    {
      if a.1 == b.1 == c.1 && b.0 != a.0 {
        StrLessTotal(a.0, b.0);
        if StrLess(b.0, a.0) {
          StrLessTransitive(b.0, a.0, c.0);
        }
      }
    }
  }

  /**
   * What getFirstLandmarkItem reports for a non-empty map: an entry of the map whose
   * count is the largest, and whose name is the smallest among those with that count.
   */
  ghost predicate IsFirstLandmark(items: map<string, int>, name: string, count: int)
  {
    && name in items && items[name] == count
    && forall k :: k in items ==> items[k] < count || (items[k] == count && (k == name || StrLess(name, k)))
  }

  /** The answer does not depend on the map's iteration order: it is unique. */
  lemma FirstLandmarkUnique(items: map<string, int>, n1: string, c1: int, n2: string, c2: int)
    requires IsFirstLandmark(items, n1, c1) && IsFirstLandmark(items, n2, c2)
    ensures n1 == n2 && c1 == c2
  {
    if n1 != n2 {
      assert StrLess(n1, n2) && StrLess(n2, n1);
      StrLessTransitive(n1, n2, n1);
      StrLessIrreflexive(n1);
    }
  }

  /**
   * Copies the entries (in the map's unspecified iteration order), sorts them with
   * the comparator and returns the first one. None for a null or empty map.
   */
  method GetFirstLandmarkItem(landmarkQuantities: Option<map<string, int>>) returns (r: Option<Entry>)
    ensures r.None? <==> landmarkQuantities.None? || |landmarkQuantities.value| == 0
    ensures r.Some? ==> IsFirstLandmark(landmarkQuantities.value, r.value.0, r.value.1)
  {
    if landmarkQuantities.None? || |landmarkQuantities.value| == 0 {
      return None;
    }
    var m := landmarkQuantities.value;
    var entries: seq<Entry> := [];
    var remaining := m.Keys;
    while remaining != {}
      invariant remaining <= m.Keys
      invariant forall i :: 0 <= i < |entries| ==> entries[i].0 in m && m[entries[i].0] == entries[i].1
      invariant forall k :: k in m.Keys - remaining ==> (k, m[k]) in entries
      decreases remaining
    {
      var k :| k in remaining;
      entries := entries + [(k, m[k])];
      remaining := remaining - {k};
    }
    var k0 :| k0 in m;
    assert (k0, m[k0]) in entries;
    var sortedEntries := SortBy(entries, EntryBefore);
    var firstEntry := sortedEntries[0];
    r := Some(firstEntry);

    var first := FirstMinIndex(entries, EntryBefore);
    SortBySelectsFirstMin(entries, EntryBefore);
    EntryBeforeIsStrictWeakOrder();
    FirstMinIndexIsEarliestMinimum(entries, EntryBefore);
    assert firstEntry == entries[first];
    forall k | k in m
      ensures m[k] < firstEntry.1 || (m[k] == firstEntry.1 && (k == firstEntry.0 || StrLess(firstEntry.0, k)))
    {
      var j :| 0 <= j < |entries| && entries[j] == (k, m[k]);
      assert !EntryBefore(entries[j], firstEntry);
      if k != firstEntry.0 {
        StrLessTotal(k, firstEntry.0);
      }
    }
  }

  /** The names the constructor leaves out of the landmark catalog. */
  predicate IsTreasureName(name: string)
  {
    name == "crystal" || name == "diamond" || name == "emerald"
  }

  /** availableLandmarkNames: the detector's class names without the treasures, in order. */
  function LandmarkCatalog(classNames: seq<string>): (catalog: seq<string>)
    ensures |catalog| <= |classNames|
  {
    if classNames == [] then []
    else
      var last := classNames[|classNames| - 1];
      LandmarkCatalog(classNames[..|classNames| - 1]) + (if IsTreasureName(last) then [] else [last])
  }

  lemma {:induction false} CatalogMembers(classNames: seq<string>, name: string)
    ensures name in LandmarkCatalog(classNames) <==> name in classNames && !IsTreasureName(name)
  {
    if classNames != [] {
      var n := |classNames|;
      CatalogMembers(classNames[..n - 1], name);
      assert classNames == classNames[..n - 1] + [classNames[n - 1]];
    }
  }

  /** The `unreported` list of getRandomUnreportedLandmark: catalog order, reported names dropped. */
  function Unreported(available: seq<string>, reported: set<string>): (unreported: seq<string>)
    ensures |unreported| <= |available|
  {
    if available == [] then []
    else
      var last := available[|available| - 1];
      Unreported(available[..|available| - 1], reported) + (if last in reported then [] else [last])
  }

  lemma {:induction false} UnreportedMembers(available: seq<string>, reported: set<string>, name: string)
    ensures name in Unreported(available, reported) <==> name in available && name !in reported
  {
    if available != [] {
      var n := |available|;
      UnreportedMembers(available[..n - 1], reported, name);
      assert available == available[..n - 1] + [available[n - 1]];
    }
  }

  /**
   * getRandomUnreportedLandmark with nextInt's draw given as `pick`: the drawn name and
   * the reported-name pool afterwards.
   */
  function Draw(available: seq<string>, reported: set<string>, pick: nat): (outcome: (string, set<string>))
    ensures outcome.1 == reported || outcome.1 == {}
  {
    var unreported := Unreported(available, reported);
    if |unreported| > 0 then (unreported[pick % |unreported|], reported)
    else if |available| > 0 then (available[pick % |available|], {})
    else ("unknown_landmark", {})
  }

  /**
   * While some catalog name is unreported the draw returns one of them and keeps the
   * pool; once all are reported the pool is cleared and any catalog name may come;
   * "unknown_landmark" is the answer only for an empty catalog.
   */
  lemma DrawOutcome(available: seq<string>, reported: set<string>, pick: nat)
    ensures var (name, pool) := Draw(available, reported, pick);
      && ((exists x :: x in available && x !in reported) ==> name in available && name !in reported && pool == reported)
      && ((forall x :: x in available ==> x in reported) ==> pool == {})
      && (if |available| == 0 then name == "unknown_landmark" else name in available)
  {
    var unreported := Unreported(available, reported);
    var (name, pool) := Draw(available, reported, pick);
    if |unreported| > 0 {
      UnreportedMembers(available, reported, unreported[pick % |unreported|]);
    } else {
      forall x | x in available
        ensures x in reported
      {
        UnreportedMembers(available, reported, x);
      }
    }
    if exists x :: x in available && x !in reported {
      var x :| x in available && x !in reported;
      UnreportedMembers(available, reported, x);
    }
  }

  /** Every unreported name can be drawn, so no name is excluded from the random choice. */
  lemma DrawReachesEveryUnreported(available: seq<string>, reported: set<string>, name: string)
    requires name in available && name !in reported
    ensures exists pick: nat :: Draw(available, reported, pick).0 == name
  {
    UnreportedMembers(available, reported, name);
    var unreported := Unreported(available, reported);
    var i :| 0 <= i < |unreported| && unreported[i] == name;
    assert unreported[i % |unreported|] == name by {
      assert i % |unreported| == i;
    }
    assert Draw(available, reported, i).0 == name;
  }

  /** Drawing from the catalog never yields a treasure name. */
  lemma DrawNeverTreasure(classNames: seq<string>, reported: set<string>, pick: nat)
    ensures !IsTreasureName(Draw(LandmarkCatalog(classNames), reported, pick).0)
  {
    var catalog := LandmarkCatalog(classNames);
    DrawOutcome(catalog, reported, pick);
    var name := Draw(catalog, reported, pick).0;
    CatalogMembers(classNames, name);
  }

  /** Non-null, non-empty and not "unknown". */
  predicate ValidName(name: Option<string>)
  {
    name.Some? && name.value != "" && name.value != "unknown"
  }

  /** The source of the reported name, in priority order. */
  datatype NamingStep = FromAreaId | FromHighestConfidence | FromQuantities | FromRandomDraw

  /** The first step of the fallback chain whose evidence is present. */
  function ChosenStep(inferred: Option<string>, highest: Option<string>, items: map<string, int>): (step: NamingStep)
    ensures step == FromRandomDraw ==> |items| == 0
  {
    if ValidName(inferred) then FromAreaId
    else if ValidName(highest) then FromHighestConfidence
    else if |items| > 0 then FromQuantities
    else FromRandomDraw
  }

  /** landmark_items.getOrDefault(name, 1), raised to 1 when it is 0. */
  function HighestConfidenceCount(items: map<string, int>, name: string): (count: int)
    ensures count != 0
  {
    var c := if name in items then items[name] else 1;
    if c == 0 then 1 else c
  }

  /**
   * Steps 1 to 3 of the fallback chain of handleSingleAreaDetection; None means the chain
   * falls through to the random draw (step 4).
   */
  method NameFromEvidence(inferred: Option<string>, highest: Option<string>, items: map<string, int>)
    returns (choice: Option<Entry>)
    ensures choice.None? <==> ChosenStep(inferred, highest, items) == FromRandomDraw
    ensures ChosenStep(inferred, highest, items) == FromAreaId ==> choice == Some((inferred.value, 1))
    ensures ChosenStep(inferred, highest, items) == FromHighestConfidence ==>
      choice == Some((highest.value, HighestConfidenceCount(items, highest.value)))
    ensures ChosenStep(inferred, highest, items) == FromQuantities ==>
      choice.Some? && IsFirstLandmark(items, choice.value.0, choice.value.1)
    ensures choice.Some? && (forall k :: k in items ==> items[k] >= 1) ==> choice.value.1 >= 1
  {
    if ValidName(inferred) {
      choice := Some((inferred.value, 1));
    } else if ValidName(highest) {
      choice := Some((highest.value, HighestConfidenceCount(items, highest.value)));
    } else {
      var firstLandmark := GetFirstLandmarkItem(Some(items));
      if firstLandmark.Some? {
        // the count travels as String.valueOf and comes back through Integer.parseInt
        var (landmarkName, count) := firstLandmark.value;
        ParseIntOfIntToString(count);
        choice := Some((landmarkName, ParseInt(IntToString(count)).value));
      } else {
        choice := None;
      }
    }
  }
}
