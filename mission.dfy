/**
 * The mission state of YourService and the operations that change it:
 * handleSingleAreaDetection (per-area fusion and the landmark fallback chain),
 * getRandomUnreportedLandmark, the report-point refinement of imageEnhanceAndCrop,
 * and findTreasureInArea, which answers the final recognition query.
 */
module Mission {
  import opened Wrappers
  import opened JavaStrings
  import opened Landmarks
  import opened ReportPoints

  /** What the classifier returns for one enhanced image (detectitemfromcvimg). */
  datatype Detection = Detection(landmarks: map<string, int>, treasures: set<string>, highest: Option<string>)

  /** The key of an area's landmark map: "area" + areaId. */
  function AreaKey(areaId: int): (key: string)
    ensures |key| > 4 && key[..4] == "area"
  {
    "area" + IntToString(areaId)
  }

  /** Different areas never share a landmark record. */
  lemma AreaKeyInjective(a: int, b: int)
    requires AreaKey(a) == AreaKey(b)
    ensures a == b
  {
    assert IntToString(a) == AreaKey(a)[4..];
    assert IntToString(b) == AreaKey(b)[4..];
    IntToStringInjective(a, b);
  }

  predicate InArea(areaTreasure: map<int, set<string>>, areaId: int, treasureType: string)
  {
    areaId in areaTreasure && treasureType in areaTreasure[areaId]
  }

  /**
   * The lowest area id in 1..4 whose treasure set holds the label, or 0 when none does.
   * A missing (null) set counts as not holding it.
   */
  method FindTreasureInArea(treasureType: string, areaTreasure: map<int, set<string>>) returns (areaId: int)
    ensures 0 <= areaId <= 4
    ensures areaId == 0 <==> forall a :: 1 <= a <= 4 ==> !InArea(areaTreasure, a, treasureType)
    ensures areaId != 0 ==> InArea(areaTreasure, areaId, treasureType)
    ensures forall a :: 1 <= a < areaId ==> !InArea(areaTreasure, a, treasureType)
  {
    areaId := 1;
    while areaId <= 4
      invariant 1 <= areaId <= 5
      invariant forall a :: 1 <= a < areaId ==> !InArea(areaTreasure, a, treasureType)
    {
      if areaId in areaTreasure && treasureType in areaTreasure[areaId] {
        assert InArea(areaTreasure, areaId, treasureType);
        return areaId;
      }
      areaId := areaId + 1;
    }
    return 0;
  }

  /** The landmark names and counts handleSingleAreaDetection works from: empty without an image. */
  function EvidenceItems(detection: Option<Detection>): (items: map<string, int>)
  {
    if detection.Some? then detection.value.landmarks else map[]
  }

  function EvidenceHighest(detection: Option<Detection>): (highest: Option<string>)
  {
    if detection.Some? then detection.value.highest else None
  }

  /** foundLandmarks gains the highest-confidence name if there is one, else every detected name. */
  function DetectedLandmarks(d: Detection): (names: set<string>)
  {
    if d.highest.Some? then {d.highest.value} else d.landmarks.Keys
  }

  class MissionState {
    var foundTreasures: set<string>
    var foundLandmarks: set<string>
    var areaLandmarks: map<string, map<string, int>>
    var areaTreasure: map<int, set<string>>
    /** reportPoints[areaId - 1]; None is a slot not yet refined (null). */
    const reportPoints: array<Option<Point>>
    var reportedLandmarkNames: set<string>
    const availableLandmarkNames: seq<string>
    /** YOLODetectionService.getClassName; an id without an entry yields null. */
    const classNameOf: map<int, string>

    ghost predicate Valid()
      reads this
    {
      && reportPoints.Length == 4
      && (forall a :: a in areaTreasure ==> areaTreasure[a] <= foundTreasures)
      && (forall i :: 0 <= i < |availableLandmarkNames| ==> !IsTreasureName(availableLandmarkNames[i]))
    }

    function InferredName(areaId: int): (name: Option<string>)
    {
      if areaId in classNameOf then Some(classNameOf[areaId]) else None
    }

    /** The constructor keeps every class name of the detector except the three treasures. */
    constructor (classNames: seq<string>, classNameOf: map<int, string>)
      ensures Valid() && fresh(reportPoints)
      ensures availableLandmarkNames == LandmarkCatalog(classNames)
      ensures this.classNameOf == classNameOf
      ensures foundTreasures == {} && foundLandmarks == {} && reportedLandmarkNames == {}
      ensures areaLandmarks == map[] && areaTreasure == map[]
      ensures reportPoints[..] == [None, None, None, None]
    {
      var names: seq<string> := [];
      for i := 0 to |classNames|
        invariant names == LandmarkCatalog(classNames[..i])
      {
        assert classNames[..i + 1][..i] == classNames[..i];
        var name := classNames[i];
        if !(name == "crystal" || name == "diamond" || name == "emerald") {
          names := names + [name];
        }
      }
      assert classNames[..|classNames|] == classNames;
      availableLandmarkNames := names;
      this.classNameOf := classNameOf;
      reportPoints := new Option<Point>[4](_ => None);
      foundTreasures, foundLandmarks, reportedLandmarkNames := {}, {}, {};
      areaLandmarks, areaTreasure := map[], map[];
      new;
      forall i | 0 <= i < |availableLandmarkNames|
        ensures !IsTreasureName(availableLandmarkNames[i])
      {
        CatalogMembers(classNames, availableLandmarkNames[i]);
      }
    }

    /** Mission start: every area 1..4 gets an empty treasure set. */
    method InitAreaTreasure()
      requires Valid()
      modifies this
      ensures Valid()
      ensures areaTreasure == old(areaTreasure)[1 := {}][2 := {}][3 := {}][4 := {}]
      ensures foundTreasures == old(foundTreasures) && foundLandmarks == old(foundLandmarks)
      ensures areaLandmarks == old(areaLandmarks) && reportedLandmarkNames == old(reportedLandmarkNames)
    {
      for i := 0 to 4
        invariant Valid()
        invariant forall a :: a in areaTreasure <==> a in old(areaTreasure) || 1 <= a <= i
        invariant forall a :: a in areaTreasure ==> areaTreasure[a] == if 1 <= a <= i then {} else old(areaTreasure)[a]
        invariant foundTreasures == old(foundTreasures) && foundLandmarks == old(foundLandmarks)
        invariant areaLandmarks == old(areaLandmarks) && reportedLandmarkNames == old(reportedLandmarkNames)
      {
        areaTreasure := areaTreasure[i + 1 := {}];
      }
    }

    /**
     * The report-point refinement: the area's slot becomes its base point moved by the
     * marker offset in robot axes; other slots keep their values, and an area id
     * outside 1..4 (0 is the target image) writes nothing.
     */
    method UpdateReportPoint(areaId: int, offset: Point)
      requires Valid()
      modifies reportPoints
      ensures Valid()
      ensures 1 <= areaId <= 4 ==>
        var base := BasePointForArea(areaId).value;
        reportPoints[areaId - 1] == Some(Point(base.x + offset.z, base.y - offset.x, base.z - offset.y))
      ensures forall i :: 0 <= i < 4 && i != areaId - 1 ==> reportPoints[i] == old(reportPoints[i])
    {
      var basePointForArea := BasePointForArea(areaId);
      if basePointForArea.Some? {
        reportPoints[areaId - 1] := Some(AdjustedPoint(basePointForArea.value, offset));
      }
    }

    /**
     * Draws a catalog name that has not been reported yet; when every one has been,
     * the reported pool is cleared first. `pick` plays the part of Random.nextInt.
     */
    method GetRandomUnreportedLandmark(pick: nat) returns (name: string)
      requires Valid()
      modifies this
      ensures Valid()
      ensures (name, reportedLandmarkNames) == Draw(availableLandmarkNames, old(reportedLandmarkNames), pick)
      ensures !IsTreasureName(name)
      ensures foundTreasures == old(foundTreasures) && foundLandmarks == old(foundLandmarks)
      ensures areaLandmarks == old(areaLandmarks) && areaTreasure == old(areaTreasure)
    {
      var unreported: seq<string> := [];
      for i := 0 to |availableLandmarkNames|
        invariant unreported == Unreported(availableLandmarkNames[..i], reportedLandmarkNames)
      {
        assert availableLandmarkNames[..i + 1][..i] == availableLandmarkNames[..i];
        var landmark := availableLandmarkNames[i];
        if landmark !in reportedLandmarkNames {
          unreported := unreported + [landmark];
        }
      }
      assert availableLandmarkNames[..|availableLandmarkNames|] == availableLandmarkNames;
      DrawOutcome(availableLandmarkNames, reportedLandmarkNames, pick);
      if |unreported| > 0 {
        return unreported[pick % |unreported|];
      }
      reportedLandmarkNames := {};
      if |availableLandmarkNames| > 0 {
        return availableLandmarkNames[pick % |availableLandmarkNames|];
      }
      return "unknown_landmark";
    }

    /**
     * Fuses one area's classifier result into the mission state and picks the name
     * reported for the area. With an image, the area's landmark map is replaced and its
     * treasures are added to the area's set and to the mission-wide set; without one,
     * those stay as they were. The name comes from the first step of the fallback chain
     * that applies; the returned pair is what setAreaInfo receives.
     */
    method HandleSingleAreaDetection(areaId: int, detection: Option<Detection>, pick: nat)
      returns (name: string, count: int)
      requires Valid()
      requires detection.Some? ==> areaId in areaTreasure
      modifies this
      ensures Valid()
      ensures detection.Some? ==>
        && areaLandmarks == old(areaLandmarks)[AreaKey(areaId) := detection.value.landmarks]
        && areaTreasure == old(areaTreasure)[areaId := old(areaTreasure)[areaId] + detection.value.treasures]
        && foundTreasures == old(foundTreasures) + detection.value.treasures
        && foundLandmarks == old(foundLandmarks) + DetectedLandmarks(detection.value)
      ensures detection.None? ==>
        && areaLandmarks == old(areaLandmarks) && areaTreasure == old(areaTreasure)
        && foundTreasures == old(foundTreasures) && foundLandmarks == old(foundLandmarks)
      ensures
        var items, highest := EvidenceItems(detection), EvidenceHighest(detection);
        match ChosenStep(InferredName(areaId), highest, items)
        case FromAreaId =>
          (name, count) == (InferredName(areaId).value, 1)
          && reportedLandmarkNames == old(reportedLandmarkNames) + {name}
        case FromHighestConfidence =>
          (name, count) == (highest.value, HighestConfidenceCount(items, highest.value))
          && reportedLandmarkNames == old(reportedLandmarkNames) + {name}
        case FromQuantities =>
          IsFirstLandmark(items, name, count)
          && reportedLandmarkNames == old(reportedLandmarkNames) + {name}
        case FromRandomDraw =>
          var (drawn, pool) := Draw(availableLandmarkNames, old(reportedLandmarkNames), pick);
          name == drawn && count == 1 && reportedLandmarkNames == pool + {name}
      ensures detection.None? ==> ChosenStep(InferredName(areaId), None, map[]) in {FromAreaId, FromRandomDraw}
    {
      var landmarkItems: map<string, int> := map[];
      var highestConfLandmarkName: Option<string> := None;
      var inferredLandmarkName := InferredName(areaId);

      if detection.Some? {
        landmarkItems := detection.value.landmarks;
        var treasureTypes := detection.value.treasures;
        highestConfLandmarkName := detection.value.highest;
        areaLandmarks := areaLandmarks[AreaKey(areaId) := landmarkItems];
        foundTreasures := foundTreasures + treasureTypes;
        if highestConfLandmarkName.Some? {
          foundLandmarks := foundLandmarks + {highestConfLandmarkName.value};
        } else {
          foundLandmarks := foundLandmarks + landmarkItems.Keys;
        }
        areaTreasure := areaTreasure[areaId := areaTreasure[areaId] + treasureTypes];
      }

      var choice := NameFromEvidence(inferredLandmarkName, highestConfLandmarkName, landmarkItems);
      if choice.Some? {
        name, count := choice.value.0, choice.value.1;
      } else {
        name := GetRandomUnreportedLandmark(pick);
        count := 1;
      }
      reportedLandmarkNames := reportedLandmarkNames + {name};
    }
  }
}
