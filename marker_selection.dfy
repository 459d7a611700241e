/**
 * Marker selection (YourService.keepClosestMarker, getTwoMarkersByPosition and
 * the left/right area assignment of runPlan1). The marker detector and the pose
 * estimator are not modelled: their outputs arrive as Observations, one per
 * detected marker, in detection order.
 */
module MarkerSelection {
  import opened Wrappers
  import opened StableSort

  /** Image-plane corner coordinates of one marker, as the detector returns them. */
  type Corners = seq<(real, real)>

  /**
   * One detected marker: its id, its corners, and the translation vector the pose
   * estimator produced for it (None for a null row; it may also be too short).
   */
  datatype Observation = Observation(id: int, corners: Corners, tvec: Option<seq<real>>)

  /** YourService.MarkerInfo: id, corners, camera-frame x (horizontal) and z (depth). */
  datatype MarkerInfo = MarkerInfo(id: int, corners: Corners, x: real, z: real)

  /** Double.MAX_VALUE, the initial minDistance of keepClosestMarker. */
  const MaxDouble: real := 1.7976931348623157e308

  /** `tvecData != null && tvecData.length >= 3`. */
  predicate HasPose(o: Observation)
  {
    o.tvec.Some? && |o.tvec.value| >= 3
  }

  function Depth(o: Observation): (z: real)
    requires HasPose(o)
  {
    o.tvec.value[2]
  }

  /** keepClosestMarker's choice: the first marker of smallest depth, below Double.MAX_VALUE. */
  ghost predicate IsClosest(obs: seq<Observation>, k: int)
  {
    && 0 <= k < |obs| && HasPose(obs[k]) && Depth(obs[k]) < MaxDouble
    && (forall j :: 0 <= j < |obs| && HasPose(obs[j]) ==> Depth(obs[k]) <= Depth(obs[j]))
    && (forall j :: 0 <= j < k && HasPose(obs[j]) ==> Depth(obs[j]) > Depth(obs[k]))
  }

  /**
   * Keeps the single marker closest to the camera. The result is empty when there
   * are no markers or none has a usable pose, otherwise it is the one marker with
   * the smallest depth; the strict comparison makes the earliest one win a tie.
   */
  method KeepClosestMarker(obs: seq<Observation>) returns (closest: seq<Observation>)
    ensures |closest| <= 1
    ensures |closest| == 0 <==> forall j :: 0 <= j < |obs| && HasPose(obs[j]) ==> Depth(obs[j]) >= MaxDouble
    ensures |closest| == 1 ==> exists k :: IsClosest(obs, k) && closest[0] == obs[k]
  {
    if |obs| == 0 {
      return [];
    }
    var minDistance := MaxDouble;
    var closestIndex := -1;
    for i := 0 to |obs|
      invariant -1 <= closestIndex < i
      invariant closestIndex == -1 <==> forall j :: 0 <= j < i && HasPose(obs[j]) ==> Depth(obs[j]) >= MaxDouble
      invariant closestIndex == -1 ==> minDistance == MaxDouble
      invariant closestIndex != -1 ==> HasPose(obs[closestIndex]) && minDistance == Depth(obs[closestIndex]) < MaxDouble
      invariant forall j :: 0 <= j < i && HasPose(obs[j]) ==> minDistance <= Depth(obs[j])
      invariant closestIndex != -1 ==> forall j :: 0 <= j < closestIndex && HasPose(obs[j]) ==> Depth(obs[j]) > minDistance
    {
      var tvecData := obs[i].tvec;
      if tvecData.Some? && |tvecData.value| >= 3 {
        var distance := tvecData.value[2];
        if distance < minDistance {
          minDistance := distance;
          closestIndex := i;
        }
      }
    }
    if closestIndex != -1 {
      closest := [obs[closestIndex]];
      assert IsClosest(obs, closestIndex);
    } else {
      closest := [];
    }
  }

  function Info(o: Observation): (m: MarkerInfo)
    ensures m.id == o.id && m.corners == o.corners && m.z == Depth(o)
    requires HasPose(o)
  {
    MarkerInfo(o.id, o.corners, o.tvec.value[0], o.tvec.value[2])
  }

  /** The markerInfos list: one entry per marker with a usable pose, in detection order. */
  function ValidInfos(obs: seq<Observation>): (infos: seq<MarkerInfo>)
    ensures |infos| <= |obs|
  {
    if obs == [] then []
    else
      var last := obs[|obs| - 1];
      ValidInfos(obs[..|obs| - 1]) + (if HasPose(last) then [Info(last)] else [])
  }

  lemma {:induction false} ValidInfosMembers(obs: seq<Observation>, m: MarkerInfo)
    ensures m in ValidInfos(obs) <==> exists i :: 0 <= i < |obs| && HasPose(obs[i]) && Info(obs[i]) == m
  {
    if obs != [] {
      var n := |obs|;
      ValidInfosMembers(obs[..n - 1], m);
      assert forall i :: 0 <= i < n - 1 ==> obs[..n - 1][i] == obs[i];
      if HasPose(obs[n - 1]) && Info(obs[n - 1]) == m {
        assert m in ValidInfos(obs);
      }
    }
  }

  /** Comparator of the depth sort: Double.compare(m1.distanceZ, m2.distanceZ) < 0. */
  predicate Closer(a: MarkerInfo, b: MarkerInfo)
  {
    a.z < b.z
  }

  /** Comparator of the left-to-right sort: Double.compare(m1.xPosition, m2.xPosition) < 0. */
  predicate LeftOf(a: MarkerInfo, b: MarkerInfo)
  {
    a.x < b.x
  }

  lemma ComparatorsAreStrictWeakOrders()
    ensures StrictWeakOrder(Closer) && StrictWeakOrder(LeftOf)
  {
  }

  /**
   * The two markers closest to the camera, ordered left to right. None when fewer
   * than two markers were detected or fewer than two have a usable pose.
   */
  method GetTwoMarkersByPosition(obs: seq<Observation>) returns (r: Option<(MarkerInfo, MarkerInfo)>)
    ensures r.None? <==> |ValidInfos(obs)| < 2
    ensures r.Some? ==>
      var byDepth := SortBy(ValidInfos(obs), Closer);
      && [r.value.0, r.value.1] == SortBy([byDepth[0], byDepth[1]], LeftOf)
      && multiset{r.value.0, r.value.1} == multiset{byDepth[0], byDepth[1]}
      && r.value.0.x <= r.value.1.x
  {
    if |obs| < 2 {
      return None;
    }
    var markerInfos: seq<MarkerInfo> := [];
    for i := 0 to |obs|
      invariant markerInfos == ValidInfos(obs[..i])
    {
      assert obs[..i + 1][..i] == obs[..i];
      var tvecData := obs[i].tvec;
      if tvecData.Some? && |tvecData.value| >= 3 {
        markerInfos := markerInfos + [MarkerInfo(obs[i].id, obs[i].corners, tvecData.value[0], tvecData.value[2])];
      }
    }
    assert obs[..|obs|] == obs;
    markerInfos := SortBy(markerInfos, Closer);
    if |markerInfos| < 2 {
      return None;
    }
    var closestTwoMarkers := SortBy([markerInfos[0], markerInfos[1]], LeftOf);
    ComparatorsAreStrictWeakOrders();
    SortBySorted([markerInfos[0], markerInfos[1]], LeftOf);
    SortByPermutation([markerInfos[0], markerInfos[1]], LeftOf);
    r := Some((closestTwoMarkers[0], closestTwoMarkers[1]));
    assert closestTwoMarkers == [closestTwoMarkers[0], closestTwoMarkers[1]];
  }

  /**
   * The selection is the first two of the stable depth sort: the earliest marker
   * of smallest depth, then the earliest smallest among the others; no marker
   * left out is closer than either.
   */
  lemma TwoClosestSelected(infos: seq<MarkerInfo>)
    requires |infos| >= 2
    ensures
      var sorted := SortBy(infos, Closer);
      var k0 := FirstMinIndex(infos, Closer);
      var others := RemoveAt(infos, k0);
      && sorted[0] == infos[k0]
      && sorted[1] == others[FirstMinIndex(others, Closer)]
      && (forall j :: 0 <= j < |infos| ==> infos[k0].z <= infos[j].z)
      && (forall j :: 0 <= j < k0 ==> infos[k0].z < infos[j].z)
      && (forall j :: 0 <= j < |others| ==> sorted[1].z <= others[j].z)
      && (forall j :: 0 <= j < FirstMinIndex(others, Closer) ==> sorted[1].z < others[j].z)
  {
    var k0 := FirstMinIndex(infos, Closer);
    var others := RemoveAt(infos, k0);
    SortBySelectsFirstMin(infos, Closer);
    SortBySelectsFirstMin(others, Closer);
    ComparatorsAreStrictWeakOrders();
    FirstMinIndexIsEarliestMinimum(infos, Closer);
    FirstMinIndexIsEarliestMinimum(others, Closer);
  }

  /**
   * The dual viewpoint of runPlan1: the left marker is processed as area 2 and the
   * right one as area 3. An empty map means the single-marker fallback is taken.
   */
  method AssignDualAreas(obs: seq<Observation>) returns (assignment: map<int, MarkerInfo>)
    ensures assignment == map[] <==> |ValidInfos(obs)| < 2
    ensures assignment != map[] ==>
      && assignment.Keys == {2, 3}
      && assignment[2].x <= assignment[3].x
      && assignment[2] in ValidInfos(obs) && assignment[3] in ValidInfos(obs)
    ensures assignment != map[] ==>
      var byDepth := SortBy(ValidInfos(obs), Closer);
      [assignment[2], assignment[3]] == SortBy([byDepth[0], byDepth[1]], LeftOf)
  {
    var dualMarkers := GetTwoMarkersByPosition(obs);
    if dualMarkers.Some? {
      var (left, right) := dualMarkers.value;
      var infos := ValidInfos(obs);
      SortByPermutation(infos, Closer);
      var byDepth := SortBy(infos, Closer);
      assert byDepth[0] in multiset(infos) && byDepth[1] in multiset(infos);
      assert left in multiset{byDepth[0], byDepth[1]};
      assert right in multiset{byDepth[0], byDepth[1]};
      assignment := map[2 := left, 3 := right];
      assert 2 in assignment;
    } else {
      assignment := map[];
    }
  }
}
