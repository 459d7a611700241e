/**
 * Positions of YourService: the three physical viewpoints (MOVE_POINTS and
 * MOVE_QUATERNIONS), which conceptual areas each one serves, the base point of an
 * area, the camera-to-robot remapping of a marker offset, and the pose the robot
 * returns to for the target area.
 */
module ReportPoints {
  import opened Wrappers

  /** A world-space position, or a camera-frame offset (x right, y down, z forward). */
  datatype Point = Point(x: real, y: real, z: real)

  datatype Quaternion = Quaternion(x: real, y: real, z: real, w: real)

  const MovePoints: seq<Point> := [
    Point(10.425, -9.5, 4.445),
    Point(10.95, -9.78, 5.195),
    Point(10.666984, -6.8525, 4.945)
  ]

  const MoveQuaternions: seq<Quaternion> := [
    Quaternion(0.0617, 0.0082, 0.6152, 0.7071),
    Quaternion(0.0, 0.0, -0.707, 0.707),
    Quaternion(0.0, 0.0, 1.0, 0.0)
  ]

  /** Quaternion(0, 0, 0, 1), runPlan1's choice for an area id outside 1..4. */
  const IdentityQuaternion: Quaternion := Quaternion(0.0, 0.0, 0.0, 1.0)

  /** The conceptual areas photographed from a physical viewpoint (runPlan1's conceptualAreaIds). */
  function AreasAtMovePoint(movePointIndex: int): (areas: seq<int>)
    ensures 1 <= |areas| <= 2
  {
    if movePointIndex == 0 then [1]
    else if movePointIndex == 1 then [2, 3]
    else [4]
  }

  /** The MOVE_POINTS index of an area's viewpoint; None for ids outside 1..4. */
  function MoveIndexForArea(areaId: int): (i: Option<nat>)
    ensures i.Some? <==> 1 <= areaId <= 4
    ensures i.Some? ==> i.value < |MovePoints|
  {
    if areaId == 1 then Some(0)
    else if areaId == 2 || areaId == 3 then Some(1)
    else if areaId == 4 then Some(2)
    else None
  }

  /** basePointForArea of imageEnhanceAndCrop; None stands for the null base. */
  function BasePointForArea(areaId: int): (base: Option<Point>)
    ensures base.Some? <==> 1 <= areaId <= 4
  {
    match MoveIndexForArea(areaId)
    case Some(i) => Some(MovePoints[i])
    case None => None
  }

  /**
   * The two mappings agree: every area 1..4 is photographed from exactly one viewpoint,
   * and that viewpoint is the one whose position is the area's base point.
   */
  lemma AreaMappingsAgree()
    ensures forall i, k :: 0 <= i < |MovePoints| && 0 <= k < |AreasAtMovePoint(i)| ==>
      MoveIndexForArea(AreasAtMovePoint(i)[k]) == Some(i)
    ensures forall a :: MoveIndexForArea(a).Some? <==> exists i :: 0 <= i < |MovePoints| && a in AreasAtMovePoint(i)
  {
    forall a | MoveIndexForArea(a).Some?
      ensures exists i :: 0 <= i < |MovePoints| && a in AreasAtMovePoint(i)
    {
      var i := MoveIndexForArea(a).value;
      assert a in AreasAtMovePoint(i);
    }
  }

  /**
   * The marker offset expressed in robot axes and added to the base: camera depth
   * goes forward, camera x is negated into y, camera y is negated into z.
   */
  function AdjustedPoint(base: Point, offset: Point): (adjusted: Point)
  {
    Point(base.x + offset.z, base.y - offset.x, base.z - offset.y)
  }

  /** Where the robot goes to photograph the target, and with which orientation. */
  datatype Pose = Pose(position: Point, orientation: Quaternion)

  /** runPlan1's orientation for a refined report point (the if-chain on targetAreaId). */
  function ReturnOrientation(targetAreaId: int): (q: Quaternion)
  {
    match MoveIndexForArea(targetAreaId)
    case Some(i) => MoveQuaternions[i]
    case None => IdentityQuaternion
  }

  /**
   * runPlan1 as written: with no refined report point it falls back to
   * MOVE_POINTS[targetAreaId - 1] and MOVE_QUATERNIONS[targetAreaId - 1], indexing the
   * three viewpoints by area id.
   */
  function ReturnPoseAsWritten(targetAreaId: int, reportPoint: Option<Point>): (r: Result<Pose>)
    requires 1 <= targetAreaId <= 4
  {
    if reportPoint.Some? then Ok(Pose(reportPoint.value, ReturnOrientation(targetAreaId)))
    else if targetAreaId - 1 < |MovePoints| then
      Ok(Pose(MovePoints[targetAreaId - 1], MoveQuaternions[targetAreaId - 1]))
    else Err(ArrayIndexOutOfBounds(targetAreaId - 1, |MovePoints|))
  }

  /** The fallback pose of areas 3 and 4 is not the viewpoint they were photographed from. */
  lemma ReturnPoseAsWrittenMisroutes()
    ensures ReturnPoseAsWritten(4, None) == Err(ArrayIndexOutOfBounds(3, 3))
    ensures ReturnPoseAsWritten(3, None) == Ok(Pose(MovePoints[2], MoveQuaternions[2]))
    ensures 3 in AreasAtMovePoint(1) && MovePoints[2] != MovePoints[1]
  {
  }

  /** The corrected fallback: the viewpoint the area was photographed from. */
  function ReturnPose(targetAreaId: int, reportPoint: Option<Point>): (pose: Pose)
    requires 1 <= targetAreaId <= 4
  {
    var i := MoveIndexForArea(targetAreaId).value;
    Pose(if reportPoint.Some? then reportPoint.value else MovePoints[i], MoveQuaternions[i])
  }

  /**
   * Without a refined point the robot goes back to exactly the pose from which the area
   * was photographed; with one it keeps that viewpoint's orientation. The as-written
   * version agrees with this for areas 1 and 2 only.
   */
  lemma ReturnPoseIsViewpoint(movePointIndex: nat, areaId: int, reportPoint: Option<Point>)
    requires movePointIndex < |MovePoints| && areaId in AreasAtMovePoint(movePointIndex)
    ensures ReturnPose(areaId, None) == Pose(MovePoints[movePointIndex], MoveQuaternions[movePointIndex])
    ensures ReturnPose(areaId, reportPoint).orientation == MoveQuaternions[movePointIndex]
    ensures reportPoint.Some? ==> ReturnPose(areaId, reportPoint) == ReturnPoseAsWritten(areaId, reportPoint).value
    ensures areaId <= 2 ==> ReturnPose(areaId, None) == ReturnPoseAsWritten(areaId, None).value
  {
    AreaMappingsAgree();
    var k :| 0 <= k < |AreasAtMovePoint(movePointIndex)| && AreasAtMovePoint(movePointIndex)[k] == areaId;
  }
}
