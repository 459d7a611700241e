# Kibo-RPC mission logic, modelled in Dafny

`YourService` is the service an Astrobee robot runs in the Kibo Robot Programming
Challenge. The robot visits three physical viewpoints. From them it photographs four
conceptual areas, each marked with ArUco tags. For each area it:

- picks the marker closest to the camera (or, at the viewpoint shared by areas 2 and 3,
  the two closest, ordered left to right);
- refines that area's report point from the marker's translation vector;
- classifies the cropped image into landmarks and treasures, and accumulates them in
  the per-area and mission-wide records;
- reports one landmark name and count through a four-step fallback chain.

At the end the robot recognises the astronaut's target treasure, looks up the area
that holds it, and returns to that area. The template-matching variant
(`YourService_test.java`) adds three helpers:

- choosing the template with the most matches;
- merging match locations within 10 pixels of one already kept;
- a linear search for the area holding the target item.

The model separates this decision logic from the vision and robot plumbing. The
modules are:

- `Wrappers`: `Option` (Java's `null`) and `Result`, with Java's out-of-bounds index
  error.
- `JavaStrings`: `String.compareTo` as a strict total order `StrLess`, and
  `String.valueOf(int)` as `IntToString`, proved injective.
- `StableSort`: `Collections.sort` (a stable merge sort in the JDK) as a stable
  insertion sort `SortBy`. It is proved to be a permutation and sorted. Its first
  element is proved to be the earliest minimum, and each later element the earliest
  minimum of what remains.
- `MarkerSelection`: `keepClosestMarker`, `getTwoMarkersByPosition`, and runPlan1's
  left-to-area-2, right-to-area-3 assignment.
  - One ArUco detection is an `Observation`: the marker id with its corners, and the
    estimated translation vector, or `None` when there is none.
  - Pose estimation itself is not modelled; its output is an input.
- `Landmarks`:
  - `getFirstLandmarkItem`'s comparator and selection;
  - the constructor's landmark catalog;
  - the unreported-landmark draw, as a specification function `Draw`;
  - the first three steps of the naming chain.
- `ReportPoints`:
  - `MOVE_POINTS`, `MOVE_QUATERNIONS`, and which areas each viewpoint serves;
  - each area's base point, and the camera-to-robot remapping of a marker offset;
  - the pose the robot returns to for the target area.
- `Mission`: class `MissionState` holds the fields of `YourService` that the service
  updates (`foundTreasures`, `foundLandmarks`, `areaLandmarks`, `areaTreasure`,
  `reportPoints`, `reportedLandmarkNames`). Its methods are the constructor, runPlan1's
  area initialisation, the report-point write, `getRandomUnreportedLandmark` and
  `handleSingleAreaDetection`. `findTreasureInArea` is a module-level method.
- `TemplateMatching`: `getMxIndex`, `removeDuplicates` (with the specification `Dedup`)
  and the target-area search.

`YOLODetectionService.getClassName` becomes the map `classNameOf` (an id without an
entry is `null`), and `getClassNames` becomes the sequence passed to the constructor.
`Random.nextInt(n)` becomes a caller-chosen `pick`, used as `pick % n`. The classifier's
result for one image (`detectitemfromcvimg`) is the value `Detection`, and a failed
enhancement (a `null` image) is `None`.

## Model

| member | source | states |
|---|---|---|
| Mission.FindTreasureInArea | SampleApk/app/src/main/java/jp/jaxa/iss/kibo/rpc/sampleapk/YourService.java:419-427 | The result is in 0..4. It is 0 exactly when no area 1..4 has a set holding the label (a missing set counts as not holding it). Otherwise the area holds the label and no lower area does. |
| Mission.AreaKeyInjective | SampleApk/app/src/main/java/jp/jaxa/iss/kibo/rpc/sampleapk/YourService.java:839 | Two areas with the same `"area" + id` key are the same area, so one area's landmark record never overwrites another's. |
| JavaStrings.IntToStringInjective | SampleApk/app/src/main/java/jp/jaxa/iss/kibo/rpc/sampleapk/YourService.java:839 | Different integers have different decimal renderings. |
| JavaStrings.NatToStringInjective | SampleApk/app/src/main/java/jp/jaxa/iss/kibo/rpc/sampleapk/YourService.java:839 | Different naturals have different digit strings; this is the inductive core of the lemma above. |
| JavaStrings.NatToString | SampleApk/app/src/main/java/jp/jaxa/iss/kibo/rpc/sampleapk/YourService.java:839 | A decimal rendering is non-empty and starts with a digit; it is one character long exactly for 0..9. |
| JavaStrings.StrLessIrreflexive | SampleApk/app/src/main/java/jp/jaxa/iss/kibo/rpc/sampleapk/YourService.java:495 | No name compares below itself. |
| JavaStrings.StrLessTransitive | SampleApk/app/src/main/java/jp/jaxa/iss/kibo/rpc/sampleapk/YourService.java:495 | The name order used as the tie-break is transitive. |
| JavaStrings.StrLessTotal | SampleApk/app/src/main/java/jp/jaxa/iss/kibo/rpc/sampleapk/YourService.java:495 | Any two different names are ordered one way or the other, so the tie-break always decides. |
| JavaStrings.ParseIntOfIntToString | SampleApk/app/src/main/java/jp/jaxa/iss/kibo/rpc/sampleapk/YourService.java:878-880 | `Integer.parseInt(String.valueOf(n))` is `n`: the count that `getFirstLandmarkItem` returns as text comes back to `setAreaInfo` unchanged. |
| Landmarks.EntryBeforeIsStrictWeakOrder | SampleApk/app/src/main/java/jp/jaxa/iss/kibo/rpc/sampleapk/YourService.java:488-497 | The comparator (count descending, then name ascending) is a strict weak order. |
| Landmarks.FirstLandmarkUnique | SampleApk/app/src/main/java/jp/jaxa/iss/kibo/rpc/sampleapk/YourService.java:485-505 | At most one (name, count) is first: the highest count, and among those tied, the smallest name. |
| Landmarks.GetFirstLandmarkItem | SampleApk/app/src/main/java/jp/jaxa/iss/kibo/rpc/sampleapk/YourService.java:485-505 | The result is null exactly for a null or empty map. Otherwise it is an entry of the map with its count unchanged; no entry has a higher count; no entry with the same count has a smaller name. |
| Landmarks.CatalogMembers | SampleApk/app/src/main/java/jp/jaxa/iss/kibo/rpc/sampleapk/YourService.java:60-66 | A name is in the catalog exactly when the detector knows it and it is not crystal, diamond or emerald. |
| Landmarks.UnreportedMembers | SampleApk/app/src/main/java/jp/jaxa/iss/kibo/rpc/sampleapk/YourService.java:896-901 | The unreported list holds exactly the available names not yet reported. |
| Landmarks.DrawOutcome | SampleApk/app/src/main/java/jp/jaxa/iss/kibo/rpc/sampleapk/YourService.java:895-912 | If some available name is unreported, the draw is one of them and the reported set is kept. Otherwise the reported set is cleared and the draw is an available name. The draw is "unknown_landmark" only when nothing is available. |
| Landmarks.DrawReachesEveryUnreported | SampleApk/app/src/main/java/jp/jaxa/iss/kibo/rpc/sampleapk/YourService.java:903-904 | Every unreported name is drawn for some value of the random pick. |
| Landmarks.DrawNeverTreasure | SampleApk/app/src/main/java/jp/jaxa/iss/kibo/rpc/sampleapk/YourService.java:60-66 | A name drawn from the constructor's catalog is never a treasure name. |
| Landmarks.NameFromEvidence | SampleApk/app/src/main/java/jp/jaxa/iss/kibo/rpc/sampleapk/YourService.java:857-890 | The first step that applies wins: a valid area-id name with count 1; else a valid highest-confidence name with its quantity (default 1, and 0 raised to 1); else the `getFirstLandmarkItem` entry, its count passed through `String.valueOf` and `Integer.parseInt` unchanged. Nothing is chosen exactly when the random draw is due. When every quantity is at least 1, so is the chosen count. |
| Mission.MissionState.HandleSingleAreaDetection | SampleApk/app/src/main/java/jp/jaxa/iss/kibo/rpc/sampleapk/YourService.java:797-893 | With an image, it replaces the area's landmark map; it adds the treasures to the area's set and to the mission's set; it adds detected landmarks to the mission's set. Without an image, none of these change. The reported (name, count) follows the fallback chain step by step, ending in the `Draw` outcome. The reported name is recorded, and the catalog invariant is kept. Without an image only step 1 or the draw can fire. |
| Mission.MissionState.GetRandomUnreportedLandmark | SampleApk/app/src/main/java/jp/jaxa/iss/kibo/rpc/sampleapk/YourService.java:895-912 | The name and the new reported set are exactly `Draw` of the catalog and the old reported set. The name is never a treasure. No other mission field changes. |
| Mission.MissionState.constructor | SampleApk/app/src/main/java/jp/jaxa/iss/kibo/rpc/sampleapk/YourService.java:32-66 | The catalog is the detector's class names without the three treasures, in their order. All records start empty, and all four report points start null. |
| Mission.MissionState.InitAreaTreasure | SampleApk/app/src/main/java/jp/jaxa/iss/kibo/rpc/sampleapk/YourService.java:75-76 | Areas 1..4 get empty treasure sets; every other field is unchanged. |
| Mission.MissionState.UpdateReportPoint | SampleApk/app/src/main/java/jp/jaxa/iss/kibo/rpc/sampleapk/YourService.java:681-711 | For areas 1..4 the area's slot becomes (base.x + t[2], base.y − t[0], base.z − t[1]). No other slot changes, and an id outside 1..4 writes nothing. |
| ReportPoints.MoveIndexForArea | SampleApk/app/src/main/java/jp/jaxa/iss/kibo/rpc/sampleapk/YourService.java:683-689 | An area has a viewpoint exactly when its id is in 1..4, and that viewpoint is one of the three move points. |
| ReportPoints.BasePointForArea | SampleApk/app/src/main/java/jp/jaxa/iss/kibo/rpc/sampleapk/YourService.java:681-690 | The base point is non-null exactly for areas 1..4. |
| ReportPoints.AreaMappingsAgree | SampleApk/app/src/main/java/jp/jaxa/iss/kibo/rpc/sampleapk/YourService.java:94-100 | The viewpoint-to-areas table of runPlan1 and the area-to-base table of imageEnhanceAndCrop are inverse: each area in 1..4 is photographed from exactly the viewpoint that is its base. |
| ReportPoints.ReturnPoseAsWrittenMisroutes | SampleApk/app/src/main/java/jp/jaxa/iss/kibo/rpc/sampleapk/YourService.java:258-264 | As written, the fallback for area 4 is an out-of-bounds index (3 of 3). For area 3 it is viewpoint 2, not the viewpoint area 3 is photographed from. The fallback is latent: runPlan1 always has a refined report point for an area that holds a treasure. |
| ReportPoints.ReturnPoseIsViewpoint | SampleApk/app/src/main/java/jp/jaxa/iss/kibo/rpc/sampleapk/YourService.java:258-276 | Corrected: with no refined point the robot returns to the exact pose the area was photographed from. With a refined point it keeps that viewpoint's orientation and agrees with the code as written. For areas 1 and 2 the two agree in every case. |
| MarkerSelection.KeepClosestMarker | SampleApk/app/src/main/java/jp/jaxa/iss/kibo/rpc/sampleapk/YourService.java:1033-1081 | At most one marker is kept. None is kept exactly when no observation has a pose with depth below Double.MAX_VALUE. The one kept has the least depth among posed observations, and no earlier posed observation has the same depth. |
| MarkerSelection.ValidInfosMembers | SampleApk/app/src/main/java/jp/jaxa/iss/kibo/rpc/sampleapk/YourService.java:540-548 | A marker record is collected exactly when some observation with a 3-component translation produced it. |
| MarkerSelection.ComparatorsAreStrictWeakOrders | SampleApk/app/src/main/java/jp/jaxa/iss/kibo/rpc/sampleapk/YourService.java:553-577 | Depth order and left-to-right order are strict weak orders. |
| MarkerSelection.GetTwoMarkersByPosition | SampleApk/app/src/main/java/jp/jaxa/iss/kibo/rpc/sampleapk/YourService.java:517-592 | The result is null exactly when fewer than two posed markers exist. Otherwise the pair is the first two of the stable depth sort, reordered by the stable x sort. Left and right are those two, each with its own id and corners, and left.x ≤ right.x. |
| MarkerSelection.TwoClosestSelected | SampleApk/app/src/main/java/jp/jaxa/iss/kibo/rpc/sampleapk/YourService.java:552-566 | The first of the depth sort is the earliest marker of least depth. The second is the earliest marker of least depth among the others. No other marker is closer than either, and a marker tied with the second comes after it. |
| MarkerSelection.AssignDualAreas | SampleApk/app/src/main/java/jp/jaxa/iss/kibo/rpc/sampleapk/YourService.java:131-170 | With two posed markers, areas 2 and 3 get exactly the pair `GetTwoMarkersByPosition` selects: the two closest by the stable depth sort, ordered left to right (left.x ≤ right.x). Otherwise no dual assignment is made. |
| StableSort.SortByPermutation | SampleApk/app/src/main/java/jp/jaxa/iss/kibo/rpc/sampleapk/YourService.java:553-558 | Sorting keeps exactly the same elements with the same multiplicities. |
| StableSort.SortBySorted | SampleApk/app/src/main/java/jp/jaxa/iss/kibo/rpc/sampleapk/YourService.java:553-558 | Under a strict weak order, the sorted list has no element before a successor that should precede it. |
| StableSort.SortBySelectsFirstMin | SampleApk/app/src/main/java/jp/jaxa/iss/kibo/rpc/sampleapk/YourService.java:553-577 | Stability: the sort begins with the earliest minimal element, followed by the sort of the rest. |
| StableSort.FirstMinIndexIsEarliestMinimum | SampleApk/app/src/main/java/jp/jaxa/iss/kibo/rpc/sampleapk/YourService.java:553-558 | The selected index is minimal, and every earlier element is strictly above it. |
| StableSort.InsertPermutation | SampleApk/app/src/main/java/jp/jaxa/iss/kibo/rpc/sampleapk/YourService.java:553-558 | Inserting adds exactly one copy of the new element. |
| StableSort.InsertSorted | SampleApk/app/src/main/java/jp/jaxa/iss/kibo/rpc/sampleapk/YourService.java:553-558 | Inserting into a sorted list keeps it sorted. |
| TemplateMatching.GetMxIndex | YourService_test.java:332-344 | An empty array fails on its first read, with an index error. Otherwise the index is in range, its score is at least every score, and every earlier score is strictly smaller (first occurrence on ties). |
| TemplateMatching.RemoveDuplicates | YourService_test.java:302-319 | The nested loops compute exactly `Dedup` of the input. |
| TemplateMatching.DedupSeparated | YourService_test.java:303-316 | Any two kept points are more than 10 apart (squared distance above 100). |
| TemplateMatching.DedupCovers | YourService_test.java:305-316 | Every input point lies within 10 of some kept point. |
| TemplateMatching.DedupIsSubsequence | YourService_test.java:302-319 | The kept points are a subsequence of the input, in input order. |
| TemplateMatching.DedupKeepsFirst | YourService_test.java:302-319 | The output is empty exactly when the input is, and the first input point is always kept first. |
| TemplateMatching.DedupOfSeparated | YourService_test.java:302-319 | A list already more than 10 apart pairwise is returned unchanged. |
| TemplateMatching.DedupIdempotent | YourService_test.java:302-319 | Removing duplicates from the output changes nothing. |
| TemplateMatching.FindTargetArea | YourService_test.java:210-216 | The result is the first index holding the target item, and 0 when no item matches. |

## Left out

- OpenCV calls (undistortion, marker detection, pose estimation, projection, warping, CLAHE, thresholding, resizing, template matching, rotation and scaling) are outside the model. Their outputs (marker ids, corners, translation vectors, classifier results) are inputs.
- The robot API and I/O (`moveTo`, `getMatNavCam`, `getNavCamIntrinsics`, `saveMatImage`, `notifyRecognitionItem`, `takeTargetItemSnapshot`, logging) are not modelled. `setAreaInfo` is the (name, count) pair that `HandleSingleAreaDetection` returns.
- `YOLODetectionService` is not part of this model; `getClassName` and `getClassNames` are inputs (`classNameOf`, `classNames`).
- `detectitemfromcvimg` is not modelled. Its parsed result is the `Detection` value; its exception-to-empty path is not.
- `waitForMarkersDetection` and the `Thread.sleep` calls are wall-clock polling and are left out.
- `java.util.Random` is replaced by the `pick` parameter. The model proves which names can be drawn, not how likely each one is.
- `Mat.release` and the other resource clean-up are left out; they do not affect any decision.
- Floating point is modelled as exact reals: IEEE rounding, NaN, −0.0 and the ordering details of `Double.compare` are not captured. `calculateDistance`'s square root is replaced by comparing the squared distance with 100.
- `treasure_types.iterator().next()` in `processTargetImage` depends on HashSet iteration order and is not modelled.
- The `runPlan1` orchestration of both files, including `processTargetImage`, `identifyTargetItem`, `imageEnhanceAndCrop`, `processCropRegion` and `processSingleArea`, is I/O sequencing. Only the decisions named above are modelled from it: the area mappings, the dual assignment, the report-point write, the return pose and the target searches.
- `Integer.parseInt` is modelled without its 32-bit range check; the round trip through `String.valueOf` is proved to be the identity on every integer, so on Java ints it never throws.
- Java `int` is 32 bits; marker ids, counts and area ids are unbounded integers here, so no wrap-around is modelled. None of these values come near the limit.
- `String.compareTo` compares UTF-16 code units; the model compares Dafny characters, which agree for the ASCII class names used.
- `HandleSingleAreaDetection`: it requires the area to have a treasure set when there is an image. As written, the Java would throw a `NullPointerException` before setting the area info if runPlan1 had not initialised that area.
- `FindTargetArea`: a `null` entry in `foundItems` would throw in Java; the model's strings are never null.
- Three behaviours of the code that are easy to misread, modelled as the code has them:
  - step 1 of the naming chain: the comments at YourService.java:802-805 speak of a lookup by ArUco marker id, but the call passes the area id, and the model looks up the area id;
  - with no image, the landmark map stays empty and there is no highest-confidence name, so only step 1 or the random draw can fire;
  - `foundLandmarks` (YourService.java:842-846) gains the highest-confidence name, or every detected name; it is filled independently of the name reported through `setAreaInfo`.

## Findings

| source | as written | input that shows it | evidently intended | confidence | as-written member | corrected member |
|---|---|---|---|---|---|---|
| SampleApk/app/src/main/java/jp/jaxa/iss/kibo/rpc/sampleapk/YourService.java:261-264 | With no refined report point, the return pose is `MOVE_POINTS[targetAreaId - 1]` and `MOVE_QUATERNIONS[targetAreaId - 1]`, indexing the three viewpoints by area id | none reachable from runPlan1, where an area holding a treasure always has a refined report point (YourService.java:706 runs before :730 returns an image, and only then does :848 add treasures); only a direct evaluation of :261-264 with target area 4 (index 3 of a 3-element array) or target area 3 (sent to area 4's viewpoint) and a null report point | return to the viewpoint the area was photographed from (`MOVE_POINTS[0]`, `[1]`, `[1]`, `[2]` for areas 1..4), as the base-point mapping does | low: a latent defect in a branch runPlan1 never takes; not executed | ReportPoints.ReturnPoseAsWrittenMisroutes | ReportPoints.ReturnPoseIsViewpoint |
