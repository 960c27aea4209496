/**
 * Landmark slot layout of one video frame (`extract_landmarks_from_frame`).
 *
 * A 47-row table, zero-initialised, receives the left-hand landmarks from row
 * 0, the right-hand landmarks from row 21 and the five selected pose landmarks
 * in rows 42..46, in that order, so a later write replaces an earlier one.
 * A write past row 46, or a pose landmark the detector did not return, raises
 * an IndexError.
 */
module Landmarks {
  import opened Wrappers
  import opened Config

  /** One detected landmark; the source stores its x, y, z as a row. */
  datatype Landmark = Landmark(x: real, y: real, z: real)

  /** The value of a row no detection has written. */
  const Zero: Landmark := Landmark(0.0, 0.0, 0.0)

  /** What the holistic detector returns for one image; a part is None when it was not detected. */
  datatype Detection = Detection(
    leftHand: Option<seq<Landmark>>,
    rightHand: Option<seq<Landmark>>,
    pose: Option<seq<Landmark>>)

  /** The body part whose write raised an IndexError. */
  datatype Part = LeftHand | RightHand | Pose

  /** Row offset of each part's first landmark. */
  const LeftOffset: nat := 0
  const RightOffset: nat := HandLandmarks
  const PoseOffset: nat := 2 * HandLandmarks

  /** A hand's rows fit in the table from `offset` on. */
  predicate HandFits(hand: Option<seq<Landmark>>, offset: nat) {
    hand.None? || offset + |hand.value| <= NumJoints
  }

  /** Every pose index named in PoseIndices exists in the pose list. */
  predicate PoseFits(pose: Option<seq<Landmark>>) {
    pose.None? || forall k | 0 <= k < |PoseIndices| :: PoseIndices[k] < |pose.value|
  }

  /** Row j after the left-hand writes. */
  function LeftLayer(d: Detection, j: nat): Landmark {
    if d.leftHand.Some? && j < |d.leftHand.value| then d.leftHand.value[j] else Zero
  }

  /** Row j after the right-hand writes, which replace the left-hand ones. */
  function RightLayer(d: Detection, j: nat): Landmark {
    if d.rightHand.Some? && RightOffset <= j < RightOffset + |d.rightHand.value|
    then d.rightHand.value[j - RightOffset]
    else LeftLayer(d, j)
  }

  /** Row j after the pose writes, which come last. */
  function Slot(d: Detection, j: nat): Landmark
    requires PoseFits(d.pose)
  {
    if d.pose.Some? && PoseOffset <= j < PoseOffset + |PoseIndices|
    then d.pose.value[PoseIndices[j - PoseOffset]]
    else RightLayer(d, j)
  }

  /** The frame the source returns, or the part whose write raised. */
  function Extracted(d: Detection): (r: Result<seq<Landmark>, Part>)
    ensures r.Success? ==> |r.value| == NumJoints
  {
    if !HandFits(d.leftHand, LeftOffset) then Failure(LeftHand)
    else if !HandFits(d.rightHand, RightOffset) then Failure(RightHand)
    else if !PoseFits(d.pose) then Failure(Pose)
    else Success(seq(NumJoints, j requires 0 <= j < NumJoints => Slot(d, j)))
  }

  /**
   * The table filled in place, row by row, as the source does; the result is
   * the declarative last-write-wins frame above.
   */
  method ExtractLandmarks(d: Detection) returns (r: Result<seq<Landmark>, Part>)
    ensures r == Extracted(d)
  {
    var coords := new Landmark[NumJoints](_ => Zero);
    if d.leftHand.Some? {
      var hand := d.leftHand.value;
      for i := 0 to |hand|
        invariant LeftOffset + i <= NumJoints
        invariant forall j | 0 <= j < NumJoints ::
          coords[j] == if LeftOffset <= j < LeftOffset + i then hand[j - LeftOffset] else Zero
      {
        if LeftOffset + i >= NumJoints {
          return Failure(LeftHand);
        }
        coords[LeftOffset + i] := hand[i];
      }
    }
    assert HandFits(d.leftHand, LeftOffset);
    assert forall j | 0 <= j < NumJoints :: coords[j] == LeftLayer(d, j);
    if d.rightHand.Some? {
      var hand := d.rightHand.value;
      for i := 0 to |hand|
        invariant RightOffset + i <= NumJoints
        invariant forall j | 0 <= j < NumJoints ::
          coords[j] == if RightOffset <= j < RightOffset + i then hand[j - RightOffset] else LeftLayer(d, j)
      {
        if RightOffset + i >= NumJoints {
          return Failure(RightHand);
        }
        coords[RightOffset + i] := hand[i];
      }
    }
    assert HandFits(d.rightHand, RightOffset);
    assert forall j | 0 <= j < NumJoints :: coords[j] == RightLayer(d, j);
    if d.pose.Some? {
      var pose := d.pose.value;
      for i := 0 to |PoseIndices|
        invariant forall k | 0 <= k < i :: PoseIndices[k] < |pose|
        invariant forall j | 0 <= j < NumJoints ::
          coords[j] == if PoseOffset <= j < PoseOffset + i then pose[PoseIndices[j - PoseOffset]] else RightLayer(d, j)
      {
        if PoseIndices[i] >= |pose| {
          return Failure(Pose);
        }
        coords[PoseOffset + i] := pose[PoseIndices[i]];
      }
    }
    assert PoseFits(d.pose);
    assert coords[..] == seq(NumJoints, j requires 0 <= j < NumJoints => Slot(d, j));
    r := Success(coords[..]);
  }

  /** Pose landmarks MediaPipe's holistic solution returns per detected body. */
  const PoseLandmarkCount: nat := 33

  /** A detection as the holistic solution produces it: 21 landmarks per hand, 33 for the pose. */
  predicate WellFormed(d: Detection) {
    && (d.leftHand.Some? ==> |d.leftHand.value| == HandLandmarks)
    && (d.rightHand.Some? ==> |d.rightHand.value| == HandLandmarks)
    && (d.pose.Some? ==> |d.pose.value| == PoseLandmarkCount)
  }

  /** First row and row count of the region a part writes when its detection is well formed. */
  function RegionStart(p: Part): nat {
    match p
    case LeftHand => LeftOffset
    case RightHand => RightOffset
    case Pose => PoseOffset
  }

  function RegionSize(p: Part): nat {
    if p == Pose then |PoseIndices| else HandLandmarks
  }

  predicate InRegion(p: Part, j: nat) {
    RegionStart(p) <= j < RegionStart(p) + RegionSize(p)
  }

  function PartOf(d: Detection, p: Part): Option<seq<Landmark>> {
    match p
    case LeftHand => d.leftHand
    case RightHand => d.rightHand
    case Pose => d.pose
  }

  /** The part whose region holds row j. */
  function Owner(j: nat): Part {
    if j < RightOffset then LeftHand else if j < PoseOffset then RightHand else Pose
  }

  /** Every row lies in its owner's region and in no other, and no region reaches past row 46. */
  lemma RegionsPartitionFrame()
    ensures forall j: nat | j < NumJoints :: InRegion(Owner(j), j)
    ensures forall p: Part, j: nat | InRegion(p, j) :: p == Owner(j) && j < NumJoints
  {
  }

  /**
   * For a well-formed detection the extraction succeeds with 47 rows: hand
   * landmark i in row i (left) or 21 + i (right), pose landmark PoseIndices[k]
   * in row 42 + k, and the rows of an undetected part left at zero.
   */
  lemma WellFormedLayout(d: Detection)
    requires WellFormed(d)
    ensures Extracted(d).Success?
    ensures |Extracted(d).value| == NumJoints
    ensures forall i | 0 <= i < HandLandmarks ::
      Extracted(d).value[LeftOffset + i] == if d.leftHand.Some? then d.leftHand.value[i] else Zero
    ensures forall i | 0 <= i < HandLandmarks ::
      Extracted(d).value[RightOffset + i] == if d.rightHand.Some? then d.rightHand.value[i] else Zero
    ensures forall k | 0 <= k < |PoseIndices| ::
      Extracted(d).value[PoseOffset + k] == if d.pose.Some? then d.pose.value[PoseIndices[k]] else Zero
  {
    PoseIndicesOrdered();
  }

  /**
   * For well-formed detections a row depends only on the part whose region
   * holds it: changing or dropping one part leaves the other parts' rows unchanged.
   */
  lemma RowOwnedByItsPart(d1: Detection, d2: Detection, p: Part, j: nat)
    requires WellFormed(d1) && WellFormed(d2)
    requires InRegion(p, j)
    requires PartOf(d1, p) == PartOf(d2, p)
    ensures Extracted(d1).Success? && Extracted(d2).Success?
    ensures j < NumJoints && Extracted(d1).value[j] == Extracted(d2).value[j]
  {
    WellFormedLayout(d1);
    WellFormedLayout(d2);
    RegionsPartitionFrame();
  }

  /** Extraction fails exactly when a write would leave the table or miss a pose landmark, and never for a well-formed detection. */
  lemma FailureCases(d: Detection)
    ensures Extracted(d) == Failure(LeftHand) <==> d.leftHand.Some? && |d.leftHand.value| > NumJoints - LeftOffset
    ensures Extracted(d) == Failure(RightHand) <==>
      HandFits(d.leftHand, LeftOffset) && d.rightHand.Some? && |d.rightHand.value| > NumJoints - RightOffset
    ensures Extracted(d) == Failure(Pose) <==>
      HandFits(d.leftHand, LeftOffset) && HandFits(d.rightHand, RightOffset) && d.pose.Some? && |d.pose.value| <= 14
    ensures WellFormed(d) ==> Extracted(d).Success?
  {
    PoseIndicesOrdered();
    if d.pose.Some? && |d.pose.value| <= 14 {
      assert PoseIndices[4] >= |d.pose.value|;
    }
  }
}
