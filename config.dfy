/**
 * The fixed configuration of the inference endpoint: tensor sizes, the pose
 * landmarks kept, the classes the endpoint may predict and the table that
 * turns a class index into the label reported to the client.
 */
module Config {

  /** Rows of one landmark frame: 21 left-hand, 21 right-hand and 5 pose landmarks. */
  const NumJoints: nat := 47

  /** Number of video frames fed to the classifier. */
  const SequenceLength: nat := 32

  /** Width of the classifier's output (the network is built with 67 classes). */
  const NumClasses: nat := 67

  /** Landmarks per detected hand; right-hand rows start here, pose rows at twice this. */
  const HandLandmarks: nat := 21

  /** MediaPipe pose landmarks kept: nose, both shoulders, both elbows. */
  const PoseIndices: seq<nat> := [0, 11, 12, 13, 14]

  /** The class indices the endpoint is allowed to predict, in increasing order. */
  const PerfectMappedClasses: seq<nat> :=
    [0, 2, 4, 6, 9, 10, 12, 13, 14, 18, 20, 21, 24, 25, 33, 37, 40, 41, 42, 45,
     46, 47, 48, 49, 51, 53, 55, 58, 62, 63, 64]

  /** Class index -> label reported as `predicted_class`. */
  const ReverseLabelMap: map<nat, nat> := map[
    0 := 1, 2 := 3, 4 := 5, 6 := 7, 9 := 10, 10 := 11, 12 := 14, 13 := 15, 14 := 16, 18 := 21, 20 := 23, 21 := 24,
    24 := 27, 25 := 29, 33 := 39, 37 := 43, 40 := 48, 41 := 49, 42 := 50, 45 := 54, 46 := 55, 47 := 56,
    48 := 57, 49 := 58, 51 := 60, 53 := 62, 55 := 64, 58 := 67, 62 := 71, 63 := 72, 64 := 74
  ]

  predicate StrictlyIncreasing(s: seq<nat>) {
    forall i, j | 0 <= i < j < |s| :: s[i] < s[j]
  }

  function Elements(s: seq<nat>): set<nat> {
    set x | x in s
  }

  /** A sequence without repetitions has as many elements as its length. */
  lemma {:induction false} DistinctElements(s: seq<nat>)
    requires StrictlyIncreasing(s)
    ensures |Elements(s)| == |s|
  {
    if s != [] {
      var init := s[..|s| - 1];
      assert Elements(s) == Elements(init) + {s[|s| - 1]};
      assert s[|s| - 1] !in Elements(init);
      DistinctElements(init);
    }
  }

  /** Adjacent elements in order imply every pair in order. */
  lemma {:induction false} StepwiseIncreasing(s: seq<nat>)
    requires forall i | 0 <= i < |s| - 1 :: s[i] < s[i + 1]
    ensures StrictlyIncreasing(s)
  {
    if |s| > 1 {
      StepwiseIncreasing(s[1..]);
      forall i, j | 0 <= i < j < |s| ensures s[i] < s[j] {
        if i > 0 {
          assert s[1..][i - 1] < s[1..][j - 1];
        } else if j > 1 {
          assert s[1..][0] < s[1..][j - 1];
        }
      }
    }
  }

  /** The joint count is the sum of the three slot regions. */
  lemma JointBudget()
    ensures NumJoints == 2 * HandLandmarks + |PoseIndices|
  {
  }

  /** The pose indices are increasing, so the largest one is the last, 14. */
  lemma PoseIndicesOrdered()
    ensures StrictlyIncreasing(PoseIndices)
    ensures forall k | 0 <= k < |PoseIndices| :: PoseIndices[k] <= PoseIndices[|PoseIndices| - 1] == 14
  {
    StepwiseIncreasing(PoseIndices);
  }

  /** 31 allowed classes, in increasing order and so without duplicates. */
  lemma ClassesWellFormed()
    ensures |PerfectMappedClasses| == 31
    ensures StrictlyIncreasing(PerfectMappedClasses)
  {
    StepwiseIncreasing(PerfectMappedClasses);
  }

  /** A class the endpoint may predict: a listed class, which is also a position of the classifier's output. */
  predicate Allowed(c: nat) {
    c < NumClasses && c in PerfectMappedClasses
  }

  /** Every listed class is a position of the classifier's output, and class 0 is listed. */
  lemma ClassesInRange()
    ensures forall k | 0 <= k < |PerfectMappedClasses| :: PerfectMappedClasses[k] < NumClasses
    ensures forall c: nat | c in PerfectMappedClasses :: Allowed(c)
    ensures Allowed(0)
  {
  }

  /** The label table is keyed by exactly the allowed classes. */
  lemma LabelMapKeys()
    ensures forall c :: c in ReverseLabelMap <==> c in PerfectMappedClasses
  {
  }

  /** The label table has one entry per allowed class. */
  lemma LabelMapSize()
    ensures |ReverseLabelMap| == |PerfectMappedClasses|
  {
    LabelMapKeys();
    assert ReverseLabelMap.Keys == Elements(PerfectMappedClasses);
    ClassesWellFormed();
    DistinctElements(PerfectMappedClasses);
  }

  /** Labels grow with class indices. */
  lemma LabelMapIncreasing()
    ensures forall c1, c2 | c1 in ReverseLabelMap && c2 in ReverseLabelMap && c1 < c2 ::
      ReverseLabelMap[c1] < ReverseLabelMap[c2]
  {
  }

  /** No two classes share a label, so a label determines its class. */
  lemma LabelMapInjective()
    ensures forall c1, c2 | c1 in ReverseLabelMap && c2 in ReverseLabelMap ::
      ReverseLabelMap[c1] == ReverseLabelMap[c2] ==> c1 == c2
  {
    LabelMapIncreasing();
  }
}
