/**
 * The decision step of `predict`: scores of classes outside
 * PerfectMappedClasses are masked to minus infinity, the first maximal
 * position of the masked scores is the predicted class index, and that index
 * is turned into a label through ReverseLabelMap, "unknown" if absent.
 */
module Classify {
  import opened Config

  /** One classifier score per class. */
  type Logits = s: seq<real> | |s| == NumClasses witness seq(NumClasses, _ => 0.0)

  /** A masked score: minus infinity, or a score kept from the classifier. */
  datatype Masked = NegInf | Score(value: real)

  /** The strict order of masked scores; minus infinity is below every score. */
  predicate Below(a: Masked, b: Masked) {
    match a
    case NegInf => b.Score?
    case Score(x) => b.Score? && x < b.value
  }

  /** The label reported for a class index: a table value or "unknown". */
  datatype Label = LabelOf(id: nat) | Unknown

  /** The mask the source builds, as a value. */
  function MaskOf(scores: Logits): seq<Masked> {
    seq(NumClasses, k requires 0 <= k < NumClasses =>
      if k in PerfectMappedClasses then Score(scores[k]) else NegInf)
  }

  /**
   * Fills a table with minus infinity, then copies the score of each allowed
   * class into its position.
   */
  method MaskScores(scores: Logits) returns (mask: seq<Masked>)
    ensures |mask| == NumClasses
    ensures forall k | 0 <= k < NumClasses ::
      mask[k] == if k in PerfectMappedClasses then Score(scores[k]) else NegInf
  {
    ClassesInRange();
    var m := new Masked[NumClasses](_ => NegInf);
    for i := 0 to |PerfectMappedClasses|
      invariant forall k | 0 <= k < NumClasses ::
        m[k] == if k in PerfectMappedClasses[..i] then Score(scores[k]) else NegInf
    {
      var c := PerfectMappedClasses[i];
      assert PerfectMappedClasses[..i + 1] == PerfectMappedClasses[..i] + [c];
      m[c] := Score(scores[c]);
    }
    assert PerfectMappedClasses[..|PerfectMappedClasses|] == PerfectMappedClasses;
    mask := m[..];
  }

  /** `torch.argmax`: the first position holding the largest value. */
  function ArgMax(s: seq<Masked>): (r: nat)
    requires |s| > 0
    ensures r < |s|
    ensures forall j | 0 <= j < |s| :: !Below(s[r], s[j])
    ensures forall j | 0 <= j < r :: Below(s[j], s[r])
    decreases |s|
  {
    if |s| == 1 then 0
    else
      var k := ArgMax(s[..|s| - 1]);
      if Below(s[k], s[|s| - 1]) then |s| - 1 else k
  }

  /** The two properties of ArgMax single out one position. */
  lemma ArgMaxUnique(s: seq<Masked>, r: nat)
    requires r < |s|
    requires forall j | 0 <= j < |s| :: !Below(s[r], s[j])
    requires forall j | 0 <= j < r :: Below(s[j], s[r])
    ensures ArgMax(s) == r
  {
  }

  /** The class index `predict` chooses from the classifier's scores. */
  function PredictedIndex(scores: Logits): nat {
    ArgMax(MaskOf(scores))
  }

  /**
   * The predicted index is an allowed class, its score is at least that of
   * every allowed class, and every allowed class before it scores strictly less.
   */
  lemma PredictedIndexIsFirstAllowedMaximum(scores: Logits)
    ensures Allowed(PredictedIndex(scores))
    ensures forall c: nat | Allowed(c) :: scores[c] <= scores[PredictedIndex(scores)]
    ensures forall c: nat | Allowed(c) && c < PredictedIndex(scores) :: scores[c] < scores[PredictedIndex(scores)]
  {
    ClassesInRange();
    var m, p := MaskOf(scores), PredictedIndex(scores);
    assert !Below(m[p], m[0]);
    forall c: nat | Allowed(c) ensures scores[c] <= scores[p] {
      assert !Below(m[p], m[c]);
    }
    forall c: nat | Allowed(c) && c < p ensures scores[c] < scores[p] {
      assert Below(m[c], m[p]);
    }
  }

  /** Any allowed class meeting those conditions is the predicted index: the choice has no freedom. */
  lemma PredictedIndexDetermined(scores: Logits, p: nat)
    requires Allowed(p)
    requires forall c: nat | Allowed(c) :: scores[c] <= scores[p]
    requires forall c: nat | Allowed(c) && c < p :: scores[c] < scores[p]
    ensures PredictedIndex(scores) == p
  {
    ClassesInRange();
    NothingAboveInMask(scores, p);
    AllBelowBeforeInMask(scores, p);
    ArgMaxUnique(MaskOf(scores), p);
  }

  lemma NothingAboveInMask(scores: Logits, p: nat)
    requires Allowed(p)
    requires forall c: nat | Allowed(c) :: scores[c] <= scores[p]
    ensures forall j | 0 <= j < NumClasses :: !Below(MaskOf(scores)[p], MaskOf(scores)[j])
  {
    forall j | 0 <= j < NumClasses ensures !Below(MaskOf(scores)[p], MaskOf(scores)[j]) {
      MaskComparison(scores, p, j);
    }
  }

  lemma AllBelowBeforeInMask(scores: Logits, p: nat)
    requires Allowed(p)
    requires forall c: nat | Allowed(c) && c < p :: scores[c] < scores[p]
    ensures forall j | 0 <= j < p :: Below(MaskOf(scores)[j], MaskOf(scores)[p])
  {
    forall j | 0 <= j < p ensures Below(MaskOf(scores)[j], MaskOf(scores)[p]) {
      MaskComparison(scores, p, j);
    }
  }

  /** How an allowed position's masked score compares with position j's. */
  lemma MaskComparison(scores: Logits, p: nat, j: nat)
    requires Allowed(p) && j < NumClasses
    ensures Below(MaskOf(scores)[j], MaskOf(scores)[p]) <==> !Allowed(j) || scores[j] < scores[p]
    ensures Below(MaskOf(scores)[p], MaskOf(scores)[j]) <==> Allowed(j) && scores[p] < scores[j]
  {
    ClassesInRange();
  }

  /** `reverse_label_map.get(index, "unknown")`. */
  function LabelFor(index: nat): Label {
    if index in ReverseLabelMap then LabelOf(ReverseLabelMap[index]) else Unknown
  }

  /** A class index gets a table label exactly when it is an allowed class. */
  lemma LabelKnownIffAllowed(index: nat)
    ensures LabelFor(index).LabelOf? <==> Allowed(index)
  {
    LabelMapKeys();
    ClassesInRange();
  }

  /** Two allowed classes never get the same label. */
  lemma LabelsDistinct(c1: nat, c2: nat)
    requires Allowed(c1) && Allowed(c2) && c1 != c2
    ensures LabelFor(c1) != LabelFor(c2)
  {
    LabelKnownIffAllowed(c1);
    LabelKnownIffAllowed(c2);
    LabelMapInjective();
  }

  /** The label of a predicted index is never "unknown". */
  lemma PredictedLabelKnown(scores: Logits)
    ensures PredictedIndex(scores) in ReverseLabelMap
    ensures LabelFor(PredictedIndex(scores)) == LabelOf(ReverseLabelMap[PredictedIndex(scores)])
  {
    PredictedIndexIsFirstAllowedMaximum(scores);
    LabelMapKeys();
  }
}
