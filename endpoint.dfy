/**
 * The `/predict` pipeline: `preprocess_video` turns the decoded frames into
 * the classifier's 3 x 32 x 47 input, and `predict` classifies it and answers
 * with the label and class index, or with status 500 when anything raised.
 *
 * Decoding, the detector and the network are foreign code; they appear as
 * the decoded frame list, the function `detect` and the function `classifier`.
 * The detector tracks across calls, so it is given every frame processed so
 * far, the current one last.
 */
module Endpoint {
  import opened Wrappers
  import opened Config
  import opened Landmarks
  import opened Sampling
  import opened Layout
  import opened Classify

  /** The exceptions raised on the way to a prediction. */
  datatype Error =
    | EmptyVideo          // ValueError: the video had no frames
    | IndexError(part: Part)  // a landmark write outside the table, or a missing pose landmark

  /** The endpoint's answer: a prediction, or an HTTP error carrying the exception. */
  datatype Response =
    | Predicted(predictedClass: Label, classId: nat)
    | HttpError(status: nat, error: Error)

  const InternalServerError: nat := 500

  /**
   * The frames handed to the detector, in order: 32 frames of the video,
   * the first one first and the last one last.
   */
  function SampledFrames<F>(frames: seq<F>): (sampled: seq<F>)
    requires |frames| >= 1
    ensures |sampled| == SequenceLength
    ensures forall t | 0 <= t < SequenceLength :: sampled[t] == frames[FrameIndices(|frames|)[t]]
    ensures sampled[0] == frames[0] && sampled[SequenceLength - 1] == frames[|frames| - 1]
    ensures forall t | 0 <= t < SequenceLength :: sampled[t] in frames
  {
    IndicesInRangeAndOrdered(|frames|);
    var idx := FrameIndices(|frames|);
    seq(SequenceLength, t requires 0 <= t < SequenceLength => frames[idx[t]])
  }

  /** The detector's result for each sampled frame, given the frames processed before it. */
  function Detections<F>(sampled: seq<F>, detect: seq<F> -> Detection): (ds: seq<Detection>)
    ensures |ds| == |sampled|
    ensures forall t | 0 <= t < |sampled| :: ds[t] == detect(sampled[..t + 1])
  {
    seq(|sampled|, t requires 0 <= t < |sampled| => detect(sampled[..t + 1]))
  }

  /**
   * The detections are produced online: the detections of the first k
   * sampled frames do not depend on any frame processed after them.
   */
  lemma DetectionsOnline<F>(sampled: seq<F>, detect: seq<F> -> Detection, k: nat)
    requires k <= |sampled|
    ensures Detections(sampled[..k], detect) == Detections(sampled, detect)[..k]
  {
    var prefix := sampled[..k];
    forall t | 0 <= t < k ensures Detections(prefix, detect)[t] == Detections(sampled, detect)[t] {
      assert prefix[..t + 1] == sampled[..t + 1];
    }
  }

  /** The landmark frames of the detections in order, or the first IndexError. */
  function CollectFrames(ds: seq<Detection>): (r: Result<seq<seq<Landmark>>, Part>)
    ensures r.Success? ==> |r.value| == |ds| && Rectangular(r.value, NumJoints)
    ensures r.Success? ==> forall t | 0 <= t < |ds| :: Extracted(ds[t]) == Success(r.value[t])
  {
    if ds == [] then Success([])
    else
      match CollectFrames(ds[..|ds| - 1])
      case Failure(p) => Failure(p)
      case Success(fs) =>
        match Extracted(ds[|ds| - 1])
        case Failure(p) => Failure(p)
        case Success(f) => Success(fs + [f])
  }

  /** The tensor `preprocess_video` returns, or the exception it raises. */
  function Preprocessed<F>(frames: seq<F>, detect: seq<F> -> Detection): Result<Tensor, Error> {
    if |frames| == 0 then Failure(EmptyVideo)
    else
      match CollectFrames(Detections(SampledFrames(frames), detect))
      case Failure(p) => Failure(IndexError(p))
      case Success(js) => Success(ChannelsFirst(js, NumJoints))
  }

  /** The response of `predict` for a video and the classifier's scores. */
  function Respond<F>(frames: seq<F>, detect: seq<F> -> Detection, classifier: Tensor -> Logits): Response {
    match Preprocessed(frames, detect)
    case Failure(e) => HttpError(InternalServerError, e)
    case Success(x) =>
      var p := PredictedIndex(classifier(x));
      Predicted(LabelFor(p), p)
  }

  /** Once some frame's extraction has raised, so has the whole sequence's, with that part. */
  lemma {:induction false} CollectFailurePersists(ds: seq<Detection>, k: nat)
    requires k <= |ds| && CollectFrames(ds[..k]).Failure?
    ensures CollectFrames(ds) == CollectFrames(ds[..k])
    decreases |ds| - k
  {
    if k < |ds| {
      assert ds[..k + 1][..k] == ds[..k];
      CollectFailurePersists(ds, k + 1);
    } else {
      assert ds[..k] == ds;
    }
  }

  /** If every detection extracts, the frames are collected. */
  lemma {:induction false} CollectSucceeds(ds: seq<Detection>)
    requires forall t | 0 <= t < |ds| :: Extracted(ds[t]).Success?
    ensures CollectFrames(ds).Success?
  {
    if ds != [] {
      CollectSucceeds(ds[..|ds| - 1]);
    }
  }

  /** If detection t is the first whose extraction raises, its exception is the one reported. */
  lemma {:induction false} FirstFailureReported(ds: seq<Detection>, t: nat)
    requires t < |ds| && Extracted(ds[t]).Failure?
    requires forall u | 0 <= u < t :: Extracted(ds[u]).Success?
    ensures CollectFrames(ds) == Failure(Extracted(ds[t]).error)
  {
    var prefix := ds[..t + 1];
    CollectSucceeds(ds[..t]);
    assert prefix[..t] == ds[..t];
    CollectFailurePersists(ds, t + 1);
  }

  /** A video without frames fails with the empty-video error, whatever the detector and the classifier would do. */
  lemma EmptyVideoRejected<F>(frames: seq<F>, detect: seq<F> -> Detection, classifier: Tensor -> Logits,
                              detect': seq<F> -> Detection, classifier': Tensor -> Logits)
    requires |frames| == 0
    ensures Respond(frames, detect, classifier) == HttpError(InternalServerError, EmptyVideo)
    ensures Respond(frames, detect, classifier) == Respond(frames, detect', classifier')
  {
  }

  /**
   * A successful preprocessing yields a 3 x 32 x 47 tensor whose entry
   * [c][t][j] is coordinate c of row j extracted from the t-th sampled frame.
   */
  lemma PreprocessedTensor<F>(frames: seq<F>, detect: seq<F> -> Detection)
    requires Preprocessed(frames, detect).Success?
    ensures |frames| >= 1
    ensures HasShape(Preprocessed(frames, detect).value, Channels, SequenceLength, NumJoints)
    ensures forall t | 0 <= t < SequenceLength ::
      Extracted(Detections(SampledFrames(frames), detect)[t]).Success?
    ensures forall c, t, j | 0 <= c < Channels && 0 <= t < SequenceLength && 0 <= j < NumJoints ::
      Preprocessed(frames, detect).value[c][t][j] ==
        Channel(Extracted(Detections(SampledFrames(frames), detect)[t]).value[j], c)
  {
    var ds := Detections(SampledFrames(frames), detect);
    assert CollectFrames(ds).Success?;
  }

  /** Preprocessing raises exactly when some sampled frame's extraction does, and reports the first. */
  lemma PreprocessedFailure<F>(frames: seq<F>, detect: seq<F> -> Detection, t: nat)
    requires |frames| >= 1 && t < SequenceLength
    requires Extracted(Detections(SampledFrames(frames), detect)[t]).Failure?
    requires forall u | 0 <= u < t :: Extracted(Detections(SampledFrames(frames), detect)[u]).Success?
    ensures Preprocessed(frames, detect) == Failure(IndexError(Extracted(Detections(SampledFrames(frames), detect)[t]).error))
  {
    FirstFailureReported(Detections(SampledFrames(frames), detect), t);
  }

  /**
   * With a detector that returns MediaPipe's landmark counts, every non-empty
   * video gets a prediction: an allowed class scoring at least as high as every
   * other allowed class (strictly higher than those before it), reported with
   * its label from the table, never "unknown".
   */
  lemma NonEmptyVideoPredicted<F>(frames: seq<F>, detect: seq<F> -> Detection, classifier: Tensor -> Logits)
    requires |frames| >= 1
    requires forall history: seq<F> :: WellFormed(detect(history))
    ensures Preprocessed(frames, detect).Success?
    ensures Respond(frames, detect, classifier).Predicted?
    ensures Respond(frames, detect, classifier).classId == PredictedIndex(classifier(Preprocessed(frames, detect).value))
  {
    var ds := Detections(SampledFrames(frames), detect);
    forall t | 0 <= t < |ds| ensures Extracted(ds[t]).Success? {
      FailureCases(ds[t]);
    }
    CollectSucceeds(ds);
  }

  /**
   * Every prediction names an allowed class that has a maximal score,
   * the lowest such class on ties, and its table label; every error is a 500.
   */
  lemma ResponseSound<F>(frames: seq<F>, detect: seq<F> -> Detection, classifier: Tensor -> Logits)
    ensures Respond(frames, detect, classifier).HttpError? ==> Respond(frames, detect, classifier).status == 500
    ensures Respond(frames, detect, classifier).Predicted? ==>
      var resp, scores := Respond(frames, detect, classifier), classifier(Preprocessed(frames, detect).value);
      && Allowed(resp.classId)
      && resp.classId in ReverseLabelMap
      && resp.predictedClass == LabelOf(ReverseLabelMap[resp.classId])
      && (forall c: nat | Allowed(c) :: scores[c] <= scores[resp.classId])
      && (forall c: nat | Allowed(c) && c < resp.classId :: scores[c] < scores[resp.classId])
  {
    if Preprocessed(frames, detect).Success? {
      var scores := classifier(Preprocessed(frames, detect).value);
      PredictedIndexIsFirstAllowedMaximum(scores);
      PredictedLabelKnown(scores);
    }
  }

  /**
   * Samples the frames, runs the detector and the extraction on each in turn,
   * appending the landmark frames, and permutes the axes.
   */
  method PreprocessVideo<F>(frames: seq<F>, detect: seq<F> -> Detection) returns (r: Result<Tensor, Error>)
    ensures r == Preprocessed(frames, detect)
  {
    if |frames| == 0 {
      return Failure(EmptyVideo);
    }
    var indices := FrameIndices(|frames|);
    IndicesInRangeAndOrdered(|frames|);
    ghost var sampled := SampledFrames(frames);
    ghost var ds := Detections(sampled, detect);
    var processed: seq<F> := [];
    var jointSeq: seq<seq<Landmark>> := [];
    for t := 0 to |indices|
      invariant processed == sampled[..t]
      invariant CollectFrames(ds[..t]) == Success(jointSeq)
    {
      processed := processed + [frames[indices[t]]];
      assert processed == sampled[..t + 1];
      assert ds[..t + 1][..t] == ds[..t] && ds[..t + 1][t] == ds[t] == detect(processed);
      var coords := ExtractLandmarks(detect(processed));
      if coords.Failure? {
        CollectFailurePersists(ds, t + 1);
        return Failure(IndexError(coords.error));
      }
      jointSeq := jointSeq + [coords.value];
    }
    assert ds[..|indices|] == ds;
    r := Success(ChannelsFirst(jointSeq, NumJoints));
  }

  /** Preprocesses, masks the classifier's scores, takes the first maximum and looks up its label. */
  method Predict<F>(frames: seq<F>, detect: seq<F> -> Detection, classifier: Tensor -> Logits)
    returns (resp: Response)
    ensures resp == Respond(frames, detect, classifier)
  {
    var x := PreprocessVideo(frames, detect);
    if x.Failure? {
      return HttpError(InternalServerError, x.error);
    }
    var output := classifier(x.value);
    var mask := MaskScores(output);
    assert mask == MaskOf(output);
    var p := ArgMax(mask);
    resp := Predicted(LabelFor(p), p);
  }
}
