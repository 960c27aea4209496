# Sign-recognition inference endpoint: discrete core

This project models the deterministic, non-numeric logic of the sign-recognition
backend's `/predict` endpoint (`backend/app.py`) and proves properties of it in Dafny 4.11.
For each uploaded video the endpoint:

1. rejects a video with no decoded frames;
2. samples 32 frame indices with `np.linspace(0, n - 1, 32, dtype=int)`;
3. runs the holistic landmark detector on each sampled frame and lays out one 47-row
   landmark frame per image: left hand in rows 0..20, right hand in rows 21..41,
   and the pose landmarks 0, 11, 12, 13, 14 in rows 42..46, with rows of undetected
   parts left at zero;
4. permutes the frames × joints × coordinates array into coordinates × frames × joints;
5. masks the classifier's 67 scores to minus infinity outside the 31 allowed classes,
   takes the first maximum (`torch.argmax`) and reports the class index together with
   its label from `reverse_label_map` (`"unknown"` if absent);
6. answers any exception with HTTP status 500.

Modules, one per step: `Config` (constants and tables), `Landmarks` (slot layout),
`Sampling` (frame indices), `Layout` (axis permutation and its inverse), `Classify`
(mask, argmax, label lookup) and `Endpoint` (`preprocess_video` and `predict`), plus
`Wrappers` (Option and Result).

The source's in-place loops are imperative methods, each proved equal to a declarative
specification function: `ExtractLandmarks` fills a zero-initialised array row by row,
`MaskScores` fills a minus-infinity array, and `PreprocessVideo` appends one landmark
frame per sampled image. The properties are proved about those functions.

Modelling choices:
- Foreign code becomes parameters. Video decoding becomes the list of decoded frames;
  the MediaPipe detector becomes `detect`; the network becomes `classifier`, whose
  output is always 67 scores.
- The detector tracks across calls, so `detect` is given every frame processed so far,
  with the current one last. The tracker is global to the server, so state left by
  earlier requests is absorbed into the choice of `detect`.
- Landmark coordinates and scores are `real`. Only equality and order are used.
- `np.linspace` with an integer `dtype` computes `i * ((n - 1) / 31)` in floating point,
  overwrites the last value with `n - 1`, and floors. The model uses exact integer
  division and keeps the explicit overwrite (`Sampling.IndexFormula` proves that the
  overwrite agrees with the formula).
  - When 31 divides `n - 1`, the floating-point step is an exact integer, so there is
    no rounding.
  - Otherwise the exact quotient is at least 1/31 away from every integer. The rounding
    error is only about `x * 2^-52`, so the floor is unchanged for any `n` below about 10^14.
- Extraction is modelled for landmark lists of any length, exactly as the indexing
  behaves. A left hand longer than 47 rows raises IndexError, as does a right hand
  longer than 26 rows or a detected pose with 14 or fewer landmarks. Shorter overlong
  hands spill into the next region; a later part's writes, if any, replace them.
  MediaPipe's actual counts (21 per hand, 33 for the pose) give the clean layout
  (`Landmarks.WellFormedLayout`).

Further facts about the code that the model keeps:
- the code does not interpolate between frames;
- it does not drop frames where detection failed (their rows stay zero);
- it does not normalise coordinates;
- it reports an empty video as the only "no usable frames" failure;
- it breaks argmax ties toward the lowest class index, because `torch.argmax` returns
  the first maximum.

## Model

| member | source | states |
|---|---|---|
| `Config.ClassesWellFormed` | backend/app.py:15 | there are 31 allowed classes, in strictly increasing order, so none is listed twice |
| `Config.ClassesInRange` | backend/app.py:15 | every allowed class is a position of the 67-wide classifier output, and class 0 is allowed |
| `Config.LabelMapKeys` | backend/app.py:15-20 | `reverse_label_map` has a key exactly for each allowed class |
| `Config.LabelMapSize` | backend/app.py:15-20 | the label table has exactly one entry per allowed class (31) |
| `Config.LabelMapIncreasing` | backend/app.py:16-20 | labels increase with class indices |
| `Config.LabelMapInjective` | backend/app.py:16-20 | no two classes share a label, so a label determines its class |
| `Config.PoseIndicesOrdered` | backend/app.py:14 | the pose indices increase and the largest is 14 |
| `Config.JointBudget` | backend/app.py:12-14 | 47 joints = 21 + 21 hand rows + 5 pose rows |
| `Landmarks.Extracted` | backend/app.py:59-71 | a successfully extracted frame has exactly 47 rows |
| `Landmarks.ExtractLandmarks` | backend/app.py:59-71 | filling a zero array with left-hand, then right-hand, then pose writes yields the last-write-wins frame, or the IndexError of the first write out of range |
| `Landmarks.FailureCases` | backend/app.py:61-70 | extraction raises for the left hand iff it has more than 47 landmarks; for the right hand iff it has more than 26; for the pose iff it has 14 or fewer; a well-formed detection never raises |
| `Landmarks.WellFormedLayout` | backend/app.py:60-70 | for a well-formed detection the frame has 47 rows: left landmark i in row i, right landmark i in row 21+i, pose landmark `POSE_INDICES[k]` in row 42+k; an undetected part's rows are zero |
| `Landmarks.RegionsPartitionFrame` | backend/app.py:63-70 | the three regions are disjoint and cover rows 0..46 |
| `Landmarks.RowOwnedByItsPart` | backend/app.py:61-70 | for MediaPipe-shaped detections (21/21/33 landmarks), a row depends only on the part owning it: changing or dropping one part leaves the others' rows unchanged |
| `Sampling.FrameIndices` | backend/app.py:87 | the sampling yields exactly 32 indices |
| `Sampling.IndexFormula` | backend/app.py:87 | index i is `floor(i * (n-1) / 31)`, the overwritten last one included |
| `Sampling.IndicesInRangeAndOrdered` | backend/app.py:87 | for n ≥ 1: 32 indices, all in [0, n-1], first 0, last n-1, non-decreasing |
| `Sampling.SingleFrameVideo` | backend/app.py:87 | a one-frame video samples frame 0 thirty-two times |
| `Sampling.EvenSpacing` | backend/app.py:87 | consecutive indices are `(n-1)/31` or `(n-1)/31 + 1` apart |
| `Sampling.LongVideoDistinctFrames` | backend/app.py:87 | with n ≥ 32 the indices strictly increase, so no frame is used twice |
| `Sampling.ShortVideoEveryFrame` | backend/app.py:87 | with n ≤ 32 every frame of the video is used at least once |
| `Layout.ChannelsFirst` | backend/app.py:95 | `transpose(2,0,1)` gives shape 3 × T × J with `out[c][t][j]` equal to coordinate c of `frames[t][j]` |
| `Layout.FramesFirst` | backend/app.py:95 | the inverse permutation gives T frames of J rows |
| `Layout.ChannelsFirstInvertible` | backend/app.py:95 | undoing the permutation gives back the frames |
| `Layout.ChannelsFirstOnto` | backend/app.py:95 | every 3 × T × J array is the permutation of the frames it regroups into |
| `Classify.MaskScores` | backend/app.py:117-118 | after the fill loop, the mask holds the score at each allowed class and minus infinity everywhere else |
| `Classify.ArgMax` | backend/app.py:119 | the result is a position of maximal value with every earlier position strictly smaller, i.e. the first maximum |
| `Classify.ArgMaxUnique` | backend/app.py:119 | those two properties single out one position |
| `Classify.PredictedIndexIsFirstAllowedMaximum` | backend/app.py:117-119 | the predicted index is an allowed class, scores at least as high as every allowed class, and strictly higher than every allowed class before it |
| `Classify.PredictedIndexDetermined` | backend/app.py:117-119 | any allowed class with those properties is the predicted index |
| `Classify.LabelKnownIffAllowed` | backend/app.py:120 | the lookup gives a table label iff the index is an allowed class, otherwise `"unknown"` |
| `Classify.LabelsDistinct` | backend/app.py:120 | two different allowed classes get different labels |
| `Classify.PredictedLabelKnown` | backend/app.py:119-120 | the label of a predicted index is its table entry, never `"unknown"` |
| `Endpoint.SampledFrames` | backend/app.py:87-89 | 32 frames are sampled, each a frame of the video; the first sampled frame is the video's first frame and the last is its last frame |
| `Endpoint.Detections` | backend/app.py:88-91 | one detection per sampled frame, detection t being the detector's result after seeing sampled frames 0..t |
| `Endpoint.DetectionsOnline` | backend/app.py:88-91 | detection is online: the detections of the first k sampled frames are the first k detections of the whole run, so later frames never change earlier results |
| `Endpoint.CollectFrames` | backend/app.py:88-93 | when collection succeeds it holds one 47-row frame per detection, each that detection's extraction |
| `Endpoint.CollectSucceeds` | backend/app.py:88-93 | if no extraction raises, collection succeeds |
| `Endpoint.CollectFailurePersists` | backend/app.py:88-93 | once an extraction has raised, the loop's result is that exception |
| `Endpoint.FirstFailureReported` | backend/app.py:88-93 | the exception reported is that of the first sampled frame whose extraction raises |
| `Endpoint.PreprocessVideo` | backend/app.py:73-96 | the sampling, detection, extraction and permutation loop returns the specified tensor or exception |
| `Endpoint.PreprocessedTensor` | backend/app.py:86-95 | a successful preprocessing has shape 3 × 32 × 47, and entry [c][t][j] is coordinate c of row j extracted from the t-th sampled frame |
| `Endpoint.PreprocessedFailure` | backend/app.py:88-93 | preprocessing raises the IndexError of the first sampled frame whose extraction raises |
| `Endpoint.EmptyVideoRejected` | backend/app.py:83-84 | a video without frames is answered with status 500 and the empty-video error, whatever the detector and the classifier would return |
| `Endpoint.Predict` | backend/app.py:103-126 | the endpoint's answer is the specified response: the prediction, or status 500 with the exception |
| `Endpoint.NonEmptyVideoPredicted` | backend/app.py:114-122 | with MediaPipe's landmark counts, every non-empty video gets a prediction: the masked first maximum of the classifier's scores |
| `Endpoint.ResponseSound` | backend/app.py:114-126 | every prediction names an allowed, maximal class (the lowest on ties) with its table label; every error has status 500 |

## Left out

- `backend/model.py`, the network: floating-point convolutions, recurrence and attention. It is the `classifier` parameter, whose only modelled property is its 67-wide output.
- Video decoding (`cv2.VideoCapture`, `cap.read`), colour conversion and MediaPipe's `holistic_model.process`: foreign calls, represented by the decoded frame list and the `detect` parameter.
- float32 storage of coordinates and scores: the model uses exact reals. NaN and infinite classifier scores are not modelled.
- The batch dimension added by `unsqueeze(0)` and removed by `[0, …]` and `.item()`: it has no effect on the values.
- Writing and deleting the temporary upload file, FastAPI routing (the `/` liveness route included), CORS configuration, weight loading and the uvicorn launcher: I/O and infrastructure.
- Exceptions raised inside foreign code (decoding, the network, the file system) also become status 500 in the source; only the endpoint's own ValueError and IndexErrors are represented.
- The text of the HTTP error detail (`"Prediction failed: <type> - <message>"`): the model keeps the exception, not its message string.
- Concurrency between requests.
