/**
 * Axis permutation of `preprocess_video`: the frames-by-joints-by-coordinates
 * array built from the sampled frames is reordered with `transpose(2, 0, 1)`
 * into coordinates-by-frames-by-joints, the classifier's input layout.
 */
module Layout {
  import opened Landmarks

  /** The coordinate axis: x, y, z. */
  const Channels: nat := 3

  type Tensor = seq<seq<seq<real>>>

  /** Coordinate c of a landmark row. */
  function Channel(l: Landmark, c: nat): real
    requires c < Channels
  {
    if c == 0 then l.x else if c == 1 then l.y else l.z
  }

  /** t is an a-by-b-by-c array. */
  predicate HasShape(t: Tensor, a: nat, b: nat, c: nat) {
    && |t| == a
    && forall i | 0 <= i < a :: |t[i]| == b && forall j | 0 <= j < b :: |t[i][j]| == c
  }

  /** Every frame of the sequence has the same number of rows. */
  predicate Rectangular(frames: seq<seq<Landmark>>, joints: nat) {
    forall t | 0 <= t < |frames| :: |frames[t]| == joints
  }

  /** `transpose(2, 0, 1)`: entry [t][j][c] moves to [c][t][j]. */
  function ChannelsFirst(frames: seq<seq<Landmark>>, joints: nat): (out: Tensor)
    requires Rectangular(frames, joints)
    ensures HasShape(out, Channels, |frames|, joints)
    ensures forall c, t, j | 0 <= c < Channels && 0 <= t < |frames| && 0 <= j < joints ::
      out[c][t][j] == Channel(frames[t][j], c)
  {
    seq(Channels, c requires 0 <= c < Channels =>
      seq(|frames|, t requires 0 <= t < |frames| =>
        seq(joints, j requires 0 <= j < joints => Channel(frames[t][j], c))))
  }

  /** The inverse permutation, `transpose(1, 2, 0)`, regrouping the three coordinates into rows. */
  function FramesFirst(x: Tensor, count: nat, joints: nat): (frames: seq<seq<Landmark>>)
    requires HasShape(x, Channels, count, joints)
    ensures |frames| == count && Rectangular(frames, joints)
  {
    seq(count, t requires 0 <= t < count =>
      seq(joints, j requires 0 <= j < joints => Landmark(x[0][t][j], x[1][t][j], x[2][t][j])))
  }

  /** The permutation loses nothing: undoing it gives back the frames. */
  lemma ChannelsFirstInvertible(frames: seq<seq<Landmark>>, joints: nat)
    requires Rectangular(frames, joints)
    ensures FramesFirst(ChannelsFirst(frames, joints), |frames|, joints) == frames
  {
    var back := FramesFirst(ChannelsFirst(frames, joints), |frames|, joints);
    forall t | 0 <= t < |frames| ensures back[t] == frames[t] {
    }
  }

  /** Every array of the classifier's layout is the permutation of exactly one frame sequence. */
  lemma ChannelsFirstOnto(x: Tensor, count: nat, joints: nat)
    requires HasShape(x, Channels, count, joints)
    ensures ChannelsFirst(FramesFirst(x, count, joints), joints) == x
  {
    var again := ChannelsFirst(FramesFirst(x, count, joints), joints);
    forall c | 0 <= c < Channels ensures again[c] == x[c] {
      forall t | 0 <= t < count ensures again[c][t] == x[c][t] {
      }
    }
  }
}
