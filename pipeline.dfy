/** The five-stage frame pipeline demo. Each stage function asserts the
    stage a frame is in and advances it by one. The pipeline runtime (stage
    orderings, the in-flight cap) is not part of this model: it is reduced to
    running a frame's stages in the order they were declared. */
module Pipeline {

  import opened Wrappers

  /** The number of stages a frame goes through. */
  const StageCount: int := 5

  /** `frame_data`: the frame index and the stage the frame reached. */
  class FrameData {
    const frameIdx: int
    var stage: int

    /** `frame_data(idx)`: stage 0. */
    constructor (idx: int)
      ensures frameIdx == idx && stage == 0
    {
      frameIdx := idx;
      stage := 0;
    }
  }

  // Each stage's `assert(frm.stage_ == k)` is a precondition: the model
  // describes a build where the asserts are active.

  /** `parse_frame`: stage 0 to 1. */
  method ParseFrame(frm: FrameData)
    requires frm.stage == 0
    modifies frm
    ensures frm.stage == 1
  {
    frm.stage := frm.stage + 1;
  }

  /** `preprocess_frame`: stage 1 to 2. */
  method PreprocessFrame(frm: FrameData)
    requires frm.stage == 1
    modifies frm
    ensures frm.stage == 2
  {
    frm.stage := frm.stage + 1;
  }

  /** `decode_frame`: stage 2 to 3. */
  method DecodeFrame(frm: FrameData)
    requires frm.stage == 2
    modifies frm
    ensures frm.stage == 3
  {
    frm.stage := frm.stage + 1;
  }

  /** `postprocess_frame`: stage 3 to 4. */
  method PostprocessFrame(frm: FrameData)
    requires frm.stage == 3
    modifies frm
    ensures frm.stage == 4
  {
    frm.stage := frm.stage + 1;
  }

  /** `write_frame`: stage 4 to 5. */
  method WriteFrame(frm: FrameData)
    requires frm.stage == 4
    modifies frm
    ensures frm.stage == 5
  {
    frm.stage := frm.stage + 1;
  }

  /** One pushed frame through the stages in the order the builder declares
      them. */
  method RunStages(frm: FrameData)
    requires frm.stage == 0
    modifies frm
    ensures frm.stage == StageCount
  {
    ParseFrame(frm);
    PreprocessFrame(frm);
    DecodeFrame(frm);
    PostprocessFrame(frm);
    WriteFrame(frm);
  }

  /** The demo pushes `frame_data{i}` for i in 0..39; once the pipeline has
      drained every frame is at the last stage and keeps its index. */
  method PushFrames(count: nat) returns (frames: seq<FrameData>)
    ensures |frames| == count
    ensures forall i :: 0 <= i < count ==> frames[i].frameIdx == i && frames[i].stage == StageCount
    ensures forall i, j :: 0 <= i < j < count ==> frames[i] != frames[j]
  {
    frames := [];
    for i := 0 to count
      invariant |frames| == i
      invariant forall k :: 0 <= k < i ==> frames[k].frameIdx == k && frames[k].stage == StageCount
      invariant forall k, l :: 0 <= k < l < i ==> frames[k] != frames[l]
    {
      var frm := new FrameData(i);
      RunStages(frm);
      frames := frames + [frm];
    }
  }

  /** The stage protocol as a function: stage k (0 = parse ... 4 = write)
      applied to a frame in stage s succeeds only when s == k, and then the
      frame is in stage s + 1. None stands for a failed assert. */
  function Apply(k: int, s: int): (r: Option<int>)
    ensures r.Some? <==> s == k
    ensures r.Some? ==> r.value == s + 1
  {
    if s == k then Some(s + 1) else None
  }

  /** Run stages in the given order, starting from stage s. */
  function RunOrder(order: seq<int>, s: int): Option<int>
  {
    if order == [] then Some(s)
    else
      match Apply(order[0], s)
      case None => None
      case Some(s') => RunOrder(order[1..], s')
  }

  /** The sequence s, s + 1, ..., s + n - 1. */
  function Consecutive(s: int, n: nat): (r: seq<int>)
    ensures |r| == n && forall i :: 0 <= i < n ==> r[i] == s + i
  {
    seq(n, i => s + i)
  }

  /** Running stages from stage s never trips an assert exactly when they
      are s, s + 1, ... in that order, and then the frame ends in stage
      s + |order|. */
  lemma {:induction false} RunOrderSucceedsIff(order: seq<int>, s: int)
    ensures RunOrder(order, s).Some? <==> order == Consecutive(s, |order|)
    ensures RunOrder(order, s).Some? ==> RunOrder(order, s).value == s + |order|
  {
    if order != [] {
      RunOrderSucceedsIff(order[1..], s + 1);
      if order[0] == s {
        assert order == [s] + order[1..];
        assert Consecutive(s, |order|) == [s] + Consecutive(s + 1, |order| - 1);
      } else {
        assert order[0] != Consecutive(s, |order|)[0];
      }
    }
  }

  /** The declared order takes a new frame from stage 0 to stage 5, and it is
      the only order of five stage calls that does so without failing an
      assert. */
  lemma DeclaredOrderIsTheOnlyOne(order: seq<int>)
    requires |order| == StageCount
    ensures RunOrder(order, 0) == Some(StageCount) <==> order == [0, 1, 2, 3, 4]
  {
    RunOrderSucceedsIff(order, 0);
    assert Consecutive(0, 5) == [0, 1, 2, 3, 4];
  }
}
