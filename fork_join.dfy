/** The fork-join demo: apply `f` to every index of [start, end) by
    splitting the range in two halves until it is small enough, then
    enumerating it. Only the indices that `f` receives are modelled: `f`
    itself is the caller's. */
module ForkJoin {

  /** Every index of [start, end) in ascending order; empty when end <= start. */
  function Range(start: int, end: int): (r: seq<int>)
    ensures |r| == if end <= start then 0 else end - start
    ensures forall k :: 0 <= k < |r| ==> r[k] == start + k
    decreases end - start
  {
    if end <= start then [] else [start] + Range(start + 1, end)
  }

  function Flatten(chunks: seq<seq<int>>): seq<int>
  {
    if chunks == [] then [] else chunks[0] + Flatten(chunks[1..])
  }

  /** The split point `start + (end - start) / 2`. It is only computed when
      end - start is positive, where C++'s truncating division and Dafny's
      Euclidean division agree. */
  function Mid(start: int, end: int): (mid: int)
    requires start < end
    ensures start <= mid < end
    ensures end - start >= 2 ==> start < mid
  {
    start + (end - start) / 2
  }

  /** The recursion reaches a leaf: either the range is a leaf already, or
      each split makes progress because the granularity is at least 1. */
  predicate Terminates(start: int, end: int, granularity: int)
  {
    end - start <= granularity || granularity >= 1
  }

  /** With granularity <= 0 a range of length 1 is not a leaf, and its second
      half is the very same range, so `conc_apply` calls itself with
      unchanged arguments forever. */
  lemma UnitRangeRecursesOnItself(start: int, granularity: int)
    requires granularity <= 0
    ensures !Terminates(start, start + 1, granularity)
    ensures (start + 1) - start > granularity && Mid(start, start + 1) == start
  {
  }

  /** `conc_apply`: the leaf loops of the recursion, each the indices on
      which one leaf calls `f`, in ascending order. The two halves run as
      two tasks; the model lists the first half's leaves before the second
      half's, but nothing orders leaves of different halves at run time. */
  function ConcApply(start: int, end: int, granularity: int): (leaves: seq<seq<int>>)
    requires Terminates(start, end, granularity)
    ensures Flatten(leaves) == Range(start, end)
    ensures forall i :: 0 <= i < |leaves| ==> leaves[i] == [] || |leaves[i]| <= granularity
    decreases end - start
  {
    if end - start <= granularity then
      [Range(start, end)]
    else
      var mid := Mid(start, end);
      var first := ConcApply(start, mid, granularity);
      var second := ConcApply(mid, end, granularity);
      FlattenAppend(first, second);
      RangeSplit(start, mid, end);
      first + second
  }

  /** `conc_apply_variant`: the same split, with both halves delegated to
      `conc_apply` through a task group. */
  function ConcApplyVariant(start: int, end: int, granularity: int): (leaves: seq<seq<int>>)
    requires Terminates(start, end, granularity)
  {
    if end - start <= granularity then
      [Range(start, end)]
    else
      var mid := Mid(start, end);
      ConcApply(start, mid, granularity) + ConcApply(mid, end, granularity)
  }

  /** The variant applies `f` to exactly the same indices as `conc_apply`,
      each once: both cover the range [start, end). */
  lemma VariantCoversSameIndices(start: int, end: int, granularity: int)
    requires Terminates(start, end, granularity)
    ensures Flatten(ConcApplyVariant(start, end, granularity)) == Range(start, end)
    ensures ConcApplyVariant(start, end, granularity) == ConcApply(start, end, granularity)
  {
    if end - start > granularity {
      var mid := Mid(start, end);
      FlattenAppend(ConcApply(start, mid, granularity), ConcApply(mid, end, granularity));
      RangeSplit(start, mid, end);
    }
  }

  /** Every index of the range is visited exactly once, whatever the
      granularity (as long as the recursion ends). */
  lemma EachIndexOnce(start: int, end: int, granularity: int, i: int)
    requires Terminates(start, end, granularity)
    ensures multiset(Flatten(ConcApply(start, end, granularity)))[i]
            == if start <= i < end then 1 else 0
  {
    RangeMultiplicity(start, end, i);
  }

  lemma {:induction false} RangeMultiplicity(start: int, end: int, i: int)
    ensures multiset(Range(start, end))[i] == if start <= i < end then 1 else 0
    decreases end - start
  {
    if end > start {
      RangeMultiplicity(start + 1, end, i);
      assert Range(start, end) == [start] + Range(start + 1, end);
    }
  }

  lemma {:induction false} FlattenAppend(a: seq<seq<int>>, b: seq<seq<int>>)
    ensures Flatten(a + b) == Flatten(a) + Flatten(b)
    decreases |a|
  {
    if a != [] {
      assert (a + b)[1..] == a[1..] + b;
      FlattenAppend(a[1..], b);
    } else {
      assert a + b == b;
    }
  }

  lemma {:induction false} RangeSplit(start: int, mid: int, end: int)
    requires start <= mid <= end
    ensures Range(start, mid) + Range(mid, end) == Range(start, end)
  {
    var l, r, whole := Range(start, mid), Range(mid, end), Range(start, end);
    assert |l + r| == |whole|;
    forall k | 0 <= k < |whole| ensures (l + r)[k] == whole[k] {
      if k < |l| { assert (l + r)[k] == l[k]; } else { assert (l + r)[k] == r[k - |l|]; }
    }
  }

  /** The demo calls `conc_apply(0, 20, 1, work)`: leaves of at most one
      index each, together covering 0..19. */
  lemma DemoCall()
    ensures Flatten(ConcApply(0, 20, 1)) == Range(0, 20)
    ensures forall i :: 0 <= i < |ConcApply(0, 20, 1)| ==> |ConcApply(0, 20, 1)[i]| <= 1
  {
  }
}
