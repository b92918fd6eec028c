/** The running window of the serializer demo: a buffer of the most recent
    values and an operation counter whose sanity checks detect unserialized
    use. Values are modelled as reals; the average is computed exactly,
    without floating-point rounding. */
module RunningWindow {

  import opened Wrappers

  /** The buffer after `add(val)`: when it holds more than `windowSize + 1`
      values the oldest is erased, then `val` is appended. */
  function AddTo(values: seq<real>, windowSize: int, val: real): (r: seq<real>)
    requires |values| > windowSize + 1 ==> values != []
  {
    (if |values| > windowSize + 1 then values[1..] else values) + [val]
  }

  /** The buffer after adding every value of `vals`, in order, to an empty
      window. */
  function AddAll(windowSize: int, vals: seq<real>): (r: seq<real>)
    requires windowSize >= -1
    ensures |r| <= windowSize + 2
    ensures vals != [] ==> r != []
  {
    if vals == [] then []
    else AddTo(AddAll(windowSize, vals[..|vals| - 1]), windowSize, vals[|vals| - 1])
  }

  function Min(a: int, b: int): int
  {
    if a <= b then a else b
  }

  /** The window keeps the last min(n, windowSize + 2) values added, oldest
      first: the erase happens before the append, so one more value than
      `windowSize + 1` is retained. */
  lemma {:induction false} WindowIsSuffix(windowSize: int, vals: seq<real>)
    requires windowSize >= -1
    ensures AddAll(windowSize, vals) == vals[|vals| - Min(|vals|, windowSize + 2)..]
  {
    if vals != [] {
      var prefix := vals[..|vals| - 1];
      WindowIsSuffix(windowSize, prefix);
      WindowStep(windowSize, vals, AddAll(windowSize, prefix));
    }
  }

  /** One `add` keeps the window a suffix: if the buffer held the last
      min(n - 1, windowSize + 2) of the first n - 1 values, adding the n-th
      leaves the last min(n, windowSize + 2) values. */
  lemma WindowStep(windowSize: int, vals: seq<real>, before: seq<real>)
    requires windowSize >= -1 && vals != []
    requires before == vals[..|vals| - 1][|vals| - 1 - Min(|vals| - 1, windowSize + 2)..]
    ensures AddTo(before, windowSize, vals[|vals| - 1]) == vals[|vals| - Min(|vals|, windowSize + 2)..]
  {
    var m := Min(|vals| - 1, windowSize + 2);
    SuffixOfPrefix(vals, |vals| - 1 - m);
    if m > windowSize + 1 {
      DropOldestAppendLast(vals, m);
    } else {
      AppendLast(vals);
    }
  }

  lemma SuffixOfPrefix(vals: seq<real>, a: int)
    requires vals != [] && 0 <= a <= |vals| - 1
    ensures vals[..|vals| - 1][a..] == vals[a..|vals| - 1]
  {
  }

  lemma DropOldestAppendLast(vals: seq<real>, k: int)
    requires 1 <= k < |vals|
    ensures vals[|vals| - 1 - k..|vals| - 1][1..] + [vals[|vals| - 1]] == vals[|vals| - k..]
  {
    assert vals[|vals| - 1 - k..|vals| - 1][1..] == vals[|vals| - k..|vals| - 1];
  }

  lemma AppendLast(vals: seq<real>)
    requires vals != []
    ensures vals[0..|vals| - 1] + [vals[|vals| - 1]] == vals
  {
  }

  /** The window's size is windowSize + 2 once that many values were added,
      one more than the erase threshold suggests. */
  lemma FullWindowSize(windowSize: int, vals: seq<real>)
    requires windowSize >= -1 && |vals| >= windowSize + 2
    ensures |AddAll(windowSize, vals)| == windowSize + 2
    ensures AddAll(windowSize, vals)[|AddAll(windowSize, vals)| - 1] == vals[|vals| - 1]
  {
    WindowIsSuffix(windowSize, vals);
  }

  function Sum(values: seq<real>): real
  {
    if values == [] then 0.0 else Sum(values[..|values| - 1]) + values[|values| - 1]
  }

  /** `running_window`: the window size, the operation index and the
      buffered values. The class is not safe for concurrent use; the demo
      calls it from tasks of a serializer, so calls are sequential here. */
  class RunningWindow {
    const windowSize: int
    var opIdx: int
    var values: seq<real>

    /** A buffer whose erase never acts on an empty vector: the case the
        source leaves undefined (a size below -1 with nothing stored). */
    ghost predicate Valid()
      reads this
    {
      windowSize >= -1 || values != []
    }

    /** `running_window(size)`: no values yet, operation index 0. */
    constructor (size: int)
      ensures windowSize == size && opIdx == 0 && values == []
      ensures Valid() <==> size >= -1
    {
      windowSize := size;
      opIdx := 0;
      values := [];
    }

    /** `add(val)`: erase the oldest value when more than `windowSize + 1`
        are stored, append `val`, and count one operation. The source's
        sanity check `op_idx_ != old_idx + 1` is the assert below, which
        holds when calls do not overlap. */
    method Add(val: real)
      requires Valid()
      modifies this
      ensures Valid()
      ensures values == AddTo(old(values), windowSize, val)
      ensures values[|values| - 1] == val
      ensures opIdx == old(opIdx) + 1
      ensures windowSize >= -1 && |old(values)| <= windowSize + 2 ==> |values| <= windowSize + 2
    {
      var oldIdx := opIdx;
      if |values| > windowSize + 1 {
        values := values[1..];
      }
      values := values + [val];
      opIdx := opIdx + 1;
      assert opIdx == oldIdx + 1;
    }

    /** `get_average`: the sentinel (None for NaN) when the buffer is empty,
        otherwise the mean of the buffered values. It changes nothing, so
        its sanity check `op_idx_ != old_idx` never fires. */
    method GetAverage() returns (avg: Option<real>)
      ensures avg.None? <==> values == []
      ensures avg.Some? ==> avg.value * (|values| as real) == Sum(values)
    {
      var oldIdx := opIdx;
      if values == [] {
        return None;
      }
      var sum := Sum(values);
      assert opIdx == oldIdx;
      return Some(sum / (|values| as real));
    }
  }

  /** A sequence of `add` calls on a new window leaves exactly the last
      min(n, size + 2) values, oldest first, and an operation index of n. */
  method AddSequence(size: int, vals: seq<real>) returns (w: RunningWindow)
    requires size >= -1
    ensures fresh(w) && w.Valid()
    ensures w.values == AddAll(size, vals)
    ensures w.values == vals[|vals| - Min(|vals|, size + 2)..]
    ensures w.opIdx == |vals|
  {
    w := new RunningWindow(size);
    for i := 0 to |vals|
      invariant w.windowSize == size && w.Valid()
      invariant w.values == AddAll(size, vals[..i])
      invariant w.opIdx == i
    {
      assert vals[..i + 1][..i] == vals[..i];
      w.Add(vals[i]);
    }
    assert vals[..|vals|] == vals;
    WindowIsSuffix(size, vals);
  }
}
