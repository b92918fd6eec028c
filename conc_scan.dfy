/** The prefix-sum demo: building an arithmetic sequence, and the addition
    operator handed to the parallel scan. */
module ConcScan {

  datatype Result<T> = Ok(value: T) | LengthError

  /** The scan operator `op(id, i) = id + i`. */
  function ScanOp(acc: int, x: int): int
  {
    acc + x
  }

  /** The initial value passed to the scan. */
  const ScanIdentity: int := 0

  /** The operator is associative and 0 is neutral on both sides: what a
      parallel scan needs to split its input arbitrarily. */
  lemma ScanOpIsMonoid(a: int, b: int, c: int)
    ensures ScanOp(ScanOp(a, b), c) == ScanOp(a, ScanOp(b, c))
    ensures ScanOp(ScanIdentity, a) == a && ScanOp(a, ScanIdentity) == a
  {
  }

  /** Element i of `create_consecutive_seq(count, start, step)`. */
  function Term(start: int, step: int, i: int): int
  {
    start + i * step
  }

  /** `create_consecutive_seq`: `reserve(count)` then `count` pushes of
      `start + i*step`. A negative count converts to a huge unsigned size, on
      which `reserve` throws `std::length_error`; the model returns
      LengthError for it. */
  method CreateConsecutiveSeq(count: int, start: int, step: int) returns (r: Result<seq<int>>)
    ensures r.LengthError? <==> count < 0
    ensures r.Ok? ==> |r.value| == count
    ensures r.Ok? ==> forall i :: 0 <= i < |r.value| ==> r.value[i] == start + i * step
  {
    if count < 0 {
      return LengthError;
    }
    var res: seq<int> := [];
    var i := 0;
    while i < count
      invariant 0 <= i <= count
      invariant |res| == i
      invariant forall j :: 0 <= j < i ==> res[j] == Term(start, step, j)
    {
      res := res + [Term(start, step, i)];
      i := i + 1;
    }
    return Ok(res);
  }

  /** The inclusive scan of `vals` from `acc`: element i is
      acc + vals[0] + ... + vals[i]. */
  function InclusiveScan(acc: int, vals: seq<int>): (r: seq<int>)
    ensures |r| == |vals|
    decreases |vals|
  {
    if vals == [] then [] else
      var first := ScanOp(acc, vals[0]);
      [first] + InclusiveScan(first, vals[1..])
  }

  function Sum(vals: seq<int>): int
  {
    if vals == [] then 0 else Sum(vals[..|vals| - 1]) + vals[|vals| - 1]
  }

  /** `prefix_sum`: a result of the input's size, filled by the scan with
      operator `op` and initial value 0. */
  function PrefixSum(vals: seq<int>): (r: seq<int>)
  {
    InclusiveScan(ScanIdentity, vals)
  }

  lemma {:induction false} InclusiveScanAt(acc: int, vals: seq<int>, i: nat)
    requires i < |vals|
    ensures InclusiveScan(acc, vals)[i] == acc + Sum(vals[..i + 1])
    decreases |vals|
  {
    var first := ScanOp(acc, vals[0]);
    if i == 0 {
      assert vals[..1] == [vals[0]];
      assert Sum([vals[0]]) == Sum([]) + vals[0];
    } else {
      InclusiveScanAt(first, vals[1..], i - 1);
      assert vals[1..][..i] == vals[1..i + 1];
      SumPrepend(vals[0], vals[1..i + 1]);
      assert [vals[0]] + vals[1..i + 1] == vals[..i + 1];
    }
  }

  lemma {:induction false} SumPrepend(x: int, vals: seq<int>)
    ensures Sum([x] + vals) == x + Sum(vals)
    decreases |vals|
  {
    if vals != [] {
      var w := [x] + vals;
      assert w[..|w| - 1] == [x] + vals[..|vals| - 1];
      SumPrepend(x, vals[..|vals| - 1]);
    } else {
      assert [x] + vals == [x];
      assert Sum([x]) == Sum([]) + x;
    }
  }

  /** The accumulator after scanning `vals` from `acc`: `acc` itself for an
      empty input, otherwise the scan's last element. */
  function ScanLast(acc: int, vals: seq<int>): (r: int)
    ensures vals != [] ==> r == InclusiveScan(acc, vals)[|vals| - 1]
    decreases |vals|
  {
    if vals == [] then acc else ScanLast(ScanOp(acc, vals[0]), vals[1..])
  }

  /** Scanning a concatenation scans the first part, then the second part
      from the first part's final accumulator. */
  lemma {:induction false} InclusiveScanSplit(acc: int, xs: seq<int>, ys: seq<int>)
    ensures InclusiveScan(acc, xs + ys) == InclusiveScan(acc, xs) + InclusiveScan(ScanLast(acc, xs), ys)
    decreases |xs|
  {
    if xs == [] {
      assert xs + ys == ys;
    } else {
      var first := ScanOp(acc, xs[0]);
      assert (xs + ys)[0] == xs[0];
      assert (xs + ys)[1..] == xs[1..] + ys;
      InclusiveScanSplit(first, xs[1..], ys);
    }
  }

  /** Because the operator is associative, scanning from `acc` is scanning
      from the identity and then combining `acc` with every element. */
  lemma InclusiveScanShift(acc: int, vals: seq<int>)
    ensures forall i :: 0 <= i < |vals| ==>
      InclusiveScan(acc, vals)[i] == ScanOp(acc, InclusiveScan(ScanIdentity, vals)[i])
  {
    forall i | 0 <= i < |vals|
      ensures InclusiveScan(acc, vals)[i] == ScanOp(acc, InclusiveScan(ScanIdentity, vals)[i])
    {
      InclusiveScanAt(acc, vals, i);
      InclusiveScanAt(ScanIdentity, vals, i);
    }
  }

  /** What lets the scan run in parallel: the prefix sums of `xs + ys` are
      those of `xs`, followed by those of `ys` computed on their own and
      each combined with the total of `xs`. */
  lemma ParallelScanSplit(xs: seq<int>, ys: seq<int>)
    ensures |PrefixSum(xs + ys)| == |xs| + |ys|
    ensures forall i :: 0 <= i < |xs| ==> PrefixSum(xs + ys)[i] == PrefixSum(xs)[i]
    ensures forall i :: 0 <= i < |ys| ==>
      PrefixSum(xs + ys)[|xs| + i] == ScanOp(ScanLast(ScanIdentity, xs), PrefixSum(ys)[i])
    ensures ScanLast(ScanIdentity, xs) == Sum(xs)
  {
    InclusiveScanSplit(ScanIdentity, xs, ys);
    InclusiveScanShift(ScanLast(ScanIdentity, xs), ys);
    if xs != [] {
      InclusiveScanAt(ScanIdentity, xs, |xs| - 1);
      assert xs[..|xs|] == xs;
    }
  }

  /** `prefix_sum` keeps the input's length, and element i is the sum of the
      first i + 1 inputs. */
  lemma PrefixSumSpec(vals: seq<int>)
    ensures |PrefixSum(vals)| == |vals|
    ensures forall i :: 0 <= i < |vals| ==> PrefixSum(vals)[i] == Sum(vals[..i + 1])
  {
    forall i | 0 <= i < |vals| ensures PrefixSum(vals)[i] == Sum(vals[..i + 1]) {
      InclusiveScanAt(ScanIdentity, vals, i);
    }
  }

  /** The arithmetic sequence as a function, for the lemmas below. */
  function Consecutive(count: nat, start: int, step: int): (r: seq<int>)
    ensures |r| == count
    ensures forall i :: 0 <= i < count ==> r[i] == start + i * step
  {
    seq(count, i => Term(start, step, i))
  }

  /** The default arguments (start 1, step 1) give 1, 2, ..., count; the
      second call of the demo gives 2, 4, ..., 200. */
  lemma DemoSequences()
    ensures forall i :: 0 <= i < 100 ==> Consecutive(100, 1, 1)[i] == i + 1
    ensures forall i :: 0 <= i < 100 ==> Consecutive(100, 2, 2)[i] == 2 * (i + 1)
    ensures Consecutive(100, 2, 2)[99] == 200
  {
  }

  /** The first i + 1 terms of 1, 2, 3, ... sum to (i + 1)(i + 2)/2, so the
      first demo prints the triangular numbers. */
  lemma {:induction false} TriangularSums(s: seq<int>, i: nat)
    requires forall j :: 0 <= j < |s| ==> s[j] == j + 1
    requires i < |s|
    ensures 2 * Sum(s[..i + 1]) == (i + 1) * (i + 2)
  {
    if i > 0 {
      TriangularSums(s, i - 1);
      assert s[..i + 1][..i] == s[..i];
      assert Sum(s[..i + 1]) == Sum(s[..i]) + (i + 1);
      assert (i + 1) * (i + 2) == i * (i + 1) + 2 * (i + 1);
    } else {
      assert s[..1] == [1];
      assert Sum([1]) == Sum([]) + 1;
    }
  }

  /** The prefix sums of 1, 2, ..., n are the triangular numbers. */
  lemma PrefixSumOfNaturals(n: nat, i: nat)
    requires i < n
    ensures |PrefixSum(Consecutive(n, 1, 1))| == n
    ensures 2 * PrefixSum(Consecutive(n, 1, 1))[i] == (i + 1) * (i + 2)
  {
    var s := Consecutive(n, 1, 1);
    assert forall j :: 0 <= j < |s| ==> s[j] == j + 1;
    PrefixSumSpec(s);
    TriangularSums(s, i);
  }

  /** The last value printed by the first demo is 5050. */
  lemma DemoPrefixSum()
    ensures PrefixSum(Consecutive(100, 1, 1))[99] == 5050
  {
    PrefixSumOfNaturals(100, 99);
  }
}
