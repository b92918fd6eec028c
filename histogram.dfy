/** The letter histogram of the parallel-reduction demo. Characters are
    ASCII, with the "C" locale's `tolower` and `isalpha`: every character
    outside 'A'..'Z' and 'a'..'z' is not a letter. */
module Histogram {

  /** `num_letters = 'z' - 'a'`, which is 25: one bucket short of the
      alphabet, so 'z' has no bucket. */
  const NumLetters: int := 'z' as int - 'a' as int

  function ToLower(c: char): char
  {
    if 'A' <= c <= 'Z' then (c as int + 32) as char else c
  }

  predicate IsAlpha(c: char)
  {
    'a' <= c <= 'z' || 'A' <= c <= 'Z'
  }

  /** The character is counted: it is alphabetic once lowered. */
  predicate IsLetter(c: char)
  {
    IsAlpha(ToLower(c))
  }

  /** The bucket `c - 'a'` written for the lowered character. */
  function LetterIndex(c: char): int
  {
    ToLower(c) as int - 'a' as int
  }

  /** Every letter lands in 'a'..'z', bucket 0..25, and 'z' and 'Z' are the
      letters whose bucket is `num_letters`: one past the end of the array. */
  lemma LetterBuckets(c: char)
    ensures IsLetter(c) ==> 0 <= LetterIndex(c) <= NumLetters
    ensures IsLetter(c) && LetterIndex(c) == NumLetters <==> c == 'z' || c == 'Z'
  {
  }

  /** Every letter of `s` has a bucket in the array: `s` contains neither
      'z' nor 'Z'. */
  predicate InBounds(s: string)
  {
    forall i :: 0 <= i < |s| && IsLetter(s[i]) ==> LetterIndex(s[i]) < NumLetters
  }

  lemma InBoundsIffNoZ(s: string)
    ensures InBounds(s) <==> 'z' !in s && 'Z' !in s
  {
    if InBounds(s) {
      forall i | 0 <= i < |s| ensures s[i] != 'z' && s[i] != 'Z' {
        LetterBuckets(s[i]);
      }
    }
    if 'z' !in s && 'Z' !in s {
      forall i | 0 <= i < |s| && IsLetter(s[i]) ensures LetterIndex(s[i]) < NumLetters {
        LetterBuckets(s[i]);
      }
    }
  }

  /** How many characters of `s` are letters counted in bucket k. */
  function LetterCount(s: string, k: int): nat
  {
    if s == [] then 0
    else
      var c := s[|s| - 1];
      LetterCount(s[..|s| - 1], k) + (if IsLetter(c) && LetterIndex(c) == k then 1 else 0)
  }

  /** How many characters of `s` are letters. */
  function LetterTotal(s: string): nat
  {
    if s == [] then 0 else LetterTotal(s[..|s| - 1]) + (if IsLetter(s[|s| - 1]) then 1 else 0)
  }

  /** The histogram with every bucket 0. */
  function Zero(): (h: seq<int>)
    ensures |h| == NumLetters && forall i :: 0 <= i < |h| ==> h[i] == 0
  {
    seq(NumLetters, i => 0)
  }

  /** The counts of `h` after `add_text_part(s)`. */
  function AddText(h: seq<int>, s: string): (r: seq<int>)
    ensures |r| == |h|
  {
    seq(|h|, k requires 0 <= k < |h| => h[k] + LetterCount(s, k))
  }

  /** The counts of `a` after `join_with(b)`. */
  function Join(a: seq<int>, b: seq<int>): (r: seq<int>)
    requires |a| == |b|
    ensures |r| == |a|
  {
    seq(|a|, i requires 0 <= i < |a| => a[i] + b[i])
  }

  function Total(h: seq<int>): int
  {
    if h == [] then 0 else Total(h[..|h| - 1]) + h[|h| - 1]
  }

  lemma {:induction false} LetterCountAppend(a: string, b: string, k: int)
    ensures LetterCount(a + b, k) == LetterCount(a, k) + LetterCount(b, k)
    decreases |b|
  {
    if b == [] {
      assert a + b == a;
    } else {
      var n := |b|;
      assert (a + b)[..|a + b| - 1] == a + b[..n - 1];
      LetterCountAppend(a, b[..n - 1], k);
    }
  }

  /** Adding two strings one after the other counts the same as adding
      their concatenation in one pass: splitting the text among tasks does
      not change the counts. */
  lemma AddTextTwice(h: seq<int>, a: string, b: string)
    ensures AddText(AddText(h, a), b) == AddText(h, a + b)
  {
    forall k | 0 <= k < |h| ensures AddText(AddText(h, a), b)[k] == AddText(h, a + b)[k] {
      LetterCountAppend(a, b, k);
    }
  }

  /** `join_with` is commutative and associative, with the zero histogram
      as identity: the algebra `conc_reduce` relies on. */
  lemma JoinIsCommutativeMonoid(a: seq<int>, b: seq<int>, c: seq<int>)
    requires |a| == |b| == |c|
    ensures Join(a, b) == Join(b, a)
    ensures Join(Join(a, b), c) == Join(a, Join(b, c))
    ensures |a| == NumLetters ==> Join(a, Zero()) == a && Join(Zero(), a) == a
  {
  }

  /** Joining the histograms of two parts equals the histogram of the whole. */
  lemma JoinOfParts(h1: seq<int>, h2: seq<int>, a: string, b: string)
    requires |h1| == |h2|
    ensures Join(AddText(h1, a), AddText(h2, b)) == AddText(Join(h1, h2), a + b)
  {
    forall k | 0 <= k < |h1|
      ensures Join(AddText(h1, a), AddText(h2, b))[k] == AddText(Join(h1, h2), a + b)[k]
    {
      LetterCountAppend(a, b, k);
    }
  }

  lemma {:induction false} TotalOfBump(h: seq<int>, j: int, d: int)
    ensures Total(seq(|h|, k requires 0 <= k < |h| => h[k] + (if k == j then d else 0)))
            == Total(h) + (if 0 <= j < |h| then d else 0)
    decreases |h|
  {
    var bumped := seq(|h|, k requires 0 <= k < |h| => h[k] + (if k == j then d else 0));
    if h != [] {
      var n := |h|;
      var front := h[..n - 1];
      TotalOfBump(front, j, d);
      assert bumped[..n - 1] == seq(|front|, k requires 0 <= k < |front| => front[k] + (if k == j then d else 0));
    }
  }

  /** The total count grows by the number of letters added, when every
      letter has a bucket. */
  lemma {:induction false} AddTextTotal(h: seq<int>, s: string)
    requires |h| == NumLetters && InBounds(s)
    ensures Total(AddText(h, s)) == Total(h) + LetterTotal(s)
    decreases |s|
  {
    if s != [] {
      var n := |s|;
      var front, c := s[..n - 1], s[n - 1];
      assert InBounds(front) by {
        forall i | 0 <= i < |front| && IsLetter(front[i]) ensures LetterIndex(front[i]) < NumLetters {
          assert front[i] == s[i];
        }
      }
      AddTextTotal(h, front);
      var j := if IsLetter(c) then LetterIndex(c) else -1;
      assert AddText(h, s) == seq(NumLetters, k requires 0 <= k < NumLetters => AddText(h, front)[k] + (if k == j then 1 else 0));
      TotalOfBump(AddText(h, front), j, 1);
    } else {
      assert AddText(h, s) == h;
    }
  }

  /** `simple_histogram`: one counter per bucket. */
  class SimpleHistogram {
    const cnt: array<int>

    /** `simple_histogram()`: every bucket 0. */
    constructor ()
      ensures fresh(cnt) && cnt.Length == NumLetters && cnt[..] == Zero()
    {
      var a := new int[NumLetters];
      for i := 0 to NumLetters
        invariant forall j :: 0 <= j < i ==> a[j] == 0
      {
        a[i] := 0;
      }
      cnt := a;
    }

    /** The copy constructor: a new array holding the other's counts. */
    constructor Copy(other: SimpleHistogram)
      requires other.cnt.Length == NumLetters
      ensures fresh(cnt) && cnt[..] == other.cnt[..]
    {
      var a := new int[NumLetters];
      for i := 0 to NumLetters
        invariant forall j :: 0 <= j < i ==> a[j] == other.cnt[j]
      {
        a[i] := other.cnt[i];
      }
      cnt := a;
    }

    /** `operator=`: copy every bucket of `other`. */
    method Assign(other: SimpleHistogram)
      requires cnt.Length == NumLetters && other.cnt.Length == NumLetters
      modifies cnt
      ensures cnt[..] == old(other.cnt[..])
    {
      for i := 0 to NumLetters
        invariant forall j :: 0 <= j < i ==> cnt[j] == old(other.cnt[j])
        invariant forall j :: i <= j < NumLetters ==> other.cnt[j] == old(other.cnt[j])
      {
        cnt[i] := other.cnt[i];
      }
    }

    /** `add_text_part(str)`: bump the bucket of every letter. The source
        writes out of bounds for 'z' and 'Z'; the requires keeps them out. */
    method AddTextPart(str: string)
      requires cnt.Length == NumLetters && InBounds(str)
      modifies cnt
      ensures cnt[..] == AddText(old(cnt[..]), str)
    {
      for i := 0 to |str|
        invariant cnt[..] == AddText(old(cnt[..]), str[..i])
      {
        var c := ToLower(str[i]);
        if IsAlpha(c) {
          cnt[c as int - 'a' as int] := cnt[c as int - 'a' as int] + 1;
        }
        assert str[..i + 1][..i] == str[..i];
      }
      assert str[..|str|] == str;
    }

    /** `join_with(other)`: add the other's count to every bucket. */
    method JoinWith(other: SimpleHistogram)
      requires cnt.Length == NumLetters && other.cnt.Length == NumLetters
      modifies cnt
      ensures cnt[..] == Join(old(cnt[..]), old(other.cnt[..]))
    {
      for i := 0 to NumLetters
        invariant forall j :: 0 <= j < i ==> cnt[j] == old(cnt[j]) + old(other.cnt[j])
        invariant forall j :: i <= j < NumLetters ==> cnt[j] == old(cnt[j]) && other.cnt[j] == old(other.cnt[j])
      {
        cnt[i] := cnt[i] + other.cnt[i];
      }
    }
  }

  /** The `op` lambda of `compute_histogram`: takes the accumulated
      histogram by value, adds one string, returns the copy. */
  method Op(lhs: SimpleHistogram, s: string) returns (r: SimpleHistogram)
    requires lhs.cnt.Length == NumLetters && InBounds(s)
    ensures fresh(r.cnt) && r.cnt[..] == AddText(lhs.cnt[..], s)
  {
    r := new SimpleHistogram.Copy(lhs);
    r.AddTextPart(s);
  }

  /** The `reduction` lambda: takes the left histogram by value, joins the
      right one into it, returns the copy. */
  method Reduction(lhs: SimpleHistogram, rhs: SimpleHistogram) returns (r: SimpleHistogram)
    requires lhs.cnt.Length == NumLetters && rhs.cnt.Length == NumLetters
    ensures fresh(r.cnt) && r.cnt[..] == Join(lhs.cnt[..], rhs.cnt[..])
  {
    r := new SimpleHistogram.Copy(lhs);
    r.JoinWith(rhs);
  }

  /** Folding `op` over the words of a text from `h`. */
  function FoldOp(h: seq<int>, words: seq<string>): (r: seq<int>)
    ensures |r| == |h|
    decreases |words|
  {
    if words == [] then h else FoldOp(AddText(h, words[0]), words[1..])
  }

  function Concat(words: seq<string>): string
  {
    if words == [] then [] else words[0] + Concat(words[1..])
  }

  lemma {:induction false} FoldOpIsOnePass(h: seq<int>, words: seq<string>)
    ensures FoldOp(h, words) == AddText(h, Concat(words))
    decreases |words|
  {
    if words == [] {
      assert forall k :: LetterCount([], k) == 0;
    } else {
      FoldOpIsOnePass(AddText(h, words[0]), words[1..]);
      AddTextTwice(h, words[0], Concat(words[1..]));
    }
  }

  lemma {:induction false} ConcatSplit(words: seq<string>, k: nat)
    requires k <= |words|
    ensures Concat(words[..k]) + Concat(words[k..]) == Concat(words)
    decreases k
  {
    if k > 0 {
      ConcatSplit(words[1..], k - 1);
      assert words[..k][1..] == words[1..][..k - 1];
      assert words[k..] == words[1..][k - 1..];
    } else {
      assert words[..0] == [];
      assert words[0..] == words;
    }
  }

  /** However `conc_reduce` cuts the words into two runs, folding `op` over
      each from the zero histogram and joining with `reduction` gives the
      counts of the whole text. */
  lemma ReductionIsSplitIndependent(words: seq<string>, k: nat)
    requires k <= |words|
    ensures Join(FoldOp(Zero(), words[..k]), FoldOp(Zero(), words[k..])) == AddText(Zero(), Concat(words))
  {
    FoldOpIsOnePass(Zero(), words[..k]);
    FoldOpIsOnePass(Zero(), words[k..]);
    JoinOfParts(Zero(), Zero(), Concat(words[..k]), Concat(words[k..]));
    ConcatSplit(words, k);
    JoinIsCommutativeMonoid(Zero(), Zero(), Zero());
  }
}
