/**
 The exponential histogram behind the ADWIN detector (predictive/drift.py): what its buckets mean in terms of the raw
 observations, and why merging and truncating the bucket list keeps both that meaning and its logarithmic shape.
 */
module Histogram {
  import opened SquaredDeviations

  datatype Bucket = Bucket(size: nat, total: real, variance: real) {
    function Mean(): real {
      if size != 0 then total / size as real else 0.0
    }
  }

  function Merged(b1: Bucket, b2: Bucket): Bucket {
    Bucket(b1.size + b2.size, b1.total + b2.total,
           b1.variance + b2.variance + (b1.size as real * ((b1.Mean() - b2.Mean()) * (b1.Mean() - b2.Mean()))) / 2.0)
  }

  // ---------------------------------------------------------------- meaning

  /** A bucket holds the exact count, sum and sum of squared deviations of the observations it stands for. */
  ghost predicate Describes(b: Bucket, segment: seq<real>) {
    b.size == |segment| > 0 && b.total == Sum(segment) && b.variance == Deviations(segment)
  }

  ghost predicate Describe(bs: seq<Bucket>, segments: seq<seq<real>>) {
    |bs| == |segments| && forall i | 0 <= i < |bs| :: Describes(bs[i], segments[i])
  }

  function Flatten(segments: seq<seq<real>>): seq<real> {
    if segments == [] then [] else segments[0] + Flatten(segments[1..])
  }

  lemma {:induction false} FlattenConcat(a: seq<seq<real>>, b: seq<seq<real>>)
    ensures Flatten(a + b) == Flatten(a) + Flatten(b)
  {
    if a == [] {
      assert a + b == b;
    } else {
      assert (a + b)[1..] == a[1..] + b;
      FlattenConcat(a[1..], b);
    }
  }

  lemma FlattenSplit(segments: seq<seq<real>>, k: nat)
    requires k <= |segments|
    ensures Flatten(segments) == Flatten(segments[..k]) + Flatten(segments[k..])
  {
    assert segments == segments[..k] + segments[k..];
    FlattenConcat(segments[..k], segments[k..]);
  }

  lemma FlattenAppend(segments: seq<seq<real>>, last: seq<real>)
    ensures Flatten(segments + [last]) == Flatten(segments) + last
  {
    FlattenConcat(segments, [last]);
    assert Flatten([last]) == last;
  }

  /** Replace elements j and j + 1 by one. */
  function Splice<T>(s: seq<T>, j: nat, x: T): seq<T>
    requires j + 2 <= |s|
  {
    s[..j] + [x] + s[j + 2..]
  }

  lemma MergedDescribes(b1: Bucket, b2: Bucket, s1: seq<real>, s2: seq<real>)
    requires Describes(b1, s1) && Describes(b2, s2) && b1.size == b2.size
    ensures Describes(Merged(b1, b2), s1 + s2)
  {
    hide Deviations, Sum;
    MergeHalves(s1, s2);
    assert b1.Mean() == SquaredDeviations.Mean(s1) && b2.Mean() == SquaredDeviations.Mean(s2);
  }

  /** A merge keeps the sum of the bucket variances exactly when the two means agree. */
  lemma MergeKeepsVarianceExactly(b1: Bucket, b2: Bucket)
    requires b1.size > 0
    ensures Merged(b1, b2).variance == b1.variance + b2.variance <==> b1.Mean() == b2.Mean()
  {
    var gap := b1.Mean() - b2.Mean();
    var square := gap * gap;
    SquareIsZero(gap, square);
    var growth := b1.size as real * square;
    ProductIsZero(b1.size as real, square);
    assert Merged(b1, b2).variance == b1.variance + b2.variance + growth / 2.0;
    hide Merged;
  }

  lemma SquareIsZero(e: real, square: real)
    requires square == e * e
    ensures square == 0.0 <==> e == 0.0
  {
    if e > 0.0 {
      ProductIsZero(e, e);
    } else if e < 0.0 {
      ProductIsZero(-e, e);
    }
  }

  lemma ProductIsZero(n: real, square: real)
    requires n > 0.0
    ensures n * square == 0.0 <==> square == 0.0
  {
  }

  /** Two observations and one bucket a level: compression turns variances of 0 into one of 1/2. */
  lemma CompressionLosesVariance()
    ensures Compressed([[0.0], [1.0]], 1) == [[0.0, 1.0]]
    ensures Deviations([0.0]) == 0.0 && Deviations([1.0]) == 0.0 && Deviations([0.0, 1.0]) == 0.5
  {
    var pair := Splice([[0.0], [1.0]], 0, [0.0] + [1.0]);
    assert pair == [[0.0, 1.0]] && [0.0] + [1.0] == [0.0, 1.0];
    assert FirstCrowded([[0.0], [1.0]], 1, 0) == 0;
    AppendOne([], 0.0);
    AppendOne([], 1.0);
    AppendOne([0.0], 1.0);
    assert [] + [0.0] == [0.0] && [] + [1.0] == [1.0] && [0.0] + [1.0] == [0.0, 1.0];
  }

  lemma SpliceKeepsMeaning(bs: seq<Bucket>, segments: seq<seq<real>>, j: nat)
    requires Describe(bs, segments) && j + 2 <= |bs| && bs[j].size == bs[j + 1].size
    ensures Describe(Splice(bs, j, Merged(bs[j], bs[j + 1])), Splice(segments, j, segments[j] + segments[j + 1]))
    ensures Flatten(Splice(segments, j, segments[j] + segments[j + 1])) == Flatten(segments)
  {
    hide Merged, Describes;
    MergedDescribes(bs[j], bs[j + 1], segments[j], segments[j + 1]);
    var x, y := segments[j], segments[j + 1];
    FlattenSplit(segments, j);
    FlattenSplit(segments[j..], 2);
    assert segments[j..][..2] == [x] + [y] && segments[j..][2..] == segments[j + 2..];
    FlattenConcat([x], [y]);
    assert Flatten([x]) == x && Flatten([y]) == y && Flatten([x + y]) == x + y;
    FlattenConcat(segments[..j] + [x + y], segments[j + 2..]);
    FlattenAppend(segments[..j], x + y);
  }

  // ---------------------------------------------------------------- compression

  /** The first segment, from `from` on, that has as many observations as the one `most` places later. */
  function FirstCrowded(segments: seq<seq<real>>, most: nat, from: nat): (j: nat)
    ensures j + most < |segments| || j == |segments|
    decreases |segments| - from
  {
    if from + most >= |segments| then |segments|
    else if |segments[from]| == |segments[from + most]| then from
    else FirstCrowded(segments, most, from + 1)
  }

  /** While more than `most` segments share a size, the two oldest of the largest such size become one. */
  function Compressed(segments: seq<seq<real>>, most: int): seq<seq<real>>
    decreases |segments|
  {
    if most < 1 then segments else
    var j := FirstCrowded(segments, most, 0);
    if j == |segments| then segments
    else Compressed(Splice(segments, j, segments[j] + segments[j + 1]), most)
  }

  lemma {:induction false} CrowdedAt(segments: seq<seq<real>>, most: nat, from: nat, j: nat)
    requires from <= j <= |segments|
    requires forall i, k | from <= i < j && k == i + most && k < |segments| :: |segments[i]| != |segments[k]|
    requires j == |segments| || (j + most < |segments| && |segments[j]| == |segments[j + most]|)
    ensures FirstCrowded(segments, most, from) == j
    decreases j - from
  {
    if from < j && from + most < |segments| {
      CrowdedAt(segments, most, from + 1, j);
    }
  }

  // ---------------------------------------------------------------- shape

  function Pow2(e: nat): nat {
    if e == 0 then 1 else 2 * Pow2(e - 1)
  }

  predicate IsPow2(n: nat) {
    n == 1 || (n > 1 && n % 2 == 0 && IsPow2(n / 2))
  }

  function Log2(n: nat): nat {
    if n <= 1 then 0 else 1 + Log2(n / 2)
  }

  /** Sizes are powers of two and never increase from the oldest bucket to the newest. */
  ghost predicate Tower(bs: seq<Bucket>) {
    && (forall i | 0 <= i < |bs| :: IsPow2(bs[i].size))
    && (forall i, j | 0 <= i <= j < |bs| :: bs[i].size >= bs[j].size)
  }

  /** Among the first `upTo` buckets, `most` places further on the size is strictly smaller. */
  ghost predicate Sparse(bs: seq<Bucket>, upTo: nat, most: nat)
    requires upTo <= |bs|
  {
    forall i, j | 0 <= i < j < upTo && j == i + most :: bs[i].size > bs[j].size
  }

  lemma {:induction false} DoublingStep(a: nat, b: nat)
    requires IsPow2(a) && IsPow2(b) && a < b
    ensures 2 * a <= b
  {
    if a != 1 {
      DoublingStep(a / 2, b / 2);
    }
  }

  lemma SpliceKeepsTower(bs: seq<Bucket>, j: nat, merged: Bucket)
    requires Tower(bs) && j + 2 <= |bs| && bs[j].size == bs[j + 1].size && merged.size == 2 * bs[j].size
    requires j > 0 ==> bs[j - 1].size > bs[j].size
    ensures Tower(Splice(bs, j, merged))
  {
    var s := Splice(bs, j, merged);
    if j > 0 {
      DoublingStep(bs[j].size, bs[j - 1].size);
    }
    TwiceIsPow2(bs[j].size);
    forall i | 0 <= i < |s|
      ensures IsPow2(s[i].size)
      ensures i < j ==> s[i] == bs[i] && s[i].size >= merged.size
      ensures i > j ==> s[i] == bs[i + 1] && s[i].size <= bs[j].size
    {
      if i < j {
        assert bs[i].size >= bs[j - 1].size;
      } else if i > j {
        assert bs[j].size >= bs[i + 1].size;
      }
    }
  }

  lemma TwiceIsPow2(n: nat)
    requires IsPow2(n)
    ensures IsPow2(2 * n)
  {
  }

  lemma SuffixKeepsShape(bs: seq<Bucket>, k: nat, most: nat)
    requires k <= |bs| && Tower(bs) && Sparse(bs, |bs|, most)
    ensures Tower(bs[k..]) && Sparse(bs[k..], |bs| - k, most)
  {
  }

  function Occurrences(bs: seq<Bucket>, size: nat): nat {
    if bs == [] then 0 else (if bs[0].size == size then 1 else 0) + Occurrences(bs[1..], size)
  }

  lemma {:induction false} FewOccurrences(bs: seq<Bucket>, size: nat, most: nat)
    requires forall i | most <= i < |bs| :: bs[i].size != size
    ensures Occurrences(bs, size) <= most
  {
    if bs != [] {
      FewOccurrences(bs[1..], size, if most == 0 then 0 else most - 1);
    }
  }

  /** No size occurs more than `most` times. */
  lemma {:induction false} NoSizeCrowds(bs: seq<Bucket>, most: nat, size: nat)
    requires Tower(bs) && Sparse(bs, |bs|, most) && most >= 1
    ensures Occurrences(bs, size) <= most
  {
    if bs != [] {
      if bs[0].size == size {
        forall i | most <= i < |bs|
          ensures bs[i].size != size
        {
          assert bs[0].size > bs[most].size && bs[most].size >= bs[i].size;
        }
        FewOccurrences(bs, size, most);
      } else {
        NoSizeCrowds(bs[1..], most, size);
      }
    }
  }

  lemma {:induction false} OccursAgain(bs: seq<Bucket>, size: nat, n: nat)
    requires n <= |bs| && forall i | 0 <= i < n :: bs[i].size == size
    ensures Occurrences(bs, size) >= n
  {
    if n > 0 {
      OccursAgain(bs[1..], size, n - 1);
    }
  }

  lemma {:induction false} OccursLater(bs: seq<Bucket>, size: nat, j: nat)
    requires j <= |bs|
    ensures Occurrences(bs, size) >= Occurrences(bs[j..], size)
  {
    if j > 0 {
      OccursLater(bs[1..], size, j - 1);
      assert bs[1..][j - 1..] == bs[j..];
    } else {
      assert bs[0..] == bs;
    }
  }

  /** The window is left alone exactly when no size occurs too often. */
  lemma {:induction false} CompressesOnlyCrowded(bs: seq<Bucket>, segments: seq<seq<real>>, most: nat)
    requires Describe(bs, segments) && Tower(bs) && most >= 1
    ensures Compressed(segments, most) == segments <==> forall size :: Occurrences(bs, size) <= most
  {
    var j := FirstCrowded(segments, most, 0);
    FirstCrowdedFacts(segments, most, 0);
    assert forall i | 0 <= i < |bs| :: Describes(bs[i], segments[i]) && bs[i].size == |segments[i]|;
    hide Describes;
    if j < |segments| {
      CompressedShrinks(segments, most);
      forall i | 0 <= i < most + 1
        ensures bs[j..][i].size == bs[j].size
      {
        assert bs[j].size >= bs[j + i].size >= bs[j + most].size;
      }
      OccursAgain(bs[j..], bs[j].size, most + 1);
      OccursLater(bs, bs[j].size, j);
    } else {
      forall i, k | 0 <= i < k < |bs| && k == i + most
        ensures bs[i].size > bs[k].size
      {
        assert bs[i].size >= bs[k].size && |segments[i]| != |segments[k]|;
      }
      forall size
        ensures Occurrences(bs, size) <= most
      {
        NoSizeCrowds(bs, most, size);
      }
    }
  }

  lemma {:induction false} FirstCrowdedFacts(segments: seq<seq<real>>, most: nat, from: nat)
    ensures var j := FirstCrowded(segments, most, from);
            && (j < |segments| ==> from <= j && j + most < |segments| && |segments[j]| == |segments[j + most]|)
            && (forall i, k | from <= i < j && k == i + most && k < |segments| :: |segments[i]| != |segments[k]|)
    decreases |segments| - from
  {
    if from + most < |segments| && |segments[from]| != |segments[from + most]| {
      FirstCrowdedFacts(segments, most, from + 1);
    }
  }

  lemma {:induction false} CompressedShrinks(segments: seq<seq<real>>, most: nat)
    requires most >= 1
    ensures |Compressed(segments, most)| <= |segments|
    ensures FirstCrowded(segments, most, 0) < |segments| ==> |Compressed(segments, most)| < |segments|
    decreases |segments|
  {
    var j := FirstCrowded(segments, most, 0);
    if j < |segments| {
      CompressedShrinks(Splice(segments, j, segments[j] + segments[j + 1]), most);
    }
  }

  /** Otherwise the two oldest segments of the largest size that occurs too often become one. */
  lemma {:induction false} CompressesOldest(segments: seq<seq<real>>, most: nat, j: nat)
    requires most >= 1 && j + most < |segments| && |segments[j]| == |segments[j + most]|
    requires forall i, k | 0 <= i < j && k == i + most && k < |segments| :: |segments[i]| != |segments[k]|
    ensures Compressed(segments, most) == Compressed(Splice(segments, j, segments[j] + segments[j + 1]), most)
  {
    CrowdedAt(segments, most, 0, j);
  }

  lemma {:induction false} SizesDouble(bs: seq<Bucket>, most: nat, i: nat, q: nat)
    requires Tower(bs) && Sparse(bs, |bs|, most) && most >= 1 && i + most * q < |bs|
    ensures bs[i].size >= Pow2(q)
    decreases q
  {
    if q > 0 {
      assert most * q == most + most * (q - 1);
      SizesDouble(bs, most, i + most, q - 1);
      DoublingStep(bs[i + most].size, bs[i].size);
    }
  }

  lemma {:induction false} Log2Bound(q: nat, n: nat)
    requires Pow2(q) <= n
    ensures q <= Log2(n)
  {
    if q > 0 {
      Log2Bound(q - 1, n / 2);
    }
  }

  /** The window of n observations needs at most most * (floor(log2 n) + 1) buckets. */
  lemma BucketCount(bs: seq<Bucket>, segments: seq<seq<real>>, most: nat)
    requires Describe(bs, segments) && Tower(bs) && Sparse(bs, |bs|, most) && most >= 1
    ensures |bs| <= most * (Log2(|Flatten(segments)|) + 1)
  {
    var n := |Flatten(segments)|;
    if bs == [] {
      assert most * (Log2(n) + 1) >= 0;
    } else {
      var q := (|bs| - 1) / most;
      QuotientBounds(|bs| - 1, most, q, Log2(n));
      SizesDouble(bs, most, 0, q);
      assert Describes(bs[0], segments[0]);
      Log2Bound(q, n);
    }
  }

  lemma QuotientBounds(k: nat, most: nat, q: nat, log: nat)
    requires most >= 1 && q == k / most
    ensures most * q <= k
    ensures q <= log ==> k + 1 <= most * (log + 1)
  {
    assert k < most * (q + 1);
    if q <= log {
      assert most * (q + 1) <= most * (log + 1);
    }
  }
}
