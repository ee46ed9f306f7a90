/** The ADWIN concept-drift detector (predictive/drift.py), proved against the raw stream it has compressed. */
module Adwin {
  import opened SquaredDeviations
  import opened Histogram

  /** The square root and the logarithm are left to the caller. */
  datatype Config = Config(delta: real, minWindowSize: int, maxBuckets: int, sqrt: real -> real, log: real -> real) {
    /** The checks of the constructor; a failure is a ValueError there. */
    predicate Accepted() { 0.0 < delta < 1.0 && minWindowSize >= 1 }

    function Sqrt(x: real): real { sqrt(x) }

    function Log(x: real): real { log(x) }

    /** The Hoeffding bound for a cut into n0 older and n1 newer observations. */
    function Bound(n0: nat, n1: nat): real
      requires n0 > 0 && n1 > 0 && delta != 0.0
    {
      var n := n0 + n1;
      var m := (n0 * n1) as real / n as real;
      MeanSizePositive(n0, n1);
      Sqrt(1.0 / (2.0 * m) * Log(4.0 * n as real / delta))
    }
  }

  lemma MeanSizePositive(n0: nat, n1: nat)
    requires n0 > 0 && n1 > 0
    ensures (n0 * n1) as real / (n0 + n1) as real > 0.0
    ensures 1.0 / (2.0 * ((n0 * n1) as real / (n0 + n1) as real)) == (1.0 / n0 as real + 1.0 / n1 as real) / 2.0
  {
    var a, b := n0 as real, n1 as real;
    assert n0 * n1 > 0 && (n0 * n1) as real == a * b && (n0 + n1) as real == a + b;
    HalfHarmonic(a, b, a * b, a + b);
  }

  lemma HalfHarmonic(a: real, b: real, p: real, n: real)
    requires a > 0.0 && b > 0.0 && p == a * b && p > 0.0 && n == a + b
    ensures p / n > 0.0 && 1.0 / (2.0 * (p / n)) == (1.0 / a + 1.0 / b) / 2.0
  {
    var m, x, y := p / n, 1.0 / a, 1.0 / b;
    assert m * n == p && a * x == 1.0 && b * y == 1.0;
    assert m > 0.0;
    var h := (x + y) / 2.0;
    Inverses(a, b, x, y);
    assert p * (x + y) == n;
    assert (2.0 * m * h) * n == p * (x + y);
    Cancel(n, 2.0 * m * h);
    InverseIs(2.0 * m, h);
  }

  lemma Inverses(a: real, b: real, x: real, y: real)
    requires a * x == 1.0 && b * y == 1.0
    ensures a * b * (x + y) == a + b
  {
    assert a * b * (x + y) == b * (a * x) + a * (b * y);
  }

  lemma Cancel(n: real, k: real)
    requires n > 0.0 && k * n == n
    ensures k == 1.0
  {
    assert (k - 1.0) * n == 0.0;
  }

  lemma InverseIs(d: real, h: real)
    requires d > 0.0 && d * h == 1.0
    ensures 1.0 / d == h
  {
    var q := 1.0 / d;
    assert d * q == 1.0;
    assert d * (q - h) == 0.0;
  }

  /**
   What the bound is, given a root and a logarithm that deserve the name: its square is half of 1/n0 + 1/n1, times the
   logarithm of 4 n / delta.
   */
  lemma BoundExactly(c: Config, n0: nat, n1: nat)
    requires c.Accepted() && n0 > 0 && n1 > 0
    requires forall x | x >= 0.0 :: c.Sqrt(x) >= 0.0 && c.Sqrt(x) * c.Sqrt(x) == x
    requires forall x | x >= 1.0 :: c.Log(x) >= 0.0
    ensures c.Bound(n0, n1) >= 0.0
    ensures c.Bound(n0, n1) * c.Bound(n0, n1)
         == (1.0 / n0 as real + 1.0 / n1 as real) / 2.0 * c.Log(4.0 * (n0 + n1) as real / c.delta)
  {
    MeanSizePositive(n0, n1);
  }

  function Gap(a: real, b: real): real {
    if a >= b then a - b else b - a
  }

  /** The means of an older and a newer part of the window differ by more than the bound. */
  ghost predicate Drifts(c: Config, older: seq<real>, newer: seq<real>)
    requires c.Accepted() && older != [] && newer != []
  {
    var a, b := SquaredDeviations.Mean(older), SquaredDeviations.Mean(newer);
    a - b > c.Bound(|older|, |newer|) || b - a > c.Bound(|older|, |newer|)
  }

  /** The cut after bucket `cut` separates drifting parts of the window. */
  ghost predicate DriftsAt(c: Config, segments: seq<seq<real>>, cut: nat) {
    && c.Accepted() && cut + 1 < |segments|
    && Flatten(segments[..cut + 1]) != [] && Flatten(segments[cut + 1..]) != []
    && Drifts(c, Flatten(segments[..cut + 1]), Flatten(segments[cut + 1..]))
  }

  /** No bucket boundary separates drifting parts. */
  ghost predicate Stable(c: Config, segments: seq<seq<real>>) {
    forall cut: nat | cut + 1 < |segments| :: !DriftsAt(c, segments, cut)
  }

  /** The observations before and after a cut. */
  ghost function Before(segments: seq<seq<real>>, cut: nat): seq<real>
    requires cut + 1 < |segments|
  {
    Flatten(segments[..cut + 1])
  }

  ghost function After(segments: seq<seq<real>>, cut: nat): seq<real>
    requires cut + 1 < |segments|
  {
    Flatten(segments[cut + 1..])
  }

  /** At every cut, neither mean exceeds the other by more than the bound. */
  ghost predicate WithinBounds(c: Config, segments: seq<seq<real>>)
    requires c.Accepted()
  {
    forall cut: nat | cut + 1 < |segments| && Before(segments, cut) != [] && After(segments, cut) != [] ::
      var bound := c.Bound(|Before(segments, cut)|, |After(segments, cut)|);
      && SquaredDeviations.Mean(Before(segments, cut)) - SquaredDeviations.Mean(After(segments, cut)) <= bound
      && SquaredDeviations.Mean(After(segments, cut)) - SquaredDeviations.Mean(Before(segments, cut)) <= bound
  }

  lemma {:induction false} StableExactly(c: Config, segments: seq<seq<real>>)
    requires c.Accepted()
    ensures Stable(c, segments) <==> WithinBounds(c, segments)
  {
    hide SquaredDeviations.Mean, Flatten;
    if Stable(c, segments) {
      forall cut: nat | cut + 1 < |segments| && Before(segments, cut) != [] && After(segments, cut) != []
        ensures var bound := c.Bound(|Before(segments, cut)|, |After(segments, cut)|);
                && SquaredDeviations.Mean(Before(segments, cut)) - SquaredDeviations.Mean(After(segments, cut)) <= bound
                && SquaredDeviations.Mean(After(segments, cut)) - SquaredDeviations.Mean(Before(segments, cut)) <= bound
      {
        assert !DriftsAt(c, segments, cut);
      }
    }
    if WithinBounds(c, segments) {
      forall cut: nat | cut + 1 < |segments|
        ensures !DriftsAt(c, segments, cut)
      {
        assert Before(segments, cut) == Flatten(segments[..cut + 1]);
        assert After(segments, cut) == Flatten(segments[cut + 1..]);
      }
    }
  }

  /** The earliest drifting cut from `from` on, or the end when there is none. */
  ghost function FirstDrift(c: Config, segments: seq<seq<real>>, from: nat): (cut: nat)
    ensures DriftsAt(c, segments, cut) || cut >= |segments| - 1
    decreases |segments| - from
  {
    if from + 1 >= |segments| || DriftsAt(c, segments, from) then from else FirstDrift(c, segments, from + 1)
  }

  /** What is left after dropping everything up to the earliest drifting cut, again and again. */
  ghost function Settled(c: Config, segments: seq<seq<real>>): seq<seq<real>>
    decreases |segments|
  {
    var cut := FirstDrift(c, segments, 0);
    if cut + 1 >= |segments| then segments else Settled(c, segments[cut + 1..])
  }

  lemma {:induction false} FirstDriftIs(c: Config, segments: seq<seq<real>>, from: nat, cut: nat)
    requires from <= cut < |segments| && (cut == |segments| - 1 || DriftsAt(c, segments, cut))
    requires forall k: nat | from <= k < cut :: !DriftsAt(c, segments, k)
    ensures FirstDrift(c, segments, from) == cut
    decreases cut - from
  {
    hide DriftsAt;
    if from < cut {
      FirstDriftIs(c, segments, from + 1, cut);
    }
  }

  ghost predicate NonEmpty(segments: seq<seq<real>>) {
    forall i | 0 <= i < |segments| :: segments[i] != []
  }

  lemma PartsNonEmpty(segments: seq<seq<real>>, k: nat)
    requires 0 < k < |segments| && NonEmpty(segments)
    ensures Flatten(segments[..k]) != [] && Flatten(segments[k..]) != []
  {
    assert segments[..k][0] != [] && segments[k..][0] != [];
  }

  /** `short` is what remains of `long` after dropping some of its oldest observations. */
  ghost predicate IsSuffix(short: seq<real>, long: seq<real>) {
    |short| <= |long| && forall i | 0 <= i < |short| :: short[i] == long[|long| - |short| + i]
  }

  /** The buckets partition the window, exactly; n and total are its size and sum. */
  ghost predicate IsRefined(bs: seq<Bucket>, segments: seq<seq<real>>, window: seq<real>, n: nat, total: real) {
    && Describe(bs, segments) && NonEmpty(segments)
    && Flatten(segments) == window
    && n == |window| && total == Sum(window)
  }

  ghost predicate IsShaped(bs: seq<Bucket>, most: nat) {
    Tower(bs) && Sparse(bs, |bs|, most)
  }

  lemma RefinedSize(bs: seq<Bucket>, segments: seq<seq<real>>, window: seq<real>, n: nat, total: real)
    requires IsRefined(bs, segments, window, n, total)
    ensures n == |window| && |bs| == |segments|
  {
  }

  class AdwinDriftDetector {
    const c: Config
    var buckets: seq<Bucket>
    var n: nat
    var total: real
    var needsRetrain: bool
    ghost var segments: seq<seq<real>>  // the observations behind each bucket
    ghost var window: seq<real>         // the observations still counted
    ghost var stream: seq<real>         // every observation since the last reset
    ghost var reports: seq<bool>        // what update returned for each of them

    ghost predicate Refined()
      reads this
    {
      c.Accepted() && c.maxBuckets >= 1 && IsRefined(buckets, segments, window, n, total)
    }

    ghost predicate Shaped()
      reads this
    {
      c.maxBuckets >= 1 && IsShaped(buckets, c.maxBuckets)
    }

    ghost predicate Valid()
      reads this
    {
      && Refined() && Shaped()
      && IsSuffix(window, stream)
      && |reports| == |stream|
      && (needsRetrain <==> true in reports)
    }

    /** In every reachable state the window is small: few buckets of one size, and logarithmically many in all. */
    lemma WindowIsSmall(size: nat)
      requires Valid()
      ensures Occurrences(buckets, size) <= c.maxBuckets
      ensures |buckets| <= c.maxBuckets * (Log2(n) + 1)
    {
      NoSizeCrowds(buckets, c.maxBuckets, size);
      BucketCount(buckets, segments, c.maxBuckets);
    }

    constructor (c: Config)
      requires c.Accepted()
      ensures c.maxBuckets >= 1 ==> Valid()
      ensures this.c == c && stream == [] && buckets == []
    {
      this.c := c;
      buckets, n, total, needsRetrain := [], 0, 0.0, false;
      segments, window, stream, reports := [], [], [], [];
    }

    /**
     The checked construction. It lets a max_buckets below 1 through, with which the first observation then fails, as
     its only bucket is already one too many and has none to merge with.
     */
    static method Create(c: Config) returns (d: AdwinDriftDetector?)
      ensures d == null <==> c.delta <= 0.0 || c.delta >= 1.0 || c.minWindowSize < 1
      ensures d != null ==> fresh(d) && d.c == c && d.stream == [] && d.buckets == []
      ensures d != null && c.maxBuckets >= 1 ==> d.Valid()
    {
      if !(0.0 < c.delta < 1.0) || c.minWindowSize < 1 {
        return null;
      }
      d := new AdwinDriftDetector(c);
    }

    method Reset()
      requires Valid()
      modifies this
      ensures Valid() && stream == [] && !needsRetrain
    {
      buckets, n, total, needsRetrain := [], 0, 0.0, false;
      segments, window, stream, reports := [], [], [], [];
    }

    /**
     The report is true exactly when the window lost observations; the newest one always stays; and once the window is
     long enough to be checked, exactly the prefixes up to a drifting cut are gone and no cut of what remains drifts.
     */
    method Update(value: real) returns (drift: bool)
      requires Valid()
      modifies this
      ensures stream == old(stream) + [value] && reports == old(reports) + [drift]
      ensures IsSuffix(window, old(window) + [value])
      ensures drift <==> |window| <= |old(window)|
      ensures window != [] && window[|window| - 1] == value
      ensures |old(window)| + 1 < c.minWindowSize ==> !drift
      ensures var compressed := Compressed(old(segments) + [[value]], c.maxBuckets);
              segments == if |old(window)| + 1 < c.minWindowSize then compressed else Settled(c, compressed)
      ensures |old(window)| + 1 >= c.minWindowSize ==> Stable(c, segments)
      ensures |old(window)| + 1 >= c.minWindowSize ==> WithinBounds(c, segments)
      ensures |old(window)| + 1 >= c.minWindowSize ==>
                (drift <==> !WithinBounds(c, Compressed(old(segments) + [[value]], c.maxBuckets)))
      ensures Valid()
    {
      hide IsRefined, IsShaped, IsSuffix, Settled, Compressed, Stable, WithinBounds;
      StableExactly(c, Compressed(segments + [[value]], c.maxBuckets));
      drift := Ingest(value);
      StableExactly(c, segments);
      SuffixFacts(window, old(window), stream, value);
      Report(value, drift);
    }

    method Report(value: real, drift: bool)
      requires Refined() && Shaped() && IsSuffix(window, stream + [value])
      requires |reports| == |stream| && (needsRetrain <==> true in reports)
      modifies this`needsRetrain, this`stream, this`reports
      ensures Valid() && stream == old(stream) + [value] && reports == old(reports) + [drift]
    {
      hide IsRefined, IsShaped, IsSuffix;
      if drift {
        needsRetrain := true;
      }
      AnyReport(reports, drift);
      stream := stream + [value];
      reports := reports + [drift];
    }

    method Ingest(value: real) returns (drift: bool)
      requires Refined() && Shaped()
      modifies this`buckets, this`n, this`total, this`segments, this`window
      ensures Refined() && Shaped() && window != []
      ensures IsSuffix(window, old(window) + [value])
      ensures drift <==> |window| <= |old(window)|
      ensures |old(window)| + 1 < c.minWindowSize ==> !drift
      ensures var compressed := Compressed(old(segments) + [[value]], c.maxBuckets);
              segments == if |old(window)| + 1 < c.minWindowSize then compressed else Settled(c, compressed)
      ensures |old(window)| + 1 >= c.minWindowSize ==> Stable(c, segments)
      ensures |old(window)| + 1 >= c.minWindowSize ==>
                (drift <==> !Stable(c, Compressed(old(segments) + [[value]], c.maxBuckets)))
    {
      Add(value);
      drift := false;
      if n >= c.minWindowSize {
        drift := CheckDrift();
      }
    }

    method Add(value: real)
      requires Refined() && Shaped()
      modifies this`buckets, this`n, this`total, this`segments, this`window
      ensures Refined() && Shaped() && window == old(window) + [value]
      ensures segments == Compressed(old(segments) + [[value]], c.maxBuckets)
    {
      hide IsRefined, Tower, Compressed;
      AppendRefined(buckets, segments, window, n, total, value);
      TowerAppend(buckets, Bucket(1, value, 0.0));
      buckets := buckets + [Bucket(1, value, 0.0)];
      n := n + 1;
      total := total + value;
      segments := segments + [[value]];
      window := window + [value];
      Compress();
    }

    method Compress()
      requires Refined() && Tower(buckets)
      modifies this`buckets, this`segments
      ensures Refined() && Shaped()
      ensures segments == Compressed(old(segments), c.maxBuckets)
    {
      hide Describes, Sum, Flatten, Compressed;
      var j := 0;
      while j < |buckets|
        invariant j <= |buckets|
        invariant Refined() && Tower(buckets) && Sparse(buckets, j, c.maxBuckets)
        invariant 0 < j < |buckets| ==> buckets[j - 1].size > buckets[j].size
        invariant Compressed(segments, c.maxBuckets) == Compressed(old(segments), c.maxBuckets)
        decreases |buckets|, |buckets| - j
      {
        var size := buckets[j].size;
        var k := j;
        while k < |buckets| && buckets[k].size == size
          invariant j <= k <= |buckets|
          invariant forall i | j <= i < k :: buckets[i].size == size
        {
          k := k + 1;
        }
        if k - j > c.maxBuckets {
          Crowding(buckets, segments, c.maxBuckets, j);
          CompressedAt(segments, c.maxBuckets, j);
          MergeAt(j);
          j := 0;
        } else {
          j := k;
        }
      }
      Crowding(buckets, segments, c.maxBuckets, j);
      CompressedAt(segments, c.maxBuckets, j);
    }

    method MergeAt(j: nat)
      requires Refined() && Tower(buckets) && j + 2 <= |segments| && j + 2 <= |buckets|
      requires buckets[j].size == buckets[j + 1].size
      requires j > 0 ==> buckets[j - 1].size > buckets[j].size
      modifies this`buckets, this`segments
      ensures Refined() && Tower(buckets)
      ensures |buckets| == |old(buckets)| - 1
      ensures segments == Splice(old(segments), j, old(segments)[j] + old(segments)[j + 1])
    {
      hide Merged, Tower, Describes;
      var b1, b2 := buckets[j], buckets[j + 1];
      var merged := Merged(b1, b2);
      SpliceKeepsMeaning(buckets, segments, j);
      MergedSize(b1, b2);
      SpliceKeepsTower(buckets, j, merged);
      buckets := buckets[..j] + [merged] + buckets[j + 2..];
      segments := Splice(segments, j, segments[j] + segments[j + 1]);
    }

    /** Drop drifting prefixes until no cut drifts. */
    method CheckDrift() returns (shrink: bool)
      requires Refined() && Shaped() && window != []
      modifies this`buckets, this`n, this`total, this`segments, this`window
      ensures Refined() && Shaped()
      ensures IsSuffix(window, old(window)) && window != []
      ensures shrink <==> |window| < |old(window)|
      ensures segments == Settled(c, old(segments)) && Stable(c, segments)
      ensures shrink <==> !Stable(c, old(segments))
    {
      hide Settled, Stable, IsRefined, IsShaped;
      var changed := true;
      shrink := false;
      while changed
        invariant Refined() && Shaped()
        invariant IsSuffix(window, old(window)) && window != []
        invariant shrink <==> |window| < |old(window)|
        invariant Settled(c, segments) == Settled(c, old(segments))
        invariant !changed ==> segments == Settled(c, segments) && Stable(c, segments)
        invariant if shrink then !Stable(c, old(segments)) else segments == old(segments)
        decreases |buckets|, changed
      {
        changed := false;
        if |buckets| < 2 {
          RefinedSize(buckets, segments, window, n, total);
          ShortIsStable(c, segments);
          break;
        }
        changed := DropFirstDrift();
        if changed {
          shrink := true;
        }
      }
    }

    /** One pass over the cuts: drop everything up to the first that drifts. */
    method DropFirstDrift() returns (dropped: bool)
      requires Refined() && Shaped() && window != [] && |buckets| >= 2
      modifies this`buckets, this`n, this`total, this`segments, this`window
      ensures Refined() && Shaped()
      ensures IsSuffix(window, old(window)) && window != []
      ensures dropped ==> |buckets| < |old(buckets)| && |window| < |old(window)| && !Stable(c, old(segments))
      ensures !dropped ==> segments == old(segments)
      ensures Settled(c, segments) == Settled(c, old(segments))
      ensures !dropped ==> buckets == old(buckets) && window == old(window)
      ensures !dropped ==> segments == Settled(c, segments) && Stable(c, segments)
    {
      var cut := FindCut();
      SettledAt(c, segments, cut);
      hide Settled, Stable, IsRefined, IsShaped, FirstDrift;
      dropped := false;
      if cut < |buckets| - 1 {
        DropThrough(cut);
        dropped := true;
      }
    }

    /** Sizes and totals of all prefixes of the bucket list. */
    method Prefixes() returns (prefSize: seq<nat>, prefTotal: seq<real>)
      requires Refined()
      ensures |prefSize| == |prefTotal| == |segments|
      ensures forall k | 0 <= k < |segments| ::
                prefSize[k] == |Flatten(segments[..k + 1])| && prefTotal[k] == Sum(Flatten(segments[..k + 1]))
    {
      hide Describes, NonEmpty;
      prefSize, prefTotal := [], [];
      var accSize, accTotal := 0, 0.0;
      for i := 0 to |buckets|
        invariant |prefSize| == |prefTotal| == i
        invariant accSize == |Flatten(segments[..i])| && accTotal == Sum(Flatten(segments[..i]))
        invariant forall k | 0 <= k < i ::
                    prefSize[k] == |Flatten(segments[..k + 1])| && prefTotal[k] == Sum(Flatten(segments[..k + 1]))
      {
        PrefixStep(segments, i);
        DescribesFacts(buckets[i], segments[i]);
        accSize := accSize + buckets[i].size;
        accTotal := accTotal + buckets[i].total;
        prefSize := prefSize + [accSize];
        prefTotal := prefTotal + [accTotal];
      }
    }

    /** The first drifting cut, or the last bucket's index when there is none. */
    method FindCut() returns (cut: nat)
      requires Refined() && |buckets| >= 2
      ensures cut <= |buckets| - 1
      ensures |segments| == |buckets| && cut == FirstDrift(c, segments, 0)
      ensures cut == |buckets| - 1 ==> Stable(c, segments)
    {
      var prefSize, prefTotal := Prefixes();
      cut := 0;
      while cut < |buckets| - 1
        invariant cut <= |buckets| - 1
        invariant forall k: nat | k < cut :: !DriftsAt(c, segments, k)
      {
        CutFacts(c, segments, cut);
        var n0 := prefSize[cut];
        var n1 := n - n0;
        if n1 != 0 {
          var mean0 := prefTotal[cut] / n0 as real;
          var mean1 := (total - prefTotal[cut]) / n1 as real;
          if Gap(mean0, mean1) > c.Bound(n0, n1) {
            FirstDriftIs(c, segments, 0, cut);
            return;
          }
        }
        cut := cut + 1;
      }
      FirstDriftIs(c, segments, 0, cut);
    }

    method DropThrough(cut: nat)
      requires Refined() && Shaped() && cut + 1 < |buckets|
      modifies this`buckets, this`n, this`total, this`segments, this`window
      ensures Refined() && Shaped() && |buckets| < |old(buckets)|
      ensures IsSuffix(window, old(window)) && 0 < |window| < |old(window)|
      ensures cut + 1 < |old(segments)| && segments == old(segments)[cut + 1..]
    {
      hide Describes, Tower, Sparse;
      ghost var segs := segments[cut + 1..];
      ghost var bs := buckets[cut + 1..];
      FlattenSplit(segments, cut + 1);
      PartsNonEmpty(segments, cut + 1);
      SuffixKeepsShape(buckets, cut + 1, c.maxBuckets);
      buckets := buckets[cut + 1..];
      segments := segments[cut + 1..];
      window := Flatten(segments);
      n := 0;
      total := 0.0;
      assert segments[..0] == [];
      for i := 0 to |buckets|
        invariant segments == segs && buckets == bs && window == Flatten(segs)
        invariant n == |Flatten(segments[..i])| && total == Sum(Flatten(segments[..i]))
      {
        PrefixStep(segments, i);
        DescribesFacts(buckets[i], segments[i]);
        n := n + buckets[i].size;
        total := total + buckets[i].total;
      }
      assert segments[..|buckets|] == segments;
    }
  }

  lemma SingletonBucket(value: real)
    ensures Describes(Bucket(1, value, 0.0), [value])
  {
    assert [value][..0] == [];
    assert Sum([value]) == value;
    assert SquaredDeviations.Mean([value]) == value;
    assert SquaredFrom([value], value) == 0.0;
  }

  lemma AppendRefined(bs: seq<Bucket>, segments: seq<seq<real>>, window: seq<real>, n: nat, total: real, value: real)
    requires IsRefined(bs, segments, window, n, total)
    ensures IsRefined(bs + [Bucket(1, value, 0.0)], segments + [[value]], window + [value], n + 1, total + value)
  {
    hide Describes, Flatten;
    FlattenAppend(segments, [value]);
    SingletonBucket(value);
    SumConcat(window, [value]);
    assert [value][..0] == [];
  }

  /** The end of the run of equal sizes that starts at k, as the compression scans it. */
  function RunEnd(bs: seq<Bucket>, j: nat, k: nat): (end: nat)
    requires j <= k <= |bs| && j < |bs|
    ensures k <= end <= |bs|
    decreases |bs| - k
  {
    if k < |bs| && bs[k].size == bs[j].size then RunEnd(bs, j, k + 1) else k
  }

  /**
   With a bucket limit below 1 every compression runs out of buckets: when only one is left, as after the first
   observation, it is one too many already and has none to merge with.
   */
  lemma LastBucketIsTooMany(c: Config, b: Bucket)
    ensures c.maxBuckets < 1 <==> RunEnd([b], 0, 0) - 0 > c.maxBuckets && !(0 + 1 < |[b]|)
  {
    assert RunEnd([b], 0, 1) == 1;
  }

  /** One step of the compression, or its end. */
  lemma CompressedAt(segments: seq<seq<real>>, most: nat, j: nat)
    requires most >= 1 && FirstCrowded(segments, most, 0) == j
    ensures j == |segments| ==> Compressed(segments, most) == segments
    ensures j < |segments| ==>
              Compressed(segments, most) == Compressed(Splice(segments, j, segments[j] + segments[j + 1]), most)
  {
  }

  /** One drop on the way to the settled window, or its end. */
  lemma SettledAt(c: Config, segments: seq<seq<real>>, cut: nat)
    requires cut == FirstDrift(c, segments, 0)
    ensures Settled(c, segments) == if cut + 1 >= |segments| then segments else Settled(c, segments[cut + 1..])
  {
    hide DriftsAt, FirstDrift;
  }

  /** What is dropped: everything up to the earliest cut whose means differ too much, and nothing when there is none. */
  lemma {:induction false} SettledDropsEarliest(c: Config, segments: seq<seq<real>>, cut: nat)
    requires c.Accepted() && forall k: nat | k < cut :: !DriftsAt(c, segments, k)
    ensures DriftsAt(c, segments, cut) ==> Settled(c, segments) == Settled(c, segments[cut + 1..])
    ensures cut + 1 >= |segments| ==> Settled(c, segments) == segments
  {
    if DriftsAt(c, segments, cut) {
      FirstDriftIs(c, segments, 0, cut);
    } else if cut + 1 >= |segments| && segments != [] {
      FirstDriftIs(c, segments, 0, |segments| - 1);
    }
  }

  lemma ShortIsStable(c: Config, segments: seq<seq<real>>)
    requires |segments| < 2
    ensures Settled(c, segments) == segments && Stable(c, segments)
  {
  }

  lemma SuffixFacts(now: seq<real>, before: seq<real>, stream: seq<real>, value: real)
    requires IsSuffix(before, stream) && now != [] && IsSuffix(now, before + [value])
    ensures IsSuffix(now, stream + [value]) && now[|now| - 1] == value
  {
    var longer := before + [value];
    assert now[|now| - 1] == longer[|longer| - |now|..][|now| - 1] == longer[|longer| - 1];
    assert longer == (stream + [value])[|stream| - |before|..];
    assert now == (stream + [value])[|stream| + 1 - |now|..];
  }

  lemma AnyReport(reports: seq<bool>, drift: bool)
    ensures true in reports + [drift] <==> true in reports || drift
  {
  }

  lemma DescribesFacts(b: Bucket, segment: seq<real>)
    requires Describes(b, segment)
    ensures b.size == |segment| && b.total == Sum(segment)
  {
  }

  lemma TowerAppend(bs: seq<Bucket>, b: Bucket)
    requires Tower(bs) && b.size == 1
    ensures Tower(bs + [b])
  {
  }

  /** In a tower scanned up to j, the first crowded segment is at j or nowhere. */
  lemma Crowding(bs: seq<Bucket>, segments: seq<seq<real>>, most: nat, j: nat)
    requires Describe(bs, segments) && Tower(bs) && j <= |bs| && Sparse(bs, j, most) && most >= 1
    requires 0 < j < |bs| ==> bs[j - 1].size > bs[j].size
    requires j < |bs| ==> j + most < |bs| && bs[j + most].size == bs[j].size
    ensures FirstCrowded(segments, most, 0) == j
  {
    hide Deviations, Sum, IsPow2;
    assert forall i | 0 <= i < |bs| :: Describes(bs[i], segments[i]) && bs[i].size == |segments[i]|;
    forall i, k | 0 <= i < j && k == i + most && k < |segments|
      ensures |segments[i]| != |segments[k]|
    {
      if k >= j {
        assert bs[i].size >= bs[j - 1].size && bs[j].size >= bs[k].size;
      }
    }
    CrowdedAt(segments, most, 0, j);
  }

  lemma MergedSize(b1: Bucket, b2: Bucket)
    ensures Merged(b1, b2).size == b1.size + b2.size
  {
  }

  lemma PrefixStep(segments: seq<seq<real>>, i: nat)
    requires i < |segments|
    ensures Flatten(segments[..i + 1]) == Flatten(segments[..i]) + segments[i]
    ensures Sum(Flatten(segments[..i + 1])) == Sum(Flatten(segments[..i])) + Sum(segments[i])
  {
    assert segments[..i + 1] == segments[..i] + [segments[i]];
    FlattenAppend(segments[..i], segments[i]);
    SumConcat(Flatten(segments[..i]), segments[i]);
  }

  /** What the cut test computes from prefix sums is the comparison of the two means. */
  lemma CutFacts(c: Config, segments: seq<seq<real>>, cut: nat)
    requires c.Accepted() && cut + 1 < |segments| && NonEmpty(segments)
    ensures var w, older, newer := Flatten(segments), Flatten(segments[..cut + 1]), Flatten(segments[cut + 1..]);
            && |older| > 0 && |newer| > 0 && |w| == |older| + |newer|
            && (DriftsAt(c, segments, cut)
                <==> Gap(Sum(older) / |older| as real, (Sum(w) - Sum(older)) / |newer| as real)
                     > c.Bound(|older|, |newer|))
  {
    FlattenSplit(segments, cut + 1);
    PartsNonEmpty(segments, cut + 1);
    SumConcat(Flatten(segments[..cut + 1]), Flatten(segments[cut + 1..]));
  }
}
