/**
 Sums, means and sums of squared deviations of finite streams of reals: the batch formulas the detectors maintain
 online.
 */
module SquaredDeviations {

  function Sum(xs: seq<real>): real {
    if xs == [] then 0.0 else Sum(xs[..|xs| - 1]) + xs[|xs| - 1]
  }

  function Mean(xs: seq<real>): real {
    if xs == [] then 0.0 else Sum(xs) / |xs| as real
  }

  function Square(e: real): real {
    e * e
  }

  /** Sum of squared deviations from an arbitrary centre. */
  function SquaredFrom(xs: seq<real>, c: real): real {
    if xs == [] then 0.0
    else SquaredFrom(xs[..|xs| - 1], c) + Square(xs[|xs| - 1] - c)
  }

  /** Sum of squared deviations from the mean. */
  function Deviations(xs: seq<real>): real {
    SquaredFrom(xs, Mean(xs))
  }

  lemma {:induction false} SumConcat(xs: seq<real>, ys: seq<real>)
    ensures Sum(xs + ys) == Sum(xs) + Sum(ys)
  {
    if ys == [] {
      assert xs + ys == xs;
    } else {
      assert (xs + ys)[..|xs + ys| - 1] == xs + ys[..|ys| - 1];
      SumConcat(xs, ys[..|ys| - 1]);
    }
  }

  lemma {:induction false} SquaredFromConcat(xs: seq<real>, ys: seq<real>, c: real)
    ensures SquaredFrom(xs + ys, c) == SquaredFrom(xs, c) + SquaredFrom(ys, c)
  {
    if ys == [] {
      assert xs + ys == xs;
    } else {
      assert (xs + ys)[..|xs + ys| - 1] == xs + ys[..|ys| - 1];
      SquaredFromConcat(xs, ys[..|ys| - 1], c);
    }
  }

  lemma {:induction false} SquaredFromNonNegative(xs: seq<real>, c: real)
    ensures SquaredFrom(xs, c) >= 0.0
  {
    if xs != [] {
      SquaredFromNonNegative(xs[..|xs| - 1], c);
      SquareNonNegative(xs[|xs| - 1] - c);
    }
  }

  lemma SquareNonNegative(e: real)
    ensures e * e >= 0.0
  {
    if e < 0.0 {
      assert e * e == (-e) * (-e);
    }
  }

  /** How squared deviations from c and d relate, for n values of sum s. */
  predicate Moved(n: real, s: real, c: real, d: real, fromC: real, fromD: real) {
    fromC == fromD + 2.0 * (d - c) * (s - n * d) + n * ((d - c) * (d - c))
  }

  lemma {:induction false} MoveCentre(xs: seq<real>, c: real, d: real)
    ensures Moved(|xs| as real, Sum(xs), c, d, SquaredFrom(xs, c), SquaredFrom(xs, d))
  {
    hide Moved, Square;
    if xs == [] {
      MoveNothing(c, d);
    } else {
      var front, x := xs[..|xs| - 1], xs[|xs| - 1];
      MoveCentre(front, c, d);
      assert |xs| as real == |front| as real + 1.0 && Sum(xs) == Sum(front) + x;
      assert SquaredFrom(xs, c) == SquaredFrom(front, c) + Square(x - c);
      assert SquaredFrom(xs, d) == SquaredFrom(front, d) + Square(x - d);
      MoveStep(|front| as real, Sum(front), x, c, d, SquaredFrom(front, c), SquaredFrom(front, d));
    }
  }

  lemma MoveNothing(c: real, d: real)
    ensures Moved(0.0, 0.0, c, d, 0.0, 0.0)
  {
    TimesZero(2.0 * (d - c), 0.0 - 0.0 * d);
  }

  lemma MoveStep(n: real, s: real, x: real, c: real, d: real, fromC: real, fromD: real)
    requires Moved(n, s, c, d, fromC, fromD)
    ensures Moved(n + 1.0, s + x, c, d, fromC + Square(x - c), fromD + Square(x - d))
  {
    var e := d - c;
    assert (x - c) * (x - c) == (x - d) * (x - d) + 2.0 * e * (x - d) + e * e;
    assert 2.0 * e * (s - n * d) + 2.0 * e * (x - d) == 2.0 * e * (s + x - (n + 1.0) * d);
    assert n * (e * e) + e * e == (n + 1.0) * (e * e);
  }

  /** Koenig's theorem: moving the centre away from the mean m costs n times the squared distance. */
  lemma AboutMean(xs: seq<real>, m: real, c: real)
    requires |xs| as real * m == Sum(xs)
    ensures SquaredFrom(xs, c) == SquaredFrom(xs, m) + |xs| as real * ((m - c) * (m - c))
  {
    hide SquaredFrom, Sum;
    MoveCentre(xs, c, m);
    TimesZero(2.0 * (m - c), Sum(xs) - |xs| as real * m);
  }

  lemma TimesZero(a: real, z: real)
    requires z == 0.0
    ensures a * z == 0.0
  {
  }

  lemma MeanTimesCount(xs: seq<real>)
    ensures |xs| as real * Mean(xs) == Sum(xs)
  {
  }

  lemma Unfold(xs: seq<real>, v: real, c: real)
    ensures Sum(xs + [v]) == Sum(xs) + v
    ensures SquaredFrom(xs + [v], c) == SquaredFrom(xs, c) + (v - c) * (v - c)
  {
    assert (xs + [v])[..|xs|] == xs;
  }

  /** Welford's recurrences agree with the batch formulas when one value is appended. */
  lemma AppendOne(xs: seq<real>, v: real)
    ensures var ys, n := xs + [v], |xs| as real + 1.0;
            && Sum(ys) == Sum(xs) + v
            && Mean(ys) == Mean(xs) + (v - Mean(xs)) / n
            && Deviations(ys) == Deviations(xs) + (v - Mean(xs)) * (v - Mean(ys))
  {
    hide SquaredFrom, Sum, Mean;
    Unfold(xs, v, 0.0);
    MeanTimesCount(xs);
    MeanTimesCount(xs + [v]);
    assert |xs + [v]| as real == |xs| as real + 1.0;
    NewMean(|xs| as real, Mean(xs), v, Mean(xs + [v]));
    AppendAbout(xs, v, Mean(xs), Mean(xs + [v]));
  }

  lemma NewMean(n: real, m: real, v: real, m': real)
    requires n >= 0.0 && (n + 1.0) * m' == n * m + v
    ensures m' == m + (v - m) / (n + 1.0)
  {
    var q := (v - m) / (n + 1.0);
    assert (n + 1.0) * q == v - m;
    assert (n + 1.0) * (m + q) == n * m + m + (n + 1.0) * q;
    SameProduct(n + 1.0, m', m + q);
  }

  lemma AppendAbout(xs: seq<real>, v: real, m: real, m': real)
    requires |xs| as real * m == Sum(xs) && (|xs| as real + 1.0) * m' == Sum(xs) + v
    ensures SquaredFrom(xs + [v], m') == SquaredFrom(xs, m) + (v - m) * (v - m')
  {
    hide SquaredFrom, Sum;
    Unfold(xs, v, m');
    AboutMean(xs, m, m');
    WelfordStep(|xs| as real, m, v, m');
  }

  lemma WelfordStep(n: real, m: real, v: real, m': real)
    requires (n + 1.0) * m' == n * m + v
    ensures n * ((m - m') * (m - m')) + (v - m') * (v - m') == (v - m) * (v - m')
  {
    var e := m - m';
    assert n * e == m' - v;
    assert n * (e * e) == (n * e) * e;
  }

  lemma SameProduct(k: real, a: real, b: real)
    requires k > 0.0 && k * a == k * b
    ensures a == b
  {
    assert k * (a - b) == 0.0;
  }

  /** Two halves of equal size: the merge formula of the ADWIN buckets. */
  lemma MergeHalves(xs: seq<real>, ys: seq<real>)
    requires |xs| == |ys| > 0
    ensures Sum(xs + ys) == Sum(xs) + Sum(ys)
    ensures Deviations(xs + ys)
         == Deviations(xs) + Deviations(ys) + (|xs| as real * ((Mean(xs) - Mean(ys)) * (Mean(xs) - Mean(ys)))) / 2.0
  {
    hide SquaredFrom, Sum, Mean;
    SumConcat(xs, ys);
    MeanTimesCount(xs);
    MeanTimesCount(ys);
    MeanTimesCount(xs + ys);
    HalvesAbout(xs, ys, Mean(xs), Mean(ys), Mean(xs + ys));
  }

  lemma HalvesAbout(xs: seq<real>, ys: seq<real>, a: real, b: real, m: real)
    requires |xs| == |ys| > 0
    requires |xs| as real * a == Sum(xs) && |ys| as real * b == Sum(ys)
    requires |xs + ys| as real * m == Sum(xs) + Sum(ys)
    ensures SquaredFrom(xs + ys, m)
         == SquaredFrom(xs, a) + SquaredFrom(ys, b) + (|xs| as real * ((a - b) * (a - b))) / 2.0
  {
    hide SquaredFrom, Sum;
    SquaredFromConcat(xs, ys, m);
    AboutMean(xs, a, m);
    AboutMean(ys, b, m);
    HalvesAlgebra(|xs| as real, |xs + ys| as real, a, b, m);
  }

  lemma HalvesAlgebra(n: real, both: real, a: real, b: real, m: real)
    requires n > 0.0 && both == 2.0 * n && both * m == n * a + n * b
    ensures n * ((a - m) * (a - m)) + n * ((b - m) * (b - m)) == (n * ((a - b) * (a - b))) / 2.0
  {
    SameProduct(n, 2.0 * m, a + b);
    var h := (a - b) / 2.0;
    assert a - m == h && b - m == -h;
    assert (a - b) * (a - b) == 4.0 * (h * h);
  }
}
