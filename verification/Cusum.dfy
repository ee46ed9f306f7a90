/**
 The CUSUM drift detector (predictive/drift.py), including its infinite deviations when the target deviation is zero.
 */
module Cusum {

  /** The part of the floating-point range the detector can reach: rounding is left out, the special values are not. */
  datatype Extended = Finite(r: real) | PosInf | NegInf | NaN

  function Add(a: Extended, b: Extended): Extended {
    match (a, b)
    case (Finite(x), Finite(y)) => Finite(x + y)
    case (Finite(_), _) => b
    case (_, Finite(_)) => a
    case (PosInf, PosInf) => PosInf
    case (NegInf, NegInf) => NegInf
    case _ => NaN
  }

  function Negate(a: Extended): Extended {
    match a
    case Finite(x) => Finite(-x)
    case PosInf => NegInf
    case NegInf => PosInf
    case NaN => NaN
  }

  /** `x > y` for a finite y; comparisons with NaN are false. */
  predicate Exceeds(a: Extended, y: real) {
    a.PosInf? || (a.Finite? && a.r > y)
  }

  /** `max(0.0, a)`: the second argument wins only if it is greater. */
  function Floor0(a: Extended): Extended {
    if Exceeds(a, 0.0) then a else Finite(0.0)
  }

  function Extreme(diff: real): Extended {
    if diff > 0.0 then PosInf else if diff < 0.0 then NegInf else Finite(0.0)
  }

  datatype Params = Params(mean: real, std: real, threshold: real, slack: real) {
    predicate Accepted() { threshold > 0.0 && slack >= 0.0 }

    function Deviation(value: real): Extended {
      var diff := value - mean;
      if std <= 0.0 then Extreme(diff) else Finite(diff / std)
    }
  }

  // ---------------------------------------------------------------- the batch definition

  /** Deviations of a stream from a positive target deviation. */
  function Devs(p: Params, xs: seq<real>): (ds: seq<real>)
    requires p.std > 0.0
  {
    seq(|xs|, i requires 0 <= i < |xs| => (xs[i] - p.mean) / p.std)
  }

  function Mirror(ds: seq<real>): seq<real> {
    seq(|ds|, i requires 0 <= i < |ds| => -ds[i])
  }

  /** Sum of (deviation - slack) over the suffix that starts at k. */
  function SuffixSum(ds: seq<real>, k: nat, slack: real): real
    requires k <= |ds|
    decreases |ds| - k
  {
    if k == |ds| then 0.0 else ds[k] - slack + SuffixSum(ds, k + 1, slack)
  }

  /** `m` is the greatest of all suffix sums, the empty one included. */
  ghost predicate IsMaxSuffix(ds: seq<real>, slack: real, m: real) {
    && (exists k: nat :: k <= |ds| && m == SuffixSum(ds, k, slack))
    && (forall k: nat | k <= |ds| :: SuffixSum(ds, k, slack) <= m)
  }

  lemma {:induction false} SuffixAppend(ds: seq<real>, d: real, k: nat, slack: real)
    requires k <= |ds|
    ensures SuffixSum(ds + [d], k, slack) == SuffixSum(ds, k, slack) + d - slack
    decreases |ds| - k
  {
    if k < |ds| {
      SuffixAppend(ds, d, k + 1, slack);
    } else {
      assert SuffixSum(ds + [d], k + 1, slack) == 0.0;
    }
  }

  /** The one-pass recursion turns the maximum suffix sum of a stream into that of the longer stream. */
  lemma RecursionIsMaxSuffix(ds: seq<real>, d: real, slack: real, m: real)
    requires IsMaxSuffix(ds, slack, m)
    ensures IsMaxSuffix(ds + [d], slack, if m + d - slack > 0.0 then m + d - slack else 0.0)
  {
    var es := ds + [d];
    forall k: nat | k <= |ds|
      ensures SuffixSum(es, k, slack) == SuffixSum(ds, k, slack) + d - slack
    {
      SuffixAppend(ds, d, k, slack);
    }
    assert SuffixSum(es, |es|, slack) == 0.0;
    var k: nat :| k <= |ds| && m == SuffixSum(ds, k, slack);
    assert SuffixSum(es, k, slack) == m + d - slack;
  }

  // ---------------------------------------------------------------- the detector

  function Recur(s: Extended, dev: Extended, slack: real): Extended {
    Floor0(Add(Add(s, dev), Finite(-slack)))
  }

  /** Positive target deviation: the two sums are the greatest suffix sums upwards and downwards. */
  ghost predicate TracksSuffixes(p: Params, seen: seq<real>, sPos: Extended, sNeg: Extended)
    requires p.std > 0.0
  {
    && sPos.Finite? && IsMaxSuffix(Devs(p, seen), p.slack, sPos.r)
    && sNeg.Finite? && IsMaxSuffix(Mirror(Devs(p, seen)), p.slack, sNeg.r)
  }

  /** Some observation missed the target. */
  ghost predicate Missed(mean: real, seen: seq<real>) {
    exists i :: 0 <= i < |seen| && seen[i] != mean
  }

  predicate AtExtreme(s: Extended) {
    s.PosInf? || (s.Finite? && s.r == 0.0)
  }

  /** Zero target deviation: a sum is infinite exactly when some observation missed the target. */
  predicate TracksMisses(missed: bool, sPos: Extended, sNeg: Extended) {
    AtExtreme(sPos) && AtExtreme(sNeg) && (sPos.PosInf? || sNeg.PosInf? <==> missed)
  }

  lemma SuffixStep(p: Params, seen: seq<real>, value: real, sPos: Extended, sNeg: Extended)
    requires p.Accepted() && p.std > 0.0 && TracksSuffixes(p, seen, sPos, sNeg)
    ensures var dev := p.Deviation(value);
            TracksSuffixes(p, seen + [value], Recur(sPos, dev, p.slack), Recur(sNeg, Negate(dev), p.slack))
  {
    var d, ds := (value - p.mean) / p.std, Devs(p, seen);
    RecursionIsMaxSuffix(ds, d, p.slack, sPos.r);
    RecursionIsMaxSuffix(Mirror(ds), -d, p.slack, sNeg.r);
    assert Devs(p, seen + [value]) == ds + [d];
    assert Mirror(ds + [d]) == Mirror(ds) + [-d];
  }

  lemma MissStep(missed: bool, diff: real, slack: real, sPos: Extended, sNeg: Extended)
    requires slack >= 0.0 && TracksMisses(missed, sPos, sNeg)
    ensures var dev := Extreme(diff);
            TracksMisses(missed || diff != 0.0, Recur(sPos, dev, slack), Recur(sNeg, Negate(dev), slack))
  {
    hide Recur, Negate;
    NegatedExtreme(diff);
    RecurOnExtremes(sPos, Extreme(diff), slack);
    RecurOnExtremes(sNeg, Extreme(-diff), slack);
  }

  lemma NegatedExtreme(diff: real)
    ensures Negate(Extreme(diff)) == Extreme(-diff)
  {
  }

  lemma MissedEither(mean: real, seen: seq<real>, value: real)
    ensures Missed(mean, seen + [value]) <==> Missed(mean, seen) || value != mean
  {
    var longer := seen + [value];
    if Missed(mean, seen) {
      var i :| 0 <= i < |seen| && seen[i] != mean;
      assert longer[i] != mean;
    }
    if value != mean {
      assert longer[|seen|] != mean;
    }
  }

  lemma ExtremeSum(s: Extended, dev: Extended)
    requires AtExtreme(s) && (AtExtreme(dev) || dev.NegInf?)
    ensures Add(s, dev) == if dev.PosInf? then PosInf else if dev.Finite? then s else if s.PosInf? then NaN else NegInf
  {
  }

  lemma LessSlack(s: Extended, slack: real)
    requires slack >= 0.0 && !(s.Finite? && s.r != 0.0)
    ensures Floor0(Add(s, Finite(-slack))) == if s.PosInf? then PosInf else Finite(0.0)
  {
  }

  /**
   On the extreme values a sum becomes infinite on its own infinity, is wiped by the opposite one, and else persists.
   */
  lemma RecurOnExtremes(s: Extended, dev: Extended, slack: real)
    requires AtExtreme(s) && (AtExtreme(dev) || dev.NegInf?) && slack >= 0.0
    ensures Recur(s, dev, slack) == if dev.PosInf? then PosInf else if dev.NegInf? then Finite(0.0) else s
  {
    ExtremeSum(s, dev);
    LessSlack(Add(s, dev), slack);
    hide Add, Floor0;
  }

  class CusumDetector {
    const p: Params
    var sPos: Extended
    var sNeg: Extended
    ghost var seen: seq<real>  // observations since the last reset

    ghost predicate Valid()
      reads this
    {
      && p.Accepted()
      && (p.std > 0.0 ==> TracksSuffixes(p, seen, sPos, sNeg))
      && (p.std <= 0.0 ==> TracksMisses(Missed(p.mean, seen), sPos, sNeg))
    }

    constructor (p: Params)
      requires p.Accepted()
      ensures Valid() && this.p == p && seen == []
    {
      this.p := p;
      sPos, sNeg := Finite(0.0), Finite(0.0);
      seen := [];
      new;
      EmptyStream(p);
    }

    /** The checked construction: a rejected threshold or slack is a ValueError in the source. */
    static method Create(p: Params) returns (d: CusumDetector?)
      ensures d == null <==> p.threshold <= 0.0 || p.slack < 0.0
      ensures d != null ==> fresh(d) && d.Valid() && d.p == p && d.seen == []
    {
      if p.threshold <= 0.0 || p.slack < 0.0 {
        return null;
      }
      d := new CusumDetector(p);
    }

    /**
     With a positive target deviation the alarm says that some suffix of the stream drifted beyond the threshold, up
     or down; with a zero one it says that some observation missed the target, through every infinity and NaN.
     */
    method Update(value: real) returns (drift: bool)
      requires Valid()
      modifies this
      ensures Valid() && seen == old(seen) + [value]
      ensures p.std > 0.0 ==> (drift <==> DriftedBeyond(p, seen))
      ensures p.std <= 0.0 ==> (drift <==> Missed(p.mean, seen))
    {
      hide Add, Floor0, Negate, Missed, DriftedBeyond, IsMaxSuffix, Devs, Mirror;
      var dev := p.Deviation(value);
      if p.std > 0.0 {
        SuffixStep(p, seen, value, sPos, sNeg);
      } else {
        MissStep(Missed(p.mean, seen), value - p.mean, p.slack, sPos, sNeg);
        MissedEither(p.mean, seen, value);
      }
      sPos := Floor0(Add(Add(sPos, dev), Finite(-p.slack)));
      sNeg := Floor0(Add(Add(sNeg, Negate(dev)), Finite(-p.slack)));
      seen := seen + [value];
      if p.std > 0.0 {
        AlarmIsDrift(p, seen, sPos.r, sNeg.r);
      }
      drift := Exceeds(sPos, p.threshold) || Exceeds(sNeg, p.threshold);
    }

    /** The documented promise that an alarm stays until the reset, in terms of the two sums. */
    lemma AlarmStays()
      requires Valid()
      ensures p.std > 0.0 ==> sPos.Finite? && sNeg.Finite?
      ensures p.std > 0.0 ==>
        ((forall ys :: DriftedBeyond(p, seen + ys)) <==> p.slack == 0.0 && sPos.r + sNeg.r > 2.0 * p.threshold)
      ensures p.std <= 0.0 ==>
        ((forall ys :: Missed(p.mean, seen + ys)) <==> Exceeds(sPos, p.threshold) || Exceeds(sNeg, p.threshold))
    {
      if p.std > 0.0 {
        AlarmLastsExactly(p, seen, sPos.r, sNeg.r);
      } else {
        MissedAlarmLasts(p.mean, seen);
      }
    }

    method Reset()
      requires Valid()
      modifies this
      ensures Valid() && seen == []
    {
      sPos, sNeg := Finite(0.0), Finite(0.0);
      seen := [];
      EmptyStream(p);
    }
  }

  lemma EmptyStream(p: Params)
    ensures p.std > 0.0 ==> TracksSuffixes(p, [], Finite(0.0), Finite(0.0))
  {
    assert SuffixSum([], 0, p.slack) == 0.0;
    if p.std > 0.0 {
      assert Devs(p, []) == [] && Mirror([]) == [];
    }
  }

  /** Some suffix of the stream has a drift sum beyond the threshold, upwards or downwards. */
  ghost predicate DriftedBeyond(p: Params, xs: seq<real>)
    requires p.std > 0.0
  {
    exists k: nat :: k <= |xs| &&
      (SuffixSum(Devs(p, xs), k, p.slack) > p.threshold || SuffixSum(Mirror(Devs(p, xs)), k, p.slack) > p.threshold)
  }

  lemma AlarmIsDrift(p: Params, xs: seq<real>, up: real, down: real)
    requires p.std > 0.0
    requires IsMaxSuffix(Devs(p, xs), p.slack, up) && IsMaxSuffix(Mirror(Devs(p, xs)), p.slack, down)
    ensures up > p.threshold || down > p.threshold <==> DriftedBeyond(p, xs)
  {
    var i: nat :| i <= |xs| && up == SuffixSum(Devs(p, xs), i, p.slack);
    var j: nat :| j <= |xs| && down == SuffixSum(Mirror(Devs(p, xs)), j, p.slack);
  }

  // ---------------------------------------------------------------- detection delay

  /**
   A sustained shift is detected in time: after any stream, floor(threshold / (d - slack)) + 1 observations that all
   deviate by d > slack leave a suffix beyond the threshold.
   */
  lemma ShiftIsDetected(p: Params, xs: seq<real>, d: real, steps: nat)
    requires p.Accepted() && p.std > 0.0 && d > p.slack
    requires steps == (p.threshold / (d - p.slack)).Floor + 1
    ensures DriftedBeyond(p, xs + seq(steps, _ => p.mean + d * p.std))
  {
    var v := p.mean + d * p.std;
    var ys := xs + seq(steps, _ => v);
    var ds := Devs(p, ys);
    QuotientOfProduct(d, p.std);
    assert forall i | |xs| <= i < |ys| :: ys[i] == v;
    ConstantTail(ds, |xs|, d, p.slack);
    EnoughSteps(p.threshold, d - p.slack, steps);
  }

  lemma QuotientOfProduct(d: real, std: real)
    requires std > 0.0
    ensures d * std / std == d
  {
  }

  lemma EnoughSteps(threshold: real, gain: real, steps: nat)
    requires gain > 0.0 && threshold > 0.0 && steps == (threshold / gain).Floor + 1
    ensures gain * steps as real > threshold
  {
    var q := threshold / gain;
    assert gain * q == threshold;
    assert gain * (steps as real - q) > 0.0;
  }

  lemma {:induction false} ConstantTail(ds: seq<real>, k: nat, d: real, slack: real)
    requires k <= |ds| && forall i | k <= i < |ds| :: ds[i] == d
    ensures SuffixSum(ds, k, slack) == (d - slack) * (|ds| - k) as real
    decreases |ds| - k
  {
    if k < |ds| {
      ConstantTail(ds, k + 1, d, slack);
    }
  }

  // ---------------------------------------------------------------- how long an alarm lasts

  /** n observations that hit the target. */
  function OnTarget(p: Params, n: nat): seq<real> {
    seq(n, _ => p.mean)
  }

  function Zeros(n: nat): seq<real> {
    seq(n, _ => 0.0)
  }

  lemma {:induction false} QuietTail(ds: seq<real>, n: nat, k: nat, slack: real)
    requires k <= |ds| + n
    ensures SuffixSum(ds + Zeros(n), k, slack)
         == if k <= |ds| then SuffixSum(ds, k, slack) - slack * n as real else -slack * (|ds| + n - k) as real
    decreases |ds| + n - k
  {
    if k < |ds| + n {
      QuietTail(ds, n, k + 1, slack);
    }
  }

  lemma {:induction false} SuffixesBounded(ds: seq<real>, slack: real, from: nat) returns (b: real)
    requires from <= |ds|
    ensures b >= 0.0 && forall k: nat | from <= k <= |ds| :: SuffixSum(ds, k, slack) <= b
    decreases |ds| - from
  {
    if from == |ds| {
      b := 0.0;
    } else {
      var c := SuffixesBounded(ds, slack, from + 1);
      var here := SuffixSum(ds, from, slack);
      b := if here > c then here else c;
    }
  }

  lemma DevsThenTarget(p: Params, xs: seq<real>, n: nat)
    requires p.std > 0.0
    ensures Devs(p, xs + OnTarget(p, n)) == Devs(p, xs) + Zeros(n)
    ensures Mirror(Devs(p, xs + OnTarget(p, n))) == Mirror(Devs(p, xs)) + Zeros(n)
  {
  }

  /** With no slack, observations on the target change no suffix that starts earlier. */
  lemma QuietKeepsAlarm(p: Params, xs: seq<real>, n: nat)
    requires p.std > 0.0 && p.slack == 0.0 && DriftedBeyond(p, xs)
    ensures DriftedBeyond(p, xs + OnTarget(p, n))
  {
    var k: nat :| k <= |xs| &&
      (SuffixSum(Devs(p, xs), k, p.slack) > p.threshold || SuffixSum(Mirror(Devs(p, xs)), k, p.slack) > p.threshold);
    DevsThenTarget(p, xs, n);
    QuietTail(Devs(p, xs), n, k, p.slack);
    QuietTail(Mirror(Devs(p, xs)), n, k, p.slack);
  }

  lemma QuietClearsAlarm(p: Params, xs: seq<real>) returns (n: nat)
    requires p.Accepted() && p.std > 0.0 && p.slack > 0.0
    ensures !DriftedBeyond(p, xs + OnTarget(p, n))
  {
    var a := SuffixesBounded(Devs(p, xs), p.slack, 0);
    var b := SuffixesBounded(Mirror(Devs(p, xs)), p.slack, 0);
    var most := if a > b then a else b;
    n := (most / p.slack).Floor + 1;
    SpentSlack(most, p.slack, n);
    DevsThenTarget(p, xs, n);
    NothingLeft(Devs(p, xs), n, p.slack, most);
    NothingLeft(Mirror(Devs(p, xs)), n, p.slack, most);
    hide SuffixSum, Devs, Mirror;
    assert |Devs(p, xs)| == |Mirror(Devs(p, xs))| == |xs| by { Lengths(p, xs); }
  }

  lemma Lengths(p: Params, xs: seq<real>)
    requires p.std > 0.0
    ensures |Devs(p, xs)| == |Mirror(Devs(p, xs))| == |xs|
  {
  }

  /** Once the slack has used up the greatest suffix sum, no suffix is positive any more. */
  lemma NothingLeft(ds: seq<real>, n: nat, slack: real, most: real)
    requires slack > 0.0 && most - slack * n as real <= 0.0
    requires forall k: nat | k <= |ds| :: SuffixSum(ds, k, slack) <= most
    ensures forall k: nat | k <= |ds| + n :: SuffixSum(ds + Zeros(n), k, slack) <= 0.0
  {
    forall k: nat | k <= |ds| + n
      ensures SuffixSum(ds + Zeros(n), k, slack) <= 0.0
    {
      QuietTail(ds, n, k, slack);
    }
  }

  lemma SpentSlack(most: real, slack: real, n: nat)
    requires slack > 0.0 && most >= 0.0 && n == (most / slack).Floor + 1
    ensures most - slack * n as real <= 0.0
  {
    var q := most / slack;
    assert slack * q == most;
    assert slack * (n as real - q) > 0.0;
  }

  /** Observations that hit the target never clear an alarm exactly when there is no slack. */
  lemma QuietAlarmLastsExactly(p: Params, xs: seq<real>)
    requires p.Accepted() && p.std > 0.0 && DriftedBeyond(p, xs)
    ensures p.slack == 0.0 <==> forall n: nat :: DriftedBeyond(p, xs + OnTarget(p, n))
  {
    if p.slack == 0.0 {
      forall n: nat
        ensures DriftedBeyond(p, xs + OnTarget(p, n))
      {
        QuietKeepsAlarm(p, xs, n);
      }
    } else {
      var n := QuietClearsAlarm(p, xs);
    }
  }

  /** Appending observations moves all earlier suffix sums by one and the same amount. */
  lemma {:induction false} SuffixesShift(ds: seq<real>, es: seq<real>, slack: real) returns (c: real)
    ensures forall k: nat | k <= |ds| :: SuffixSum(ds + es, k, slack) == SuffixSum(ds, k, slack) + c
  {
    if es == [] {
      c := 0.0;
      assert ds + es == ds;
    } else {
      var front, e := es[..|es| - 1], es[|es| - 1];
      var b := SuffixesShift(ds, front, slack);
      c := b + e - slack;
      assert ds + es == ds + front + [e];
      forall k: nat | k <= |ds|
        ensures SuffixSum(ds + es, k, slack) == SuffixSum(ds, k, slack) + c
      {
        SuffixAppend(ds + front, e, k, slack);
      }
    }
  }

  lemma {:induction false} MirroredSuffix(ds: seq<real>, k: nat)
    requires k <= |ds|
    ensures SuffixSum(Mirror(ds), k, 0.0) == -SuffixSum(ds, k, 0.0)
    decreases |ds| - k
  {
    if k < |ds| {
      MirroredSuffix(ds, k + 1);
    }
  }

  /** Without slack the distance between the two sums never shrinks, so together they stay beyond the threshold. */
  lemma WideAlarmLasts(p: Params, xs: seq<real>, ys: seq<real>, up: real, down: real)
    requires p.std > 0.0 && p.slack == 0.0 && up + down > 2.0 * p.threshold
    requires IsMaxSuffix(Devs(p, xs), p.slack, up) && IsMaxSuffix(Mirror(Devs(p, xs)), p.slack, down)
    ensures DriftedBeyond(p, xs + ys)
  {
    var ds, es := Devs(p, xs), Devs(p, ys);
    var i: nat :| i <= |ds| && up == SuffixSum(ds, i, p.slack);
    var j: nat :| j <= |Mirror(ds)| && down == SuffixSum(Mirror(ds), j, p.slack);
    var c := SuffixesShift(ds, es, p.slack);
    MirroredSuffix(ds, j);
    MirroredSuffix(ds + es, j);
    assert Devs(p, xs + ys) == ds + es;
    assert SuffixSum(ds + es, i, p.slack) == up + c;
    assert SuffixSum(Mirror(ds + es), j, p.slack) == down - c;
  }

  /** Otherwise one observation takes the greater sum down to the threshold without lifting the other one above it. */
  lemma NarrowAlarmClears(p: Params, xs: seq<real>, up: real, down: real)
    requires p.Accepted() && p.std > 0.0 && p.slack == 0.0 && up + down <= 2.0 * p.threshold
    requires IsMaxSuffix(Devs(p, xs), p.slack, up) && IsMaxSuffix(Mirror(Devs(p, xs)), p.slack, down)
    ensures exists ys :: !DriftedBeyond(p, xs + ys)
  {
    var d := p.threshold - up;
    var y := p.mean + d * p.std;
    QuotientOfProduct(d, p.std);
    assert Devs(p, xs + [y]) == Devs(p, xs) + [d];
    assert Mirror(Devs(p, xs) + [d]) == Mirror(Devs(p, xs)) + [-d];
    RecursionIsMaxSuffix(Devs(p, xs), d, p.slack, up);
    RecursionIsMaxSuffix(Mirror(Devs(p, xs)), -d, p.slack, down);
    AlarmIsDrift(p, xs + [y], if up + d - p.slack > 0.0 then up + d - p.slack else 0.0,
                 if down - d - p.slack > 0.0 then down - d - p.slack else 0.0);
    assert !DriftedBeyond(p, xs + [y]);
  }

  /**
   With a positive target deviation the alarm is on after every continuation of the stream exactly when there is no
   slack and the two sums together exceed twice the threshold.
   */
  lemma AlarmLastsExactly(p: Params, xs: seq<real>, up: real, down: real)
    requires p.Accepted() && p.std > 0.0
    requires IsMaxSuffix(Devs(p, xs), p.slack, up) && IsMaxSuffix(Mirror(Devs(p, xs)), p.slack, down)
    ensures (forall ys :: DriftedBeyond(p, xs + ys)) <==> p.slack == 0.0 && up + down > 2.0 * p.threshold
  {
    if p.slack > 0.0 {
      var n := QuietClearsAlarm(p, xs);
    } else if up + down <= 2.0 * p.threshold {
      NarrowAlarmClears(p, xs, up, down);
    } else {
      forall ys
        ensures DriftedBeyond(p, xs + ys)
      {
        WideAlarmLasts(p, xs, ys, up, down);
      }
    }
  }

  /** With a zero target deviation an alarm does last, whatever follows. */
  lemma MissedAlarmLasts(mean: real, xs: seq<real>)
    ensures (forall ys :: Missed(mean, xs + ys)) <==> Missed(mean, xs)
  {
    if Missed(mean, xs) {
      var i :| 0 <= i < |xs| && xs[i] != mean;
      forall ys
        ensures Missed(mean, xs + ys)
      {
        assert (xs + ys)[i] != mean;
      }
    } else {
      assert xs + [] == xs;
      assert !Missed(mean, xs + []);
    }
  }
}
