/** Welford's online baseline per entity and metric (predictive/adaptive_thresholder.py). */
module Welford {
  import opened Options
  import opened SquaredDeviations

  class WelfordStats {
    var count: nat
    var mean: real
    var m2: real
    ghost var values: seq<real>

    /** The three running numbers are the batch statistics of every value seen. */
    ghost predicate Valid()
      reads this
    {
      count == |values| && mean == Mean(values) && m2 == Deviations(values)
    }

    constructor ()
      ensures Valid() && values == []
    {
      count, mean, m2 := 0, 0.0, 0.0;
      values := [];
    }

    method Update(value: real)
      requires Valid()
      modifies this
      ensures Valid() && values == old(values) + [value]
    {
      count := count + 1;
      var delta := value - mean;
      mean := mean + delta / count as real;
      var delta2 := value - mean;
      m2 := m2 + delta * delta2;
      AppendOne(values, value);
      values := values + [value];
    }

    /** Population variance, 0 below two values. */
    function Variance(): (v: real)
      requires Valid()
      reads this
      ensures v >= 0.0
      ensures count >= 2 ==> v == Deviations(values) / count as real
    {
      SquaredFromNonNegative(values, Mean(values));
      if count >= 2 then m2 / count as real else 0.0
    }
  }

  /** One recorded observation of the history. */
  datatype Observation = Observation(key: string, value: real)

  function Key(entity: string, metric: string): string {
    entity + "::" + metric
  }

  /**
   When two pairs share their statistics. The longer entity id must continue the shorter one by the separator and part
   of the shorter one's metric, or overlap the separator by one colon.
   */
  lemma KeysAgree(entity: string, metric: string, longer: string, other: string)
    requires |entity| <= |longer|
    ensures Key(entity, metric) == Key(longer, other) <==>
            || (entity == longer && metric == other)
            || (longer == entity + ":" && metric == ":" + other)
            || exists x :: longer == entity + "::" + x && metric == x + "::" + other
  {
    var k, l := Key(entity, metric), Key(longer, other);
    if k == l {
      assert k[..|longer|] == longer && k[|longer|..|longer| + 2] == "::" && k[|longer| + 2..] == other;
      if |longer| == |entity| {
        assert k[..|entity|] == entity && k[|entity| + 2..] == metric;
      } else if |longer| == |entity| + 1 {
        OneColonMore(entity, metric, longer, other);
      } else {
        var x := metric[..|longer| - |entity| - 2];
        assert k[..|longer|] == entity + "::" + x;
        assert metric == k[|entity| + 2..];
        assert metric == x + "::" + other;
      }
    } else {
      assert forall x :: entity + "::" + (x + "::" + other) == entity + "::" + x + "::" + other;
      assert entity + "::" + (":" + other) == entity + ":" + "::" + other;
    }
  }

  lemma OneColonMore(entity: string, metric: string, longer: string, other: string)
    requires |longer| == |entity| + 1 && Key(entity, metric) == Key(longer, other)
    ensures longer == entity + ":" && metric == ":" + other
  {
    var k, l := Key(entity, metric), Key(longer, other);
    assert l[..|longer|] == longer && k[..|longer|] == entity + ":";
    assert metric == k[|entity| + 2..];
    assert l[|entity| + 2..] == l[|longer| + 1..] == ":" + other;
  }

  /** No two pairs share statistics when entity ids hold no colon. */
  lemma KeyInjective(entity: string, metric: string, entity': string, metric': string)
    requires ':' !in entity && ':' !in entity'
    ensures Key(entity, metric) == Key(entity', metric') ==> entity == entity' && metric == metric'
  {
    if |entity| <= |entity'| {
      KeysAgree(entity, metric, entity', metric');
    } else {
      KeysAgree(entity', metric', entity, metric);
    }
  }

  /** The values that one key received, in order. */
  function ValuesOf(history: seq<Observation>, key: string): seq<real> {
    if history == [] then []
    else
      var front, o := history[..|history| - 1], history[|history| - 1];
      ValuesOf(front, key) + if o.key == key then [o.value] else []
  }

  /** One more observation extends its own key's values and no other's. */
  lemma ValuesOfAppend(history: seq<Observation>, key: string, value: real)
    ensures var longer := history + [Observation(key, value)];
            forall k {:trigger ValuesOf(longer, k)} ::
              ValuesOf(longer, k) == if k == key then ValuesOf(history, k) + [value] else ValuesOf(history, k)
  {
    var longer := history + [Observation(key, value)];
    assert longer[..|longer| - 1] == history;
  }

  /** Batch form of the threshold: mean plus k population standard deviations. */
  function Threshold(xs: seq<real>, k: real, sqrt: real -> real): Option<real> {
    if |xs| < 2 then None else Some(Level(Mean(xs), Deviations(xs) / |xs| as real, k, sqrt))
  }

  function Level(mean: real, variance: real, k: real, sqrt: real -> real): real {
    mean + k * Root(sqrt, variance)
  }

  function Root(sqrt: real -> real, x: real): real {
    sqrt(x)
  }

  /**
   How far the threshold lies from the mean of the values: above it for a positive k, at k squared times the population
   variance when squared, given a square root that deserves the name.
   */
  lemma ThresholdExactly(xs: seq<real>, k: real, sqrt: real -> real)
    requires forall x | x >= 0.0 :: Root(sqrt, x) >= 0.0 && Root(sqrt, x) * Root(sqrt, x) == x
    ensures Threshold(xs, k, sqrt) == None <==> |xs| < 2
    ensures |xs| >= 2 ==>
      var gap := Threshold(xs, k, sqrt).value - Mean(xs);
      && gap * gap == k * k * (Deviations(xs) / |xs| as real)
      && (k >= 0.0 ==> gap >= 0.0) && (k <= 0.0 ==> gap <= 0.0)
  {
    if |xs| >= 2 {
      SquaredFromNonNegative(xs, Mean(xs));
      var variance := Deviations(xs) / |xs| as real;
      LevelExactly(Mean(xs), variance, k, sqrt);
      hide Deviations, Mean, Level;
    }
  }

  lemma LevelExactly(mean: real, variance: real, k: real, sqrt: real -> real)
    requires variance >= 0.0
    requires Root(sqrt, variance) >= 0.0 && Root(sqrt, variance) * Root(sqrt, variance) == variance
    ensures var gap := Level(mean, variance, k, sqrt) - mean;
            && gap * gap == k * k * variance
            && (k >= 0.0 ==> gap >= 0.0) && (k <= 0.0 ==> gap <= 0.0)
  {
    var root := Root(sqrt, variance);
    hide Root;
    SquareOfProduct(k, root, variance);
    SameSign(k, root);
  }

  lemma SquareOfProduct(k: real, root: real, variance: real)
    requires root * root == variance
    ensures (k * root) * (k * root) == k * k * variance
  {
    assert (k * root) * (k * root) == k * k * (root * root);
  }

  lemma SameSign(k: real, root: real)
    requires root >= 0.0
    ensures (k >= 0.0 ==> k * root >= 0.0) && (k <= 0.0 ==> k * root <= 0.0)
  {
  }

  class AdaptiveThresholder {
    const k: real
    /** The square root, left to the caller. */
    const sqrt: real -> real
    var stats: map<string, WelfordStats>
    ghost var history: seq<Observation>

    /** Every key's statistics describe exactly that key's own values, however the updates were interleaved. */
    ghost predicate Valid()
      reads this, stats.Values
    {
      && (forall key | key in stats :: stats[key].Valid() && stats[key].values == ValuesOf(history, key))
      && (forall key :: key in stats || ValuesOf(history, key) == [])
      && (forall a, b | a in stats && b in stats && a != b :: stats[a] != stats[b])
    }

    constructor (k: real, sqrt: real -> real)
      ensures Valid() && history == [] && stats == map[] && this.k == k && this.sqrt == sqrt
    {
      this.k, this.sqrt := k, sqrt;
      stats := map[];
      history := [];
    }

    method Entry(key: string) returns (s: WelfordStats)
      requires Valid()
      modifies this`stats
      ensures Valid() && fresh(stats.Values - old(stats.Values))
      ensures key in stats && stats[key] == s
    {
      hide Mean, Deviations, ValuesOf;
      if key in stats {
        s := stats[key];
      } else {
        s := new WelfordStats();
        stats := stats[key := s];
      }
    }

    method Update(entity: string, metric: string, value: real)
      requires Valid()
      modifies this, stats.Values
      ensures Valid() && fresh(stats.Values - old(stats.Values))
      ensures history == old(history) + [Observation(Key(entity, metric), value)]
    {
      hide Mean, Deviations, ValuesOf;
      var key := Key(entity, metric);
      var s := Entry(key);
      s.Update(value);
      history := history + [Observation(key, value)];
      ValuesOfAppend(old(history), key, value);
    }

    /** Mean plus k standard deviations of the key's own values, or nothing below two values. */
    method GetThreshold(entity: string, metric: string) returns (t: Option<real>)
      requires Valid()
      ensures t == Threshold(ValuesOf(history, Key(entity, metric)), k, sqrt)
    {
      var key := Key(entity, metric);
      if key !in stats || stats[key].count < 2 {
        return None;
      }
      t := Some(Level(stats[key].mean, stats[key].Variance(), k, sqrt));
    }
  }
}
