/** The per-client request limiter of the importer (importer/main.py). */
module RateLimit {
  import opened Options

  /** Window start and number of requests counted since, refused ones included. */
  datatype Bucket = Bucket(start: real, hits: int)

  /** One decision: None when admitted, else the seconds to wait; and the bucket afterwards. */
  function Decide(bucket: Option<Bucket>, window: real, maxHits: int, now: real): (Option<int>, Bucket) {
    if bucket.None? || now - bucket.value.start >= window then (None, Bucket(now, 1))
    else
      var b := bucket.value.(hits := bucket.value.hits + 1);
      if b.hits <= maxHits then (None, b) else (Some((window - (now - b.start)).Floor + 1), b)
  }

  type BucketKey = (string, string)

  class RateLimiter {
    var buckets: map<BucketKey, Bucket>

    constructor ()
      ensures buckets == map[]
    {
      buckets := map[];
    }

    method Limit(group: string, window: real, maxHits: int, client: string, now: real) returns (retry: Option<int>)
      modifies this
      ensures var key := (group, client);
              var known := key in old(buckets) && now - old(buckets)[key].start < window;
              && (retry.None? <==> !known || old(buckets)[key].hits < maxHits)
              && (retry.Some? ==>
                    var left := old(buckets)[key].start + window - now;
                    retry.value as real > left >= (retry.value - 1) as real)
              && buckets == old(buckets)[key := if known then Bucket(old(buckets)[key].start, old(buckets)[key].hits + 1)
                                                else Bucket(now, 1)]
      ensures var key := (group, client);
              && key in buckets && (retry, buckets[key]) == Decide(Lookup(old(buckets), key), window, maxHits, now)
              && buckets == old(buckets)[key := buckets[key]]
    {
      var key := (group, client);
      if key !in buckets || now - buckets[key].start >= window {
        buckets := buckets[key := Bucket(now, 1)];
        return None;
      }
      buckets := buckets[key := buckets[key].(hits := buckets[key].hits + 1)];
      if buckets[key].hits <= maxHits {
        return None;
      }
      // int() truncates, and what is left of the window is positive here
      retry := Some((window - (now - buckets[key].start)).Floor + 1);
    }
  }

  // ---------------------------------------------------------------- runs over all clients

  datatype Request = Request(group: string, client: string, now: real)

  /** Window length and limit of each route group. */
  datatype Policy = Policy(window: real, maxHits: int)

  /** Admitted requests of one client and group within [from, from + window). */
  function AdmittedWithin(policies: map<string, Policy>, requests: seq<Request>, buckets: map<BucketKey, Bucket>,
                          key: BucketKey, from: real): nat
    requires forall r | r in requests :: r.group in policies
    requires key.0 in policies
  {
    if requests == [] then 0
    else
      var r := requests[0];
      var p := policies[r.group];
      var (retry, b) := Decide(Lookup(buckets, (r.group, r.client)), p.window, p.maxHits, r.now);
      (if (r.group, r.client) == key && retry.None? && from <= r.now < from + policies[key.0].window then 1 else 0)
      + AdmittedWithin(policies, requests[1..], buckets[(r.group, r.client) := b], key, from)
  }

  ghost predicate ClockRuns(requests: seq<Request>, since: real) {
    && (forall r | r in requests :: r.now >= since)
    && (forall i, j | 0 <= i < j < |requests| :: requests[i].now <= requests[j].now)
  }

  /** A fresh window admits its first request whatever the limit is. */
  function PerWindow(maxHits: int): nat {
    if maxHits >= 1 then maxHits else 1
  }

  /** What one bucket can still admit. */
  function Left(b: Bucket, maxHits: int): nat {
    if b.hits <= PerWindow(maxHits) then PerWindow(maxHits) - b.hits else 0
  }

  /**
   How many admissions from time `since` on can still fall within [from, from + window). The interval overlaps at most
   two buckets: one that started before it, possibly not opened yet and opened by a request outside the interval, and
   one that starts in it.
   */
  function Budget(bucket: Option<Bucket>, p: Policy, from: real, since: real): nat {
    if bucket.Some? && bucket.value.start >= from then Left(bucket.value, p.maxHits)
    else
      (if bucket.Some? && since >= from then Left(bucket.value, p.maxHits) else PerWindow(p.maxHits) - 1)
      + PerWindow(p.maxHits)
  }

  ghost predicate Counted(bucket: Option<Bucket>) {
    bucket.Some? ==> bucket.value.hits >= 1
  }

  /** One admission inside the interval costs one unit of budget. */
  lemma DecideSpendsBudget(bucket: Option<Bucket>, p: Policy, since: real, now: real, from: real)
    requires p.window > 0.0 && Counted(bucket) && (bucket.Some? ==> bucket.value.start <= since) && since <= now
    ensures var (retry, b) := Decide(bucket, p.window, p.maxHits, now);
            && Counted(Some(b)) && b.start <= now
            && (now < from + p.window ==>
                (if retry.None? && from <= now then 1 else 0) + Budget(Some(b), p, from, now)
                <= Budget(bucket, p, from, since))
  {
  }

  lemma {:induction false} BudgetHolds(policies: map<string, Policy>, requests: seq<Request>,
                                       buckets: map<BucketKey, Bucket>,
                                       key: BucketKey, from: real, since: real)
    requires forall r | r in requests :: r.group in policies
    requires key.0 in policies && policies[key.0].window > 0.0 && ClockRuns(requests, since)
    requires Counted(Lookup(buckets, key)) && (key in buckets ==> buckets[key].start <= since)
    ensures AdmittedWithin(policies, requests, buckets, key, from)
         <= if since < from + policies[key.0].window then Budget(Lookup(buckets, key), policies[key.0], from, since)
            else 0
  {
    if requests != [] {
      var r, p := requests[0], policies[key.0];
      var k := (r.group, r.client);
      var (retry, b) := Decide(Lookup(buckets, k), policies[r.group].window, policies[r.group].maxHits, r.now);
      forall x | x in requests[1..]
        ensures x.now >= r.now && x.group in policies
      {
        var i :| 0 <= i < |requests[1..]| && requests[1..][i] == x;
        assert requests[i + 1] == x && requests[0].now <= requests[i + 1].now;
      }
      if k == key {
        DecideSpendsBudget(Lookup(buckets, key), p, since, r.now, from);
      }
      BudgetHolds(policies, requests[1..], buckets[k := b], key, from, r.now);
    }
  }

  /**
   In any run of any clients, every half-open interval as long as the window holds less than twice the limit of admitted
   requests of one client and group (a limit below one admits one request per window).
   */
  lemma IntervalBound(policies: map<string, Policy>, requests: seq<Request>, key: BucketKey, from: real, since: real)
    requires forall r | r in requests :: r.group in policies
    requires key.0 in policies && policies[key.0].window > 0.0 && ClockRuns(requests, since)
    ensures AdmittedWithin(policies, requests, map[], key, from) <= 2 * PerWindow(policies[key.0].maxHits) - 1
  {
    BudgetHolds(policies, requests, map[], key, from, since);
  }

  // ---------------------------------------------------------------- the bound is reached

  /** The same request n times. */
  function Burst(r: Request, n: nat): seq<Request> {
    if n == 0 then [] else [r] + Burst(r, n - 1)
  }

  lemma {:induction false} BurstFacts(r: Request, n: nat)
    ensures |Burst(r, n)| == n && forall i | 0 <= i < n :: Burst(r, n)[i] == r
  {
    if n > 0 {
      BurstFacts(r, n - 1);
    }
  }

  /** One more hit of a running bucket. */
  lemma HitAdmitted(policies: map<string, Policy>, r: Request, rest: seq<Request>, buckets: map<BucketKey, Bucket>,
                    from: real)
    requires r.group in policies && forall x | x in rest :: x.group in policies
    requires (r.group, r.client) in buckets
    requires var b := buckets[(r.group, r.client)];
             r.now - b.start < policies[r.group].window && b.hits < policies[r.group].maxHits
    ensures AdmittedWithin(policies, [r] + rest, buckets, (r.group, r.client), from)
         == (if from <= r.now < from + policies[r.group].window then 1 else 0)
            + AdmittedWithin(policies, rest, Hit(buckets, (r.group, r.client), 1), (r.group, r.client), from)
  {
    assert ([r] + rest)[0] == r && ([r] + rest)[1..] == rest;
  }

  function Hit(buckets: map<BucketKey, Bucket>, key: BucketKey, n: nat): map<BucketKey, Bucket>
    requires key in buckets
  {
    buckets[key := Bucket(buckets[key].start, buckets[key].hits + n)]
  }

  /** A burst that fits into the running bucket is admitted as a whole. */
  lemma {:induction false} BurstAdmitted(policies: map<string, Policy>, r: Request, n: nat, rest: seq<Request>,
                                         buckets: map<BucketKey, Bucket>, from: real)
    requires r.group in policies && forall x | x in Burst(r, n) + rest :: x.group in policies
    requires (r.group, r.client) in buckets
    requires var b := buckets[(r.group, r.client)];
             r.now - b.start < policies[r.group].window && b.hits + n <= policies[r.group].maxHits
    ensures AdmittedWithin(policies, Burst(r, n) + rest, buckets, (r.group, r.client), from)
         == (if from <= r.now < from + policies[r.group].window then n else 0)
            + AdmittedWithin(policies, rest, Hit(buckets, (r.group, r.client), n), (r.group, r.client), from)
  {
    hide AdmittedWithin;
    var key := (r.group, r.client);
    if n == 0 {
      assert Burst(r, 0) + rest == rest && Hit(buckets, key, 0) == buckets;
    } else {
      assert Burst(r, n) + rest == [r] + (Burst(r, n - 1) + rest);
      forall x | x in Burst(r, n - 1) + rest
        ensures x.group in policies
      {
        assert x in Burst(r, n) + rest;
      }
      HitAdmitted(policies, r, Burst(r, n - 1) + rest, buckets, from);
      BurstAdmitted(policies, r, n - 1, rest, Hit(buckets, key, 1), from);
      assert Hit(Hit(buckets, key, 1), key, n - 1) == Hit(buckets, key, n);
    }
  }

  /** At the end of a window a full new one. */
  function LateRun(key: BucketKey, p: Policy): seq<Request>
    requires p.maxHits >= 1
  {
    [Request(key.0, key.1, p.window)] + Burst(Request(key.0, key.1, p.window), p.maxHits - 1)
  }

  /** In the middle of the window before it all but one of its hits. */
  function MiddleRun(key: BucketKey, p: Policy): seq<Request>
    requires p.maxHits >= 1
  {
    Burst(Request(key.0, key.1, p.window / 2.0), p.maxHits - 1) + LateRun(key, p)
  }

  /** And the request that opens that window. */
  function WorstRun(key: BucketKey, p: Policy): seq<Request>
    requires p.maxHits >= 1
  {
    [Request(key.0, key.1, 0.0)] + MiddleRun(key, p)
  }

  /** A run of one route group within a period. */
  ghost predicate Between(requests: seq<Request>, group: string, first: real, last: real) {
    ClockRuns(requests, first) && forall r | r in requests :: r.group == group && r.now <= last
  }

  lemma BetweenConcat(a: seq<Request>, b: seq<Request>, group: string, t0: real, t1: real, t2: real, t3: real)
    requires Between(a, group, t0, t1) && Between(b, group, t2, t3) && t0 <= t1 <= t2 <= t3
    ensures Between(a + b, group, t0, t3)
  {
    var s := a + b;
    forall i, j | 0 <= i < j < |s|
      ensures s[i].now <= s[j].now
    {
      if i < |a| <= j {
        assert s[i] in a && s[j] in b;
      }
    }
  }

  lemma BurstBetween(r: Request, n: nat)
    ensures Between(Burst(r, n), r.group, r.now, r.now)
  {
    BurstFacts(r, n);
  }

  lemma OneBetween(r: Request)
    ensures Between([r], r.group, r.now, r.now)
  {
  }

  lemma LateRunIsRun(key: BucketKey, p: Policy)
    requires p.maxHits >= 1
    ensures Between(LateRun(key, p), key.0, p.window, p.window)
  {
    hide Between, Burst;
    var last := Request(key.0, key.1, p.window);
    OneBetween(last);
    BurstBetween(last, p.maxHits - 1);
    BetweenConcat([last], Burst(last, p.maxHits - 1), key.0, p.window, p.window, p.window, p.window);
  }

  lemma MiddleRunIsRun(key: BucketKey, p: Policy)
    requires p.window > 0.0 && p.maxHits >= 1
    ensures Between(MiddleRun(key, p), key.0, p.window / 2.0, p.window)
  {
    hide Between, Burst, LateRun;
    var middle := Request(key.0, key.1, p.window / 2.0);
    BurstBetween(middle, p.maxHits - 1);
    LateRunIsRun(key, p);
    BetweenConcat(Burst(middle, p.maxHits - 1), LateRun(key, p), key.0, middle.now, middle.now, p.window, p.window);
  }

  lemma WorstRunIsRun(key: BucketKey, p: Policy)
    requires p.window > 0.0 && p.maxHits >= 1
    ensures Between(WorstRun(key, p), key.0, 0.0, p.window)
  {
    hide Between, MiddleRun;
    var first := Request(key.0, key.1, 0.0);
    OneBetween(first);
    MiddleRunIsRun(key, p);
    BetweenConcat([first], MiddleRun(key, p), key.0, 0.0, 0.0, p.window / 2.0, p.window);
  }

  /** The request after a whole window opens the next one. */
  lemma ResetAdmitted(policies: map<string, Policy>, r: Request, rest: seq<Request>, buckets: map<BucketKey, Bucket>,
                      from: real)
    requires r.group in policies && forall x | x in rest :: x.group in policies
    requires (r.group, r.client) in buckets ==>
      r.now - buckets[(r.group, r.client)].start >= policies[r.group].window
    ensures AdmittedWithin(policies, [r] + rest, buckets, (r.group, r.client), from)
         == (if from <= r.now < from + policies[r.group].window then 1 else 0)
            + AdmittedWithin(policies, rest, buckets[(r.group, r.client) := Bucket(r.now, 1)], (r.group, r.client),
                             from)
  {
    assert ([r] + rest)[0] == r && ([r] + rest)[1..] == rest;
  }

  lemma {:induction false} LateRunAdmitted(policies: map<string, Policy>, key: BucketKey)
    requires key.0 in policies && policies[key.0].window > 0.0 && policies[key.0].maxHits >= 1
    requires forall r | r in LateRun(key, policies[key.0]) :: r.group in policies
    ensures var p := policies[key.0];
            AdmittedWithin(policies, LateRun(key, p), map[key := Bucket(0.0, p.maxHits)], key, p.window / 2.0)
            == p.maxHits
  {
    var p := policies[key.0];
    var last := Request(key.0, key.1, p.window);
    var burst := Burst(last, p.maxHits - 1);
    assert burst + [] == burst;
    BurstFacts(last, p.maxHits - 1);
    var full := Hit(map[key := Bucket(p.window, 1)], key, p.maxHits - 1);
    assert AdmittedWithin(policies, [], full, key, p.window / 2.0) == 0;
    hide AdmittedWithin, Burst;
    ResetAdmitted(policies, last, burst, map[key := Bucket(0.0, p.maxHits)], p.window / 2.0);
    assert map[key := Bucket(0.0, p.maxHits)][key := Bucket(p.window, 1)] == map[key := Bucket(p.window, 1)];
    BurstAdmitted(policies, last, p.maxHits - 1, [], map[key := Bucket(p.window, 1)], p.window / 2.0);
  }

  lemma {:induction false} MiddleRunAdmitted(policies: map<string, Policy>, key: BucketKey)
    requires key.0 in policies && policies[key.0].window > 0.0 && policies[key.0].maxHits >= 1
    requires forall r | r in MiddleRun(key, policies[key.0]) :: r.group in policies
    ensures var p := policies[key.0];
            AdmittedWithin(policies, MiddleRun(key, p), map[key := Bucket(0.0, 1)], key, p.window / 2.0)
            == 2 * p.maxHits - 1
  {
    var p := policies[key.0];
    var middle, start := Request(key.0, key.1, p.window / 2.0), map[key := Bucket(0.0, 1)];
    assert forall r | r in LateRun(key, p) :: r in MiddleRun(key, p);
    assert Hit(start, key, p.maxHits - 1) == map[key := Bucket(0.0, p.maxHits)];
    LateRunAdmitted(policies, key);
    hide AdmittedWithin, LateRun, Burst, Hit;
    BurstAdmitted(policies, middle, p.maxHits - 1, LateRun(key, p), start, p.window / 2.0);
  }

  /** For every window and every limit of at least one the bound is reached. */
  lemma IntervalBoundIsReached(policies: map<string, Policy>, key: BucketKey)
    requires key.0 in policies && policies[key.0].window > 0.0 && policies[key.0].maxHits >= 1
    ensures var p, requests := policies[key.0], WorstRun(key, policies[key.0]);
            && ClockRuns(requests, 0.0) && (forall r | r in requests :: r.group in policies)
            && AdmittedWithin(policies, requests, map[], key, p.window / 2.0) == 2 * p.maxHits - 1
  {
    var p := policies[key.0];
    WorstRunIsRun(key, p);
    assert forall r | r in MiddleRun(key, p) :: r in WorstRun(key, p);
    MiddleRunAdmitted(policies, key);
    hide AdmittedWithin, MiddleRun;
    ResetAdmitted(policies, Request(key.0, key.1, 0.0), MiddleRun(key, p), map[], p.window / 2.0);
    assert map[][key := Bucket(0.0, 1)] == map[key := Bucket(0.0, 1)];
  }

  /** No run admits more than the limit in any interval as long as the window. */
  ghost predicate KeepsLimit(policies: map<string, Policy>, key: BucketKey)
    requires key.0 in policies
  {
    forall requests: seq<Request>, since: real, from: real |
      (forall r | r in requests :: r.group in policies) && ClockRuns(requests, since) ::
      AdmittedWithin(policies, requests, map[], key, from) <= policies[key.0].maxHits
  }

  /**
   The limiter keeps its limit in every interval exactly when the limit is one: below one the request that opens a
   window breaks it, above one two adjacent windows do.
   */
  lemma KeepsLimitExactly(policies: map<string, Policy>, key: BucketKey)
    requires key.0 in policies && policies[key.0].window > 0.0
    ensures KeepsLimit(policies, key) <==> policies[key.0].maxHits == 1
  {
    var p := policies[key.0];
    if p.maxHits == 1 {
      forall requests: seq<Request>, since: real, from: real |
        (forall r | r in requests :: r.group in policies) && ClockRuns(requests, since)
        ensures AdmittedWithin(policies, requests, map[], key, from) <= p.maxHits
      {
        IntervalBound(policies, requests, key, from, since);
      }
    } else if p.maxHits > 1 {
      IntervalBoundIsReached(policies, key);
      assert ClockRuns(WorstRun(key, p), 0.0);
    } else {
      OpeningIsAdmitted(policies, key);
    }
  }

  lemma OpeningIsAdmitted(policies: map<string, Policy>, key: BucketKey)
    requires key.0 in policies && policies[key.0].window > 0.0
    ensures var requests := [Request(key.0, key.1, 0.0)];
            ClockRuns(requests, 0.0) && AdmittedWithin(policies, requests, map[], key, 0.0) == 1
  {
  }

  // ---------------------------------------------------------------- waiting

  /**
   A refused client that stays away for the seconds it was told is then admitted. The wait is the least whole number of
   seconds beyond what is left of the window; one second less would do exactly if a whole number of seconds is left.
   */
  lemma WaitingHelps(bucket: Bucket, window: real, maxHits: int, now: real, later: real)
    requires bucket.start <= now && Decide(Some(bucket), window, maxHits, now).0.Some?
    ensures var (retry, after) := Decide(Some(bucket), window, maxHits, now);
            var left := window - (now - bucket.start);
            && retry.value >= 1 && (retry.value - 1) as real <= left < retry.value as real
            && (later >= now + retry.value as real ==> Decide(Some(after), window, maxHits, later).0.None?)
            && (now + (retry.value - 1) as real - bucket.start >= window <==> left == left.Floor as real)
  {
  }

  /** The buckets after a run. */
  function BucketsAfter(policies: map<string, Policy>, requests: seq<Request>,
                        buckets: map<BucketKey, Bucket>): map<BucketKey, Bucket>
    requires forall r | r in requests :: r.group in policies
  {
    if requests == [] then buckets
    else
      var r := requests[0];
      var p := policies[r.group];
      var (_, b) := Decide(Lookup(buckets, (r.group, r.client)), p.window, p.maxHits, r.now);
      BucketsAfter(policies, requests[1..], buckets[(r.group, r.client) := b])
  }

  lemma {:induction false} OthersLeaveBucket(policies: map<string, Policy>, requests: seq<Request>,
                                             buckets: map<BucketKey, Bucket>, key: BucketKey)
    requires forall r | r in requests :: r.group in policies && (r.group, r.client) != key
    ensures Lookup(BucketsAfter(policies, requests, buckets), key) == Lookup(buckets, key)
  {
    if requests != [] {
      var r := requests[0];
      var p := policies[r.group];
      var (_, b) := Decide(Lookup(buckets, (r.group, r.client)), p.window, p.maxHits, r.now);
      assert forall x | x in requests[1..] :: x in requests;
      OthersLeaveBucket(policies, requests[1..], buckets[(r.group, r.client) := b], key);
    }
  }

  /** In a run, a refused client that stays silent for the returned seconds is then admitted, whatever the others do. */
  lemma SilenceHelps(policies: map<string, Policy>, buckets: map<BucketKey, Bucket>, key: BucketKey, now: real,
                     others: seq<Request>, later: real)
    requires key.0 in policies && key in buckets && buckets[key].start <= now
    requires forall r | r in others :: r.group in policies && (r.group, r.client) != key
    requires Decide(Lookup(buckets, key), policies[key.0].window, policies[key.0].maxHits, now).0.Some?
    requires var (retry, _) := Decide(Lookup(buckets, key), policies[key.0].window, policies[key.0].maxHits, now);
             later >= now + retry.value as real
    ensures var p, refused := policies[key.0], [Request(key.0, key.1, now)];
            Decide(Lookup(BucketsAfter(policies, refused + others, buckets), key), p.window, p.maxHits, later).0 == None
  {
    var p, all := policies[key.0], [Request(key.0, key.1, now)] + others;
    var (retry, b) := Decide(Lookup(buckets, key), p.window, p.maxHits, now);
    WaitingHelps(buckets[key], p.window, p.maxHits, now, later);
    assert all[0] == Request(key.0, key.1, now) && all[1..] == others;
    OthersLeaveBucket(policies, others, buckets[key := b], key);
  }
}
