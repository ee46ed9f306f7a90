/** The bounded last-seen map of the importer (importer/main.py), against the full history of accepted batches. */
module Recency {
  import opened FiniteSets
  import opened Orders

  /** Workspace slug, entity and telemetry type. */
  type ActivityKey = (string, string, string)

  /** One accepted batch. */
  datatype Batch = Batch(key: ActivityKey, at: int)

  /** Last time each key was seen in the whole history. */
  function LastSeen(history: seq<Batch>): map<ActivityKey, int> {
    if history == [] then map[]
    else LastSeen(history[..|history| - 1])[history[|history| - 1].key := history[|history| - 1].at]
  }

  /** The time of a key's last batch, for exactly the keys that have one. */
  lemma {:induction false} LastSeenExactly(history: seq<Batch>, key: ActivityKey)
    ensures key in LastSeen(history) <==> exists i :: 0 <= i < |history| && history[i].key == key
    ensures forall i | 0 <= i < |history| && history[i].key == key
                && (forall j | i < j < |history| :: history[j].key != key) ::
              key in LastSeen(history) && LastSeen(history)[key] == history[i].at
  {
    if history != [] {
      var front, last := history[..|history| - 1], history[|history| - 1];
      LastSeenExactly(front, key);
      if key in LastSeen(front) {
        var i :| 0 <= i < |front| && front[i].key == key;
        assert history[i].key == key;
      }
      forall i | 0 <= i < |history| && history[i].key == key && forall j | i < j < |history| :: history[j].key != key
        ensures key in LastSeen(history) && LastSeen(history)[key] == history[i].at
      {
        if i < |front| {
          assert history[|history| - 1].key != key;
          assert front[i].key == key && forall j | i < j < |front| :: front[j].key != key;
        }
      }
    }
  }

  ghost predicate Increasing(history: seq<Batch>) {
    forall i, j | 0 <= i < j < |history| :: history[i].at < history[j].at
  }

  /** The clock never runs backwards. */
  ghost predicate Monotone(history: seq<Batch>) {
    forall i, j | 0 <= i < j < |history| :: history[i].at <= history[j].at
  }

  /** Keys seen more recently than `key`. */
  ghost function Newer(last: map<ActivityKey, int>, key: ActivityKey): set<ActivityKey>
    requires key in last
  {
    set k | k in last && last[k] > last[key]
  }

  /** The map holds exactly the `cap` most recently seen keys of the history, each with its last time. */
  ghost predicate HoldsMostRecent(seen: map<ActivityKey, int>, last: map<ActivityKey, int>, cap: nat) {
    && (forall k | k in seen :: k in last && seen[k] == last[k])
    && (forall k | k in last :: k in seen <==> |Newer(last, k)| < cap)
  }

  /**
   The form the methods keep, also when clock readings repeat: values agree, nothing evicted is newer than anything that
   stayed, and only a full map evicts.
   */
  ghost predicate Tracks(seen: map<ActivityKey, int>, last: map<ActivityKey, int>, cap: nat) {
    Newest(seen, last) && |seen| <= cap && (|seen| < cap ==> seen.Keys == last.Keys)
  }

  /** Some of the keys, with their last times, and none that is missing is newer. */
  ghost predicate Newest(seen: map<ActivityKey, int>, last: map<ActivityKey, int>) {
    && (forall k | k in seen :: k in last && seen[k] == last[k])
    && (forall k, e | k in seen && e in last && e !in seen :: last[e] <= last[k])
  }

  ghost predicate TimesDiffer(last: map<ActivityKey, int>) {
    forall a, b | a in last && b in last && a != b :: last[a] != last[b]
  }

  lemma {:induction false} LastSeenTimes(history: seq<Batch>)
    requires Monotone(history)
    ensures Increasing(history) ==> TimesDiffer(LastSeen(history))
    ensures forall k | k in LastSeen(history) :: history != [] && LastSeen(history)[k] <= history[|history| - 1].at
  {
    if history != [] {
      var front := history[..|history| - 1];
      LastSeenTimes(front);
      assert front != [] ==> front[|front| - 1].at <= history[|history| - 1].at;
      assert Increasing(history) && front != [] ==> front[|front| - 1].at < history[|history| - 1].at;
    }
  }

  lemma TracksMostRecent(seen: map<ActivityKey, int>, last: map<ActivityKey, int>, cap: nat)
    requires Tracks(seen, last, cap) && TimesDiffer(last)
    ensures HoldsMostRecent(seen, last, cap)
  {
    forall k | k in last
      ensures k in seen <==> |Newer(last, k)| < cap
    {
      if k in seen {
        forall n | n in Newer(last, k)
          ensures n in seen.Keys - {k}
        {
        }
        SubsetSize(Newer(last, k), seen.Keys - {k});
        assert |seen.Keys - {k}| == |seen| - 1;
      } else {
        assert |seen| == cap;
        forall n | n in seen.Keys
          ensures n in Newer(last, k)
        {
          assert last[k] <= last[n] && last[k] != last[n];
        }
        SubsetSize(seen.Keys, Newer(last, k));
      }
    }
  }

  /** A key with the least time. */
  ghost predicate IsOldest(seen: map<ActivityKey, int>, key: ActivityKey) {
    key in seen && forall k | k in seen :: seen[key] <= seen[k]
  }

  lemma RecordTracks(seen: map<ActivityKey, int>, last: map<ActivityKey, int>, cap: nat, key: ActivityKey, at: int)
    requires Tracks(seen, last, cap) && forall k | k in last :: last[k] <= at
    ensures var s, l := seen[key := at], last[key := at];
            Newest(s, l) && |s| <= cap + 1 && (|s| <= cap ==> Tracks(s, l, cap))
  {
    var s, l := seen[key := at], last[key := at];
    RecordNewest(seen, last, key, at);
    hide Newest;
    assert s.Keys == seen.Keys + {key} && l.Keys == last.Keys + {key};
    if key in seen {
      assert s.Keys == seen.Keys;
    } else {
      assert |s.Keys| == |seen.Keys| + 1;
    }
  }

  lemma RecordNewest(seen: map<ActivityKey, int>, last: map<ActivityKey, int>, key: ActivityKey, at: int)
    requires Newest(seen, last) && forall k | k in last :: last[k] <= at
    ensures Newest(seen[key := at], last[key := at])
  {
  }

  lemma EvictTracks(s: map<ActivityKey, int>, l: map<ActivityKey, int>, cap: nat, oldest: ActivityKey)
    requires |s| == cap + 1 && IsOldest(s, oldest) && Newest(s, l)
    ensures Tracks(s - {oldest}, l, cap)
  {
    var t := s - {oldest};
    assert t.Keys == s.Keys - {oldest};
    assert |t.Keys| == cap;
    forall k, e | k in t && e in l && e !in t
      ensures l[e] <= l[k]
    {
      if e == oldest {
        assert s[oldest] <= s[k];
      }
    }
  }

  /** What one more batch means for the history. */
  lemma {:induction false} BatchKept(history: seq<Batch>, b: Batch)
    requires Monotone(history) && (history != [] ==> history[|history| - 1].at <= b.at)
    ensures Monotone(history + [b]) && LastSeen(history + [b]) == LastSeen(history)[b.key := b.at]
    ensures forall k | k in LastSeen(history) :: LastSeen(history)[k] <= b.at
  {
    LastSeenTimes(history);
    LastSeenAppend(history, b);
    hide LastSeen;
    var longer := history + [b];
    forall i, j | 0 <= i < j < |longer|
      ensures longer[i].at <= longer[j].at
    {
      if j == |history| && i < |history| - 1 {
        assert history[i].at <= history[|history| - 1].at;
      }
    }
  }

  lemma {:induction false} LastSeenAppend(history: seq<Batch>, b: Batch)
    ensures LastSeen(history + [b]) == LastSeen(history)[b.key := b.at]
  {
    assert (history + [b])[..|history|] == history;
  }

  lemma MostRecent(seen: map<ActivityKey, int>, history: seq<Batch>, cap: nat)
    requires Monotone(history) && Tracks(seen, LastSeen(history), cap)
    ensures Increasing(history) ==> HoldsMostRecent(seen, LastSeen(history), cap)
  {
    if Increasing(history) {
      LastSeenTimes(history);
      TracksMostRecent(seen, LastSeen(history), cap);
    }
  }

  class ActivityMap {
    const cap: nat
    var seen: map<ActivityKey, int>
    ghost var history: seq<Batch>

    ghost predicate Valid()
      reads this
    {
      Monotone(history) && Tracks(seen, LastSeen(history), cap)
    }

    constructor (cap: nat)
      ensures Valid() && this.cap == cap && history == []
    {
      this.cap := cap;
      seen, history := map[], [];
    }

    /** Record one accepted batch. While no two batches share a time, what is kept is determined. */
    method RecordSeen(key: ActivityKey, now: int)
      requires Valid() && (history != [] ==> history[|history| - 1].at <= now)
      modifies this
      ensures Valid() && history == old(history) + [Batch(key, now)]
      ensures Increasing(history) ==> HoldsMostRecent(seen, LastSeen(history), cap)
    {
      BatchKept(history, Batch(key, now));
      hide Tracks, Newest, HoldsMostRecent, LastSeen, Monotone, Increasing;
      RecordTracks(seen, LastSeen(history), cap, key, now);
      history := history + [Batch(key, now)];
      seen := seen[key := now];
      if |seen| > cap {
        EvictOldest();
      }
      MostRecent(seen, history, cap);
    }

    method EvictOldest()
      requires |seen| == cap + 1 && Newest(seen, LastSeen(history))
      modifies this`seen
      ensures Tracks(seen, LastSeen(history), cap)
    {
      hide Tracks, Newest, LastSeen;
      var oldest := Oldest();
      EvictTracks(seen, LastSeen(history), cap, oldest);
      seen := seen - {oldest};
    }

    method Oldest() returns (oldest: ActivityKey)
      requires seen != map[]
      ensures IsOldest(seen, oldest)
    {
      var rest := seen.Keys;
      oldest :| oldest in rest;
      rest := rest - {oldest};
      while rest != {}
        invariant rest <= seen.Keys && oldest in seen
        invariant forall k | k in seen && k !in rest :: seen[oldest] <= seen[k]
        decreases |rest|
      {
        var k :| k in rest;
        if seen[k] < seen[oldest] {
          oldest := k;
        }
        rest := rest - {k};
      }
    }

    /** The points of one workspace, each once, newest first. */
    method GetActivity(slug: string) returns (points: seq<Batch>)
      requires Valid()
      ensures forall p :: multiset(points)[p] ==
                if p.key in seen && p.key.0 == slug && p.at == seen[p.key] then 1 else 0
      ensures forall i, j | 0 <= i < j < |points| :: points[i].at >= points[j].at
      ensures forall p | p in points :: p.key in LastSeen(history) && p.at == LastSeen(history)[p.key]
    {
      var rows := Rows(slug);
      points := Sort(rows, NewestFirst);
      SortPermutes(rows, NewestFirst);
      SortSorts(rows, NewestFirst);
      assert forall p :: p in points <==> multiset(points)[p] > 0;
    }

    method Rows(slug: string) returns (rows: seq<Batch>)
      ensures forall p :: multiset(rows)[p] == if IsPoint(p, seen, slug) then 1 else 0
    {
      var rest := set k | k in seen && k.0 == slug;
      rows := [];
      while rest != {}
        invariant forall k | k in rest :: k in seen && k.0 == slug
        invariant forall p :: multiset(rows)[p] == if IsPoint(p, seen, slug) && p.key !in rest then 1 else 0
        decreases |rest|
      {
        var k :| k in rest;
        rows := rows + [Batch(k, seen[k])];
        rest := rest - {k};
      }
    }
  }

  predicate IsPoint(p: Batch, seen: map<ActivityKey, int>, slug: string) {
    p.key in seen && p.key.0 == slug && p.at == seen[p.key]
  }

  predicate NewestFirst(a: Batch, b: Batch) {
    a.at >= b.at
  }
}
