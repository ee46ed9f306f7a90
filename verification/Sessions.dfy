/** Anomaly sessions (predictive/session_tracker.py): every accepted score ends up in exactly one session. */
module Sessions {
  import opened Options

  /** Entity id and metric name. */
  type SessionKey = (string, string)

  // ---------------------------------------------------------------- the resolution rule

  /** `scores[-window:]`: the last scores for a positive window; zero takes all, a negative one drops a prefix. */
  function Tail(scores: seq<real>, window: int): seq<real> {
    if window > 0 then if window >= |scores| then scores else scores[|scores| - window..]
    else if -window <= |scores| then scores[-window..] else []
  }

  /** The test `check_resolution` makes on a history. */
  predicate Resolves(scores: seq<real>, threshold: real, window: int) {
    var recent := Tail(scores, window);
    |recent| >= window && forall i | 0 <= i < |recent| :: recent[i] < threshold
  }

  /** The history ends in `window` scores, all below the threshold. */
  ghost predicate EndsNormal(scores: seq<real>, threshold: real, window: nat) {
    |scores| >= window && forall i | |scores| - window <= i < |scores| :: scores[i] < threshold
  }

  /**
   What the test means for every configured window. For a positive one it is the documented rule; otherwise the scores
   after the first -window ones must be below the threshold, so that a window of zero asks it of the whole session.
   */
  lemma ResolvesExactly(scores: seq<real>, threshold: real, window: int)
    ensures window >= 1 ==> (Resolves(scores, threshold, window) <==> EndsNormal(scores, threshold, window))
    ensures window <= 0 ==>
      (Resolves(scores, threshold, window) <==> forall i | -window <= i < |scores| :: scores[i] < threshold)
  {
    var recent := Tail(scores, window);
    if 1 <= window <= |scores| {
      assert forall i | |scores| - window <= i < |scores| :: scores[i] == recent[i - (|scores| - window)];
    } else if window <= 0 {
      assert forall i | -window <= i < |scores| :: scores[i] == recent[i + window];
    }
  }

  // ---------------------------------------------------------------- peaks

  function Max(scores: seq<real>): real
    requires scores != []
  {
    var last := scores[|scores| - 1];
    if |scores| == 1 then last
    else
      var before := Max(scores[..|scores| - 1]);
      if last > before then last else before
  }

  lemma MaxAppend(scores: seq<real>, score: real)
    requires scores != []
    ensures Max(scores + [score]) == if score > Max(scores) then score else Max(scores)
  {
    assert (scores + [score])[..|scores|] == scores;
  }

  /** The peak bounds every score and is one of them. */
  lemma {:induction false} MaxIsMax(scores: seq<real>)
    requires scores != []
    ensures forall i | 0 <= i < |scores| :: scores[i] <= Max(scores)
    ensures exists i | 0 <= i < |scores| :: scores[i] == Max(scores)
  {
    var front, n := scores[..|scores| - 1], |scores| - 1;
    if front != [] {
      MaxIsMax(front);
      assert forall i | 0 <= i < n :: scores[i] == front[i];
      var j :| 0 <= j < n && front[j] == Max(front);
      assert scores[if scores[n] > front[j] then n else j] == Max(scores);
    } else {
      assert scores[n] == Max(scores);
    }
  }

  // ---------------------------------------------------------------- conservation

  /** A resolved session: its key and its whole history. */
  type Record = (SessionKey, seq<real>)

  /** The histories of one key's resolved sessions, in order. */
  ghost function ArchivedScores(archive: seq<Record>, key: SessionKey): seq<real> {
    if archive == [] then []
    else
      var last := archive[|archive| - 1];
      ArchivedScores(archive[..|archive| - 1], key) + if last.0 == key then last.1 else []
  }

  /** The scores accepted for one key, in order. */
  ghost function Accepted(log: seq<(SessionKey, real)>, key: SessionKey): seq<real> {
    if log == [] then []
    else
      var last := log[|log| - 1];
      Accepted(log[..|log| - 1], key) + if last.0 == key then [last.1] else []
  }

  /** The tracker's state as values: resolved sessions, active histories, and every score accepted so far. */
  datatype Ledger = Ledger(archive: seq<Record>, running: map<SessionKey, seq<real>>, log: seq<(SessionKey, real)>) {
    function Current(key: SessionKey): seq<real> {
      if key in running then running[key] else []
    }

    function Scored(key: SessionKey, score: real): Ledger {
      Ledger(archive, running[key := Current(key) + [score]], log + [(key, score)])
    }

    function Retired(key: SessionKey): Ledger
      requires key in running
    {
      Ledger(archive + [(key, running[key])], running - {key}, log)
    }

    /** Per key, resolved histories and then the active one are exactly the accepted scores. */
    ghost predicate Conserved() {
      forall key: SessionKey :: ArchivedScores(archive, key) + Current(key) == Accepted(log, key)
    }

    /** What every run keeps: scores are conserved and a resolved session satisfied the rule. */
    ghost predicate Sound(threshold: real, window: int) {
      Conserved() && forall i | 0 <= i < |archive| :: Resolves(archive[i].1, threshold, window)
    }

    lemma ScoreSound(key: SessionKey, score: real, threshold: real, window: int)
      requires Sound(threshold, window)
      ensures Scored(key, score).Sound(threshold, window)
    {
      var after := Scored(key, score);
      assert after.log[..|log|] == log;
      forall k: SessionKey
        ensures ArchivedScores(archive, k) + after.Current(k) == Accepted(after.log, k)
      {
        assert ArchivedScores(archive, k) + Current(k) == Accepted(log, k);
      }
    }

    lemma ResolutionSound(key: SessionKey, threshold: real, window: int)
      requires Sound(threshold, window) && key in running && Resolves(running[key], threshold, window)
      ensures Retired(key).Sound(threshold, window)
    {
      var after := Retired(key);
      assert after.archive[..|archive|] == archive;
      forall k: SessionKey
        ensures ArchivedScores(after.archive, k) + after.Current(k) == Accepted(log, k)
      {
        assert ArchivedScores(archive, k) + Current(k) == Accepted(log, k);
      }
    }
  }

  // ---------------------------------------------------------------- the tracker

  class AnomalySession {
    const entityId: string
    const metricName: string
    const startTime: string
    var lastUpdate: string
    var peak: real
    var history: seq<real>
    var resolved: bool
    var duration: real

    constructor (entityId: string, metricName: string, score: real, timestamp: string)
      ensures Shows((entityId, metricName), [score], false)
      ensures startTime == timestamp == lastUpdate && duration == 0.0
    {
      this.entityId, this.metricName, startTime := entityId, metricName, timestamp;
      lastUpdate, peak, history, resolved, duration := timestamp, score, [score], false, 0.0;
    }

    /** The session of `key` with exactly these scores. */
    ghost predicate Shows(key: SessionKey, scores: seq<real>, done: bool)
      reads this
    {
      (entityId, metricName) == key && history == scores && scores != [] && peak == Max(scores) && resolved == done
    }

    /** `seconds` is the time from the start of the session to `timestamp`. */
    method Observe(score: real, timestamp: string, seconds: real)
      requires history != [] && peak == Max(history)
      modifies this
      ensures Shows((entityId, metricName), old(history) + [score], old(resolved))
      ensures lastUpdate == timestamp && duration == seconds
    {
      MaxAppend(history, score);
      history := history + [score];
      if score > peak {
        peak := score;
      }
      lastUpdate, duration := timestamp, seconds;
    }
  }

  /** Seconds between two timestamps, however they are parsed. */
  function Seconds(elapsed: (string, string) -> real, start: string, end: string): real {
    elapsed(start, end)
  }

  /** The sessions hold what the ledger says. */
  ghost predicate Shown(active: map<SessionKey, AnomalySession>, resolved: seq<AnomalySession>, ledger: Ledger)
    reads active.Values, resolved
  {
    && active.Keys == ledger.running.Keys
    && (forall k | k in active :: active[k].Shows(k, ledger.running[k], false))
    && |resolved| == |ledger.archive|
    && (forall i | 0 <= i < |resolved| :: resolved[i].Shows(ledger.archive[i].0, ledger.archive[i].1, true))
  }

  /** All sessions but that of `key` hold what the ledger says. */
  ghost predicate OthersShown(active: map<SessionKey, AnomalySession>, resolved: seq<AnomalySession>, ledger: Ledger,
                              key: SessionKey)
    reads (active - {key}).Values, resolved
  {
    Shown(active - {key}, resolved, ledger.(running := ledger.running - {key}))
  }

  /** Different keys have different sessions, and no active session is on the resolved list. */
  lemma Apart(active: map<SessionKey, AnomalySession>, resolved: seq<AnomalySession>, ledger: Ledger, key: SessionKey)
    requires Shown(active, resolved, ledger)
    ensures OthersShown(active, resolved, ledger, key)
    ensures key in active ==>
      && key in ledger.running && active[key].Shows(key, ledger.running[key], false)
      && active[key] !in resolved && active[key] !in (active - {key}).Values
  {
  }

  lemma ScoreShown(active: map<SessionKey, AnomalySession>, resolved: seq<AnomalySession>, ledger: Ledger,
                   key: SessionKey,
                   session: AnomalySession, score: real)
    requires OthersShown(active, resolved, ledger, key) && session.Shows(key, ledger.Current(key) + [score], false)
    ensures Shown(active[key := session], resolved, ledger.Scored(key, score))
  {
    assert active[key := session].Keys == (active - {key}).Keys + {key};
    assert forall k | k in active && k != key :: k in active - {key} && k in ledger.running - {key};
  }

  lemma ResolutionShown(active: map<SessionKey, AnomalySession>, resolved: seq<AnomalySession>, ledger: Ledger,
                        key: SessionKey,
                        session: AnomalySession)
    requires OthersShown(active, resolved, ledger, key) && key in ledger.running
    requires session.Shows(key, ledger.running[key], true)
    ensures Shown(active - {key}, resolved + [session], ledger.Retired(key))
  {
    var others, after := ledger.(running := ledger.running - {key}), ledger.Retired(key);
    assert forall k | k in active - {key} :: (active - {key})[k].Shows(k, others.running[k], false);
    assert forall i | 0 <= i < |resolved| :: after.archive[i] == others.archive[i];
  }

  class AnomalySessionTracker {
    const threshold: real
    const window: int
    const elapsed: (string, string) -> real
    var active: map<SessionKey, AnomalySession>
    var resolved: seq<AnomalySession>
    ghost var ledger: Ledger

    ghost predicate Valid()
      reads this, active.Values, resolved
    {
      Shown(active, resolved, ledger) && ledger.Sound(threshold, window)
    }

    constructor (threshold: real, window: int, elapsed: (string, string) -> real)
      ensures Valid() && this.threshold == threshold && this.window == window && this.elapsed == elapsed
      ensures active == map[] && resolved == [] && ledger == Ledger([], map[], [])
    {
      this.threshold, this.window, this.elapsed := threshold, window, elapsed;
      active, resolved := map[], [];
      ledger := Ledger([], map[], []);
    }

    /** Begin a session, or continue the active one. */
    method Start(entityId: string, metricName: string, score: real, timestamp: string) returns (session: AnomalySession)
      requires Valid()
      modifies this, active.Values
      ensures Valid()
      ensures ledger == old(ledger).Scored((entityId, metricName), score)
      ensures active == old(active)[(entityId, metricName) := session] && resolved == old(resolved)
      ensures session.lastUpdate == timestamp
      ensures if (entityId, metricName) in old(active) then session == old(active)[(entityId, metricName)]
              else fresh(session) && session.startTime == timestamp
      ensures session.duration == if fresh(session) then 0.0 else Seconds(elapsed, session.startTime, timestamp)
    {
      var key := (entityId, metricName);
      if key in active {
        var updated := Update(entityId, metricName, score, timestamp);
        return updated.value;
      }
      session := Open(key, score, timestamp);
    }

    method Open(key: SessionKey, score: real, timestamp: string) returns (session: AnomalySession)
      requires Valid() && key !in active
      modifies this
      ensures Valid() && ledger == old(ledger).Scored(key, score)
      ensures active == old(active)[key := session] && resolved == old(resolved)
      ensures fresh(session) && session.startTime == timestamp == session.lastUpdate && session.duration == 0.0
    {
      ledger.ScoreSound(key, score, threshold, window);
      Apart(active, resolved, ledger, key);
      assert ledger.Current(key) + [score] == [score];
      hide Shown, OthersShown, Max, Resolves;
      session := new AnomalySession(key.0, key.1, score, timestamp);
      ScoreShown(active, resolved, ledger, key, session, score);
      active := active[key := session];
      ledger := ledger.Scored(key, score);
    }

    /** Add a score to the active session; none is an error and changes nothing. */
    method Update(entityId: string, metricName: string, score: real, timestamp: string)
      returns (session: Option<AnomalySession>)
      requires Valid()
      modifies this, active.Values
      ensures Valid() && active == old(active) && resolved == old(resolved)
      ensures session == Lookup(old(active), (entityId, metricName))
      ensures ledger == if session.Some? then old(ledger).Scored((entityId, metricName), score) else old(ledger)
      ensures session.Some? ==>
                session.value.lastUpdate == timestamp
                && session.value.duration == Seconds(elapsed, session.value.startTime, timestamp)
    {
      var key := (entityId, metricName);
      if key in active {
        Extend(key, score, timestamp);
      }
      session := Lookup(active, key);
    }

    method Extend(key: SessionKey, score: real, timestamp: string)
      requires Valid() && key in active
      modifies this`ledger, active[key]
      ensures Valid() && ledger == old(ledger).Scored(key, score) && active[key].lastUpdate == timestamp
      ensures active[key].duration == Seconds(elapsed, active[key].startTime, timestamp)
    {
      ledger.ScoreSound(key, score, threshold, window);
      Apart(active, resolved, ledger, key);
      hide Shown, OthersShown, Max, Resolves;
      active[key].Observe(score, timestamp, Seconds(elapsed, active[key].startTime, timestamp));
      ScoreShown(active, resolved, ledger, key, active[key], score);
      assert active[key := active[key]] == active;
      ledger := ledger.Scored(key, score);
    }

    /** Add a score and resolve the session when it now ends in a normal window. */
    method CheckResolution(entityId: string, metricName: string, score: real, timestamp: string)
      returns (done: Option<bool>)
      requires Valid()
      modifies this, active.Values
      ensures Valid()
      ensures var key := (entityId, metricName);
              if key !in old(active) then
                done == None && ledger == old(ledger) && active == old(active) && resolved == old(resolved)
              else
                var scored := old(ledger).Scored(key, score);
                && done == Some(Resolves(scored.running[key], threshold, window))
                && (done.value ==>
                      && ledger == scored.Retired(key) && active == old(active) - {key}
                      && resolved == old(resolved) + [old(active)[key]])
                && (!done.value ==> ledger == scored && active == old(active) && resolved == old(resolved))
    {
      var key := (entityId, metricName);
      var updated := Update(entityId, metricName, score, timestamp);
      if updated.None? {
        return None;
      }
      var session := updated.value;
      var already := session.resolved;
      if !already && Resolves(session.history, threshold, window) {
        Retire(key);
        already := true;
      }
      done := Some(already);
    }

    /** Move a session that satisfies the rule to the resolved list. */
    method Retire(key: SessionKey)
      requires Valid() && key in active && Resolves(ledger.running[key], threshold, window)
      modifies this, active[key]
      ensures Valid() && ledger == old(ledger).Retired(key)
      ensures active == old(active) - {key} && resolved == old(resolved) + [old(active)[key]]
    {
      ledger.ResolutionSound(key, threshold, window);
      Apart(active, resolved, ledger, key);
      hide Shown, OthersShown, Max, Resolves;
      var session := active[key];
      session.resolved := true;
      ResolutionShown(active, resolved, ledger, key, session);
      active := active - {key};
      resolved := resolved + [session];
      ledger := ledger.Retired(key);
    }

    method GetSession(entityId: string, metricName: string) returns (session: Option<AnomalySession>)
      requires Valid()
      ensures session == Lookup(active, (entityId, metricName))
      ensures session.Some? ==>
                session.value.Shows((entityId, metricName), ledger.running[(entityId, metricName)], false)
    {
      session := Lookup(active, (entityId, metricName));
    }

    /** In every reachable state: nothing lost, nothing counted twice, and resolved sessions end in a normal window. */
    lemma Invariant(key: SessionKey, i: nat)
      requires Valid() && window >= 1
      ensures ArchivedScores(ledger.archive, key) + (if key in active then active[key].history else [])
           == Accepted(ledger.log, key)
      ensures i < |resolved| ==>
        && resolved[i].history == ledger.archive[i].1 && EndsNormal(resolved[i].history, threshold, window)
        && resolved[i] !in active.Values
      ensures key in active ==>
        && (forall j | 0 <= j < |active[key].history| :: active[key].history[j] <= active[key].peak)
        && active[key].peak in active[key].history
    {
      if i < |resolved| {
        ResolvesExactly(ledger.archive[i].1, threshold, window);
      }
      if key in active {
        MaxIsMax(active[key].history);
      }
    }
  }
}
