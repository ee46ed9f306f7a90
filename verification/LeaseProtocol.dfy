/**
 Leader election as a protocol. Each tick is split at every point where another replica can get in between:
 capture the clock, read the lease, write the lease, set the leader flag. Every interleaving of these steps by any
 number of replicas is a run, and so is a clock that moves on between any two of them.
 */
module LeaseProtocol {
  import opened Options
  import opened LeaseStore

  /** Lease duration of each replica identity. */
  type Config = map<string, real>

  datatype Phase =
    | Idle
    | Captured(now: real)
    | Snapshotted(now: real, snapshot: Option<LeaseRecord>)
    | Written(won: bool)

  /** `wrote` is history: the renew time of the replica's last successful write that it has not released. */
  datatype Replica = Replica(phase: Phase, leader: bool, abandoned: bool, wrote: Option<real>)

  datatype System = System(clock: real, slot: Slot, replicas: map<string, Replica>)

  datatype Step =
    | Advance(dt: real)
    | Capture(id: string)
    | Read(id: string)
    | Write(id: string)
    | Report(id: string)
    | Abandon(id: string)
    | Release(id: string)

  function Init(c: Config): System {
    System(0.0, EMPTY_SLOT, map id | id in c :: Replica(Idle, false, false, None))
  }

  ghost predicate WellFormed(c: Config, s: System) {
    s.replicas.Keys == c.Keys
  }

  function Put(s: System, id: string, r: Replica): System {
    s.(replicas := s.replicas[id := r])
  }

  /** One atomic step; a step that is not enabled changes nothing. */
  function Apply(c: Config, s: System, step: Step): (t: System)
    requires WellFormed(c, s)
    ensures WellFormed(c, t)
  {
    if step.Advance? then
      if step.dt >= 0.0 then s.(clock := s.clock + step.dt) else s
    else if step.id !in c then s
    else
      var r := s.replicas[step.id];
      match step
      case Capture(id) =>
        if r.phase.Idle? && !r.abandoned then Put(s, id, r.(phase := Captured(s.clock))) else s
      case Read(id) =>
        if r.phase.Captured? then Put(s, id, r.(phase := Snapshotted(r.phase.now, s.slot.lease))) else s
      case Write(id) =>
        if r.phase.Snapshotted? then
          var (slot, won) := Commit(s.slot, id, c[id], r.phase.now, r.phase.snapshot);
          Put(s.(slot := slot), id, r.(phase := Written(won), wrote := if won then Some(r.phase.now) else r.wrote))
        else s
      case Report(id) =>
        if r.phase.Written? then Put(s, id, r.(phase := Idle, leader := r.phase.won)) else s
      case Abandon(id) =>
        Put(s, id, r.(abandoned := true, leader := false))
      case Release(id) =>
        if r.phase.Idle? && r.leader && !r.abandoned then
          Put(s.(slot := DeleteIn(s.slot, id)), id, r.(leader := false, wrote := None))
        else s
  }

  function Run(c: Config, steps: seq<Step>): (s: System)
    ensures WellFormed(c, s)
  {
    if steps == [] then Init(c) else Apply(c, Run(c, steps[..|steps| - 1]), steps[|steps| - 1])
  }

  /** No replica is between its read and its write with a lease in hand. */
  predicate Quiet(s: System) {
    forall id | id in s.replicas :: !(s.replicas[id].phase.Snapshotted? && s.replicas[id].phase.snapshot.Some?)
  }

  /** Every release of the run happens in a quiet state; a run without releases qualifies. */
  ghost predicate QuietReleases(c: Config, steps: seq<Step>) {
    forall k | 0 <= k < |steps| && steps[k].Release? :: Quiet(Run(c, steps[..k]))
  }

  /** The replica's own last written lease term is still running. */
  predicate InTerm(c: Config, s: System, id: string) {
    id in s.replicas && id in c && s.replicas[id].wrote.Some? && s.clock - s.replicas[id].wrote.value < c[id]
  }

  predicate InLeaseLeader(c: Config, s: System, id: string) {
    InTerm(c, s, id) && s.replicas[id].leader
  }

  // ---------------------------------------------------------------- the inductive invariant

  ghost predicate SlotInv(c: Config, s: System) {
    s.slot.lease.Some? ==>
      var rec := s.slot.lease.value;
      rec.version == s.slot.counter && rec.holder in c && rec.duration == c[rec.holder] && rec.renewTime <= s.clock
  }

  /** A snapshot is never newer than the store, and at the stored version it is the stored lease. */
  ghost predicate SnapshotInv(s: System, r: Replica) {
    && (r.phase.Captured? ==> r.phase.now <= s.clock)
    && (r.phase.Snapshotted? ==> r.phase.now <= s.clock)
    && (r.phase.Snapshotted? && r.phase.snapshot.Some? ==>
          && s.slot.lease.Some?
          && r.phase.snapshot.value.version <= s.slot.counter
          && (r.phase.snapshot.value.version == s.slot.counter ==> r.phase.snapshot == s.slot.lease))
  }

  /** A running term is the stored one, whatever the leader flag says. */
  ghost predicate TermInv(c: Config, s: System, id: string)
    requires WellFormed(c, s) && id in c
  {
    && (InTerm(c, s, id) ==>
          && s.slot.lease.Some?
          && s.slot.lease.value.holder == id
          && s.slot.lease.value.renewTime == s.replicas[id].wrote.value)
    && (s.replicas[id].leader || s.replicas[id].phase == Written(true) ==> s.replicas[id].wrote.Some?)
  }

  ghost predicate Inv(c: Config, s: System) {
    && WellFormed(c, s)
    && SlotInv(c, s)
    && (forall id | id in c :: SnapshotInv(s, s.replicas[id]) && TermInv(c, s, id))
  }

  lemma WriteKeepsInv(c: Config, s: System, id: string)
    requires "" !in c && Inv(c, s) && id in c && s.replicas[id].phase.Snapshotted?
    ensures Inv(c, Apply(c, s, Write(id)))
  {
    var r := s.replicas[id];
    var t := Apply(c, s, Write(id));
    var won := Commit(s.slot, id, c[id], r.phase.now, r.phase.snapshot).1;
    if won {
      assert t.slot.lease == Some(LeaseRecord(id, r.phase.now, c[id], t.slot.counter));
      forall k | k in c
        ensures SnapshotInv(t, t.replicas[k]) && TermInv(c, t, k)
      {
        assert SnapshotInv(s, s.replicas[k]) && TermInv(c, s, k);
        if k != id {
          assert !InTerm(c, s, k) by { LoserIsOutOfTerm(c, s, id, k); }
        }
      }
    } else {
      forall k | k in c
        ensures SnapshotInv(t, t.replicas[k]) && TermInv(c, t, k)
      {
        assert SnapshotInv(s, s.replicas[k]) && TermInv(c, s, k);
      }
    }
  }

  /** The fencing argument: a write that wins finds every other replica's term over. */
  lemma LoserIsOutOfTerm(c: Config, s: System, id: string, other: string)
    requires "" !in c && Inv(c, s) && id in c && other in c && other != id && s.replicas[id].phase.Snapshotted?
    requires Commit(s.slot, id, c[id], s.replicas[id].phase.now, s.replicas[id].phase.snapshot).1
    ensures !InTerm(c, s, other)
  {
    assert SnapshotInv(s, s.replicas[id]);
    assert TermInv(c, s, other);
  }

  lemma StepKeepsInv(c: Config, s: System, step: Step)
    requires "" !in c && Inv(c, s)
    requires step.Release? ==> Quiet(s)
    ensures Inv(c, Apply(c, s, step))
  {
    var t := Apply(c, s, step);
    if step.Write? && step.id in c && s.replicas[step.id].phase.Snapshotted? {
      WriteKeepsInv(c, s, step.id);
    } else {
      forall k | k in c
        ensures SnapshotInv(t, t.replicas[k]) && TermInv(c, t, k)
      {
        assert SnapshotInv(s, s.replicas[k]) && TermInv(c, s, k);
      }
    }
  }

  lemma {:induction false} RunKeepsInv(c: Config, steps: seq<Step>)
    requires "" !in c && QuietReleases(c, steps)
    ensures Inv(c, Run(c, steps))
  {
    if steps != [] {
      var front := steps[..|steps| - 1];
      forall k | 0 <= k < |front| && front[k].Release?
        ensures Quiet(Run(c, front[..k]))
      {
        assert front[..k] == steps[..k];
      }
      RunKeepsInv(c, front);
      StepKeepsInv(c, Run(c, front), steps[|steps| - 1]);
    }
  }

  // ---------------------------------------------------------------- the split tick and the whole tick

  function TickSteps(id: string): seq<Step> {
    [Capture(id), Read(id), Write(id), Report(id)]
  }

  /** What one uninterrupted call of the elector's tick does to the system. */
  function AfterTick(c: Config, s: System, id: string): System
    requires WellFormed(c, s) && id in c
  {
    var (slot, won) := Commit(s.slot, id, c[id], s.clock, s.slot.lease);
    var r := s.replicas[id];
    Put(s.(slot := slot), id, r.(phase := Idle, leader := won, wrote := if won then Some(s.clock) else r.wrote))
  }

  /** The four steps, taken without interference, are exactly the elector's tick. */
  lemma SplitTickIsTick(c: Config, s: System, id: string)
    requires WellFormed(c, s) && id in c && s.replicas[id].phase.Idle? && !s.replicas[id].abandoned
    ensures var steps := TickSteps(id);
            Apply(c, Apply(c, Apply(c, Apply(c, s, steps[0]), steps[1]), steps[2]), steps[3]) == AfterTick(c, s, id)
  {
    var s1 := Apply(c, s, Capture(id));
    var s2 := Apply(c, s1, Read(id));
    var s3 := Apply(c, s2, Write(id));
    var s4 := Apply(c, s3, Report(id));
    assert s4.replicas == AfterTick(c, s, id).replicas;
  }

  // ---------------------------------------------------------------- safety

  /** Fenced exclusivity: in every run there is at most one in-lease leader, and it is the holder in the store. */
  lemma FencedExclusivity(c: Config, steps: seq<Step>)
    requires "" !in c && QuietReleases(c, steps)
    ensures var s := Run(c, steps);
            forall id | InLeaseLeader(c, s, id) ::
              && s.slot.lease.Some?
              && s.slot.lease.value.holder == id
              && s.slot.lease.value.renewTime == s.replicas[id].wrote.value
              && (forall other | InLeaseLeader(c, s, other) :: other == id)
  {
    RunKeepsInv(c, steps);
    var s := Run(c, steps);
    forall id | InLeaseLeader(c, s, id)
      ensures s.slot.lease.Some? && s.slot.lease.value.holder == id
              && s.slot.lease.value.renewTime == s.replicas[id].wrote.value
    {
      assert TermInv(c, s, id);
    }
  }

  /** The lease changes hands only once the previous holder's stored term has run out, or by the holder's release. */
  lemma NoPrematureTakeover(c: Config, steps: seq<Step>, step: Step)
    requires "" !in c && QuietReleases(c, steps)
    ensures Run(c, steps + [step]) == Apply(c, Run(c, steps), step)
    ensures var s, t := Run(c, steps), Run(c, steps + [step]);
            s.slot.lease.Some? && t.slot.lease.Some? && t.slot.lease.value.holder != s.slot.lease.value.holder ==>
              s.clock - s.slot.lease.value.renewTime >= EffectiveDuration(s.slot.lease.value, c[step.id])
    ensures var s, t := Run(c, steps), Run(c, steps + [step]);
            s.slot.lease.Some? && t.slot.lease.None? ==> step == Release(s.slot.lease.value.holder)
  {
    RunKeepsInv(c, steps);
    assert (steps + [step])[..|steps|] == steps;
    StepTakesOverLate(c, Run(c, steps), step);
  }

  lemma StepTakesOverLate(c: Config, s: System, step: Step)
    requires Inv(c, s)
    ensures var t := Apply(c, s, step);
            s.slot.lease.Some? && t.slot.lease.Some? && t.slot.lease.value.holder != s.slot.lease.value.holder ==>
              step.Write? && step.id in c
              && s.clock - s.slot.lease.value.renewTime >= EffectiveDuration(s.slot.lease.value, c[step.id])
    ensures s.slot.lease.Some? && Apply(c, s, step).slot.lease.None? ==> step == Release(s.slot.lease.value.holder)
  {
    if step.Write? && step.id in c {
      assert SnapshotInv(s, s.replicas[step.id]);
    }
  }

  /** A tick that reads a lease it may replace leaves a newer version behind, whether its own write won or lost. */
  lemma ContestedTickMovesVersion(c: Config, steps: seq<Step>, id: string)
    requires "" !in c && QuietReleases(c, steps) && id in c
    requires Run(c, steps).replicas[id].phase.Snapshotted?
    requires var p := Run(c, steps).replicas[id].phase; Decide(id, c[id], p.now, p.snapshot).TryUpdate?
    ensures Run(c, steps + [Write(id)]).slot.counter > Run(c, steps).replicas[id].phase.snapshot.value.version
  {
    RunKeepsInv(c, steps);
    Extend(c, steps + [Write(id)], |steps|);
    WriteMovesVersion(c, Run(c, steps), id);
  }

  lemma WriteMovesVersion(c: Config, s: System, id: string)
    requires Inv(c, s) && id in c && s.replicas[id].phase.Snapshotted?
    requires var p := s.replicas[id].phase; Decide(id, c[id], p.now, p.snapshot).TryUpdate?
    ensures Apply(c, s, Write(id)).slot.counter > s.replicas[id].phase.snapshot.value.version
  {
    assert SnapshotInv(s, s.replicas[id]);
  }

  lemma Extend(c: Config, steps: seq<Step>, k: nat)
    requires k < |steps|
    ensures Run(c, steps[..k + 1]) == Apply(c, Run(c, steps[..k]), steps[k])
    ensures k + 1 == |steps| ==> Run(c, steps) == Apply(c, Run(c, steps[..k]), steps[k])
    ensures steps[..k + 1] == steps[..k] + [steps[k]]
  {
    assert steps[..k + 1][..k] == steps[..k];
    if k + 1 == |steps| {
      assert steps[..k + 1] == steps;
    }
  }

  // ---------------------------------------------------------------- renewal

  /** A replica that reads during its own term holds the stored lease in its hand until it writes. */
  ghost predicate FreshInv(c: Config, s: System) {
    && Inv(c, s)
    && forall id | id in c && InTerm(c, s, id) && s.replicas[id].phase.Snapshotted? ::
         s.replicas[id].phase.snapshot == s.slot.lease
  }

  lemma {:induction false} StepKeepsFresh(c: Config, s: System, step: Step)
    requires "" !in c && FreshInv(c, s) && (step.Release? ==> Quiet(s))
    ensures FreshInv(c, Apply(c, s, step))
  {
    StepKeepsInv(c, s, step);
    var t := Apply(c, s, step);
    forall id | id in c && InTerm(c, t, id) && t.replicas[id].phase.Snapshotted?
      ensures t.replicas[id].phase.snapshot == t.slot.lease
    {
      assert TermInv(c, s, id) && TermInv(c, t, id) && SnapshotInv(s, s.replicas[id]);
      StepKeepsFreshFor(c, s, step, id);
    }
  }

  lemma {:induction false} StepKeepsFreshFor(c: Config, s: System, step: Step, id: string)
    requires "" !in c && FreshInv(c, s) && id in c
    requires InTerm(c, Apply(c, s, step), id) && Apply(c, s, step).replicas[id].phase.Snapshotted?
    ensures Apply(c, s, step).replicas[id].phase.snapshot == Apply(c, s, step).slot.lease
  {
    assert TermInv(c, s, id);
    if step.Write? && step.id in c && step.id != id && s.replicas[step.id].phase.Snapshotted? {
      var p := s.replicas[step.id].phase;
      if Commit(s.slot, step.id, c[step.id], p.now, p.snapshot).1 {
        LoserIsOutOfTerm(c, s, step.id, id);
      }
    }
  }

  lemma {:induction false} RunKeepsFresh(c: Config, steps: seq<Step>)
    requires "" !in c && QuietReleases(c, steps)
    ensures FreshInv(c, Run(c, steps))
  {
    if steps != [] {
      var front := steps[..|steps| - 1];
      hide FreshInv, QuietReleases, Quiet, Apply;
      QuietPrefix(c, steps, |steps| - 1);
      RunKeepsFresh(c, front);
      StepKeepsFresh(c, Run(c, front), steps[|steps| - 1]);
    }
  }

  lemma {:induction false} QuietPrefix(c: Config, steps: seq<Step>, n: nat)
    requires QuietReleases(c, steps) && n <= |steps|
    ensures QuietReleases(c, steps[..n])
    ensures n < |steps| && steps[n].Release? ==> Quiet(Run(c, steps[..n]))
  {
    forall k | 0 <= k < n && steps[..n][k].Release?
      ensures Quiet(Run(c, steps[..n][..k]))
    {
      assert steps[..n][..k] == steps[..k];
    }
  }

  /** In every reachable state, the write of a replica whose own term is running wins, whatever the others have done. */
  lemma {:induction false} RenewalWins(c: Config, steps: seq<Step>, id: string)
    requires "" !in c && QuietReleases(c, steps) && id in c
    requires InTerm(c, Run(c, steps), id) && Run(c, steps).replicas[id].phase.Snapshotted?
    ensures var s, t := Run(c, steps), Run(c, steps + [Write(id)]);
            && t.replicas[id].phase == Written(true) && t.replicas[id].wrote == Some(s.replicas[id].phase.now)
            && t.slot.lease.Some? && t.slot.lease.value.holder == id
            && t.slot.lease.value.renewTime == s.replicas[id].phase.now && t.slot.lease.value.duration == c[id]
  {
    RunKeepsFresh(c, steps);
    Extend(c, steps + [Write(id)], |steps|);
    assert (steps + [Write(id)])[..|steps|] == steps;
    RenewalWinsIn(c, Run(c, steps), id);
  }

  lemma {:induction false} RenewalWinsIn(c: Config, s: System, id: string)
    requires FreshInv(c, s) && id in c && InTerm(c, s, id) && s.replicas[id].phase.Snapshotted? && id != ""
    ensures var t := Apply(c, s, Write(id));
            && t.replicas[id].phase == Written(true) && t.replicas[id].wrote == Some(s.replicas[id].phase.now)
            && t.slot.lease.Some? && t.slot.lease.value.holder == id
            && t.slot.lease.value.renewTime == s.replicas[id].phase.now && t.slot.lease.value.duration == c[id]
  {
    assert TermInv(c, s, id);
  }

  /** From step k on the replica neither releases nor is abandoned, and writes only while its last term is running. */
  ghost predicate KeepsRenewing(c: Config, steps: seq<Step>, id: string, k: nat) {
    forall m | k <= m < |steps| ::
      && steps[m] != Release(id) && steps[m] != Abandon(id)
      && (steps[m] == Write(id) ==> InTerm(c, Run(c, steps[..m]), id))
  }

  /** A leader that ticks often enough stays leader, through every interleaving with the others. */
  lemma {:induction false} LeaderIsKept(c: Config, steps: seq<Step>, id: string, k: nat, n: nat)
    requires "" !in c && QuietReleases(c, steps) && id in c && k <= n <= |steps| && KeepsRenewing(c, steps, id, k)
    requires Run(c, steps[..k]).replicas[id].leader && Run(c, steps[..k]).replicas[id].phase.Idle?
    ensures Run(c, steps[..n]).replicas[id].leader && Run(c, steps[..n]).replicas[id].phase != Written(false)
    decreases n - k
  {
    hide FreshInv, QuietReleases, Apply, Run, InTerm;
    if k < n {
      LeaderIsKept(c, steps, id, k, n - 1);
      Extend(c, steps, n - 1);
      var s := Run(c, steps[..n - 1]);
      if steps[n - 1] == Write(id) && s.replicas[id].phase.Snapshotted? {
        QuietPrefix(c, steps, n - 1);
        RunKeepsFresh(c, steps[..n - 1]);
        RenewalWinsIn(c, s, id);
        OwnWriteKeepsFlag(c, s, id);
      } else {
        OwnFlagStays(c, s, steps[n - 1], id);
      }
    }
  }

  lemma {:induction false} OwnWriteKeepsFlag(c: Config, s: System, id: string)
    requires WellFormed(c, s) && id in c && s.replicas[id].leader
    ensures Apply(c, s, Write(id)).replicas[id].leader
  {
    hide Commit;
  }

  lemma {:induction false} OwnFlagStays(c: Config, s: System, step: Step, id: string)
    requires WellFormed(c, s) && id in c && s.replicas[id].leader && s.replicas[id].phase != Written(false)
    requires step != Release(id) && step != Abandon(id)
    requires step == Write(id) ==> !s.replicas[id].phase.Snapshotted?
    ensures var t := Apply(c, s, step); t.replicas[id].leader && t.replicas[id].phase != Written(false)
  {
    hide Commit;
  }

  // ---------------------------------------------------------------- releases at any time

  /** Clocks that were read and renew times that were written lie in the past, whatever is released and when. */
  ghost predicate PastInv(c: Config, s: System) {
    WellFormed(c, s) && forall id | id in c ::
      && (s.replicas[id].phase.Captured? || s.replicas[id].phase.Snapshotted? ==> s.replicas[id].phase.now <= s.clock)
      && (s.replicas[id].wrote.Some? ==> s.replicas[id].wrote.value <= s.clock)
  }

  lemma {:induction false} RunKeepsPast(c: Config, steps: seq<Step>)
    ensures PastInv(c, Run(c, steps))
  {
    if steps != [] {
      RunKeepsPast(c, steps[..|steps| - 1]);
      StepKeepsPast(c, Run(c, steps[..|steps| - 1]), steps[|steps| - 1]);
    }
  }

  lemma StepKeepsPast(c: Config, s: System, step: Step)
    requires PastInv(c, s)
    ensures PastInv(c, Apply(c, s, step))
  {
    hide Commit, DeleteIn;
  }

  /** No run, with whatever releases, has two in-lease leaders. */
  ghost predicate AlwaysExclusive(c: Config) {
    forall steps, a, b :: InLeaseLeader(c, Run(c, steps), a) && InLeaseLeader(c, Run(c, steps), b) ==> a == b
  }

  /** Only one replica has a lease that lasts. */
  ghost predicate OneLasting(c: Config) {
    forall a, b | a in c && b in c && c[a] > 0.0 && c[b] > 0.0 :: a == b
  }

  /**
   A re-created lease starts again at version 1, so a snapshot taken before a release can match it. Without a
   condition on the time of releases the protocol is therefore exclusive exactly when it has no competitors: as soon
   as two replicas have leases that last, some run ends with two in-lease leaders.
   */
  lemma AlwaysExclusiveExactly(c: Config)
    requires "" !in c
    ensures AlwaysExclusive(c) <==> OneLasting(c)
  {
    if OneLasting(c) {
      forall steps, a, b | InLeaseLeader(c, Run(c, steps), a) && InLeaseLeader(c, Run(c, steps), b)
        ensures a == b
      {
        RunKeepsPast(c, steps);
      }
    } else {
      var x, y :| x in c && y in c && c[x] > 0.0 && c[y] > 0.0 && x != y;
      UnquietReleaseBreaksFencing(c, x, y);
    }
  }

  /** `x` acquires, `y` reads the lapsed lease, `x` releases it and acquires it again, and then `y` writes. */
  function CounterexampleRun(c: Config, x: string, y: string): seq<Step>
    requires x in c
  {
    [Capture(x), Read(x), Write(x), Report(x), Advance(c[x]), Capture(y), Read(y), Release(x),
     Capture(x), Read(x), Write(x), Report(x), Write(y), Report(y)]
  }

  /**
   Any two replicas whose leases last have a run, with an unquiet release, that ends with both as in-lease leaders.
   */
  lemma UnquietReleaseBreaksFencing(c: Config, x: string, y: string)
    requires x in c && y in c && x != y && x != "" && c[x] > 0.0 && c[y] > 0.0
    ensures var s := Run(c, CounterexampleRun(c, x, y)); InLeaseLeader(c, s, x) && InLeaseLeader(c, s, y)
  {
    var steps := CounterexampleRun(c, x, y);
    assert steps[0..4] == TickSteps(x);
    UpToStaleSnapshot(c, steps, x, y);
    assert steps[8..12] == TickSteps(x);
    hide Run, TickSteps;
    var s12 := FourSteps(c, steps, 8, x);
    Extend(c, steps, 12);
    Extend(c, steps, 13);
    StaleWriteWins(c, s12, x, y);
  }

  lemma StaleWriteWins(c: Config, s: System, x: string, y: string)
    requires WellFormed(c, s) && x in c && y in c && x != y && x != "" && c[x] > 0.0 && c[y] > 0.0 && s.clock == c[x]
    requires s.slot == Slot(Some(LeaseRecord(x, c[x], c[x], 1)), 1)
    requires s.replicas[x] == Replica(Idle, true, false, Some(c[x]))
    requires s.replicas[y] == Replica(Snapshotted(c[x], Some(LeaseRecord(x, 0.0, c[x], 1))), false, false, None)
    ensures var t := Apply(c, Apply(c, s, Write(y)), Report(y)); InLeaseLeader(c, t, x) && InLeaseLeader(c, t, y)
  {
  }

  /** The first four steps: `x` takes the free lease. */
  lemma FirstTick(c: Config, x: string, y: string)
    requires x in c && y in c && x != y
    ensures var s := AfterTick(c, Init(c), x);
            && s.slot == Slot(Some(LeaseRecord(x, 0.0, c[x], 1)), 1) && s.clock == 0.0
            && s.replicas[x] == Replica(Idle, true, false, Some(0.0))
            && s.replicas[y] == Replica(Idle, false, false, None)
  {
  }

  /** The next four: `y` reads the lapsed lease and `x` releases it. */
  lemma LapsedRelease(c: Config, s: System, x: string, y: string)
    requires WellFormed(c, s) && x in c && y in c && x != y && c[x] >= 0.0
    requires s.slot == Slot(Some(LeaseRecord(x, 0.0, c[x], 1)), 1) && s.clock == 0.0
    requires s.replicas[x] == Replica(Idle, true, false, Some(0.0))
    requires s.replicas[y] == Replica(Idle, false, false, None)
    ensures var t := Apply(c, Apply(c, Apply(c, Apply(c, s, Advance(c[x])), Capture(y)), Read(y)), Release(x));
            Stale(c, t, x, y)
  {
  }

  /** `y` holds the snapshot of a lease of `x` that is gone from the store. */
  ghost predicate Stale(c: Config, s: System, x: string, y: string)
    requires WellFormed(c, s) && x in c && y in c
  {
    && s.slot == Slot(None, 1) && s.clock == c[x]
    && s.replicas[x] == Replica(Idle, false, false, None)
    && s.replicas[y] == Replica(Snapshotted(c[x], Some(LeaseRecord(x, 0.0, c[x], 1))), false, false, None)
  }

  lemma UpToStaleSnapshot(c: Config, steps: seq<Step>, x: string, y: string)
    requires x in c && y in c && x != y && c[x] >= 0.0 && |steps| >= 8 && steps[0..4] == TickSteps(x)
    requires steps[4] == Advance(c[x]) && steps[5] == Capture(y) && steps[6] == Read(y) && steps[7] == Release(x)
    ensures Stale(c, Run(c, steps[..8]), x, y)
  {
    assert steps[..0] == [] && Run(c, steps[..0]) == Init(c);
    FirstTick(c, x, y);
    hide Run, Apply, AfterTick, TickSteps, Stale;
    var s4 := FourSteps(c, steps, 0, x);
    LapsedRelease(c, s4, x, y);
    RunFour(c, steps, 4);
  }

  lemma RunFour(c: Config, steps: seq<Step>, k: nat)
    requires k + 4 <= |steps|
    ensures Run(c, steps[..k + 4])
         == Apply(c, Apply(c, Apply(c, Apply(c, Run(c, steps[..k]), steps[k]), steps[k + 1]), steps[k + 2]),
                  steps[k + 3])
  {
    Extend(c, steps, k);
    Extend(c, steps, k + 1);
    Extend(c, steps, k + 2);
    Extend(c, steps, k + 3);
  }

  lemma FourSteps(c: Config, steps: seq<Step>, k: nat, id: string) returns (s: System)
    requires k + 4 <= |steps| && steps[k..k + 4] == TickSteps(id)
    requires id in c && Run(c, steps[..k]).replicas[id].phase.Idle? && !Run(c, steps[..k]).replicas[id].abandoned
    ensures s == Run(c, steps[..k + 4]) == AfterTick(c, Run(c, steps[..k]), id)
  {
    assert steps[k..k + 4] == [steps[k], steps[k + 1], steps[k + 2], steps[k + 3]];
    RunFour(c, steps, k);
    s := Run(c, steps[..k + 4]);
    SplitTickIsTick(c, Run(c, steps[..k]), id);
  }

  // ---------------------------------------------------------------- failover bound with atomic ticks

  datatype TickEvent = TickEvent(id: string, time: real)

  function AtomicRun(c: Config, events: seq<TickEvent>): Slot
    requires forall e | e in events :: e.id in c
  {
    if events == [] then EMPTY_SLOT
    else
      var slot, e := AtomicRun(c, events[..|events| - 1]), events[|events| - 1];
      Commit(slot, e.id, c[e.id], e.time, slot.lease).0
  }

  /** Identities are non-empty, durations lie in (0, longest], and the shared clock never runs backwards. */
  ghost predicate TimedRun(c: Config, events: seq<TickEvent>, longest: real) {
    && "" !in c
    && (forall id | id in c :: 0.0 < c[id] <= longest)
    && (forall e | e in events :: e.id in c)
    && (forall i, j | 0 <= i <= j < |events| :: events[i].time <= events[j].time)
  }

  /** After any tick `k` of the run the stored lease was renewed less than `longest` before that tick, or since. */
  lemma {:induction false} RenewalIsRecent(c: Config, events: seq<TickEvent>, longest: real, k: nat)
    requires TimedRun(c, events, longest) && k < |events|
    ensures var lease := AtomicRun(c, events).lease;
            && lease.Some? && lease.value.version == AtomicRun(c, events).counter
            && lease.value.holder in c && lease.value.duration == c[lease.value.holder]
            && events[k].time - longest < lease.value.renewTime <= events[|events| - 1].time
    decreases |events|
  {
    var front, e := events[..|events| - 1], events[|events| - 1];
    if front != [] {
      assert events[|events| - 2] == front[|front| - 1];
      assert forall x | x in front :: x in events;
      RenewalIsRecent(c, front, longest, if k < |front| then k else |front| - 1);
    }
  }

  /** A lease that some live replica ticks on at least every `gap` seconds is never older than `longest + gap`. */
  lemma StoredLeaseStaysFresh(c: Config, events: seq<TickEvent>, longest: real, gap: real, k: nat, now: real)
    requires TimedRun(c, events, longest) && k < |events|
    requires now - events[k].time <= gap
    ensures AtomicRun(c, events).lease.Some?
    ensures now - AtomicRun(c, events).lease.value.renewTime < longest + gap
  {
    RenewalIsRecent(c, events, longest, k);
  }

  /** Whether tick m of the run leaves its replica with the leader flag. */
  function Won(c: Config, events: seq<TickEvent>, m: nat): bool
    requires m < |events| && forall e | e in events :: e.id in c
  {
    var slot := AtomicRun(c, events[..m]);
    Commit(slot, events[m].id, c[events[m].id], events[m].time, slot.lease).1
  }

  lemma {:induction false} AtomicStep(c: Config, events: seq<TickEvent>, m: nat)
    requires m < |events| && forall e | e in events :: e.id in c
    ensures var slot := AtomicRun(c, events[..m]);
            AtomicRun(c, events[..m + 1]) == Commit(slot, events[m].id, c[events[m].id], events[m].time, slot.lease).0
  {
    assert events[..m + 1][..m] == events[..m];
  }

  /** A winning tick leaves its replica's own fresh lease in the store, and it stays there while the lease runs. */
  lemma {:induction false} LeaseStays(c: Config, events: seq<TickEvent>, longest: real, l: nat, n: nat)
    requires TimedRun(c, events, longest) && l < n <= |events| && Won(c, events, l)
    requires forall m | l < m < n ::
      events[m].id != events[l].id && events[m].time - events[l].time < c[events[l].id]
    ensures var lease := AtomicRun(c, events[..n]).lease;
            && lease.Some? && lease.value.holder == events[l].id && lease.value.renewTime == events[l].time
            && lease.value.duration == c[events[l].id] && lease.value.version == AtomicRun(c, events[..n]).counter
    decreases n
  {
    assert events[l] in events && events[n - 1] in events;
    hide Commit, AtomicRun;
    AtomicStep(c, events, n - 1);
    var e, before := events[n - 1], AtomicRun(c, events[..n - 1]);
    if n == l + 1 {
      Taken(before, e.id, c[e.id], e.time);
    } else {
      LeaseStays(c, events, longest, l, n - 1);
      StandsBy(before, e.id, c[e.id], e.time);
    }
  }

  lemma {:induction false} Taken(slot: Slot, id: string, own: real, now: real)
    requires Commit(slot, id, own, now, slot.lease).1
    ensures var after := Commit(slot, id, own, now, slot.lease).0;
            after.lease == Some(LeaseRecord(id, now, own, after.counter))
  {
  }

  lemma {:induction false} StandsBy(slot: Slot, id: string, own: real, now: real)
    requires slot.lease.Some? && slot.lease.value.holder != id && slot.lease.value.holder != ""
    requires slot.lease.value.duration != 0.0 && now - slot.lease.value.renewTime < slot.lease.value.duration
    ensures Commit(slot, id, own, now, slot.lease) == (slot, false)
  {
  }

  /** Two ticks of one replica, less than its duration apart and with none of its own in between: the flag is kept. */
  lemma {:induction false} NextTickKeepsFlag(c: Config, events: seq<TickEvent>, longest: real, l: nat, m: nat)
    requires TimedRun(c, events, longest) && l < m < |events| && Won(c, events, l) && events[m].id == events[l].id
    requires events[m].time - events[l].time < c[events[l].id]
    requires forall k | l < k < m :: events[k].id != events[l].id
    ensures Won(c, events, m)
  {
    assert forall k | l < k < m :: events[k].time <= events[m].time;
    LeaseStays(c, events, longest, l, m);
  }

  /** From tick `first` on, a replica's ticks are less than its duration apart. */
  ghost predicate TicksOften(c: Config, events: seq<TickEvent>, first: nat)
    requires first < |events| && events[first].id in c
  {
    forall m | first < m < |events| && events[m].id == events[first].id ::
      exists l :: first <= l < m && events[l].id == events[m].id && events[m].time - events[l].time < c[events[m].id]
  }

  /** A holder that keeps ticking often enough has the leader flag after every tick, whatever the others try. */
  lemma {:induction false} HolderKeepsFlag(c: Config, events: seq<TickEvent>, longest: real, first: nat, m: nat)
    requires TimedRun(c, events, longest) && first <= m < |events| && events[m].id == events[first].id
    requires Won(c, events, first) && events[first] in events && TicksOften(c, events, first)
    ensures Won(c, events, m)
    decreases m
  {
    if first < m {
      var l := LastOwnTick(events, first, m);
      HolderKeepsFlag(c, events, longest, first, l);
      var k :| first <= k < m && events[k].id == events[m].id && events[m].time - events[k].time < c[events[m].id];
      assert k <= l && events[k].time <= events[l].time;
      NextTickKeepsFlag(c, events, longest, l, m);
    }
  }

  lemma {:induction false} LastOwnTick(events: seq<TickEvent>, first: nat, m: nat) returns (l: nat)
    requires first < m < |events| && events[m].id == events[first].id
    ensures first <= l < m && events[l].id == events[m].id
    ensures forall k | l < k < m :: events[k].id != events[m].id
  {
    l := m - 1;
    while events[l].id != events[m].id
      invariant first <= l < m
      invariant forall k | l < k < m :: events[k].id != events[m].id
      decreases l
    {
      l := l - 1;
    }
  }
}
