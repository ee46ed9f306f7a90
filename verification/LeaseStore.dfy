/** The versioned lease store and one elector's acquire-or-renew tick (common/leaderelection.py). */
module LeaseStore {
  import opened Options

  type LeaseKey = (string, string)

  /** The resource version is the decimal text of a counter in the source; equality of texts is equality of counters. */
  datatype LeaseRecord = LeaseRecord(holder: string, renewTime: real, duration: real, version: nat)

  /** What the two dictionaries of the store say about one key. */
  datatype Slot = Slot(lease: Option<LeaseRecord>, counter: nat)

  const EMPTY_SLOT := Slot(None, 0)

  function CreateIn(slot: Slot, record: LeaseRecord): (Slot, bool) {
    if slot.lease.Some? then (slot, false) else (Slot(Some(record.(version := 1)), 1), true)
  }

  function UpdateIn(slot: Slot, record: LeaseRecord, expected: nat): (Slot, bool) {
    if slot.lease.None? || slot.lease.value.version != expected then (slot, false)
    else (Slot(Some(record.(version := slot.counter + 1)), slot.counter + 1), true)
  }

  function DeleteIn(slot: Slot, holder: string): Slot {
    if slot.lease.Some? && slot.lease.value.holder == holder then slot.(lease := None) else slot
  }

  /** The three things a tick can do with the snapshot it has read. */
  datatype Attempt = TryCreate | TryUpdate(expected: nat) | StandBy

  /** A stored duration of zero is falsy and gives way to the reader's own duration. */
  function EffectiveDuration(record: LeaseRecord, own: real): real {
    if record.duration == 0.0 then own else record.duration
  }

  function Decide(id: string, own: real, now: real, snapshot: Option<LeaseRecord>): Attempt {
    if snapshot.None? || snapshot.value.holder == "" then TryCreate
    else if snapshot.value.holder == id then TryUpdate(snapshot.value.version)
    else if now - snapshot.value.renewTime >= EffectiveDuration(snapshot.value, own) then
      TryUpdate(snapshot.value.version)
    else StandBy
  }

  /** The write half of a tick: the new slot and the new leader flag. */
  function Commit(slot: Slot, id: string, own: real, now: real, snapshot: Option<LeaseRecord>): (Slot, bool) {
    match Decide(id, own, now, snapshot)
    case TryCreate => CreateIn(slot, LeaseRecord(id, now, own, 0))
    case TryUpdate(expected) => UpdateIn(slot, LeaseRecord(id, now, own, 0), expected)
    case StandBy => (slot, false)
  }

  class InMemoryLeaseBackend {
    var leases: map<LeaseKey, LeaseRecord>
    var versions: map<LeaseKey, nat>

    function SlotOf(key: LeaseKey): Slot
      reads this
    {
      Slot(Lookup(leases, key), if key in versions then versions[key] else 0)
    }

    twostate predicate OnlyChanged(key: LeaseKey)
      reads this
    {
      leases - {key} == old(leases) - {key} && versions - {key} == old(versions) - {key}
    }

    constructor ()
      ensures forall key :: SlotOf(key) == EMPTY_SLOT
    {
      leases, versions := map[], map[];
    }

    method Read(key: LeaseKey) returns (r: Option<LeaseRecord>)
      ensures r == SlotOf(key).lease
    {
      r := Lookup(leases, key);
    }

    method Create(key: LeaseKey, record: LeaseRecord) returns (created: bool)
      modifies this
      ensures (SlotOf(key), created) == CreateIn(old(SlotOf(key)), record)
      ensures created <==> old(SlotOf(key)).lease == None
      ensures SlotOf(key) == if created then Slot(Some(record.(version := 1)), 1) else old(SlotOf(key))
      ensures OnlyChanged(key)
    {
      if key in leases {
        return false;
      }
      leases := leases[key := record.(version := 1)];
      versions := versions[key := 1];
      created := true;
    }

    method Update(key: LeaseKey, record: LeaseRecord, expected: nat) returns (updated: bool)
      modifies this
      ensures (SlotOf(key), updated) == UpdateIn(old(SlotOf(key)), record, expected)
      ensures updated <==> old(SlotOf(key)).lease.Some? && old(SlotOf(key)).lease.value.version == expected
      ensures var version := old(SlotOf(key)).counter + 1;
              SlotOf(key) == if updated then Slot(Some(record.(version := version)), version) else old(SlotOf(key))
      ensures OnlyChanged(key)
    {
      if key !in leases || leases[key].version != expected {
        return false;
      }
      var version := (if key in versions then versions[key] else 0) + 1;
      versions := versions[key := version];
      leases := leases[key := record.(version := version)];
      updated := true;
    }

    method Delete(key: LeaseKey, holder: string)
      modifies this
      ensures SlotOf(key) == DeleteIn(old(SlotOf(key)), holder)
      ensures var held := old(SlotOf(key)).lease;
              SlotOf(key).lease == if held.Some? && held.value.holder == holder then None else held
      ensures SlotOf(key).counter == old(SlotOf(key)).counter && OnlyChanged(key)
    {
      if key in leases && leases[key].holder == holder {
        leases := leases - {key};
      }
    }
  }

  class LeaderElector {
    const key: LeaseKey
    const identity: string
    const duration: real
    /** Switched off, the replica runs standalone and leads from its start on. */
    const enabled: bool
    /** None was given: then a cluster's lease store, if there is one, takes its place. */
    const backend: InMemoryLeaseBackend?
    var leader: bool
    var abandoned: bool

    constructor (key: LeaseKey, identity: string, duration: real, enabled: bool, backend: InMemoryLeaseBackend?)
      requires identity != ""
      ensures !leader && !abandoned
      ensures this.key == key && this.identity == identity && this.duration == duration
      ensures this.enabled == enabled && this.backend == backend
    {
      this.key, this.identity, this.duration, this.enabled, this.backend := key, identity, duration, enabled, backend;
      leader, abandoned := false, false;
    }

    /**
     start(): the election loop itself is the repetition of ticks. Without any lease store, neither given nor that of a
     cluster, a replica falls back to leading on its own.
     */
    method Start(clusterStore: bool)
      modifies this`leader
      ensures leader == (old(leader) || !enabled || (backend == null && !clusterStore))
    {
      if !enabled {
        leader := true;
        return;
      }
      if backend == null && !clusterStore {
        leader := true;
      }
    }

    /**
     One tick that nobody interrupts: read the lease, then commit against the very slot that was read. A free lease is
     taken, an own one renewed, a foreign one taken over exactly when it has run out, by its own duration if it has one;
     the flag says whether the lease is now this replica's, renewed at this very moment.
     */
    method Tick(now: real)
      requires backend != null
      modifies this`leader, backend
      ensures var held := old(backend.SlotOf(key)).lease;
              && (held.None? ==> leader)
              && (held.Some? && held.value.holder != "" ==>
                    (leader <==>
                      || held.value.holder == identity
                      || now - held.value.renewTime
                         >= if held.value.duration == 0.0 then duration else held.value.duration))
              && (held.Some? && held.value.holder == "" ==> !leader)
      ensures leader ==>
                var version := if old(backend.SlotOf(key)).lease.None? then 1 else old(backend.SlotOf(key)).counter + 1;
                backend.SlotOf(key) == Slot(Some(LeaseRecord(identity, now, duration, version)), version)
      ensures !leader ==> backend.SlotOf(key) == old(backend.SlotOf(key))
      ensures (backend.SlotOf(key), leader)
           == Commit(old(backend.SlotOf(key)), identity, duration, now, old(backend.SlotOf(key)).lease)
      ensures backend.OnlyChanged(key)
    {
      var record := backend.Read(key);
      if record.None? || record.value.holder == "" {
        leader := backend.Create(key, LeaseRecord(identity, now, duration, 0));
        return;
      }
      if record.value.holder == identity {
        leader := backend.Update(key, LeaseRecord(identity, now, duration, 0), record.value.version);
        return;
      }
      var effective := if record.value.duration == 0.0 then duration else record.value.duration;
      if now - record.value.renewTime >= effective {
        leader := backend.Update(key, LeaseRecord(identity, now, duration, 0), record.value.version);
        return;
      }
      leader := false;
    }

    method Abandon()
      modifies this
      ensures abandoned && !leader
    {
      abandoned := true;
      leader := false;
    }

    /** stop(): release the lease when this replica holds it, then drop the flag; a standalone replica keeps it. */
    method Stop()
      modifies this`leader, backend
      ensures leader == (old(leader) && !enabled)
      ensures backend != null ==>
                && backend.OnlyChanged(key)
                && backend.SlotOf(key)
                   == if enabled && old(leader) && !abandoned then DeleteIn(old(backend.SlotOf(key)), identity)
                      else old(backend.SlotOf(key))
    {
      if enabled && backend != null && !abandoned && leader {
        backend.Delete(key, identity);
      }
      if enabled {
        leader := false;
      }
    }
  }
}
