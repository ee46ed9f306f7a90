/** Auto-remediation: action registry and dedup key, executor and orchestrator (orchestration/). */
module Remediation {
  import opened Options

  // ---------------------------------------------------------------- actions and their dedup keys

  datatype Action = Action(actionType: string, entityType: string, safe: bool)

  /** All actions registered for an entity type, in registry order. */
  function AllActions(entityType: string): seq<Action> {
    if entityType == "API_NODE" then
      [Action("restart_service", entityType, true), Action("scale_deployment", entityType, true),
       Action("clear_cache", entityType, true), Action("kill_pod", entityType, true),
       Action("rollback", entityType, true), Action("block_ip", entityType, false)]
    else if entityType == "DATABASE_NODE" then
      [Action("restart_service", entityType, true), Action("rollback", entityType, true),
       Action("clear_cache", entityType, true), Action("rotate_credentials", entityType, false)]
    else if entityType == "SERVICE" then
      [Action("restart_service", entityType, true), Action("scale_deployment", entityType, true),
       Action("kill_pod", entityType, true), Action("rollback", entityType, true)]
    else if entityType == "K8S_RESOURCE" then
      [Action("kill_pod", entityType, true), Action("scale_deployment", entityType, true)]
    else if entityType == "INFRASTRUCTURE" then
      [Action("restart_service", entityType, true), Action("clear_cache", entityType, true)]
    else []
  }

  predicate AlwaysApproval(actionType: string) {
    actionType == "block_ip" || actionType == "rotate_credentials"
  }

  /** What one remediation is about. */
  datatype Target = Target(actionType: string, entityId: string, incidentId: string)

  function Key(t: Target): string {
    t.actionType + ":" + t.entityId + ":" + t.incidentId
  }

  lemma NamesArePlain(name: string)
    requires name in {"restart_service", "scale_deployment", "clear_cache", "kill_pod", "rollback"}
    ensures ':' !in name && !AlwaysApproval(name)
  {
  }

  lemma GatedNamesArePlain(name: string)
    requires AlwaysApproval(name)
    ensures ':' !in name
  {
  }

  /** The registry flags as unsafe exactly the actions that always need approval, and its names hold no colon. */
  lemma RegistryConsistent(entityType: string, i: nat)
    requires i < |AllActions(entityType)|
    ensures var a := AllActions(entityType)[i];
            && a.entityType == entityType && ':' !in a.actionType && (a.safe <==> !AlwaysApproval(a.actionType))
  {
    var a := AllActions(entityType)[i];
    if a.safe {
      NamesArePlain(a.actionType);
    } else {
      GatedNamesArePlain(a.actionType);
    }
  }

  function BeforeFirstColon(s: string): string {
    if s == "" || s[0] == ':' then "" else [s[0]] + BeforeFirstColon(s[1..])
  }

  function AfterLastColon(s: string): string {
    if s == "" || s[|s| - 1] == ':' then "" else AfterLastColon(s[..|s| - 1]) + [s[|s| - 1]]
  }

  lemma {:induction false} SplitsAtFirst(a: string, r: string)
    requires ':' !in a
    ensures BeforeFirstColon(a + ":" + r) == a
  {
    if a != "" {
      assert (a + ":" + r)[1..] == a[1..] + ":" + r;
      SplitsAtFirst(a[1..], r);
    }
  }

  lemma {:induction false} SplitsAtLast(l: string, b: string)
    requires ':' !in b
    ensures AfterLastColon(l + ":" + b) == b
  {
    var s := l + ":" + b;
    if b != "" {
      assert s[..|s| - 1] == l + ":" + b[..|b| - 1];
      SplitsAtLast(l, b[..|b| - 1]);
    }
  }

  lemma FirstColon(a: string, r: string, a': string, r': string)
    requires ':' !in a && ':' !in a' && a + ":" + r == a' + ":" + r'
    ensures a == a' && r == r'
  {
    SplitsAtFirst(a, r);
    SplitsAtFirst(a', r');
    assert r == (a + ":" + r)[|a| + 1..] && r' == (a + ":" + r')[|a| + 1..];
  }

  lemma LastColon(l: string, b: string, l': string, b': string)
    requires ':' !in b && ':' !in b' && l + ":" + b == l' + ":" + b'
    ensures l == l' && b == b'
  {
    SplitsAtLast(l, b);
    SplitsAtLast(l', b');
    assert l == (l + ":" + b)[..|l|] && l' == (l' + ":" + b)[..|l|];
  }

  /** With colon-free action names, two keys agree exactly when the actions and the joined ids do. */
  lemma KeysAgree(t: Target, u: Target)
    requires ':' !in t.actionType && ':' !in u.actionType
    ensures Key(t) == Key(u) <==>
            t.actionType == u.actionType && t.entityId + ":" + t.incidentId == u.entityId + ":" + u.incidentId
  {
    assert Key(t) == t.actionType + ":" + (t.entityId + ":" + t.incidentId);
    assert Key(u) == u.actionType + ":" + (u.entityId + ":" + u.incidentId);
    if Key(t) == Key(u) {
      FirstColon(t.actionType, t.entityId + ":" + t.incidentId, u.actionType, u.entityId + ":" + u.incidentId);
    }
  }

  /** The key is injective when no incident id holds a colon, and also when no entity id does. */
  lemma KeyInjective(t: Target, u: Target)
    requires ':' !in t.actionType && ':' !in u.actionType
    requires (':' !in t.incidentId && ':' !in u.incidentId) || (':' !in t.entityId && ':' !in u.entityId)
    ensures Key(t) == Key(u) ==> t == u
  {
    KeysAgree(t, u);
    if Key(t) == Key(u) {
      if ':' !in t.incidentId && ':' !in u.incidentId {
        LastColon(t.entityId, t.incidentId, u.entityId, u.incidentId);
      } else {
        FirstColon(t.entityId, t.incidentId, u.entityId, u.incidentId);
      }
    }
  }

  /** Every incident id with a colon collides with a shorter one: the text before the colon can belong to the entity. */
  lemma KeyCollides(actionType: string, entityId: string, before: string, after: string)
    ensures var t := Target(actionType, entityId, before + ":" + after);
            var u := Target(actionType, entityId + ":" + before, after);
            t != u && Key(t) == Key(u)
  {
    var t := Target(actionType, entityId, before + ":" + after);
    var u := Target(actionType, entityId + ":" + before, after);
    assert |t.entityId| != |u.entityId|;
    assert Key(t) == actionType + ":" + entityId + ":" + before + ":" + after;
    assert Key(u) == actionType + ":" + entityId + ":" + before + ":" + after;
  }

  // ---------------------------------------------------------------- executors

  /**
   What one call meets: an HTTP backend answering a simulated action, or a Kubernetes API. A connection may be refused,
   the call may fail in another way before anything is sent (a connection time-out, say), or its answer may be lost or
   garbled.
   */
  datatype Backend =
    | Response(status: int, success: Option<bool>)
    | Unreachable
    | NeverSent
    | BadResponse
    | Kubernetes(enabled: bool, installed: bool, configured: bool, reached: bool, patched: bool)

  /** The environment of one call: DRY_RUN is read anew each time. */
  datatype Env = Env(dryRun: bool, backend: Backend)

  datatype Via = DryRun | AlreadyExecuted | Ran
  datatype ExecResult = ExecResult(success: bool, via: Via)

  /** Whether the action was really sent to the backend, and what the executor reports. */
  function Perform(backend: Backend, actionType: string): (bool, bool) {
    match backend
    case Response(status, success) => (true, if status >= 400 || success.None? then true else success.value)
    case Unreachable => (false, true)
    case NeverSent => (false, true)
    case BadResponse => (true, true)
    case Kubernetes(enabled, installed, configured, reached, patched) =>
      if !enabled then (false, true)
      else if !installed || !configured then (false, false)
      else if Supported(actionType) then (reached, reached && patched)
      else (false, false)
  }

  /** The actions the Kubernetes executor knows how to carry out. */
  predicate Supported(actionType: string) {
    actionType == "restart_service" || actionType == "scale_deployment"
  }

  /**
   How far a report can be trusted. Over HTTP only the backend's own denial in a good answer is reported as a failure: a
   refusing, unreachable or garbled one counts as a success. A Kubernetes success means that a supported action was sent
   and taken, unless the executor is switched off. Nothing is sent and success is reported exactly in three cases: the
   HTTP connection is refused, the HTTP call fails before it is sent, or the Kubernetes executor is switched off.
   */
  lemma PerformExactly(backend: Backend, actionType: string)
    ensures var (sent, success) := Perform(backend, actionType);
            && (success && !sent <==>
                  backend.Unreachable? || backend.NeverSent? || (backend.Kubernetes? && !backend.enabled))
            && (!backend.Kubernetes? ==>
                  && (sent <==> !backend.Unreachable? && !backend.NeverSent?)
                  && (!success <==> backend.Response? && backend.status < 400 && backend.success == Some(false)))
            && (backend.Kubernetes? && backend.enabled ==>
                  && (sent <==>
                        backend.installed && backend.configured && Supported(actionType) && backend.reached)
                  && (success <==> sent && backend.patched))
  {
  }

  /**
   An executor's state. `attempts` are the calls that got past dry-run and the dedup check, `effects` those of them that
   reached the backend.
   */
  datatype ExecState = ExecState(cache: set<string>, calls: seq<Target>, attempts: seq<Target>, effects: seq<Target>) {
    function Execute(t: Target, env: Env): (ExecState, ExecResult) {
      var called := this.(calls := calls + [t]);
      if env.dryRun then (called, ExecResult(true, DryRun))
      else if Key(t) in cache then (called, ExecResult(true, AlreadyExecuted))
      else
        var (sent, success) := Perform(env.backend, t.actionType);
        (called.(cache := cache + {Key(t)}, attempts := attempts + [t], effects := effects + if sent then [t] else []),
         ExecResult(success, Ran))
    }

    /**
     One call, case by case. A dry run is only recorded as a call. A repetition reports success and is not sent.
     Anything else is recorded as attempted whatever comes of it, and as an effect when it was sent.
     */
    lemma ExecuteExactly(t: Target, env: Env)
      ensures var (after, r) := Execute(t, env);
              var (sent, success) := Perform(env.backend, t.actionType);
              && after.calls == calls + [t]
              && (env.dryRun ==>
                    && r.success && r.via == DryRun
                    && after.cache == cache && after.attempts == attempts && after.effects == effects)
              && (!env.dryRun && Key(t) in cache ==>
                    && r.success && r.via == AlreadyExecuted
                    && after.cache == cache && after.attempts == attempts && after.effects == effects)
              && (!env.dryRun && Key(t) !in cache ==>
                    && r.success == success && r.via == Ran && after.cache == cache + {Key(t)}
                    && after.attempts == attempts + [t] && after.effects == effects + if sent then [t] else [])
    {
    }

    /** What every run keeps. */
    ghost predicate Sound() {
      && (forall i, j | 0 <= i < j < |attempts| :: Key(attempts[i]) != Key(attempts[j]))
      && (forall i | 0 <= i < |attempts| :: Key(attempts[i]) in cache)
      && (forall k | k in cache :: exists i | 0 <= i < |attempts| :: Key(attempts[i]) == k)
      && (forall i, j | 0 <= i < j < |effects| :: Key(effects[i]) != Key(effects[j]))
      && (forall i | 0 <= i < |effects| :: effects[i] in attempts)
      && (forall i | 0 <= i < |attempts| :: !AlwaysApproval(attempts[i].actionType) && ':' !in attempts[i].actionType)
    }

    lemma ExecuteSound(t: Target, env: Env)
      requires Sound() && !AlwaysApproval(t.actionType) && ':' !in t.actionType
      ensures Execute(t, env).0.Sound()
    {
      hide Key, AlwaysApproval, Perform;
      var after := Execute(t, env).0;
      if !env.dryRun && Key(t) !in cache {
        assert after.attempts[|attempts|] == t;
        forall k | k in after.cache
          ensures exists i | 0 <= i < |after.attempts| :: Key(after.attempts[i]) == k
        {
          if k != Key(t) {
            var i :| 0 <= i < |attempts| && Key(attempts[i]) == k;
            assert after.attempts[i] == attempts[i];
          }
        }
        forall i | 0 <= i < |effects|
          ensures Key(effects[i]) in cache && effects[i] in after.attempts
        {
          assert effects[i] in attempts;
        }
      }
    }

    lemma AtMostOnce(i: nat, j: nat)
      requires Sound() && i < j < |effects|
      ensures effects[i] != effects[j]
    {
    }

    lemma NeverGated(i: nat)
      requires Sound() && i < |effects|
      ensures !AlwaysApproval(effects[i].actionType)
    {
      assert effects[i] in attempts;
    }

    /**
     Deduplication suppresses exactly the repetitions, provided the key is injective on the incidents at hand; in
     general it suppresses what has the key of an earlier attempt.
     */
    lemma SuppressesExactly(t: Target, env: Env)
      requires Sound() && !env.dryRun && ':' !in t.actionType
      ensures Execute(t, env).1.via.AlreadyExecuted? <==> exists i | 0 <= i < |attempts| :: Key(attempts[i]) == Key(t)
      ensures ':' !in t.incidentId && (forall i | 0 <= i < |attempts| :: ':' !in attempts[i].incidentId) ==>
              (Execute(t, env).1.via.AlreadyExecuted? <==> t in attempts)
    {
      if ':' !in t.incidentId && forall i | 0 <= i < |attempts| :: ':' !in attempts[i].incidentId {
        forall i | 0 <= i < |attempts|
          ensures Key(attempts[i]) == Key(t) ==> attempts[i] == t
        {
          KeyInjective(attempts[i], t);
        }
      }
    }
  }

  class ActionExecutor {
    var idempotencyCache: set<string>
    var calls: seq<Target>
    ghost var attempts: seq<Target>
    ghost var effects: seq<Target>

    ghost function State(): ExecState
      reads this
    {
      ExecState(idempotencyCache, calls, attempts, effects)
    }

    constructor ()
      ensures State() == ExecState({}, [], [], [])
    {
      idempotencyCache, calls := {}, [];
      attempts, effects := [], [];
    }

    method Execute(t: Target, env: Env) returns (r: ExecResult)
      modifies this
      ensures (State(), r) == old(State()).Execute(t, env)
      ensures calls == old(calls) + [t]
      ensures idempotencyCache == old(idempotencyCache) + if env.dryRun then {} else {Key(t)}
      ensures r.success <==>
              env.dryRun || Key(t) in old(idempotencyCache) || Perform(env.backend, t.actionType).1
    {
      calls := calls + [t];
      if env.dryRun {
        return ExecResult(true, DryRun);
      }
      var key := Key(t);
      if key in idempotencyCache {
        return ExecResult(true, AlreadyExecuted);
      }
      // recorded before the effect, whatever comes of it
      idempotencyCache := idempotencyCache + {key};
      attempts := attempts + [t];
      var sent, success := RunBackend(t, env.backend);
      effects := effects + if sent then [t] else [];
      r := ExecResult(success, Ran);
    }

    method RunBackend(t: Target, backend: Backend) returns (sent: bool, success: bool)
      ensures (sent, success) == Perform(backend, t.actionType)
    {
      match backend
      case Kubernetes(enabled, installed, configured, reached, patched) =>
        if !enabled {
          return false, true;
        }
        if !installed || !configured || !Supported(t.actionType) {
          return false, false;
        }
        return reached, reached && patched;
      case Response(status, reported) =>
        if status >= 400 {
          return true, true;
        }
        return true, reported.None? || reported.value;
      case Unreachable =>
        return false, true;
      case NeverSent =>
        return false, true;
      case BadResponse =>
        return true, true;
    }
  }

  // ---------------------------------------------------------------- retries

  /** The attempts from number `attempt` on; the last result, none when there is no attempt at all. */
  function Attempts(s: ExecState, t: Target, envs: nat -> Env, attempt: nat, maxRetries: int)
    : (ExecState, Option<ExecResult>)
    decreases maxRetries + 1 - attempt
  {
    if attempt >= maxRetries + 1 then (s, None)
    else
      var (after, r) := s.Execute(t, EnvAt(envs, attempt));
      if r.success || attempt == maxRetries then (after, Some(r)) else Attempts(after, t, envs, attempt + 1, maxRetries)
  }

  function EnvAt(envs: nat -> Env, attempt: nat): Env {
    envs(attempt)
  }

  /**
   What retrying amounts to. A second attempt never reaches the backend: the key is already recorded, so it reports
   success as a duplicate (or as a dry run). With at least one retry every result is therefore a success, whatever the
   backend said.
   */
  lemma RetriesExactly(s: ExecState, t: Target, envs: nat -> Env, maxRetries: int)
    ensures var (after, result) := Attempts(s, t, envs, 0, maxRetries);
            var (once, first) := s.Execute(t, EnvAt(envs, 0));
            && (maxRetries < 0 ==> after == s && result == None)
            && (maxRetries == 0 || (maxRetries > 0 && first.success) ==> after == once && result == Some(first))
            && (maxRetries > 0 && !first.success ==>
                  && after == once.(calls := once.calls + [t])
                  && result == Some(ExecResult(true, if EnvAt(envs, 1).dryRun then DryRun else AlreadyExecuted)))
  {
    var (once, first) := s.Execute(t, EnvAt(envs, 0));
    if maxRetries > 0 && !first.success {
      assert Key(t) in once.cache;
      var (twice, second) := once.Execute(t, EnvAt(envs, 1));
      assert Attempts(once, t, envs, 1, maxRetries) == (twice, Some(second));
    }
  }

  /** The attempts keep the state sound and make at most the configured number of calls, with at most one effect. */
  lemma {:induction false} AttemptsSound(s: ExecState, t: Target, envs: nat -> Env, attempt: nat, maxRetries: int)
    requires s.Sound() && !AlwaysApproval(t.actionType) && ':' !in t.actionType
    ensures var (after, result) := Attempts(s, t, envs, attempt, maxRetries);
            && after.Sound() && s.calls <= after.calls && s.effects <= after.effects
            && |after.calls| - |s.calls| <= (if maxRetries + 1 >= attempt then maxRetries + 1 - attempt else 0)
            && (forall i | |s.calls| <= i < |after.calls| :: after.calls[i] == t)
            && |after.effects| <= |s.effects| + 1 && (Key(t) in s.cache ==> after.effects == s.effects)
    decreases maxRetries + 1 - attempt
  {
    hide Key, AlwaysApproval, Perform, ExecState.Sound;
    if attempt < maxRetries + 1 {
      s.ExecuteSound(t, EnvAt(envs, attempt));
      var (after, r) := s.Execute(t, EnvAt(envs, attempt));
      if !r.success && attempt < maxRetries {
        AttemptsSound(after, t, envs, attempt + 1, maxRetries);
      }
    }
  }

  /** Whether the first attempt of a remediation fails, in terms of what is known before it is made. */
  predicate FirstFails(s: ExecState, t: Target, env: Env) {
    !env.dryRun && Key(t) !in s.cache && !Perform(env.backend, t.actionType).1
  }

  /** The result is a success although the first attempt failed exactly when it did fail and there is a retry. */
  lemma SuccessHidesFailureExactly(s: ExecState, t: Target, envs: nat -> Env, maxRetries: int)
    ensures var result := Attempts(s, t, envs, 0, maxRetries).1;
            && (result.Some? <==> maxRetries >= 0)
            && (result.Some? ==> (!result.value.success <==> maxRetries == 0 && FirstFails(s, t, EnvAt(envs, 0))))
            && (result.Some? && result.value.success && !s.Execute(t, EnvAt(envs, 0)).1.success
                <==> maxRetries >= 1 && FirstFails(s, t, EnvAt(envs, 0)))
  {
    RetriesExactly(s, t, envs, maxRetries);
  }

  /** A fresh remediation on a cluster whose client library is missing: nothing is sent, and success is published. */
  lemma HiddenFailureExists(t: Target, maxRetries: int)
    requires maxRetries >= 1
    ensures var envs := (n: nat) => Env(false, Kubernetes(true, false, false, false, false));
            var s := ExecState({}, [], [], []);
            var (after, result) := Attempts(s, t, envs, 0, maxRetries);
            result == Some(ExecResult(true, AlreadyExecuted)) && after.effects == []
  {
    var envs := (n: nat) => Env(false, Kubernetes(true, false, false, false, false));
    var s := ExecState({}, [], [], []);
    RetriesExactly(s, t, envs, maxRetries);
  }

  // ---------------------------------------------------------------- pauses between attempts

  /** The delay after attempt n is base * multiplier ** n, but at most max. */
  datatype Backoff = Backoff(base: real, multiplier: real, max: real) {
    function Delay(attempt: nat): real {
      var delay := base * Power(multiplier, attempt);
      if delay <= max then delay else max
    }
  }

  function Power(x: real, n: nat): real {
    if n == 0 then 1.0 else x * Power(x, n - 1)
  }

  /** The delays slept from attempt number `attempt` on: one after every failure that is not the last. */
  function Pauses(s: ExecState, t: Target, envs: nat -> Env, attempt: nat, maxRetries: int, b: Backoff): seq<real>
    decreases maxRetries + 1 - attempt
  {
    if attempt >= maxRetries then []
    else
      var (after, r) := s.Execute(t, EnvAt(envs, attempt));
      if r.success then [] else [b.Delay(attempt)] + Pauses(after, t, envs, attempt + 1, maxRetries, b)
  }

  /** The back-off never gets beyond its first step, as the second attempt always succeeds. */
  lemma PausesExactly(s: ExecState, t: Target, envs: nat -> Env, maxRetries: int, b: Backoff)
    ensures Pauses(s, t, envs, 0, maxRetries, b)
         == if maxRetries >= 1 && FirstFails(s, t, EnvAt(envs, 0)) then [if b.base <= b.max then b.base else b.max]
            else []
  {
    var (once, first) := s.Execute(t, EnvAt(envs, 0));
    assert b.Delay(0) == if b.base <= b.max then b.base else b.max;
    if maxRetries > 0 && !first.success {
      assert Key(t) in once.cache;
      assert Pauses(once, t, envs, 1, maxRetries, b) == [];
    }
  }

  // ---------------------------------------------------------------- routing

  datatype Decision = Decision(allow: bool, needsApproval: bool)

  /** What the policy client may answer. */
  datatype RawDecision =
    | Typed(decision: Decision)
    | Fields(allow: Option<bool>, needsApproval: Option<bool>)
    | Unexpected

  function Normalize(raw: RawDecision): Decision {
    match raw
    case Typed(decision) => decision
    case Fields(allow, needsApproval) => Decision(allow == Some(true), needsApproval == Some(true))
    case Unexpected => Decision(false, false)
  }

  datatype Route = Auto | Approval | Deny

  function RouteOf(d: Decision, severity: string, confidence: real, actionType: string): Route {
    if AlwaysApproval(actionType) then Approval
    else if d.allow && (confidence > 95.0 || severity == "P1" || severity == "P2") then Auto
    else if d.needsApproval then Approval
    else Deny
  }

  datatype RootCause = RootCause(entity: Option<string>, entityType: Option<string>, confidence: Option<real>)
  datatype Incident = Incident(incidentId: Option<string>, rootCause: Option<RootCause>, severity: Option<string>)

  function Or<T>(o: Option<T>, default: T): T {
    if o.Some? then o.value else default
  }

  /** `incident.get("root_cause", {})` */
  function Cause(m: Incident): RootCause {
    Or(m.rootCause, RootCause(None, None, None))
  }

  function ActionsFor(m: Incident): seq<Action> {
    AllActions(Or(Cause(m).entityType, "unknown"))
  }

  function Answer(opa: string -> RawDecision, actionType: string): RawDecision {
    opa(actionType)
  }

  function RouteFor(m: Incident, opa: string -> RawDecision, actionType: string): Route {
    RouteOf(Normalize(Answer(opa, actionType)), Or(m.severity, "UNKNOWN"), Or(Cause(m).confidence, 0.0), actionType)
  }

  /** The first action with a given route. */
  function First(m: Incident, opa: string -> RawDecision, actions: seq<Action>, wanted: Route): Option<Action> {
    if actions == [] then None
    else if RouteFor(m, opa, actions[0].actionType) == wanted then Some(actions[0])
    else First(m, opa, actions[1..], wanted)
  }

  lemma {:induction false} FirstIsFirst(m: Incident, opa: string -> RawDecision, actions: seq<Action>, wanted: Route)
    ensures First(m, opa, actions, wanted) == None <==>
            forall i | 0 <= i < |actions| :: RouteFor(m, opa, actions[i].actionType) != wanted
    ensures First(m, opa, actions, wanted).Some? ==>
            exists i | 0 <= i < |actions| :: First(m, opa, actions, wanted) == Some(actions[i])
              && RouteFor(m, opa, actions[i].actionType) == wanted
              && forall j | 0 <= j < i :: RouteFor(m, opa, actions[j].actionType) != wanted
  {
    if actions != [] {
      var rest := actions[1..];
      FirstIsFirst(m, opa, rest, wanted);
      if RouteFor(m, opa, actions[0].actionType) == wanted {
        assert First(m, opa, actions, wanted) == Some(actions[0]);
      } else if First(m, opa, rest, wanted).Some? {
        var i :| 0 <= i < |rest| && First(m, opa, rest, wanted) == Some(rest[i])
              && RouteFor(m, opa, rest[i].actionType) == wanted
              && forall j | 0 <= j < i :: RouteFor(m, opa, rest[j].actionType) != wanted;
        assert actions[i + 1] == rest[i];
        assert forall j | 1 <= j < i + 1 :: actions[j] == rest[j - 1];
      } else {
        assert forall j | 1 <= j < |actions| :: actions[j] == rest[j - 1];
      }
    }
  }

  lemma {:induction false} FirstAppend(m: Incident, opa: string -> RawDecision, actions: seq<Action>, a: Action,
                                       wanted: Route)
    ensures First(m, opa, actions + [a], wanted) ==
            if First(m, opa, actions, wanted).Some? then First(m, opa, actions, wanted)
            else if RouteFor(m, opa, a.actionType) == wanted then Some(a) else None
  {
    if actions == [] {
      assert actions + [a] == [a] && [a][1..] == [];
      assert First(m, opa, [], wanted) == None;
    } else {
      assert (actions + [a])[1..] == actions[1..] + [a];
      FirstAppend(m, opa, actions[1..], a, wanted);
    }
  }

  // ---------------------------------------------------------------- whole messages

  datatype ActionResult = ActionResult(target: Target, entityType: string, success: bool, via: Via, severity: string,
                                       confidence: real)
  datatype ApprovalRecord = ApprovalRecord(target: Target, severity: string)

  /** What handling one message comes to; a missing key raises KeyError. */
  datatype Reply = Result(result: ActionResult) | Pending(record: ApprovalRecord) | Nothing | MissingKey

  predicate AutoKeysPresent(m: Incident) {
    m.incidentId.Some? && m.rootCause.Some? && Cause(m).entity.Some? && Cause(m).entityType.Some? && m.severity.Some?
    && Cause(m).confidence.Some?
  }

  predicate ApprovalKeysPresent(m: Incident) {
    m.incidentId.Some? && m.rootCause.Some? && Cause(m).entity.Some? && m.severity.Some?
  }

  function TargetOf(m: Incident, a: Action): Target {
    Target(a.actionType, Or(Cause(m).entity, "unknown"), Or(m.incidentId, "unknown"))
  }

  function ReplyAuto(m: Incident, a: Action, r: Option<ExecResult>): Reply
    requires AutoKeysPresent(m)
  {
    if r.None? then Nothing
    else Result(ActionResult(TargetOf(m, a), Cause(m).entityType.value, r.value.success, r.value.via,
                             m.severity.value, Cause(m).confidence.value))
  }

  /** The meaning of handle_message on the executor's state. */
  function Handle(s: ExecState, m: Incident, opa: string -> RawDecision, envs: nat -> Env,
                  maxRetries: int): (ExecState, Reply) {
    var auto, approval := First(m, opa, ActionsFor(m), Auto), First(m, opa, ActionsFor(m), Approval);
    if auto.Some? then
      if !AutoKeysPresent(m) then (s, MissingKey)
      else
        var (after, r) := Attempts(s, TargetOf(m, auto.value), envs, 0, maxRetries);
        (after, ReplyAuto(m, auto.value, r))
    else if approval.Some? then
      (s, if ApprovalKeysPresent(m) then Pending(ApprovalRecord(TargetOf(m, approval.value), m.severity.value))
          else MissingKey)
    else (s, Nothing)
  }

  /**
   An action is executed only if it is registered, allowed by policy, urgent or near-certain, and never one that needs
   approval.
   */
  lemma AutoIsLicensed(m: Incident, opa: string -> RawDecision)
    requires First(m, opa, ActionsFor(m), Auto).Some?
    ensures var a := First(m, opa, ActionsFor(m), Auto).value;
            && a in ActionsFor(m) && a.safe && !AlwaysApproval(a.actionType) && ':' !in a.actionType
            && Normalize(Answer(opa, a.actionType)).allow
            && (m.severity == Some("P1") || m.severity == Some("P2") || Or(Cause(m).confidence, 0.0) > 95.0)
  {
    var actions := ActionsFor(m);
    FirstIsFirst(m, opa, actions, Auto);
    var i :| 0 <= i < |actions| && First(m, opa, actions, Auto) == Some(actions[i])
          && RouteFor(m, opa, actions[i].actionType) == Auto;
    RegistryConsistent(Or(Cause(m).entityType, "unknown"), i);
  }

  /**
   One message keeps the executor sound, makes at most maxRetries + 1 calls and in fact at most two, and at most one
   effect.
   */
  lemma HandleSound(s: ExecState, m: Incident, opa: string -> RawDecision, envs: nat -> Env, maxRetries: int)
    requires s.Sound()
    ensures var (after, reply) := Handle(s, m, opa, envs, maxRetries);
            && after.Sound() && s.calls <= after.calls && s.effects <= after.effects
            && |after.calls| - |s.calls| <= (if maxRetries >= 1 then 2 else if maxRetries == 0 then 1 else 0)
            && |after.effects| - |s.effects| <= 1
            && (!reply.Result? ==> after == s)
  {
    hide Key, AlwaysApproval, Perform, ExecState.Sound, First, ActionsFor;
    if First(m, opa, ActionsFor(m), Auto).Some? && AutoKeysPresent(m) {
      AutoIsLicensed(m, opa);
      var t := TargetOf(m, First(m, opa, ActionsFor(m), Auto).value);
      AttemptsSound(s, t, envs, 0, maxRetries);
      RetriesExactly(s, t, envs, maxRetries);
    }
  }

  // ---------------------------------------------------------------- what becomes of a message

  /** What the policy answered, whatever form the answer had; an unexpected answer says neither. */
  ghost predicate Allows(raw: RawDecision) {
    (raw.Typed? && raw.decision.allow) || (raw.Fields? && raw.allow.Some? && raw.allow.value)
  }

  ghost predicate AsksApproval(raw: RawDecision) {
    (raw.Typed? && raw.decision.needsApproval)
    || (raw.Fields? && raw.needsApproval.Some? && raw.needsApproval.value)
  }

  ghost predicate Gated(name: string) {
    name == "block_ip" || name == "rotate_credentials"
  }

  ghost predicate Urgent(m: Incident) {
    || m.severity == Some("P1") || m.severity == Some("P2")
    || (m.rootCause.Some? && m.rootCause.value.confidence.Some? && m.rootCause.value.confidence.value > 95.0)
  }

  /** The action may run by itself. */
  ghost predicate Licensed(m: Incident, opa: string -> RawDecision, name: string) {
    !Gated(name) && Allows(Answer(opa, name)) && Urgent(m)
  }

  /** The action must not, and a human may be asked. */
  ghost predicate Askable(m: Incident, opa: string -> RawDecision, name: string) {
    !Licensed(m, opa, name) && (Gated(name) || AsksApproval(Answer(opa, name)))
  }

  /** The actions registered for the incident's entity type; none when it has no type. */
  function Registered(m: Incident): seq<Action> {
    if m.rootCause.Some? && m.rootCause.value.entityType.Some? then AllActions(m.rootCause.value.entityType.value)
    else []
  }

  lemma {:induction false} RouteExactly(m: Incident, opa: string -> RawDecision, name: string)
    ensures RouteFor(m, opa, name) == Auto <==> Licensed(m, opa, name)
    ensures RouteFor(m, opa, name) == Approval <==> Askable(m, opa, name)
  {
  }

  lemma {:induction false} RegisteredActions(m: Incident)
    ensures ActionsFor(m) == Registered(m)
  {
    assert "unknown"[0] == 'u';
  }

  /** The first action of a kind, or that there is none. */
  lemma {:induction false} FirstAt(m: Incident, opa: string -> RawDecision, actions: seq<Action>, wanted: Route, i: nat)
    requires i <= |actions| && (forall j | 0 <= j < i :: RouteFor(m, opa, actions[j].actionType) != wanted)
    requires i < |actions| ==> RouteFor(m, opa, actions[i].actionType) == wanted
    ensures First(m, opa, actions, wanted) == if i < |actions| then Some(actions[i]) else None
  {
    if i > 0 {
      assert forall j | 0 <= j < i - 1 :: actions[1..][j] == actions[j + 1];
      FirstAt(m, opa, actions[1..], wanted, i - 1);
    }
  }

  /** An incident with every key an action needs. */
  datatype Case = Case(incidentId: string, entity: string, entityType: string, severity: string, confidence: real)

  ghost predicate IsComplete(m: Incident, k: Case) {
    m == Incident(Some(k.incidentId), Some(RootCause(Some(k.entity), Some(k.entityType), Some(k.confidence))),
                  Some(k.severity))
  }

  /** i is the first place with the property, or the end. */
  ghost predicate FirstLicensed(m: Incident, opa: string -> RawDecision, i: nat) {
    && i <= |Registered(m)|
    && (forall j | 0 <= j < i :: !Licensed(m, opa, Registered(m)[j].actionType))
    && (i < |Registered(m)| ==> Licensed(m, opa, Registered(m)[i].actionType))
  }

  ghost predicate FirstAskable(m: Incident, opa: string -> RawDecision, i: nat) {
    && i <= |Registered(m)|
    && (forall j | 0 <= j < i :: !Askable(m, opa, Registered(m)[j].actionType))
    && (i < |Registered(m)| ==> Askable(m, opa, Registered(m)[i].actionType))
  }

  /**
   What becomes of a complete incident: the first licensed action is tried and its result published, never an approval
   requested; if none is licensed the first one that may be asked for is put to a human; and otherwise nothing happens.
   */
  lemma {:induction false} HandleExactly(s: ExecState, m: Incident, opa: string -> RawDecision, envs: nat -> Env,
                                         maxRetries: int, k: Case, i: nat, j: nat)
    requires IsComplete(m, k) && FirstLicensed(m, opa, i) && FirstAskable(m, opa, j)
    ensures var (after, reply) := Handle(s, m, opa, envs, maxRetries);
            && (i < |Registered(m)| && maxRetries < 0 ==> reply == Nothing && after == s)
            && (i < |Registered(m)| && maxRetries >= 0 ==>
                  && reply.Result?
                  && reply.result.target == Target(Registered(m)[i].actionType, k.entity, k.incidentId)
                  && reply.result.entityType == k.entityType && reply.result.severity == k.severity
                  && reply.result.confidence == k.confidence)
            && (i == |Registered(m)| && j < |Registered(m)| ==>
                  && reply == Pending(ApprovalRecord(Target(Registered(m)[j].actionType, k.entity, k.incidentId),
                                                     k.severity))
                  && after == s)
            && (i == |Registered(m)| && j == |Registered(m)| ==> reply == Nothing && after == s)
  {
    Candidate(m, opa, i, j);
    if i < |Registered(m)| {
      RetriesExactly(s, TargetOf(m, Registered(m)[i]), envs, maxRetries);
    }
  }

  lemma {:induction false} Candidate(m: Incident, opa: string -> RawDecision, i: nat, j: nat)
    requires FirstLicensed(m, opa, i) && FirstAskable(m, opa, j)
    ensures First(m, opa, ActionsFor(m), Auto) == if i < |Registered(m)| then Some(Registered(m)[i]) else None
    ensures First(m, opa, ActionsFor(m), Approval) == if j < |Registered(m)| then Some(Registered(m)[j]) else None
  {
    RegisteredActions(m);
    forall name
      ensures RouteFor(m, opa, name) == Auto <==> Licensed(m, opa, name)
      ensures RouteFor(m, opa, name) == Approval <==> Askable(m, opa, name)
    {
      RouteExactly(m, opa, name);
    }
    hide RouteFor, Licensed, Askable, First, AllActions;
    FirstAt(m, opa, Registered(m), Auto, i);
    FirstAt(m, opa, Registered(m), Approval, j);
  }

  /**
   And of an incomplete one: a licensed action with a missing key raises KeyError before anything runs, and so does an
   approval without incident, entity or severity; a missing confidence or type does not stop an approval.
   */
  lemma {:induction false} MissingKeys(s: ExecState, m: Incident, opa: string -> RawDecision, envs: nat -> Env,
                                       maxRetries: int, i: nat, j: nat)
    requires FirstLicensed(m, opa, i) && FirstAskable(m, opa, j) && forall k :: !IsComplete(m, k)
    ensures var (after, reply) := Handle(s, m, opa, envs, maxRetries);
            && after == s
            && (i < |Registered(m)| ==> reply == MissingKey)
            && (i == |Registered(m)| && j < |Registered(m)| ==>
                  if m.incidentId.Some? && m.rootCause.value.entity.Some? && m.severity.Some? then
                    reply == Pending(ApprovalRecord(
                      Target(Registered(m)[j].actionType, m.rootCause.value.entity.value, m.incidentId.value),
                      m.severity.value))
                  else reply == MissingKey)
            && (i == |Registered(m)| && j == |Registered(m)| ==> reply == Nothing)
  {
    Candidate(m, opa, i, j);
    if AutoKeysPresent(m) {
      var k := Case(m.incidentId.value, Cause(m).entity.value, Cause(m).entityType.value, m.severity.value,
                    Cause(m).confidence.value);
      assert IsComplete(m, k);
    }
  }

  /**
   When a message has a result, and when that result tells the truth: with a retry a success is reported whether the
   first attempt failed or not, and a failed one is never reported as carried out.
   */
  lemma ResultExactly(s: ExecState, m: Incident, opa: string -> RawDecision, envs: nat -> Env, maxRetries: int)
    ensures var reply := Handle(s, m, opa, envs, maxRetries).1;
            var auto := First(m, opa, ActionsFor(m), Auto);
            && (reply.Result? <==> auto.Some? && AutoKeysPresent(m) && maxRetries >= 0)
            && (reply.Result? ==>
                  var t := TargetOf(m, auto.value);
                  && (reply.result.success <==> maxRetries >= 1 || !FirstFails(s, t, EnvAt(envs, 0)))
                  && (!FirstFails(s, t, EnvAt(envs, 0)) ==> reply.result.via == s.Execute(t, EnvAt(envs, 0)).1.via)
                  && (maxRetries >= 1 && FirstFails(s, t, EnvAt(envs, 0)) ==> !reply.result.via.Ran?))
            && (reply.Pending? <==>
                  auto.None? && First(m, opa, ActionsFor(m), Approval).Some? && ApprovalKeysPresent(m))
  {
    var auto := First(m, opa, ActionsFor(m), Auto);
    if auto.Some? {
      RetriesExactly(s, TargetOf(m, auto.value), envs, maxRetries);
    }
  }

  /**
   What a result says about the target itself. It has reached the backend exactly if it had before or this first attempt
   was sent; so a success is published without any effect exactly when it had not, nothing was sent (a dry run, a
   duplicate, or one of the cases of PerformExactly) and the first attempt either did not fail or was retried.
   */
  lemma ResultWithoutEffectExactly(s: ExecState, m: Incident, opa: string -> RawDecision, envs: nat -> Env,
                                   maxRetries: int)
    ensures var (after, reply) := Handle(s, m, opa, envs, maxRetries);
            var env := EnvAt(envs, 0);
            reply.Result? ==>
              var t := reply.result.target;
              var sent := !env.dryRun && Key(t) !in s.cache && Perform(env.backend, t.actionType).0;
              && (t in after.effects <==> t in s.effects || sent)
              && (reply.result.success && t !in after.effects <==>
                    t !in s.effects && !sent && (maxRetries >= 1 || !FirstFails(s, t, env)))
  {
    var auto := First(m, opa, ActionsFor(m), Auto);
    if auto.Some? {
      RetriesExactly(s, TargetOf(m, auto.value), envs, maxRetries);
      hide Key, Perform, First, ActionsFor;
    }
  }

  datatype Message = Message(incident: Incident, opa: string -> RawDecision, envs: nat -> Env)

  /** A whole run of messages through one executor. */
  function Run(s: ExecState, messages: seq<Message>, maxRetries: int): (ExecState, seq<Reply>) {
    if messages == [] then (s, [])
    else
      var (before, replies) := Run(s, messages[..|messages| - 1], maxRetries);
      var m := messages[|messages| - 1];
      var (after, reply) := Handle(before, m.incident, m.opa, m.envs, maxRetries);
      (after, replies + [reply])
  }

  function Results(replies: seq<Reply>): nat {
    if replies == [] then 0
    else Results(replies[..|replies| - 1]) + if replies[|replies| - 1].Result? then 1 else 0
  }

  /**
   Over any run from a fresh executor, the backend sees no remediation twice and none that needs approval, sees at
   most one per published result, and is asked at most twice per published result.
   */
  lemma {:induction false} RunAtMostOnce(messages: seq<Message>, maxRetries: int)
    ensures var (s, replies) := Run(ExecState({}, [], [], []), messages, maxRetries);
            && s.Sound() && |replies| == |messages|
            && (forall i, j | 0 <= i < j < |s.effects| :: s.effects[i] != s.effects[j])
            && (forall i | 0 <= i < |s.effects| :: !AlwaysApproval(s.effects[i].actionType))
            && |s.effects| <= Results(replies) && |s.calls| <= 2 * Results(replies)
            && (maxRetries <= 0 ==> |s.calls| <= Results(replies))
  {
    hide Key, AlwaysApproval, Perform, Handle, ExecState.Sound;
    var start := ExecState({}, [], [], []);
    var (s, replies) := Run(start, messages, maxRetries);
    if messages == [] {
      FreshSound();
    } else {
      var m := messages[|messages| - 1];
      RunAtMostOnce(messages[..|messages| - 1], maxRetries);
      var (before, earlier) := Run(start, messages[..|messages| - 1], maxRetries);
      HandleSound(before, m.incident, m.opa, m.envs, maxRetries);
      assert replies[..|messages| - 1] == earlier;
    }
    forall i, j | 0 <= i < j < |s.effects|
      ensures s.effects[i] != s.effects[j]
    {
      s.AtMostOnce(i, j);
    }
    forall i | 0 <= i < |s.effects|
      ensures !AlwaysApproval(s.effects[i].actionType)
    {
      s.NeverGated(i);
    }
  }

  lemma FreshSound()
    ensures ExecState({}, [], [], []).Sound()
  {
  }

  /** The delays slept while one message is handled. */
  function PausesFor(s: ExecState, m: Incident, opa: string -> RawDecision, envs: nat -> Env, maxRetries: int,
                     b: Backoff): seq<real> {
    var auto := First(m, opa, ActionsFor(m), Auto);
    if auto.Some? && AutoKeysPresent(m) then Pauses(s, TargetOf(m, auto.value), envs, 0, maxRetries, b) else []
  }

  class Orchestrator {
    const executor: ActionExecutor
    const maxRetries: int
    const backoff: Backoff
    /** Whether an archiver, and whether an approval store was given. */
    const archiving: bool
    const storing: bool
    /** What was handed to the result topic, to the audit archive and to the approval store, and the delays slept. */
    ghost var published: seq<ActionResult>
    ghost var audited: seq<ActionResult>
    ghost var approvals: seq<ApprovalRecord>
    ghost var slept: seq<real>

    ghost predicate Valid()
      reads this, executor
    {
      executor.State().Sound()
    }

    constructor (maxRetries: int, backoff: Backoff, archiving: bool, storing: bool)
      ensures Valid() && fresh(executor) && this.maxRetries == maxRetries && this.backoff == backoff
      ensures this.archiving == archiving && this.storing == storing
      ensures published == [] && audited == [] && approvals == [] && slept == []
    {
      executor := new ActionExecutor();
      this.maxRetries, this.backoff, this.archiving, this.storing := maxRetries, backoff, archiving, storing;
      published, audited, approvals, slept := [], [], [], [];
    }

    /** One incident: at most one of a published result and an approval, and the executor's state stays sound. */
    method HandleMessage(m: Incident, opa: string -> RawDecision, envs: nat -> Env) returns (reply: Reply)
      requires Valid()
      modifies this, executor
      ensures Valid()
      ensures (executor.State(), reply) == Handle(old(executor.State()), m, opa, envs, maxRetries)
      ensures published == old(published) + if reply.Result? then [reply.result] else []
      ensures audited == old(audited) + if reply.Result? && archiving then [reply.result] else []
      ensures approvals == old(approvals) + if reply.Pending? && storing then [reply.record] else []
      ensures slept == old(slept) + PausesFor(old(executor.State()), m, opa, envs, maxRetries, backoff)
    {
      HandleSound(executor.State(), m, opa, envs, maxRetries);
      hide Attempts, Pauses, First, ActionsFor, ExecState.Sound;
      var auto, approval := Candidates(m, opa);
      if auto.Some? {
        reply := HandleAuto(m, auto.value, envs);
        if reply.Result? {
          published := published + [reply.result];
          audited := audited + if archiving then [reply.result] else [];
        }
        return;
      }
      if approval.Some? {
        if !ApprovalKeysPresent(m) {
          return MissingKey;
        }
        reply := Pending(ApprovalRecord(TargetOf(m, approval.value), m.severity.value));
        approvals := approvals + if storing then [reply.record] else [];
        return;
      }
      reply := Nothing;
    }

    method Candidates(m: Incident, opa: string -> RawDecision) returns (auto: Option<Action>, approval: Option<Action>)
      ensures auto == First(m, opa, ActionsFor(m), Auto) && approval == First(m, opa, ActionsFor(m), Approval)
    {
      var actions := ActionsFor(m);
      auto, approval := None, None;
      for i := 0 to |actions|
        invariant auto == First(m, opa, actions[..i], Auto) && approval == First(m, opa, actions[..i], Approval)
      {
        FirstAppend(m, opa, actions[..i], actions[i], Auto);
        FirstAppend(m, opa, actions[..i], actions[i], Approval);
        assert actions[..i + 1] == actions[..i] + [actions[i]];
        var route := RouteFor(m, opa, actions[i].actionType);
        if route == Auto && auto.None? {
          auto := Some(actions[i]);
        } else if route == Approval && approval.None? {
          approval := Some(actions[i]);
        }
      }
      assert actions[..|actions|] == actions;
    }

    method HandleAuto(m: Incident, a: Action, envs: nat -> Env) returns (reply: Reply)
      modifies executor, this`slept
      ensures slept == old(slept)
                + if AutoKeysPresent(m) then Pauses(old(executor.State()), TargetOf(m, a), envs, 0, maxRetries, backoff)
                  else []
      ensures if !AutoKeysPresent(m) then reply == MissingKey && executor.State() == old(executor.State())
              else var (after, r) := Attempts(old(executor.State()), TargetOf(m, a), envs, 0, maxRetries);
                   executor.State() == after && reply == ReplyAuto(m, a, r)
    {
      if !AutoKeysPresent(m) {
        return MissingKey;
      }
      var last: Option<ExecResult> := None;
      var attempt := 0;
      while attempt < maxRetries + 1
        invariant attempt >= 0 && (attempt <= maxRetries + 1 || attempt == 0)
        invariant (if attempt < maxRetries + 1 then
                     Attempts(executor.State(), TargetOf(m, a), envs, attempt, maxRetries)
                   else (executor.State(), last))
               == Attempts(old(executor.State()), TargetOf(m, a), envs, 0, maxRetries)
        invariant slept + Pauses(executor.State(), TargetOf(m, a), envs, attempt, maxRetries, backoff)
               == old(slept) + Pauses(old(executor.State()), TargetOf(m, a), envs, 0, maxRetries, backoff)
      {
        var r := executor.Execute(TargetOf(m, a), EnvAt(envs, attempt));
        last := Some(r);
        if r.success {
          return ReplyAuto(m, a, last);
        }
        if attempt < maxRetries {
          slept := slept + [backoff.Delay(attempt)];
        }
        attempt := attempt + 1;
      }
      reply := ReplyAuto(m, a, last);
    }
  }
}
