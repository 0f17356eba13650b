/**
 * The engine's operations as functions of the stored state: what each
 * returns and the state it leaves. `persisted` says whether the operation
 * wrote the state out through the store's `persist`.
 */
module EngineSpec {
  import opened Wrappers
  import opened Json
  import opened Dict
  import opened Errors
  import opened Models
  import opened Keys
  import opened Hash
  import opened Storage
  import opened Validation
  import opened Selection
  import opened Limiters
  import opened Aggregation

  /** Ten minutes. */
  const DEFAULT_IDEMPOTENCY_TTL_MS: int := 10 * 60 * 1000

  const CONFLICT_MESSAGE: string := "IDEMPOTENCY_KEY_REUSE: payload mismatch for request_id"

  /** What an operation returns, the state it leaves, and whether it persisted. */
  datatype Outcome<T> = Outcome(store: Store, persisted: bool, result: Result<T, EngineError>)

  // ---------------------------------------------------------------------
  // Idempotency cache

  /** Some cached entry has expired. */
  predicate AnyExpired(d: Dict<IdempotencyKey, IdempotencyEntry>, nowMs: int) {
    exists i :: 0 <= i < |d| && d[i].1.expiresAtMs <= nowMs
  }

  /** `cleanupIdempotency`: the entries still live at `nowMs`, in order. */
  function Sweep(d: Dict<IdempotencyKey, IdempotencyEntry>, nowMs: int): (r: Dict<IdempotencyKey, IdempotencyEntry>)
    ensures forall e :: e in r <==> e in d && e.1.expiresAtMs > nowMs
    ensures !AnyExpired(d, nowMs) ==> r == d
    ensures Subsequence(r, d)
    decreases |d|
  {
    if d == [] then []
    else
      var init := d[..|d| - 1];
      var last := d[|d| - 1];
      assert d == init + [last];
      assert !AnyExpired(d, nowMs) ==> !AnyExpired(init, nowMs) && last.1.expiresAtMs > nowMs by {
        if AnyExpired(init, nowMs) {
          var i :| 0 <= i < |init| && init[i].1.expiresAtMs <= nowMs;
          assert d[i] == init[i];
        }
      }
      var kept := Sweep(init, nowMs);
      if last.1.expiresAtMs > nowMs then
        SubsequenceSnoc(kept, init, last);
        kept + [last]
      else
        SubsequenceExtend(kept, init, last);
        kept
  }

  /** Sweeping a map leaves a map. */
  lemma {:induction false} SweepUnique(d: Dict<IdempotencyKey, IdempotencyEntry>, nowMs: int)
    ensures Unique(d) ==> Unique(Sweep(d, nowMs))
  {
    if d != [] && Unique(d) {
      var init := d[..|d| - 1];
      var last := d[|d| - 1];
      assert Unique(init);
      SweepUnique(init, nowMs);
      var r0 := Sweep(init, nowMs);
      forall e | e in r0 ensures e.0 != last.0 {
        var i :| 0 <= i < |init| && init[i] == e;
        assert d[i] == e;
      }
    }
  }

  /** With unique keys, the sweep keeps exactly the live entries under their keys. */
  lemma SweepLookup(d: Dict<IdempotencyKey, IdempotencyEntry>, nowMs: int, k: IdempotencyKey)
    requires Unique(d)
    ensures Get(Sweep(d, nowMs), k) ==
      if Get(d, k).Some? && Get(d, k).value.expiresAtMs > nowMs then Get(d, k) else None
  {
    var r := Sweep(d, nowMs);
    SweepUnique(d, nowMs);
    if Get(r, k).Some? {
      GetIffMember(r, k, Get(r, k).value);
      GetIffMember(d, k, Get(r, k).value);
    }
    if Get(d, k).Some? && Get(d, k).value.expiresAtMs > nowMs {
      GetIffMember(d, k, Get(d, k).value);
      GetIffMember(r, k, Get(d, k).value);
    }
  }

  /** The live entry cached under the request's key, if the request has one. */
  function CachedEntry(d: Dict<IdempotencyKey, IdempotencyEntry>, key: Option<IdempotencyKey>, nowMs: int)
    : (r: Option<IdempotencyEntry>)
    ensures r.Some? <==> key.Some? && Get(d, key.value).Some? && Get(d, key.value).value.expiresAtMs > nowMs
    ensures r.Some? ==> r == Get(d, key.value)
  {
    match key
    case None => None
    case Some(k) =>
      var cached := Get(d, k);
      if cached.Some? && cached.value.expiresAtMs > nowMs then cached else None
  }

  /** The payload's `subject`: its type and id, and its attributes when present. */
  function SubjectPayload(subject: Subject): Value {
    Obj([Entry("type", Str(subject.subjectType)), Entry("id", Str(subject.id))] +
        (if subject.attributes.Some? then [Entry("attributes", Obj(subject.attributes.value))] else []))
  }

  /** The payload's `resource`: its type and name. */
  function ResourcePayload(resource: Resource): Value {
    Obj([Entry("type", Str(resource.resourceType)), Entry("name", Str(resource.name))])
  }

  /** The object whose canonical form fingerprints a request. */
  function RequestPayload(request: ConsumeRequest, cost: real, dryRun: bool): Value {
    Obj([Entry("tenant_id", Str(request.tenantId)),
         Entry("subject", SubjectPayload(request.subject)),
         Entry("resource", ResourcePayload(request.resource)),
         Entry("cost", Num(cost)),
         Entry("dry_run", Bool(dryRun))])
  }

  /** The payload hash a cached decision is stored under. */
  function Fingerprint(request: ConsumeRequest, cost: real, dryRun: bool): Value {
    StableHashPayload(RequestPayload(request, cost, dryRun))
  }

  /** The cached decision with its payload hash, live for `ttlMs`. */
  function Remember(s: Store, persisted: bool, key: Option<IdempotencyKey>, hash: Value,
                    decision: Decision, expiresAtMs: int): (o: Outcome<Decision>)
    ensures o.result == Success(decision)
    ensures key.None? ==> o.store == s && o.persisted == persisted
    ensures key.Some? ==> o.persisted && o.store == s.(idempotencyStore :=
      Set(s.idempotencyStore, key.value, IdempotencyEntry(hash, decision, expiresAtMs)))
  {
    match key
    case None => Outcome(s, persisted, Success(decision))
    case Some(k) =>
      Outcome(s.(idempotencyStore := Set(s.idempotencyStore, k, IdempotencyEntry(hash, decision, expiresAtMs))),
              true, Success(decision))
  }

  // ---------------------------------------------------------------------
  // Evaluating the limits of a policy

  /** What every limit of one evaluation shares. */
  datatype Call = Call(policy: Policy, request: ConsumeRequest, cost: real, nowMs: int, dryRun: bool)

  /** Limit `i` of the call's policy, evaluated against the state `s`. */
  function Step(call: Call, s: Store, i: nat): Result<LimitEvaluation, EngineError>
    requires i < |call.policy.body.limits|
  {
    EvaluateLimit(call.policy.body.limits[i], call.policy, call.request, i, call.cost, call.nowMs, call.dryRun,
                  s.bucketStates, s.windowStates)
  }

  /**
   * The `forEach` over the first `n` limits: every limit in order, each
   * against the same state; the first error stops the evaluation.
   */
  function EvaluateLimits(call: Call, s: Store, n: nat): (r: Result<seq<LimitEvaluation>, EngineError>)
    requires n <= |call.policy.body.limits|
    ensures r.Success? <==> forall i :: 0 <= i < n ==> Step(call, s, i).Success?
    ensures r.Success? ==> |r.value| == n && forall i :: 0 <= i < n ==> r.value[i] == Step(call, s, i).value
    ensures r.Failure? ==> exists i :: 0 <= i < n && Step(call, s, i) == Failure(r.error) &&
                              forall j :: 0 <= j < i ==> Step(call, s, j).Success?
  {
    if n == 0 then Success([])
    else
      var prev := EvaluateLimits(call, s, n - 1);
      if prev.Failure? then Failure(prev.error)
      else
        var e := Step(call, s, n - 1);
        if e.Failure? then Failure(e.error) else Success(prev.value + [e.value])
  }

  /** The results of the evaluations, in order. */
  function Results(es: seq<LimitEvaluation>): (r: seq<LimitResult>)
    ensures |r| == |es| && forall i :: 0 <= i < |es| ==> r[i] == es[i].result
  {
    seq(|es|, i requires 0 <= i < |es| => es[i].result)
  }

  /** Running one evaluation's write. */
  function ApplyOne(s: Store, e: LimitEvaluation): (r: Store)
    ensures r.policies == s.policies && r.idempotencyStore == s.idempotencyStore && r.auditEvents == s.auditEvents
    ensures s.Valid() ==> r.Valid()
  {
    match e.apply
    case None => s
    case Some(PutBucket(k, b)) => s.(bucketStates := Set(s.bucketStates, k, b))
    case Some(PutWindow(k, w)) => s.(windowStates := Set(s.windowStates, k, w))
  }

  /** Running every evaluation's write, in order. */
  function ApplyCommits(s: Store, es: seq<LimitEvaluation>): (r: Store)
    ensures r.policies == s.policies && r.idempotencyStore == s.idempotencyStore && r.auditEvents == s.auditEvents
    ensures s.Valid() ==> r.Valid()
    ensures (forall i :: 0 <= i < |es| ==> es[i].apply.None?) ==> r == s
    decreases |es|
  {
    if es == [] then s else ApplyOne(ApplyCommits(s, es[..|es| - 1]), es[|es| - 1])
  }

  /**
   * The decision once the cache has missed: select a policy (none allows
   * implicitly), evaluate its limits, combine their results, and run every
   * write only when the whole decision allows and is not a dry run.
   */
  function Decide(s: Store, request: ConsumeRequest, cost: real, nowMs: int, dryRun: bool): (o: Outcome<Decision>)
    ensures o.store.policies == s.policies && o.store.idempotencyStore == s.idempotencyStore
    ensures o.store.auditEvents == s.auditEvents
    ensures o.store != s ==> o.persisted && o.result.Success? && o.result.value.allowed && !dryRun
    ensures s.Valid() ==> o.store.Valid()
  {
    match SelectPolicy(s.policies, request.tenantId, request.subject, request.resource)
    case None => Outcome(s, false, Success(IMPLICIT_ALLOW))
    case Some(policy) =>
      var call := Call(policy, request, cost, nowMs, dryRun);
      var evaluations := EvaluateLimits(call, s, |policy.body.limits|);
      if evaluations.Failure? then Outcome(s, false, Failure(evaluations.error))
      else
        var decision := Aggregate(policy.body.policyId, Results(evaluations.value));
        var commit := decision.allowed && !dryRun;
        Outcome(if commit then ApplyCommits(s, evaluations.value) else s,
                commit && |evaluations.value| > 0,
                Success(decision))
  }

  /**
   * `evaluate`: validate, then run the exclusive section at the request's
   * own time or, failing one, the clock's. Evaluation never touches the
   * policies or the audit list; it changes the limiter state only for a
   * real request whose decision allows; whatever it changes it persists;
   * and every map stays a map.
   */
  function Evaluate(st: Store, request: ConsumeRequest, clockMs: int, ttlMs: int): (o: Outcome<Decision>)
    ensures o.store.policies == st.policies && o.store.auditEvents == st.auditEvents
    ensures o.store.bucketStates != st.bucketStates || o.store.windowStates != st.windowStates ==>
      o.result.Success? && o.result.value.allowed && !request.dryRun.GetOr(false)
    ensures o.store != st ==> o.persisted
    ensures st.Valid() ==> o.store.Valid()
  {
    match RequestError(request)
    case Some(e) => Outcome(st, false, Failure(e))
    case None =>
      Admitted(st, request, request.now.GetOr(clockMs), ttlMs,
               Fingerprint(request, request.cost.GetOr(1.0), request.dryRun.GetOr(false)))
  }

  /**
   * The exclusive section, given the request's payload hash: sweep the
   * expired cache entries, answer from the cache (or refuse a reused
   * request id with a different payload), and otherwise decide and cache
   * the decision for `ttlMs`.
   */
  function Admitted(st: Store, request: ConsumeRequest, nowMs: int, ttlMs: int, hash: Value): (o: Outcome<Decision>)
    ensures o.store.policies == st.policies && o.store.auditEvents == st.auditEvents
    ensures o.store.bucketStates != st.bucketStates || o.store.windowStates != st.windowStates ==>
      o.result.Success? && o.result.value.allowed && !request.dryRun.GetOr(false)
    ensures o.store != st ==> o.persisted
    ensures st.Valid() ==> o.store.Valid()
    ensures && IdempotencyKeyOf(request).Some? && o.result.Success?
            && CachedEntry(Sweep(st.idempotencyStore, nowMs), IdempotencyKeyOf(request), nowMs).None? ==>
      && o.persisted
      && Get(o.store.idempotencyStore, IdempotencyKeyOf(request).value) ==
         Some(IdempotencyEntry(hash, o.result.value, nowMs + ttlMs))
  {
    var cost := request.cost.GetOr(1.0);
    var dryRun := request.dryRun.GetOr(false);
    var swept := st.(idempotencyStore := Sweep(st.idempotencyStore, nowMs));
    var sweptPersisted := AnyExpired(st.idempotencyStore, nowMs);
    SweepUnique(st.idempotencyStore, nowMs);
    var key := IdempotencyKeyOf(request);
    var cached := CachedEntry(swept.idempotencyStore, key, nowMs);
    if cached.Some? then
      if cached.value.payloadHash != hash then
        Outcome(swept, sweptPersisted, Failure(IdempotencyConflictError(CONFLICT_MESSAGE)))
      else
        Outcome(swept, sweptPersisted, Success(cached.value.decision))
    else
      Finish(Decide(swept, request, cost, nowMs, dryRun), sweptPersisted, key, hash, nowMs + ttlMs)
  }

  /**
   * A decision is cached when the request has an id; an error is passed on.
   * Only the cache changes, and only for a decision with an id.
   */
  function Finish(o: Outcome<Decision>, sweptPersisted: bool, key: Option<IdempotencyKey>, hash: Value,
                  expiresAtMs: int): (r: Outcome<Decision>)
    ensures r.result == o.result
    ensures r.store.policies == o.store.policies && r.store.auditEvents == o.store.auditEvents
    ensures r.store.bucketStates == o.store.bucketStates && r.store.windowStates == o.store.windowStates
    ensures r.store != o.store ==> key.Some? && o.result.Success?
    ensures r.persisted <==> sweptPersisted || o.persisted || (key.Some? && o.result.Success?)
    ensures o.store.Valid() ==> r.store.Valid()
    ensures key.Some? && o.result.Success? ==>
      Get(r.store.idempotencyStore, key.value) == Some(IdempotencyEntry(hash, o.result.value, expiresAtMs))
  {
    if o.result.Failure? then Outcome(o.store, sweptPersisted || o.persisted, o.result)
    else Remember(o.store, sweptPersisted || o.persisted, key, hash, o.result.value, expiresAtMs)
  }

  /** `consume`: a request without `dry_run` is a real one. */
  function Consume(st: Store, request: ConsumeRequest, clockMs: int, ttlMs: int): Outcome<Decision> {
    Evaluate(st, request.(dryRun := Some(request.dryRun.GetOr(false))), clockMs, ttlMs)
  }

  /** `check`: always a dry run. */
  function Check(st: Store, request: ConsumeRequest, clockMs: int, ttlMs: int): Outcome<Decision> {
    Evaluate(st, request.(dryRun := Some(true)), clockMs, ttlMs)
  }

  // ---------------------------------------------------------------------
  // Policies

  /**
   * `upsertPolicy`: a valid policy is stored under its id, keeping the
   * creation time of the policy it replaces, stamped with `nowMs`.
   */
  function UpsertPolicy(st: Store, input: PolicyBody, nowMs: int): (o: Outcome<Policy>)
    ensures PolicyError(input).Some? ==> o == Outcome(st, false, Failure(PolicyError(input).value))
    ensures PolicyError(input).None? ==>
      && o.persisted && o.result.Success?
      && o.result.value.body == input && o.result.value.updatedAt == nowMs
      && o.result.value.createdAt == (if Get(st.policies, input.policyId).Some?
                                      then Get(st.policies, input.policyId).value.createdAt else nowMs)
      && o.store == st.(policies := Set(st.policies, input.policyId, o.result.value))
  {
    match PolicyError(input)
    case Some(e) => Outcome(st, false, Failure(e))
    case None =>
      var existing := Get(st.policies, input.policyId);
      var createdAt := if existing.Some? then existing.value.createdAt else nowMs;
      var next := Policy(input, createdAt, nowMs);
      Outcome(st.(policies := Set(st.policies, input.policyId, next)), true, Success(next))
  }

  /**
   * `{ ...policy, ...patch }` with the id, tenant and creation time pinned
   * and the update time stamped: each field the patch carries replaces the
   * stored one, each it leaves out is kept.
   */
  function ApplyPatch(policy: Policy, patch: PolicyPatch, nowMs: int): (next: Policy)
    ensures next.body.policyId == policy.body.policyId && next.body.tenantId == policy.body.tenantId
    ensures next.createdAt == policy.createdAt && next.updatedAt == nowMs
    ensures next.body.name == patch.name.GetOr(policy.body.name)
    ensures next.body.status == patch.status.GetOr(policy.body.status)
    ensures next.body.priority == patch.priority.GetOr(policy.body.priority)
    ensures next.body.scope == patch.scope.GetOr(policy.body.scope)
    ensures next.body.matchRule == patch.matchRule.GetOr(policy.body.matchRule)
    ensures next.body.limits == patch.limits.GetOr(policy.body.limits)
  {
    Policy(PolicyBody(policy.body.policyId, policy.body.tenantId,
                      patch.name.GetOr(policy.body.name),
                      patch.status.GetOr(policy.body.status),
                      patch.priority.GetOr(policy.body.priority),
                      patch.scope.GetOr(policy.body.scope),
                      patch.matchRule.GetOr(policy.body.matchRule),
                      patch.limits.GetOr(policy.body.limits)),
           policy.createdAt, nowMs)
  }

  /**
   * `patchPolicy`: an unknown id is not found; otherwise the patched policy
   * must be valid, and it is stored back under the same id.
   */
  function PatchPolicy(st: Store, policyId: string, patch: PolicyPatch, nowMs: int): (o: Outcome<Policy>)
    ensures Get(st.policies, policyId).None? ==>
      o == Outcome(st, false, Failure(NotFoundError("policy not found: " + policyId)))
    ensures Get(st.policies, policyId).Some? ==>
      var next := ApplyPatch(Get(st.policies, policyId).value, patch, nowMs);
      && (PolicyError(next.body).Some? ==> o == Outcome(st, false, Failure(PolicyError(next.body).value)))
      && (PolicyError(next.body).None? ==>
            o == Outcome(st.(policies := Set(st.policies, policyId, next)), true, Success(next)))
  {
    match Get(st.policies, policyId)
    case None => Outcome(st, false, Failure(NotFoundError("policy not found: " + policyId)))
    case Some(policy) =>
      var next := ApplyPatch(policy, patch, nowMs);
      match PolicyError(next.body)
      case Some(e) => Outcome(st, false, Failure(e))
      case None => Outcome(st.(policies := Set(st.policies, policyId, next)), true, Success(next))
  }
}
