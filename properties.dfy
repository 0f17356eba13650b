/**
 * What the engine promises across calls: validation before any effect,
 * limiter state that only an allowed real request changes, idempotent
 * replay within the cache lifetime, every change persisted, and stored
 * policies that stay keyed by their own ids.
 */
module EngineProperties {
  import opened Wrappers
  import opened Json
  import opened Dict
  import opened Errors
  import opened Models
  import opened Keys
  import opened Hash
  import opened Storage
  import opened Validation
  import opened Selection
  import opened Limiters
  import opened Aggregation
  import opened EngineSpec

  // ---------------------------------------------------------------------
  // Fingerprints

  /** The fields of a fingerprinted request, each under its own key. */
  lemma RequestPayloadFields(r: ConsumeRequest, c: real, d: bool)
    ensures RequestPayload(r, c, d).Obj?
    ensures var p := RequestPayload(r, c, d).entries;
      && UniqueKeys(p)
      && Lookup(p, "tenant_id") == Some(Str(r.tenantId))
      && Lookup(p, "subject") == Some(SubjectPayload(r.subject))
      && Lookup(p, "resource") == Some(ResourcePayload(r.resource))
      && Lookup(p, "cost") == Some(Num(c))
      && Lookup(p, "dry_run") == Some(Bool(d))
  {
    var p := RequestPayload(r, c, d).entries;
    assert UniqueKeys(p);
    LookupAt(p, 0);
    LookupAt(p, 1);
    LookupAt(p, 2);
    LookupAt(p, 3);
    LookupAt(p, 4);
  }

  /** The fields of a fingerprinted subject; `attributes` is there only when the subject has them. */
  lemma SubjectPayloadFields(a: Subject)
    ensures SubjectPayload(a).Obj?
    ensures var p := SubjectPayload(a).entries;
      && UniqueKeys(p)
      && Lookup(p, "type") == Some(Str(a.subjectType))
      && Lookup(p, "id") == Some(Str(a.id))
      && Lookup(p, "attributes") == if a.attributes.Some? then Some(Obj(a.attributes.value)) else None
  {
    var p := SubjectPayload(a).entries;
    assert UniqueKeys(p);
    LookupAt(p, 0);
    LookupAt(p, 1);
    if a.attributes.Some? {
      LookupAt(p, 2);
    } else {
      assert |p| == 2 && p[0].key == "type" && p[1].key == "id";
      assert p[1..][1..] == [];
    }
  }

  lemma ResourcePayloadFields(a: Resource)
    ensures ResourcePayload(a).Obj?
    ensures var p := ResourcePayload(a).entries;
      && UniqueKeys(p)
      && Lookup(p, "type") == Some(Str(a.resourceType))
      && Lookup(p, "name") == Some(Str(a.name))
  {
    var p := ResourcePayload(a).entries;
    LookupAt(p, 0);
    LookupAt(p, 1);
  }

  /** Objects with equal canonical forms hold values with equal canonical forms under every key. */
  lemma CanonicalEqualLookups(es1: seq<Entry>, es2: seq<Entry>)
    requires UniqueKeys(es1) && UniqueKeys(es2)
    requires StableValue(Obj(es1)) == StableValue(Obj(es2))
    ensures forall k :: StableOpt(Lookup(es1, k)) == StableOpt(Lookup(es2, k))
  {
    ObjectCanonicalised(es1);
    ObjectCanonicalised(es2);
  }

  /** Payload objects whose values agree canonically under every key carry the same tenant, cost and flag. */
  lemma PrimitiveFieldsAgree(p1: seq<Entry>, p2: seq<Entry>, t1: string, t2: string,
                             c1: real, c2: real, d1: bool, d2: bool)
    requires forall k :: StableOpt(Lookup(p1, k)) == StableOpt(Lookup(p2, k))
    requires Lookup(p1, "tenant_id") == Some(Str(t1)) && Lookup(p2, "tenant_id") == Some(Str(t2))
    requires Lookup(p1, "cost") == Some(Num(c1)) && Lookup(p2, "cost") == Some(Num(c2))
    requires Lookup(p1, "dry_run") == Some(Bool(d1)) && Lookup(p2, "dry_run") == Some(Bool(d2))
    ensures t1 == t2 && c1 == c2 && d1 == d2
  {
    assert StableOpt(Lookup(p1, "tenant_id")) == StableOpt(Lookup(p2, "tenant_id"));
    assert StableOpt(Lookup(p1, "cost")) == StableOpt(Lookup(p2, "cost"));
    assert StableOpt(Lookup(p1, "dry_run")) == StableOpt(Lookup(p2, "dry_run"));
  }

  /** ... and canonically equal subjects and resources. */
  lemma NestedFieldsAgree(p1: seq<Entry>, p2: seq<Entry>, s1: Value, s2: Value, res1: Value, res2: Value)
    requires forall k :: StableOpt(Lookup(p1, k)) == StableOpt(Lookup(p2, k))
    requires Lookup(p1, "subject") == Some(s1) && Lookup(p2, "subject") == Some(s2)
    requires Lookup(p1, "resource") == Some(res1) && Lookup(p2, "resource") == Some(res2)
    ensures StableValue(s1) == StableValue(s2) && StableValue(res1) == StableValue(res2)
  {
    assert StableOpt(Lookup(p1, "subject")) == StableOpt(Lookup(p2, "subject"));
    assert StableOpt(Lookup(p1, "resource")) == StableOpt(Lookup(p2, "resource"));
  }

  /** Payload objects that agree canonically under every key hold the same string under a key. */
  lemma StringFieldAgrees(p1: seq<Entry>, p2: seq<Entry>, k: string, x1: string, x2: string)
    requires forall k' :: StableOpt(Lookup(p1, k')) == StableOpt(Lookup(p2, k'))
    requires Lookup(p1, k) == Some(Str(x1)) && Lookup(p2, k) == Some(Str(x2))
    ensures x1 == x2
  {
    assert StableOpt(Lookup(p1, k)) == StableOpt(Lookup(p2, k));
  }

  /** ... and, under a key holding an optional object, objects both absent or both present and canonically equal. */
  lemma OptionalObjectFieldsAgree(p1: seq<Entry>, p2: seq<Entry>, k: string,
                                  o1: Option<seq<Entry>>, o2: Option<seq<Entry>>)
    requires forall k' :: StableOpt(Lookup(p1, k')) == StableOpt(Lookup(p2, k'))
    requires Lookup(p1, k) == if o1.Some? then Some(Obj(o1.value)) else None
    requires Lookup(p2, k) == if o2.Some? then Some(Obj(o2.value)) else None
    ensures o1.Some? == o2.Some?
    ensures o1.Some? ==> StableValue(Obj(o1.value)) == StableValue(Obj(o2.value))
  {
    assert StableOpt(Lookup(p1, k)) == StableOpt(Lookup(p2, k));
  }

  /**
   * Equal canonical subjects agree on type and id, and either both lack
   * attributes or both carry attributes with equal canonical forms.
   */
  lemma SubjectDetermined(a: Subject, b: Subject)
    requires StableValue(SubjectPayload(a)) == StableValue(SubjectPayload(b))
    ensures a.subjectType == b.subjectType && a.id == b.id && a.attributes.Some? == b.attributes.Some?
    ensures a.attributes.Some? ==> StableValue(Obj(a.attributes.value)) == StableValue(Obj(b.attributes.value))
  {
    SubjectPayloadFields(a);
    SubjectPayloadFields(b);
    var ea := SubjectPayload(a).entries;
    var eb := SubjectPayload(b).entries;
    CanonicalEqualLookups(ea, eb);
    StringFieldAgrees(ea, eb, "type", a.subjectType, b.subjectType);
    StringFieldAgrees(ea, eb, "id", a.id, b.id);
    OptionalObjectFieldsAgree(ea, eb, "attributes", a.attributes, b.attributes);
  }

  /** Equal canonical resources are equal. */
  lemma ResourceDetermined(a: Resource, b: Resource)
    requires StableValue(ResourcePayload(a)) == StableValue(ResourcePayload(b))
    ensures a == b
  {
    ResourcePayloadFields(a);
    ResourcePayloadFields(b);
    var ea := ResourcePayload(a).entries;
    var eb := ResourcePayload(b).entries;
    CanonicalEqualLookups(ea, eb);
    StringFieldAgrees(ea, eb, "type", a.resourceType, b.resourceType);
    StringFieldAgrees(ea, eb, "name", a.name, b.name);
  }

  /**
   * Equal fingerprints come from requests that agree on the tenant, the
   * resource, the cost, the dry-run flag and the subject's type and id,
   * and whose subject attributes are both absent or canonically equal.
   */
  lemma FingerprintDetermines(r1: ConsumeRequest, c1: real, d1: bool, r2: ConsumeRequest, c2: real, d2: bool)
    requires Fingerprint(r1, c1, d1) == Fingerprint(r2, c2, d2)
    ensures r1.tenantId == r2.tenantId && r1.resource == r2.resource && c1 == c2 && d1 == d2
    ensures r1.subject.subjectType == r2.subject.subjectType && r1.subject.id == r2.subject.id
    ensures r1.subject.attributes.Some? == r2.subject.attributes.Some?
    ensures r1.subject.attributes.Some? ==>
      StableValue(Obj(r1.subject.attributes.value)) == StableValue(Obj(r2.subject.attributes.value))
  {
    RequestPayloadFields(r1, c1, d1);
    RequestPayloadFields(r2, c2, d2);
    var p1 := RequestPayload(r1, c1, d1).entries;
    var p2 := RequestPayload(r2, c2, d2).entries;
    CanonicalEqualLookups(p1, p2);
    PrimitiveFieldsAgree(p1, p2, r1.tenantId, r2.tenantId, c1, c2, d1, d2);
    NestedFieldsAgree(p1, p2, SubjectPayload(r1.subject), SubjectPayload(r2.subject),
                      ResourcePayload(r1.resource), ResourcePayload(r2.resource));
    SubjectDetermined(r1.subject, r2.subject);
    ResourceDetermined(r1.resource, r2.resource);
  }

  /** A dry run and a real request never share a fingerprint. */
  lemma DryRunChangesFingerprint(r1: ConsumeRequest, r2: ConsumeRequest, c: real)
    ensures Fingerprint(r1, c, true) != Fingerprint(r2, c, false)
  {
    if Fingerprint(r1, c, true) == Fingerprint(r2, c, false) {
      FingerprintDetermines(r1, c, true, r2, c, false);
    }
  }

  // ---------------------------------------------------------------------
  // Evaluation

  /** A request that fails validation has no effect at all. */
  lemma InvalidRequestHasNoEffect(st: Store, request: ConsumeRequest, clockMs: int, ttlMs: int)
    requires !RequestValid(request)
    ensures var o := Evaluate(st, request, clockMs, ttlMs);
      && o.store == st && !o.persisted
      && o.result.Failure? && o.result.error.ValidationError?
  {
  }

  /** `check` never changes the limiter state. */
  lemma CheckKeepsLimiterState(st: Store, request: ConsumeRequest, clockMs: int, ttlMs: int)
    ensures Check(st, request, clockMs, ttlMs).store.bucketStates == st.bucketStates
    ensures Check(st, request, clockMs, ttlMs).store.windowStates == st.windowStates
  {
  }

  /** A denied or failed `consume` leaves the limiter state as it was. */
  lemma DenyKeepsLimiterState(st: Store, request: ConsumeRequest, clockMs: int, ttlMs: int)
    requires var o := Consume(st, request, clockMs, ttlMs); o.result.Failure? || !o.result.value.allowed
    ensures Consume(st, request, clockMs, ttlMs).store.bucketStates == st.bucketStates
    ensures Consume(st, request, clockMs, ttlMs).store.windowStates == st.windowStates
  {
  }

  /** Without any active matching policy the request is allowed implicitly and no limiter state changes. */
  lemma ImplicitAllowWithoutPolicy(st: Store, request: ConsumeRequest, clockMs: int, ttlMs: int)
    requires RequestValid(request)
    requires var nowMs := request.now.GetOr(clockMs);
      CachedEntry(Sweep(st.idempotencyStore, nowMs), IdempotencyKeyOf(request), nowMs).None?
    requires forall p :: p in Values(st.policies) ==> !IsCandidate(p, request.tenantId, request.subject, request.resource)
    ensures var o := Evaluate(st, request, clockMs, ttlMs);
      && o.result == Success(IMPLICIT_ALLOW)
      && o.store.bucketStates == st.bucketStates && o.store.windowStates == st.windowStates
  {
    var nowMs := request.now.GetOr(clockMs);
    var swept := st.(idempotencyStore := Sweep(st.idempotencyStore, nowMs));
    var decided := Decide(swept, request, request.cost.GetOr(1.0), nowMs, request.dryRun.GetOr(false));
    assert SelectPolicy(swept.policies, request.tenantId, request.subject, request.resource).None?;
    assert decided == Outcome(swept, false, Success(IMPLICIT_ALLOW));
  }

  /**
   * A request whose id is cached and live, with the same payload, gets the
   * cached decision back and changes nothing but the sweep.
   */
  lemma ReplayReturnsCachedDecision(st: Store, request: ConsumeRequest, clockMs: int, ttlMs: int)
    requires st.Valid() && RequestValid(request)
    requires IdempotencyKeyOf(request).Some?
    requires var nowMs := request.now.GetOr(clockMs);
      var cached := Get(st.idempotencyStore, IdempotencyKeyOf(request).value);
      && cached.Some? && cached.value.expiresAtMs > nowMs
      && cached.value.payloadHash == Fingerprint(request, request.cost.GetOr(1.0), request.dryRun.GetOr(false))
    ensures var nowMs := request.now.GetOr(clockMs);
      var o := Evaluate(st, request, clockMs, ttlMs);
      && o.result == Success(Get(st.idempotencyStore, IdempotencyKeyOf(request).value).value.decision)
      && o.store == st.(idempotencyStore := Sweep(st.idempotencyStore, nowMs))
  {
    SweepLookup(st.idempotencyStore, request.now.GetOr(clockMs), IdempotencyKeyOf(request).value);
  }

  /** Reusing a live request id with a different payload is refused, with nothing changed but the sweep. */
  lemma ReuseWithOtherPayloadConflicts(st: Store, request: ConsumeRequest, clockMs: int, ttlMs: int)
    requires st.Valid() && RequestValid(request)
    requires IdempotencyKeyOf(request).Some?
    requires var nowMs := request.now.GetOr(clockMs);
      var cached := Get(st.idempotencyStore, IdempotencyKeyOf(request).value);
      && cached.Some? && cached.value.expiresAtMs > nowMs
      && cached.value.payloadHash != Fingerprint(request, request.cost.GetOr(1.0), request.dryRun.GetOr(false))
    ensures var nowMs := request.now.GetOr(clockMs);
      var o := Evaluate(st, request, clockMs, ttlMs);
      && o.result == Failure(IdempotencyConflictError(CONFLICT_MESSAGE))
      && o.store == st.(idempotencyStore := Sweep(st.idempotencyStore, nowMs))
  {
    SweepLookup(st.idempotencyStore, request.now.GetOr(clockMs), IdempotencyKeyOf(request).value);
  }

  /** A decided request with an id is cached under it with its payload hash, live for the TTL. */
  lemma DecisionIsCached(st: Store, request: ConsumeRequest, clockMs: int, ttlMs: int)
    requires RequestValid(request) && IdempotencyKeyOf(request).Some?
    requires var nowMs := request.now.GetOr(clockMs);
      CachedEntry(Sweep(st.idempotencyStore, nowMs), IdempotencyKeyOf(request), nowMs).None?
    requires Evaluate(st, request, clockMs, ttlMs).result.Success?
    ensures var nowMs := request.now.GetOr(clockMs);
      var o := Evaluate(st, request, clockMs, ttlMs);
      && o.persisted
      && Get(o.store.idempotencyStore, IdempotencyKeyOf(request).value) ==
         Some(IdempotencyEntry(Fingerprint(request, request.cost.GetOr(1.0), request.dryRun.GetOr(false)),
                               o.result.value, nowMs + ttlMs))
  {
  }

  /**
   * Repeating a `consume` with the same request id within the TTL returns
   * the first decision again and consumes nothing more.
   */
  lemma ConsumeReplayWithinTtl(st: Store, request: ConsumeRequest, clock1: int, clock2: int, ttlMs: int)
    requires st.Valid() && RequestValid(request) && IdempotencyKeyOf(request).Some?
    requires var now1 := request.now.GetOr(clock1);
      CachedEntry(Sweep(st.idempotencyStore, now1), IdempotencyKeyOf(request), now1).None?
    requires Consume(st, request, clock1, ttlMs).result.Success?
    requires request.now.GetOr(clock2) < request.now.GetOr(clock1) + ttlMs
    ensures var o1 := Consume(st, request, clock1, ttlMs);
      var o2 := Consume(o1.store, request, clock2, ttlMs);
      && o2.result == o1.result
      && o2.store.bucketStates == o1.store.bucketStates && o2.store.windowStates == o1.store.windowStates
  {
    var actual := request.(dryRun := Some(request.dryRun.GetOr(false)));
    var o1 := Evaluate(st, actual, clock1, ttlMs);
    DecisionIsCached(st, actual, clock1, ttlMs);
    ReplayReturnsCachedDecision(o1.store, actual, clock2, ttlMs);
  }

  /**
   * Once a decision is cached under a request id, another request with the
   * same id and a different fingerprint within the TTL is refused, and the
   * limiter state stays as the first request left it.
   */
  lemma CachedIdRefusesOtherPayload(st: Store, first: ConsumeRequest, second: ConsumeRequest,
                                    clock1: int, clock2: int, ttlMs: int)
    requires st.Valid() && RequestValid(first) && RequestValid(second)
    requires IdempotencyKeyOf(first).Some? && IdempotencyKeyOf(second) == IdempotencyKeyOf(first)
    requires var now1 := first.now.GetOr(clock1);
      CachedEntry(Sweep(st.idempotencyStore, now1), IdempotencyKeyOf(first), now1).None?
    requires Evaluate(st, first, clock1, ttlMs).result.Success?
    requires second.now.GetOr(clock2) < first.now.GetOr(clock1) + ttlMs
    requires Fingerprint(first, first.cost.GetOr(1.0), first.dryRun.GetOr(false)) !=
             Fingerprint(second, second.cost.GetOr(1.0), second.dryRun.GetOr(false))
    ensures var o1 := Evaluate(st, first, clock1, ttlMs);
      var o2 := Evaluate(o1.store, second, clock2, ttlMs);
      && o2.result == Failure(IdempotencyConflictError(CONFLICT_MESSAGE))
      && o2.store.bucketStates == o1.store.bucketStates && o2.store.windowStates == o1.store.windowStates
  {
    var o1 := Evaluate(st, first, clock1, ttlMs);
    DecisionIsCached(st, first, clock1, ttlMs);
    ReuseWithOtherPayloadConflicts(o1.store, second, clock2, ttlMs);
  }

  /**
   * A `check` and then a `consume` with the same request id within the
   * TTL: the payloads differ in `dry_run`, so the `consume` is refused.
   */
  lemma CheckThenConsumeConflicts(st: Store, request: ConsumeRequest, clock1: int, clock2: int, ttlMs: int)
    requires st.Valid() && RequestValid(request) && IdempotencyKeyOf(request).Some?
    requires request.dryRun != Some(true)
    requires var now1 := request.now.GetOr(clock1);
      CachedEntry(Sweep(st.idempotencyStore, now1), IdempotencyKeyOf(request), now1).None?
    requires Check(st, request, clock1, ttlMs).result.Success?
    requires request.now.GetOr(clock2) < request.now.GetOr(clock1) + ttlMs
    ensures var o1 := Check(st, request, clock1, ttlMs);
      var o2 := Consume(o1.store, request, clock2, ttlMs);
      && o2.result == Failure(IdempotencyConflictError(CONFLICT_MESSAGE))
      && o2.store.bucketStates == o1.store.bucketStates && o2.store.windowStates == o1.store.windowStates
  {
    var dry := request.(dryRun := Some(true));
    var actual := request.(dryRun := Some(request.dryRun.GetOr(false)));
    DryRunChangesFingerprint(dry, actual, request.cost.GetOr(1.0));
    CachedIdRefusesOtherPayload(st, dry, actual, clock1, clock2, ttlMs);
  }

  // ---------------------------------------------------------------------
  // Committing the limits of an allowed decision

  /** No two writes of an evaluation go to the same key. */
  predicate DistinctCommitKeys(es: seq<LimitEvaluation>) {
    forall i, j :: 0 <= i < j < |es| && es[i].apply.Some? && es[j].apply.Some? ==>
      es[i].apply.value.key != es[j].apply.value.key
  }

  /** With distinct keys, each write is in force after all of them run. */
  lemma {:induction false} ApplyCommitsWrites(s: Store, es: seq<LimitEvaluation>, i: nat)
    requires DistinctCommitKeys(es) && i < |es| && es[i].apply.Some?
    ensures var r := ApplyCommits(s, es);
      match es[i].apply.value
      case PutBucket(k, b) => Get(r.bucketStates, k) == Some(b)
      case PutWindow(k, w) => Get(r.windowStates, k) == Some(w)
    decreases |es|
  {
    var init := es[..|es| - 1];
    if i < |es| - 1 {
      assert DistinctCommitKeys(init) by {
        forall p, q | 0 <= p < q < |init| && init[p].apply.Some? && init[q].apply.Some?
          ensures init[p].apply.value.key != init[q].apply.value.key
        {
          assert init[p] == es[p] && init[q] == es[q];
        }
      }
      assert init[i] == es[i];
      ApplyCommitsWrites(s, init, i);
      var last := es[|es| - 1];
      assert last.apply.Some? ==> last.apply.value.key != es[i].apply.value.key;
    }
  }

  /** A key no write goes to keeps its state. */
  lemma {:induction false} ApplyCommitsKeepsOthers(s: Store, es: seq<LimitEvaluation>, k: StateKey)
    requires forall i :: 0 <= i < |es| && es[i].apply.Some? ==> es[i].apply.value.key != k
    ensures Get(ApplyCommits(s, es).bucketStates, k) == Get(s.bucketStates, k)
    ensures Get(ApplyCommits(s, es).windowStates, k) == Get(s.windowStates, k)
    decreases |es|
  {
    if es != [] {
      var init := es[..|es| - 1];
      assert forall i :: 0 <= i < |init| ==> init[i] == es[i];
      ApplyCommitsKeepsOthers(s, init, k);
    }
  }

  /** When a policy's decision allows a real request, every limit writes its state under its own key. */
  lemma AllowedLimitsAllWrite(s: Store, call: Call)
    requires !call.dryRun
    requires EvaluateLimits(call, s, |call.policy.body.limits|).Success?
    requires Aggregate(call.policy.body.policyId,
                       Results(EvaluateLimits(call, s, |call.policy.body.limits|).value)).allowed
    ensures var es := EvaluateLimits(call, s, |call.policy.body.limits|).value;
      forall i :: 0 <= i < |es| ==>
        && es[i].apply.Some?
        && es[i].apply.value.key == StateKeyOf(call.policy, call.request, i, call.policy.body.limits[i].Kind())
  {
    var es := EvaluateLimits(call, s, |call.policy.body.limits|).value;
    var results := Results(es);
    forall i | 0 <= i < |es|
      ensures es[i].apply.Some?
      ensures es[i].apply.value.key == StateKeyOf(call.policy, call.request, i, call.policy.body.limits[i].Kind())
    {
      assert results[i].allowed;
      assert es[i] == Step(call, s, i).value;
    }
  }

  /** Limits at different positions of a policy write to different keys. */
  lemma WritesAtOwnKeysAreDistinct(es: seq<LimitEvaluation>, call: Call)
    requires |es| <= |call.policy.body.limits|
    requires forall i :: 0 <= i < |es| ==>
      && es[i].apply.Some?
      && es[i].apply.value.key == StateKeyOf(call.policy, call.request, i, call.policy.body.limits[i].Kind())
    ensures DistinctCommitKeys(es)
  {
    forall i, j | 0 <= i < j < |es| && es[i].apply.Some? && es[j].apply.Some?
      ensures es[i].apply.value.key != es[j].apply.value.key
    {
      var limits := call.policy.body.limits;
      StateKeyInjective(call.policy, call.request, i, limits[i].Kind(), call.policy, call.request, j, limits[j].Kind());
    }
  }

  /**
   * After the writes run: each write's state is stored under its key, and a
   * key no write goes to keeps its state.
   */
  ghost predicate WritesInForce(before: Store, after: Store, es: seq<LimitEvaluation>)
    requires forall i :: 0 <= i < |es| ==> es[i].apply.Some?
  {
    && (forall i :: 0 <= i < |es| && es[i].apply.value.PutBucket? ==>
          Get(after.bucketStates, es[i].apply.value.key) == Some(es[i].apply.value.bucket))
    && (forall i :: 0 <= i < |es| && es[i].apply.value.PutWindow? ==>
          Get(after.windowStates, es[i].apply.value.key) == Some(es[i].apply.value.window))
    && (forall k :: (forall i :: 0 <= i < |es| ==> es[i].apply.value.key != k) ==>
          && Get(after.bucketStates, k) == Get(before.bucketStates, k)
          && Get(after.windowStates, k) == Get(before.windowStates, k))
  }

  /** Writes to distinct keys are all in force once they have run. */
  lemma DistinctWritesInForce(s: Store, es: seq<LimitEvaluation>)
    requires forall i :: 0 <= i < |es| ==> es[i].apply.Some?
    requires DistinctCommitKeys(es)
    ensures WritesInForce(s, ApplyCommits(s, es), es)
  {
    var r := ApplyCommits(s, es);
    forall i | 0 <= i < |es| && es[i].apply.value.PutBucket?
      ensures Get(r.bucketStates, es[i].apply.value.key) == Some(es[i].apply.value.bucket)
    {
      ApplyCommitsWrites(s, es, i);
    }
    forall i | 0 <= i < |es| && es[i].apply.value.PutWindow?
      ensures Get(r.windowStates, es[i].apply.value.key) == Some(es[i].apply.value.window)
    {
      ApplyCommitsWrites(s, es, i);
    }
    forall k | forall i :: 0 <= i < |es| ==> es[i].apply.value.key != k
      ensures Get(r.bucketStates, k) == Get(s.bucketStates, k)
      ensures Get(r.windowStates, k) == Get(s.windowStates, k)
    {
      ApplyCommitsKeepsOthers(s, es, k);
    }
  }

  /**
   * When a policy's decision allows a real request, each of its limits has
   * its new state stored under its own key, and every other key keeps its
   * state.
   */
  lemma AllowCommitsEveryLimit(s: Store, call: Call)
    requires !call.dryRun
    requires EvaluateLimits(call, s, |call.policy.body.limits|).Success?
    requires Aggregate(call.policy.body.policyId,
                       Results(EvaluateLimits(call, s, |call.policy.body.limits|).value)).allowed
    ensures var es := EvaluateLimits(call, s, |call.policy.body.limits|).value;
      && (forall i :: 0 <= i < |es| ==>
            es[i].apply.Some? &&
            es[i].apply.value.key == StateKeyOf(call.policy, call.request, i, call.policy.body.limits[i].Kind()))
      && WritesInForce(s, ApplyCommits(s, es), es)
  {
    var es := EvaluateLimits(call, s, |call.policy.body.limits|).value;
    AllowedLimitsAllWrite(s, call);
    WritesAtOwnKeysAreDistinct(es, call);
    DistinctWritesInForce(s, es);
  }

  // ---------------------------------------------------------------------
  // Policies

  /** Every stored policy sits under its own id. */
  predicate KeysMatchIds(policies: Dict<string, Policy>) {
    forall i :: 0 <= i < |policies| ==> policies[i].0 == policies[i].1.body.policyId
  }

  /** Setting a policy under its own id keeps every policy under its own id. */
  lemma SetKeepsKeysMatchIds(policies: Dict<string, Policy>, next: Policy)
    requires Unique(policies) && KeysMatchIds(policies)
    ensures KeysMatchIds(Set(policies, next.body.policyId, next))
  {
    var r := Set(policies, next.body.policyId, next);
    forall i | 0 <= i < |r| ensures r[i].0 == r[i].1.body.policyId {
      GetAt(r, i);
      if r[i].0 != next.body.policyId {
        assert HasKey(policies, r[i].0);
        var j :| 0 <= j < |policies| && policies[j].0 == r[i].0;
        GetAt(policies, j);
      }
    }
  }

  /** `upsertPolicy` keeps the store's maps and every policy under its own id. */
  lemma UpsertPreservesInvariants(st: Store, input: PolicyBody, nowMs: int)
    requires st.Valid() && KeysMatchIds(st.policies)
    ensures UpsertPolicy(st, input, nowMs).store.Valid()
    ensures KeysMatchIds(UpsertPolicy(st, input, nowMs).store.policies)
  {
    var o := UpsertPolicy(st, input, nowMs);
    if o.result.Success? {
      SetKeepsKeysMatchIds(st.policies, o.result.value);
    }
  }

  /** `patchPolicy` keeps the store's maps and every policy under its own id. */
  lemma PatchPreservesInvariants(st: Store, policyId: string, patch: PolicyPatch, nowMs: int)
    requires st.Valid() && KeysMatchIds(st.policies)
    ensures PatchPolicy(st, policyId, patch, nowMs).store.Valid()
    ensures KeysMatchIds(PatchPolicy(st, policyId, patch, nowMs).store.policies)
  {
    var o := PatchPolicy(st, policyId, patch, nowMs);
    if Get(st.policies, policyId).Some? && o.result.Success? {
      var j :| 0 <= j < |st.policies| && st.policies[j].0 == policyId;
      GetAt(st.policies, j);
      SetKeepsKeysMatchIds(st.policies, o.result.value);
    }
  }

  /** Replacing a policy keeps the creation time of the first upsert. */
  lemma ReupsertKeepsCreatedAt(st: Store, first: PolicyBody, second: PolicyBody, t1: int, t2: int)
    requires first.policyId == second.policyId
    requires UpsertPolicy(st, first, t1).result.Success? && UpsertPolicy(UpsertPolicy(st, first, t1).store, second, t2).result.Success?
    ensures var o1 := UpsertPolicy(st, first, t1);
      var o2 := UpsertPolicy(o1.store, second, t2);
      && o2.result.value.createdAt == o1.result.value.createdAt
      && o2.result.value.updatedAt == t2
      && Get(o2.store.policies, second.policyId) == Some(o2.result.value)
  {
  }

  /** A patch never changes the id, the tenant or the creation time, and the stored policy is the patched one. */
  lemma PatchPinsIdentity(st: Store, policyId: string, patch: PolicyPatch, nowMs: int)
    requires st.Valid() && KeysMatchIds(st.policies)
    requires PatchPolicy(st, policyId, patch, nowMs).result.Success?
    ensures var o := PatchPolicy(st, policyId, patch, nowMs);
      var before := Get(st.policies, policyId).value;
      && o.result.value.body.policyId == policyId
      && o.result.value.body.tenantId == before.body.tenantId
      && o.result.value.createdAt == before.createdAt
      && Get(o.store.policies, policyId) == Some(o.result.value)
  {
    var j :| 0 <= j < |st.policies| && st.policies[j].0 == policyId;
    GetAt(st.policies, j);
  }
}
