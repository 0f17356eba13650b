/**
 * The engine as the program runs it: a storage object whose maps are
 * updated in place and written out by `persist`, and an engine object whose
 * methods step through validation, the idempotency sweep, the cache, the
 * loop over the policy's limits and the loop running their writes. Each
 * method leaves the storage holding the state, and returns the result, that
 * the corresponding function of `EngineSpec` describes; and the snapshot
 * file ends up holding the final state whenever the operation persisted.
 */
module Engine {
  import opened Wrappers
  import opened Json
  import opened Dict
  import opened Errors
  import opened Models
  import opened Keys
  import opened Storage
  import opened Validation
  import opened Selection
  import opened Limiters
  import opened Aggregation
  import opened EngineSpec
  import opened EngineProperties

  /** The snapshot file after an operation that leaves `after`: rewritten when it persisted to a durable store. */
  function FileAfter(durable: bool, persisted: bool, before: Option<SerializedState>, after: Store)
    : (r: Option<SerializedState>)
    ensures durable && persisted ==> r.Some?
    ensures !(durable && persisted) ==> r == before
  {
    if durable && persisted then Some(ToSerialized(after)) else before
  }

  /** A durable store reopened on the file an operation that persisted left behind starts where it ended. */
  lemma PersistedFileReopens(before: Option<SerializedState>, after: Store)
    requires after.Valid()
    ensures FileContents(FileAfter(true, true, before, after)) == after
  {
    ReopenRestoresState(after);
  }

  /**
   * `EngineStorage`: the four maps and the audit list, and `persist`. The
   * in-memory provider's `persist` does nothing; the JSON-file provider's
   * writes a snapshot of the current contents to its file.
   */
  class EngineStorage {
    var policies: Dict<string, Policy>
    var bucketStates: Dict<StateKey, BucketState>
    var windowStates: Dict<StateKey, WindowCounterState>
    var idempotencyStore: Dict<IdempotencyKey, IdempotencyEntry>
    var auditEvents: seq<AuditEvent>
    /** Whether `persist` writes a snapshot file. */
    const durable: bool
    /** The snapshot file: what it held when the store was opened, then the last snapshot written. */
    var file: Option<SerializedState>

    /** The state the engine reads and writes: everything but the file. */
    function Contents(): Store
      reads this`policies, this`bucketStates, this`windowStates, this`idempotencyStore, this`auditEvents
    {
      Store(policies, bucketStates, windowStates, idempotencyStore, auditEvents)
    }

    /** `createInMemoryEngineStorage`. */
    constructor InMemory()
      ensures Contents() == InMemoryContents() && Contents().Valid()
      ensures !durable && file == None
    {
      policies := [];
      bucketStates := [];
      windowStates := [];
      idempotencyStore := [];
      auditEvents := [];
      durable := false;
      file := None;
    }

    /** `createJsonFileEngineStorage` over a file holding `raw` (`None`: missing or unparsable). */
    constructor JsonFile(raw: Option<SerializedState>)
      ensures Contents() == FileContents(raw) && Contents().Valid()
      ensures durable && file == raw
    {
      var s := FileContents(raw);
      policies := s.policies;
      bucketStates := s.bucketStates;
      windowStates := s.windowStates;
      idempotencyStore := s.idempotencyStore;
      auditEvents := s.auditEvents;
      durable := true;
      file := raw;
    }

    /** `persist`: a durable store writes its current contents; the in-memory one does nothing. */
    method Persist()
      modifies this`file
      ensures file == FileAfter(durable, true, old(file), Contents())
    {
      if durable {
        file := Some(ToSerialized(Contents()));
      }
    }
  }

  // ---------------------------------------------------------------------
  // Facts the loops need

  /** Deleting the key of the entry the sweep has reached removes exactly that entry. */
  lemma SweepDeleteStep(entries: Dict<IdempotencyKey, IdempotencyEntry>, i: nat, nowMs: int)
    requires Unique(entries) && i < |entries|
    ensures Delete(Sweep(entries[..i], nowMs) + entries[i..], entries[i].0) == Sweep(entries[..i], nowMs) + entries[i + 1..]
  {
    var k := entries[i].0;
    var kept := Sweep(entries[..i], nowMs);
    assert !HasKey(kept, k) by {
      forall j | 0 <= j < |kept| ensures kept[j].0 != k {
        assert kept[j] in entries[..i];
        var p :| 0 <= p < i && entries[..i][p] == kept[j];
        assert entries[p] == kept[j];
      }
    }
    var tail := entries[i + 1..];
    assert !HasKey(tail, k) by {
      forall j | 0 <= j < |tail| ensures tail[j].0 != k {
        assert tail[j] == entries[i + 1 + j];
      }
    }
    var rest := entries[i..];
    assert rest[0].0 == k && rest[1..] == tail;
    assert Delete(rest, k) == Delete(tail, k);
    DeleteAbsent(tail, k);
    DeleteBehind(kept, rest, k);
  }

  /** The sweep of one more entry. */
  lemma SweepSnoc(entries: Dict<IdempotencyKey, IdempotencyEntry>, i: nat, nowMs: int)
    requires i < |entries|
    ensures Sweep(entries[..i + 1], nowMs) ==
      if entries[i].1.expiresAtMs > nowMs then Sweep(entries[..i], nowMs) + [entries[i]] else Sweep(entries[..i], nowMs)
    ensures AnyExpired(entries[..i + 1], nowMs) <==> AnyExpired(entries[..i], nowMs) || entries[i].1.expiresAtMs <= nowMs
  {
    assert entries[..i + 1][..i] == entries[..i];
    assert entries[..i + 1][i] == entries[i];
    if AnyExpired(entries[..i + 1], nowMs) {
      var j :| 0 <= j < i + 1 && entries[..i + 1][j].1.expiresAtMs <= nowMs;
      if j < i {
        assert entries[..i][j] == entries[..i + 1][j];
      }
    }
    if AnyExpired(entries[..i], nowMs) {
      var j :| 0 <= j < i && entries[..i][j].1.expiresAtMs <= nowMs;
      assert entries[..i + 1][j] == entries[..i][j];
    }
  }

  /**
   * One turn of the cleanup loop: with the first `i` entries swept and the
   * rest untouched, deleting entry `i` when it has expired, and keeping it
   * otherwise, leaves the first `i + 1` entries swept.
   */
  lemma SweepStep(entries: Dict<IdempotencyKey, IdempotencyEntry>, i: nat, nowMs: int)
    requires Unique(entries) && i < |entries|
    ensures entries[i].1.expiresAtMs <= nowMs ==>
      Delete(Sweep(entries[..i], nowMs) + entries[i..], entries[i].0) == Sweep(entries[..i + 1], nowMs) + entries[i + 1..]
    ensures entries[i].1.expiresAtMs > nowMs ==>
      Sweep(entries[..i], nowMs) + entries[i..] == Sweep(entries[..i + 1], nowMs) + entries[i + 1..]
    ensures AnyExpired(entries[..i + 1], nowMs) <==> AnyExpired(entries[..i], nowMs) || entries[i].1.expiresAtMs <= nowMs
  {
    SweepSnoc(entries, i, nowMs);
    if entries[i].1.expiresAtMs <= nowMs {
      SweepDeleteStep(entries, i, nowMs);
    } else {
      MoveFrontAcross(Sweep(entries[..i], nowMs), entries, i);
    }
  }

  /** Once the loop has reached the end, the front part is everything and the back part is empty. */
  lemma WholeAcross<T>(front: seq<T>, s: seq<T>)
    ensures front + s[|s|..] == front && s[..|s|] == s
  {
  }

  /** The prefix one longer is the prefix and the next element. */
  lemma PrefixStep<T>(s: seq<T>, i: nat)
    requires i < |s|
    ensures s[..i + 1][..i] == s[..i] && s[..i + 1][i] == s[i]
  {
  }

  /** Moving the first element of the back part to the end of the front part keeps the whole. */
  lemma MoveFrontAcross<T>(front: seq<T>, s: seq<T>, i: nat)
    requires i < |s|
    ensures front + s[i..] == (front + [s[i]]) + s[i + 1..]
  {
    assert s[i..] == [s[i]] + s[i + 1..];
  }

  /** Once a limit fails, every longer evaluation fails with its error. */
  lemma EvaluationStopsAt(call: Call, s: Store, i: nat, n: nat)
    requires i < n <= |call.policy.body.limits|
    requires EvaluateLimits(call, s, i).Success? && Step(call, s, i).Failure?
    ensures EvaluateLimits(call, s, n) == Failure(Step(call, s, i).error)
  {
    var r := EvaluateLimits(call, s, n);
    assert r.Failure?;
    var k :| 0 <= k < n && Step(call, s, k) == Failure(r.error) && forall j :: 0 <= j < k ==> Step(call, s, j).Success?;
    assert k == i;
  }

  /** The limit loop stops at the first limit with an error, and reports none when it passes them all. */
  lemma {:induction false} FirstLimitErrorAt(limits: seq<Limit>, i: nat)
    requires i <= |limits|
    requires forall j :: 0 <= j < i ==> LimitError(limits[j]).None?
    requires i < |limits| ==> LimitError(limits[i]).Some?
    ensures FirstLimitError(limits) == if i == |limits| then None else LimitError(limits[i])
  {
    if i > 0 {
      assert LimitError(limits[0]).None?;
      forall j | 0 <= j < i - 1 ensures LimitError(limits[1..][j]).None? {
        assert limits[1..][j] == limits[j + 1];
      }
      if i < |limits| {
        assert limits[1..][i - 1] == limits[i];
      }
      FirstLimitErrorAt(limits[1..], i - 1);
    }
  }

  // ---------------------------------------------------------------------
  // The engine

  /** `RateLimiterEngine`: its storage and the lifetime of cached decisions. The clock is each call's `clockMs`. */
  class RateLimiterEngine {
    const storage: EngineStorage
    const idempotencyTtlMs: int

    /** `idempotency_ttl_ms` defaults to ten minutes, the storage to a fresh in-memory one. */
    constructor(ttlMs: Option<int>, given: Option<EngineStorage>)
      ensures idempotencyTtlMs == ttlMs.GetOr(DEFAULT_IDEMPOTENCY_TTL_MS)
      ensures given.Some? ==> storage == given.value
      ensures given.None? ==> fresh(storage) && storage.Contents() == InMemoryContents() && !storage.durable
    {
      idempotencyTtlMs := ttlMs.GetOr(DEFAULT_IDEMPOTENCY_TTL_MS);
      if given.Some? {
        storage := given.value;
      } else {
        storage := new EngineStorage.InMemory();
      }
    }

    /** `validatePolicy`: the checks before the loop, then the loop over the limits. */
    static method ValidatePolicy(policy: PolicyBody) returns (r: Option<EngineError>)
      ensures r == PolicyError(policy)
    {
      r := PolicyHeaderError(policy);
      if r.None? {
        r := CheckLimits(policy.limits);
      }
    }

    /** The `for` loop of `validatePolicy`: the first limit that breaks a rule gives the error. */
    static method CheckLimits(limits: seq<Limit>) returns (r: Option<EngineError>)
      ensures r == FirstLimitError(limits)
    {
      var i := 0;
      while i < |limits|
        invariant 0 <= i <= |limits|
        invariant forall j :: 0 <= j < i ==> LimitError(limits[j]).None?
      {
        var e := LimitError(limits[i]);
        if e.Some? {
          FirstLimitErrorAt(limits, i);
          return e;
        }
        i := i + 1;
      }
      FirstLimitErrorAt(limits, i);
      return None;
    }

    /** `upsertPolicy`. */
    method UpsertPolicy(input: PolicyBody, nowMs: int) returns (r: Result<Policy, EngineError>)
      modifies storage`policies, storage`file
      ensures var o := EngineSpec.UpsertPolicy(old(storage.Contents()), input, nowMs);
        && r == o.result && storage.Contents() == o.store
        && storage.file == FileAfter(storage.durable, o.persisted, old(storage.file), storage.Contents())
    {
      var e := ValidatePolicy(input);
      if e.Some? {
        return Failure(e.value);
      }
      var existing := Get(storage.policies, input.policyId);
      var createdAt := if existing.Some? then existing.value.createdAt else nowMs;
      var next := Policy(input, createdAt, nowMs);
      PutPolicy(input.policyId, next);
      return Success(next);
    }

    /** `policies.set` followed by `persistStorage`. */
    method PutPolicy(policyId: string, policy: Policy)
      modifies storage`policies, storage`file
      ensures storage.Contents() == old(storage.Contents()).(policies := Set(old(storage.policies), policyId, policy))
      ensures storage.file == FileAfter(storage.durable, true, old(storage.file), storage.Contents())
    {
      ghost var before := storage.Contents();
      var next := Set(storage.policies, policyId, policy);
      storage.policies := next;
      assert storage.Contents() == before.(policies := next);
      storage.Persist();
    }

    /** `listPolicies`. */
    method ListPolicies(tenantId: Option<string>) returns (r: seq<Policy>)
      ensures r == Selection.ListPolicies(storage.policies, tenantId)
      ensures forall p :: p in r <==> p in Values(storage.policies) && InTenant(p, tenantId)
    {
      r := Selection.ListPolicies(storage.policies, tenantId);
    }

    /** `patchPolicy`. */
    method PatchPolicy(policyId: string, patch: PolicyPatch, nowMs: int) returns (r: Result<Policy, EngineError>)
      modifies storage`policies, storage`file
      ensures var o := EngineSpec.PatchPolicy(old(storage.Contents()), policyId, patch, nowMs);
        && r == o.result && storage.Contents() == o.store
        && storage.file == FileAfter(storage.durable, o.persisted, old(storage.file), storage.Contents())
    {
      var policy := Get(storage.policies, policyId);
      if policy.None? {
        return Failure(NotFoundError("policy not found: " + policyId));
      }
      var next := ApplyPatch(policy.value, patch, nowMs);
      var e := ValidatePolicy(next.body);
      if e.Some? {
        return Failure(e.value);
      }
      PutPolicy(policyId, next);
      return Success(next);
    }

    /** `cleanupIdempotency`: delete every expired entry, and persist if any was deleted. */
    method CleanupIdempotency(nowMs: int) returns (mutated: bool)
      requires Unique(storage.idempotencyStore)
      modifies storage`idempotencyStore, storage`file
      ensures storage.idempotencyStore == Sweep(old(storage.idempotencyStore), nowMs)
      ensures mutated == AnyExpired(old(storage.idempotencyStore), nowMs)
      ensures storage.file == FileAfter(storage.durable, mutated, old(storage.file), storage.Contents())
    {
      mutated := DeleteExpired(nowMs);
      if mutated {
        storage.Persist();
      }
    }

    /**
     * The loop of `cleanupIdempotency`: walk the cache's entries in order,
     * deleting each expired one from the working copy that becomes the cache.
     */
    method DeleteExpired(nowMs: int) returns (mutated: bool)
      requires Unique(storage.idempotencyStore)
      modifies storage`idempotencyStore
      ensures storage.idempotencyStore == Sweep(old(storage.idempotencyStore), nowMs)
      ensures mutated == AnyExpired(old(storage.idempotencyStore), nowMs)
    {
      var entries := storage.idempotencyStore;
      var store := entries;
      mutated := false;
      var i := 0;
      while i < |entries|
        invariant 0 <= i <= |entries|
        invariant store == Sweep(entries[..i], nowMs) + entries[i..]
        invariant mutated == AnyExpired(entries[..i], nowMs)
      {
        var key := entries[i].0;
        SweepStep(entries, i, nowMs);
        if entries[i].1.expiresAtMs <= nowMs {
          store := Delete(store, key);
          mutated := true;
        }
        i := i + 1;
      }
      WholeAcross(Sweep(entries[..i], nowMs), entries);
      storage.idempotencyStore := store;
    }

    /** The `forEach` over the policy's limits: each evaluated in order against the same state. */
    method EvaluateAll(call: Call) returns (r: Result<seq<LimitEvaluation>, EngineError>)
      ensures r == EvaluateLimits(call, storage.Contents(), |call.policy.body.limits|)
    {
      var limits := call.policy.body.limits;
      var evaluations := [];
      var i := 0;
      while i < |limits|
        invariant 0 <= i <= |limits|
        invariant EvaluateLimits(call, storage.Contents(), i) == Success(evaluations)
      {
        var e := EvaluateLimit(limits[i], call.policy, call.request, i, call.cost, call.nowMs, call.dryRun,
                               storage.bucketStates, storage.windowStates);
        assert e == Step(call, storage.Contents(), i);
        if e.Failure? {
          EvaluationStopsAt(call, storage.Contents(), i, |limits|);
          return Failure(e.error);
        }
        evaluations := evaluations + [e.value];
        i := i + 1;
      }
      r := Success(evaluations);
    }

    /** An evaluation's `apply`: store the limit's new state under its key, then persist. */
    method RunCommit(c: Commit)
      modifies storage`bucketStates, storage`windowStates, storage`file
      ensures c.PutBucket? ==>
        storage.Contents() == old(storage.Contents()).(bucketStates := Set(old(storage.bucketStates), c.key, c.bucket))
      ensures c.PutWindow? ==>
        storage.Contents() == old(storage.Contents()).(windowStates := Set(old(storage.windowStates), c.key, c.window))
      ensures storage.file == FileAfter(storage.durable, true, old(storage.file), storage.Contents())
    {
      ghost var before := storage.Contents();
      match c {
        case PutBucket(key, bucket) =>
          var next := Set(storage.bucketStates, key, bucket);
          storage.bucketStates := next;
          assert storage.Contents() == before.(bucketStates := next);
        case PutWindow(key, window) =>
          var next := Set(storage.windowStates, key, window);
          storage.windowStates := next;
          assert storage.Contents() == before.(windowStates := next);
      }
      storage.Persist();
    }

    /** The second `forEach`: run each evaluation's write, persisting after each. */
    method ApplyAll(es: seq<LimitEvaluation>) returns (wrote: bool)
      modifies storage`bucketStates, storage`windowStates, storage`file
      ensures storage.Contents() == ApplyCommits(old(storage.Contents()), es)
      ensures wrote <==> exists i :: 0 <= i < |es| && es[i].apply.Some?
      ensures storage.file == FileAfter(storage.durable, wrote, old(storage.file), storage.Contents())
    {
      wrote := false;
      var i := 0;
      while i < |es|
        invariant 0 <= i <= |es|
        invariant storage.Contents() == ApplyCommits(old(storage.Contents()), es[..i])
        invariant wrote <==> exists j :: 0 <= j < i && es[j].apply.Some?
        invariant storage.file == FileAfter(storage.durable, wrote, old(storage.file), storage.Contents())
      {
        PrefixStep(es, i);
        if es[i].apply.Some? {
          RunCommit(es[i].apply.value);
          wrote := true;
        }
        i := i + 1;
      }
      WholeAcross([], es);
    }

    /** Select the policy, evaluate its limits, combine their results, and commit an allowed real request. */
    method Decide(request: ConsumeRequest, cost: real, nowMs: int, dryRun: bool)
      returns (r: Result<Decision, EngineError>, persisted: bool)
      modifies storage`bucketStates, storage`windowStates, storage`file
      ensures var o := EngineSpec.Decide(old(storage.Contents()), request, cost, nowMs, dryRun);
        && r == o.result && storage.Contents() == o.store && persisted == o.persisted
        && storage.file == FileAfter(storage.durable, persisted, old(storage.file), storage.Contents())
    {
      var policy := SelectPolicy(storage.policies, request.tenantId, request.subject, request.resource);
      if policy.None? {
        return Success(IMPLICIT_ALLOW), false;
      }
      var call := Call(policy.value, request, cost, nowMs, dryRun);
      var evaluations := EvaluateAll(call);
      if evaluations.Failure? {
        return Failure(evaluations.error), false;
      }
      var decision := Aggregate(policy.value.body.policyId, Results(evaluations.value));
      persisted := false;
      if decision.allowed && !dryRun {
        AllowedLimitsAllWrite(storage.Contents(), call);
        persisted := ApplyAll(evaluations.value);
        assert persisted <==> |evaluations.value| > 0 by {
          if |evaluations.value| > 0 {
            assert evaluations.value[0].apply.Some?;
          }
        }
      }
      r := Success(decision);
    }

    /** `evaluate`: validate, then run the exclusive section at the request's own time, or the clock's. */
    method Evaluate(request: ConsumeRequest, clockMs: int) returns (r: Result<Decision, EngineError>)
      requires storage.Contents().Valid()
      modifies storage`bucketStates, storage`windowStates, storage`idempotencyStore, storage`file
      ensures var o := EngineSpec.Evaluate(old(storage.Contents()), request, clockMs, idempotencyTtlMs);
        && r == o.result && storage.Contents() == o.store
        && storage.file == FileAfter(storage.durable, o.persisted, old(storage.file), storage.Contents())
      ensures storage.Contents().Valid()
    {
      var invalid := RequestError(request);
      if invalid.Some? {
        return Failure(invalid.value);
      }
      var cost := request.cost.GetOr(1.0);
      var dryRun := request.dryRun.GetOr(false);
      r := Admitted(request, request.now.GetOr(clockMs), Fingerprint(request, cost, dryRun));
    }

    /**
     * The exclusive section: sweep the cache, answer from it or refuse a
     * reused request id, or decide and cache the decision.
     */
    method Admitted(request: ConsumeRequest, nowMs: int, hash: Value) returns (r: Result<Decision, EngineError>)
      requires storage.Contents().Valid()
      modifies storage`bucketStates, storage`windowStates, storage`idempotencyStore, storage`file
      ensures var o := EngineSpec.Admitted(old(storage.Contents()), request, nowMs, idempotencyTtlMs, hash);
        && r == o.result && storage.Contents() == o.store
        && storage.file == FileAfter(storage.durable, o.persisted, old(storage.file), storage.Contents())
      ensures storage.Contents().Valid()
    {
      var swept := CleanupIdempotency(nowMs);
      var key := IdempotencyKeyOf(request);
      var cached := CachedEntry(storage.idempotencyStore, key, nowMs);
      if cached.Some? {
        if cached.value.payloadHash != hash {
          return Failure(IdempotencyConflictError(CONFLICT_MESSAGE));
        }
        return Success(cached.value.decision);
      }
      r := DecideAndCache(request, nowMs, hash, swept, old(storage.file));
    }

    /** On a cache miss: decide, and cache a decision under the request's id, if it has one. */
    method DecideAndCache(request: ConsumeRequest, nowMs: int, hash: Value, swept: bool,
                          ghost fileBefore: Option<SerializedState>)
      returns (r: Result<Decision, EngineError>)
      requires storage.file == FileAfter(storage.durable, swept, fileBefore, storage.Contents())
      modifies storage`bucketStates, storage`windowStates, storage`idempotencyStore, storage`file
      ensures var o := Finish(EngineSpec.Decide(old(storage.Contents()), request, request.cost.GetOr(1.0), nowMs,
                                                request.dryRun.GetOr(false)),
                              swept, IdempotencyKeyOf(request), hash, nowMs + idempotencyTtlMs);
        && r == o.result && storage.Contents() == o.store
        && storage.file == FileAfter(storage.durable, o.persisted, fileBefore, storage.Contents())
    {
      var key := IdempotencyKeyOf(request);
      var decided, persisted := Decide(request, request.cost.GetOr(1.0), nowMs, request.dryRun.GetOr(false));
      if decided.Success? && key.Some? {
        PutEntry(key.value, IdempotencyEntry(hash, decided.value, nowMs + idempotencyTtlMs));
      }
      r := decided;
    }

    /** `idempotencyStore.set` followed by `persistStorage`. */
    method PutEntry(key: IdempotencyKey, entry: IdempotencyEntry)
      modifies storage`idempotencyStore, storage`file
      ensures storage.Contents() ==
        old(storage.Contents()).(idempotencyStore := Set(old(storage.idempotencyStore), key, entry))
      ensures storage.file == FileAfter(storage.durable, true, old(storage.file), storage.Contents())
    {
      ghost var before := storage.Contents();
      var next := Set(storage.idempotencyStore, key, entry);
      storage.idempotencyStore := next;
      assert storage.Contents() == before.(idempotencyStore := next);
      storage.Persist();
    }

    /** `consume`: a request without `dry_run` is a real one. */
    method Consume(request: ConsumeRequest, clockMs: int) returns (r: Result<Decision, EngineError>)
      requires storage.Contents().Valid()
      modifies storage`bucketStates, storage`windowStates, storage`idempotencyStore, storage`file
      ensures var o := EngineSpec.Consume(old(storage.Contents()), request, clockMs, idempotencyTtlMs);
        && r == o.result && storage.Contents() == o.store
        && storage.file == FileAfter(storage.durable, o.persisted, old(storage.file), storage.Contents())
      ensures storage.Contents().Valid()
    {
      r := Evaluate(request.(dryRun := Some(request.dryRun.GetOr(false))), clockMs);
    }

    /** `check`: always a dry run. */
    method Check(request: ConsumeRequest, clockMs: int) returns (r: Result<Decision, EngineError>)
      requires storage.Contents().Valid()
      modifies storage`bucketStates, storage`windowStates, storage`idempotencyStore, storage`file
      ensures var o := EngineSpec.Check(old(storage.Contents()), request, clockMs, idempotencyTtlMs);
        && r == o.result && storage.Contents() == o.store
        && storage.file == FileAfter(storage.durable, o.persisted, old(storage.file), storage.Contents())
      ensures storage.Contents().Valid()
    {
      r := Evaluate(request.(dryRun := Some(true)), clockMs);
    }
  }
}
