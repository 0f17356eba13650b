/**
 * A burst: real `consume` calls for one tenant, subject and resource, all
 * at the same instant with the same cost and fresh request ids, run one
 * after another (the engine's per-tenant lock serialises them). Each limit
 * of the matching policy admits at most what it still holds: a token
 * bucket its refilled tokens, a fixed window the rest of its allowance, so
 * a burst on a fresh key is allowed at most `floor(bound / cost)` times
 * for every limit's bound.
 */
module Burst {
  import opened Wrappers
  import opened Json
  import opened Dict
  import opened Models
  import opened Keys
  import opened Storage
  import opened Validation
  import opened Selection
  import opened Limiters
  import opened Aggregation
  import opened EngineSpec
  import opened EngineProperties

  /** The call succeeded and its decision allows. */
  predicate Allowed(o: Outcome<Decision>) {
    o.result.Success? && o.result.value.allowed
  }

  /**
   * What limit `i` of the policy still admits for the request's subject and
   * resource at `nowMs`. A zero-length window admits nothing: its
   * evaluation fails.
   */
  function Headroom(s: Store, policy: Policy, request: ConsumeRequest, i: nat, nowMs: int): real
    requires i < |policy.body.limits|
  {
    var limit := policy.body.limits[i];
    var key := StateKeyOf(policy, request, i, limit.Kind());
    if limit.TokenBucket? then Available(limit, Get(s.bucketStates, key), nowMs)
    else if limit.windowSeconds == 0 then 0.0
    else Allowance(limit, Get(s.windowStates, key), nowMs)
  }

  /** A request id that is absent, or whose cache entry has expired by `nowMs`. */
  predicate Unseen(d: Dict<IdempotencyKey, IdempotencyEntry>, key: Option<IdempotencyKey>, nowMs: int) {
    key.Some? ==> Get(d, key.value).None? || Get(d, key.value).value.expiresAtMs <= nowMs
  }

  // ---------------------------------------------------------------------
  // One call. The lemmas here state their hypotheses as implications, so a
  // caller reasoning about a whole `consume` has no preconditions to check.

  /** Limit `i` of a policy sees the same state for every request with the template's subject and resource. */
  lemma HeadroomOfTarget(s: Store, policy: Policy, request: ConsumeRequest, template: ConsumeRequest, i: nat, nowMs: int)
    ensures i < |policy.body.limits| && request.subject == template.subject && request.resource == template.resource ==>
      Headroom(s, policy, request, i, nowMs) == Headroom(s, policy, template, i, nowMs)
  {
    if i < |policy.body.limits| && request.subject == template.subject && request.resource == template.resource {
      assert StateKeyOf(policy, request, i, policy.body.limits[i].Kind()) ==
             StateKeyOf(policy, template, i, policy.body.limits[i].Kind());
    }
  }

  /**
   * Once the cache has missed, an allowed real decision takes exactly the
   * cost from limit `i`'s headroom, which covered it; any other decision
   * leaves the limiter state as it was.
   */
  lemma DecideSpendsHeadroom(s: Store, request: ConsumeRequest, cost: real, nowMs: int, policy: Policy, i: nat)
    ensures && SelectPolicy(s.policies, request.tenantId, request.subject, request.resource) == Some(policy)
            && i < |policy.body.limits| && cost > 0.0 ==>
      var o := Decide(s, request, cost, nowMs, false);
      && (Allowed(o) ==>
            && cost <= Headroom(s, policy, request, i, nowMs)
            && Headroom(o.store, policy, request, i, nowMs) == Headroom(s, policy, request, i, nowMs) - cost)
      && (!Allowed(o) ==> o.store.bucketStates == s.bucketStates && o.store.windowStates == s.windowStates)
  {
    var o := Decide(s, request, cost, nowMs, false);
    var call := Call(policy, request, cost, nowMs, false);
    var evaluations := EvaluateLimits(call, s, |policy.body.limits|);
    if && SelectPolicy(s.policies, request.tenantId, request.subject, request.resource) == Some(policy)
       && i < |policy.body.limits| && cost > 0.0 && Allowed(o) {
      var es := evaluations.value;
      assert Aggregate(policy.body.policyId, Results(es)).allowed;
      assert o.store == ApplyCommits(s, es);
      AllowCommitsEveryLimit(s, call);
      assert Results(es)[i].allowed;
      var limit := policy.body.limits[i];
      var key := StateKeyOf(policy, request, i, limit.Kind());
      assert es[i] == Step(call, s, i).value;
      if limit.TokenBucket? {
        assert es[i] == EvaluateTokenBucket(limit, key, Get(s.bucketStates, key), cost, nowMs, false).value;
        AllowedSpendsCost(limit, key, Get(s.bucketStates, key), cost, nowMs);
        assert Get(o.store.bucketStates, key) == Some(es[i].apply.value.bucket);
      } else {
        assert es[i] == EvaluateFixedWindow(limit, key, Get(s.windowStates, key), cost, nowMs, false).value;
        AllowedUsesCost(limit, key, Get(s.windowStates, key), cost, nowMs);
        assert Get(o.store.windowStates, key) == Some(es[i].apply.value.window);
      }
    }
  }

  /** The sweep keeps an unseen id unseen, so the cache misses on it. */
  lemma SweepKeepsUnseen(d: Dict<IdempotencyKey, IdempotencyEntry>, key: Option<IdempotencyKey>, nowMs: int)
    ensures Unique(d) && Unseen(d, key, nowMs) ==>
      Unseen(Sweep(d, nowMs), key, nowMs) && CachedEntry(Sweep(d, nowMs), key, nowMs).None?
  {
    if Unique(d) && key.Some? {
      SweepLookup(d, nowMs, key.value);
    }
  }

  /** Finishing caches under the request's own id only. */
  lemma FinishKeepsOtherIds(o: Outcome<Decision>, sweptPersisted: bool, key: Option<IdempotencyKey>, hash: Value,
                            expiresAtMs: int, k: IdempotencyKey)
    ensures key != Some(k) ==>
      Get(Finish(o, sweptPersisted, key, hash, expiresAtMs).store.idempotencyStore, k) == Get(o.store.idempotencyStore, k)
  {
  }

  /** The exclusive section: a cache hit changes only the cache, by the sweep; a miss decides and finishes. */
  lemma AdmittedCases(st: Store, request: ConsumeRequest, nowMs: int, ttlMs: int, hash: Value)
    ensures var swept := st.(idempotencyStore := Sweep(st.idempotencyStore, nowMs));
      if CachedEntry(swept.idempotencyStore, IdempotencyKeyOf(request), nowMs).Some?
      then Admitted(st, request, nowMs, ttlMs, hash).store == swept
      else (Admitted(st, request, nowMs, ttlMs, hash) ==
        Finish(Decide(swept, request, request.cost.GetOr(1.0), nowMs, request.dryRun.GetOr(false)),
               AnyExpired(st.idempotencyStore, nowMs), IdempotencyKeyOf(request), hash, nowMs + ttlMs))
  {
  }

  /** `consume`: a rejected request changes nothing; a valid one enters the exclusive section at its own time. */
  lemma ConsumeCases(st: Store, request: ConsumeRequest, clockMs: int, ttlMs: int)
    ensures var actual := request.(dryRun := Some(request.dryRun.GetOr(false)));
      var o := Consume(st, request, clockMs, ttlMs);
      if RequestError(actual).Some? then o.store == st && o.result.Failure?
      else o == Admitted(st, actual, request.now.GetOr(clockMs), ttlMs,
                         Fingerprint(actual, actual.cost.GetOr(1.0), actual.dryRun.GetOr(false)))
  {
  }

  /**
   * The exclusive section of a real request with a positive cost and an
   * unseen id: the cache misses, so the decision is made and spends limit
   * `i`'s headroom exactly as `DecideSpendsHeadroom` says.
   */
  lemma AdmittedSpendsHeadroom(st: Store, request: ConsumeRequest, nowMs: int, ttlMs: int, hash: Value,
                               policy: Policy, i: nat)
    ensures && Unique(st.idempotencyStore)
            && request.dryRun == Some(false) && request.cost.GetOr(1.0) > 0.0
            && SelectPolicy(st.policies, request.tenantId, request.subject, request.resource) == Some(policy)
            && i < |policy.body.limits|
            && Unseen(st.idempotencyStore, IdempotencyKeyOf(request), nowMs) ==>
      var o := Admitted(st, request, nowMs, ttlMs, hash);
      var cost := request.cost.GetOr(1.0);
      && (Allowed(o) ==>
            && cost <= Headroom(st, policy, request, i, nowMs)
            && Headroom(o.store, policy, request, i, nowMs) == Headroom(st, policy, request, i, nowMs) - cost)
      && (!Allowed(o) ==> o.store.bucketStates == st.bucketStates && o.store.windowStates == st.windowStates)
  {
    var swept := st.(idempotencyStore := Sweep(st.idempotencyStore, nowMs));
    SweepKeepsUnseen(st.idempotencyStore, IdempotencyKeyOf(request), nowMs);
    AdmittedCases(st, request, nowMs, ttlMs, hash);
    DecideSpendsHeadroom(swept, request, request.cost.GetOr(1.0), nowMs, policy, i);
  }

  /**
   * One real `consume` whose request id is unseen, under a matching policy:
   * when it is allowed its cost was positive and within limit `i`'s
   * headroom, and the headroom drops by exactly that cost; otherwise the
   * headroom is unchanged.
   */
  lemma ConsumeSpendsHeadroom(st: Store, request: ConsumeRequest, clockMs: int, ttlMs: int, policy: Policy, i: nat)
    ensures && st.Valid() && request.dryRun != Some(true)
            && SelectPolicy(st.policies, request.tenantId, request.subject, request.resource) == Some(policy)
            && i < |policy.body.limits|
            && Unseen(st.idempotencyStore, IdempotencyKeyOf(request), request.now.GetOr(clockMs)) ==>
      var o := Consume(st, request, clockMs, ttlMs);
      var nowMs := request.now.GetOr(clockMs);
      var cost := request.cost.GetOr(1.0);
      && (Allowed(o) ==>
            && 0.0 < cost <= Headroom(st, policy, request, i, nowMs)
            && Headroom(o.store, policy, request, i, nowMs) == Headroom(st, policy, request, i, nowMs) - cost)
      && (!Allowed(o) ==> Headroom(o.store, policy, request, i, nowMs) == Headroom(st, policy, request, i, nowMs))
  {
    var actual := request.(dryRun := Some(request.dryRun.GetOr(false)));
    var nowMs := request.now.GetOr(clockMs);
    ConsumeCases(st, request, clockMs, ttlMs);
    AdmittedSpendsHeadroom(st, actual, nowMs, ttlMs,
                           Fingerprint(actual, actual.cost.GetOr(1.0), actual.dryRun.GetOr(false)), policy, i);
    HeadroomOfTarget(st, policy, actual, request, i, nowMs);
    HeadroomOfTarget(Consume(st, request, clockMs, ttlMs).store, policy, actual, request, i, nowMs);
  }

  /** The exclusive section under another request id leaves an unseen id unseen. */
  lemma AdmittedKeepsUnseen(st: Store, request: ConsumeRequest, nowMs: int, ttlMs: int, hash: Value,
                            k: IdempotencyKey)
    ensures Unique(st.idempotencyStore) && IdempotencyKeyOf(request) != Some(k) &&
            Unseen(st.idempotencyStore, Some(k), nowMs) ==>
      Unseen(Admitted(st, request, nowMs, ttlMs, hash).store.idempotencyStore, Some(k), nowMs)
  {
    var swept := st.(idempotencyStore := Sweep(st.idempotencyStore, nowMs));
    SweepKeepsUnseen(st.idempotencyStore, Some(k), nowMs);
    AdmittedCases(st, request, nowMs, ttlMs, hash);
    FinishKeepsOtherIds(Decide(swept, request, request.cost.GetOr(1.0), nowMs, request.dryRun.GetOr(false)),
                        AnyExpired(st.idempotencyStore, nowMs), IdempotencyKeyOf(request), hash, nowMs + ttlMs, k);
  }

  /** A `consume` under another request id leaves an unseen id unseen. */
  lemma ConsumeKeepsUnseen(st: Store, request: ConsumeRequest, clockMs: int, ttlMs: int, k: IdempotencyKey)
    ensures Unique(st.idempotencyStore) && IdempotencyKeyOf(request) != Some(k) &&
            Unseen(st.idempotencyStore, Some(k), request.now.GetOr(clockMs)) ==>
      Unseen(Consume(st, request, clockMs, ttlMs).store.idempotencyStore, Some(k), request.now.GetOr(clockMs))
  {
    var actual := request.(dryRun := Some(request.dryRun.GetOr(false)));
    ConsumeCases(st, request, clockMs, ttlMs);
    AdmittedKeepsUnseen(st, actual, request.now.GetOr(clockMs), ttlMs,
                        Fingerprint(actual, actual.cost.GetOr(1.0), actual.dryRun.GetOr(false)), k);
  }

  /** A `consume` keeps the policies and keeps every map a map. */
  lemma ConsumeKeepsInvariants(st: Store, request: ConsumeRequest, clockMs: int, ttlMs: int)
    ensures Consume(st, request, clockMs, ttlMs).store.policies == st.policies
    ensures st.Valid() ==> Consume(st, request, clockMs, ttlMs).store.Valid()
  {
  }

  // ---------------------------------------------------------------------
  // A burst

  /** Steps taken in turn over a list of inputs: the final state and how many steps said yes. */
  function Run<S, Q>(step: (S, Q) -> (S, bool), s: S, qs: seq<Q>): (r: (S, nat))
    ensures r.1 <= |qs|
    decreases |qs|
  {
    if qs == [] then (s, 0)
    else
      var next := step(s, qs[0]);
      var rest := Run(step, next.0, qs[1..]);
      (rest.0, rest.1 + if next.1 then 1 else 0)
  }

  /** One real `consume`: the new state, and whether it was allowed. */
  function ConsumeStep(clockMs: int, ttlMs: int): (Store, ConsumeRequest) -> (Store, bool) {
    (s: Store, q: ConsumeRequest) => (Consume(s, q, clockMs, ttlMs).store, Allowed(Consume(s, q, clockMs, ttlMs)))
  }

  /** Real `consume` calls in turn: the final state and how many were allowed. */
  function ConsumeSequence(st: Store, requests: seq<ConsumeRequest>, clockMs: int, ttlMs: int): (r: (Store, nat))
    ensures r.1 <= |requests|
  {
    Run(ConsumeStep(clockMs, ttlMs), st, requests)
  }

  /**
   * Counting against a budget: when every step from a ready state leaves a
   * ready state and either pays `cost` out of the budget, which covered
   * it, or leaves the budget alone, the yes-steps of a run pay together at
   * most the budget they started from.
   */
  lemma {:induction false} RunWithinBudget<S, Q>(step: (S, Q) -> (S, bool), ready: (S, seq<Q>) -> bool,
                                                 budget: S -> real, cost: real, s: S, qs: seq<Q>)
    requires forall s', qs' :: ready(s', qs') && qs' != [] ==>
      && ready(step(s', qs'[0]).0, qs'[1..])
      && (step(s', qs'[0]).1 ==> 0.0 < cost <= budget(s') && budget(step(s', qs'[0]).0) == budget(s') - cost)
      && (!step(s', qs'[0]).1 ==> budget(step(s', qs'[0]).0) == budget(s'))
    ensures ready(s, qs) ==>
      var n := Run(step, s, qs).1;
      (n > 0 ==> cost > 0.0) && Total(n, cost) <= MaxReal(0.0, budget(s))
    decreases |qs|
  {
    if qs != [] && ready(s, qs) {
      var next := step(s, qs[0]);
      RunWithinBudget(step, ready, budget, cost, next.0, qs[1..]);
      CountStep(Run(step, next.0, qs[1..]).1, next.1, cost, budget(s), budget(next.0));
    }
  }

  /**
   * Every request targets the template's tenant, subject and resource, at
   * `nowMs`, with cost `cost`, and is not a dry run.
   */
  predicate SameBurst(requests: seq<ConsumeRequest>, template: ConsumeRequest, cost: real, nowMs: int, clockMs: int) {
    forall j :: 0 <= j < |requests| ==>
      && requests[j].tenantId == template.tenantId
      && requests[j].subject == template.subject
      && requests[j].resource == template.resource
      && requests[j].cost.GetOr(1.0) == cost
      && requests[j].now.GetOr(clockMs) == nowMs
      && requests[j].dryRun != Some(true)
  }

  /** No two requests share a request id. */
  predicate DistinctIds(requests: seq<ConsumeRequest>) {
    forall i, j :: 0 <= i < j < |requests| && IdempotencyKeyOf(requests[j]).Some? ==>
      IdempotencyKeyOf(requests[i]) != IdempotencyKeyOf(requests[j])
  }

  /** No request's id has a live cache entry at `nowMs`. */
  predicate AllUnseen(d: Dict<IdempotencyKey, IdempotencyEntry>, requests: seq<ConsumeRequest>, nowMs: int) {
    forall j :: 0 <= j < |requests| ==> Unseen(d, IdempotencyKeyOf(requests[j]), nowMs)
  }

  /**
   * A burst ready to run against `st`: a consistent state, a matching
   * policy with a limit `i`, the same target, time and cost throughout, and
   * request ids that are distinct and unseen.
   */
  ghost predicate Ready(st: Store, requests: seq<ConsumeRequest>, clockMs: int,
                        template: ConsumeRequest, cost: real, nowMs: int, policy: Policy, i: nat)
  {
    && st.Valid()
    && SameBurst(requests, template, cost, nowMs, clockMs)
    && DistinctIds(requests) && AllUnseen(st.idempotencyStore, requests, nowMs)
    && SelectPolicy(st.policies, template.tenantId, template.subject, template.resource) == Some(policy)
    && i < |policy.body.limits|
  }

  /** The rest of a burst is a burst, whose ids stay unseen when only the first id's entry may have changed. */
  lemma BurstTail(requests: seq<ConsumeRequest>, template: ConsumeRequest, cost: real, nowMs: int, clockMs: int,
                  before: Dict<IdempotencyKey, IdempotencyEntry>, after: Dict<IdempotencyKey, IdempotencyEntry>)
    ensures requests != [] && SameBurst(requests, template, cost, nowMs, clockMs) ==>
      SameBurst(requests[1..], template, cost, nowMs, clockMs)
    ensures requests != [] && DistinctIds(requests) ==> DistinctIds(requests[1..])
    ensures && requests != [] && DistinctIds(requests) && AllUnseen(before, requests, nowMs)
            && (forall k :: IdempotencyKeyOf(requests[0]) != Some(k) && Unseen(before, Some(k), nowMs) ==>
                  Unseen(after, Some(k), nowMs)) ==>
      AllUnseen(after, requests[1..], nowMs)
  {
    if requests != [] {
      var tail := requests[1..];
      forall j | 0 <= j < |tail| ensures tail[j] == requests[j + 1] { }
      if DistinctIds(requests) && AllUnseen(before, requests, nowMs) {
        forall j | 0 <= j < |tail| ensures IdempotencyKeyOf(tail[j]).Some? ==>
          IdempotencyKeyOf(requests[0]) != IdempotencyKeyOf(tail[j])
        {
          assert tail[j] == requests[j + 1];
        }
      }
    }
  }

  /** One call of a ready burst leaves the rest ready, and spends limit `i`'s headroom as `ConsumeSpendsHeadroom` says. */
  lemma BurstStep(st: Store, requests: seq<ConsumeRequest>, clockMs: int, ttlMs: int,
                  template: ConsumeRequest, cost: real, nowMs: int, policy: Policy, i: nat)
    ensures Ready(st, requests, clockMs, template, cost, nowMs, policy, i) && requests != [] ==>
      var o := Consume(st, requests[0], clockMs, ttlMs);
      && Ready(o.store, requests[1..], clockMs, template, cost, nowMs, policy, i)
      && (Allowed(o) ==>
            && 0.0 < cost <= Headroom(st, policy, template, i, nowMs)
            && Headroom(o.store, policy, template, i, nowMs) == Headroom(st, policy, template, i, nowMs) - cost)
      && (!Allowed(o) ==> Headroom(o.store, policy, template, i, nowMs) == Headroom(st, policy, template, i, nowMs))
  {
    if Ready(st, requests, clockMs, template, cost, nowMs, policy, i) && requests != [] {
      var q := requests[0];
      var o := Consume(st, q, clockMs, ttlMs);
      ConsumeSpendsHeadroom(st, q, clockMs, ttlMs, policy, i);
      ConsumeKeepsInvariants(st, q, clockMs, ttlMs);
      forall k | IdempotencyKeyOf(q) != Some(k) && Unseen(st.idempotencyStore, Some(k), nowMs)
        ensures Unseen(o.store.idempotencyStore, Some(k), nowMs)
      {
        ConsumeKeepsUnseen(st, q, clockMs, ttlMs, k);
      }
      BurstTail(requests, template, cost, nowMs, clockMs, st.idempotencyStore, o.store.idempotencyStore);
      HeadroomOfTarget(st, policy, q, template, i, nowMs);
      HeadroomOfTarget(o.store, policy, q, template, i, nowMs);
    }
  }

  /**
   * The allowed requests of a ready burst cost together at most what limit
   * `i` held before it (nothing when it held nothing), and a burst with a
   * non-positive cost is allowed nowhere.
   */
  lemma BurstWithinHeadroom(st: Store, requests: seq<ConsumeRequest>, clockMs: int, ttlMs: int,
                            template: ConsumeRequest, cost: real, nowMs: int, policy: Policy, i: nat)
    ensures Ready(st, requests, clockMs, template, cost, nowMs, policy, i) ==>
      var n := ConsumeSequence(st, requests, clockMs, ttlMs).1;
      && (n > 0 ==> cost > 0.0)
      && Total(n, cost) <= MaxReal(0.0, Headroom(st, policy, template, i, nowMs))
  {
    var step := ConsumeStep(clockMs, ttlMs);
    var ready := (s: Store, qs: seq<ConsumeRequest>) => Ready(s, qs, clockMs, template, cost, nowMs, policy, i);
    var budget := (s: Store) => if i < |policy.body.limits| then Headroom(s, policy, template, i, nowMs) else 0.0;
    forall s: Store, qs: seq<ConsumeRequest> | ready(s, qs) && qs != []
      ensures && ready(step(s, qs[0]).0, qs[1..])
              && (step(s, qs[0]).1 ==> 0.0 < cost <= budget(s) && budget(step(s, qs[0]).0) == budget(s) - cost)
              && (!step(s, qs[0]).1 ==> budget(step(s, qs[0]).0) == budget(s))
    {
      BurstStep(s, qs, clockMs, ttlMs, template, cost, nowMs, policy, i);
    }
    RunWithinBudget(step, ready, budget, cost, st, requests);
  }

  /** The total cost of `n` requests of cost `cost`. */
  function Total(n: nat, cost: real): real {
    if n == 0 then 0.0 else Total(n - 1, cost) + cost
  }

  lemma {:induction false} TotalIsProduct(n: nat, cost: real)
    ensures Total(n, cost) == n as real * cost
  {
    if n > 0 {
      TotalIsProduct(n - 1, cost);
      assert n as real * cost == (n - 1) as real * cost + cost;
    }
  }

  /** The arithmetic of one step: paying `cost` out of `h` keeps the total within what `h` held. */
  lemma CountStep(m: nat, allowed: bool, cost: real, h: real, next: real)
    ensures && (m > 0 ==> cost > 0.0) && Total(m, cost) <= MaxReal(0.0, next)
            && (allowed ==> 0.0 < cost <= h && next == h - cost)
            && (!allowed ==> next == h) ==>
      var n := m + if allowed then 1 else 0;
      (n > 0 ==> cost > 0.0) && Total(n, cost) <= MaxReal(0.0, h)
  {
    if allowed {
      assert Total(m + 1, cost) == Total(m, cost) + cost;
    }
  }

  /** The most a limit can ever hold at once: a bucket's capacity, a window's limit. */
  function Bound(limit: Limit): real {
    if limit.TokenBucket? then limit.capacity else limit.limit
  }

  /** A limit never holds more than its bound, given a non-negative stored window count. */
  lemma HeadroomWithinBound(s: Store, policy: Policy, request: ConsumeRequest, i: nat, nowMs: int)
    ensures i < |policy.body.limits| &&
            (var stored := Get(s.windowStates, StateKeyOf(policy, request, i, FixedWindowKind));
             policy.body.limits[i].FixedWindow? && stored.Some? ==> stored.value.used >= 0.0) ==>
      MaxReal(0.0, Headroom(s, policy, request, i, nowMs)) <= MaxReal(0.0, Bound(policy.body.limits[i]))
  {
  }

  /** A total of `n` positive costs within `bound` allows at most `floor(bound / cost)` requests. */
  lemma CountWithinFloor(n: nat, cost: real, bound: real)
    ensures cost > 0.0 && Total(n, cost) <= bound ==> n <= (bound / cost).Floor
  {
    if cost > 0.0 && Total(n, cost) <= bound {
      TotalIsProduct(n, cost);
      var q := bound / cost;
      assert q * cost == bound;
      assert n as real <= q;
    }
  }

  /** A stored count for a window of the policy, under the template's key, is never negative. */
  predicate CountsNonNegative(st: Store, policy: Policy, template: ConsumeRequest) {
    forall i :: 0 <= i < |policy.body.limits| && policy.body.limits[i].FixedWindow? ==>
      var stored := Get(st.windowStates, StateKeyOf(policy, template, i, FixedWindowKind));
      stored.Some? ==> stored.value.used >= 0.0
  }

  /**
   * The burst bound of a policy: a ready burst with a positive cost, in
   * which no stored window count is negative, is allowed at most
   * `floor(max(0, bound) / cost)` times for every limit, so at most the
   * least of these over the policy's limits.
   */
  lemma BurstWithinEveryLimit(st: Store, requests: seq<ConsumeRequest>, clockMs: int, ttlMs: int,
                              template: ConsumeRequest, cost: real, nowMs: int, policy: Policy)
    requires st.Valid()
    requires SameBurst(requests, template, cost, nowMs, clockMs)
    requires DistinctIds(requests) && AllUnseen(st.idempotencyStore, requests, nowMs)
    requires SelectPolicy(st.policies, template.tenantId, template.subject, template.resource) == Some(policy)
    requires CountsNonNegative(st, policy, template)
    requires cost > 0.0
    ensures var n := ConsumeSequence(st, requests, clockMs, ttlMs).1;
      forall i :: 0 <= i < |policy.body.limits| ==>
        n <= (MaxReal(0.0, Bound(policy.body.limits[i])) / cost).Floor
  {
    var n := ConsumeSequence(st, requests, clockMs, ttlMs).1;
    forall i | 0 <= i < |policy.body.limits|
      ensures n <= (MaxReal(0.0, Bound(policy.body.limits[i])) / cost).Floor
    {
      BurstWithinHeadroom(st, requests, clockMs, ttlMs, template, cost, nowMs, policy, i);
      HeadroomWithinBound(st, policy, template, i, nowMs);
      CountWithinFloor(n, cost, MaxReal(0.0, Bound(policy.body.limits[i])));
    }
  }
}
