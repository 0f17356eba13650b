# Rate limiter and quota engine, modelled in Dafny

This project models the decision core of a multi-tenant rate-limiting and quota service. The core has six parts:

- **Policies.** A tenant's policies are validated, stored, listed and patched.
- **Requests.** A `consume` or `check` request is validated. Then, inside the tenant's exclusive section, the engine:
  - sweeps expired entries from the idempotency cache;
  - answers a repeated request id from the cache, or refuses it when the payload differs;
  - selects the one active policy that matches the subject and resource, by highest priority and then smallest id;
  - evaluates each of the policy's limits against its per-key state;
  - combines the results into one decision;
  - commits every limit's new state only when the whole decision allows and the request is not a dry run;
  - caches the decision under the request id for the idempotency TTL.
- **Limit algorithms.** There are two: a token bucket (refill over time, capped at capacity, optional `max_cost`) and an epoch-aligned fixed window.
- **Fingerprints.** A request payload is reduced to a fingerprint that ignores the key order of objects.
- **Storage.** The storage holds four insertion-ordered maps and an audit list. Its `persist` writes a versioned snapshot (`schemaVersion` "v1"). A snapshot is read back only when its version matches.
- **Errors.** The engine raises `ValidationError`, `IdempotencyConflictError` and `NotFoundError`, plus the runtime's `RangeError` for a zero-length window.

The model is layered like the program:

- **Pure modules:** `Dict` (`Map` as an insertion-ordered list of pairs), `Json`, `Sorting`, `Hash`, `Models`, `Errors`, `Keys`, `Matching`, `Validation`, `Selection`, `Limiters`, `Aggregation` and `Storage`. They state what each calculation computes.
- **`EngineSpec`** states what every engine operation returns and what state it leaves, as functions of the stored state.
- **`Burst`** proves the bound on a burst: `consume` calls at one instant for one subject and resource, with distinct request ids, are allowed at most `floor(capacity / cost)` times for a token bucket and `floor(limit / cost)` times for a fixed window.
- **`EngineProperties`** proves the promises that span several calls. These include:
  - validation before any effect;
  - limiter state changes only for an allowed real request;
  - replay within the TTL;
  - conflicts on a reused request id;
  - every limit of an allowed decision commits under its own key;
  - policies stay keyed by their ids.
- **`Engine`** is the imperative part, as the program runs it:
  - an `EngineStorage` object whose map fields are updated in place and whose `persist` rewrites a snapshot file;
  - a `RateLimiterEngine` object whose methods step through the sweep loop, the validation loop, the loop over the limits and the loop running their writes.

  Each method is proved to leave exactly the state, and return exactly the result, that `EngineSpec` describes. Whenever the operation persisted to a durable store, the snapshot file holds the final state, and reopening that file restores it.

Time is an integer count of milliseconds. Calls that read the clock take it as a parameter: `clockMs` for requests, `nowMs` for policy writes. Token counts, costs, capacities, rates and window limits are reals. Window lengths are integers.

One behaviour is proved about the code as written (`Limiters.FreshDenialRepeats`). A token-bucket key whose first request is denied is not written by that request. As long as no request on that key is allowed, the key stays unwritten, and every later request starts it afresh from `initial_tokens`. So a cost above `initial_tokens` is denied again at any later time, whatever retry wait the first denial reported.

## Model

| member | source | states |
|---|---|---|
| Dict.Get | src/domain/rate-limiter-engine.ts:57 | `map.get(k)` is present exactly when the key is stored, and then the stored pair is in the map |
| Dict.Set | src/domain/rate-limiter-engine.ts:65 | after `map.set(k, v)`, `k` maps to `v` and every other key is unchanged; a present key keeps its position, a new key is appended; keys stay unique |
| Dict.Delete | src/domain/rate-limiter-engine.ts:347 | after `map.delete(k)`, `k` is absent, every other key is unchanged, exactly the entries under other keys remain, and they keep their order |
| Dict.Values | src/domain/rate-limiter-engine.ts:71 | `Array.from(map.values())` lists the values in insertion order |
| Dict.FromPairs | src/domain/storage.ts:42-45 | `new Map(pairs)` has unique keys and exactly the keys of the pairs; a repeated key holds the value of its last pair, at the position of its first; rebuilding a map from its own entries gives the same map |
| Json.Lookup | src/domain/rate-limiter-engine.ts:462 | `obj[k]` is defined exactly when some entry has key `k`, and then that entry is in the object |
| Json.LookupIffMember | src/domain/rate-limiter-engine.ts:462 | with unique keys, `obj[k]` is `v` exactly when the entry (k, v) is present |
| Sorting.SortBy | src/domain/rate-limiter-engine.ts:74 | the sort returns a permutation of its input |
| Sorting.SortBySorted | src/domain/rate-limiter-engine.ts:74 | under a strict weak order, the sort's result is ordered and a permutation of the input |
| Sorting.SortByOfSorted | src/domain/rate-limiter-engine.ts:74 | sorting an already ordered sequence leaves it as it is |
| Sorting.InsertStable | src/domain/rate-limiter-engine.ts:74 | an inserted element goes in front of the elements that compare equal to it |
| Sorting.SortByStable | src/domain/rate-limiter-engine.ts:74 | the sort is stable: the elements comparing equal to any given one come out in their input order |
| Sorting.StrLessTotal | src/domain/rate-limiter-engine.ts:74 | `localeCompare` as code-unit order puts any two distinct ids one way or the other |
| Sorting.StrLessTransitive | src/domain/rate-limiter-engine.ts:74 | the id order is transitive |
| Hash.KeyBeforeIsStrictWeakOrder | src/domain/hash.ts:9 | the entry comparator by key is a strict weak order |
| Hash.StableValue | src/domain/hash.ts:1-15 | primitives are returned unchanged; arrays and objects keep their length |
| Hash.ArrayCanonicalised | src/domain/hash.ts:2-4 | an array is canonicalised element by element, in order |
| Hash.ObjectCanonicalised | src/domain/hash.ts:6-12 | an object with unique keys becomes one with strictly increasing keys, holding under each key the canonical form of the original value |
| Hash.StableHashPayload | src/domain/hash.ts:17-19 | the fingerprint of a well-formed payload is canonical, and a primitive fingerprints as itself |
| Hash.StableValueCanonical | src/domain/hash.ts:1-15 | the canonicaliser's output has every nested object sorted by key |
| Hash.CanonicalFixpoint | src/domain/hash.ts:1-15 | a canonical value is its own canonical form |
| Hash.StableValueIdempotent | src/domain/hash.ts:1-15 | canonicalising twice equals canonicalising once, for every value |
| Hash.KeyOrderIrrelevant | src/domain/hash.ts:8-11 | values that differ only in object key order, at any depth, have the same canonical form |
| Hash.FingerprintIgnoresKeyOrder | src/domain/hash.ts:17-19 | payloads that differ only in object key order fingerprint alike |
| Models.Limit.Kind | src/domain/models.ts:59 | a limit's kind is `TOKEN_BUCKET` exactly for a token bucket |
| Keys.StateKeyOf | src/domain/rate-limiter-engine.ts:322-333 | the state key of a limit; what it means is stated by `Keys.StateKeyInjective` |
| Keys.StateKeyInjective | src/domain/rate-limiter-engine.ts:322-333 | two evaluations share limiter state exactly when they agree on tenant, policy id, subject type and id, resource type and name, kind and limit index |
| Keys.IdempotencyKeyOf | src/domain/rate-limiter-engine.ts:118 | a request has an idempotency key exactly when its request id is present and non-empty, and the key is (tenant, request id) |
| Matching.GlobMatch | src/domain/rate-limiter-engine.ts:445-449 | the resource-pattern test; its meaning is stated by `Matching.LiteralPattern`, `Matching.StarPattern` and `Matching.PrefixPattern` |
| Matching.LiteralPattern | src/domain/rate-limiter-engine.ts:445-449 | a resource pattern without `*` matches exactly the equal name; regex metacharacters are literal |
| Matching.StarPattern | src/domain/rate-limiter-engine.ts:445-449 | the pattern `*` matches every name without a line terminator, the empty name included |
| Matching.PrefixPattern | src/domain/rate-limiter-engine.ts:445-449 | `prefix*` matches the names that start with the prefix and continue on one line |
| Matching.Spread | src/domain/rate-limiter-engine.ts:456-460 | object spread: a key carried by the spread entries takes their value, any other key keeps the base value |
| Matching.ContextAgrees | src/domain/rate-limiter-engine.ts:456-460 | the filter context holds an attribute's value, else the subject's id under "id" and its type under "type" |
| Matching.MatchSubjectFilter | src/domain/rate-limiter-engine.ts:451-463 | the subject-filter test; its meaning is stated by `Matching.SubjectFilterMeaning` and `Matching.ContextAgrees` |
| Matching.SubjectFilterMeaning | src/domain/rate-limiter-engine.ts:451-463 | a subject passes a filter exactly when every filter entry is a primitive strictly equal to the context's value under its key |
| Validation.TrimStart | src/domain/rate-limiter-engine.ts:357 | removes exactly the leading white space and line terminators |
| Validation.TrimEnd | src/domain/rate-limiter-engine.ts:357 | removes exactly the trailing white space and line terminators |
| Validation.BlankIffAllWhitespace | src/domain/rate-limiter-engine.ts:357 | a string fails the "is required" test exactly when every character is white space, the empty string included |
| Validation.RequestError | src/domain/rate-limiter-engine.ts:356-381 | no error exactly when the request is valid; the rules are checked in the order tenant, subject type, resource type, subject id, resource name, positive cost (default 1), and the first broken one gives its own ValidationError message |
| Validation.LimitError | src/domain/rate-limiter-engine.ts:409-428 | no error exactly when the limit meets its kind's rules (capacity and rate positive, initial tokens in [0, capacity]; window and limit positive) |
| Validation.FirstLimitError | src/domain/rate-limiter-engine.ts:408-429 | no error exactly when every limit is valid; otherwise the error of an invalid limit with every earlier limit valid |
| Validation.PolicyHeaderError | src/domain/rate-limiter-engine.ts:384-406 | no error exactly when id and tenant are non-blank, the scope types are known, the pattern is non-blank and there is at least one limit |
| Validation.PolicyError | src/domain/rate-limiter-engine.ts:383-430 | no error exactly when the policy is valid; the status is not checked; every error is a ValidationError |
| Selection.Filter | src/domain/rate-limiter-engine.ts:433-439 | keeps exactly the elements passing the test, each exactly as often as in the input and in the input's order |
| Selection.PolicyBeforeIsStrictWeakOrder | src/domain/rate-limiter-engine.ts:440 | "higher priority, then smaller id" is a strict weak order |
| Selection.RankPolicies | src/domain/rate-limiter-engine.ts:440 | ranking is a permutation in which no policy outranks one placed before it |
| Selection.FirstRankedIsBest | src/domain/rate-limiter-engine.ts:440-442 | the first ranked policy is one of them and no other has higher priority, or equal priority and a smaller id |
| Selection.SelectPolicy | src/domain/rate-limiter-engine.ts:432-443 | a policy is selected exactly when some stored policy is an active candidate for the tenant, subject and resource, and the selected one beats or ties every candidate |
| Selection.ListPolicies | src/domain/rate-limiter-engine.ts:70-76 | exactly the tenant's stored policies (all without a tenant), each as often as stored, by descending priority and ascending id |
| Limiters.Ceil | src/domain/rate-limiter-engine.ts:254 | `Math.ceil`: the least integer not below its argument |
| Limiters.FloorDiv | src/domain/rate-limiter-engine.ts:290 | `Math.floor(a / b)` for either sign of the divisor |
| Limiters.EvaluateTokenBucket | src/domain/rate-limiter-engine.ts:220-277 | the token-bucket evaluation; its meaning is stated by `Limiters.MaxCostCheckedFirst`, `Limiters.TokenBucketDecision`, `Limiters.TokenBucketBounds` and `Limiters.AllowedSpendsCost` |
| Limiters.MaxCostCheckedFirst | src/domain/rate-limiter-engine.ts:229-231 | the token bucket fails exactly when a `max_cost` is set and the cost exceeds it, with that ValidationError, whatever the state |
| Limiters.FreshBucket | src/domain/rate-limiter-engine.ts:235-242 | a key never written starts with `initial_tokens` (capacity by default), last refilled now |
| Limiters.BackwardsClockRefillsNothing | src/domain/rate-limiter-engine.ts:244-246 | a clock at or before the last refill refills nothing |
| Limiters.RefillMonotone | src/domain/rate-limiter-engine.ts:244-246 | refilled tokens never decrease as the clock advances |
| Limiters.TokenBucketBounds | src/domain/rate-limiter-engine.ts:244-265 | refilled tokens never exceed capacity; reported and stored tokens lie in [0, capacity]; a commit never moves the refill time back |
| Limiters.TokenBucketDecision | src/domain/rate-limiter-engine.ts:248-276 | allowed exactly when the refilled tokens cover the cost; a write exactly when allowed and not dry-run; a deny reports a retry wait and no reset time |
| Limiters.TokenBucketOutcome | src/domain/rate-limiter-engine.ts:244-254 | an evaluation that passed the `max_cost` check decides by the refilled tokens and reports the ceiling of the missing tokens' refill time |
| Limiters.RetryAfterSuffices | src/domain/rate-limiter-engine.ts:252-254 | a deny writes nothing, and waiting out the reported retry from the refill time allows the same cost when it fits the capacity |
| Limiters.RetryAfterIsShortest | src/domain/rate-limiter-engine.ts:252-254 | any earlier clock is still denied: the reported retry is the shortest wait that works |
| Limiters.FreshDenialRepeats | src/domain/rate-limiter-engine.ts:234-265 | a key whose first request is denied is not written by it; while the key stays unwritten, the same cost is denied again at any later time |
| Limiters.AllowedSpendsCost | src/domain/rate-limiter-engine.ts:244-265 | an allowed token-bucket request had at least its cost available, at most capacity, and writes a bucket whose available tokens at the same instant are exactly the cost fewer |
| Limiters.EvaluateFixedWindow | src/domain/rate-limiter-engine.ts:279-320 | the fixed-window evaluation; its meaning is stated by `Limiters.FixedWindowDecision`, `Limiters.FixedWindowBounds`, `Limiters.ZeroWindowFails` and `Limiters.AllowedUsesCost` |
| Limiters.WindowAlignment | src/domain/rate-limiter-engine.ts:289-290 | the window holding `now` starts on a multiple of its length at or before `now` and ends after it |
| Limiters.SameWindow | src/domain/rate-limiter-engine.ts:290-292 | two clocks share a window start exactly when they fall in the same aligned interval |
| Limiters.FixedWindowDecision | src/domain/rate-limiter-engine.ts:288-319 | the stored count counts only within its own window; allowed exactly when count plus cost is within the limit; a write exactly when allowed and not dry-run, recording this window and the new count; the remaining allowance is the limit less the count after the decision, floored at 0; reset is the window's end and a deny waits until then |
| Limiters.FixedWindowBounds | src/domain/rate-limiter-engine.ts:292-314 | the remaining allowance lies in [0, limit] and a commit never lowers its window's count |
| Limiters.AllowedUsesCost | src/domain/rate-limiter-engine.ts:288-308 | an allowed window request had at least its cost left in the window, and writes a count at most the limit whose allowance at the same instant is exactly the cost less |
| Limiters.ZeroWindowFails | src/domain/rate-limiter-engine.ts:316 | a zero-second window fails with the runtime's RangeError for an invalid date |
| Limiters.EvaluateLimit | src/domain/rate-limiter-engine.ts:163-168 | each limit is evaluated by its own algorithm, reports its kind, and writes, only when allowed and not dry-run, under its own state key |
| Aggregation.MinBy | src/domain/rate-limiter-engine.ts:183-196 | `Math.min(...xs)`: under a total order, an element of the list at most every element |
| Aggregation.LeastBy | src/domain/rate-limiter-engine.ts:183-196 | the least present value, present exactly when some value is, and one of the values |
| Aggregation.ShortestRetry | src/domain/rate-limiter-engine.ts:183-186 | the least retry wait among the denying results that report one, present exactly when one does |
| Aggregation.LeastRemaining | src/domain/rate-limiter-engine.ts:188-191 | the least remaining allowance that any result reports, present exactly when one does |
| Aggregation.EarliestReset | src/domain/rate-limiter-engine.ts:193-196 | the earliest reset time that any result reports, present exactly when one does |
| Aggregation.Aggregate | src/domain/rate-limiter-engine.ts:171-205 | allowed exactly when every limit allows; deny: shortest retry and no remaining; allow: least remaining and no retry; earliest reset either way; the policy's id and all results |
| Storage.ToSerialized | src/domain/storage.ts:29-38 | version "v1", each map's entries in order, and the audit list |
| Storage.FromSerialized | src/domain/storage.ts:40-48 | every map has unique keys and exactly the keys of its pair list; a repeated key holds its last pair's value at its first pair's position; a list without repeats is taken as it is; a missing audit list becomes empty |
| Storage.SerializedRoundTrip | src/domain/storage.ts:29-48 | reading back a serialised store gives the same maps in the same order and the same audit list |
| Storage.InMemoryContents | src/domain/storage.ts:50-61 | the in-memory provider starts with four empty maps and no audit events |
| Storage.LoadSnapshot | src/domain/storage.ts:87-98 | a snapshot is loaded exactly when the file was read and parsed and its version is "v1" |
| Storage.FileContents | src/domain/storage.ts:63-74 | the file provider starts from the loaded snapshot, or from an empty store |
| Storage.ReopenRestoresState | src/domain/storage.ts:63-79 | a file provider reopened on the snapshot it wrote starts with the state it had |
| EngineSpec.Sweep | src/domain/rate-limiter-engine.ts:343-354 | keeps exactly the entries still live at `now`, in their order in the cache, and is the identity when nothing has expired |
| EngineSpec.SweepUnique | src/domain/rate-limiter-engine.ts:345-350 | sweeping a map leaves a map |
| EngineSpec.SweepLookup | src/domain/rate-limiter-engine.ts:345-350 | after the sweep a key maps to its entry exactly when that entry is live |
| EngineSpec.CachedEntry | src/domain/rate-limiter-engine.ts:129-131 | a hit exactly when the request has an id whose cached entry expires after `now` |
| EngineSpec.Remember | src/domain/rate-limiter-engine.ts:207-214 | a decision with an id is cached with its hash and expiry and persisted; without an id nothing changes |
| EngineSpec.EvaluateLimits | src/domain/rate-limiter-engine.ts:162-169 | succeeds exactly when every limit does, listing each limit's evaluation against the same state; otherwise the first failing limit's error |
| EngineSpec.ApplyCommits | src/domain/rate-limiter-engine.ts:175-181 | only limiter state changes, maps stay maps, and evaluations without a write change nothing |
| EngineSpec.Decide | src/domain/rate-limiter-engine.ts:139-205 | deciding never touches policies, cache or audit; the state changes only for an allowed real request, and then it is persisted |
| EngineSpec.Admitted | src/domain/rate-limiter-engine.ts:113-217 | only the cache and limiter state change; limiter state only for an allowed real request; any change persisted; a decided request with an id is cached with its hash for the TTL |
| EngineSpec.Finish | src/domain/rate-limiter-engine.ts:207-216 | only a successful decision with an id changes the cache; the sweep's persist and the decision's persist are carried on; errors pass through |
| EngineSpec.Fingerprint | src/domain/rate-limiter-engine.ts:119-127 | the payload hash of a request; what it distinguishes is stated by `EngineProperties.FingerprintDetermines` and `EngineProperties.DryRunChangesFingerprint` |
| EngineSpec.Evaluate | src/domain/rate-limiter-engine.ts:107-218 | policies and audit untouched; limiter state changes only for an allowed real request; every change persisted; maps stay maps |
| EngineSpec.Consume | src/domain/rate-limiter-engine.ts:99-101 | `consume` evaluates with `dry_run` defaulting to false; its meaning is stated by `EngineSpec.Evaluate`, `EngineProperties.ConsumeReplayWithinTtl` and `Burst.ConsumeSpendsHeadroom` |
| EngineSpec.Check | src/domain/rate-limiter-engine.ts:103-105 | `check` evaluates as a dry run; its meaning is stated by `EngineSpec.Evaluate` and `EngineProperties.CheckKeepsLimiterState` |
| EngineSpec.UpsertPolicy | src/domain/rate-limiter-engine.ts:53-68 | an invalid policy changes nothing; a valid one is stored under its id, keeping the replaced policy's creation time, stamped now, and persisted |
| EngineSpec.ApplyPatch | src/domain/rate-limiter-engine.ts:84-91 | each field the patch carries replaces the stored one, each it omits is kept; id, tenant and creation time are pinned, update time stamped |
| EngineSpec.PatchPolicy | src/domain/rate-limiter-engine.ts:78-97 | an unknown id is NotFoundError; an invalid patched policy changes nothing; otherwise it is stored under the same id and persisted |
| EngineProperties.FingerprintDetermines | src/domain/rate-limiter-engine.ts:119-127 | equal fingerprints mean the same tenant, resource, cost, dry-run flag, subject type and id, and canonically equal or absent attributes |
| EngineProperties.DryRunChangesFingerprint | src/domain/rate-limiter-engine.ts:119-126 | a dry run and a real request never share a fingerprint |
| EngineProperties.InvalidRequestHasNoEffect | src/domain/rate-limiter-engine.ts:108-111 | an invalid request fails with no change and nothing persisted |
| EngineProperties.CheckKeepsLimiterState | src/domain/rate-limiter-engine.ts:103-105 | `check` leaves bucket and window state as they were |
| EngineProperties.DenyKeepsLimiterState | src/domain/rate-limiter-engine.ts:173-181 | a denied or failed `consume` leaves bucket and window state as they were |
| EngineProperties.ImplicitAllowWithoutPolicy | src/domain/rate-limiter-engine.ts:139-160 | with no candidate policy the request is allowed with no policy id, results or waits, and limiter state is unchanged |
| EngineProperties.ReplayReturnsCachedDecision | src/domain/rate-limiter-engine.ts:129-136 | a live cached id with the same payload returns the cached decision, and only the sweep changes anything |
| EngineProperties.ReuseWithOtherPayloadConflicts | src/domain/rate-limiter-engine.ts:131-134 | a live cached id with another payload fails with IdempotencyConflictError, and only the sweep changes anything |
| EngineProperties.DecisionIsCached | src/domain/rate-limiter-engine.ts:207-214 | a decided request with an id is cached under it with its payload hash, live for the TTL |
| EngineProperties.ConsumeReplayWithinTtl | src/domain/rate-limiter-engine.ts:99-136 | repeating a `consume` with the same id within the TTL returns the first decision and consumes nothing more |
| EngineProperties.CachedIdRefusesOtherPayload | src/domain/rate-limiter-engine.ts:129-134 | after a decision is cached, a different payload under the same id within the TTL is refused and limiter state stays as the first request left it |
| EngineProperties.CheckThenConsumeConflicts | src/domain/rate-limiter-engine.ts:103-134 | a `check` then a `consume` with the same id within the TTL: the `consume` is refused |
| EngineProperties.ApplyCommitsWrites | src/domain/rate-limiter-engine.ts:176-180 | with writes to distinct keys, each write is in force after all have run |
| EngineProperties.ApplyCommitsKeepsOthers | src/domain/rate-limiter-engine.ts:176-180 | a key no write goes to keeps its state |
| EngineProperties.AllowedLimitsAllWrite | src/domain/rate-limiter-engine.ts:175-181 | when a policy allows a real request, every limit writes under its own state key |
| EngineProperties.WritesAtOwnKeysAreDistinct | src/domain/rate-limiter-engine.ts:322-333 | limits at different positions write to different keys |
| EngineProperties.AllowCommitsEveryLimit | src/domain/rate-limiter-engine.ts:175-181 | after an allowed real decision, each limit's new state is stored under its own key and every other key keeps its state |
| EngineProperties.SetKeepsKeysMatchIds | src/domain/rate-limiter-engine.ts:65 | storing a policy under its own id keeps every policy under its own id |
| EngineProperties.UpsertPreservesInvariants | src/domain/rate-limiter-engine.ts:53-68 | `upsertPolicy` keeps the maps unique and every policy under its own id |
| EngineProperties.PatchPreservesInvariants | src/domain/rate-limiter-engine.ts:78-97 | `patchPolicy` keeps the maps unique and every policy under its own id |
| EngineProperties.ReupsertKeepsCreatedAt | src/domain/rate-limiter-engine.ts:57-58 | replacing a policy keeps the creation time of the first upsert |
| EngineProperties.PatchPinsIdentity | src/domain/rate-limiter-engine.ts:84-94 | a patch never changes id, tenant or creation time, and the stored policy is the patched one |
| Burst.DecideSpendsHeadroom | src/domain/rate-limiter-engine.ts:139-205 | for a selected policy and each of its limits: an allowed real decision had at least its cost of headroom under that limit's key and leaves exactly the cost less; a denied one leaves limiter state as it was |
| Burst.ConsumeSpendsHeadroom | src/domain/rate-limiter-engine.ts:99-217 | the same for a whole `consume` whose request id is not live in the cache: allowed means a positive cost within the headroom and the headroom drops by exactly that cost; not allowed means the headroom is unchanged |
| Burst.ConsumeKeepsUnseen | src/domain/rate-limiter-engine.ts:113-136 | a `consume` never makes another request id live in the cache at the same instant |
| Burst.BurstWithinHeadroom | tests/acceptance.spec.ts:43-63 | a burst of `consume` calls at one instant for one subject and resource, with distinct unseen request ids, is allowed at most as often as the cost fits the starting headroom of any one limit of the selected policy |
| Burst.CountWithinFloor | tests/property.spec.ts:115 | `n` costs whose total fits a bound number at most `floor(bound / cost)` |
| Burst.TotalIsProduct | tests/property.spec.ts:115 | `n` repeated costs total `n * cost` |
| Burst.HeadroomWithinBound | src/domain/rate-limiter-engine.ts:244-308 | a limit's headroom never exceeds its capacity (token bucket) or its limit (fixed window) |
| Burst.BurstWithinEveryLimit | tests/property.spec.ts:93-124 | in such a burst the number allowed is at most `floor(capacity / cost)` for each token bucket and `floor(limit / cost)` for each fixed window of the policy, so at most the least of these |
| Engine.FileAfter | src/domain/storage.ts:76-79 | a durable store that persisted has a snapshot; otherwise the file is as it was |
| Engine.PersistedFileReopens | src/domain/storage.ts:63-79 | reopening the file an operation persisted restores the state it left |
| Engine.EngineStorage.InMemory | src/domain/storage.ts:50-61 | starts empty, not durable, with no file |
| Engine.EngineStorage.JsonFile | src/domain/storage.ts:63-85 | starts from the file's snapshot (or empty), durable, its file as found |
| Engine.EngineStorage.Persist | src/domain/storage.ts:76-79 | a durable store writes a snapshot of its current contents; the in-memory store writes nothing |
| Engine.SweepStep | src/domain/rate-limiter-engine.ts:345-350 | one turn of the sweep loop deletes exactly the visited entry when it has expired, and keeps the rest in order |
| Engine.EvaluationStopsAt | src/domain/rate-limiter-engine.ts:162-169 | the first failing limit decides the error of the whole evaluation |
| Engine.FirstLimitErrorAt | src/domain/rate-limiter-engine.ts:408-429 | the first invalid limit decides the policy's limit error |
| Engine.RateLimiterEngine.constructor | src/domain/rate-limiter-engine.ts:42-51 | the TTL defaults to ten minutes; the given storage is shared, else a fresh in-memory one |
| Engine.RateLimiterEngine.ValidatePolicy | src/domain/rate-limiter-engine.ts:383-430 | returns exactly the first broken policy rule |
| Engine.RateLimiterEngine.CheckLimits | src/domain/rate-limiter-engine.ts:408-429 | the loop returns the error of the first invalid limit, or none |
| Engine.RateLimiterEngine.UpsertPolicy | src/domain/rate-limiter-engine.ts:53-68 | result and new state are those `EngineSpec.UpsertPolicy` gives, and the file holds the new state when persisted |
| Engine.RateLimiterEngine.PutPolicy | src/domain/rate-limiter-engine.ts:65-66 | only the policy map changes, by `set`, and the store persists |
| Engine.RateLimiterEngine.ListPolicies | src/domain/rate-limiter-engine.ts:70-76 | exactly the tenant's stored policies, ranked |
| Engine.RateLimiterEngine.PatchPolicy | src/domain/rate-limiter-engine.ts:78-97 | result and new state are those `EngineSpec.PatchPolicy` gives, and the file holds the new state when persisted |
| Engine.RateLimiterEngine.CleanupIdempotency | src/domain/rate-limiter-engine.ts:343-354 | the cache becomes its sweep; persists exactly when some entry expired |
| Engine.RateLimiterEngine.DeleteExpired | src/domain/rate-limiter-engine.ts:345-350 | the loop leaves the cache's live entries in order and reports whether any entry expired |
| Engine.RateLimiterEngine.EvaluateAll | src/domain/rate-limiter-engine.ts:162-169 | the loop returns every limit's evaluation in order, or the first error |
| Engine.RateLimiterEngine.RunCommit | src/domain/rate-limiter-engine.ts:256-265 | one `apply` writes the limit's new state under its key and persists; nothing else changes |
| Engine.RateLimiterEngine.ApplyAll | src/domain/rate-limiter-engine.ts:175-181 | the loop runs every write in order, persisting exactly when some write ran |
| Engine.RateLimiterEngine.Decide | src/domain/rate-limiter-engine.ts:139-205 | result, new state and persistence are those `EngineSpec.Decide` gives |
| Engine.RateLimiterEngine.Evaluate | src/domain/rate-limiter-engine.ts:107-218 | result and new state are those `EngineSpec.Evaluate` gives; the file holds the new state when persisted; maps stay maps |
| Engine.RateLimiterEngine.Admitted | src/domain/rate-limiter-engine.ts:113-217 | result and new state are those `EngineSpec.Admitted` gives |
| Engine.RateLimiterEngine.DecideAndCache | src/domain/rate-limiter-engine.ts:139-216 | decides, then caches a decision under the request's id; matches `EngineSpec.Finish` of `EngineSpec.Decide` |
| Engine.RateLimiterEngine.PutEntry | src/domain/rate-limiter-engine.ts:207-214 | only the cache changes, by `set`, and the store persists |
| Engine.RateLimiterEngine.Consume | src/domain/rate-limiter-engine.ts:99-101 | result and new state are those `EngineSpec.Consume` gives (a missing `dry_run` is false) |
| Engine.RateLimiterEngine.Check | src/domain/rate-limiter-engine.ts:103-105 | result and new state are those `EngineSpec.Check` gives (always a dry run) |

## Left out

- The per-tenant mutex (`KeyedMutex`, `runExclusive`) and all concurrency. `async` and `await` are left out too. Each operation runs to completion on its own.
- File I/O and JSON text:
  - `mkdirSync`, `readFileSync`, `writeFileSync`, `JSON.parse` and `JSON.stringify`.
  - A file is its parsed `SerializedState`, or `None` when it is missing or cannot be parsed.
  - A write stores the snapshot value.
- The fingerprint is the canonical JSON value rather than its `JSON.stringify` text. Stringification is injective on canonical values, so comparing hashes compares the same thing.
- Floating point:
  - Numbers are exact reals and integers, so `NaN`, `Infinity`, `Number.isFinite` filters and rounding error are not modelled.
  - `Number(x.toFixed(6))` on `remaining` is taken as the exact value.
  - A refill rate of zero (possible only for a policy stored without validation) gives an infinite retry wait. It is reported as none.
- Dates:
  - `now` is an integer millisecond timestamp. There are no `Date` objects, no date strings and no `toISOString`.
  - `parseNow` and its "invalid now parameter" error are not modelled, because an invalid date cannot be written. The clock (`nowFn`) becomes the `clockMs` and `nowMs` parameters.
  - `created_at`, `updated_at` and `reset_at` are millisecond counts.
  - Sorting reset times by date is taking their minimum.
- Keys:
  - Limiter-state keys and idempotency keys are tuples, not `:`-joined strings.
  - So the string collisions a `:` inside an id could cause in the source are not modelled.
- `localeCompare` is code-unit lexicographic order. Locale collation is not modelled.
- JavaScript property order puts integer-like keys first. Object keys are kept here in insertion order.
- Patches are modelled as absent or present fields. A field explicitly set to `undefined` is not modelled; in the source it overwrites the stored value with `undefined`.
- Strings are sequences of characters. UTF-16 surrogate pairs are not modelled.
- `structuredClone` is not modelled. The values are immutable, so a copy and the original are indistinguishable.
- Limit kinds and `behavior_on_denied` values outside the declared unions are not modelled, because `Limit` is a closed datatype. `counter_key_granularity` has one value and no effect.
- The audit list is stored and serialised, but `AuditEvent`'s fields are an assumed record, because its definition is not part of this model. The engine never reads or writes the list.
- The HTTP server, the engine factory and the transport layers are not part of this model.
- Engine.RateLimiterEngine.CleanupIdempotency and Engine.RateLimiterEngine.DeleteExpired require the cache map to be unique. Every JavaScript `Map` is unique.
  - The loop deletes from a working copy that is stored once at the end.
  - This leaves the same final state, because the entries are deleted in the order they are visited.
- Engine.RateLimiterEngine.Evaluate, Admitted, Consume and Check require `Contents().Valid()`: every map has unique keys. This holds for every store the two providers create, and the methods preserve it.
- Limiters.EvaluateTokenBucket: the `max_cost` error message ends at "for TOKEN_BUCKET" and omits the source's `: <max_cost>` suffix, because numbers are not rendered as text in this model.
- Limiters.MaxCostCheckedFirst: states the same message without the `: <max_cost>` suffix, for the same reason.
- Limiters.FreshDenialRepeats: speaks of later requests on a key that is still unwritten. A request in between that is allowed on the same key writes it, and after that the key is no longer fresh.
- Errors.EngineError carries a message without a stack. `RangeError` stands for the runtime's exception when a zero-length window's reset time is converted to text.
- Burst.BurstWithinHeadroom and Burst.BurstWithinEveryLimit: the burst is a sequence of `consume` calls in one order, as the per-tenant mutex runs them. The requests carry distinct request ids not live in the cache; a repeated id replays its decision and consumes nothing. The bound is stated per limit of the selected policy, and at least one of the limits must exist for the least of the bounds to be meaningful. A stored window count must be non-negative, which every stored count is.
- Models: `priority` is an integer and `window_seconds` is a whole number of seconds. Both are JavaScript numbers in the source.
