/**
 * The data model: the enumerations, the two limit algorithms' parameters,
 * policies, requests, per-limit results and decisions, and the only
 * per-key limiter state (bucket and window counters).
 */
module Models {
  import opened Wrappers
  import opened Json

  const SUBJECT_TYPES: seq<string> := ["USER", "API_KEY", "IP", "TENANT"]
  const RESOURCE_TYPES: seq<string> := ["ENDPOINT", "ACTION"]
  const POLICY_STATUSES: seq<string> := ["ACTIVE", "INACTIVE"]

  /**
   * The subject of a request. `subjectType` is the raw runtime string: the
   * engine checks it against SUBJECT_TYPES itself. `attributes` is a JSON
   * object's entries.
   */
  datatype Subject = Subject(subjectType: string, id: string, attributes: Option<seq<Entry>>)

  datatype Resource = Resource(resourceType: string, name: string)

  /** `Limit['kind']`. */
  datatype LimitKind = TokenBucketKind | FixedWindowKind

  /**
   * The closed union of limit algorithms. Both deny on exceed
   * (`behavior_on_denied: 'DENY'` is their only value).
   */
  datatype Limit =
    | TokenBucket(capacity: real, refillTokensPerSec: real, initialTokens: Option<real>, maxCost: Option<real>)
    | FixedWindow(windowSeconds: int, limit: real)
  {
    function Kind(): (k: LimitKind)
      ensures k == TokenBucketKind <==> this.TokenBucket?
    {
      if TokenBucket? then TokenBucketKind else FixedWindowKind
    }
  }

  datatype Scope = Scope(subjectType: string, resourceType: string)

  /** A policy's `match`: the resource glob and the optional subject filter. */
  datatype MatchRule = MatchRule(resourcePattern: string, subjectFilter: Option<seq<Entry>>)

  /** A policy without its timestamps: what `upsertPolicy` receives. */
  datatype PolicyBody = PolicyBody(
    policyId: string,
    tenantId: string,
    name: string,
    status: string,
    priority: int,
    scope: Scope,
    matchRule: MatchRule,
    limits: seq<Limit>)

  /** A stored policy: its body and its creation and update times (ms). */
  datatype Policy = Policy(body: PolicyBody, createdAt: int, updatedAt: int)

  /** The fields `patchPolicy` may replace; an absent field keeps its value. */
  datatype PolicyPatch = PolicyPatch(
    name: Option<string>,
    status: Option<string>,
    priority: Option<int>,
    scope: Option<Scope>,
    matchRule: Option<MatchRule>,
    limits: Option<seq<Limit>>)

  /** One limit's verdict. Times are milliseconds since the epoch. */
  datatype LimitResult = LimitResult(
    kind: LimitKind,
    allowed: bool,
    remaining: Option<real>,
    retryAfterMs: Option<int>,
    resetAt: Option<int>)

  datatype Decision = Decision(
    allowed: bool,
    policyId: Option<string>,
    results: seq<LimitResult>,
    retryAfterMs: Option<int>,
    remaining: Option<real>,
    resetAt: Option<int>)

  datatype ConsumeRequest = ConsumeRequest(
    tenantId: string,
    requestId: Option<string>,
    subject: Subject,
    resource: Resource,
    cost: Option<real>,
    dryRun: Option<bool>,
    now: Option<int>)

  datatype BucketState = BucketState(tokens: real, lastRefillAtMs: int, updatedAtMs: int)

  datatype WindowCounterState = WindowCounterState(windowStartMs: int, used: real, updatedAtMs: int)
}
