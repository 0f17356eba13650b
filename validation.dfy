/**
 * The rules `validateRequest` and `validatePolicy` enforce, each reporting
 * the first rule broken, in the order the engine checks them.
 */
module Validation {
  import opened Wrappers
  import opened Errors
  import opened Models

  /** The characters `String.prototype.trim` removes: white space and line terminators. */
  predicate IsJsWhitespace(c: char) {
    || ('\U{0009}' <= c <= '\U{000D}') || c == '\U{0020}' || c == '\U{00A0}' || c == '\U{1680}'
    || ('\U{2000}' <= c <= '\U{200A}') || c == '\U{2028}' || c == '\U{2029}' || c == '\U{202F}'
    || c == '\U{205F}' || c == '\U{3000}' || c == '\U{FEFF}'
  }

  function TrimStart(s: string): (r: string)
    ensures |r| <= |s| && r == s[|s| - |r|..]
    ensures r != [] ==> !IsJsWhitespace(r[0])
    ensures forall i :: 0 <= i < |s| - |r| ==> IsJsWhitespace(s[i])
  {
    if s != [] && IsJsWhitespace(s[0]) then TrimStart(s[1..]) else s
  }

  function TrimEnd(s: string): (r: string)
    ensures |r| <= |s| && r == s[..|r|]
    ensures r != [] ==> !IsJsWhitespace(r[|r| - 1])
    ensures forall i :: |r| <= i < |s| ==> IsJsWhitespace(s[i])
  {
    if s != [] && IsJsWhitespace(s[|s| - 1]) then TrimEnd(s[..|s| - 1]) else s
  }

  /** `s.trim()`. */
  function Trim(s: string): string {
    TrimEnd(TrimStart(s))
  }

  /** `!s || s.trim().length === 0`: the empty string is falsy, a blank one trims to empty. */
  predicate IsBlank(s: string) {
    |Trim(s)| == 0
  }

  /** Every character is white space (the empty string included). */
  predicate AllWhitespace(s: string) {
    forall i :: 0 <= i < |s| ==> IsJsWhitespace(s[i])
  }

  /** A string is blank exactly when every character of it is white space. */
  lemma BlankIffAllWhitespace(s: string)
    ensures IsBlank(s) <==> AllWhitespace(s)
  {
    var t := TrimStart(s);
    if IsBlank(s) {
      assert TrimEnd(t) == [];
    }
  }

  /** What `validateRequest` accepts. */
  predicate RequestValid(request: ConsumeRequest) {
    && !AllWhitespace(request.tenantId)
    && request.subject.subjectType in SUBJECT_TYPES
    && request.resource.resourceType in RESOURCE_TYPES
    && !AllWhitespace(request.subject.id)
    && !AllWhitespace(request.resource.name)
    && request.cost.GetOr(1.0) > 0.0
  }

  /**
   * `validateRequest`: the first rule the request breaks, if any. The rules
   * are checked in the order tenant, subject type, resource type, subject
   * id, resource name, cost, and a request breaking several gets the error
   * of the earliest.
   */
  function RequestError(request: ConsumeRequest): (r: Option<EngineError>)
    ensures r.None? <==> RequestValid(request)
    ensures r.Some? ==> r.value.ValidationError?
    ensures AllWhitespace(request.tenantId) ==>
      r == Some(ValidationError("tenant_id is required"))
    ensures !AllWhitespace(request.tenantId) && request.subject.subjectType !in SUBJECT_TYPES ==>
      r == Some(ValidationError("invalid subject.type: " + request.subject.subjectType))
    ensures && !AllWhitespace(request.tenantId) && request.subject.subjectType in SUBJECT_TYPES
            && request.resource.resourceType !in RESOURCE_TYPES ==>
      r == Some(ValidationError("invalid resource.type: " + request.resource.resourceType))
    ensures && !AllWhitespace(request.tenantId) && request.subject.subjectType in SUBJECT_TYPES
            && request.resource.resourceType in RESOURCE_TYPES && AllWhitespace(request.subject.id) ==>
      r == Some(ValidationError("subject.id is required"))
    ensures && !AllWhitespace(request.tenantId) && request.subject.subjectType in SUBJECT_TYPES
            && request.resource.resourceType in RESOURCE_TYPES && !AllWhitespace(request.subject.id)
            && AllWhitespace(request.resource.name) ==>
      r == Some(ValidationError("resource.name is required"))
    ensures && !AllWhitespace(request.tenantId) && request.subject.subjectType in SUBJECT_TYPES
            && request.resource.resourceType in RESOURCE_TYPES && !AllWhitespace(request.subject.id)
            && !AllWhitespace(request.resource.name) && request.cost.GetOr(1.0) <= 0.0 ==>
      r == Some(ValidationError("cost must be greater than 0"))
  {
    BlankIffAllWhitespace(request.tenantId);
    BlankIffAllWhitespace(request.subject.id);
    BlankIffAllWhitespace(request.resource.name);
    if IsBlank(request.tenantId) then
      Some(ValidationError("tenant_id is required"))
    else if request.subject.subjectType !in SUBJECT_TYPES then
      Some(ValidationError("invalid subject.type: " + request.subject.subjectType))
    else if request.resource.resourceType !in RESOURCE_TYPES then
      Some(ValidationError("invalid resource.type: " + request.resource.resourceType))
    else if IsBlank(request.subject.id) then
      Some(ValidationError("subject.id is required"))
    else if IsBlank(request.resource.name) then
      Some(ValidationError("resource.name is required"))
    else if request.cost.GetOr(1.0) <= 0.0 then
      Some(ValidationError("cost must be greater than 0"))
    else
      None
  }

  /** The per-limit rules of `validatePolicy`. */
  predicate LimitValid(limit: Limit) {
    match limit
    case TokenBucket(capacity, rate, initial, _) =>
      capacity > 0.0 && rate > 0.0 && (initial.Some? ==> 0.0 <= initial.value <= capacity)
    case FixedWindow(windowSeconds, max) =>
      windowSeconds > 0 && max > 0.0
  }

  /** The first rule one limit breaks, if any. */
  function LimitError(limit: Limit): (r: Option<EngineError>)
    ensures r.None? <==> LimitValid(limit)
    ensures r.Some? ==> r.value.ValidationError?
  {
    match limit
    case TokenBucket(capacity, rate, initial, _) =>
      if capacity <= 0.0 then Some(ValidationError("TOKEN_BUCKET.capacity must be greater than 0"))
      else if rate <= 0.0 then Some(ValidationError("TOKEN_BUCKET.refill_tokens_per_sec must be greater than 0"))
      else if initial.Some? && (initial.value < 0.0 || initial.value > capacity) then
        Some(ValidationError("TOKEN_BUCKET.initial_tokens must be in [0, capacity]"))
      else None
    case FixedWindow(windowSeconds, max) =>
      if windowSeconds <= 0 then Some(ValidationError("FIXED_WINDOW.window_seconds must be greater than 0"))
      else if max <= 0.0 then Some(ValidationError("FIXED_WINDOW.limit must be greater than 0"))
      else None
  }

  /** The loop over `policy.limits`: the error of the first invalid limit. */
  function FirstLimitError(limits: seq<Limit>): (r: Option<EngineError>)
    ensures r.None? <==> forall i :: 0 <= i < |limits| ==> LimitValid(limits[i])
    ensures r.Some? ==> exists i :: 0 <= i < |limits| && r == LimitError(limits[i]) &&
                          forall j :: 0 <= j < i ==> LimitValid(limits[j])
  {
    if limits == [] then None
    else if LimitError(limits[0]).Some? then LimitError(limits[0])
    else
      var r := FirstLimitError(limits[1..]);
      assert r.Some? ==> exists i :: 0 <= i < |limits| && r == LimitError(limits[i]) &&
                           forall j :: 0 <= j < i ==> LimitValid(limits[j]) by {
        if r.Some? {
          var i :| 0 <= i < |limits[1..]| && r == LimitError(limits[1..][i]) &&
                   forall j :: 0 <= j < i ==> LimitValid(limits[1..][j]);
          assert forall j :: 0 <= j < i + 1 ==> LimitValid(limits[j]) by {
            forall j | 0 <= j < i + 1 ensures LimitValid(limits[j]) {
              if j > 0 { assert limits[j] == limits[1..][j - 1]; }
            }
          }
          assert r == LimitError(limits[i + 1]);
        }
      }
      r
  }

  /** What `validatePolicy` accepts; the status is not checked. */
  predicate PolicyValid(policy: PolicyBody) {
    && !AllWhitespace(policy.policyId)
    && !AllWhitespace(policy.tenantId)
    && policy.scope.subjectType in SUBJECT_TYPES
    && policy.scope.resourceType in RESOURCE_TYPES
    && !AllWhitespace(policy.matchRule.resourcePattern)
    && |policy.limits| > 0
    && forall i :: 0 <= i < |policy.limits| ==> LimitValid(policy.limits[i])
  }

  /** The checks of `validatePolicy` before its loop over the limits. */
  function PolicyHeaderError(policy: PolicyBody): (r: Option<EngineError>)
    ensures r.None? <==>
      && !AllWhitespace(policy.policyId)
      && !AllWhitespace(policy.tenantId)
      && policy.scope.subjectType in SUBJECT_TYPES
      && policy.scope.resourceType in RESOURCE_TYPES
      && !AllWhitespace(policy.matchRule.resourcePattern)
      && |policy.limits| > 0
    ensures r.Some? ==> r.value.ValidationError?
  {
    BlankIffAllWhitespace(policy.policyId);
    BlankIffAllWhitespace(policy.tenantId);
    BlankIffAllWhitespace(policy.matchRule.resourcePattern);
    if IsBlank(policy.policyId) then Some(ValidationError("policy_id is required"))
    else if IsBlank(policy.tenantId) then Some(ValidationError("tenant_id is required"))
    else if policy.scope.subjectType !in SUBJECT_TYPES then
      Some(ValidationError("invalid subject_type: " + policy.scope.subjectType))
    else if policy.scope.resourceType !in RESOURCE_TYPES then
      Some(ValidationError("invalid resource_type: " + policy.scope.resourceType))
    else if IsBlank(policy.matchRule.resourcePattern) then
      Some(ValidationError("match.resource_pattern is required"))
    else if |policy.limits| == 0 then
      Some(ValidationError("policy.limits must contain at least one limit"))
    else None
  }

  /** `validatePolicy`: the first rule the policy breaks, if any. */
  function PolicyError(policy: PolicyBody): (r: Option<EngineError>)
    ensures r.None? <==> PolicyValid(policy)
    ensures r.Some? ==> r.value.ValidationError?
  {
    if PolicyHeaderError(policy).Some? then PolicyHeaderError(policy) else FirstLimitError(policy.limits)
  }
}
