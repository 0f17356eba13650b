/** The keys of the limiter-state maps and of the idempotency cache. */
module Keys {
  import opened Wrappers
  import opened Models

  /**
   * The limiter-state key: the policy's tenant and id, the subject's type
   * and id, the resource's type and name, the limit's kind and its index
   * in the policy's list, as a tuple.
   */
  datatype StateKey = StateKey(
    tenantId: string,
    policyId: string,
    subjectType: string,
    subjectId: string,
    resourceType: string,
    resourceName: string,
    kind: LimitKind,
    limitIndex: nat)

  /** `stateKey(policy, request, index, kind)`. */
  function StateKeyOf(policy: Policy, request: ConsumeRequest, index: nat, kind: LimitKind): StateKey {
    StateKey(policy.body.tenantId, policy.body.policyId,
             request.subject.subjectType, request.subject.id,
             request.resource.resourceType, request.resource.name,
             kind, index)
  }

  /**
   * Two evaluations share limiter state exactly when they agree on the
   * policy's tenant and id, the subject, the resource, the kind and the
   * limit's index.
   */
  lemma StateKeyInjective(p1: Policy, r1: ConsumeRequest, i1: nat, k1: LimitKind,
                          p2: Policy, r2: ConsumeRequest, i2: nat, k2: LimitKind)
    ensures StateKeyOf(p1, r1, i1, k1) == StateKeyOf(p2, r2, i2, k2) <==>
      && p1.body.tenantId == p2.body.tenantId && p1.body.policyId == p2.body.policyId
      && r1.subject.subjectType == r2.subject.subjectType && r1.subject.id == r2.subject.id
      && r1.resource.resourceType == r2.resource.resourceType && r1.resource.name == r2.resource.name
      && k1 == k2 && i1 == i2
  {
  }

  /** The idempotency key: the tenant and the request id, as a pair. */
  datatype IdempotencyKey = IdempotencyKey(tenantId: string, requestId: string)

  /** A request carries an idempotency key when its request id is present and not empty. */
  function IdempotencyKeyOf(request: ConsumeRequest): (r: Option<IdempotencyKey>)
    ensures r.Some? <==> request.requestId.Some? && request.requestId.value != ""
    ensures r.Some? ==> r.value == IdempotencyKey(request.tenantId, request.requestId.value)
  {
    match request.requestId
    case Some(id) => if id != "" then Some(IdempotencyKey(request.tenantId, id)) else None
    case None => None
  }
}
