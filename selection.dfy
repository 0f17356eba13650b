/**
 * Policy selection (`selectPolicy`) and listing (`listPolicies`): a filter
 * over the stored policies in insertion order, then a sort by descending
 * priority and ascending id.
 */
module Selection {
  import opened Wrappers
  import opened Dict
  import opened Sorting
  import opened Models
  import opened Matching

  /**
   * `Array.prototype.filter`: the passing elements, each as often as in
   * the input and in the input's order.
   */
  function Filter<T(!new)>(s: seq<T>, keep: T -> bool): (r: seq<T>)
    ensures forall x :: x in r <==> x in s && keep(x)
    ensures multiset(r) <= multiset(s)
    ensures forall x :: keep(x) ==> multiset(r)[x] == multiset(s)[x]
    ensures Subsequence(r, s)
  {
    if s == [] then []
    else
      var rest := Filter(s[1..], keep);
      assert s == [s[0]] + s[1..];
      if keep(s[0]) then
        assert ([s[0]] + rest)[1..] == rest;
        [s[0]] + rest
      else
        assert rest != [] ==> rest[0] != s[0] by {
          if rest != [] { assert rest[0] in rest; }
        }
        rest
  }

  /** The comparator `(a, b) => b.priority - a.priority || a.policy_id.localeCompare(b.policy_id)`, read as "sorts before". */
  predicate PolicyBefore(a: Policy, b: Policy) {
    a.body.priority > b.body.priority ||
    (a.body.priority == b.body.priority && StrLess(a.body.policyId, b.body.policyId))
  }

  lemma PolicyBeforeIsStrictWeakOrder()
    ensures StrictWeakOrder(PolicyBefore)
  {
    forall a: Policy, b: Policy | PolicyBefore(a, b) ensures !PolicyBefore(b, a) {
      if a.body.priority == b.body.priority {
        StrLessAsymmetric(a.body.policyId, b.body.policyId);
      }
    }
    forall a: Policy, b: Policy, c: Policy | !PolicyBefore(b, a) && !PolicyBefore(c, b)
      ensures !PolicyBefore(c, a)
    {
      if a.body.priority == b.body.priority == c.body.priority {
        StrNotLessTransitive(a.body.policyId, b.body.policyId, c.body.policyId);
      }
    }
  }

  /** The order a listing or a selection ranks policies in. */
  function RankPolicies(ps: seq<Policy>): (r: seq<Policy>)
    ensures multiset(r) == multiset(ps)
    ensures forall i, j :: 0 <= i < j < |r| ==> !PolicyBefore(r[j], r[i])
  {
    PolicyBeforeIsStrictWeakOrder();
    SortBySorted(ps, PolicyBefore);
    SortBy(ps, PolicyBefore)
  }

  lemma SameMembers<T>(a: seq<T>, b: seq<T>)
    requires multiset(a) == multiset(b)
    ensures forall x :: x in a <==> x in b
  {
    forall x ensures x in a <==> x in b {
      assert x in a <==> x in multiset(a);
      assert x in b <==> x in multiset(b);
    }
  }

  /** The first ranked policy is one of them and ranks no later than any of them. */
  lemma FirstRankedIsBest(ps: seq<Policy>)
    requires ps != []
    ensures RankPolicies(ps) != [] && RankPolicies(ps)[0] in ps
    ensures forall q :: q in ps ==>
      q.body.priority < RankPolicies(ps)[0].body.priority ||
      (q.body.priority == RankPolicies(ps)[0].body.priority &&
       !StrLess(q.body.policyId, RankPolicies(ps)[0].body.policyId))
  {
    var r := RankPolicies(ps);
    assert |r| == |multiset(ps)| == |ps|;
    SameMembers(r, ps);
    forall q | q in ps
      ensures q.body.priority < r[0].body.priority ||
              (q.body.priority == r[0].body.priority && !StrLess(q.body.policyId, r[0].body.policyId))
    {
      var j :| 0 <= j < |r| && r[j] == q;
      if j > 0 {
        assert !PolicyBefore(r[j], r[0]);
      } else {
        StrLessIrreflexive(q.body.policyId);
      }
    }
  }

  /** The filters of `selectPolicy`, in order. */
  predicate IsCandidate(p: Policy, tenantId: string, subject: Subject, resource: Resource) {
    && p.body.tenantId == tenantId
    && p.body.status == "ACTIVE"
    && p.body.scope.subjectType == subject.subjectType
    && p.body.scope.resourceType == resource.resourceType
    && GlobMatch(p.body.matchRule.resourcePattern, resource.name)
    && MatchSubjectFilter(p.body.matchRule.subjectFilter, subject)
  }

  /**
   * `selectPolicy`: the first of the ranked candidates. A policy is chosen
   * exactly when some stored policy is a candidate; the chosen one is a
   * candidate, and no candidate has a higher priority or the same priority
   * and a smaller id.
   */
  function SelectPolicy(policies: Dict<string, Policy>, tenantId: string, subject: Subject, resource: Resource)
    : (r: Option<Policy>)
    ensures r.Some? <==> exists p :: p in Values(policies) && IsCandidate(p, tenantId, subject, resource)
    ensures r.Some? ==> r.value in Values(policies) && IsCandidate(r.value, tenantId, subject, resource)
    ensures r.Some? ==> forall q :: q in Values(policies) && IsCandidate(q, tenantId, subject, resource) ==>
      q.body.priority < r.value.body.priority ||
      (q.body.priority == r.value.body.priority && !StrLess(q.body.policyId, r.value.body.policyId))
  {
    var candidates := Filter(Values(policies), p => IsCandidate(p, tenantId, subject, resource));
    var ranked := RankPolicies(candidates);
    if candidates == [] then
      None
    else
      FirstRankedIsBest(candidates);
      Some(ranked[0])
  }

  /** Keep every policy when the tenant filter is absent or empty, else only that tenant's. */
  predicate InTenant(p: Policy, tenantId: Option<string>) {
    tenantId.None? || tenantId.value == "" || p.body.tenantId == tenantId.value
  }

  /**
   * `listPolicies`: exactly the stored policies of the tenant (all of them
   * without a tenant), each as often as stored, ranked by descending
   * priority and then ascending id.
   */
  function ListPolicies(policies: Dict<string, Policy>, tenantId: Option<string>): (r: seq<Policy>)
    ensures multiset(r) == multiset(Filter(Values(policies), p => InTenant(p, tenantId)))
    ensures forall p :: p in r <==> p in Values(policies) && InTenant(p, tenantId)
    ensures forall i, j :: 0 <= i < j < |r| ==>
      r[i].body.priority > r[j].body.priority ||
      (r[i].body.priority == r[j].body.priority && !StrLess(r[j].body.policyId, r[i].body.policyId))
  {
    var kept := Filter(Values(policies), p => InTenant(p, tenantId));
    var r := RankPolicies(kept);
    SameMembers(r, kept);
    r
  }
}
