/**
 * Combining the per-limit results of the selected policy into one decision,
 * and the decision given when no policy applies.
 */
module Aggregation {
  import opened Wrappers
  import opened Models

  /** The present values, in order: `filter((value) => value !== null)`. */
  function Present<T(!new)>(xs: seq<Option<T>>): (r: seq<T>)
    ensures forall x :: x in r <==> Some(x) in xs
    ensures r == [] <==> forall i :: 0 <= i < |xs| ==> xs[i].None?
  {
    if xs == [] then []
    else
      assert forall o :: o in xs <==> o == xs[0] || o in xs[1..] by {
        assert xs == [xs[0]] + xs[1..];
      }
      (if xs[0].Some? then [xs[0].value] else []) + Present(xs[1..])
  }

  /** `le` is total and transitive, as `<=` on numbers is. */
  ghost predicate TotalPreorder<T(!new)>(le: (T, T) -> bool) {
    && (forall a, b :: le(a, b) || le(b, a))
    && (forall a, b, c :: le(a, b) && le(b, c) ==> le(a, c))
  }

  /** `Math.min(...xs)`: an element of `xs` at most every element. */
  function MinBy<T(!new)>(xs: seq<T>, le: (T, T) -> bool): (m: T)
    requires xs != []
    requires TotalPreorder(le)
    ensures m in xs && forall x :: x in xs ==> le(m, x)
  {
    if |xs| == 1 then xs[0]
    else
      var rest := MinBy(xs[1..], le);
      assert forall x :: x in xs ==> x == xs[0] || x in xs[1..] by {
        assert xs == [xs[0]] + xs[1..];
      }
      if le(xs[0], rest) then xs[0] else rest
  }

  /** The retry waits of the denied results. */
  function DeniedRetries(results: seq<LimitResult>): (r: seq<Option<int>>)
    ensures |r| == |results|
    ensures forall i :: 0 <= i < |results| ==> r[i] == if results[i].allowed then None else results[i].retryAfterMs
  {
    seq(|results|, i requires 0 <= i < |results| => if results[i].allowed then None else results[i].retryAfterMs)
  }

  function Remainings(results: seq<LimitResult>): (r: seq<Option<real>>)
    ensures |r| == |results|
    ensures forall i :: 0 <= i < |results| ==> r[i] == results[i].remaining
  {
    seq(|results|, i requires 0 <= i < |results| => results[i].remaining)
  }

  function Resets(results: seq<LimitResult>): (r: seq<Option<int>>)
    ensures |r| == |results|
    ensures forall i :: 0 <= i < |results| ==> r[i] == results[i].resetAt
  {
    seq(|results|, i requires 0 <= i < |results| => results[i].resetAt)
  }

  /** The least present value, if any. */
  function LeastBy<T(!new)>(xs: seq<Option<T>>, le: (T, T) -> bool): (m: Option<T>)
    requires TotalPreorder(le)
    ensures m.Some? <==> exists i :: 0 <= i < |xs| && xs[i].Some?
    ensures m.Some? ==> (exists i :: 0 <= i < |xs| && xs[i] == m) &&
                        forall i :: 0 <= i < |xs| && xs[i].Some? ==> le(m.value, xs[i].value)
  {
    var present := Present(xs);
    if present == [] then
      None
    else
      var m := MinBy(present, le);
      assert forall i :: 0 <= i < |xs| && xs[i].Some? ==> le(m, xs[i].value) by {
        forall i | 0 <= i < |xs| && xs[i].Some? ensures le(m, xs[i].value) {
          assert xs[i].value in present;
        }
      }
      Some(m)
  }

  /** `a <= b` on integers and on reals, as comparators. */
  function IntAtMost(a: int, b: int): bool { a <= b }
  function RealAtMost(a: real, b: real): bool { a <= b }

  /** The shortest retry wait reported by a denying limit. */
  function ShortestRetry(results: seq<LimitResult>): (m: Option<int>)
    ensures m.Some? <==> exists i :: 0 <= i < |results| && !results[i].allowed && results[i].retryAfterMs.Some?
    ensures m.Some? ==>
      && (exists i :: 0 <= i < |results| && !results[i].allowed && results[i].retryAfterMs == m)
      && forall i :: 0 <= i < |results| && !results[i].allowed && results[i].retryAfterMs.Some? ==>
           m.value <= results[i].retryAfterMs.value
  {
    var xs := DeniedRetries(results);
    var m := LeastBy(xs, IntAtMost);
    assert forall i :: 0 <= i < |results| ==> (xs[i].Some? <==> !results[i].allowed && results[i].retryAfterMs.Some?);
    m
  }

  /** The least remaining allowance reported by any limit. */
  function LeastRemaining(results: seq<LimitResult>): (m: Option<real>)
    ensures m.Some? <==> exists i :: 0 <= i < |results| && results[i].remaining.Some?
    ensures m.Some? ==>
      && (exists i :: 0 <= i < |results| && results[i].remaining == m)
      && forall i :: 0 <= i < |results| && results[i].remaining.Some? ==> m.value <= results[i].remaining.value
  {
    var xs := Remainings(results);
    LeastBy(xs, RealAtMost)
  }

  /** The earliest reset time reported by any limit. */
  function EarliestReset(results: seq<LimitResult>): (m: Option<int>)
    ensures m.Some? <==> exists i :: 0 <= i < |results| && results[i].resetAt.Some?
    ensures m.Some? ==>
      && (exists i :: 0 <= i < |results| && results[i].resetAt == m)
      && forall i :: 0 <= i < |results| && results[i].resetAt.Some? ==> m.value <= results[i].resetAt.value
  {
    var xs := Resets(results);
    LeastBy(xs, IntAtMost)
  }

  /**
   * The decision of a selected policy: allowed exactly when every limit
   * allows; on a deny, the shortest retry wait among the denying limits
   * that report one; on an allow, the least remaining allowance among the
   * limits; and the earliest reset time among the limits that report one.
   */
  function Aggregate(policyId: string, results: seq<LimitResult>): (d: Decision)
    ensures d.policyId == Some(policyId) && d.results == results
    ensures d.allowed <==> forall i :: 0 <= i < |results| ==> results[i].allowed
    ensures d.retryAfterMs == if d.allowed then None else ShortestRetry(results)
    ensures d.remaining == if d.allowed then LeastRemaining(results) else None
    ensures d.resetAt == EarliestReset(results)
  {
    var allowed := forall i :: 0 <= i < |results| ==> results[i].allowed;
    Decision(allowed, Some(policyId), results,
             if allowed then None else ShortestRetry(results),
             if allowed then LeastRemaining(results) else None,
             EarliestReset(results))
  }

  /** The decision when no active policy matches: allowed, with nothing else reported. */
  const IMPLICIT_ALLOW: Decision := Decision(true, None, [], None, None, None)
}
