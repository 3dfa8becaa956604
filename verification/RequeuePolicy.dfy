/** `RequeuePolicy` (controller/requeue_policy.go): when a resource is reconciled again after an error. */
module RequeuePolicy {
  import opened Collections
  import opened ErrorTree

  /** Times and durations are in seconds. */
  const MIN_RATE_LIMIT_DELAY := 30

  datatype Policy = Policy(successInterval: int, gitHubStateInterval: int)

  /** `requeueAfter` 0 means no timed requeue; a returned error is retried with backoff. */
  datatype Decision = Decision(requeueAfter: int, err: Option<Err>)

  function Max(a: int, b: int): int { if a < b then b else a }

  function Min(a: int, b: int): int { if a < b then a else b }

  /** The reset time the rate limit errors of the tree carry, the library's first. */
  function ResetTime(e: Err): Option<int> {
    var lib := FindFirst(e, (x: Err) => x.RateLimitReached?);
    var own := FindFirst(e, (x: Err) => x.RateLimited?);
    if lib.Some? && lib.value.RateLimitReached? && lib.value.reset.Some? then lib.value.reset
    else if own.Some? && own.value.RateLimited? then Some(own.value.resetTime)
    else None
  }

  function SpreadDelay(e: Err): Option<int> {
    var found := FindFirst(e, (x: Err) => x.RequiresSpread?);
    if found.Some? && found.value.RequiresSpread? then Some(found.value.delay) else None
  }

  function OnFactoryError(canceled: bool, now: int, e: Err): Decision {
    if canceled then Decision(0, None)
    else if ResetTime(e).Some? then Decision(Max(ResetTime(e).value - now, MIN_RATE_LIMIT_DELAY), None)
    else if SpreadDelay(e).Some? then Decision(SpreadDelay(e).value, None)
    else Decision(0, Some(e))
  }

  /** `apierrors.IsNotFound`: decided by the first Kubernetes status of the tree. */
  predicate IsNotFound(e: Err) {
    FindFirst(e, (x: Err) => x.KubeStatus?) == Some(KubeStatus(true))
  }

  function UserActionInterval(p: Policy, e: Err): int {
    if (AwaitsGitHubChange(e) || IsNotFound(e)) && p.gitHubStateInterval > 0
    then Min(p.successInterval, p.gitHubStateInterval)
    else p.successInterval
  }

  function OnReconcileError(p: Policy, canceled: bool, now: int, e: Err): Decision {
    if RequiresUserAction(e) then Decision(UserActionInterval(p, e), None) else OnFactoryError(canceled, now, e)
  }

  /** Rewording the error does not change the decision, except that a returned error is the reworded one. */
  lemma ReadableKeepsDecision(p: Policy, canceled: bool, now: int, e: Err)
    ensures var d, d' := OnReconcileError(p, canceled, now, e),
                         OnReconcileError(p, canceled, now, WithReadableMessage(e));
            && d'.requeueAfter == d.requeueAfter
            && (d'.err.None? <==> d.err.None?)
  {
    ReadableKeepsClassification(e, (x: Err) => x.RateLimitReached?);
    ReadableKeepsClassification(e, (x: Err) => x.RateLimited?);
    ReadableKeepsClassification(e, (x: Err) => x.RequiresSpread?);
    ReadableKeepsClassification(e, (x: Err) => x.KubeStatus?);
  }

  /** When an error of the reconciliation is not returned: exactly in these four cases. */
  lemma {:induction false} NoErrorReturnedIff(p: Policy, canceled: bool, now: int, e: Err)
    ensures OnReconcileError(p, canceled, now, e).err.None? <==>
            RequiresUserAction(e) || canceled || ResetTime(e).Some? || SpreadDelay(e).Some?
  {
  }

  /** GitHub has to change: the tree contains a marker or a 422 response, or its first Kubernetes status is NotFound. */
  ghost predicate WatchesMiss(e: Err) {
    || Contains(e, (x: Err) => x.Marked? && x.awaits)
    || Contains(e, (x: Err) => x == GitHubResponse(Some(422)))
    || FindFirst(e, (x: Err) => x.KubeStatus?) == Some(KubeStatus(true))
  }

  /**
    What an error that requires user action waits for: the success interval, or the GitHub state interval if that is set
    and shorter and no watch will tell.
   */
  lemma {:induction false} UserActionWait(p: Policy, canceled: bool, now: int, e: Err)
    requires RequiresUserAction(e)
    ensures var d := OnReconcileError(p, canceled, now, e);
            && d.err.None?
            && d.requeueAfter == if WatchesMiss(e) && 0 < p.gitHubStateInterval < p.successInterval
                                 then p.gitHubStateInterval else p.successInterval
  {
    AwaitsIff(e);
    StateMarkerIff(e);
    UnprocessableIff(e);
  }

  /** All other errors: shutdown, then the rate limit (at least 30 seconds), then spreading, else backoff. */
  lemma {:induction false} OtherErrors(p: Policy, canceled: bool, now: int, e: Err)
    requires !RequiresUserAction(e)
    ensures var d := OnReconcileError(p, canceled, now, e);
            d == if canceled then Decision(0, None)
                 else if ResetTime(e).Some? && ResetTime(e).value - now > 30 then Decision(ResetTime(e).value - now, None)
                 else if ResetTime(e).Some? then Decision(30, None)
                 else if SpreadDelay(e).Some? then Decision(SpreadDelay(e).value, None)
                 else Decision(0, Some(e))
    ensures OnFactoryError(canceled, now, e) == OnReconcileError(p, canceled, now, e)
  {
  }

  /** The first rate limit error of the library decides if it has a reset time, else the first one of the client. */
  lemma {:induction false} ResetTimeIs(e: Err)
    ensures match FindFirst(e, (x: Err) => x.RateLimitReached?)
            case Some(RateLimitReached(Some(t))) => ResetTime(e) == Some(t)
            case _ =>
              match FindFirst(e, (x: Err) => x.RateLimited?)
              case Some(RateLimited(t)) => ResetTime(e) == Some(t)
              case _ => ResetTime(e) == None && !Contains(e, (x: Err) => x.RateLimited?)
  {
    FindFirstIff(e, (x: Err) => x.RateLimitReached?);
    FindFirstIff(e, (x: Err) => x.RateLimited?);
  }

  lemma {:induction false} SpreadDelayIs(e: Err)
    ensures match FindFirst(e, (x: Err) => x.RequiresSpread?)
            case Some(RequiresSpread(d)) => SpreadDelay(e) == Some(d)
            case _ => SpreadDelay(e) == None && !Contains(e, (x: Err) => x.RequiresSpread?)
  {
    FindFirstIff(e, (x: Err) => x.RequiresSpread?);
  }
}
