/** `RulesetsDiffer` and its comparators (mapper/github_ruleset_mapper.go). */
module RulesetDiffer {
  import opened Collections
  import opened KeyedMerge
  import opened RulesetTypes
  import opened RulesetMapper

  /** Every entry of `a` has a matching entry of `b` under the same key. */
  predicate AllMatched<A, B, K(==)>(a: map<K, A>, b: map<K, B>, same: (A, B) -> bool) {
    forall k :: k in a ==> k in b && same(a[k], b[k])
  }

  /** Equal length, and everything in `b` occurs in `a`. */
  predicate StringsEqual(a: seq<string>, b: seq<string>) {
    |a| == |b| && forall s :: s in b ==> s in a
  }

  // ---------------------------------------------------------------- bypass actors

  function ActorKey(actorType: string, id: Option<int>): string {
    actorType + "/" + FormatInt(WithDefault(id, 0))
  }

  function SpecActorKey(a: BypassActor): string { ActorKey(a.actorType, a.id) }

  function GhActorKey(a: GhActor): string { ActorKey(WithDefault(a.actorType, "unknown"), a.id) }

  predicate SameActor(a: BypassActor, g: GhActor) {
    g.actorType == Some(a.actorType) && a.mode == WithDefault(g.mode, "")
  }

  predicate BypassActorsDiffer(xs: seq<BypassActor>, gs: seq<GhActor>) {
    |xs| != |gs| || !AllMatched(LastByKey(xs, SpecActorKey), LastByKey(gs, GhActorKey), SameActor)
  }

  // ---------------------------------------------------------------- conditions

  predicate RefNameDiffers(a: Option<RefNameCondition>, g: Option<RefNameCondition>) {
    match (a, g)
    case (None, None) => false
    case (Some(x), Some(y)) => !StringsEqual(x.include_, y.include_) || !StringsEqual(x.exclude, y.exclude)
    case _ => true
  }

  predicate RepositoryNameDiffers(a: Option<RepositoryNameCondition>, g: Option<RepositoryNameCondition>) {
    match (a, g)
    case (None, None) => false
    case (Some(x), Some(y)) =>
      || !StringsEqual(x.include_, y.include_)
      || !StringsEqual(x.exclude, y.exclude)
      || WithDefault(x.protected, false) != WithDefault(y.protected, false)
    case _ => true
  }

  function TargetName(t: PropertyTarget): string { t.name }

  predicate SameTarget(a: PropertyTarget, g: PropertyTarget) {
    StringsEqual(a.values, g.values) && WithDefault(a.source, "custom") == WithDefault(g.source, "custom")
  }

  predicate PropertyTargetsDiffer(xs: seq<PropertyTarget>, gs: seq<PropertyTarget>) {
    !AllMatched(LastByKey(xs, TargetName), LastByKey(gs, TargetName), SameTarget)
  }

  predicate RepositoryPropertyDiffers(a: Option<RepositoryPropertyCondition>, g: Option<RepositoryPropertyCondition>) {
    match (a, g)
    case (None, None) => false
    case (Some(x), Some(y)) =>
      || |x.include_| != |y.include_|
      || |x.exclude| != |y.exclude|
      || PropertyTargetsDiffer(x.include_, y.include_)
      || PropertyTargetsDiffer(x.exclude, y.exclude)
    case _ => true
  }

  predicate ConditionsDiffer(a: Option<Conditions>, g: Option<Conditions>) {
    match (a, g)
    case (None, None) => false
    case (Some(x), Some(y)) =>
      || RefNameDiffers(x.refName, y.refName)
      || RepositoryNameDiffers(x.repositoryName, y.repositoryName)
      || RepositoryPropertyDiffers(x.repositoryProperty, y.repositoryProperty)
    case _ => true
  }

  // ---------------------------------------------------------------- rules

  function SpecReviewerKey(r: RequiredReviewer): Option<(int, string)> {
    Some((WithDefault(r.reviewer.id, 0), r.reviewer.reviewerType))
  }

  /** None for an entry without a reviewer, which no definition has. */
  function GhReviewerKey(g: GhReviewer): Option<(int, string)> {
    if g.reviewer.None? then None
    else Some((WithDefault(g.reviewer.value.id, 0), WithDefault(g.reviewer.value.reviewerType, "")))
  }

  predicate SameReviewer(r: RequiredReviewer, g: GhReviewer) {
    r.minimumApprovals == WithDefault(g.minimumApprovals, 0) && StringsEqual(r.filePatterns, g.filePatterns)
  }

  /** Unlike the other lists, each GitHub entry is looked up among the definition's. */
  predicate ReviewerMatched(byKey: map<Option<(int, string)>, RequiredReviewer>, g: GhReviewer) {
    GhReviewerKey(g) in byKey && SameReviewer(byKey[GhReviewerKey(g)], g)
  }

  predicate RequiredReviewersDiffer(rs: seq<RequiredReviewer>, gs: seq<GhReviewer>) {
    |rs| != |gs| || exists g :: g in gs && !ReviewerMatched(LastByKey(rs, SpecReviewerKey), g)
  }

  predicate PullRequestDiffers(a: Option<PullRequestRule>, g: Option<GhPullRequest>) {
    match (a, g)
    case (None, None) => false
    case (Some(x), Some(y)) =>
      || WithDefault(x.dismissStaleReviewsOnPush, false) != y.dismissStaleReviewsOnPush
      || WithDefault(x.requireCodeOwnerReviews, false) != y.requireCodeOwnerReview
      || WithDefault(x.requireLastPushApproval, false) != y.requireLastPushApproval
      || x.requiredApprovingReviewCount != y.requiredApprovingReviewCount
      || WithDefault(x.requiredReviewThreadResolution, false) != y.requiredReviewThreadResolution
      || RequiredReviewersDiffer(x.requiredReviewers, y.requiredReviewers)
    case _ => true
  }

  function CheckContext(c: StatusCheck): string { c.context }

  function GhCheckContext(c: GhCheck): string { c.context }

  predicate SameCheck(c: StatusCheck, g: GhCheck) { c.integrationId == g.integrationId }

  predicate StatusChecksDiffer(a: Option<RequiredStatusChecks>, g: Option<GhStatusChecks>) {
    match (a, g)
    case (None, None) => false
    case (Some(x), Some(y)) =>
      || WithDefault(x.strictPolicy, false) != y.strict
      || |x.checks| != |y.checks|
      || !AllMatched(LastByKey(x.checks, CheckContext), LastByKey(y.checks, GhCheckContext), SameCheck)
    case _ => true
  }

  predicate CopilotDiffers(a: Option<CopilotReviewRule>, g: Option<GhCopilot>) {
    match (a, g)
    case (None, None) => false
    case (Some(x), Some(y)) =>
      || WithDefault(x.reviewDraftPullRequests, true) != y.reviewDraftPullRequests
      || WithDefault(x.reviewOnPush, true) != y.reviewOnPush
    case _ => true
  }

  function WorkflowKeyOf(id: Option<int>, path: string): string {
    FormatInt(WithDefault(id, -1)) + ":" + path
  }

  function SpecWorkflowKey(w: RuleWorkflow): string { WorkflowKeyOf(w.repositoryId, w.path) }

  function GhWorkflowKey(w: GhWorkflow): string { WorkflowKeyOf(w.repositoryId, w.path) }

  predicate SameWorkflow(w: RuleWorkflow, g: GhWorkflow) {
    w.repositoryId == g.repositoryId && WithDefault(w.ref, "") == WithDefault(g.ref, "")
  }

  predicate WorkflowsDiffer(a: Option<WorkflowsRule>, g: Option<GhWorkflows>) {
    match (a, g)
    case (None, None) => false
    case (Some(x), Some(y)) =>
      || WithDefault(x.doNotEnforceOnCreate, false) != WithDefault(y.doNotEnforceOnCreate, false)
      || |x.workflows| != |y.workflows|
      || !AllMatched(LastByKey(x.workflows, SpecWorkflowKey), LastByKey(y.workflows, GhWorkflowKey), SameWorkflow)
    case _ => true
  }

  predicate PatternDiffers(a: Option<PatternRule>, g: Option<PatternRule>) {
    match (a, g)
    case (None, None) => false
    case (Some(x), Some(y)) =>
      || x.pattern != y.pattern
      || x.operator != y.operator
      || WithDefault(x.negate, false) != WithDefault(y.negate, false)
    case _ => true
  }

  predicate PatternsDiffer(r: Rules, g: GhRules) {
    || PatternDiffers(r.commitMessagePattern, g.commitMessagePattern)
    || PatternDiffers(r.commitAuthorEmailPattern, g.commitAuthorEmailPattern)
    || PatternDiffers(r.committerEmailPattern, g.committerEmailPattern)
    || PatternDiffers(r.branchNamePattern, g.branchNamePattern)
    || PatternDiffers(r.tagNamePattern, g.tagNamePattern)
  }

  predicate HasAnyRulesSet(r: Rules) {
    || WithDefault(r.creation, false) || WithDefault(r.update, false) || WithDefault(r.deletion, false)
    || WithDefault(r.requiredLinearHistory, false) || WithDefault(r.nonFastForward, false)
    || WithDefault(r.requiredSignatures, false)
    || r.pullRequest.Some? || r.requiredStatusChecks.Some? || r.commitMessagePattern.Some?
    || r.commitAuthorEmailPattern.Some? || r.committerEmailPattern.Some? || r.branchNamePattern.Some?
    || r.tagNamePattern.Some? || r.copilotReview.Some? || r.workflows.Some?
  }

  predicate FlagsDiffer(r: Rules, g: GhRules) {
    || WithDefault(r.creation, false) != g.creation
    || WithDefault(r.update, false) != g.update.Some?
    || WithDefault(r.deletion, false) != g.deletion
    || WithDefault(r.requiredLinearHistory, false) != g.requiredLinearHistory
    || WithDefault(r.nonFastForward, false) != g.nonFastForward
    || WithDefault(r.requiredSignatures, false) != g.requiredSignatures
  }

  predicate RulesDiffer(r: Rules, g: Option<GhRules>) {
    if g.None? then HasAnyRulesSet(r)
    else
      || FlagsDiffer(r, g.value)
      || PullRequestDiffers(r.pullRequest, g.value.pullRequest)
      || StatusChecksDiffer(r.requiredStatusChecks, g.value.requiredStatusChecks)
      || CopilotDiffers(r.copilotReview, g.value.copilotReview)
      || WorkflowsDiffer(r.workflows, g.value.workflows)
      || PatternsDiffer(r, g.value)
  }

  predicate RulesetsDiffer(spec: RulesetSpec, g: GhRuleset) {
    || spec.name != g.name
    || spec.target != WithDefault(g.target, "branch")
    || spec.enforcement != g.enforcement
    || BypassActorsDiffer(spec.bypassActors, g.bypassActors)
    || ConditionsDiffer(spec.conditions, g.conditions)
    || RulesDiffer(spec.rules, g.rules)
  }

  // ---------------------------------------------------------------- the loops of the comparators

  /** The loop over the definition's map that all list comparators but the reviewers' share. */
  method FindUnmatched<A, B, K(==)>(a: map<K, A>, b: map<K, B>, same: (A, B) -> bool) returns (differ: bool)
    ensures differ <==> !AllMatched(a, b, same)
  {
    var rest := a.Keys;
    while rest != {}
      invariant rest <= a.Keys
      invariant forall k :: k in a && k !in rest ==> k in b && same(a[k], b[k])
      decreases |rest|
    {
      var k :| k in rest;
      if k !in b || !same(a[k], b[k]) {
        return true;
      }
      rest := rest - {k};
    }
    return false;
  }

  method CompareStrings(a: seq<string>, b: seq<string>) returns (equal: bool)
    ensures equal <==> StringsEqual(a, b)
  {
    if |a| != |b| {
      return false;
    }
    var inA: set<string> := {};
    for i := 0 to |a|
      invariant inA == Elems(a[..i])
    {
      ElemsPrefix(a, i);
      inA := inA + {a[i]};
    }
    assert a[..|a|] == a;
    for i := 0 to |b|
      invariant forall s :: s in b[..i] ==> s in a
    {
      if b[i] !in inA {
        return false;
      }
      assert b[..i + 1] == b[..i] + [b[i]];
    }
    assert b[..|b|] == b;
    return true;
  }

  method CompareBypassActors(xs: seq<BypassActor>, gs: seq<GhActor>) returns (differ: bool)
    ensures differ <==> BypassActorsDiffer(xs, gs)
  {
    if |xs| != |gs| {
      return true;
    }
    var mine := IndexByKey(xs, SpecActorKey);
    var theirs := IndexByKey(gs, GhActorKey);
    differ := FindUnmatched(mine, theirs, SameActor);
  }

  method CompareRequiredReviewers(rs: seq<RequiredReviewer>, gs: seq<GhReviewer>) returns (differ: bool)
    ensures differ <==> RequiredReviewersDiffer(rs, gs)
  {
    if |rs| != |gs| {
      return true;
    }
    var mine := IndexByKey(rs, SpecReviewerKey);
    for i := 0 to |gs|
      invariant forall j :: 0 <= j < i ==> ReviewerMatched(mine, gs[j])
    {
      var matched := CompareReviewer(mine, gs[i]);
      if !matched {
        assert gs[i] in gs && !ReviewerMatched(LastByKey(rs, SpecReviewerKey), gs[i]);
        return true;
      }
    }
    return false;
  }

  method CompareReviewer(mine: map<Option<(int, string)>, RequiredReviewer>, g: GhReviewer) returns (matched: bool)
    requires None !in mine
    ensures matched <==> ReviewerMatched(mine, g)
  {
    if g.reviewer.None? {
      return false;
    }
    var key := GhReviewerKey(g);
    if key !in mine || mine[key].minimumApprovals != WithDefault(g.minimumApprovals, 0) {
      return false;
    }
    matched := CompareStrings(mine[key].filePatterns, g.filePatterns);
  }

  method CompareWorkflows(a: Option<WorkflowsRule>, g: Option<GhWorkflows>) returns (differ: bool)
    ensures differ <==> WorkflowsDiffer(a, g)
  {
    if a.None? && g.None? {
      return false;
    }
    if a.None? || g.None? {
      return true;
    }
    if WithDefault(a.value.doNotEnforceOnCreate, false) != WithDefault(g.value.doNotEnforceOnCreate, false) {
      return true;
    }
    if |a.value.workflows| != |g.value.workflows| {
      return true;
    }
    var mine := IndexByKey(a.value.workflows, SpecWorkflowKey);
    var theirs := IndexByKey(g.value.workflows, GhWorkflowKey);
    differ := FindUnmatched(mine, theirs, SameWorkflow);
  }

  method CompareStatusChecks(a: Option<RequiredStatusChecks>, g: Option<GhStatusChecks>) returns (differ: bool)
    ensures differ <==> StatusChecksDiffer(a, g)
  {
    if a.None? && g.None? {
      return false;
    }
    if a.None? || g.None? {
      return true;
    }
    if WithDefault(a.value.strictPolicy, false) != g.value.strict || |a.value.checks| != |g.value.checks| {
      return true;
    }
    var mine := IndexByKey(a.value.checks, CheckContext);
    var theirs := IndexByKey(g.value.checks, GhCheckContext);
    differ := FindUnmatched(mine, theirs, SameCheck);
  }

  method ComparePropertyTargets(xs: seq<PropertyTarget>, gs: seq<PropertyTarget>) returns (differ: bool)
    ensures differ <==> PropertyTargetsDiffer(xs, gs)
  {
    var mine := IndexByKey(xs, TargetName);
    var theirs := IndexByKey(gs, TargetName);
    differ := FindUnmatched(mine, theirs, SameTarget);
  }
}
