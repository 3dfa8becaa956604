/** `mergeSpec` and its parts (extends_merge.go): a child ruleset merged onto its resolved parent. */
module RulesetMerge {
  import opened Collections
  import opened KeyedMerge
  import opened ChainFold
  import opened RulesetTypes

  /** `inherit` for a value whose zero value means "not set". */
  function Inherit<T(==)>(parent: T, child: T, zero: T): T {
    if child != zero then child else parent
  }

  /** `inherit` for a pointer. */
  function InheritPtr<T>(parent: Option<T>, child: Option<T>): Option<T> {
    if child.Some? then child else parent
  }

  function SlugOrId(slug: Option<string>, id: Option<int>): string {
    if slug.Some? then "slug:" + slug.value
    else if id.Some? then "id:" + FormatInt(id.value)
    else ""
  }

  function BypassActorKey(a: BypassActor): string { a.actorType + "/" + SlugOrId(a.slug, a.id) }

  function StatusCheckKey(c: StatusCheck): string { c.context + "/" + SlugOrId(c.appSlug, c.integrationId) }

  function ReviewerKey(r: RequiredReviewer): string {
    r.reviewer.reviewerType + "/" + SlugOrId(r.reviewer.slug, r.reviewer.id)
  }

  function WorkflowKey(w: RuleWorkflow): string { w.repositoryName + "/" + w.path }

  function MergePullRequest(p: PullRequestRule, c: PullRequestRule): PullRequestRule {
    PullRequestRule(
      if |c.allowedMergeMethods| > 0 then c.allowedMergeMethods else p.allowedMergeMethods,
      InheritPtr(p.dismissStaleReviewsOnPush, c.dismissStaleReviewsOnPush),
      InheritPtr(p.requireCodeOwnerReviews, c.requireCodeOwnerReviews),
      InheritPtr(p.requireLastPushApproval, c.requireLastPushApproval),
      Inherit(p.requiredApprovingReviewCount, c.requiredApprovingReviewCount, 0),
      InheritPtr(p.requiredReviewThreadResolution, c.requiredReviewThreadResolution),
      MergeKeyed(p.requiredReviewers, c.requiredReviewers, ReviewerKey))
  }

  function MergeStatusChecks(p: RequiredStatusChecks, c: RequiredStatusChecks): RequiredStatusChecks {
    RequiredStatusChecks(MergeKeyed(p.checks, c.checks, StatusCheckKey), InheritPtr(p.strictPolicy, c.strictPolicy))
  }

  function MergeCopilotReview(p: CopilotReviewRule, c: CopilotReviewRule): CopilotReviewRule {
    CopilotReviewRule(InheritPtr(p.reviewOnPush, c.reviewOnPush),
                      InheritPtr(p.reviewDraftPullRequests, c.reviewDraftPullRequests))
  }

  function MergeWorkflows(p: WorkflowsRule, c: WorkflowsRule): WorkflowsRule {
    WorkflowsRule(InheritPtr(p.doNotEnforceOnCreate, c.doNotEnforceOnCreate),
                  MergeKeyed(p.workflows, c.workflows, WorkflowKey))
  }

  function MergeRules(p: Rules, c: Rules): Rules {
    Rules(
      InheritPtr(p.creation, c.creation),
      InheritPtr(p.update, c.update),
      InheritPtr(p.deletion, c.deletion),
      InheritPtr(p.requiredLinearHistory, c.requiredLinearHistory),
      InheritPtr(p.requiredSignatures, c.requiredSignatures),
      InheritPtr(p.nonFastForward, c.nonFastForward),
      MergeObject(p.pullRequest, c.pullRequest, MergePullRequest),
      MergeObject(p.requiredStatusChecks, c.requiredStatusChecks, MergeStatusChecks),
      InheritPtr(p.commitMessagePattern, c.commitMessagePattern),
      InheritPtr(p.commitAuthorEmailPattern, c.commitAuthorEmailPattern),
      InheritPtr(p.committerEmailPattern, c.committerEmailPattern),
      InheritPtr(p.branchNamePattern, c.branchNamePattern),
      InheritPtr(p.tagNamePattern, c.tagNamePattern),
      MergeObject(p.copilotReview, c.copilotReview, MergeCopilotReview),
      MergeObject(p.workflows, c.workflows, MergeWorkflows))
  }

  function MergeSpec(p: RulesetSpec, c: RulesetSpec): RulesetSpec {
    RulesetSpec(
      c.name,
      c.parent,
      Inherit(p.target, c.target, ""),
      InheritPtr(p.conditions, c.conditions),
      Inherit(p.enforcement, c.enforcement, ""),
      MergeKeyed(p.bypassActors, c.bypassActors, BypassActorKey),
      MergeRules(p.rules, c.rules))
  }

  // ---------------------------------------------------------------- associativity

  lemma MergePullRequestAssociative(a: PullRequestRule, b: PullRequestRule, c: PullRequestRule)
    ensures MergePullRequest(MergePullRequest(a, b), c) == MergePullRequest(a, MergePullRequest(b, c))
  {
    MergeKeyedAssociative(a.requiredReviewers, b.requiredReviewers, c.requiredReviewers, ReviewerKey);
  }

  lemma MergeStatusChecksAssociative(a: RequiredStatusChecks, b: RequiredStatusChecks, c: RequiredStatusChecks)
    ensures MergeStatusChecks(MergeStatusChecks(a, b), c) == MergeStatusChecks(a, MergeStatusChecks(b, c))
  {
    MergeKeyedAssociative(a.checks, b.checks, c.checks, StatusCheckKey);
  }

  lemma MergeWorkflowsAssociative(a: WorkflowsRule, b: WorkflowsRule, c: WorkflowsRule)
    ensures MergeWorkflows(MergeWorkflows(a, b), c) == MergeWorkflows(a, MergeWorkflows(b, c))
  {
    MergeKeyedAssociative(a.workflows, b.workflows, c.workflows, WorkflowKey);
  }

  lemma MergeRulesAssociative(a: Rules, b: Rules, c: Rules)
    ensures MergeRules(MergeRules(a, b), c) == MergeRules(a, MergeRules(b, c))
  {
    forall x, y, z ensures MergePullRequest(MergePullRequest(x, y), z) == MergePullRequest(x, MergePullRequest(y, z)) {
      MergePullRequestAssociative(x, y, z);
    }
    forall x, y, z
      ensures MergeStatusChecks(MergeStatusChecks(x, y), z) == MergeStatusChecks(x, MergeStatusChecks(y, z))
    {
      MergeStatusChecksAssociative(x, y, z);
    }
    forall x, y, z ensures MergeWorkflows(MergeWorkflows(x, y), z) == MergeWorkflows(x, MergeWorkflows(y, z)) {
      MergeWorkflowsAssociative(x, y, z);
    }
    MergeObjectAssociative(a.pullRequest, b.pullRequest, c.pullRequest, MergePullRequest);
    MergeObjectAssociative(a.requiredStatusChecks, b.requiredStatusChecks, c.requiredStatusChecks, MergeStatusChecks);
    MergeObjectAssociative(a.copilotReview, b.copilotReview, c.copilotReview, MergeCopilotReview);
    MergeObjectAssociative(a.workflows, b.workflows, c.workflows, MergeWorkflows);
  }

  /** The whole ruleset merge is associative. */
  lemma MergeSpecAssociative(a: RulesetSpec, b: RulesetSpec, c: RulesetSpec)
    ensures MergeSpec(MergeSpec(a, b), c) == MergeSpec(a, MergeSpec(b, c))
  {
    MergeKeyedAssociative(a.bypassActors, b.bypassActors, c.bypassActors, BypassActorKey);
    MergeRulesAssociative(a.rules, b.rules, c.rules);
  }

  /** The effective definition of a chain, the ruleset itself first and the base last. */
  function FoldSpecs(chain: seq<RulesetSpec>): RulesetSpec
    requires |chain| > 0
  {
    FoldChain(chain, MergeSpec)
  }

  /** Any contiguous piece of a chain may be merged first without changing the effective ruleset. */
  lemma MergePieceFirst(near: seq<RulesetSpec>, piece: seq<RulesetSpec>, far: seq<RulesetSpec>)
    requires |piece| > 0
    ensures FoldSpecs(near + piece + far) == FoldSpecs(near + [FoldSpecs(piece)] + far)
  {
    forall a, b, c ensures MergeSpec(MergeSpec(a, b), c) == MergeSpec(a, MergeSpec(b, c)) {
      MergeSpecAssociative(a, b, c);
    }
    FoldPiece(near, piece, far, MergeSpec);
  }

  // ---------------------------------------------------------------- the effective keyed lists and scalars

  function TargetOf(s: RulesetSpec): string { s.target }

  function EnforcementOf(s: RulesetSpec): string { s.enforcement }

  function BypassActorsOf(s: RulesetSpec): seq<BypassActor> { s.bypassActors }

  function StatusChecksOf(s: RulesetSpec): Option<RequiredStatusChecks> { s.rules.requiredStatusChecks }

  function CheckListOf(r: RequiredStatusChecks): seq<StatusCheck> { r.checks }

  function PullRequestOf(s: RulesetSpec): Option<PullRequestRule> { s.rules.pullRequest }

  function ReviewerListOf(r: PullRequestRule): seq<RequiredReviewer> { r.requiredReviewers }

  function WorkflowsOf(s: RulesetSpec): Option<WorkflowsRule> { s.rules.workflows }

  function WorkflowListOf(r: WorkflowsRule): seq<RuleWorkflow> { r.workflows }

  lemma EffectiveBypassActors(chain: seq<RulesetSpec>)
    requires |chain| > 0
    ensures FoldSpecs(chain).bypassActors == MergeLists(MapSeq(BypassActorsOf, chain), BypassActorKey)
  {
    ProjectChain(chain, MergeSpec, BypassActorsOf, (p, c) => MergeKeyed(p, c, BypassActorKey));
  }

  /** Rulesets without a status-checks object do not take part; the others' checks are merged by key. */
  lemma EffectiveStatusChecks(chain: seq<RulesetSpec>)
    requires |chain| > 0
    ensures var present := Present(MapSeq(StatusChecksOf, chain));
            var eff := FoldSpecs(chain).rules.requiredStatusChecks;
            && (eff.None? <==> present == [])
            && (eff.Some? ==> eff.value.checks ==
                              MergeLists(MapSeq(CheckListOf, present), StatusCheckKey))
  {
    ProjectChain(chain, MergeSpec, StatusChecksOf, (p, c) => MergeObject(p, c, MergeStatusChecks));
    FoldObjects(MapSeq(StatusChecksOf, chain), MergeStatusChecks);
    var present := Present(MapSeq(StatusChecksOf, chain));
    if present != [] {
      ProjectChain(present, MergeStatusChecks, CheckListOf,
                   (p, c) => MergeKeyed(p, c, StatusCheckKey));
    }
  }

  lemma EffectiveRequiredReviewers(chain: seq<RulesetSpec>)
    requires |chain| > 0
    ensures var present := Present(MapSeq(PullRequestOf, chain));
            var eff := FoldSpecs(chain).rules.pullRequest;
            && (eff.None? <==> present == [])
            && (eff.Some? ==> eff.value.requiredReviewers ==
                              MergeLists(MapSeq(ReviewerListOf, present), ReviewerKey))
  {
    ProjectChain(chain, MergeSpec, PullRequestOf, (p, c) => MergeObject(p, c, MergePullRequest));
    FoldObjects(MapSeq(PullRequestOf, chain), MergePullRequest);
    var present := Present(MapSeq(PullRequestOf, chain));
    if present != [] {
      ProjectChain(present, MergePullRequest, ReviewerListOf,
                   (p, c) => MergeKeyed(p, c, ReviewerKey));
    }
  }

  lemma EffectiveWorkflows(chain: seq<RulesetSpec>)
    requires |chain| > 0
    ensures var present := Present(MapSeq(WorkflowsOf, chain));
            var eff := FoldSpecs(chain).rules.workflows;
            && (eff.None? <==> present == [])
            && (eff.Some? ==> eff.value.workflows ==
                              MergeLists(MapSeq(WorkflowListOf, present), WorkflowKey))
  {
    ProjectChain(chain, MergeSpec, WorkflowsOf, (p, c) => MergeObject(p, c, MergeWorkflows));
    FoldObjects(MapSeq(WorkflowsOf, chain), MergeWorkflows);
    var present := Present(MapSeq(WorkflowsOf, chain));
    if present != [] {
      ProjectChain(present, MergeWorkflows, WorkflowListOf,
                   (p, c) => MergeKeyed(p, c, WorkflowKey));
    }
  }

  /** The first string along the chain that is set. */
  function NearestSet(values: seq<string>): string {
    if values == [] then "" else if values[0] != "" then values[0] else NearestSet(values[1..])
  }

  lemma {:induction false} FoldInherit(values: seq<string>)
    requires |values| > 0
    ensures FoldChain(values, (p, c) => Inherit(p, c, "")) == NearestSet(values)
  {
    if |values| == 1 {
      assert values[1..] == [];
    } else {
      FoldInherit(values[1..]);
    }
  }

  lemma {:induction false} NearestSetEmpty(values: seq<string>)
    ensures NearestSet(values) == "" <==> forall i :: 0 <= i < |values| ==> values[i] == ""
  {
    if values != [] {
      NearestSetEmpty(values[1..]);
      assert forall i :: 0 <= i < |values[1..]| ==> values[1..][i] == values[i + 1];
      assert forall i :: 1 <= i < |values| ==> values[i] == values[1..][i - 1];
    }
  }

  /** Name and extends are the ruleset's own; target and enforcement come from the nearest ruleset that sets them. */
  lemma EffectiveScalars(chain: seq<RulesetSpec>)
    requires |chain| > 0
    ensures var eff := FoldSpecs(chain);
            && eff.name == chain[0].name
            && eff.parent == chain[0].parent
            && eff.target == NearestSet(MapSeq(TargetOf, chain))
            && eff.enforcement == NearestSet(MapSeq(EnforcementOf, chain))
  {
    ProjectChain(chain, MergeSpec, TargetOf, (p, c) => Inherit(p, c, ""));
    FoldInherit(MapSeq(TargetOf, chain));
    ProjectChain(chain, MergeSpec, EnforcementOf, (p, c) => Inherit(p, c, ""));
    FoldInherit(MapSeq(EnforcementOf, chain));
  }
}
