/**
  Rulesets as GitHub stores them, and the mapping of a definition to one (mapper/github_ruleset_mapper.go). Condition
  and pattern records have the same shape on both sides and are shared.
 */
module RulesetMapper {
  import opened Collections
  import opened RulesetTypes

  datatype GhRuleset = GhRuleset(
    id: Option<int>,
    name: string,
    target: Option<string>,
    enforcement: string,
    bypassActors: seq<GhActor>,
    conditions: Option<Conditions>,
    rules: Option<GhRules>)

  datatype GhActor = GhActor(id: Option<int>, actorType: Option<string>, mode: Option<string>)

  datatype GhRules = GhRules(
    creation: bool,  // a rule without parameters is present or not
    update: Option<bool>,  // updateAllowsFetchAndMerge of a present rule
    deletion: bool,
    requiredLinearHistory: bool,
    requiredSignatures: bool,
    nonFastForward: bool,
    pullRequest: Option<GhPullRequest>,
    requiredStatusChecks: Option<GhStatusChecks>,
    commitMessagePattern: Option<PatternRule>,
    commitAuthorEmailPattern: Option<PatternRule>,
    committerEmailPattern: Option<PatternRule>,
    branchNamePattern: Option<PatternRule>,
    tagNamePattern: Option<PatternRule>,
    copilotReview: Option<GhCopilot>,
    workflows: Option<GhWorkflows>)

  datatype MergeMethod = Rebase | Squash | Merge

  datatype GhPullRequest = GhPullRequest(
    allowedMergeMethods: seq<MergeMethod>,
    dismissStaleReviewsOnPush: bool,
    requireCodeOwnerReview: bool,
    requireLastPushApproval: bool,
    requiredApprovingReviewCount: int,
    requiredReviewThreadResolution: bool,
    requiredReviewers: seq<GhReviewer>)

  datatype GhReviewer =
    GhReviewer(minimumApprovals: Option<int>, filePatterns: seq<string>, reviewer: Option<GhReviewerRef>)

  datatype GhReviewerRef = GhReviewerRef(id: Option<int>, reviewerType: Option<string>)

  datatype GhStatusChecks = GhStatusChecks(checks: seq<GhCheck>, strict: bool)

  datatype GhCheck = GhCheck(context: string, integrationId: Option<int>)

  datatype GhCopilot = GhCopilot(reviewOnPush: bool, reviewDraftPullRequests: bool)

  datatype GhWorkflows = GhWorkflows(doNotEnforceOnCreate: Option<bool>, workflows: seq<GhWorkflow>)

  datatype GhWorkflow = GhWorkflow(path: string, repositoryId: Option<int>, ref: Option<string>)

  // ---------------------------------------------------------------- the mapping

  function MapActor(a: BypassActor): GhActor {
    GhActor(a.id, Some(a.actorType), if a.mode == "" then None else Some(a.mode))
  }

  /** Repository properties are only mapped when no repository names are given. */
  function MapConditions(c: Option<Conditions>): Option<Conditions> {
    if c.None? then None
    else Some(Conditions(c.value.refName, c.value.repositoryName,
                         if c.value.repositoryName.Some? then None else c.value.repositoryProperty))
  }

  function MapReviewer(r: RequiredReviewer): GhReviewer {
    GhReviewer(Some(r.minimumApprovals), r.filePatterns,
               Some(GhReviewerRef(r.reviewer.id, Some(r.reviewer.reviewerType))))
  }

  function MapMergeMethod(m: string): MergeMethod {
    if m == "rebase" then Rebase else if m == "squash" then Squash else Merge
  }

  function MapMergeMethods(ms: seq<string>): seq<MergeMethod> {
    if ms == [] then [Merge] else MapSeq(MapMergeMethod, ms)
  }

  function MapPullRequest(r: PullRequestRule): GhPullRequest {
    GhPullRequest(
      MapMergeMethods(r.allowedMergeMethods),
      WithDefault(r.dismissStaleReviewsOnPush, false),
      WithDefault(r.requireCodeOwnerReviews, false),
      WithDefault(r.requireLastPushApproval, false),
      r.requiredApprovingReviewCount,
      WithDefault(r.requiredReviewThreadResolution, false),
      MapSeq(MapReviewer, r.requiredReviewers))
  }

  function MapCheck(c: StatusCheck): GhCheck { GhCheck(c.context, c.integrationId) }

  function MapStatusChecks(r: RequiredStatusChecks): GhStatusChecks {
    GhStatusChecks(MapSeq(MapCheck, r.checks), WithDefault(r.strictPolicy, false))
  }

  function MapCopilot(r: CopilotReviewRule): GhCopilot {
    GhCopilot(WithDefault(r.reviewOnPush, true), WithDefault(r.reviewDraftPullRequests, true))
  }

  function MapWorkflow(w: RuleWorkflow): GhWorkflow { GhWorkflow(w.path, w.repositoryId, w.ref) }

  function MapWorkflows(r: WorkflowsRule): GhWorkflows {
    GhWorkflows(r.doNotEnforceOnCreate, MapSeq(MapWorkflow, r.workflows))
  }

  function MapOption<A, B>(f: A -> B, o: Option<A>): Option<B> {
    if o.None? then None else Some(f(o.value))
  }

  function MapRules(r: Rules): GhRules {
    GhRules(
      WithDefault(r.creation, false),
      if WithDefault(r.update, false) then Some(true) else None,
      WithDefault(r.deletion, false),
      WithDefault(r.requiredLinearHistory, false),
      WithDefault(r.requiredSignatures, false),
      WithDefault(r.nonFastForward, false),
      MapOption(MapPullRequest, r.pullRequest),
      MapOption(MapStatusChecks, r.requiredStatusChecks),
      r.commitMessagePattern,
      r.commitAuthorEmailPattern,
      r.committerEmailPattern,
      r.branchNamePattern,
      r.tagNamePattern,
      MapOption(MapCopilot, r.copilotReview),
      MapOption(MapWorkflows, r.workflows))
  }

  /** `RulesetSpecToGithubRuleset`: None is the error for an empty name. */
  function ToGitHub(spec: RulesetSpec): Option<GhRuleset> {
    if spec.name == "" then None
    else Some(GhRuleset(None, spec.name, Some(spec.target), spec.enforcement, MapSeq(MapActor, spec.bypassActors),
                        MapConditions(spec.conditions), Some(MapRules(spec.rules))))
  }
}
