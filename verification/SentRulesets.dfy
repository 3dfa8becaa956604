/**
  What is sent to GitHub for a definition (mapper/github_ruleset_mapper.go), described without the differ: reading the
  sent ruleset back gives the definition again, but for what GitHub has no place for and the spelling of defaults.
 */
module SentRulesets {
  import opened Collections
  import opened RulesetTypes
  import opened RulesetMapper
  import opened RulesetDiffer
  import opened RoundTrip

  // ---------------------------------------------------------------- reading back

  function ReadActor(g: GhActor): BypassActor {
    BypassActor(g.id, None, WithDefault(g.actorType, ""), WithDefault(g.mode, ""))
  }

  function ReadReviewer(g: GhReviewer): RequiredReviewer {
    var who := WithDefault(g.reviewer, GhReviewerRef(None, None));
    RequiredReviewer(WithDefault(g.minimumApprovals, 0), g.filePatterns,
                     Reviewer(who.id, None, WithDefault(who.reviewerType, "")))
  }

  function ReadPullRequest(g: GhPullRequest): PullRequestRule {
    PullRequestRule(
      MapSeq(MethodName, g.allowedMergeMethods), Some(g.dismissStaleReviewsOnPush), Some(g.requireCodeOwnerReview),
      Some(g.requireLastPushApproval), g.requiredApprovingReviewCount, Some(g.requiredReviewThreadResolution),
      MapSeq(ReadReviewer, g.requiredReviewers))
  }

  function ReadCheck(g: GhCheck): StatusCheck { StatusCheck(g.context, g.integrationId, None) }

  function ReadChecks(g: GhStatusChecks): RequiredStatusChecks {
    RequiredStatusChecks(MapSeq(ReadCheck, g.checks), Some(g.strict))
  }

  function ReadCopilot(g: GhCopilot): CopilotReviewRule {
    CopilotReviewRule(Some(g.reviewOnPush), Some(g.reviewDraftPullRequests))
  }

  function ReadWorkflow(g: GhWorkflow): RuleWorkflow { RuleWorkflow(g.path, "", g.ref, g.repositoryId) }

  function ReadWorkflows(g: GhWorkflows): WorkflowsRule {
    WorkflowsRule(g.doNotEnforceOnCreate, MapSeq(ReadWorkflow, g.workflows))
  }

  function ReadRules(g: GhRules): Rules {
    Rules(Some(g.creation), Some(g.update.Some?), Some(g.deletion), Some(g.requiredLinearHistory),
          Some(g.requiredSignatures), Some(g.nonFastForward), MapOption(ReadPullRequest, g.pullRequest),
          MapOption(ReadChecks, g.requiredStatusChecks), g.commitMessagePattern, g.commitAuthorEmailPattern,
          g.committerEmailPattern, g.branchNamePattern, g.tagNamePattern, MapOption(ReadCopilot, g.copilotReview),
          MapOption(ReadWorkflows, g.workflows))
  }

  /** The definition a GitHub ruleset with rules and a target reads as. */
  function ReadBack(g: GhRuleset): RulesetSpec
    requires g.target.Some? && g.rules.Some?
  {
    RulesetSpec(g.name, "", g.target.value, g.conditions, g.enforcement, MapSeq(ReadActor, g.bypassActors),
                ReadRules(g.rules.value))
  }

  // ---------------------------------------------------------------- what is lost

  function WithoutSlug(r: RequiredReviewer): RequiredReviewer { r.(reviewer := r.reviewer.(slug := None)) }

  function KnownMethod(m: string): string { if m == "rebase" || m == "squash" then m else "merge" }

  function Explicit(o: Option<bool>, default: bool): Option<bool> { Some(if o.Some? then o.value else default) }

  function PlainPullRequest(r: PullRequestRule): PullRequestRule {
    r.(allowedMergeMethods :=
         if r.allowedMergeMethods == [] then ["merge"] else MapSeq(KnownMethod, r.allowedMergeMethods),
       dismissStaleReviewsOnPush := Explicit(r.dismissStaleReviewsOnPush, false),
       requireCodeOwnerReviews := Explicit(r.requireCodeOwnerReviews, false),
       requireLastPushApproval := Explicit(r.requireLastPushApproval, false),
       requiredReviewThreadResolution := Explicit(r.requiredReviewThreadResolution, false),
       requiredReviewers := MapSeq(WithoutSlug, r.requiredReviewers))
  }

  function PlainChecks(r: RequiredStatusChecks): RequiredStatusChecks {
    RequiredStatusChecks(MapSeq((c: StatusCheck) => c.(appSlug := None), r.checks), Explicit(r.strictPolicy, false))
  }

  function PlainCopilot(r: CopilotReviewRule): CopilotReviewRule {
    CopilotReviewRule(Explicit(r.reviewOnPush, true), Explicit(r.reviewDraftPullRequests, true))
  }

  function PlainWorkflows(r: WorkflowsRule): WorkflowsRule {
    r.(workflows := MapSeq((w: RuleWorkflow) => w.(repositoryName := ""), r.workflows))
  }

  function PlainRules(r: Rules): Rules {
    r.(creation := Explicit(r.creation, false), update := Explicit(r.update, false),
       deletion := Explicit(r.deletion, false), requiredLinearHistory := Explicit(r.requiredLinearHistory, false),
       requiredSignatures := Explicit(r.requiredSignatures, false), nonFastForward := Explicit(r.nonFastForward, false),
       pullRequest := MapOption(PlainPullRequest, r.pullRequest),
       requiredStatusChecks := MapOption(PlainChecks, r.requiredStatusChecks),
       copilotReview := MapOption(PlainCopilot, r.copilotReview), workflows := MapOption(PlainWorkflows, r.workflows))
  }

  /** Repository properties give way to repository names. */
  function PlainConditions(c: Conditions): Conditions {
    if c.repositoryName.Some? then c.(repositoryProperty := None) else c
  }

  /** A definition without slugs, repository names of workflows and extends, with every default written out. */
  function Plain(spec: RulesetSpec): RulesetSpec {
    spec.(parent := "", conditions := MapOption(PlainConditions, spec.conditions),
          bypassActors := MapSeq((a: BypassActor) => a.(slug := None), spec.bypassActors), rules := PlainRules(spec.rules))
  }

  // ---------------------------------------------------------------- how it is spelled

  ghost predicate SpelledActor(g: GhActor) { g.actorType.Some? && g.mode != Some("") }

  ghost predicate SpelledReviewer(g: GhReviewer) {
    g.minimumApprovals.Some? && g.reviewer.Some? && g.reviewer.value.reviewerType.Some?
  }

  /**
    The spelling in which rulesets are sent: without id, with target and rules, an update rule only with its flag set, no
    empty bypass mode and no empty list of merge methods, every reviewer entry complete, and not both repository conditions.
   */
  ghost predicate Spelled(g: GhRuleset) {
    && g.id.None? && g.name != "" && g.target.Some? && g.rules.Some? && g.rules.value.update != Some(false)
    && (forall i :: 0 <= i < |g.bypassActors| ==> SpelledActor(g.bypassActors[i]))
    && (g.conditions.Some? ==>
          g.conditions.value.repositoryName.None? || g.conditions.value.repositoryProperty.None?)
    && (g.rules.value.pullRequest.Some? ==> SpelledPullRequest(g.rules.value.pullRequest.value))
  }

  ghost predicate SpelledPullRequest(g: GhPullRequest) {
    g.allowedMergeMethods != [] &&
    forall i :: 0 <= i < |g.requiredReviewers| ==> SpelledReviewer(g.requiredReviewers[i])
  }

  // ---------------------------------------------------------------- the theorems

  lemma MethodsReadBack(ms: seq<string>)
    ensures MapSeq(MethodName, MapMergeMethods(ms)) == if ms == [] then ["merge"] else MapSeq(KnownMethod, ms)
  {
  }

  lemma PullRequestReadsBack(r: PullRequestRule)
    ensures ReadPullRequest(MapPullRequest(r)) == PlainPullRequest(r) && SpelledPullRequest(MapPullRequest(r))
  {
    MethodsReadBack(r.allowedMergeMethods);
    assert MapSeq(ReadReviewer, MapSeq(MapReviewer, r.requiredReviewers)) == MapSeq(WithoutSlug, r.requiredReviewers);
  }

  lemma ListRulesReadBack(r: Rules)
    ensures MapOption(ReadChecks, MapOption(MapStatusChecks, r.requiredStatusChecks)) ==
            MapOption(PlainChecks, r.requiredStatusChecks)
    ensures MapOption(ReadWorkflows, MapOption(MapWorkflows, r.workflows)) == MapOption(PlainWorkflows, r.workflows)
  {
    if r.requiredStatusChecks.Some? {
      var cs := r.requiredStatusChecks.value.checks;
      assert MapSeq(ReadCheck, MapSeq(MapCheck, cs)) == MapSeq((c: StatusCheck) => c.(appSlug := None), cs);
    }
    if r.workflows.Some? {
      var ws := r.workflows.value.workflows;
      assert MapSeq(ReadWorkflow, MapSeq(MapWorkflow, ws)) == MapSeq((w: RuleWorkflow) => w.(repositoryName := ""), ws);
    }
  }

  lemma RulesReadBack(r: Rules)
    ensures ReadRules(MapRules(r)) == PlainRules(r)
  {
    if r.pullRequest.Some? {
      PullRequestReadsBack(r.pullRequest.value);
    }
    ListRulesReadBack(r);
    assert MapOption(ReadPullRequest, MapOption(MapPullRequest, r.pullRequest)) ==
           MapOption(PlainPullRequest, r.pullRequest);
    assert MapOption(ReadCopilot, MapOption(MapCopilot, r.copilotReview)) == MapOption(PlainCopilot, r.copilotReview);
  }

  /** Everything but the lost parts is sent, entry by entry and in order; an empty name is the only error. */
  lemma SentReadsBack(spec: RulesetSpec)
    ensures ToGitHub(spec).None? <==> spec.name == ""
    ensures ToGitHub(spec).Some? ==> Spelled(ToGitHub(spec).value) && ReadBack(ToGitHub(spec).value) == Plain(spec)
  {
    if spec.name != "" {
      RulesReadBack(spec.rules);
      if spec.rules.pullRequest.Some? {
        PullRequestReadsBack(spec.rules.pullRequest.value);
      }
      assert MapSeq(ReadActor, MapSeq(MapActor, spec.bypassActors)) ==
             MapSeq((a: BypassActor) => a.(slug := None), spec.bypassActors);
    }
  }

  lemma PullRequestSentAgain(g: GhPullRequest)
    requires SpelledPullRequest(g)
    ensures MapPullRequest(ReadPullRequest(g)) == g
  {
    var ms := g.allowedMergeMethods;
    assert MapSeq(MapMergeMethod, MapSeq(MethodName, ms)) == ms;
    assert MapSeq(MapReviewer, MapSeq(ReadReviewer, g.requiredReviewers)) == g.requiredReviewers;
  }

  lemma ListRulesSentAgain(g: GhRules)
    ensures MapOption(MapStatusChecks, MapOption(ReadChecks, g.requiredStatusChecks)) == g.requiredStatusChecks
    ensures MapOption(MapWorkflows, MapOption(ReadWorkflows, g.workflows)) == g.workflows
  {
    if g.requiredStatusChecks.Some? {
      assert MapSeq(MapCheck, MapSeq(ReadCheck, g.requiredStatusChecks.value.checks)) ==
             g.requiredStatusChecks.value.checks;
    }
    if g.workflows.Some? {
      assert MapSeq(MapWorkflow, MapSeq(ReadWorkflow, g.workflows.value.workflows)) == g.workflows.value.workflows;
    }
  }

  lemma RulesSentAgain(g: GhRules)
    requires g.update != Some(false) && (g.pullRequest.Some? ==> SpelledPullRequest(g.pullRequest.value))
    ensures MapRules(ReadRules(g)) == g
  {
    if g.pullRequest.Some? {
      PullRequestSentAgain(g.pullRequest.value);
    }
    ListRulesSentAgain(g);
    assert MapOption(MapPullRequest, MapOption(ReadPullRequest, g.pullRequest)) == g.pullRequest;
    assert MapOption(MapCopilot, MapOption(ReadCopilot, g.copilotReview)) == g.copilotReview;
    assert g.update.Some? ==> g.update.value;
  }

  /** In that spelling nothing is lost: what was read back is sent as it was. */
  lemma ReadBackIsSentAgain(g: GhRuleset)
    requires Spelled(g)
    ensures ToGitHub(ReadBack(g)) == Some(g)
  {
    RulesSentAgain(g.rules.value);
    assert MapSeq(MapActor, MapSeq(ReadActor, g.bypassActors)) == g.bypassActors;
  }

  /**
    So the mapping is fixed by these: a definition is sent as the only ruleset in that spelling that reads back as its
    plain form.
   */
  lemma SentIsTheOnlyOne(spec: RulesetSpec, g: GhRuleset)
    requires spec.name != ""
    ensures ToGitHub(spec) == Some(g) <==> Spelled(g) && ReadBack(g) == Plain(spec)
  {
    SentReadsBack(spec);
    if Spelled(g) && ReadBack(g) == Plain(spec) {
      ReadBackIsSentAgain(g);
      ReadBackIsSentAgain(ToGitHub(spec).value);
    }
  }

  /** What is sent looks like the definition, if that gives at most one of the repository conditions. */
  lemma SentLooksTheSame(spec: RulesetSpec)
    requires spec.name != "" && OneRepositoryCondition(spec)
    ensures ViewGh(ToGitHub(spec).value) == ViewSpec(spec)
  {
    assert MapSeq(ViewGhActor, MapSeq(MapActor, spec.bypassActors)) == MapSeq(ViewActor, spec.bypassActors);
    RulesLookTheSame(spec.rules);
  }

  lemma RulesLookTheSame(r: Rules)
    ensures ViewGhRules(MapRules(r)) == ViewRules(r)
  {
    if r.pullRequest.Some? {
      var rs := r.pullRequest.value.requiredReviewers;
      assert MapSeq(ViewGhReviewer, MapSeq(MapReviewer, rs)) == MapSeq(ViewReviewer, rs);
    }
    if r.requiredStatusChecks.Some? {
      var cs := r.requiredStatusChecks.value.checks;
      assert MapSeq(ViewGhCheck, MapSeq(MapCheck, cs)) == MapSeq(ViewCheck, cs);
    }
    if r.workflows.Some? {
      var ws := r.workflows.value.workflows;
      assert MapSeq(ViewGhWorkflow, MapSeq(MapWorkflow, ws)) == MapSeq(ViewWorkflow, ws);
    }
  }
}
