/**
  The ruleset definition of api/v1alpha1/rulesetpreset_types.go. Pointers are `Option`s; a nil and an empty slice are
  the same sequence, as the repository compares definitions with `equality.Semantic.DeepEqual`.
 */
module RulesetTypes {
  import opened Collections

  datatype RulesetSpec = RulesetSpec(
    name: string,
    parent: string,  // the `extends` field; "" for none
    target: string,
    conditions: Option<Conditions>,
    enforcement: string,
    bypassActors: seq<BypassActor>,
    rules: Rules)

  datatype Conditions = Conditions(
    refName: Option<RefNameCondition>,
    repositoryName: Option<RepositoryNameCondition>,
    repositoryProperty: Option<RepositoryPropertyCondition>)

  datatype RefNameCondition = RefNameCondition(include_: seq<string>, exclude: seq<string>)

  datatype RepositoryNameCondition =
    RepositoryNameCondition(include_: seq<string>, exclude: seq<string>, protected: Option<bool>)

  datatype RepositoryPropertyCondition =
    RepositoryPropertyCondition(include_: seq<PropertyTarget>, exclude: seq<PropertyTarget>)

  datatype PropertyTarget = PropertyTarget(name: string, values: seq<string>, source: Option<string>)

  datatype BypassActor = BypassActor(id: Option<int>, slug: Option<string>, actorType: string, mode: string)

  datatype Rules = Rules(
    creation: Option<bool>,
    update: Option<bool>,
    deletion: Option<bool>,
    requiredLinearHistory: Option<bool>,
    requiredSignatures: Option<bool>,
    nonFastForward: Option<bool>,
    pullRequest: Option<PullRequestRule>,
    requiredStatusChecks: Option<RequiredStatusChecks>,
    commitMessagePattern: Option<PatternRule>,
    commitAuthorEmailPattern: Option<PatternRule>,
    committerEmailPattern: Option<PatternRule>,
    branchNamePattern: Option<PatternRule>,
    tagNamePattern: Option<PatternRule>,
    copilotReview: Option<CopilotReviewRule>,
    workflows: Option<WorkflowsRule>)

  datatype PullRequestRule = PullRequestRule(
    allowedMergeMethods: seq<string>,
    dismissStaleReviewsOnPush: Option<bool>,
    requireCodeOwnerReviews: Option<bool>,
    requireLastPushApproval: Option<bool>,
    requiredApprovingReviewCount: int,
    requiredReviewThreadResolution: Option<bool>,
    requiredReviewers: seq<RequiredReviewer>)

  datatype RequiredReviewer = RequiredReviewer(minimumApprovals: int, filePatterns: seq<string>, reviewer: Reviewer)

  datatype Reviewer = Reviewer(id: Option<int>, slug: Option<string>, reviewerType: string)

  datatype RequiredStatusChecks = RequiredStatusChecks(checks: seq<StatusCheck>, strictPolicy: Option<bool>)

  datatype StatusCheck = StatusCheck(context: string, integrationId: Option<int>, appSlug: Option<string>)

  datatype PatternRule = PatternRule(pattern: string, operator: string, negate: Option<bool>)

  datatype CopilotReviewRule = CopilotReviewRule(reviewOnPush: Option<bool>, reviewDraftPullRequests: Option<bool>)

  datatype WorkflowsRule = WorkflowsRule(doNotEnforceOnCreate: Option<bool>, workflows: seq<RuleWorkflow>)

  datatype RuleWorkflow =
    RuleWorkflow(path: string, repositoryName: string, ref: Option<string>, repositoryId: Option<int>)

  // ---------------------------------------------------------------- decimal formatting

  function Digit(d: nat): char
    requires d < 10
  {
    ('0' as int + d) as char
  }

  function FormatNat(n: nat): (s: string)
    ensures |s| > 0
  {
    if n < 10 then [Digit(n)] else FormatNat(n / 10) + [Digit(n % 10)]
  }

  /** `strconv.FormatInt(i, 10)` and the `%d` verb. */
  function FormatInt(i: int): string {
    if i < 0 then "-" + FormatNat(-i) else FormatNat(i)
  }

  lemma {:induction false} FormatNatInjective(m: nat, n: nat)
    requires FormatNat(m) == FormatNat(n)
    ensures m == n
  {
    var s, t := FormatNat(m), FormatNat(n);
    assert s[|s| - 1] == Digit(m % 10) && t[|t| - 1] == Digit(n % 10);
    if m < 10 || n < 10 {
      assert |s| == 1 && |t| == 1;
    } else {
      assert s[..|s| - 1] == FormatNat(m / 10) && t[..|t| - 1] == FormatNat(n / 10);
      FormatNatInjective(m / 10, n / 10);
    }
  }

  lemma {:induction false} FormatNatDigits(n: nat)
    ensures forall c :: c in FormatNat(n) ==> '0' <= c <= '9'
  {
    if n >= 10 {
      FormatNatDigits(n / 10);
    }
  }

  lemma FormatIntSign(i: int)
    ensures FormatInt(i) != [] && (FormatInt(i)[0] == '-' <==> i < 0)
  {
    if i >= 0 {
      FormatNatDigits(i);
      assert FormatInt(i)[0] in FormatNat(i);
    }
  }

  lemma FormatIntInjective(i: int, j: int)
    requires FormatInt(i) == FormatInt(j)
    ensures i == j
  {
    FormatIntSign(i);
    FormatIntSign(j);
    if i < 0 {
      assert FormatInt(i)[1..] == FormatNat(-i) && FormatInt(j)[1..] == FormatNat(-j);
      FormatNatInjective(-i, -j);
    } else {
      FormatNatInjective(i, j);
    }
  }
}
