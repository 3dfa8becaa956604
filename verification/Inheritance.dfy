/**
  What every field of an effective ruleset is, without folding: fields that are inherited or atomic come from the nearest
  ruleset of the chain that sets them, and the keys that merged lists are matched by identify their entries.
 */
module Inheritance {
  import opened Collections
  import opened ChainFold
  import opened RulesetTypes
  import opened RulesetMerge

  /** Ruleset `i` sets the field and no nearer one does. */
  ghost predicate Nearest<S, T>(chain: seq<S>, field: S -> Option<T>, i: nat)
    requires i < |chain|
  {
    field(chain[i]).Some? && forall j :: 0 <= j < i ==> field(chain[j]).None?
  }

  /** `eff` has the field from the nearest record of the chain that sets it; it is unset if none does. */
  ghost predicate FromNearest<S, T>(chain: seq<S>, field: S -> Option<T>, eff: S) {
    && (forall i :: 0 <= i < |chain| && Nearest(chain, field, i) ==> field(eff) == field(chain[i]))
    && ((forall i :: 0 <= i < |chain| ==> field(chain[i]).None?) ==> field(eff).None?)
  }

  /** The merge takes this field over on its own. */
  ghost predicate Inherits<S(!new), T(!new)>(merge: (S, S) -> S, field: S -> Option<T>) {
    forall p, c {:trigger merge(p, c)} :: field(merge(p, c)) == InheritPtr(field(p), field(c))
  }

  function FirstSet<T>(values: seq<Option<T>>): Option<T> {
    if values == [] then None else if values[0].Some? then values[0] else FirstSet(values[1..])
  }

  lemma {:induction false} FoldPointers<T>(values: seq<Option<T>>)
    requires |values| > 0
    ensures FoldChain(values, (p, c) => InheritPtr(p, c)) == FirstSet(values)
  {
    if |values| == 1 {
      assert values[1..] == [];
    } else {
      FoldPointers(values[1..]);
    }
  }

  lemma {:induction false} FirstSetAt<T>(values: seq<Option<T>>, i: nat)
    requires i < |values| && values[i].Some? && forall j :: 0 <= j < i ==> values[j].None?
    ensures FirstSet(values) == values[i]
  {
    if i > 0 {
      FirstSetAt(values[1..], i - 1);
    }
  }

  lemma {:induction false} FirstSetNone<T>(values: seq<Option<T>>)
    requires forall i :: 0 <= i < |values| ==> values[i].None?
    ensures FirstSet(values).None?
  {
    if values != [] {
      FirstSetNone(values[1..]);
    }
  }

  lemma {:induction false} FoldFromNearest<S(!new), T(!new)>(chain: seq<S>, merge: (S, S) -> S, field: S -> Option<T>)
    requires |chain| > 0 && Inherits(merge, field)
    ensures FromNearest(chain, field, FoldChain(chain, merge))
  {
    var values, eff := MapSeq(field, chain), FoldChain(chain, merge);
    assert field(eff) == FirstSet(values) by {
      ProjectChain(chain, merge, field, (p, c) => InheritPtr(p, c));
      FoldPointers(values);
    }
    forall i | 0 <= i < |chain| && Nearest(chain, field, i) ensures field(eff) == field(chain[i]) {
      FirstSetAt(values, i);
    }
    if forall i :: 0 <= i < |chain| ==> field(chain[i]).None? {
      FirstSetNone(values);
    }
  }

  // ---------------------------------------------------------------- fields of the ruleset and of its rules

  function ConditionsOf(s: RulesetSpec): Option<Conditions> { s.conditions }
  function CreationOf(s: RulesetSpec): Option<bool> { s.rules.creation }
  function UpdateOf(s: RulesetSpec): Option<bool> { s.rules.update }
  function DeletionOf(s: RulesetSpec): Option<bool> { s.rules.deletion }
  function LinearHistoryOf(s: RulesetSpec): Option<bool> { s.rules.requiredLinearHistory }
  function SignaturesOf(s: RulesetSpec): Option<bool> { s.rules.requiredSignatures }
  function NonFastForwardOf(s: RulesetSpec): Option<bool> { s.rules.nonFastForward }
  function CommitMessageOf(s: RulesetSpec): Option<PatternRule> { s.rules.commitMessagePattern }
  function CommitAuthorEmailOf(s: RulesetSpec): Option<PatternRule> { s.rules.commitAuthorEmailPattern }
  function CommitterEmailOf(s: RulesetSpec): Option<PatternRule> { s.rules.committerEmailPattern }
  function BranchNameOf(s: RulesetSpec): Option<PatternRule> { s.rules.branchNamePattern }
  function TagNameOf(s: RulesetSpec): Option<PatternRule> { s.rules.tagNamePattern }

  /** Conditions and patterns are taken whole, flags one by one, each from the nearest ruleset that sets it. */
  ghost predicate FlagsFromNearest(chain: seq<RulesetSpec>, eff: RulesetSpec) {
    && FromNearest(chain, CreationOf, eff) && FromNearest(chain, UpdateOf, eff) && FromNearest(chain, DeletionOf, eff)
    && FromNearest(chain, LinearHistoryOf, eff) && FromNearest(chain, SignaturesOf, eff)
    && FromNearest(chain, NonFastForwardOf, eff)
  }

  ghost predicate AtomicFromNearest(chain: seq<RulesetSpec>, eff: RulesetSpec) {
    && FromNearest(chain, ConditionsOf, eff)
    && FromNearest(chain, CommitMessageOf, eff) && FromNearest(chain, CommitAuthorEmailOf, eff)
    && FromNearest(chain, CommitterEmailOf, eff) && FromNearest(chain, BranchNameOf, eff)
    && FromNearest(chain, TagNameOf, eff)
  }

  lemma EffectiveFields(chain: seq<RulesetSpec>)
    requires |chain| > 0
    ensures FlagsFromNearest(chain, FoldSpecs(chain)) && AtomicFromNearest(chain, FoldSpecs(chain))
  {
    FoldFromNearest(chain, MergeSpec, CreationOf);
    FoldFromNearest(chain, MergeSpec, UpdateOf);
    FoldFromNearest(chain, MergeSpec, DeletionOf);
    FoldFromNearest(chain, MergeSpec, LinearHistoryOf);
    FoldFromNearest(chain, MergeSpec, SignaturesOf);
    FoldFromNearest(chain, MergeSpec, NonFastForwardOf);
    FoldFromNearest(chain, MergeSpec, ConditionsOf);
    FoldFromNearest(chain, MergeSpec, CommitMessageOf);
    FoldFromNearest(chain, MergeSpec, CommitAuthorEmailOf);
    FoldFromNearest(chain, MergeSpec, CommitterEmailOf);
    FoldFromNearest(chain, MergeSpec, BranchNameOf);
    FoldFromNearest(chain, MergeSpec, TagNameOf);
  }

  lemma SameField<S, T>(chain: seq<S>, field: S -> Option<T>, eff: S, r: S)
    requires FromNearest(chain, field, eff) && field(r) == field(eff)
    ensures FromNearest(chain, field, r)
  {
  }

  lemma FlagsCarryOver(chain: seq<RulesetSpec>, eff: RulesetSpec, r: RulesetSpec)
    requires FlagsFromNearest(chain, eff) && r.rules == eff.rules
    ensures FlagsFromNearest(chain, r)
  {
    SameField(chain, CreationOf, eff, r);
    SameField(chain, UpdateOf, eff, r);
    SameField(chain, DeletionOf, eff, r);
    SameField(chain, LinearHistoryOf, eff, r);
    SameField(chain, SignaturesOf, eff, r);
    SameField(chain, NonFastForwardOf, eff, r);
  }

  lemma AtomicCarryOver(chain: seq<RulesetSpec>, eff: RulesetSpec, r: RulesetSpec)
    requires AtomicFromNearest(chain, eff) && r.rules == eff.rules && r.conditions == eff.conditions
    ensures AtomicFromNearest(chain, r)
  {
    SameField(chain, ConditionsOf, eff, r);
    SameField(chain, CommitMessageOf, eff, r);
    SameField(chain, CommitAuthorEmailOf, eff, r);
    SameField(chain, CommitterEmailOf, eff, r);
    SameField(chain, BranchNameOf, eff, r);
    SameField(chain, TagNameOf, eff, r);
  }

  // ---------------------------------------------------------------- fields of the recursively merged objects

  /** An empty list and a zero count mean "not set". */
  function MergeMethodsOf(r: PullRequestRule): Option<seq<string>> {
    if r.allowedMergeMethods == [] then None else Some(r.allowedMergeMethods)
  }

  function ReviewCountOf(r: PullRequestRule): Option<int> {
    if r.requiredApprovingReviewCount == 0 then None else Some(r.requiredApprovingReviewCount)
  }

  function DismissStaleOf(r: PullRequestRule): Option<bool> { r.dismissStaleReviewsOnPush }
  function CodeOwnerOf(r: PullRequestRule): Option<bool> { r.requireCodeOwnerReviews }
  function LastPushOf(r: PullRequestRule): Option<bool> { r.requireLastPushApproval }
  function ThreadsOf(r: PullRequestRule): Option<bool> { r.requiredReviewThreadResolution }
  function StrictOf(r: RequiredStatusChecks): Option<bool> { r.strictPolicy }
  function ReviewOnPushOf(r: CopilotReviewRule): Option<bool> { r.reviewOnPush }
  function ReviewDraftsOf(r: CopilotReviewRule): Option<bool> { r.reviewDraftPullRequests }
  function OnCreateOf(r: WorkflowsRule): Option<bool> { r.doNotEnforceOnCreate }
  function CopilotOf(s: RulesetSpec): Option<CopilotReviewRule> { s.rules.copilotReview }

  /** The effective object along the chain: absent when no ruleset has one, else the fold of those that do. */
  lemma EffectiveObject<T(!new)>(chain: seq<RulesetSpec>, part: RulesetSpec -> Option<T>, merge: (T, T) -> T)
    requires |chain| > 0
    requires forall p, c {:trigger MergeSpec(p, c)} :: part(MergeSpec(p, c)) == MergeObject(part(p), part(c), merge)
    ensures var present := Present(MapSeq(part, chain));
            part(FoldSpecs(chain)) == if present == [] then None else Some(FoldChain(present, merge))
  {
    ProjectChain(chain, MergeSpec, part, (p, c) => MergeObject(p, c, merge));
    FoldObjects(MapSeq(part, chain), merge);
  }

  ghost predicate PullRequestFromNearest(present: seq<PullRequestRule>, eff: PullRequestRule) {
    && FromNearest(present, MergeMethodsOf, eff) && FromNearest(present, ReviewCountOf, eff)
    && FromNearest(present, DismissStaleOf, eff) && FromNearest(present, CodeOwnerOf, eff)
    && FromNearest(present, LastPushOf, eff) && FromNearest(present, ThreadsOf, eff)
  }

  lemma {:induction false} FoldPullRequests(present: seq<PullRequestRule>)
    requires present != []
    ensures PullRequestFromNearest(present, FoldChain(present, MergePullRequest))
  {
    FoldFromNearest(present, MergePullRequest, MergeMethodsOf);
    FoldFromNearest(present, MergePullRequest, ReviewCountOf);
    FoldFromNearest(present, MergePullRequest, DismissStaleOf);
    FoldFromNearest(present, MergePullRequest, CodeOwnerOf);
    FoldFromNearest(present, MergePullRequest, LastPushOf);
    FoldFromNearest(present, MergePullRequest, ThreadsOf);
  }

  lemma EffectivePullRequest(chain: seq<RulesetSpec>)
    requires |chain| > 0
    ensures var present, eff := Present(MapSeq(PullRequestOf, chain)), FoldSpecs(chain).rules.pullRequest;
            (eff.None? <==> present == []) && (eff.Some? ==> PullRequestFromNearest(present, eff.value))
  {
    EffectiveObject(chain, PullRequestOf, MergePullRequest);
    var present := Present(MapSeq(PullRequestOf, chain));
    if present != [] {
      FoldPullRequests(present);
    }
  }

  /** The scalar fields of the other merged objects. */
  ghost predicate ObjectsFromNearest(chain: seq<RulesetSpec>, eff: RulesetSpec) {
    var checks, copilots, workflows := Present(MapSeq(StatusChecksOf, chain)), Present(MapSeq(CopilotOf, chain)),
                                       Present(MapSeq(WorkflowsOf, chain));
    && (eff.rules.requiredStatusChecks.None? <==> checks == [])
    && (eff.rules.requiredStatusChecks.Some? ==> FromNearest(checks, StrictOf, eff.rules.requiredStatusChecks.value))
    && (eff.rules.copilotReview.None? <==> copilots == [])
    && (eff.rules.copilotReview.Some? ==>
          && FromNearest(copilots, ReviewOnPushOf, eff.rules.copilotReview.value)
          && FromNearest(copilots, ReviewDraftsOf, eff.rules.copilotReview.value))
    && (eff.rules.workflows.None? <==> workflows == [])
    && (eff.rules.workflows.Some? ==> FromNearest(workflows, OnCreateOf, eff.rules.workflows.value))
  }

  lemma EffectiveObjects(chain: seq<RulesetSpec>)
    requires |chain| > 0
    ensures ObjectsFromNearest(chain, FoldSpecs(chain))
  {
    EffectiveObject(chain, StatusChecksOf, MergeStatusChecks);
    EffectiveObject(chain, CopilotOf, MergeCopilotReview);
    EffectiveObject(chain, WorkflowsOf, MergeWorkflows);
    if Present(MapSeq(StatusChecksOf, chain)) != [] {
      FoldFromNearest(Present(MapSeq(StatusChecksOf, chain)), MergeStatusChecks, StrictOf);
    }
    if Present(MapSeq(CopilotOf, chain)) != [] {
      FoldFromNearest(Present(MapSeq(CopilotOf, chain)), MergeCopilotReview, ReviewOnPushOf);
      FoldFromNearest(Present(MapSeq(CopilotOf, chain)), MergeCopilotReview, ReviewDraftsOf);
    }
    if Present(MapSeq(WorkflowsOf, chain)) != [] {
      FoldFromNearest(Present(MapSeq(WorkflowsOf, chain)), MergeWorkflows, OnCreateOf);
    }
  }

  // ---------------------------------------------------------------- the keys identify

  /** Whom an entry names: a slug, else an id, else nobody in particular. */
  datatype Identity = BySlug(slug: string) | ById(id: int) | Anonymous

  function IdentityOf(slug: Option<string>, id: Option<int>): Identity {
    if slug.Some? then BySlug(slug.value) else if id.Some? then ById(id.value) else Anonymous
  }

  predicate NoSlash(s: string) { '/' !in s }

  predicate PlainSlug(slug: Option<string>) { slug.Some? ==> NoSlash(slug.value) }

  lemma FormatIntPlain(i: int)
    ensures NoSlash(FormatInt(i))
  {
    FormatNatDigits(if i < 0 then -i else i);
  }

  lemma SlugOrIdPlain(slug: Option<string>, id: Option<int>)
    requires PlainSlug(slug)
    ensures NoSlash(SlugOrId(slug, id))
  {
    if slug.None? && id.Some? {
      FormatIntPlain(id.value);
    }
  }

  lemma SlugOrIdIdentifies(slug: Option<string>, id: Option<int>, slug': Option<string>, id': Option<int>)
    ensures SlugOrId(slug, id) == SlugOrId(slug', id') <==> IdentityOf(slug, id) == IdentityOf(slug', id')
  {
    var s, t := SlugOrId(slug, id), SlugOrId(slug', id');
    if s == t {
      if slug.Some? {
        assert s[0] == 's';
        assert slug'.Some?;
        assert s[5..] == slug.value && t[5..] == slug'.value;
      } else if id.Some? {
        assert s[0] == 'i';
        assert slug'.None? && id'.Some?;
        assert s[3..] == FormatInt(id.value) && t[3..] == FormatInt(id'.value);
        FormatIntInjective(id.value, id'.value);
      }
    }
  }

  /** The last slash separates. */
  lemma SplitAtLastSlash(a: string, x: string, b: string, y: string)
    requires a + "/" + x == b + "/" + y && NoSlash(x) && NoSlash(y)
    ensures a == b && x == y
  {
    var s := a + "/" + x;
    assert s[|a|] == '/' && s[|b|] == '/';
    assert forall i :: |a| < i < |s| ==> s[i] == x[i - |a| - 1];
    assert forall i :: |b| < i < |s| ==> s[i] == y[i - |b| - 1];
    assert |a| == |b|;
    assert a == s[..|a|] && b == s[..|b|] && x == s[|a| + 1..] && y == s[|b| + 1..];
  }

  /** The first slash separates. */
  lemma SplitAtFirstSlash(a: string, x: string, b: string, y: string)
    requires a + "/" + x == b + "/" + y && NoSlash(a) && NoSlash(b)
    ensures a == b && x == y
  {
    var s := a + "/" + x;
    assert s[|a|] == '/' && s[|b|] == '/';
    assert forall i :: 0 <= i < |a| ==> s[i] == a[i];
    assert forall i :: 0 <= i < |b| ==> s[i] == b[i];
    assert |a| == |b|;
    assert a == s[..|a|] && b == s[..|b|] && x == s[|a| + 1..] && y == s[|b| + 1..];
  }

  /** Status checks are merged exactly when context and providing app are the same, whatever the context contains. */
  lemma StatusCheckKeyIdentifies(a: StatusCheck, b: StatusCheck)
    requires PlainSlug(a.appSlug) && PlainSlug(b.appSlug)
    ensures StatusCheckKey(a) == StatusCheckKey(b) <==>
            a.context == b.context && IdentityOf(a.appSlug, a.integrationId) == IdentityOf(b.appSlug, b.integrationId)
  {
    var x, y := SlugOrId(a.appSlug, a.integrationId), SlugOrId(b.appSlug, b.integrationId);
    SlugOrIdPlain(a.appSlug, a.integrationId);
    SlugOrIdPlain(b.appSlug, b.integrationId);
    SlugOrIdIdentifies(a.appSlug, a.integrationId, b.appSlug, b.integrationId);
    if StatusCheckKey(a) == StatusCheckKey(b) {
      SplitAtLastSlash(a.context, x, b.context, y);
    }
  }

  lemma BypassActorKeyIdentifies(a: BypassActor, b: BypassActor)
    requires NoSlash(a.actorType) && NoSlash(b.actorType)
    ensures BypassActorKey(a) == BypassActorKey(b) <==>
            a.actorType == b.actorType && IdentityOf(a.slug, a.id) == IdentityOf(b.slug, b.id)
  {
    SlugOrIdIdentifies(a.slug, a.id, b.slug, b.id);
    if BypassActorKey(a) == BypassActorKey(b) {
      SplitAtFirstSlash(a.actorType, SlugOrId(a.slug, a.id), b.actorType, SlugOrId(b.slug, b.id));
    }
  }

  lemma ReviewerKeyIdentifies(a: RequiredReviewer, b: RequiredReviewer)
    requires NoSlash(a.reviewer.reviewerType) && NoSlash(b.reviewer.reviewerType)
    ensures ReviewerKey(a) == ReviewerKey(b) <==>
            && a.reviewer.reviewerType == b.reviewer.reviewerType
            && IdentityOf(a.reviewer.slug, a.reviewer.id) == IdentityOf(b.reviewer.slug, b.reviewer.id)
  {
    var r, s := a.reviewer, b.reviewer;
    SlugOrIdIdentifies(r.slug, r.id, s.slug, s.id);
    if ReviewerKey(a) == ReviewerKey(b) {
      SplitAtFirstSlash(r.reviewerType, SlugOrId(r.slug, r.id), s.reviewerType, SlugOrId(s.slug, s.id));
    }
  }

  lemma WorkflowKeyIdentifies(a: RuleWorkflow, b: RuleWorkflow)
    requires NoSlash(a.repositoryName) && NoSlash(b.repositoryName)
    ensures WorkflowKey(a) == WorkflowKey(b) <==> a.repositoryName == b.repositoryName && a.path == b.path
  {
    if WorkflowKey(a) == WorkflowKey(b) {
      SplitAtFirstSlash(a.repositoryName, a.path, b.repositoryName, b.path);
    }
  }

  /** A workflow shares its key with another one of a plainly named repository exactly when its own name has a slash. */
  lemma WorkflowKeyIdentifiesIff(a: RuleWorkflow)
    ensures (forall b: RuleWorkflow :: NoSlash(b.repositoryName) && WorkflowKey(b) == WorkflowKey(a) ==>
                         b.repositoryName == a.repositoryName && b.path == a.path) <==>
            NoSlash(a.repositoryName)
  {
    if NoSlash(a.repositoryName) {
      forall b: RuleWorkflow | NoSlash(b.repositoryName) && WorkflowKey(b) == WorkflowKey(a)
        ensures b.repositoryName == a.repositoryName && b.path == a.path
      {
        WorkflowKeyIdentifies(a, b);
      }
    } else {
      var i := FirstPlace(a.repositoryName, '/');
      var before, after := a.repositoryName[..i], a.repositoryName[i + 1..];
      var b := RuleWorkflow(after + "/" + a.path, before, None, None);
      assert before + "/" + (after + "/" + a.path) == (before + "/" + after) + "/" + a.path;
      assert WorkflowKey(b) == WorkflowKey(a);
    }
  }

  /** No other workflow at all shares its key exactly when neither its repository name nor its path has a slash. */
  lemma WorkflowKeyUniqueIff(a: RuleWorkflow)
    ensures (forall b: RuleWorkflow :: WorkflowKey(b) == WorkflowKey(a) ==>
                                         b.repositoryName == a.repositoryName && b.path == a.path) <==>
            NoSlash(a.repositoryName) && NoSlash(a.path)
  {
    WorkflowKeyIdentifiesIff(a);
    if NoSlash(a.repositoryName) && NoSlash(a.path) {
      forall b: RuleWorkflow | WorkflowKey(b) == WorkflowKey(a)
        ensures b.repositoryName == a.repositoryName && b.path == a.path
      {
        var s := WorkflowKey(a);
        assert forall i :: 0 <= i < |a.repositoryName| ==> s[i] == a.repositoryName[i];
        assert forall i :: |a.repositoryName| < i < |s| ==> s[i] == a.path[i - |a.repositoryName| - 1];
        assert s[|b.repositoryName|] == '/';
        assert |b.repositoryName| == |a.repositoryName|;
        assert b.repositoryName == s[..|b.repositoryName|] && b.path == s[|b.repositoryName| + 1..];
        assert a.repositoryName == s[..|a.repositoryName|] && a.path == s[|a.repositoryName| + 1..];
      }
    } else if !NoSlash(a.path) {
      var i := FirstPlace(a.path, '/');
      var before, after := a.path[..i], a.path[i + 1..];
      var b := RuleWorkflow(after, a.repositoryName + "/" + before, None, None);
      assert (a.repositoryName + "/" + before) + "/" + after == a.repositoryName + "/" + (before + "/" + after);
      assert WorkflowKey(b) == WorkflowKey(a);
    }
  }

  // ---------------------------------------------------------------- status checks and slashes

  /** What `SlugOrId` can yield. */
  ghost predicate Token(t: string) {
    t == "" || "slug:" <= t || exists n: int :: t == "id:" + FormatInt(n)
  }

  lemma TokenOf(t: string) returns (slug: Option<string>, id: Option<int>)
    requires Token(t)
    ensures SlugOrId(slug, id) == t
  {
    if "slug:" <= t {
      slug, id := Some(t[5..]), None;
      assert t == "slug:" + t[5..];
    } else if t == "" {
      slug, id := None, None;
    } else {
      var n: int :| t == "id:" + FormatInt(n);
      slug, id := None, Some(n);
    }
  }

  /** No slash of the context is followed by the mark of a slug. */
  predicate PlainContext(context: string) {
    forall i :: 0 <= i < |context| && context[i] == '/' ==> !("slug:" <= context[i + 1..])
  }

  /** No slash of the slug is followed by something that reads as a slug, an id or nothing. */
  ghost predicate PlainApp(slug: Option<string>) {
    slug.Some? ==> forall i :: 0 <= i < |slug.value| && slug.value[i] == '/' ==> !Token(slug.value[i + 1..])
  }

  /** Two ways to read one key differ only if the longer context contains the mark of a slug after a slash. */
  lemma ShorterContext(c: string, t: string, c': string, slug: Option<string>, id: Option<int>)
    requires c + "/" + t == c' + "/" + SlugOrId(slug, id) && |c'| < |c|
    ensures c[|c'|] == '/' && "slug:" <= c[|c'| + 1..]
  {
    var s, t', v := c + "/" + t, SlugOrId(slug, id), c[|c'| + 1..];
    assert s[|c'|] == '/' && t' == s[|c'| + 1..] == v + "/" + t;
    assert t'[|v|] == '/' && '/' in t';
    if slug.None? && id.Some? {
      FormatIntPlain(id.value);
    }
    assert slug.Some? && "slug:" <= t';
    assert forall i :: 0 <= i < |v| ==> v[i] == t'[i];
    assert forall i :: 0 <= i < 5 ==> t'[i] == "slug:"[i];
    assert |v| >= 5;
  }

  /** ... or if the slug that goes with the shorter one contains, after a slash, what goes with the longer one. */
  lemma LongerContext(c: string, slug: Option<string>, id: Option<int>, c': string, t': string) returns (i: nat)
    requires c + "/" + SlugOrId(slug, id) == c' + "/" + t' && |c| < |c'|
    ensures slug.Some? && i < |slug.value| && slug.value[i] == '/' && slug.value[i + 1..] == t'
  {
    var s, t := c + "/" + SlugOrId(slug, id), SlugOrId(slug, id);
    assert s[|c'|] == '/' && t == s[|c| + 1..] && t' == s[|c'| + 1..];
    var k := |c'| - |c| - 1;
    assert t[k] == '/' && t' == t[k + 1..];
    if slug.None? && id.Some? {
      FormatIntPlain(id.value);
    }
    assert slug.Some? && t == "slug:" + slug.value;
    assert t[0] == 's' && t[1] == 'l' && t[2] == 'u' && t[3] == 'g' && t[4] == ':';
    i := k - 5;
    assert slug.value[i] == t[k] && slug.value[i + 1..] == t[k + 1..];
  }

  lemma TokensAreTokens(slug: Option<string>, id: Option<int>)
    ensures Token(SlugOrId(slug, id))
  {
  }

  /** A check with a plain context and app has a key of its own. */
  lemma PlainKeyIsUnique(a: StatusCheck, b: StatusCheck)
    requires PlainContext(a.context) && PlainApp(a.appSlug) && StatusCheckKey(b) == StatusCheckKey(a)
    ensures b.context == a.context && IdentityOf(b.appSlug, b.integrationId) == IdentityOf(a.appSlug, a.integrationId)
  {
    var t, t' := SlugOrId(a.appSlug, a.integrationId), SlugOrId(b.appSlug, b.integrationId);
    TokensAreTokens(b.appSlug, b.integrationId);
    if |b.context| < |a.context| {
      ShorterContext(a.context, t, b.context, b.appSlug, b.integrationId);
    } else if |b.context| > |a.context| {
      var i := LongerContext(a.context, a.appSlug, a.integrationId, b.context, t');
    }
    var s := StatusCheckKey(a);
    assert a.context == s[..|a.context|] && b.context == s[..|b.context|];
    assert t == s[|a.context| + 1..] && t' == s[|b.context| + 1..];
    SlugOrIdIdentifies(a.appSlug, a.integrationId, b.appSlug, b.integrationId);
  }

  lemma Regroup(x: string, m: string, y: string, t: string)
    ensures x + "/" + (m + (y + "/" + t)) == (x + "/" + (m + y)) + "/" + t
  {
  }

  lemma SlugInContext(a: StatusCheck, i: nat) returns (b: StatusCheck)
    requires i < |a.context| && a.context[i] == '/' && "slug:" <= a.context[i + 1..]
    ensures StatusCheckKey(b) == StatusCheckKey(a) && b.context != a.context
  {
    var x, rest := a.context[..i], a.context[i + 1..];
    var y := rest[5..];
    assert rest == "slug:" + y && a.context == x + "/" + rest;
    b := StatusCheck(x, None, Some(y + "/" + SlugOrId(a.appSlug, a.integrationId)));
    Regroup(x, "slug:", y, SlugOrId(a.appSlug, a.integrationId));
  }

  lemma TokenInSlug(a: StatusCheck, slug: string, i: nat) returns (b: StatusCheck)
    requires a.appSlug == Some(slug) && i < |slug| && slug[i] == '/' && Token(slug[i + 1..])
    ensures StatusCheckKey(b) == StatusCheckKey(a) && b.context != a.context
  {
    var x, rest := slug[..i], slug[i + 1..];
    assert slug == x + "/" + rest;
    var s, n := TokenOf(rest);
    b := StatusCheck(a.context + "/" + ("slug:" + x), n, s);
    Regroup(a.context, "slug:", x, rest);
  }

  /** A check that is not plain shares its key with another one. */
  lemma SharedCheckKey(a: StatusCheck) returns (b: StatusCheck)
    requires !PlainContext(a.context) || !PlainApp(a.appSlug)
    ensures StatusCheckKey(b) == StatusCheckKey(a) && b.context != a.context
  {
    if !PlainContext(a.context) {
      var i :| 0 <= i < |a.context| && a.context[i] == '/' && "slug:" <= a.context[i + 1..];
      b := SlugInContext(a, i);
    } else {
      var slug := a.appSlug.value;
      var i :| 0 <= i < |slug| && slug[i] == '/' && Token(slug[i + 1..]);
      b := TokenInSlug(a, slug, i);
    }
  }

  /** No other check shares its key exactly when its context and its app's slug are plain. */
  lemma StatusCheckKeyUniqueIff(a: StatusCheck)
    ensures (forall b: StatusCheck :: StatusCheckKey(b) == StatusCheckKey(a) ==>
               && b.context == a.context
               && IdentityOf(b.appSlug, b.integrationId) == IdentityOf(a.appSlug, a.integrationId)) <==>
            PlainContext(a.context) && PlainApp(a.appSlug)
  {
    if PlainContext(a.context) && PlainApp(a.appSlug) {
      forall b: StatusCheck | StatusCheckKey(b) == StatusCheckKey(a)
        ensures b.context == a.context
        ensures IdentityOf(b.appSlug, b.integrationId) == IdentityOf(a.appSlug, a.integrationId)
      {
        PlainKeyIsUnique(a, b);
      }
    } else {
      var b := SharedCheckKey(a);
    }
  }

  /** For instance: two checks of different contexts and apps that the merge takes for one. */
  lemma SlugsCollide()
    ensures StatusCheckKey(StatusCheck("x", None, Some("b/slug:c"))) ==
            StatusCheckKey(StatusCheck("x/slug:b", None, Some("c")))
  {
  }
}
