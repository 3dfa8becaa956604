/** The mapper and the differ agree: what a definition is mapped to does not differ from it, and exactly when not. */
module RoundTrip {
  import opened Collections
  import opened KeyedMerge
  import opened RulesetTypes
  import opened RulesetMapper
  import opened RulesetDiffer

  /** Indexing a mapped list gives the mapped entries of the indexed list. */
  lemma {:induction false} IndexOfMapped<A, B, K>(xs: seq<A>, f: A -> B, ka: A -> K, kb: B -> K)
    requires forall i :: 0 <= i < |xs| ==> kb(f(xs[i])) == ka(xs[i])
    ensures var mine, theirs := LastByKey(xs, ka), LastByKey(MapSeq(f, xs), kb);
            mine.Keys == theirs.Keys && forall k :: k in mine ==> theirs[k] == f(mine[k])
  {
    if xs == [] {
      assert MapSeq(f, xs) == [];
    } else {
      var n := |xs| - 1;
      IndexOfMapped(xs[..n], f, ka, kb);
      assert MapSeq(f, xs) == MapSeq(f, xs[..n]) + [f(xs[n])];
      assert xs == xs[..n] + [xs[n]];
      LastByKeySnoc(xs[..n], xs[n], ka);
      LastByKeySnoc(MapSeq(f, xs[..n]), f(xs[n]), kb);
    }
  }

  /** Every entry, duplicates included, matches what it is mapped to. */
  lemma {:induction false} MappedMatches<A(!new), B, K>(xs: seq<A>, f: A -> B, ka: A -> K, kb: B -> K, same: (A, B) -> bool)
    requires forall x :: kb(f(x)) == ka(x)
    requires forall x :: same(x, f(x))
    ensures AllMatched(LastByKey(xs, ka), LastByKey(MapSeq(f, xs), kb), same)
  {
    IndexOfMapped(xs, f, ka, kb);
  }

  lemma TargetsMatchThemselves(ts: seq<PropertyTarget>)
    ensures !PropertyTargetsDiffer(ts, ts)
  {
  }

  // ---------------------------------------------------------------- the two exceptions

  /** At most one of repository names and repository properties is given. */
  predicate OneRepositoryCondition(spec: RulesetSpec) {
    spec.conditions.Some? ==>
      spec.conditions.value.repositoryName.None? || spec.conditions.value.repositoryProperty.None?
  }

  /** The two entries name one reviewer, by the resolved id. */
  predicate SamePerson(a: RequiredReviewer, b: RequiredReviewer) {
    WithDefault(a.reviewer.id, 0) == WithDefault(b.reviewer.id, 0) && a.reviewer.reviewerType == b.reviewer.reviewerType
  }

  /** As many approvals and patterns as `last` asks for, and none of the patterns is new. */
  predicate NothingNew(r: RequiredReviewer, last: RequiredReviewer) {
    && r.minimumApprovals == last.minimumApprovals
    && |r.filePatterns| == |last.filePatterns|
    && forall p :: p in r.filePatterns ==> p in last.filePatterns
  }

  predicate LastEntry(rs: seq<RequiredReviewer>, j: nat)
    requires j < |rs|
  {
    forall m :: j < m < |rs| ==> !SamePerson(rs[m], rs[j])
  }

  /** No entry of a reviewer asks for anything but what the reviewer's last entry asks for. */
  predicate ReviewersConsistent(rs: seq<RequiredReviewer>) {
    forall i, j :: 0 <= i < |rs| && 0 <= j < |rs| && SamePerson(rs[i], rs[j]) && LastEntry(rs, j) ==>
                     NothingNew(rs[i], rs[j])
  }

  predicate Representable(spec: RulesetSpec) {
    && OneRepositoryCondition(spec)
    && (spec.rules.pullRequest.Some? ==> ReviewersConsistent(spec.rules.pullRequest.value.requiredReviewers))
  }

  lemma ConditionsRoundTrip(spec: RulesetSpec)
    ensures ConditionsDiffer(spec.conditions, MapConditions(spec.conditions)) <==> !OneRepositoryCondition(spec)
  {
    if spec.conditions.Some? && spec.conditions.value.repositoryProperty.Some? {
      TargetsMatchThemselves(spec.conditions.value.repositoryProperty.value.include_);
      TargetsMatchThemselves(spec.conditions.value.repositoryProperty.value.exclude);
    }
  }

  /** A mapped entry is compared with the last entry of the same reviewer. */
  lemma {:induction false} MappedReviewer(rs: seq<RequiredReviewer>, i: nat, j: nat)
    requires i < |rs| && j < |rs| && SamePerson(rs[i], rs[j]) && LastEntry(rs, j)
    ensures ReviewerMatched(LastByKey(rs, SpecReviewerKey), MapReviewer(rs[i])) <==> NothingNew(rs[i], rs[j])
  {
    forall m | j < m < |rs| ensures SpecReviewerKey(rs[m]) != SpecReviewerKey(rs[j]) {
      assert !SamePerson(rs[m], rs[j]);
    }
    LastByKeyIsLast(rs, j, SpecReviewerKey);
  }

  lemma HasLastEntry(rs: seq<RequiredReviewer>, i: nat) returns (j: nat)
    requires i < |rs|
    ensures j < |rs| && SamePerson(rs[i], rs[j]) && LastEntry(rs, j)
  {
    assert SpecReviewerKey(rs[i]) in Keys(rs, SpecReviewerKey);
    j := LastIndex(rs, SpecReviewerKey(rs[i]), SpecReviewerKey);
    forall m | j < m < |rs| ensures !SamePerson(rs[m], rs[j]) {
      assert SpecReviewerKey(rs[m]) != SpecReviewerKey(rs[j]);
    }
  }

  lemma ReviewersRoundTrip(rs: seq<RequiredReviewer>)
    ensures RequiredReviewersDiffer(rs, MapSeq(MapReviewer, rs)) <==> !ReviewersConsistent(rs)
  {
    var gs, byKey := MapSeq(MapReviewer, rs), LastByKey(rs, SpecReviewerKey);
    if ReviewersConsistent(rs) {
      forall i | 0 <= i < |rs| ensures ReviewerMatched(byKey, gs[i]) {
        var j := HasLastEntry(rs, i);
        MappedReviewer(rs, i, j);
      }
    } else {
      var i, j :| 0 <= i < |rs| && 0 <= j < |rs| && SamePerson(rs[i], rs[j]) && LastEntry(rs, j) &&
                  !NothingNew(rs[i], rs[j]);
      MappedReviewer(rs, i, j);
      assert gs[i] in gs && !ReviewerMatched(byKey, gs[i]);
    }
  }

  lemma ListRulesRoundTrip(r: Rules)
    ensures !StatusChecksDiffer(r.requiredStatusChecks, MapOption(MapStatusChecks, r.requiredStatusChecks))
    ensures !WorkflowsDiffer(r.workflows, MapOption(MapWorkflows, r.workflows))
  {
    if r.requiredStatusChecks.Some? {
      MappedMatches(r.requiredStatusChecks.value.checks, MapCheck, CheckContext, GhCheckContext, SameCheck);
    }
    if r.workflows.Some? {
      MappedMatches(r.workflows.value.workflows, MapWorkflow, SpecWorkflowKey, GhWorkflowKey, SameWorkflow);
    }
  }

  lemma RulesRoundTrip(r: Rules)
    ensures RulesDiffer(r, Some(MapRules(r))) <==>
            r.pullRequest.Some? && !ReviewersConsistent(r.pullRequest.value.requiredReviewers)
  {
    if r.pullRequest.Some? {
      ReviewersRoundTrip(r.pullRequest.value.requiredReviewers);
    }
    ListRulesRoundTrip(r);
  }

  /**
    Mapper and differ agree exactly on the representable definitions: a definition differs from its own mapping if and
    only if it gives both repository conditions, or an entry of some reviewer differs from the reviewer's last entry in
    its approvals or its number of patterns or has a pattern the last one lacks. The id GitHub assigns plays no part.
   */
  lemma MappingMatchesIff(spec: RulesetSpec, id: Option<int>)
    requires ToGitHub(spec).Some?
    ensures RulesetsDiffer(spec, ToGitHub(spec).value.(id := id)) <==> !Representable(spec)
  {
    MappedMatches(spec.bypassActors, MapActor, SpecActorKey, GhActorKey, SameActor);
    ConditionsRoundTrip(spec);
    RulesRoundTrip(spec.rules);
  }

  /** Distinct reviewers are consistent. */
  lemma DistinctReviewersAreConsistent(rs: seq<RequiredReviewer>)
    requires NoDup(MapSeq(SpecReviewerKey, rs))
    ensures ReviewersConsistent(rs)
  {
    forall i, j | 0 <= i < |rs| && 0 <= j < |rs| && SamePerson(rs[i], rs[j]) ensures i == j {
      assert MapSeq(SpecReviewerKey, rs)[i] == MapSeq(SpecReviewerKey, rs)[j];
    }
  }

  /** With distinct keys an index finds every entry. */
  lemma {:induction false} LastByKeyDistinct<T, K>(xs: seq<T>, key: T -> K)
    requires NoDup(MapSeq(key, xs))
    ensures forall i :: 0 <= i < |xs| ==> key(xs[i]) in LastByKey(xs, key) && LastByKey(xs, key)[key(xs[i])] == xs[i]
  {
    if xs != [] {
      var n := |xs| - 1;
      var ks := MapSeq(key, xs);
      assert MapSeq(key, xs[..n]) == ks[..n];
      LastByKeyDistinct(xs[..n], key);
      assert xs == xs[..n] + [xs[n]];
      forall i | 0 <= i < n ensures LastByKey(xs, key)[key(xs[i])] == xs[i] {
        assert ks[i] != ks[n];
        assert xs[..n][i] == xs[i];
      }
    }
  }

  // ---------------------------------------------------------------- the differ decides equality up to order

  datatype ActorView = ActorView(actorType: Option<string>, id: int, mode: string)
  datatype ListsView = ListsView(include_: multiset<string>, exclude: multiset<string>)
  datatype RepositoryNameView = RepositoryNameView(lists: ListsView, protected: bool)
  datatype TargetView = TargetView(name: string, values: multiset<string>, source: string)
  datatype PropertyView = PropertyView(include_: multiset<TargetView>, exclude: multiset<TargetView>)
  datatype ConditionsView = ConditionsView(
    refName: Option<ListsView>, repositoryName: Option<RepositoryNameView>, repositoryProperty: Option<PropertyView>)
  datatype ReviewerView = ReviewerView(id: int, reviewerType: string, minimumApprovals: int, patterns: multiset<string>)
  datatype PullRequestView = PullRequestView(
    dismissStale: bool, codeOwner: bool, lastPush: bool, count: int, threads: bool,
    reviewers: multiset<Option<ReviewerView>>)
  datatype CheckView = CheckView(context: string, integrationId: Option<int>)
  datatype ChecksView = ChecksView(checks: multiset<CheckView>, strict: bool)
  datatype WorkflowView = WorkflowView(path: string, repositoryId: Option<int>, ref: string)
  datatype WorkflowsView = WorkflowsView(doNotEnforceOnCreate: bool, workflows: multiset<WorkflowView>)
  datatype PatternView = PatternView(pattern: string, operator: string, negate: bool)
  datatype RulesView = RulesView(
    flags: seq<bool>, pullRequest: Option<PullRequestView>, checks: Option<ChecksView>, copilot: Option<GhCopilot>,
    workflows: Option<WorkflowsView>, patterns: seq<Option<PatternView>>)

  /** What the differ looks at: lists without their order, nil and defaults spelled one way. */
  datatype View = View(
    name: string, target: string, enforcement: string, actors: multiset<ActorView>,
    conditions: Option<ConditionsView>, rules: RulesView)

  function ViewActor(a: BypassActor): ActorView { ActorView(Some(a.actorType), WithDefault(a.id, 0), a.mode) }

  function ViewGhActor(g: GhActor): ActorView { ActorView(g.actorType, WithDefault(g.id, 0), WithDefault(g.mode, "")) }

  function ViewRefName(c: RefNameCondition): ListsView { ListsView(multiset(c.include_), multiset(c.exclude)) }

  function ViewRepositoryName(c: RepositoryNameCondition): RepositoryNameView {
    RepositoryNameView(ListsView(multiset(c.include_), multiset(c.exclude)), WithDefault(c.protected, false))
  }

  function ViewTarget(t: PropertyTarget): TargetView {
    TargetView(t.name, multiset(t.values), WithDefault(t.source, "custom"))
  }

  function ViewProperty(c: RepositoryPropertyCondition): PropertyView {
    PropertyView(multiset(MapSeq(ViewTarget, c.include_)), multiset(MapSeq(ViewTarget, c.exclude)))
  }

  function ViewConditions(c: Conditions): ConditionsView {
    ConditionsView(MapOption(ViewRefName, c.refName), MapOption(ViewRepositoryName, c.repositoryName),
                   MapOption(ViewProperty, c.repositoryProperty))
  }

  function ViewReviewer(r: RequiredReviewer): Option<ReviewerView> {
    Some(ReviewerView(WithDefault(r.reviewer.id, 0), r.reviewer.reviewerType, r.minimumApprovals,
                      multiset(r.filePatterns)))
  }

  function ViewGhReviewer(g: GhReviewer): Option<ReviewerView> {
    if g.reviewer.None? then None
    else Some(ReviewerView(WithDefault(g.reviewer.value.id, 0), WithDefault(g.reviewer.value.reviewerType, ""),
                           WithDefault(g.minimumApprovals, 0), multiset(g.filePatterns)))
  }

  function ViewPullRequest(r: PullRequestRule): PullRequestView {
    PullRequestView(
      WithDefault(r.dismissStaleReviewsOnPush, false), WithDefault(r.requireCodeOwnerReviews, false),
      WithDefault(r.requireLastPushApproval, false), r.requiredApprovingReviewCount,
      WithDefault(r.requiredReviewThreadResolution, false), multiset(MapSeq(ViewReviewer, r.requiredReviewers)))
  }

  function ViewGhPullRequest(g: GhPullRequest): PullRequestView {
    PullRequestView(g.dismissStaleReviewsOnPush, g.requireCodeOwnerReview, g.requireLastPushApproval,
                    g.requiredApprovingReviewCount, g.requiredReviewThreadResolution,
                    multiset(MapSeq(ViewGhReviewer, g.requiredReviewers)))
  }

  function ViewCheck(c: StatusCheck): CheckView { CheckView(c.context, c.integrationId) }

  function ViewGhCheck(g: GhCheck): CheckView { CheckView(g.context, g.integrationId) }

  function ViewChecks(r: RequiredStatusChecks): ChecksView {
    ChecksView(multiset(MapSeq(ViewCheck, r.checks)), WithDefault(r.strictPolicy, false))
  }

  function ViewGhChecks(g: GhStatusChecks): ChecksView { ChecksView(multiset(MapSeq(ViewGhCheck, g.checks)), g.strict) }

  function ViewCopilot(r: CopilotReviewRule): GhCopilot { MapCopilot(r) }

  function ViewWorkflow(w: RuleWorkflow): WorkflowView { WorkflowView(w.path, w.repositoryId, WithDefault(w.ref, "")) }

  function ViewGhWorkflow(w: GhWorkflow): WorkflowView { WorkflowView(w.path, w.repositoryId, WithDefault(w.ref, "")) }

  function ViewWorkflows(r: WorkflowsRule): WorkflowsView {
    WorkflowsView(WithDefault(r.doNotEnforceOnCreate, false), multiset(MapSeq(ViewWorkflow, r.workflows)))
  }

  function ViewGhWorkflows(g: GhWorkflows): WorkflowsView {
    WorkflowsView(WithDefault(g.doNotEnforceOnCreate, false), multiset(MapSeq(ViewGhWorkflow, g.workflows)))
  }

  function ViewPattern(p: PatternRule): PatternView { PatternView(p.pattern, p.operator, WithDefault(p.negate, false)) }

  function ViewRules(r: Rules): RulesView {
    RulesView(
      [WithDefault(r.creation, false), WithDefault(r.update, false), WithDefault(r.deletion, false),
       WithDefault(r.requiredLinearHistory, false), WithDefault(r.nonFastForward, false),
       WithDefault(r.requiredSignatures, false)],
      MapOption(ViewPullRequest, r.pullRequest), MapOption(ViewChecks, r.requiredStatusChecks),
      MapOption(ViewCopilot, r.copilotReview), MapOption(ViewWorkflows, r.workflows),
      [MapOption(ViewPattern, r.commitMessagePattern), MapOption(ViewPattern, r.commitAuthorEmailPattern),
       MapOption(ViewPattern, r.committerEmailPattern), MapOption(ViewPattern, r.branchNamePattern),
       MapOption(ViewPattern, r.tagNamePattern)])
  }

  function ViewGhRules(g: GhRules): RulesView {
    RulesView(
      [g.creation, g.update.Some?, g.deletion, g.requiredLinearHistory, g.nonFastForward, g.requiredSignatures],
      MapOption(ViewGhPullRequest, g.pullRequest), MapOption(ViewGhChecks, g.requiredStatusChecks), g.copilotReview,
      MapOption(ViewGhWorkflows, g.workflows),
      [MapOption(ViewPattern, g.commitMessagePattern), MapOption(ViewPattern, g.commitAuthorEmailPattern),
       MapOption(ViewPattern, g.committerEmailPattern), MapOption(ViewPattern, g.branchNamePattern),
       MapOption(ViewPattern, g.tagNamePattern)])
  }

  const NO_RULES :=
    RulesView([false, false, false, false, false, false], None, None, None, None, [None, None, None, None, None])

  function ViewSpec(s: RulesetSpec): View {
    View(s.name, s.target, s.enforcement, multiset(MapSeq(ViewActor, s.bypassActors)),
         MapOption(ViewConditions, s.conditions), ViewRules(s.rules))
  }

  function ViewGh(g: GhRuleset): View {
    View(g.name, WithDefault(g.target, "branch"), g.enforcement, multiset(MapSeq(ViewGhActor, g.bypassActors)),
         MapOption(ViewConditions, g.conditions), if g.rules.None? then NO_RULES else ViewGhRules(g.rules.value))
  }

  // ---------------------------------------------------------------- list comparisons

  /** Every view shows the key, and entries under one key are the same exactly when their views are. */
  ghost predicate Comparable<A, B, V, K>(xs: seq<A>, ys: seq<B>, ka: A -> K, kb: B -> K, va: A -> V, vb: B -> V,
                                         kv: V -> K, same: (A, B) -> bool) {
    && (forall i :: 0 <= i < |xs| ==> kv(va(xs[i])) == ka(xs[i]))
    && (forall j :: 0 <= j < |ys| ==> kv(vb(ys[j])) == kb(ys[j]))
    && (forall i, j :: 0 <= i < |xs| && 0 <= j < |ys| && ka(xs[i]) == kb(ys[j]) ==>
          (same(xs[i], ys[j]) <==> va(xs[i]) == vb(ys[j])))
  }

  /** The comparators' answer: equal length and one-sided matching of the last entries per key. */
  ghost predicate Agree<A, B, K>(xs: seq<A>, ys: seq<B>, ka: A -> K, kb: B -> K, same: (A, B) -> bool) {
    |xs| == |ys| && AllMatched(LastByKey(xs, ka), LastByKey(ys, kb), same)
  }

  /** The lists are equal up to order, in the spelling of their views. */
  ghost predicate Permuted<A, B, V>(xs: seq<A>, ys: seq<B>, va: A -> V, vb: B -> V) {
    multiset(MapSeq(va, xs)) == multiset(MapSeq(vb, ys))
  }

  lemma DistinctViews<A, V, K>(xs: seq<A>, ka: A -> K, va: A -> V, kv: V -> K)
    requires NoDup(MapSeq(ka, xs)) && forall i :: 0 <= i < |xs| ==> kv(va(xs[i])) == ka(xs[i])
    ensures NoDup(MapSeq(va, xs))
  {
    forall i, j | 0 <= i < j < |xs| ensures va(xs[i]) != va(xs[j]) {
      assert MapSeq(ka, xs)[i] != MapSeq(ka, xs)[j];
    }
  }

  /** The pigeonhole argument: only the side that is looked through needs distinct keys. */
  lemma AgreeIsPermuted<A, B, V, K>(xs: seq<A>, ys: seq<B>, ka: A -> K, kb: B -> K, va: A -> V, vb: B -> V, kv: V -> K,
                                    same: (A, B) -> bool)
    requires Comparable(xs, ys, ka, kb, va, vb, kv, same) && NoDup(MapSeq(ka, xs))
    requires Agree(xs, ys, ka, kb, same)
    ensures Permuted(xs, ys, va, vb)
  {
    var vs, ws := MapSeq(va, xs), MapSeq(vb, ys);
    LastByKeyDistinct(xs, ka);
    DistinctViews(xs, ka, va, kv);
    forall v | v in Elems(vs) ensures v in Elems(ws) {
      var i :| 0 <= i < |vs| && vs[i] == v;
      var k := ka(xs[i]);
      assert k in LastByKey(xs, ka) && k in LastByKey(ys, kb);
      var j := LastIndex(ys, k, kb);
      assert ws[j] == v;
    }
    Pigeonhole(vs, ws);
  }

  lemma PermutedAgrees<A, B, V, K>(xs: seq<A>, ys: seq<B>, ka: A -> K, kb: B -> K, va: A -> V, vb: B -> V, kv: V -> K,
                                   same: (A, B) -> bool)
    requires Comparable(xs, ys, ka, kb, va, vb, kv, same) && NoDup(MapSeq(ka, xs))
    requires Permuted(xs, ys, va, vb)
    ensures Agree(xs, ys, ka, kb, same)
  {
    var mine, theirs := LastByKey(xs, ka), LastByKey(ys, kb);
    var vs, ws := MapSeq(va, xs), MapSeq(vb, ys);
    SameLength(vs, ws);
    LastByKeyDistinct(xs, ka);
    forall k | k in mine ensures k in theirs && same(mine[k], theirs[k]) {
      var i := LastIndex(xs, k, ka);
      assert vs[i] in multiset(vs) && vs[i] in multiset(ws);
      var j :| 0 <= j < |ws| && ws[j] == vs[i];
      assert kb(ys[j]) == k && k in Keys(ys, kb);
      var l := LastIndex(ys, k, kb);
      assert ws[l] in multiset(ws) && ws[l] in multiset(vs);
      var h :| 0 <= h < |vs| && vs[h] == ws[l];
      assert ka(xs[h]) == k;
      assert MapSeq(ka, xs)[h] == MapSeq(ka, xs)[i];
      assert h == i;
    }
  }

  lemma MatchedIffPermutation<A, B, V, K>(xs: seq<A>, ys: seq<B>, ka: A -> K, kb: B -> K, va: A -> V, vb: B -> V,
                                          kv: V -> K, same: (A, B) -> bool)
    requires Comparable(xs, ys, ka, kb, va, vb, kv, same) && NoDup(MapSeq(ka, xs))
    ensures Agree(xs, ys, ka, kb, same) <==> Permuted(xs, ys, va, vb)
  {
    if Agree(xs, ys, ka, kb, same) {
      AgreeIsPermuted(xs, ys, ka, kb, va, vb, kv, same);
    }
    if Permuted(xs, ys, va, vb) {
      PermutedAgrees(xs, ys, ka, kb, va, vb, kv, same);
    }
  }

  /** Replacing an entry that is not the last of its key leaves the last entries of all keys in place. */
  lemma {:induction false} OverlooksReplaced<A, B, K>(xs: seq<A>, ys: seq<B>, f: A -> B, y: B, i: nat, j: nat, k: K,
                                                      ka: A -> K, kb: B -> K)
    requires i < j < |xs| && ka(xs[i]) == ka(xs[j]) && ys == MapSeq(f, xs)[i := y]
    requires k in Keys(xs, ka) && kb(y) !in Keys(xs, ka) && forall l :: 0 <= l < |xs| ==> kb(f(xs[l])) == ka(xs[l])
    ensures k in LastByKey(ys, kb)
    ensures exists l :: 0 <= l < |xs| && IsLastOf(xs, l, ka) && LastByKey(xs, ka)[k] == xs[l] &&
                        LastByKey(ys, kb)[k] == f(xs[l])
  {
    var l := LastIndex(xs, k, ka);
    assert l != i && ys[l] == f(xs[l]);
    forall m | l < m < |ys| ensures kb(ys[m]) != kb(ys[l]) {
      assert ka(xs[m]) != k;
    }
    LastByKeyIsLast(ys, l, kb);
  }

  /** The comparison does not see the replacement, */
  lemma ReplacedAgrees<A, B, K>(xs: seq<A>, ys: seq<B>, f: A -> B, y: B, i: nat, j: nat, ka: A -> K, kb: B -> K,
                                same: (A, B) -> bool)
    requires i < j < |xs| && ka(xs[i]) == ka(xs[j]) && ys == MapSeq(f, xs)[i := y] && kb(y) !in Keys(xs, ka)
    requires forall l :: 0 <= l < |xs| ==> kb(f(xs[l])) == ka(xs[l])
    requires forall l :: 0 <= l < |xs| && IsLastOf(xs, l, ka) ==> same(xs[l], f(xs[l]))
    ensures Agree(xs, ys, ka, kb, same)
  {
    var mine, theirs := LastByKey(xs, ka), LastByKey(ys, kb);
    forall k | k in mine ensures k in theirs && same(mine[k], theirs[k]) {
      OverlooksReplaced(xs, ys, f, y, i, j, k, ka, kb);
      var l :| 0 <= l < |xs| && IsLastOf(xs, l, ka) && mine[k] == xs[l] && theirs[k] == f(xs[l]);
    }
  }

  /** but the lists are no permutations of each other. */
  lemma ReplacedIsNotPermuted<A, B, V, K>(xs: seq<A>, ys: seq<B>, i: nat, ka: A -> K, va: A -> V, vb: B -> V,
                                          kv: V -> K)
    requires i < |ys| && kv(vb(ys[i])) !in Keys(xs, ka) && forall l :: 0 <= l < |xs| ==> kv(va(xs[l])) == ka(xs[l])
    ensures !Permuted(xs, ys, va, vb)
  {
    var vs, ws := MapSeq(va, xs), MapSeq(vb, ys);
    forall l | 0 <= l < |vs| ensures vs[l] != vb(ys[i]) {
      assert ka(xs[l]) in Keys(xs, ka);
    }
    assert ws[i] in multiset(ws) && ws[i] !in multiset(vs);
  }

  lemma ReplacedMembers<A, B>(xs: seq<A>, f: A -> B, y: B, i: nat, g: B)
    requires i < |xs| && g in MapSeq(f, xs)[i := y]
    ensures g == y || exists l :: 0 <= l < |xs| && g == f(xs[l])
  {
    var n :| 0 <= n < |xs| && g == MapSeq(f, xs)[i := y][n];
    assert n != i ==> g == f(xs[n]);
  }

  /** With a repeated key the comparison overlooks that its first entry was replaced by something else. */
  lemma RepeatedKeyMisleads<A, B, V, K>(xs: seq<A>, f: A -> B, y: B, ka: A -> K, kb: B -> K, va: A -> V, vb: B -> V,
                                        kv: V -> K, same: (A, B) -> bool)
    returns (ys: seq<B>)
    requires !NoDup(MapSeq(ka, xs)) && kb(y) !in Keys(xs, ka) && kv(vb(y)) == kb(y)
    requires forall l :: 0 <= l < |xs| ==> kb(f(xs[l])) == ka(xs[l]) == kv(va(xs[l]))
    requires forall l :: 0 <= l < |xs| && IsLastOf(xs, l, ka) ==> same(xs[l], f(xs[l]))
    ensures Agree(xs, ys, ka, kb, same) && !Permuted(xs, ys, va, vb)
    ensures forall g :: g in ys ==> g == y || exists l :: 0 <= l < |xs| && g == f(xs[l])
  {
    var i, j :| 0 <= i < j < |xs| && MapSeq(ka, xs)[i] == MapSeq(ka, xs)[j];
    ys := MapSeq(f, xs)[i := y];
    ReplacedAgrees(xs, ys, f, y, i, j, ka, kb, same);
    ReplacedIsNotPermuted(xs, ys, i, ka, va, vb, kv);
    forall g | g in ys ensures g == y || exists l :: 0 <= l < |xs| && g == f(xs[l]) {
      ReplacedMembers(xs, f, y, i, g);
    }
  }

  /** If GitHub's list has no duplicates, `stringSlicesEqual` decides equality up to order. */
  lemma StringsEqualIff(a: seq<string>, b: seq<string>)
    requires NoDup(b)
    ensures StringsEqual(a, b) <==> multiset(a) == multiset(b)
  {
    if StringsEqual(a, b) {
      Pigeonhole(b, a);
    }
    if multiset(a) == multiset(b) {
      SameLength(a, b);
      forall s | s in b ensures s in a {
        assert s in multiset(b);
      }
    }
  }

  /** With a duplicate in the second list, replacing one of them in the first goes unnoticed. */
  lemma DuplicateMisleads(b: seq<string>) returns (a: seq<string>)
    requires !NoDup(b)
    ensures StringsEqual(a, b) && multiset(a) != multiset(b)
  {
    var i, j :| 0 <= i < j < |b| && b[i] == b[j];
    a := b[i := Longer(b)];
    forall s | s in b ensures s in a {
      var l :| 0 <= l < |b| && b[l] == s;
      assert a[if l == i then j else l] == s;
    }
    assert a[i] in multiset(a) && a[i] !in multiset(b);
  }

  /** ... and only then: the second list decides alone whether the comparison can be relied on. */
  lemma StringsDecidedIff(b: seq<string>)
    ensures (forall a :: StringsEqual(a, b) <==> multiset(a) == multiset(b)) <==> NoDup(b)
  {
    if NoDup(b) {
      forall a ensures StringsEqual(a, b) <==> multiset(a) == multiset(b) {
        StringsEqualIff(a, b);
      }
    } else {
      var a := DuplicateMisleads(b);
    }
  }

  /** With duplicates the answer depends on which side has them. */
  lemma StringsEqualIsOneSided()
    ensures StringsEqual(["a", "b"], ["a", "a"]) && !StringsEqual(["a", "a"], ["a", "b"])
  {
    assert "b" in ["a", "b"];
  }

  lemma ActorKeyInjective(t: string, i: Option<int>, j: Option<int>)
    requires ActorKey(t, i) == ActorKey(t, j)
    ensures WithDefault(i, 0) == WithDefault(j, 0)
  {
    var prefix := t + "/";
    assert ActorKey(t, i)[|prefix|..] == FormatInt(WithDefault(i, 0));
    assert ActorKey(t, j)[|prefix|..] == FormatInt(WithDefault(j, 0));
    FormatIntInjective(WithDefault(i, 0), WithDefault(j, 0));
  }

  function ActorViewKey(v: ActorView): string { ActorKey(WithDefault(v.actorType, "unknown"), Some(v.id)) }

  lemma ActorsComparable(xs: seq<BypassActor>, gs: seq<GhActor>)
    ensures Comparable(xs, gs, SpecActorKey, GhActorKey, ViewActor, ViewGhActor, ActorViewKey, SameActor)
  {
    forall i, j | 0 <= i < |xs| && 0 <= j < |gs| && SpecActorKey(xs[i]) == GhActorKey(gs[j])
      ensures SameActor(xs[i], gs[j]) <==> ViewActor(xs[i]) == ViewGhActor(gs[j])
    {
      if gs[j].actorType == Some(xs[i].actorType) {
        ActorKeyInjective(xs[i].actorType, xs[i].id, gs[j].id);
      }
    }
  }

  lemma ActorsDecided(xs: seq<BypassActor>, gs: seq<GhActor>)
    requires NoDup(MapSeq(SpecActorKey, xs))
    ensures BypassActorsDiffer(xs, gs) <==> !Permuted(xs, gs, ViewActor, ViewGhActor)
  {
    ActorsComparable(xs, gs);
    MatchedIffPermutation(xs, gs, SpecActorKey, GhActorKey, ViewActor, ViewGhActor, ActorViewKey, SameActor);
  }

  lemma MappedActor(a: BypassActor)
    ensures GhActorKey(MapActor(a)) == SpecActorKey(a) == ActorViewKey(ViewActor(a)) && SameActor(a, MapActor(a))
  {
  }

  lemma NewActor(xs: seq<BypassActor>) returns (y: GhActor)
    ensures GhActorKey(y) !in Keys(xs, SpecActorKey) && ActorViewKey(ViewGhActor(y)) == GhActorKey(y)
  {
    y := GhActor(None, Some(Longer(MapSeq(SpecActorKey, xs))), None);
    LongerIsNew(xs, SpecActorKey, GhActorKey(y));
  }

  lemma ActorsMisled(xs: seq<BypassActor>) returns (gs: seq<GhActor>)
    requires !NoDup(MapSeq(SpecActorKey, xs))
    ensures !BypassActorsDiffer(xs, gs) && !Permuted(xs, gs, ViewActor, ViewGhActor)
  {
    var y := NewActor(xs);
    forall l | 0 <= l < |xs| {
      MappedActor(xs[l]);
    }
    gs := RepeatedKeyMisleads(xs, MapActor, y, SpecActorKey, GhActorKey, ViewActor, ViewGhActor, ActorViewKey, SameActor);
  }

  /** The comparison of bypass actors decides equality up to order exactly when the definition names no actor twice. */
  lemma ActorsDecidedIff(xs: seq<BypassActor>)
    ensures (forall gs :: BypassActorsDiffer(xs, gs) <==> !Permuted(xs, gs, ViewActor, ViewGhActor)) <==>
            NoDup(MapSeq(SpecActorKey, xs))
  {
    if NoDup(MapSeq(SpecActorKey, xs)) {
      forall gs ensures BypassActorsDiffer(xs, gs) <==> !Permuted(xs, gs, ViewActor, ViewGhActor) {
        ActorsDecided(xs, gs);
      }
    } else {
      var gs := ActorsMisled(xs);
    }
  }

  /** A string at least as long as the long one is no key. */
  lemma LongerIsNew<A>(xs: seq<A>, key: A -> string, s: string)
    requires |s| >= |Longer(MapSeq(key, xs))|
    ensures s !in Keys(xs, key)
  {
    forall i | 0 <= i < |xs| ensures key(xs[i]) != s {
      assert MapSeq(key, xs)[i] == key(xs[i]);
    }
  }

  lemma SameLength<V>(vs: seq<V>, ws: seq<V>)
    ensures multiset(vs) == multiset(ws) ==> |vs| == |ws|
  {
    assert |vs| == |multiset(vs)| && |ws| == |multiset(ws)|;
  }

  function CheckViewKey(v: CheckView): string { v.context }

  lemma ChecksDecided(xs: seq<StatusCheck>, gs: seq<GhCheck>)
    requires NoDup(MapSeq(CheckContext, xs))
    ensures Agree(xs, gs, CheckContext, GhCheckContext, SameCheck) <==> Permuted(xs, gs, ViewCheck, ViewGhCheck)
  {
    MatchedIffPermutation(xs, gs, CheckContext, GhCheckContext, ViewCheck, ViewGhCheck, CheckViewKey, SameCheck);
  }

  /** The same for status checks: the definition's contexts decide alone. */
  lemma ChecksDecidedIff(xs: seq<StatusCheck>)
    ensures (forall gs :: Agree(xs, gs, CheckContext, GhCheckContext, SameCheck) <==>
                          Permuted(xs, gs, ViewCheck, ViewGhCheck)) <==>
            NoDup(MapSeq(CheckContext, xs))
  {
    if NoDup(MapSeq(CheckContext, xs)) {
      forall gs ensures Agree(xs, gs, CheckContext, GhCheckContext, SameCheck) <==>
                        Permuted(xs, gs, ViewCheck, ViewGhCheck)
      {
        ChecksDecided(xs, gs);
      }
    } else {
      var y := GhCheck(Longer(MapSeq(CheckContext, xs)), None);
      LongerIsNew(xs, CheckContext, GhCheckContext(y));
      var gs := RepeatedKeyMisleads(xs, MapCheck, y, CheckContext, GhCheckContext, ViewCheck, ViewGhCheck, CheckViewKey,
                                    SameCheck);
    }
  }

  lemma WorkflowKeyInjective(i: Option<int>, p: string, q: string)
    requires WorkflowKeyOf(i, p) == WorkflowKeyOf(i, q)
    ensures p == q
  {
    var prefix := FormatInt(WithDefault(i, -1)) + ":";
    assert WorkflowKeyOf(i, p)[|prefix|..] == p && WorkflowKeyOf(i, q)[|prefix|..] == q;
  }

  function WorkflowViewKey(v: WorkflowView): string { WorkflowKeyOf(v.repositoryId, v.path) }

  lemma WorkflowsComparable(xs: seq<RuleWorkflow>, gs: seq<GhWorkflow>)
    ensures Comparable(xs, gs, SpecWorkflowKey, GhWorkflowKey, ViewWorkflow, ViewGhWorkflow, WorkflowViewKey,
                       SameWorkflow)
  {
    forall i, j | 0 <= i < |xs| && 0 <= j < |gs| && SpecWorkflowKey(xs[i]) == GhWorkflowKey(gs[j])
      ensures SameWorkflow(xs[i], gs[j]) <==> ViewWorkflow(xs[i]) == ViewGhWorkflow(gs[j])
    {
      if xs[i].repositoryId == gs[j].repositoryId {
        WorkflowKeyInjective(xs[i].repositoryId, xs[i].path, gs[j].path);
      }
    }
  }

  lemma WorkflowListDecided(xs: seq<RuleWorkflow>, gs: seq<GhWorkflow>)
    requires NoDup(MapSeq(SpecWorkflowKey, xs))
    ensures Agree(xs, gs, SpecWorkflowKey, GhWorkflowKey, SameWorkflow) <==>
            Permuted(xs, gs, ViewWorkflow, ViewGhWorkflow)
  {
    WorkflowsComparable(xs, gs);
    MatchedIffPermutation(xs, gs, SpecWorkflowKey, GhWorkflowKey, ViewWorkflow, ViewGhWorkflow, WorkflowViewKey,
                          SameWorkflow);
  }

  lemma NewWorkflow(xs: seq<RuleWorkflow>) returns (y: GhWorkflow)
    ensures GhWorkflowKey(y) !in Keys(xs, SpecWorkflowKey) && WorkflowViewKey(ViewGhWorkflow(y)) == GhWorkflowKey(y)
  {
    y := GhWorkflow(Longer(MapSeq(SpecWorkflowKey, xs)), None, None);
    LongerIsNew(xs, SpecWorkflowKey, GhWorkflowKey(y));
  }

  lemma WorkflowsMisled(xs: seq<RuleWorkflow>) returns (gs: seq<GhWorkflow>)
    requires !NoDup(MapSeq(SpecWorkflowKey, xs))
    ensures Agree(xs, gs, SpecWorkflowKey, GhWorkflowKey, SameWorkflow)
    ensures !Permuted(xs, gs, ViewWorkflow, ViewGhWorkflow)
  {
    var y := NewWorkflow(xs);
    gs := RepeatedKeyMisleads(xs, MapWorkflow, y, SpecWorkflowKey, GhWorkflowKey, ViewWorkflow, ViewGhWorkflow,
                              WorkflowViewKey, SameWorkflow);
  }

  /** The same for workflows. */
  lemma WorkflowListDecidedIff(xs: seq<RuleWorkflow>)
    ensures (forall gs :: Agree(xs, gs, SpecWorkflowKey, GhWorkflowKey, SameWorkflow) <==>
                          Permuted(xs, gs, ViewWorkflow, ViewGhWorkflow)) <==>
            NoDup(MapSeq(SpecWorkflowKey, xs))
  {
    if NoDup(MapSeq(SpecWorkflowKey, xs)) {
      forall gs ensures Agree(xs, gs, SpecWorkflowKey, GhWorkflowKey, SameWorkflow) <==>
                        Permuted(xs, gs, ViewWorkflow, ViewGhWorkflow)
      {
        WorkflowListDecided(xs, gs);
      }
    } else {
      var gs := WorkflowsMisled(xs);
    }
  }

  ghost predicate DistinctValues(ts: seq<PropertyTarget>) {
    forall i :: 0 <= i < |ts| ==> NoDup(ts[i].values)
  }

  lemma TargetsDecided(xs: seq<PropertyTarget>, gs: seq<PropertyTarget>)
    requires |xs| == |gs|
    requires NoDup(MapSeq(TargetName, xs)) && DistinctValues(gs)
    ensures PropertyTargetsDiffer(xs, gs) <==> !Permuted(xs, gs, ViewTarget, ViewTarget)
  {
    forall i, j | 0 <= i < |xs| && 0 <= j < |gs| && TargetName(xs[i]) == TargetName(gs[j])
      ensures SameTarget(xs[i], gs[j]) <==> ViewTarget(xs[i]) == ViewTarget(gs[j])
    {
      StringsEqualIff(xs[i].values, gs[j].values);
    }
    MatchedIffPermutation(xs, gs, TargetName, TargetName, ViewTarget, ViewTarget, (v: TargetView) => v.name, SameTarget);
  }

  /** The last entry of every name has distinct values. */
  ghost predicate LastDistinct(ts: seq<PropertyTarget>) {
    forall l :: 0 <= l < |ts| && IsLastOf(ts, l, TargetName) ==> NoDup(ts[l].values)
  }

  function TargetViewKey(v: TargetView): string { v.name }

  /** The entry that the index has for a name. */
  function Latest(ts: seq<PropertyTarget>): PropertyTarget -> PropertyTarget {
    (t: PropertyTarget) => if t.name in LastByKey(ts, TargetName) then LastByKey(ts, TargetName)[t.name] else t
  }

  lemma LatestIs(ts: seq<PropertyTarget>, l: nat)
    requires l < |ts| && LastDistinct(ts)
    ensures Latest(ts)(ts[l]).name == ts[l].name && NoDup(Latest(ts)(ts[l]).values)
    ensures IsLastOf(ts, l, TargetName) ==> Latest(ts)(ts[l]) == ts[l]
  {
    assert ts[l].name in Keys(ts, TargetName);
    var k := LastIndex(ts, ts[l].name, TargetName);
    if IsLastOf(ts, l, TargetName) {
      LastByKeyIsLast(ts, l, TargetName);
    }
  }

  /** `f` keeps names, repeats no value, and leaves the last entry of each name as it is compared. */
  ghost predicate Fits(xs: seq<PropertyTarget>, f: PropertyTarget -> PropertyTarget) {
    && (forall l :: 0 <= l < |xs| ==> TargetName(f(xs[l])) == TargetName(xs[l]) && NoDup(f(xs[l]).values))
    && (forall l :: 0 <= l < |xs| && IsLastOf(xs, l, TargetName) ==> SameTarget(xs[l], f(xs[l])))
  }

  lemma LatestFits(xs: seq<PropertyTarget>)
    requires LastDistinct(xs)
    ensures Fits(xs, Latest(xs))
  {
    forall l | 0 <= l < |xs| {
      LatestIs(xs, l);
    }
  }

  lemma NewTarget(xs: seq<PropertyTarget>) returns (y: PropertyTarget)
    ensures TargetName(y) !in Keys(xs, TargetName) && y.values == []
  {
    y := PropertyTarget(Longer(MapSeq(TargetName, xs)), [], None);
    LongerIsNew(xs, TargetName, y.name);
  }

  lemma TargetsMisledBy(xs: seq<PropertyTarget>, f: PropertyTarget -> PropertyTarget, y: PropertyTarget)
    returns (gs: seq<PropertyTarget>)
    requires !NoDup(MapSeq(TargetName, xs)) && Fits(xs, f) && TargetName(y) !in Keys(xs, TargetName) && y.values == []
    ensures |gs| == |xs| && DistinctValues(gs)
    ensures !PropertyTargetsDiffer(xs, gs) && !Permuted(xs, gs, ViewTarget, ViewTarget)
  {
    gs := RepeatedKeyMisleads(xs, f, y, TargetName, TargetName, ViewTarget, ViewTarget, TargetViewKey, SameTarget);
    forall i | 0 <= i < |gs| ensures NoDup(gs[i].values) {
      assert gs[i] in gs;
    }
  }

  lemma TargetsMisled(xs: seq<PropertyTarget>) returns (gs: seq<PropertyTarget>)
    requires !NoDup(MapSeq(TargetName, xs)) && LastDistinct(xs)
    ensures |gs| == |xs| && DistinctValues(gs)
    ensures !PropertyTargetsDiffer(xs, gs) && !Permuted(xs, gs, ViewTarget, ViewTarget)
  {
    var y := NewTarget(xs);
    LatestFits(xs);
    gs := TargetsMisledBy(xs, Latest(xs), y);
  }

  /** A last entry with a repeated value matches nothing with distinct values, */
  lemma NeverMatchesLast(xs: seq<PropertyTarget>, gs: seq<PropertyTarget>, l: nat)
    requires l < |xs| && IsLastOf(xs, l, TargetName) && !NoDup(xs[l].values) && DistinctValues(gs)
    ensures PropertyTargetsDiffer(xs, gs)
  {
    var k := TargetName(xs[l]);
    LastByKeyIsLast(xs, l, TargetName);
    if k in LastByKey(gs, TargetName) {
      var j := LastIndex(gs, k, TargetName);
      RepeatsDiffer(xs[l].values, gs[j].values);
      assert !SameTarget(LastByKey(xs, TargetName)[k], LastByKey(gs, TargetName)[k]);
    }
  }

  /** and no list with distinct values is a permutation of the list it is in. */
  lemma NeverPermuted(xs: seq<PropertyTarget>, gs: seq<PropertyTarget>, l: nat)
    requires l < |xs| && !NoDup(xs[l].values) && DistinctValues(gs)
    ensures !Permuted(xs, gs, ViewTarget, ViewTarget)
  {
    var vs, ws := MapSeq(ViewTarget, xs), MapSeq(ViewTarget, gs);
    forall j | 0 <= j < |gs| ensures ws[j] != vs[l] {
      RepeatsDiffer(xs[l].values, gs[j].values);
    }
    assert vs[l] in multiset(vs) && vs[l] !in multiset(ws);
  }

  lemma RepeatsDiffer(a: seq<string>, b: seq<string>)
    requires !NoDup(a) && NoDup(b)
    ensures !StringsEqual(a, b) && multiset(a) != multiset(b)
  {
    StringsEqualIff(a, b);
    if multiset(a) == multiset(b) {
      SameLength(a, b);
      forall s | s in b ensures s in a {
        assert s in multiset(b);
      }
      Pigeonhole(b, a);
      assert false;
    }
  }

  /**
    For repository properties, among lists on GitHub of the same length that repeat no value: the comparison decides
    equality up to order exactly when the definition names no property twice or can match no such list at all.
   */
  lemma TargetsDecidedIff(xs: seq<PropertyTarget>)
    ensures (forall gs: seq<PropertyTarget> :: |gs| == |xs| && DistinctValues(gs) ==>
               (PropertyTargetsDiffer(xs, gs) <==> !Permuted(xs, gs, ViewTarget, ViewTarget))) <==>
            NoDup(MapSeq(TargetName, xs)) || !LastDistinct(xs)
  {
    if NoDup(MapSeq(TargetName, xs)) || !LastDistinct(xs) {
      forall gs: seq<PropertyTarget> | |gs| == |xs| && DistinctValues(gs)
        ensures PropertyTargetsDiffer(xs, gs) <==> !Permuted(xs, gs, ViewTarget, ViewTarget)
      {
        if NoDup(MapSeq(TargetName, xs)) {
          TargetsDecided(xs, gs);
        } else {
          var l :| 0 <= l < |xs| && IsLastOf(xs, l, TargetName) && !NoDup(xs[l].values);
          NeverMatchesLast(xs, gs, l);
          NeverPermuted(xs, gs, l);
        }
      }
    } else {
      var gs := TargetsMisled(xs);
    }
  }

  /** Distinct names alone are not the condition: this list names a property twice and is never misjudged. */
  lemma RepeatedButDecided(gs: seq<PropertyTarget>)
    requires |gs| == 2 && DistinctValues(gs)
    ensures var t := PropertyTarget("tier", ["a", "a"], None);
            !NoDup(MapSeq(TargetName, [t, t])) &&
            (PropertyTargetsDiffer([t, t], gs) <==> !Permuted([t, t], gs, ViewTarget, ViewTarget))
  {
    var t := PropertyTarget("tier", ["a", "a"], None);
    var xs := [t, t];
    assert MapSeq(TargetName, xs)[0] == MapSeq(TargetName, xs)[1];
    assert IsLastOf(xs, 1, TargetName) && t.values[0] == t.values[1];
    NeverMatchesLast(xs, gs, 1);
    NeverPermuted(xs, gs, 1);
  }

  ghost predicate DistinctPatterns(gs: seq<GhReviewer>) {
    forall i :: 0 <= i < |gs| ==> NoDup(gs[i].filePatterns)
  }

  function ReviewerViewKey(v: Option<ReviewerView>): Option<(int, string)> {
    if v.None? then None else Some((v.value.id, v.value.reviewerType))
  }

  predicate MatchesReviewer(g: GhReviewer, r: RequiredReviewer) { SameReviewer(r, g) }

  /** With distinct reviewers on GitHub, looking each one up is matching GitHub's index against the definition's. */
  lemma {:induction false} LookupIsMatching(gs: seq<GhReviewer>, mine: map<Option<(int, string)>, RequiredReviewer>)
    requires NoDup(MapSeq(GhReviewerKey, gs))
    ensures (forall g :: g in gs ==> ReviewerMatched(mine, g)) <==>
            AllMatched(LastByKey(gs, GhReviewerKey), mine, MatchesReviewer)
  {
    var theirs := LastByKey(gs, GhReviewerKey);
    LastByKeyDistinct(gs, GhReviewerKey);
    if forall g :: g in gs ==> ReviewerMatched(mine, g) {
      forall k | k in theirs ensures k in mine && MatchesReviewer(theirs[k], mine[k]) {
        assert k in Keys(gs, GhReviewerKey);
        var i :| 0 <= i < |gs| && GhReviewerKey(gs[i]) == k;
        assert ReviewerMatched(mine, gs[i]);
      }
    }
    if AllMatched(theirs, mine, MatchesReviewer) {
      forall i | 0 <= i < |gs| ensures ReviewerMatched(mine, gs[i]) {
        assert GhReviewerKey(gs[i]) in theirs;
      }
    }
  }

  /** Here GitHub's reviewers are looked up, so theirs are the keys and patterns that have to be distinct. */
  lemma ReviewersDecided(xs: seq<RequiredReviewer>, gs: seq<GhReviewer>)
    requires NoDup(MapSeq(GhReviewerKey, gs)) && DistinctPatterns(gs)
    ensures RequiredReviewersDiffer(xs, gs) <==> !Permuted(xs, gs, ViewReviewer, ViewGhReviewer)
  {
    forall i, j | 0 <= i < |gs| && 0 <= j < |xs| && GhReviewerKey(gs[i]) == SpecReviewerKey(xs[j])
      ensures MatchesReviewer(gs[i], xs[j]) <==> ViewGhReviewer(gs[i]) == ViewReviewer(xs[j])
    {
      StringsEqualIff(xs[j].filePatterns, gs[i].filePatterns);
    }
    MatchedIffPermutation(gs, xs, GhReviewerKey, SpecReviewerKey, ViewGhReviewer, ViewReviewer, ReviewerViewKey,
                          MatchesReviewer);
    LookupIsMatching(gs, LastByKey(xs, SpecReviewerKey));
  }

  /** The definition that GitHub's entry would be mapped from. */
  function Back(g: GhReviewer): RequiredReviewer {
    var key := GhReviewerKey(g);
    RequiredReviewer(WithDefault(g.minimumApprovals, 0), g.filePatterns,
                     if key.None? then Reviewer(None, None, "") else Reviewer(Some(key.value.0), None, key.value.1))
  }

  ghost predicate AllNamed(gs: seq<GhReviewer>) {
    forall i :: 0 <= i < |gs| ==> gs[i].reviewer.Some?
  }

  lemma BackIsPermuted(gs: seq<GhReviewer>)
    requires AllNamed(gs)
    ensures Permuted(MapSeq(Back, gs), gs, ViewReviewer, ViewGhReviewer)
  {
    assert MapSeq(ViewReviewer, MapSeq(Back, gs)) == MapSeq(ViewGhReviewer, gs);
  }

  /** An entry that is in one list only. */
  lemma NotPermuted(xs: seq<RequiredReviewer>, gs: seq<GhReviewer>, i: nat)
    requires i < |xs| && forall j :: 0 <= j < |gs| ==> ViewGhReviewer(gs[j]) != ViewReviewer(xs[i])
    ensures !Permuted(xs, gs, ViewReviewer, ViewGhReviewer)
  {
    var vs, ws := MapSeq(ViewReviewer, xs), MapSeq(ViewGhReviewer, gs);
    assert vs[i] in multiset(vs) && vs[i] !in multiset(ws);
  }

  /** A reviewer GitHub has twice: either a permutation is reported, or the loss of one of the entries is not. */
  lemma ReviewerTwiceMisleads(gs: seq<GhReviewer>) returns (xs: seq<RequiredReviewer>)
    requires AllNamed(gs) && !NoDup(MapSeq(GhReviewerKey, gs))
    ensures RequiredReviewersDiffer(xs, gs) <==> Permuted(xs, gs, ViewReviewer, ViewGhReviewer)
  {
    xs := MapSeq(Back, gs);
    BackIsPermuted(gs);
    if !RequiredReviewersDiffer(xs, gs) {
      var i, j :| 0 <= i < j < |gs| && MapSeq(GhReviewerKey, gs)[i] == MapSeq(GhReviewerKey, gs)[j];
      var y := NewReviewer(gs);
      ReplacedUnnoticed(gs, i, j, y);
      xs := xs[i := y];
      forall l | 0 <= l < |gs| ensures ViewGhReviewer(gs[l]) != ViewReviewer(xs[i]) {
        assert GhReviewerKey(gs[l]) in Keys(gs, GhReviewerKey);
      }
      NotPermuted(xs, gs, i);
    }
  }

  function TypeOf(g: GhReviewer): string {
    if GhReviewerKey(g).None? then "" else GhReviewerKey(g).value.1
  }

  lemma NewReviewer(gs: seq<GhReviewer>) returns (y: RequiredReviewer)
    ensures SpecReviewerKey(y) !in Keys(gs, GhReviewerKey)
  {
    y := RequiredReviewer(0, [], Reviewer(None, None, Longer(MapSeq(TypeOf, gs))));
    LongerIsNew(gs, TypeOf, y.reviewer.reviewerType);
    forall i | 0 <= i < |gs| ensures GhReviewerKey(gs[i]) != SpecReviewerKey(y) {
      assert TypeOf(gs[i]) in Keys(gs, TypeOf);
    }
  }

  lemma ReplacedUnnoticed(gs: seq<GhReviewer>, i: nat, j: nat, y: RequiredReviewer)
    requires AllNamed(gs) && i < j < |gs| && GhReviewerKey(gs[i]) == GhReviewerKey(gs[j])
    requires SpecReviewerKey(y) !in Keys(gs, GhReviewerKey) && !RequiredReviewersDiffer(MapSeq(Back, gs), gs)
    ensures !RequiredReviewersDiffer(MapSeq(Back, gs)[i := y], gs)
  {
    var xs := MapSeq(Back, gs);
    var before, after := LastByKey(xs, SpecReviewerKey), LastByKey(xs[i := y], SpecReviewerKey);
    IndexOfMapped(gs, Back, GhReviewerKey, SpecReviewerKey);
    forall l | 0 <= l < |gs| ensures ReviewerMatched(after, gs[l]) {
      var k := GhReviewerKey(gs[l]);
      assert gs[l] in gs && k in Keys(gs, GhReviewerKey) && ReviewerMatched(before, gs[l]);
      OverlooksReplaced(gs, xs[i := y], Back, y, i, j, k, GhReviewerKey, SpecReviewerKey);
    }
  }

  /** A pattern GitHub has twice for one reviewer: the loss of one of them is not reported. */
  lemma PatternTwiceMisleads(gs: seq<GhReviewer>, i: nat) returns (xs: seq<RequiredReviewer>)
    requires AllNamed(gs) && NoDup(MapSeq(GhReviewerKey, gs)) && i < |gs| && !NoDup(gs[i].filePatterns)
    ensures !RequiredReviewersDiffer(xs, gs) && !Permuted(xs, gs, ViewReviewer, ViewGhReviewer)
  {
    var patterns := DuplicateMisleads(gs[i].filePatterns);
    xs := MapSeq(Back, gs)[i := Back(gs[i]).(filePatterns := patterns)];
    forall l | 0 <= l < |gs| ensures SpecReviewerKey(xs[l]) == GhReviewerKey(gs[l]) {
    }
    assert MapSeq(SpecReviewerKey, xs) == MapSeq(GhReviewerKey, gs);
    LastByKeyDistinct(xs, SpecReviewerKey);
    forall l | 0 <= l < |gs| ensures ReviewerMatched(LastByKey(xs, SpecReviewerKey), gs[l]) {
      assert SameReviewer(xs[l], gs[l]);
    }
    forall j | 0 <= j < |gs| ensures ViewGhReviewer(gs[j]) != ViewReviewer(xs[i]) {
      assert j != i ==> MapSeq(GhReviewerKey, gs)[j] != MapSeq(GhReviewerKey, gs)[i];
    }
    NotPermuted(xs, gs, i);
  }

  /** An entry without a reviewer matches no definition. */
  lemma UnnamedNeverMatches(xs: seq<RequiredReviewer>, gs: seq<GhReviewer>, i: nat)
    requires i < |gs| && gs[i].reviewer.None?
    ensures RequiredReviewersDiffer(xs, gs) && !Permuted(xs, gs, ViewReviewer, ViewGhReviewer)
  {
    var vs, ws := MapSeq(ViewReviewer, xs), MapSeq(ViewGhReviewer, gs);
    assert GhReviewerKey(gs[i]) !in Keys(xs, SpecReviewerKey);
    assert gs[i] in gs && !ReviewerMatched(LastByKey(xs, SpecReviewerKey), gs[i]);
    assert ws[i] in multiset(ws) && ws[i] !in multiset(vs);
  }

  /**
    For required reviewers, GitHub's list decides alone: the comparison decides equality up to order for every definition
    exactly when GitHub's reviewers and the patterns of each are distinct, or an entry names no reviewer.
   */
  lemma ReviewersDecidedIff(gs: seq<GhReviewer>)
    ensures (forall xs :: RequiredReviewersDiffer(xs, gs) <==> !Permuted(xs, gs, ViewReviewer, ViewGhReviewer)) <==>
            !AllNamed(gs) || (NoDup(MapSeq(GhReviewerKey, gs)) && DistinctPatterns(gs))
  {
    if !AllNamed(gs) || (NoDup(MapSeq(GhReviewerKey, gs)) && DistinctPatterns(gs)) {
      forall xs ensures RequiredReviewersDiffer(xs, gs) <==> !Permuted(xs, gs, ViewReviewer, ViewGhReviewer) {
        if AllNamed(gs) {
          ReviewersDecided(xs, gs);
        } else {
          var i :| 0 <= i < |gs| && gs[i].reviewer.None?;
          UnnamedNeverMatches(xs, gs, i);
        }
      }
    } else if !NoDup(MapSeq(GhReviewerKey, gs)) {
      var xs := ReviewerTwiceMisleads(gs);
    } else {
      var i :| 0 <= i < |gs| && !NoDup(gs[i].filePatterns);
      var xs := PatternTwiceMisleads(gs, i);
    }
  }

  // ---------------------------------------------------------------- the whole ruleset

  ghost predicate DistinctConditions(c: Option<Conditions>) {
    c.Some? && c.value.repositoryProperty.Some? ==>
      && NoDup(MapSeq(TargetName, c.value.repositoryProperty.value.include_))
      && NoDup(MapSeq(TargetName, c.value.repositoryProperty.value.exclude))
  }

  ghost predicate DistinctStrings(c: Option<Conditions>) {
    c.Some? ==>
      && (c.value.refName.Some? ==> NoDup(c.value.refName.value.include_) && NoDup(c.value.refName.value.exclude))
      && (c.value.repositoryName.Some? ==>
            NoDup(c.value.repositoryName.value.include_) && NoDup(c.value.repositoryName.value.exclude))
      && (c.value.repositoryProperty.Some? ==>
            && DistinctValues(c.value.repositoryProperty.value.include_)
            && DistinctValues(c.value.repositoryProperty.value.exclude))
  }

  ghost predicate DistinctRules(r: Rules) {
    && (r.requiredStatusChecks.Some? ==> NoDup(MapSeq(CheckContext, r.requiredStatusChecks.value.checks)))
    && (r.workflows.Some? ==> NoDup(MapSeq(SpecWorkflowKey, r.workflows.value.workflows)))
  }

  ghost predicate DistinctGhRules(g: GhRules) {
    g.pullRequest.Some? ==>
      && NoDup(MapSeq(GhReviewerKey, g.pullRequest.value.requiredReviewers))
      && DistinctPatterns(g.pullRequest.value.requiredReviewers)
  }

  /** The definition names no actor, property, check or workflow twice. */
  ghost predicate DistinctSpec(s: RulesetSpec) {
    NoDup(MapSeq(SpecActorKey, s.bypassActors)) && DistinctConditions(s.conditions) && DistinctRules(s.rules)
  }

  /** The GitHub ruleset names no reviewer twice and repeats no string in a list. */
  ghost predicate DistinctGh(g: GhRuleset) {
    DistinctStrings(g.conditions) && (g.rules.Some? ==> DistinctGhRules(g.rules.value))
  }

  lemma RefNameDecided(a: Option<RefNameCondition>, g: Option<RefNameCondition>)
    requires g.Some? ==> NoDup(g.value.include_) && NoDup(g.value.exclude)
    ensures RefNameDiffers(a, g) <==> MapOption(ViewRefName, a) != MapOption(ViewRefName, g)
  {
    if a.Some? && g.Some? {
      StringsEqualIff(a.value.include_, g.value.include_);
      StringsEqualIff(a.value.exclude, g.value.exclude);
    }
  }

  lemma RepositoryNameDecided(a: Option<RepositoryNameCondition>, g: Option<RepositoryNameCondition>)
    requires g.Some? ==> NoDup(g.value.include_) && NoDup(g.value.exclude)
    ensures RepositoryNameDiffers(a, g) <==> MapOption(ViewRepositoryName, a) != MapOption(ViewRepositoryName, g)
  {
    if a.Some? && g.Some? {
      StringsEqualIff(a.value.include_, g.value.include_);
      StringsEqualIff(a.value.exclude, g.value.exclude);
    }
  }

  lemma PropertyDecided(a: Option<RepositoryPropertyCondition>, g: Option<RepositoryPropertyCondition>)
    requires a.Some? ==> NoDup(MapSeq(TargetName, a.value.include_)) && NoDup(MapSeq(TargetName, a.value.exclude))
    requires g.Some? ==> DistinctValues(g.value.include_) && DistinctValues(g.value.exclude)
    ensures RepositoryPropertyDiffers(a, g) <==> MapOption(ViewProperty, a) != MapOption(ViewProperty, g)
  {
    if a.Some? && g.Some? {
      SameLength(MapSeq(ViewTarget, a.value.include_), MapSeq(ViewTarget, g.value.include_));
      SameLength(MapSeq(ViewTarget, a.value.exclude), MapSeq(ViewTarget, g.value.exclude));
      if |a.value.include_| == |g.value.include_| && |a.value.exclude| == |g.value.exclude| {
        TargetsDecided(a.value.include_, g.value.include_);
        TargetsDecided(a.value.exclude, g.value.exclude);
      }
    }
  }

  lemma ConditionsDecided(a: Option<Conditions>, g: Option<Conditions>)
    requires DistinctConditions(a) && DistinctStrings(g)
    ensures ConditionsDiffer(a, g) <==> MapOption(ViewConditions, a) != MapOption(ViewConditions, g)
  {
    if a.Some? && g.Some? {
      RefNameDecided(a.value.refName, g.value.refName);
      RepositoryNameDecided(a.value.repositoryName, g.value.repositoryName);
      PropertyDecided(a.value.repositoryProperty, g.value.repositoryProperty);
    }
  }

  lemma PullRequestDecided(a: Option<PullRequestRule>, g: Option<GhPullRequest>)
    requires g.Some? ==>
               NoDup(MapSeq(GhReviewerKey, g.value.requiredReviewers)) && DistinctPatterns(g.value.requiredReviewers)
    ensures PullRequestDiffers(a, g) <==> MapOption(ViewPullRequest, a) != MapOption(ViewGhPullRequest, g)
  {
    if a.Some? && g.Some? {
      ReviewersDecided(a.value.requiredReviewers, g.value.requiredReviewers);
    }
  }

  lemma StatusChecksDecided(a: Option<RequiredStatusChecks>, g: Option<GhStatusChecks>)
    requires a.Some? ==> NoDup(MapSeq(CheckContext, a.value.checks))
    ensures StatusChecksDiffer(a, g) <==> MapOption(ViewChecks, a) != MapOption(ViewGhChecks, g)
  {
    if a.Some? && g.Some? {
      ChecksDecided(a.value.checks, g.value.checks);
    }
  }

  lemma WorkflowsDecided(a: Option<WorkflowsRule>, g: Option<GhWorkflows>)
    requires a.Some? ==> NoDup(MapSeq(SpecWorkflowKey, a.value.workflows))
    ensures WorkflowsDiffer(a, g) <==> MapOption(ViewWorkflows, a) != MapOption(ViewGhWorkflows, g)
  {
    if a.Some? && g.Some? {
      WorkflowListDecided(a.value.workflows, g.value.workflows);
    }
  }

  lemma PatternDecided(a: Option<PatternRule>, g: Option<PatternRule>)
    ensures PatternDiffers(a, g) <==> MapOption(ViewPattern, a) != MapOption(ViewPattern, g)
  {
  }

  lemma PatternsDecided(r: Rules, g: GhRules)
    ensures PatternsDiffer(r, g) <==> ViewRules(r).patterns != ViewGhRules(g).patterns
  {
    PatternDecided(r.commitMessagePattern, g.commitMessagePattern);
    PatternDecided(r.commitAuthorEmailPattern, g.commitAuthorEmailPattern);
    PatternDecided(r.committerEmailPattern, g.committerEmailPattern);
    PatternDecided(r.branchNamePattern, g.branchNamePattern);
    PatternDecided(r.tagNamePattern, g.tagNamePattern);
    FiveEqual(ViewRules(r).patterns, ViewGhRules(g).patterns);
  }

  lemma FiveEqual<T>(ps: seq<T>, qs: seq<T>)
    requires |ps| == |qs| == 5
    ensures ps == qs <==> ps[0] == qs[0] && ps[1] == qs[1] && ps[2] == qs[2] && ps[3] == qs[3] && ps[4] == qs[4]
  {
  }

  lemma FlagsDecided(r: Rules, g: GhRules)
    ensures FlagsDiffer(r, g) <==> ViewRules(r).flags != ViewGhRules(g).flags
  {
    var fs, hs := ViewRules(r).flags, ViewGhRules(g).flags;
    assert fs == hs <==>
           fs[0] == hs[0] && fs[1] == hs[1] && fs[2] == hs[2] && fs[3] == hs[3] && fs[4] == hs[4] && fs[5] == hs[5];
  }

  lemma NoRulesDecided(r: Rules)
    ensures HasAnyRulesSet(r) <==> ViewRules(r) != NO_RULES
  {
    var fs, ps := ViewRules(r).flags, ViewRules(r).patterns;
    assert fs == NO_RULES.flags <==> !fs[0] && !fs[1] && !fs[2] && !fs[3] && !fs[4] && !fs[5];
    assert ps == NO_RULES.patterns <==>
           ps[0].None? && ps[1].None? && ps[2].None? && ps[3].None? && ps[4].None?;
  }

  lemma RulesDecided(r: Rules, g: Option<GhRules>)
    requires DistinctRules(r) && (g.Some? ==> DistinctGhRules(g.value))
    ensures RulesDiffer(r, g) <==> ViewRules(r) != if g.None? then NO_RULES else ViewGhRules(g.value)
  {
    if g.None? {
      NoRulesDecided(r);
    } else {
      FlagsDecided(r, g.value);
      PullRequestDecided(r.pullRequest, g.value.pullRequest);
      StatusChecksDecided(r.requiredStatusChecks, g.value.requiredStatusChecks);
      WorkflowsDecided(r.workflows, g.value.workflows);
      PatternsDecided(r, g.value);
    }
  }

  /**
    If the side that is looked through names nothing twice, the differ answers "no difference" exactly when the compared
    fields are equal up to the order of the lists and the spelling of nil and defaults.
   */
  lemma DifferDecidesEquality(spec: RulesetSpec, g: GhRuleset)
    requires DistinctSpec(spec) && DistinctGh(g)
    ensures RulesetsDiffer(spec, g) <==> ViewSpec(spec) != ViewGh(g)
  {
    ActorsDecided(spec.bypassActors, g.bypassActors);
    ConditionsDecided(spec.conditions, g.conditions);
    RulesDecided(spec.rules, g.rules);
  }

  /**
    Distinct keys are needed: checks are merged by context and app but compared by context, so one context required
    from two apps differs from the same two checks in the other order.
   */
  lemma OneContextFromTwoApps()
    ensures var mine := [StatusCheck("build", Some(1), None), StatusCheck("build", Some(2), None)];
            var theirs := [GhCheck("build", Some(2)), GhCheck("build", Some(1))];
            && multiset(MapSeq(ViewCheck, mine)) == multiset(MapSeq(ViewGhCheck, theirs))
            && StatusChecksDiffer(Some(RequiredStatusChecks(mine, None)), Some(GhStatusChecks(theirs, false)))
  {
    var mine := [StatusCheck("build", Some(1), None), StatusCheck("build", Some(2), None)];
    var theirs := [GhCheck("build", Some(2)), GhCheck("build", Some(1))];
    var v1, v2 := CheckView("build", Some(1)), CheckView("build", Some(2));
    assert MapSeq(ViewCheck, mine) == [v1, v2] && MapSeq(ViewGhCheck, theirs) == [v2, v1];
    LastByKeySnoc(mine[..1], mine[1], CheckContext);
    LastByKeySnoc(theirs[..1], theirs[1], GhCheckContext);
    assert mine == mine[..1] + [mine[1]] && theirs == theirs[..1] + [theirs[1]];
    assert "build" in LastByKey(mine, CheckContext);
  }

  function MethodName(m: MergeMethod): string {
    match m
    case Rebase => "rebase"
    case Squash => "squash"
    case Merge => "merge"
  }

  /** The allowed merge methods are sent in order; an empty list is sent as "merge", an unknown method too. */
  lemma MergeMethodsSent(ms: seq<string>)
    ensures MapMergeMethods(ms) != []
    ensures ms == [] ==> MapSeq(MethodName, MapMergeMethods(ms)) == ["merge"]
    ensures ms != [] && (forall i :: 0 <= i < |ms| ==> ms[i] in {"rebase", "squash", "merge"}) ==>
              MapSeq(MethodName, MapMergeMethods(ms)) == ms
  {
    if ms != [] && forall i :: 0 <= i < |ms| ==> ms[i] in {"rebase", "squash", "merge"} {
      forall i | 0 <= i < |ms| ensures MethodName(MapMergeMethod(ms[i])) == ms[i] {
        assert ms[i] == "rebase" || ms[i] == "squash" || ms[i] == "merge";
      }
      assert MapSeq(MethodName, MapMergeMethods(ms)) == ms;
    }
  }

  /** The allowed merge methods are not among the compared fields: changing only them is never noticed. */
  lemma MergeMethodsAreNotCompared(spec: RulesetSpec, methods: seq<string>, g: GhRuleset)
    requires spec.rules.pullRequest.Some?
    ensures var pr := spec.rules.pullRequest.value.(allowedMergeMethods := methods);
            RulesetsDiffer(spec.(rules := spec.rules.(pullRequest := Some(pr))), g) == RulesetsDiffer(spec, g)
  {
  }
}
