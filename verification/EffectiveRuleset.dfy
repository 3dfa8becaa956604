/** What the keyed lists of a resolved ruleset contain, in terms of the rulesets of its chain. */
module EffectiveRuleset {
  import opened Collections
  import opened KeyedMerge
  import opened ChainFold
  import opened RulesetTypes
  import opened RulesetMerge
  import opened Inheritance
  import opened ExtendsChain

  /** The rulesets of a chain that was walked to its end, the ruleset itself first. */
  ghost predicate ChainOf(store: Store, spec: RulesetSpec, self: string, chain: seq<RulesetSpec>) {
    exists names :: && CleanPath(store, self, spec.parent, names) && NextName(store, spec.parent, names) == ""
                    && AllExist(store, names) && chain == [spec] + Specs(store, names)
  }

  /**
    Everything but the keyed lists: the name is the ruleset's own, extends is cleared, target (defaulted) and enforcement
    and every inherited or atomic field come from the nearest ruleset that sets them.
   */
  lemma ResolvedFields(store: Store, spec: RulesetSpec, self: string, chain: seq<RulesetSpec>, r: RulesetSpec)
    requires ChainOf(store, spec, self, chain) && Resolve(store, spec, self) == Resolved(r)
    ensures r.name == spec.name && r.parent == ""
    ensures var target := NearestSet(MapSeq(TargetOf, chain)); r.target == if target == "" then "branch" else target
    ensures r.enforcement == NearestSet(MapSeq(EnforcementOf, chain)) && r.enforcement != ""
    ensures FlagsFromNearest(chain, r) && AtomicFromNearest(chain, r)
    ensures var prs := Present(MapSeq(PullRequestOf, chain));
            && (r.rules.pullRequest.None? <==> prs == [])
            && (r.rules.pullRequest.Some? ==> PullRequestFromNearest(prs, r.rules.pullRequest.value))
    ensures ObjectsFromNearest(chain, r)
  {
    var names :| CleanPath(store, self, spec.parent, names) && NextName(store, spec.parent, names) == "" &&
                 AllExist(store, names) && chain == [spec] + Specs(store, names);
    ResolveReached(store, spec, self, names);
    var eff := FoldSpecs(chain);
    assert r == eff.(parent := "", target := r.target);
    EffectiveScalars(chain);
    EffectiveFields(chain);
    FlagsCarryOver(chain, eff, r);
    AtomicCarryOver(chain, eff, r);
    EffectivePullRequest(chain);
    EffectiveObjects(chain);
  }

  /** The four keyed lists of a resolved ruleset are the lists of its chain merged by key. */
  lemma ResolvedLists(store: Store, spec: RulesetSpec, self: string, chain: seq<RulesetSpec>)
    requires ChainOf(store, spec, self, chain) && Resolve(store, spec, self).Resolved?
    ensures var r := Resolve(store, spec, self).spec;
            var checks := Present(MapSeq(StatusChecksOf, chain));
            var prs := Present(MapSeq(PullRequestOf, chain));
            var workflows := Present(MapSeq(WorkflowsOf, chain));
            && r.bypassActors == MergeLists(MapSeq(BypassActorsOf, chain), BypassActorKey)
            && (if checks == [] then r.rules.requiredStatusChecks.None?
                else r.rules.requiredStatusChecks.Some? &&
                     r.rules.requiredStatusChecks.value.checks == MergeLists(MapSeq(CheckListOf, checks), StatusCheckKey))
            && (if prs == [] then r.rules.pullRequest.None?
                else r.rules.pullRequest.Some? &&
                     r.rules.pullRequest.value.requiredReviewers == MergeLists(MapSeq(ReviewerListOf, prs), ReviewerKey))
            && (if workflows == [] then r.rules.workflows.None?
                else r.rules.workflows.Some? &&
                     r.rules.workflows.value.workflows == MergeLists(MapSeq(WorkflowListOf, workflows), WorkflowKey))
  {
    var names :| CleanPath(store, self, spec.parent, names) && NextName(store, spec.parent, names) == "" &&
                 AllExist(store, names) && chain == [spec] + Specs(store, names);
    ResolveReached(store, spec, self, names);
    EffectiveBypassActors(chain);
    EffectiveStatusChecks(chain);
    EffectiveRequiredReviewers(chain);
    EffectiveWorkflows(chain);
  }

  /** Nearest-definer semantics of all four keyed lists of a resolved ruleset. */
  lemma ResolvedByNearest(store: Store, spec: RulesetSpec, self: string, chain: seq<RulesetSpec>, r: RulesetSpec)
    requires ChainOf(store, spec, self, chain) && Resolve(store, spec, self) == Resolved(r)
    ensures ByNearest(MapSeq(BypassActorsOf, chain), r.bypassActors, BypassActorKey)
    ensures r.rules.requiredStatusChecks.Some? ==>
              ByNearest(MapSeq(CheckListOf, Present(MapSeq(StatusChecksOf, chain))),
                        r.rules.requiredStatusChecks.value.checks, StatusCheckKey)
    ensures r.rules.pullRequest.Some? ==>
              ByNearest(MapSeq(ReviewerListOf, Present(MapSeq(PullRequestOf, chain))),
                        r.rules.pullRequest.value.requiredReviewers, ReviewerKey)
    ensures r.rules.workflows.Some? ==>
              ByNearest(MapSeq(WorkflowListOf, Present(MapSeq(WorkflowsOf, chain))),
                        r.rules.workflows.value.workflows, WorkflowKey)
  {
    var checks, prs, workflows := Present(MapSeq(StatusChecksOf, chain)), Present(MapSeq(PullRequestOf, chain)),
                                  Present(MapSeq(WorkflowsOf, chain));
    ResolvedLists(store, spec, self, chain);
    NearestDefinerSemantics(MapSeq(BypassActorsOf, chain), BypassActorKey);
    if checks != [] {
      NearestDefinerSemantics(MapSeq(CheckListOf, checks), StatusCheckKey);
    }
    if prs != [] {
      NearestDefinerSemantics(MapSeq(ReviewerListOf, prs), ReviewerKey);
    }
    if workflows != [] {
      NearestDefinerSemantics(MapSeq(WorkflowListOf, workflows), WorkflowKey);
    }
  }
}
