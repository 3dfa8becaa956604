/**
  What exactly a run of `Sync` leaves of a ruleset that was there before, and two consequences: merge methods that differ
  from the definition may stay, and a team named once by slug and once by id may be written on every run.
 */
module StoredRulesets {
  import opened Collections
  import opened RulesetTypes
  import opened RulesetMapper
  import opened RulesetDiffer
  import opened RoundTrip
  import opened RulesetCollect
  import opened RulesetSync
  import opened RulesetConvergence

  /** The stored ruleset after its turn: what was sent if it differs, else as it was. */
  function Renewed(spec: RulesetSpec, r: GhRuleset): GhRuleset
    requires ToGitHub(spec).Some?
  {
    if RulesetsDiffer(spec, r) then ToGitHub(spec).value.(id := r.id) else r
  }

  lemma ApplyExistingStores(st: State, id: int, spec: RulesetSpec, fails: nat -> bool)
    requires id in st.hub.rulesets && st.hub.rulesets[id].id == Some(id) && ToGitHub(spec).Some?
    ensures var end := ApplyExisting(st, id, spec, ToGitHub(spec).value, fails);
            end.ok ==> id in end.hub.rulesets && end.hub.rulesets[id] == Renewed(spec, st.hub.rulesets[id])
  {
  }

  /** The step for another name leaves a ruleset alone. */
  lemma OthersStay(h0: Hub, existing: Index, opts: Options, names: set<string>, st: State, e: Desired,
                   fails: nat -> bool, id: int)
    requires Exact(h0, existing) && KeepsNames(opts) && Evolved(h0, existing, names, st.hub)
    requires id in h0.rulesets && e.spec.name != h0.rulesets[id].name
    ensures var end := ApplyOne(st, existing, e, opts, fails);
            id in end.hub.rulesets && end.hub.rulesets[id] == st.hub.rulesets[id]
  {
    if Applies(opts, e) && Prepare(opts, e.spec).Some? {
      var name := Prepare(opts, e.spec).value.name;
      assert name in existing && existing[name].Some? ==> existing[name].value != id;
    }
  }

  /** Until its turn, a ruleset is as it was. */
  lemma {:induction false} BeforeItsTurn(h0: Hub, existing: Index, opts: Options, ds: seq<Desired>, st: State,
                                         fails: nat -> bool, id: int)
    requires ValidHub(h0) && Exact(h0, existing) && KeepsNames(opts) && DistinctNames(ds)
    requires st.ok && st.toDelete == existing && st.hub.rulesets == h0.rulesets && st.hub.nextId == h0.nextId
    ensures var hub := ApplyAll(st, existing, ds, opts, fails).hub;
            && Evolved(h0, existing, AppliedNames(opts, ds), hub)
            && (id in h0.rulesets && h0.rulesets[id].name !in AppliedNames(opts, ds) ==>
                  id in hub.rulesets && hub.rulesets[id] == h0.rulesets[id])
  {
    ApplyAllProgress(h0, existing, opts, ds, st, fails);
  }

  lemma ItsTurn(existing: Index, opts: Options, st: State, fails: nat -> bool, d: Desired, id: int)
    requires KeepsNames(opts) && Applies(opts, d) && id in st.hub.rulesets && st.hub.rulesets[id].id == Some(id)
    requires d.spec.name in existing && existing[d.spec.name] == Some(id) && ApplyOne(st, existing, d, opts, fails).ok
    ensures Prepare(opts, d.spec).Some? && ToGitHub(Prepare(opts, d.spec).value).Some?
    ensures var rulesets := ApplyOne(st, existing, d, opts, fails).hub.rulesets;
            id in rulesets && rulesets[id] == Renewed(Prepare(opts, d.spec).value, st.hub.rulesets[id])
  {
    ApplyExistingStores(st, id, Prepare(opts, d.spec).value, fails);
  }

  lemma {:induction false} ApplyAllStores(h0: Hub, existing: Index, opts: Options, ds: seq<Desired>, st: State,
                                          fails: nat -> bool, d: Desired, id: int)
    requires ValidHub(h0) && Exact(h0, existing) && KeepsNames(opts) && DistinctNames(ds)
    requires st.ok && st.toDelete == existing && st.hub.rulesets == h0.rulesets && st.hub.nextId == h0.nextId
    requires d in ds && Applies(opts, d) && id in h0.rulesets && h0.rulesets[id].name == d.spec.name
    requires ApplyAll(st, existing, ds, opts, fails).ok
    ensures Prepare(opts, d.spec).Some? && ToGitHub(Prepare(opts, d.spec).value).Some?
    ensures var rulesets := ApplyAll(st, existing, ds, opts, fails).hub.rulesets;
            id in rulesets && rulesets[id] == Renewed(Prepare(opts, d.spec).value, h0.rulesets[id])
  {
    var n := |ds| - 1;
    var init, e := ds[..n], ds[n];
    var before := ApplyAll(st, existing, init, opts, fails);
    assert ds == init + [e];
    BeforeItsTurn(h0, existing, opts, init, st, fails, id);
    if d in init {
      ApplyAllStores(h0, existing, opts, init, st, fails, d, id);
      OthersStay(h0, existing, opts, AppliedNames(opts, init), before, e, fails, id);
    } else {
      assert h0.rulesets[id].name !in AppliedNames(opts, init);
      ItsTurn(existing, opts, before, fails, d, id);
    }
  }

  /**
    A run without errors leaves of each ruleset that was there and is applied exactly what was sent for it, if it
    differed, and otherwise what was there.
   */
  lemma {:induction false} SyncStores(h0: Hub, listing: seq<Listed>, ds: seq<Desired>, opts: Options,
                                      fails: nat -> bool, order: seq<string>, end: State, d: Desired, id: int)
    requires Run(h0, listing, ds, opts, fails, order, end) && end.ok
    requires ValidHub(h0) && ListsAll(h0, listing) && KeepsNames(opts) && DistinctNames(ds)
    requires d in ds && Applies(opts, d) && id in h0.rulesets && h0.rulesets[id].name == d.spec.name
    ensures Prepare(opts, d.spec).Some? && ToGitHub(Prepare(opts, d.spec).value).Some?
    ensures id in end.hub.rulesets && end.hub.rulesets[id] == Renewed(Prepare(opts, d.spec).value, h0.rulesets[id])
  {
    var existing, st := IndexListing(listing), Applied(h0, listing, ds, opts, fails);
    ListedExactly(h0, listing);
    ApplyAllProgress(h0, existing, opts, ds, Start(h0, listing), fails);
    ApplyAllStores(h0, existing, opts, ds, Start(h0, listing), fails, d, id);
    DeleteAllEffect(st, order, fails);
    assert d.spec.name in AppliedNames(opts, ds);
    forall n | n in order && st.toDelete[n].Some? ensures st.toDelete[n].value != id {
      assert n in st.toDelete && n !in AppliedNames(opts, ds) && existing[n] == st.toDelete[n];
    }
  }

  // ---------------------------------------------------------------- merge methods

  function MethodsOn(r: GhRuleset): Option<seq<MergeMethod>> {
    if r.rules.None? || r.rules.value.pullRequest.None? then None
    else Some(r.rules.value.pullRequest.value.allowedMergeMethods)
  }

  function MethodsWanted(spec: RulesetSpec): Option<seq<MergeMethod>> {
    if spec.rules.pullRequest.None? then None
    else Some(MapMergeMethods(spec.rules.pullRequest.value.allowedMergeMethods))
  }

  /** A run without errors leaves the wanted merge methods exactly when they were there or something else differed. */
  lemma {:induction false} MergeMethodsSettleIff(h0: Hub, listing: seq<Listed>, ds: seq<Desired>, opts: Options,
                                                 fails: nat -> bool, order: seq<string>, end: State, d: Desired,
                                                 id: int)
    requires Run(h0, listing, ds, opts, fails, order, end) && end.ok
    requires ValidHub(h0) && ListsAll(h0, listing) && KeepsNames(opts) && DistinctNames(ds)
    requires d in ds && Applies(opts, d) && id in h0.rulesets && h0.rulesets[id].name == d.spec.name
    ensures Prepare(opts, d.spec).Some? && id in end.hub.rulesets
    ensures var spec := Prepare(opts, d.spec).value;
            MethodsOn(end.hub.rulesets[id]) == MethodsWanted(spec) <==>
            MethodsOn(h0.rulesets[id]) == MethodsWanted(spec) || RulesetsDiffer(spec, h0.rulesets[id])
  {
    SyncStores(h0, listing, ds, opts, fails, order, end, d, id);
  }

  // ---------------------------------------------------------------- the flag of the update rule

  function UpdateOn(r: GhRuleset): Option<bool> {
    if r.rules.None? then None else r.rules.value.update
  }

  function UpdateWanted(spec: RulesetSpec): Option<bool> {
    MapRules(spec.rules).update
  }

  /** The flag of an update rule is sent but only the presence of the rule is compared. */
  lemma UpdateFlagIsNotCompared(spec: RulesetSpec, r: GhRuleset, flag: bool)
    requires UpdateOn(r).Some?
    ensures RulesetsDiffer(spec, r.(rules := Some(r.rules.value.(update := Some(flag))))) == RulesetsDiffer(spec, r)
  {
  }

  /** A run without errors leaves the update rule as wanted exactly when it was so or something else differed. */
  lemma {:induction false} UpdateFlagSettlesIff(h0: Hub, listing: seq<Listed>, ds: seq<Desired>, opts: Options,
                                                fails: nat -> bool, order: seq<string>, end: State, d: Desired, id: int)
    requires Run(h0, listing, ds, opts, fails, order, end) && end.ok
    requires ValidHub(h0) && ListsAll(h0, listing) && KeepsNames(opts) && DistinctNames(ds)
    requires d in ds && Applies(opts, d) && id in h0.rulesets && h0.rulesets[id].name == d.spec.name
    ensures Prepare(opts, d.spec).Some? && id in end.hub.rulesets
    ensures var spec := Prepare(opts, d.spec).value;
            UpdateOn(end.hub.rulesets[id]) == UpdateWanted(spec) <==>
            UpdateOn(h0.rulesets[id]) == UpdateWanted(spec) || RulesetsDiffer(spec, h0.rulesets[id])
  {
    SyncStores(h0, listing, ds, opts, fails, order, end, d, id);
  }

  function WithUpdate(): RulesetSpec {
    RulesetSpec("main", "", "branch", None, "active", [], NoRules().(update := Some(true)))
  }

  /** For instance: the rule is wanted, GitHub has it with the flag unset, and a run without errors writes nothing. */
  lemma StaleUpdateFlagStays()
    ensures var spec, sent := WithUpdate(), ToGitHub(WithUpdate()).value;
            var stored := sent.(id := Some(1), rules := Some(sent.rules.value.(update := Some(false))));
            var h := Hub(map[1 := stored], 2, 0, []);
            && Run(h, [Listed("main", Some(1))], [Desired("inline[0]", spec, None, spec)], PLAIN_OPTIONS, _ => false, [],
                   State(h.(calls := 2), map[], true))
            && UpdateOn(stored) == Some(false) && UpdateWanted(spec) == Some(true)
  {
    var spec, sent := WithUpdate(), ToGitHub(WithUpdate()).value.(id := Some(1));
    var stored := sent.(rules := Some(sent.rules.value.(update := Some(false))));
    MappingMatchesIff(spec, Some(1));
    UpdateFlagIsNotCompared(spec, sent, false);
    QuietRun(Hub(map[1 := stored], 2, 0, []), 1, Desired("inline[0]", spec, None, spec), PLAIN_OPTIONS, _ => false);
  }

  // ---------------------------------------------------------------- runs over one ruleset

  function NoRules(): Rules {
    Rules(None, None, None, None, None, None, None, None, None, None, None, None, None, None, None)
  }

  function WithPullRequest(rule: PullRequestRule): RulesetSpec {
    RulesetSpec("main", "", "branch", None, "active", [], NoRules().(pullRequest := Some(rule)))
  }

  function WithMethods(methods: seq<string>): RulesetSpec {
    WithPullRequest(PullRequestRule(methods, None, None, None, 1, None, []))
  }

  const PLAIN_OPTIONS := Options(true, (d: Desired) => false, (s: RulesetSpec) => Some(s), (s: RulesetSpec) => s)

  /** A run over one ruleset that does not differ from its only definition lists, fetches and ends. */
  lemma QuietRun(h: Hub, id: int, d: Desired, opts: Options, fails: nat -> bool)
    requires id in h.rulesets && !fails(h.calls) && !fails(h.calls + 1)
    requires Applies(opts, d) && Prepare(opts, d.spec).Some? && ToGitHub(Prepare(opts, d.spec).value).Some?
    requires !RulesetsDiffer(Prepare(opts, d.spec).value, h.rulesets[id])
    ensures var name := Prepare(opts, d.spec).value.name;
            Run(h, [Listed(name, Some(id))], [d], opts, fails, [], State(h.(calls := h.calls + 2), map[], true))
  {
    var name := Prepare(opts, d.spec).value.name;
    var listing := [Listed(name, Some(id))];
    assert listing[..0] == [] && IndexListing([]) == map[];
    assert IndexListing(listing) == map[name := Some(id)];
    var st := Start(h, listing);
    assert [d][..0] == [] && ApplyAll(st, IndexListing(listing), [], opts, fails) == st;
    assert Applied(h, listing, [d], opts, fails) == ApplyOne(st, IndexListing(listing), d, opts, fails);
    assert st.toDelete - {name} == map[];
  }

  lemma SquashIsNotNoticed(stored: GhRuleset)
    requires stored == ToGitHub(WithMethods(["merge"])).value.(id := Some(1))
    ensures !RulesetsDiffer(WithMethods(["squash"]), stored)
  {
    var was := WithMethods(["merge"]);
    assert ReviewersConsistent([]) && Representable(was);
    MappingMatchesIff(was, Some(1));
    MergeMethodsAreNotCompared(was, ["squash"], stored);
  }

  /** For instance: "squash" is wanted, GitHub has "merge", and a run without errors writes nothing. */
  lemma StaleMergeMethodsStay()
    ensures var spec := WithMethods(["squash"]);
            var stored := ToGitHub(WithMethods(["merge"])).value.(id := Some(1));
            var h := Hub(map[1 := stored], 2, 0, []);
            && Run(h, [Listed("main", Some(1))], [Desired("inline[0]", spec, None, spec)], PLAIN_OPTIONS, _ => false, [],
                   State(h.(calls := 2), map[], true))
            && MethodsOn(stored) == Some([Merge]) && MethodsWanted(spec) == Some([Squash])
  {
    var spec := WithMethods(["squash"]);
    var stored := ToGitHub(WithMethods(["merge"])).value.(id := Some(1));
    SquashIsNotNoticed(stored);
    assert MapMergeMethods(["merge"]) == [Merge] && MapMergeMethods(["squash"]) == [Squash];
    QuietRun(Hub(map[1 := stored], 2, 0, []), 1, Desired("inline[0]", spec, None, spec), PLAIN_OPTIONS, _ => false);
  }

  // ---------------------------------------------------------------- one team, named twice

  /** A slug is looked up unless the entry has an id already; only teams can be. */
  function ResolveReviewer(teams: map<string, int>, r: RequiredReviewer): Option<RequiredReviewer> {
    var who := r.reviewer;
    if who.id.Some? || who.slug.None? then Some(r)
    else if who.reviewerType == "Team" && who.slug.value in teams
    then Some(r.(reviewer := who.(id := Some(teams[who.slug.value]))))
    else None
  }

  /** `resolveRequiredReviewerSlugs`, which fails at the first unknown slug. */
  function ResolveReviewers(teams: map<string, int>, rs: seq<RequiredReviewer>): Option<seq<RequiredReviewer>> {
    if rs == [] then Some([])
    else
      var first, rest := ResolveReviewer(teams, rs[0]), ResolveReviewers(teams, rs[1..]);
      if first.None? || rest.None? then None else Some([first.value] + rest.value)
  }

  function ResolveSlugs(teams: map<string, int>, spec: RulesetSpec): Option<RulesetSpec> {
    if spec.rules.pullRequest.None? then Some(spec)
    else
      var pr := spec.rules.pullRequest.value;
      var rs := ResolveReviewers(teams, pr.requiredReviewers);
      if rs.None? then None
      else Some(spec.(rules := spec.rules.(pullRequest := Some(pr.(requiredReviewers := rs.value)))))
  }

  function BySlug(slug: string, approvals: int, patterns: seq<string>): RequiredReviewer {
    RequiredReviewer(approvals, patterns, Reviewer(None, Some(slug), "Team"))
  }

  function ById(id: int, approvals: int, patterns: seq<string>): RequiredReviewer {
    RequiredReviewer(approvals, patterns, Reviewer(Some(id), None, "Team"))
  }

  lemma {:induction false} ResolveTwo(teams: map<string, int>, slug: string, a: RequiredReviewer, b: RequiredReviewer)
    requires slug in teams && a.reviewer == Reviewer(None, Some(slug), "Team") && b.reviewer.id.Some?
    ensures ResolveReviewers(teams, [a, b]) ==
            Some([a.(reviewer := Reviewer(Some(teams[slug]), Some(slug), "Team")), b])
  {
    var a' := a.(reviewer := Reviewer(Some(teams[slug]), Some(slug), "Team"));
    assert [b][1..] == [] && [b] + [] == [b] && [a, b][1..] == [b] && [a'] + [b] == [a', b];
    assert ResolveReviewers(teams, [b]) == Some([b]);
  }

  /** A team named by slug and then by its id: the two entries resolve to one reviewer. */
  lemma {:induction false} TeamNamedTwice(teams: map<string, int>, slug: string, a: int, p: seq<string>, b: int,
                                          q: seq<string>)
    requires slug in teams
    ensures var first, last := BySlug(slug, a, p), ById(teams[slug], b, q);
            var rs := ResolveReviewers(teams, [first, last]);
            rs.Some? && (ReviewersConsistent(rs.value) <==> NothingNew(first, last))
  {
    var first, last := BySlug(slug, a, p), ById(teams[slug], b, q);
    ResolveTwo(teams, slug, first, last);
    var rs := ResolveReviewers(teams, [first, last]).value;
    assert SamePerson(rs[1], rs[0]) && !LastEntry(rs, 0) && LastEntry(rs, 1);
    assert NothingNew(rs[0], rs[1]) == NothingNew(first, last) && NothingNew(rs[1], rs[1]);
  }

  function WithTwoEntries(who: Reviewer): RulesetSpec {
    WithPullRequest(PullRequestRule([], None, None, None, 1, None,
                                    [RequiredReviewer(1, ["*"], who), ById(7, 2, ["*"])]))
  }

  const TEAMS := map["platform" := 7]

  const WITH_TEAMS := PLAIN_OPTIONS.(resolve := (s: RulesetSpec) => ResolveSlugs(TEAMS, s))

  lemma PrepareTwoEntries()
    ensures var raw := WithTwoEntries(Reviewer(None, Some("platform"), "Team"));
            var spec := WithTwoEntries(Reviewer(Some(7), Some("platform"), "Team"));
            Prepare(WITH_TEAMS, raw) == Some(spec) && !Representable(spec)
  {
    ResolveTwo(TEAMS, "platform", BySlug("platform", 1, ["*"]), ById(7, 2, ["*"]));
    TeamNamedTwice(TEAMS, "platform", 1, ["*"], 2, ["*"]);
  }

  /**
    A run over one ruleset that is stored as it was sent for a definition the mapper cannot express: it is updated, and
    GitHub has the same rulesets afterwards, so the next run does the same again.
   */
  lemma {:induction false} RewritingRun(h: Hub, id: int, d: Desired, opts: Options, fails: nat -> bool)
    requires id in h.rulesets && !fails(h.calls) && !fails(h.calls + 1) && !fails(h.calls + 2)
    requires Applies(opts, d) && Prepare(opts, d.spec).Some? && ToGitHub(Prepare(opts, d.spec).value).Some?
    requires var spec := Prepare(opts, d.spec).value;
             h.rulesets[id] == ToGitHub(spec).value.(id := Some(id)) && !Representable(spec)
    ensures var name := Prepare(opts, d.spec).value.name;
            exists calls ::
              Run(h, [Listed(name, Some(id))], [d], opts, fails, [],
                  State(h.(calls := calls, log := h.log + [Updated(id, name)]), map[], true))
  {
    var spec := Prepare(opts, d.spec).value;
    var listing := [Listed(spec.name, Some(id))];
    assert listing[..0] == [] && IndexListing([]) == map[];
    assert IndexListing(listing) == map[spec.name := Some(id)];
    var st := Start(h, listing);
    assert [d][..0] == [] && ApplyAll(st, IndexListing(listing), [], opts, fails) == st;
    UnrepresentableIsRewritten(st, IndexListing(listing), d, opts, fails, id, spec);
    var end := Applied(h, listing, [d], opts, fails);
    assert end == ApplyOne(st, IndexListing(listing), d, opts, fails);
    assert end.toDelete == map[];
    assert end.hub.nextId == h.nextId;
    assert end == State(h.(calls := end.hub.calls, log := h.log + [Updated(id, spec.name)]), map[], true);
    assert Run(h, listing, [d], opts, fails, [], end);
  }

  /**
    For instance, one approval by slug and two by id: admission accepts the definition, and every run without errors
    updates the ruleset although GitHub has exactly what was sent, before and after.
   */
  lemma TeamNamedTwiceIsRewritten(h: Hub, id: int)
    requires id in h.rulesets
    requires h.rulesets[id] ==
             ToGitHub(WithTwoEntries(Reviewer(Some(7), Some("platform"), "Team"))).value.(id := Some(id))
    ensures var raw := WithTwoEntries(Reviewer(None, Some("platform"), "Team"));
            exists calls ::
              Run(h, [Listed("main", Some(id))], [Desired("inline[0]", raw, None, raw)], WITH_TEAMS, _ => false, [],
                  State(h.(calls := calls, log := h.log + [Updated(id, "main")]), map[], true))
  {
    var raw := WithTwoEntries(Reviewer(None, Some("platform"), "Team"));
    PrepareTwoEntries();
    RewritingRun(h, id, Desired("inline[0]", raw, None, raw), WITH_TEAMS, _ => false);
  }
}
