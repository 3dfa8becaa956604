/**
  `Sync` (common/rulesets/sync.go): applies the desired rulesets to GitHub. GitHub is a map of rulesets by id with a log
  of the writes it accepted; the n-th API call fails if `fails(n)`, so a run can be cut at any call.
 */
module RulesetSync {
  import opened Collections
  import opened RulesetTypes
  import opened RulesetMapper
  import opened RulesetDiffer
  import opened RoundTrip
  import opened RulesetCollect

  datatype Write = Created(name: string) | Updated(id: int, name: string) | Deleted(id: int, name: string)

  datatype Hub = Hub(rulesets: map<int, GhRuleset>, nextId: int, calls: nat, log: seq<Write>)

  /** One element of the listing: nil, or a name and maybe an id. */
  datatype Listed = NilRuleset | Listed(name: string, id: Option<int>)

  /** `resolve` is the slug resolver (None on error); `adjust` is the identity when the source leaves it nil. */
  datatype Options = Options(
    enableReviewers: bool, skip: Desired -> bool, resolve: RulesetSpec -> Option<RulesetSpec>,
    adjust: RulesetSpec -> RulesetSpec)

  type Index = map<string, Option<int>>

  /** The run so far; `ok` turns false at the error that ends it. */
  datatype State = State(hub: Hub, toDelete: Index, ok: bool)

  function StripReviewers(enable: bool, spec: RulesetSpec): RulesetSpec {
    if enable || spec.rules.pullRequest.None? then spec
    else spec.(rules := spec.rules.(pullRequest := Some(spec.rules.pullRequest.value.(requiredReviewers := []))))
  }

  /** The definition as it is compared and sent. */
  function Prepare(opts: Options, spec: RulesetSpec): Option<RulesetSpec> {
    var resolved := opts.resolve(StripReviewers(opts.enableReviewers, spec));
    if resolved.None? then None else Some(opts.adjust(resolved.value))
  }

  // ---------------------------------------------------------------- GitHub's side

  function Fail(st: State): State { st.(hub := st.hub.(calls := st.hub.calls + 1), ok := false) }

  function CreateRuleset(st: State, g: GhRuleset, fails: nat -> bool): State {
    if fails(st.hub.calls) then Fail(st)
    else
      var id := st.hub.nextId;
      st.(hub := Hub(st.hub.rulesets[id := g.(id := Some(id))], id + 1, st.hub.calls + 1,
                     st.hub.log + [Created(g.name)]))
  }

  function UpdateRuleset(st: State, id: int, g: GhRuleset, fails: nat -> bool): State {
    if fails(st.hub.calls) || id !in st.hub.rulesets then Fail(st)
    else
      st.(hub := st.hub.(rulesets := st.hub.rulesets[id := g.(id := Some(id))], calls := st.hub.calls + 1,
                         log := st.hub.log + [Updated(id, g.name)]))
  }

  function DeleteRuleset(st: State, id: int, name: string, fails: nat -> bool): State {
    if fails(st.hub.calls) || id !in st.hub.rulesets then Fail(st)
    else
      st.(hub := st.hub.(rulesets := st.hub.rulesets - {id}, calls := st.hub.calls + 1,
                         log := st.hub.log + [Deleted(id, name)]))
  }

  // ---------------------------------------------------------------- one desired ruleset, all of them, the deletions

  /** An existing ruleset: fetch it, keep it from deletion, update it if it differs. */
  function ApplyExisting(st: State, id: int, spec: RulesetSpec, g: GhRuleset, fails: nat -> bool): State {
    if fails(st.hub.calls) || id !in st.hub.rulesets then Fail(st)
    else
      var full := st.hub.rulesets[id];
      var kept := State(st.hub.(calls := st.hub.calls + 1), st.toDelete - {spec.name}, true);
      if !RulesetsDiffer(spec, full) || full.id.None? then kept else UpdateRuleset(kept, full.id.value, g, fails)
  }

  function ApplyOne(st: State, existing: Index, d: Desired, opts: Options, fails: nat -> bool): State {
    if d.unresolved.Some? then st.(toDelete := st.toDelete - {d.spec.name})
    else if opts.skip(d) then st
    else
      var spec := Prepare(opts, d.spec);
      if spec.None? || ToGitHub(spec.value).None? then st.(ok := false)
      else
        var g, name := ToGitHub(spec.value).value, spec.value.name;
        if name !in existing then CreateRuleset(st, g, fails)
        else if existing[name].None? then st
        else ApplyExisting(st, existing[name].value, spec.value, g, fails)
  }

  function ApplyAll(st: State, existing: Index, ds: seq<Desired>, opts: Options, fails: nat -> bool): State {
    if ds == [] then st
    else
      var n := |ds| - 1;
      var before := ApplyAll(st, existing, ds[..n], opts, fails);
      if before.ok then ApplyOne(before, existing, ds[n], opts, fails) else before
  }

  function DeleteOne(st: State, name: string, id: Option<int>, fails: nat -> bool): State {
    if id.None? then st else DeleteRuleset(st, id.value, name, fails)
  }

  function DeleteAll(st: State, order: seq<string>, fails: nat -> bool): State
    requires forall n :: n in order ==> n in st.toDelete
    ensures DeleteAll(st, order, fails).toDelete == st.toDelete
  {
    if order == [] then st
    else
      var n := |order| - 1;
      var before := DeleteAll(st, order[..n], fails);
      if before.ok then DeleteOne(before, order[n], st.toDelete[order[n]], fails) else before
  }

  function IndexListing(listing: seq<Listed>): Index {
    if listing == [] then map[]
    else
      var n := |listing| - 1;
      var m := IndexListing(listing[..n]);
      if listing[n].NilRuleset? || listing[n].name == "" then m else m[listing[n].name := listing[n].id]
  }

  /** Element `i` lists a ruleset under the name `k`. */
  ghost predicate Lists(listing: seq<Listed>, i: nat, k: string)
    requires i < |listing|
  {
    listing[i].Listed? && listing[i].name == k && k != ""
  }

  /** The index has exactly the names that are listed, nil elements and empty names aside. */
  lemma {:induction false} IndexedIff(listing: seq<Listed>, k: string)
    ensures k in IndexListing(listing) <==> exists i :: 0 <= i < |listing| && Lists(listing, i, k)
  {
    if listing != [] {
      var n := |listing| - 1;
      IndexedIff(listing[..n], k);
      if i :| 0 <= i < |listing| && Lists(listing, i, k) {
        assert i < n ==> Lists(listing[..n], i, k);
      }
      if i :| 0 <= i < n && Lists(listing[..n], i, k) {
        assert Lists(listing, i, k);
      }
      assert k in IndexListing(listing) && k !in IndexListing(listing[..n]) ==> Lists(listing, n, k);
    }
  }

  /** The last element with a name gives its id. */
  lemma {:induction false} IndexedLast(listing: seq<Listed>, i: nat, k: string)
    requires i < |listing| && Lists(listing, i, k) && forall j :: i < j < |listing| ==> !Lists(listing, j, k)
    ensures k in IndexListing(listing) && IndexListing(listing)[k] == listing[i].id
  {
    var n := |listing| - 1;
    if i < n {
      assert !Lists(listing, n, k);
      forall j | i < j < n ensures !Lists(listing[..n], j, k) {
        assert !Lists(listing, j, k);
      }
      IndexedLast(listing[..n], i, k);
    }
  }

  lemma LastListed(listing: seq<Listed>, k: string) returns (i: nat)
    requires k in IndexListing(listing)
    ensures i < |listing| && Lists(listing, i, k) && (forall j :: i < j < |listing| ==> !Lists(listing, j, k))
    ensures IndexListing(listing)[k] == listing[i].id
  {
    IndexedIff(listing, k);
    i :| i < |listing| && Lists(listing, i, k);
    while exists j :: i < j < |listing| && Lists(listing, j, k)
      invariant i < |listing| && Lists(listing, i, k)
      decreases |listing| - i
    {
      var j :| i < j < |listing| && Lists(listing, j, k);
      i := j;
    }
    IndexedLast(listing, i, k);
  }

  function Start(hub: Hub, listing: seq<Listed>): State {
    State(hub.(calls := hub.calls + 1), IndexListing(listing), true)
  }

  /** The run after a successful listing, up to the deletions. */
  function Applied(hub: Hub, listing: seq<Listed>, ds: seq<Desired>, opts: Options, fails: nat -> bool): State {
    ApplyAll(Start(hub, listing), IndexListing(listing), ds, opts, fails)
  }

  /** `order` is the order in which the run deletes; a run that failed before has deleted nothing. */
  ghost predicate Deletes(st: State, order: seq<string>, end: State, fails: nat -> bool) {
    && NoDup(order)
    && (forall n :: n in order ==> n in st.toDelete)
    && (if st.ok then end == DeleteAll(st, order, fails) else order == [] && end == st)
    && (end.ok ==> Elems(order) == st.toDelete.Keys)
  }

  /** The whole run, `end` being its final state. */
  ghost predicate Run(hub: Hub, listing: seq<Listed>, ds: seq<Desired>, opts: Options, fails: nat -> bool,
                      order: seq<string>, end: State) {
    if fails(hub.calls) then order == [] && end == Fail(State(hub, map[], true))
    else Deletes(Applied(hub, listing, ds, opts, fails), order, end, fails)
  }

  // ---------------------------------------------------------------- the code

  method IndexExisting(listing: seq<Listed>) returns (byName: Index)
    ensures byName == IndexListing(listing)
  {
    byName := map[];
    for i := 0 to |listing|
      invariant byName == IndexListing(listing[..i])
    {
      assert listing[..i + 1][..i] == listing[..i];
      if listing[i].NilRuleset? || listing[i].name == "" {
        continue;
      }
      byName := byName[listing[i].name := listing[i].id];
    }
    assert listing[..|listing|] == listing;
  }

  /** The errors of the unresolved rulesets, in order. */
  function UnresolvedOf(ds: seq<Desired>): seq<Unresolvable> {
    if ds == [] then []
    else
      var n := |ds| - 1;
      UnresolvedOf(ds[..n]) + if ds[n].unresolved.Some? then [ds[n].unresolved.value] else []
  }

  /** `Sync`; the errors of unresolved rulesets are returned only after everything else has been synced. */
  method Sync(hub: Hub, listing: seq<Listed>, ds: seq<Desired>, opts: Options, fails: nat -> bool)
    returns (end: State, unresolved: seq<Unresolvable>, ghost order: seq<string>)
    ensures Run(hub, listing, ds, opts, fails, order, end)
    ensures unresolved == if end.ok then UnresolvedOf(ds) else []
  {
    order, unresolved := [], [];
    if fails(hub.calls) {
      return Fail(State(hub, map[], true)), [], order;
    }
    var existing := IndexExisting(listing);
    var st := State(hub.(calls := hub.calls + 1), existing, true);
    for i := 0 to |ds|
      invariant st.ok && st == ApplyAll(Start(hub, listing), existing, ds[..i], opts, fails)
      invariant unresolved == UnresolvedOf(ds[..i])
    {
      assert ds[..i + 1][..i] == ds[..i] && ds[..i + 1] == ds[..i] + [ds[i]];
      if ds[i].unresolved.Some? {
        unresolved := unresolved + [ds[i].unresolved.value];
      }
      st := ApplyOne(st, existing, ds[i], opts, fails);
      if !st.ok {
        CutShort(Start(hub, listing), existing, ds, i + 1, opts, fails);
        return st, [], order;
      }
    }
    assert ds[..|ds|] == ds;
    end := DeleteOrphans(st, fails);
    order :| Deletes(st, order, end, fails);
    if !end.ok {
      unresolved := [];
    }
  }

  /** The loop over `rulesetsToDelete`, in whatever order the map is iterated. */
  method DeleteOrphans(st: State, fails: nat -> bool) returns (end: State)
    requires st.ok
    ensures exists order :: Deletes(st, order, end, fails)
  {
    end := st;
    ghost var order := [];
    var rest := st.toDelete.Keys;
    while rest != {}
      invariant Listing(order, rest, st.toDelete.Keys)
      invariant end.ok && end == DeleteAll(st, order, fails)
      decreases |rest|
    {
      var name :| name in rest;
      DeleteAllSnoc(st, order, name, fails);
      ListingGrows(order, rest, st.toDelete.Keys, name);
      order := order + [name];
      rest := rest - {name};
      end := DeleteOne(end, name, st.toDelete[name], fails);
      if !end.ok {
        assert Deletes(st, order, end, fails);
        return;
      }
    }
    assert Deletes(st, order, end, fails);
  }

  /** `order` lists what is gone from `rest`. */
  ghost predicate Listing(order: seq<string>, rest: set<string>, all: set<string>) {
    && NoDup(order)
    && Elems(order) == all - rest
    && rest <= all
    && forall n :: n in order ==> n in all
  }

  lemma ListingGrows(order: seq<string>, rest: set<string>, all: set<string>, name: string)
    requires Listing(order, rest, all) && name in rest
    ensures Listing(order + [name], rest - {name}, all)
  {
    assert name !in Elems(order);
    ElemsSnoc(order, name);
  }

  lemma {:induction false} DeleteAllSnoc(st: State, order: seq<string>, name: string, fails: nat -> bool)
    requires (forall n :: n in order ==> n in st.toDelete) && name in st.toDelete
    requires DeleteAll(st, order, fails).ok
    ensures DeleteAll(st, order + [name], fails) ==
            DeleteOne(DeleteAll(st, order, fails), name, st.toDelete[name], fails)
  {
    assert (order + [name])[..|order|] == order;
  }

  lemma {:induction false} CutShort(st: State, existing: Index, ds: seq<Desired>, i: nat, opts: Options,
                                    fails: nat -> bool)
    requires i <= |ds| && !ApplyAll(st, existing, ds[..i], opts, fails).ok
    ensures ApplyAll(st, existing, ds, opts, fails) == ApplyAll(st, existing, ds[..i], opts, fails)
    decreases |ds|
  {
    if i == |ds| {
      assert ds[..i] == ds;
    } else {
      assert ds[..|ds| - 1][..i] == ds[..i];
      CutShort(st, existing, ds[..|ds| - 1], i, opts, fails);
    }
  }

  // ---------------------------------------------------------------- fail closed, for any listing and any failures

  ghost predicate DistinctNames(ds: seq<Desired>) {
    forall i, j :: 0 <= i < j < |ds| ==> ds[i].spec.name != ds[j].spec.name
  }

  /** Slug resolution and adjustment keep the ruleset's name. */
  ghost predicate KeepsNames(opts: Options) {
    forall s :: Prepare(opts, s).Some? ==> Prepare(opts, s).value.name == s.name
  }

  function UnresolvedNames(ds: seq<Desired>): set<string> {
    set d | d in ds && d.unresolved.Some? :: d.spec.name
  }

  predicate Applies(opts: Options, d: Desired) { d.unresolved.None? && !opts.skip(d) }

  function AppliedNames(opts: Options, ds: seq<Desired>): set<string> {
    set d | d in ds && Applies(opts, d) :: d.spec.name
  }

  /** The writes since `log` concern only `names`, and none of them is a deletion. */
  ghost predicate OnlyWrites(log: seq<Write>, log': seq<Write>, names: set<string>) {
    log <= log' && forall i :: |log| <= i < |log'| ==> log'[i].name in names && !log'[i].Deleted?
  }

  lemma NamesGrow(opts: Options, ds: seq<Desired>)
    requires ds != []
    ensures var n := |ds| - 1;
            && AppliedNames(opts, ds) ==
               AppliedNames(opts, ds[..n]) + (if Applies(opts, ds[n]) then {ds[n].spec.name} else {})
            && UnresolvedNames(ds) ==
               UnresolvedNames(ds[..n]) + (if ds[n].unresolved.Some? then {ds[n].spec.name} else {})
  {
    assert ds == ds[..|ds| - 1] + [ds[|ds| - 1]];
  }

  lemma ApplyExistingWrites(st: State, id: int, spec: RulesetSpec, g: GhRuleset, fails: nat -> bool)
    requires g.name == spec.name
    ensures var end := ApplyExisting(st, id, spec, g, fails);
            && OnlyWrites(st.hub.log, end.hub.log, {spec.name})
            && (end.toDelete == st.toDelete || end.toDelete == st.toDelete - {spec.name})
  {
  }

  lemma ApplyOneWrites(st: State, existing: Index, d: Desired, opts: Options, fails: nat -> bool)
    requires KeepsNames(opts)
    ensures var end := ApplyOne(st, existing, d, opts, fails);
            && OnlyWrites(st.hub.log, end.hub.log, if Applies(opts, d) then {d.spec.name} else {})
            && end.toDelete.Keys <= st.toDelete.Keys
            && (d.unresolved.Some? ==> d.spec.name !in end.toDelete)
  {
    if Applies(opts, d) && Prepare(opts, d.spec).Some? && ToGitHub(Prepare(opts, d.spec).value).Some? {
      var spec := Prepare(opts, d.spec).value;
      if spec.name in existing && existing[spec.name].Some? {
        ApplyExistingWrites(st, existing[spec.name].value, spec, ToGitHub(spec).value, fails);
      }
    }
  }

  lemma {:induction false} ApplyWrites(st: State, existing: Index, ds: seq<Desired>, opts: Options, fails: nat -> bool)
    requires KeepsNames(opts)
    ensures var end := ApplyAll(st, existing, ds, opts, fails);
            && OnlyWrites(st.hub.log, end.hub.log, AppliedNames(opts, ds))
            && end.toDelete.Keys <= st.toDelete.Keys
            && (st.ok && end.ok ==> end.toDelete.Keys !! UnresolvedNames(ds))
  {
    if ds != [] {
      var n := |ds| - 1;
      ApplyWrites(st, existing, ds[..n], opts, fails);
      NamesGrow(opts, ds);
      var before := ApplyAll(st, existing, ds[..n], opts, fails);
      if before.ok {
        ApplyOneWrites(before, existing, ds[n], opts, fails);
        var log, log' := before.hub.log, ApplyOne(before, existing, ds[n], opts, fails).hub.log;
        assert forall i :: 0 <= i < |log| ==> log'[i] == log[i];
      }
    }
  }

  lemma {:induction false} DeleteWrites(st: State, order: seq<string>, fails: nat -> bool)
    requires forall n :: n in order ==> n in st.toDelete
    ensures var end := DeleteAll(st, order, fails);
            && st.hub.log <= end.hub.log
            && forall i :: |st.hub.log| <= i < |end.hub.log| ==> end.hub.log[i].name in st.toDelete && end.hub.log[i].Deleted?
  {
    if order != [] {
      DeleteWrites(st, order[..|order| - 1], fails);
    }
  }

  lemma DisjointNames(opts: Options, ds: seq<Desired>)
    requires DistinctNames(ds)
    ensures AppliedNames(opts, ds) !! UnresolvedNames(ds)
  {
    forall a, b | a in ds && b in ds && Applies(opts, a) && b.unresolved.Some? ensures a.spec.name != b.spec.name {
      var i :| 0 <= i < |ds| && ds[i] == a;
      var j :| 0 <= j < |ds| && ds[j] == b;
    }
  }

  /**
    Fail closed over whole runs: whatever GitHub listed and wherever the run is cut, no write concerns the name of an
    unresolved ruleset, and every deletion comes after all writes for desired rulesets, each of which was processed
    without error. (The log has the writes GitHub accepted; that a deletion that fails is not attempted earlier either
    is part of `Deletes`, which starts from the state in which all of them are processed.)
   */
  lemma SyncFailsClosed(hub: Hub, listing: seq<Listed>, ds: seq<Desired>, opts: Options, fails: nat -> bool,
                        order: seq<string>, end: State)
    requires Run(hub, listing, ds, opts, fails, order, end)
    requires KeepsNames(opts) && DistinctNames(ds)
    ensures hub.log <= end.hub.log
    ensures forall i :: |hub.log| <= i < |end.hub.log| ==>
                          && end.hub.log[i].name !in UnresolvedNames(ds)
                          && (end.hub.log[i].Deleted? ==>
                                && Applied(hub, listing, ds, opts, fails).ok
                                && i >= |Applied(hub, listing, ds, opts, fails).hub.log|)
                          && (!end.hub.log[i].Deleted? ==> i < |Applied(hub, listing, ds, opts, fails).hub.log|)
  {
    if !fails(hub.calls) {
      var st := Applied(hub, listing, ds, opts, fails);
      ApplyWrites(Start(hub, listing), IndexListing(listing), ds, opts, fails);
      DisjointNames(opts, ds);
      if st.ok {
        DeleteWrites(st, order, fails);
      }
      forall i | |hub.log| <= i < |end.hub.log|
        ensures end.hub.log[i].name !in UnresolvedNames(ds)
        ensures end.hub.log[i].Deleted? <==> i >= |st.hub.log|
      {
        if i < |st.hub.log| {
          assert end.hub.log[i] == st.hub.log[i];
        }
      }
    }
  }

  /** From definitions to writes: a name with an unresolved definition is never written, for any reads and failures. */
  lemma UnresolvedDefinitionsAreNeverWritten(cs: seq<Desired>, c: Desired, hub: Hub, listing: seq<Listed>,
                                             opts: Options, fails: nat -> bool, order: seq<string>, end: State)
    requires WellFormed(cs) && c in cs && c.unresolved.Some?
    requires Run(hub, listing, Outcomes(cs), opts, fails, order, end)
    requires KeepsNames(opts)
    ensures forall i :: |hub.log| <= i < |end.hub.log| ==> end.hub.log[i].name != c.spec.name
  {
    CollectFailsClosed(cs);
    SyncFailsClosed(hub, listing, Outcomes(cs), opts, fails, order, end);
    var d :| d in Outcomes(cs) && NameOf(d) == NameOf(c);
    assert d.spec.name in UnresolvedNames(Outcomes(cs));
  }

  // ---------------------------------------------------------------- rulesets listed without an id

  lemma {:induction false} ApplyAllSkips(st: State, existing: Index, ds: seq<Desired>, opts: Options,
                                         fails: nat -> bool, k: string)
    requires KeepsNames(opts) && k in existing && existing[k].None?
    requires k in st.toDelete ==> st.toDelete[k].None?
    ensures var end := ApplyAll(st, existing, ds, opts, fails);
            && st.hub.log <= end.hub.log
            && (forall i :: |st.hub.log| <= i < |end.hub.log| ==> end.hub.log[i].name != k)
            && (k in end.toDelete ==> end.toDelete[k].None?)
  {
    if ds != [] {
      var n := |ds| - 1;
      ApplyAllSkips(st, existing, ds[..n], opts, fails, k);
      var before := ApplyAll(st, existing, ds[..n], opts, fails);
      if before.ok {
        ApplyOneSkips(before, existing, ds[n], opts, fails, k);
      }
    }
  }

  lemma ApplyOneSkips(st: State, existing: Index, d: Desired, opts: Options, fails: nat -> bool, k: string)
    requires KeepsNames(opts) && k in existing && existing[k].None?
    requires k in st.toDelete ==> st.toDelete[k].None?
    ensures var end := ApplyOne(st, existing, d, opts, fails);
            && st.hub.log <= end.hub.log
            && (forall i :: |st.hub.log| <= i < |end.hub.log| ==> end.hub.log[i].name != k)
            && (k in end.toDelete ==> end.toDelete[k].None?)
  {
    ApplyOneWrites(st, existing, d, opts, fails);
    if Applies(opts, d) && Prepare(opts, d.spec).Some? && ToGitHub(Prepare(opts, d.spec).value).Some? {
      var spec := Prepare(opts, d.spec).value;
      if spec.name in existing && existing[spec.name].Some? {
        ApplyExistingWrites(st, existing[spec.name].value, spec, ToGitHub(spec).value, fails);
      }
    }
  }

  lemma {:induction false} DeleteAllSkips(st: State, order: seq<string>, fails: nat -> bool, k: string)
    requires forall n :: n in order ==> n in st.toDelete
    requires k in st.toDelete ==> st.toDelete[k].None?
    ensures var end := DeleteAll(st, order, fails);
            && st.hub.log <= end.hub.log
            && forall i :: |st.hub.log| <= i < |end.hub.log| ==> end.hub.log[i].name != k
  {
    if order != [] {
      DeleteAllSkips(st, order[..|order| - 1], fails, k);
    }
  }

  /** A ruleset that GitHub lists without an id is left alone, whether it is desired or not, wherever the run is cut. */
  lemma UnidentifiedIsNeverWritten(hub: Hub, listing: seq<Listed>, ds: seq<Desired>, opts: Options, fails: nat -> bool,
                                   order: seq<string>, end: State, i: nat, k: string)
    requires Run(hub, listing, ds, opts, fails, order, end) && KeepsNames(opts)
    requires i < |listing| && Lists(listing, i, k) && listing[i].id.None?
    requires forall j :: i < j < |listing| ==> !Lists(listing, j, k)
    ensures forall l :: |hub.log| <= l < |end.hub.log| ==> end.hub.log[l].name != k
  {
    IndexedLast(listing, i, k);
    if !fails(hub.calls) {
      var st := Applied(hub, listing, ds, opts, fails);
      ApplyAllSkips(Start(hub, listing), IndexListing(listing), ds, opts, fails, k);
      if st.ok {
        DeleteAllSkips(st, order, fails, k);
      }
      forall l | |hub.log| <= l < |end.hub.log| ensures end.hub.log[l].name != k {
        assert l < |st.hub.log| ==> end.hub.log[l] == st.hub.log[l];
      }
    }
  }

  // ---------------------------------------------------------------- what is applied of a definition

  ghost predicate NoReviewers(spec: RulesetSpec) {
    spec.rules.pullRequest.Some? ==> spec.rules.pullRequest.value.requiredReviewers == []
  }

  /** With required reviewers enabled, the definition goes through slug resolution and adjustment as it is. */
  lemma PreparedWhole(opts: Options, spec: RulesetSpec)
    requires opts.enableReviewers
    ensures Prepare(opts, spec) ==
            match opts.resolve(spec)
            case None => None
            case Some(resolved) => Some(opts.adjust(resolved))
  {
  }

  /** With them disabled, it goes through both without any required reviewer, and with everything else. */
  lemma PreparedWithoutReviewers(opts: Options, spec: RulesetSpec, bare: RulesetSpec)
    requires !opts.enableReviewers && NoReviewers(bare)
    requires match spec.rules.pullRequest
             case None => bare == spec
             case Some(pr) =>
               bare.rules.pullRequest.Some? &&
               bare.(rules := bare.rules.(pullRequest :=
                 Some(bare.rules.pullRequest.value.(requiredReviewers := pr.requiredReviewers)))) == spec
    ensures Prepare(opts, spec) ==
            match opts.resolve(bare)
            case None => None
            case Some(resolved) => Some(opts.adjust(resolved))
  {
    if spec.rules.pullRequest.Some? {
      assert bare.rules.pullRequest.value.(requiredReviewers := []) ==
             spec.rules.pullRequest.value.(requiredReviewers := []);
      assert StripReviewers(false, spec) == bare;
    }
  }

  /** So none is sent, unless slug resolution or adjustment invents one. */
  lemma DisabledReviewersAreNotSent(opts: Options, spec: RulesetSpec)
    requires !opts.enableReviewers
    requires forall s :: NoReviewers(s) && opts.resolve(s).Some? ==> NoReviewers(opts.resolve(s).value)
    requires forall s :: NoReviewers(s) ==> NoReviewers(opts.adjust(s))
    ensures Prepare(opts, spec).Some? ==> NoReviewers(Prepare(opts, spec).value)
  {
    assert NoReviewers(StripReviewers(false, spec));
  }
}
