/** What a run of `Sync` leaves on GitHub, and that running it again changes nothing. */
module RulesetConvergence {
  import opened Collections
  import opened RulesetTypes
  import opened RulesetMapper
  import opened RulesetDiffer
  import opened RoundTrip
  import opened RulesetCollect
  import opened RulesetSync

  /** GitHub's own invariants: rulesets carry their id and a name of their own. */
  ghost predicate ValidHub(h: Hub) {
    && (forall id :: id in h.rulesets ==>
          h.rulesets[id].id == Some(id) && id < h.nextId && h.rulesets[id].name != "")
    && (forall i, j :: i in h.rulesets && j in h.rulesets && h.rulesets[i].name == h.rulesets[j].name ==> i == j)
  }

  /** The listing names every ruleset with its id, and nothing else. */
  ghost predicate Exact(h: Hub, existing: Index) {
    && (forall id :: id in h.rulesets ==>
          h.rulesets[id].name in existing && existing[h.rulesets[id].name] == Some(id))
    && (forall n :: n in existing ==>
          existing[n].Some? && existing[n].value in h.rulesets && h.rulesets[existing[n].value].name == n)
  }

  /** On the listing alone: every ruleset is listed with its name and id, and nothing else is. */
  ghost predicate ListsAll(h: Hub, listing: seq<Listed>) {
    && (forall id :: id in h.rulesets ==> Listed(h.rulesets[id].name, Some(id)) in listing)
    && (forall l :: l in listing && l.Listed? && l.name != "" ==>
          l.id.Some? && l.id.value in h.rulesets && h.rulesets[l.id.value].name == l.name)
  }

  lemma {:induction false} ListedExactly(h: Hub, listing: seq<Listed>)
    requires ValidHub(h) && ListsAll(h, listing)
    ensures Exact(h, IndexListing(listing))
  {
    var existing := IndexListing(listing);
    forall n | n in existing
      ensures existing[n].Some? && existing[n].value in h.rulesets && h.rulesets[existing[n].value].name == n
    {
      var i := LastListed(listing, n);
      assert listing[i] in listing;
    }
    forall id | id in h.rulesets ensures h.rulesets[id].name in existing && existing[h.rulesets[id].name] == Some(id) {
      var name := h.rulesets[id].name;
      var i :| 0 <= i < |listing| && listing[i] == Listed(name, Some(id));
      assert Lists(listing, i, name);
      IndexedIff(listing, name);
      var id' := existing[name].value;
      assert h.rulesets[id'].name == h.rulesets[id].name;
    }
  }

  /** Since `h0`, only the rulesets named in `names` have changed or appeared. */
  ghost predicate Evolved(h0: Hub, existing: Index, names: set<string>, h: Hub) {
    && ValidHub(h)
    && h0.nextId <= h.nextId
    && (forall id :: id in h0.rulesets ==> id in h.rulesets && h.rulesets[id].name == h0.rulesets[id].name)
    && (forall id :: id in h0.rulesets && h0.rulesets[id].name !in names ==> h.rulesets[id] == h0.rulesets[id])
    && (forall id :: id in h.rulesets && id !in h0.rulesets ==>
          h.rulesets[id].name in names && h.rulesets[id].name !in existing)
  }

  /** The stored ruleset does not differ from the prepared definition, or is what was sent for it. */
  predicate Settled(opts: Options, d: Desired, r: GhRuleset) {
    var spec := Prepare(opts, d.spec);
    && spec.Some?
    && ToGitHub(spec.value).Some?
    && (!RulesetsDiffer(spec.value, r) || r == ToGitHub(spec.value).value.(id := r.id))
  }

  ghost predicate SettledOn(opts: Options, d: Desired, h: Hub) {
    exists id :: id in h.rulesets && h.rulesets[id].name == d.spec.name && Settled(opts, d, h.rulesets[id])
  }

  ghost predicate AllSettled(opts: Options, ds: seq<Desired>, h: Hub) {
    forall d :: d in ds && Applies(opts, d) ==> SettledOn(opts, d, h)
  }

  /** What is left to delete: the listed rulesets that are neither applied nor unresolved. */
  ghost predicate Orphans(existing: Index, opts: Options, ds: seq<Desired>, toDelete: Index) {
    forall n :: n in toDelete <==> n in existing && n !in AppliedNames(opts, ds) && n !in UnresolvedNames(ds)
  }

  ghost predicate SameIds(existing: Index, toDelete: Index) {
    forall n :: n in toDelete ==> n in existing && toDelete[n] == existing[n]
  }

  // ---------------------------------------------------------------- one ruleset changes

  /** Storing a ruleset for a desired name, in its old place or in a new one. */
  lemma PlaceRuleset(h0: Hub, existing: Index, names: set<string>, h: Hub, h': Hub, id: int, r: GhRuleset)
    requires Exact(h0, existing) && Evolved(h0, existing, names, h)
    requires r.name != "" && r.id == Some(id) && r.name !in names
    requires h'.rulesets == h.rulesets[id := r] && h.nextId <= h'.nextId && id < h'.nextId
    requires if r.name in existing then existing[r.name] == Some(id) else id == h.nextId
    ensures Evolved(h0, existing, names + {r.name}, h')
  {
    forall i | i in h.rulesets && h.rulesets[i].name == r.name ensures i == id {
      if i in h0.rulesets {
        assert h0.rulesets[i].name in existing;
      }
    }
    if r.name in existing {
      assert id in h0.rulesets && id in h.rulesets;
    } else {
      assert id !in h.rulesets;
    }
  }

  lemma SettledStays(opts: Options, ds: seq<Desired>, h: Hub, h': Hub, id: int, r: GhRuleset)
    requires ValidHub(h) && AllSettled(opts, ds, h)
    requires h'.rulesets == h.rulesets[id := r]
    requires r.name !in AppliedNames(opts, ds)
    requires id in h.rulesets ==> h.rulesets[id].name == r.name
    ensures AllSettled(opts, ds, h')
  {
    forall d | d in ds && Applies(opts, d) ensures SettledOn(opts, d, h') {
      var i :| i in h.rulesets && h.rulesets[i].name == d.spec.name && Settled(opts, d, h.rulesets[i]);
      assert d.spec.name in AppliedNames(opts, ds);
      assert i != id && h'.rulesets[i] == h.rulesets[i];
    }
  }

  /** Everything known about a run that has processed `ds`. */
  ghost predicate Progress(h0: Hub, existing: Index, opts: Options, ds: seq<Desired>, st: State) {
    && Evolved(h0, existing, AppliedNames(opts, ds), st.hub)
    && SameIds(existing, st.toDelete)
    && (st.ok ==> Orphans(existing, opts, ds, st.toDelete) && AllSettled(opts, ds, st.hub))
  }

  lemma EvolvedMore(h0: Hub, existing: Index, names: set<string>, names': set<string>, h: Hub, h': Hub)
    requires Evolved(h0, existing, names, h) && names <= names'
    requires h'.rulesets == h.rulesets && h'.nextId == h.nextId
    ensures Evolved(h0, existing, names', h')
  {
  }

  /** The one ruleset a step stores, if it stores one. */
  ghost predicate Stores(st: State, existing: Index, spec: RulesetSpec, end: State, id: int, r: GhRuleset) {
    && r.name == spec.name && r.id == Some(id) && ToGitHub(spec).Some?
    && end.hub.rulesets == st.hub.rulesets[id := r]
    && st.hub.nextId <= end.hub.nextId && id < end.hub.nextId
    && (if r.name in existing then existing[r.name] == Some(id) else id == st.hub.nextId)
    && end.ok
    && (!RulesetsDiffer(spec, r) || r == ToGitHub(spec).value.(id := r.id))
  }

  lemma StepExisting(h0: Hub, existing: Index, names: set<string>, st: State, spec: RulesetSpec, fails: nat -> bool)
    requires Exact(h0, existing) && Evolved(h0, existing, names, st.hub) && st.ok
    requires ToGitHub(spec).Some? && spec.name in existing && spec.name !in names
    ensures var id := existing[spec.name].value;
            var end := ApplyExisting(st, id, spec, ToGitHub(spec).value, fails);
            if end.ok then
              && end.toDelete == st.toDelete - {spec.name}
              && id in end.hub.rulesets
              && Stores(st, existing, spec, end, id, end.hub.rulesets[id])
            else
              && end.hub.rulesets == st.hub.rulesets && end.hub.nextId == st.hub.nextId
              && (end.toDelete == st.toDelete || end.toDelete == st.toDelete - {spec.name})
  {
    var id := existing[spec.name].value;
    assert id in h0.rulesets && id in st.hub.rulesets;
    assert st.hub.rulesets[id := st.hub.rulesets[id]] == st.hub.rulesets;
  }

  lemma StepNew(h0: Hub, existing: Index, names: set<string>, st: State, spec: RulesetSpec, fails: nat -> bool)
    requires Evolved(h0, existing, names, st.hub) && st.ok
    requires ToGitHub(spec).Some? && spec.name !in existing
    ensures var id := st.hub.nextId;
            var end := CreateRuleset(st, ToGitHub(spec).value, fails);
            && end.toDelete == st.toDelete
            && if end.ok then id in end.hub.rulesets && Stores(st, existing, spec, end, id, end.hub.rulesets[id])
               else end.hub.rulesets == st.hub.rulesets && end.hub.nextId == st.hub.nextId
  {
  }

  /** A desired ruleset that was stored: what it means for GitHub, */
  lemma StoredHub(h0: Hub, existing: Index, opts: Options, ds: seq<Desired>, d: Desired, spec: RulesetSpec, st: State,
                  end: State, id: int, r: GhRuleset)
    requires Exact(h0, existing) && Evolved(h0, existing, AppliedNames(opts, ds), st.hub) && AllSettled(opts, ds, st.hub)
    requires Applies(opts, d) && d.spec.name !in AppliedNames(opts, ds)
    requires Prepare(opts, d.spec) == Some(spec) && spec.name == d.spec.name && ToGitHub(spec).Some?
    requires Stores(st, existing, spec, end, id, r)
    ensures Evolved(h0, existing, AppliedNames(opts, ds) + {spec.name}, end.hub) && AllSettled(opts, ds + [d], end.hub)
  {
    PlaceRuleset(h0, existing, AppliedNames(opts, ds), st.hub, end.hub, id, r);
    assert id in st.hub.rulesets ==> st.hub.rulesets[id].name == r.name;
    SettledStays(opts, ds, st.hub, end.hub, id, r);
    assert SettledOn(opts, d, end.hub) by {
      assert end.hub.rulesets[id] == r && Settled(opts, d, r);
    }
  }

  /** and for what is left to delete. */
  lemma StoredOrphans(existing: Index, opts: Options, ds: seq<Desired>, d: Desired, toDelete: Index, toDelete': Index)
    requires SameIds(existing, toDelete) && Orphans(existing, opts, ds, toDelete) && Applies(opts, d)
    requires toDelete' == if d.spec.name in existing then toDelete - {d.spec.name} else toDelete
    ensures SameIds(existing, toDelete') && Orphans(existing, opts, ds + [d], toDelete')
  {
    var all := ds + [d];
    assert all[..|ds|] == ds;
    NamesGrow(opts, all);
  }

  lemma StoredProgress(h0: Hub, existing: Index, opts: Options, ds: seq<Desired>, d: Desired, spec: RulesetSpec,
                       st: State, end: State, id: int, r: GhRuleset)
    requires Exact(h0, existing) && Progress(h0, existing, opts, ds, st) && st.ok
    requires Applies(opts, d) && d.spec.name !in AppliedNames(opts, ds)
    requires Prepare(opts, d.spec) == Some(spec) && spec.name == d.spec.name && ToGitHub(spec).Some?
    requires Stores(st, existing, spec, end, id, r)
    requires end.toDelete == if spec.name in existing then st.toDelete - {spec.name} else st.toDelete
    ensures Progress(h0, existing, opts, ds + [d], end)
  {
    var all := ds + [d];
    assert all[..|ds|] == ds;
    NamesGrow(opts, all);
    StoredHub(h0, existing, opts, ds, d, spec, st, end, id, r);
    StoredOrphans(existing, opts, ds, d, st.toDelete, end.toDelete);
  }

  lemma FailedProgress(h0: Hub, existing: Index, opts: Options, ds: seq<Desired>, d: Desired, st: State, end: State)
    requires Progress(h0, existing, opts, ds, st)
    requires !end.ok && end.hub.rulesets == st.hub.rulesets && end.hub.nextId == st.hub.nextId
    requires end.toDelete == st.toDelete || end.toDelete == st.toDelete - {d.spec.name}
    ensures Progress(h0, existing, opts, ds + [d], end)
  {
    var all := ds + [d];
    assert all[..|ds|] == ds;
    NamesGrow(opts, all);
    EvolvedMore(h0, existing, AppliedNames(opts, ds), AppliedNames(opts, all), st.hub, end.hub);
  }

  lemma ApplyOneProgress(h0: Hub, existing: Index, opts: Options, ds: seq<Desired>, d: Desired, st: State,
                         fails: nat -> bool)
    requires Exact(h0, existing) && KeepsNames(opts)
    requires Progress(h0, existing, opts, ds, st) && st.ok
    requires d.spec.name !in AppliedNames(opts, ds)
    ensures Progress(h0, existing, opts, ds + [d], ApplyOne(st, existing, d, opts, fails))
  {
    var end := ApplyOne(st, existing, d, opts, fails);
    var names := AppliedNames(opts, ds);
    if !Applies(opts, d) {
      var all := ds + [d];
      assert all[..|ds|] == ds;
      NamesGrow(opts, all);
      assert AllSettled(opts, all, end.hub);
    } else if Prepare(opts, d.spec).None? || ToGitHub(Prepare(opts, d.spec).value).None? {
      FailedProgress(h0, existing, opts, ds, d, st, end);
    } else {
      var spec := Prepare(opts, d.spec).value;
      var id := if spec.name in existing then existing[spec.name].value else st.hub.nextId;
      if spec.name in existing {
        StepExisting(h0, existing, names, st, spec, fails);
      } else {
        StepNew(h0, existing, names, st, spec, fails);
      }
      if end.ok {
        StoredProgress(h0, existing, opts, ds, d, spec, st, end, id, end.hub.rulesets[id]);
      } else {
        FailedProgress(h0, existing, opts, ds, d, st, end);
      }
    }
  }

  lemma {:induction false} ApplyAllProgress(h0: Hub, existing: Index, opts: Options, ds: seq<Desired>, st: State,
                                            fails: nat -> bool)
    requires ValidHub(h0) && Exact(h0, existing) && KeepsNames(opts) && DistinctNames(ds)
    requires st.ok && st.toDelete == existing && st.hub.rulesets == h0.rulesets && st.hub.nextId == h0.nextId
    ensures Progress(h0, existing, opts, ds, ApplyAll(st, existing, ds, opts, fails))
  {
    if ds == [] {
    } else {
      var n := |ds| - 1;
      var init, d := ds[..n], ds[n];
      ApplyAllProgress(h0, existing, opts, init, st, fails);
      var before := ApplyAll(st, existing, init, opts, fails);
      assert ds == init + [d];
      if before.ok {
        assert d.spec.name !in AppliedNames(opts, init);
        ApplyOneProgress(h0, existing, opts, init, d, before, fails);
      } else {
        FailedProgress(h0, existing, opts, init, d, before, before);
      }
    }
  }

  // ---------------------------------------------------------------- the deletions

  function IdsOf(toDelete: Index, order: seq<string>): set<int>
    requires forall n :: n in order ==> n in toDelete
  {
    set n | n in order && toDelete[n].Some? :: toDelete[n].value
  }

  lemma {:induction false} DeleteAllEffect(st: State, order: seq<string>, fails: nat -> bool)
    requires forall n :: n in order ==> n in st.toDelete
    ensures var end := DeleteAll(st, order, fails);
            && end.hub.nextId == st.hub.nextId
            && (forall id :: id in st.hub.rulesets && id !in IdsOf(st.toDelete, order) ==>
                  id in end.hub.rulesets && end.hub.rulesets[id] == st.hub.rulesets[id])
            && (forall id :: id in end.hub.rulesets ==>
                  id in st.hub.rulesets && end.hub.rulesets[id] == st.hub.rulesets[id])
            && (st.ok && end.ok ==> forall id :: id in IdsOf(st.toDelete, order) ==> id !in end.hub.rulesets)
  {
    if order != [] {
      var n := |order| - 1;
      DeleteAllEffect(st, order[..n], fails);
      assert order == order[..n] + [order[n]];
      assert IdsOf(st.toDelete, order) == IdsOf(st.toDelete, order[..n]) +
             if st.toDelete[order[n]].Some? then {st.toDelete[order[n]].value} else {};
    }
  }

  // ---------------------------------------------------------------- the final state

  function NamesOn(h: Hub): set<string> {
    set id | id in h.rulesets :: h.rulesets[id].name
  }

  /** Wherever a run is cut, the rulesets of unresolved names are exactly as they were. */
  lemma {:induction false} UnresolvedAreUntouched(h0: Hub, listing: seq<Listed>, ds: seq<Desired>, opts: Options,
                                                  fails: nat -> bool, order: seq<string>, end: State, id: int)
    requires Run(h0, listing, ds, opts, fails, order, end)
    requires ValidHub(h0) && ListsAll(h0, listing) && KeepsNames(opts) && DistinctNames(ds)
    requires id in h0.rulesets && h0.rulesets[id].name in UnresolvedNames(ds)
    ensures id in end.hub.rulesets && end.hub.rulesets[id] == h0.rulesets[id]
  {
    ListedExactly(h0, listing);
    if !fails(h0.calls) {
      var existing, st := IndexListing(listing), Applied(h0, listing, ds, opts, fails);
      ApplyAllProgress(h0, existing, opts, ds, Start(h0, listing), fails);
      DisjointNames(opts, ds);
      if st.ok {
        DeleteAllEffect(st, order, fails);
        forall n | n in order && st.toDelete[n].Some? ensures st.toDelete[n].value != id {
          assert n in st.toDelete && n !in UnresolvedNames(ds);
        }
      }
    }
  }

  /**
    The final state of a run without errors: GitHub has exactly the applied rulesets and the unresolved ones that were
    there before; every applied one is settled, every unresolved one is as it was.
   */
  lemma {:induction false} SyncConverges(h0: Hub, listing: seq<Listed>, ds: seq<Desired>, opts: Options,
                                         fails: nat -> bool, order: seq<string>, end: State)
    requires Run(h0, listing, ds, opts, fails, order, end) && end.ok
    requires ValidHub(h0) && ListsAll(h0, listing) && KeepsNames(opts) && DistinctNames(ds)
    ensures ValidHub(end.hub)
    ensures NamesOn(end.hub) == AppliedNames(opts, ds) + UnresolvedNames(ds) * NamesOn(h0)
    ensures AllSettled(opts, ds, end.hub)
    ensures forall id :: id in h0.rulesets && h0.rulesets[id].name in UnresolvedNames(ds) ==>
                           id in end.hub.rulesets && end.hub.rulesets[id] == h0.rulesets[id]
  {
    var existing, st := IndexListing(listing), Applied(h0, listing, ds, opts, fails);
    ListedExactly(h0, listing);
    ApplyAllProgress(h0, existing, opts, ds, Start(h0, listing), fails);
    assert st.ok;
    DeleteAllEffect(st, order, fails);
    DisjointNames(opts, ds);
    OnlyOrphansGo(h0, existing, ds, opts, st, order, end);
    forall id | id in h0.rulesets && h0.rulesets[id].name in UnresolvedNames(ds)
      ensures id in end.hub.rulesets && end.hub.rulesets[id] == h0.rulesets[id]
    {
      UnresolvedAreUntouched(h0, listing, ds, opts, fails, order, end, id);
    }
  }

  lemma OnlyOrphansGo(h0: Hub, existing: Index, ds: seq<Desired>, opts: Options, st: State, order: seq<string>,
                      end: State)
    requires Exact(h0, existing) && Progress(h0, existing, opts, ds, st) && st.ok
    requires AppliedNames(opts, ds) !! UnresolvedNames(ds)
    requires Elems(order) == st.toDelete.Keys && (forall n :: n in order ==> n in st.toDelete)
    requires end.hub.nextId == st.hub.nextId
    requires forall id :: id in st.hub.rulesets && id !in IdsOf(st.toDelete, order) ==>
                            id in end.hub.rulesets && end.hub.rulesets[id] == st.hub.rulesets[id]
    requires forall id :: id in end.hub.rulesets ==>
                            id in st.hub.rulesets && end.hub.rulesets[id] == st.hub.rulesets[id]
    requires forall id :: id in IdsOf(st.toDelete, order) ==> id !in end.hub.rulesets
    ensures ValidHub(end.hub) && AllSettled(opts, ds, end.hub)
    ensures NamesOn(end.hub) == AppliedNames(opts, ds) + UnresolvedNames(ds) * NamesOn(h0)
  {
    var kept := AppliedNames(opts, ds) + UnresolvedNames(ds);
    forall id | id in st.hub.rulesets
      ensures id in end.hub.rulesets <==> st.hub.rulesets[id].name in kept
    {
      var n := st.hub.rulesets[id].name;
      if id in h0.rulesets && n !in kept {
        assert n in existing && n in st.toDelete && n in Elems(order);
        assert st.toDelete[n] == Some(id);
        assert id in IdsOf(st.toDelete, order);
      }
      if id in IdsOf(st.toDelete, order) {
        var m :| m in order && st.toDelete[m] == Some(id);
        assert existing[m] == Some(id) && h0.rulesets[id].name == m == n;
      }
    }
    forall d | d in ds && Applies(opts, d) ensures SettledOn(opts, d, end.hub) && d.spec.name in NamesOn(end.hub) {
      var i :| i in st.hub.rulesets && st.hub.rulesets[i].name == d.spec.name && Settled(opts, d, st.hub.rulesets[i]);
      assert d.spec.name in kept && end.hub.rulesets[i] == st.hub.rulesets[i];
    }
    forall n ensures n in NamesOn(end.hub) <==> n in AppliedNames(opts, ds) + UnresolvedNames(ds) * NamesOn(h0) {
      if n in NamesOn(end.hub) && n !in AppliedNames(opts, ds) {
        var id :| id in end.hub.rulesets && end.hub.rulesets[id].name == n;
        assert id in h0.rulesets && n in NamesOn(h0);
      }
      if n in UnresolvedNames(ds) * NamesOn(h0) {
        var id :| id in h0.rulesets && h0.rulesets[id].name == n;
        assert end.hub.rulesets[id].name == n;
      }
    }
  }

  // ---------------------------------------------------------------- running it again

  /** Every applied definition is one the mapper can express. */
  ghost predicate AllRepresentable(opts: Options, ds: seq<Desired>) {
    forall d :: d in ds && Applies(opts, d) ==>
                  && Prepare(opts, d.spec).Some?
                  && ToGitHub(Prepare(opts, d.spec).value).Some?
                  && Representable(Prepare(opts, d.spec).value)
  }

  /** GitHub has nothing but desired rulesets, and each applied one is there and does not differ. */
  ghost predicate InSync(opts: Options, ds: seq<Desired>, h: Hub) {
    && (forall id :: id in h.rulesets ==> h.rulesets[id].name in AppliedNames(opts, ds) + UnresolvedNames(ds))
    && (forall d :: d in ds && Applies(opts, d) ==> exists id :: id in h.rulesets && MatchedBy(opts, d, h.rulesets[id]))
  }

  ghost predicate MatchedBy(opts: Options, d: Desired, r: GhRuleset) {
    && Prepare(opts, d.spec).Some? && ToGitHub(Prepare(opts, d.spec).value).Some?
    && r.name == d.spec.name && !RulesetsDiffer(Prepare(opts, d.spec).value, r)
  }

  ghost predicate Matched(opts: Options, d: Desired, existing: Index, h: Hub) {
    && d.spec.name in existing && existing[d.spec.name].Some? && existing[d.spec.name].value in h.rulesets
    && MatchedBy(opts, d, h.rulesets[existing[d.spec.name].value])
  }

  /** A run that succeeded leaves GitHub in sync. */
  lemma SyncReachesSync(h0: Hub, listing: seq<Listed>, ds: seq<Desired>, opts: Options, fails: nat -> bool,
                        order: seq<string>, end: State)
    requires Run(h0, listing, ds, opts, fails, order, end) && end.ok
    requires ValidHub(h0) && ListsAll(h0, listing) && KeepsNames(opts) && DistinctNames(ds)
    requires AllRepresentable(opts, ds)
    ensures InSync(opts, ds, end.hub)
  {
    SyncConverges(h0, listing, ds, opts, fails, order, end);
    forall id | id in end.hub.rulesets
      ensures end.hub.rulesets[id].name in AppliedNames(opts, ds) + UnresolvedNames(ds)
    {
      assert end.hub.rulesets[id].name in NamesOn(end.hub);
    }
    forall d | d in ds && Applies(opts, d)
      ensures exists id :: id in end.hub.rulesets && MatchedBy(opts, d, end.hub.rulesets[id])
    {
      assert SettledOn(opts, d, end.hub);
      var id :| id in end.hub.rulesets && end.hub.rulesets[id].name == d.spec.name &&
                Settled(opts, d, end.hub.rulesets[id]);
      MappingMatchesIff(Prepare(opts, d.spec).value, end.hub.rulesets[id].id);
      assert MatchedBy(opts, d, end.hub.rulesets[id]);
    }
  }

  lemma ExistingInSync(st: State, id: int, spec: RulesetSpec, g: GhRuleset, fails: nat -> bool)
    requires id in st.hub.rulesets && !RulesetsDiffer(spec, st.hub.rulesets[id])
    ensures var end := ApplyExisting(st, id, spec, g, fails);
            && end.hub.rulesets == st.hub.rulesets && end.hub.log == st.hub.log
            && end.toDelete == if end.ok then st.toDelete - {spec.name} else st.toDelete
  {
  }

  lemma ApplyOneInSync(opts: Options, d: Desired, existing: Index, st: State, h: Hub, fails: nat -> bool)
    requires KeepsNames(opts) && st.ok && st.hub.rulesets == h.rulesets
    requires Applies(opts, d) ==> Matched(opts, d, existing, h)
    ensures var end := ApplyOne(st, existing, d, opts, fails);
            && end.hub.rulesets == h.rulesets && end.hub.log == st.hub.log
            && end.toDelete.Keys <= st.toDelete.Keys
            && (end.ok && (d.unresolved.Some? || Applies(opts, d)) ==> d.spec.name !in end.toDelete)
  {
    if Applies(opts, d) {
      var spec := Prepare(opts, d.spec).value;
      ExistingInSync(st, existing[spec.name].value, spec, ToGitHub(spec).value, fails);
    }
  }

  lemma StillDisjoint(opts: Options, ds: seq<Desired>, before: set<string>, after: set<string>)
    requires ds != [] && after <= before
    requires before !! (AppliedNames(opts, ds[..|ds| - 1]) + UnresolvedNames(ds[..|ds| - 1]))
    requires var d := ds[|ds| - 1]; d.unresolved.Some? || Applies(opts, d) ==> d.spec.name !in after
    ensures after !! (AppliedNames(opts, ds) + UnresolvedNames(ds))
  {
    NamesGrow(opts, ds);
  }

  lemma {:induction false} ApplyAllInSync(opts: Options, ds: seq<Desired>, existing: Index, st: State, h: Hub,
                                          fails: nat -> bool)
    requires KeepsNames(opts) && st.ok && st.hub.rulesets == h.rulesets
    requires forall d :: d in ds && Applies(opts, d) ==> Matched(opts, d, existing, h)
    ensures var end := ApplyAll(st, existing, ds, opts, fails);
            && end.hub.rulesets == h.rulesets && end.hub.log == st.hub.log
            && end.toDelete.Keys <= st.toDelete.Keys
            && (end.ok ==> end.toDelete.Keys !! (AppliedNames(opts, ds) + UnresolvedNames(ds)))
  {
    if ds != [] {
      var n := |ds| - 1;
      assert ds == ds[..n] + [ds[n]];
      ApplyAllInSync(opts, ds[..n], existing, st, h, fails);
      var before := ApplyAll(st, existing, ds[..n], opts, fails);
      if before.ok {
        ApplyOneInSync(opts, ds[n], existing, before, h, fails);
        var end := ApplyOne(before, existing, ds[n], opts, fails);
        if end.ok {
          StillDisjoint(opts, ds, before.toDelete.Keys, end.toDelete.Keys);
        }
      }
    }
  }

  /** In sync, a run writes nothing, even if it fails on the way. */
  lemma InSyncWritesNothing(h: Hub, listing: seq<Listed>, ds: seq<Desired>, opts: Options, fails: nat -> bool,
                            order: seq<string>, end: State)
    requires Run(h, listing, ds, opts, fails, order, end)
    requires ValidHub(h) && ListsAll(h, listing) && KeepsNames(opts) && InSync(opts, ds, h)
    ensures end.hub.rulesets == h.rulesets && end.hub.log == h.log
  {
    if !fails(h.calls) {
      var existing, st := IndexListing(listing), Applied(h, listing, ds, opts, fails);
      ListedExactly(h, listing);
      forall d | d in ds && Applies(opts, d) ensures Matched(opts, d, existing, h) {
        var id :| id in h.rulesets && MatchedBy(opts, d, h.rulesets[id]);
        assert h.rulesets[id].name in existing;
      }
      ApplyAllInSync(opts, ds, existing, Start(h, listing), h, fails);
      if st.ok {
        NothingLeft(opts, ds, existing, st.toDelete, h);
        assert Elems(order) == {};
        NoElems(order);
      }
    }
  }

  lemma NothingLeft(opts: Options, ds: seq<Desired>, existing: Index, toDelete: Index, h: Hub)
    requires Exact(h, existing) && InSync(opts, ds, h) && toDelete.Keys <= existing.Keys
    requires toDelete.Keys !! (AppliedNames(opts, ds) + UnresolvedNames(ds))
    ensures toDelete.Keys == {}
  {
    forall n | n in existing ensures n in AppliedNames(opts, ds) + UnresolvedNames(ds) {
      var id := existing[n].value;
      assert id in h.rulesets && h.rulesets[id].name == n;
    }
  }

  /** Idempotence: after a run that succeeded, running again writes nothing. */
  lemma SecondSyncWritesNothing(h0: Hub, listing: seq<Listed>, ds: seq<Desired>, opts: Options, fails: nat -> bool,
                                order: seq<string>, end: State, listing': seq<Listed>, fails': nat -> bool,
                                order': seq<string>, end': State)
    requires ValidHub(h0) && ListsAll(h0, listing) && KeepsNames(opts) && DistinctNames(ds)
    requires AllRepresentable(opts, ds)
    requires Run(h0, listing, ds, opts, fails, order, end) && end.ok
    requires ListsAll(end.hub, listing')
    requires Run(end.hub, listing', ds, opts, fails', order', end')
    ensures end'.hub.rulesets == end.hub.rulesets && end'.hub.log == end.hub.log
  {
    SyncConverges(h0, listing, ds, opts, fails, order, end);
    SyncReachesSync(h0, listing, ds, opts, fails, order, end);
    InSyncWritesNothing(end.hub, listing', ds, opts, fails', order', end');
  }

  lemma StoredAsSent(st: State, id: int, spec: RulesetSpec, g: GhRuleset, fails: nat -> bool)
    requires id in st.hub.rulesets && st.hub.rulesets[id] == g.(id := Some(id))
    requires !fails(st.hub.calls) && !fails(st.hub.calls + 1)
    ensures var end := ApplyExisting(st, id, spec, g, fails);
            && end.ok && end.hub.rulesets == st.hub.rulesets && end.toDelete == st.toDelete - {spec.name}
            && end.hub.log == st.hub.log + if RulesetsDiffer(spec, st.hub.rulesets[id]) then [Updated(id, g.name)] else []
  {
    assert st.hub.rulesets[id := st.hub.rulesets[id]] == st.hub.rulesets;
  }

  /**
    A definition the mapper cannot express is written again although GitHub has what was sent, and GitHub has the same
    afterwards: so it is in every run.
   */
  lemma UnrepresentableIsRewritten(st: State, existing: Index, d: Desired, opts: Options, fails: nat -> bool, id: int,
                                   spec: RulesetSpec)
    requires Applies(opts, d) && Prepare(opts, d.spec) == Some(spec) && ToGitHub(spec).Some?
    requires spec.name in existing && existing[spec.name] == Some(id) && id in st.hub.rulesets
    requires st.hub.rulesets[id] == ToGitHub(spec).value.(id := Some(id))
    requires !fails(st.hub.calls) && !fails(st.hub.calls + 1)
    ensures var end := ApplyOne(st, existing, d, opts, fails);
            && end.ok && end.hub.rulesets == st.hub.rulesets && end.toDelete == st.toDelete - {spec.name}
            && end.hub.log == st.hub.log + if Representable(spec) then [] else [Updated(id, spec.name)]
  {
    MappingMatchesIff(spec, Some(id));
    StoredAsSent(st, id, spec, ToGitHub(spec).value, fails);
  }

  // ---------------------------------------------------------------- when a run succeeds

  /** The definition can be prepared and mapped. */
  predicate Sendable(opts: Options, d: Desired) {
    Prepare(opts, d.spec).Some? && ToGitHub(Prepare(opts, d.spec).value).Some?
  }

  ghost predicate AllSendable(opts: Options, ds: seq<Desired>) {
    forall d :: d in ds && Applies(opts, d) ==> Sendable(opts, d)
  }

  /** What is listed with an id is on GitHub; some rulesets may be listed without one or not at all. */
  ghost predicate ListsOnly(h: Hub, listing: seq<Listed>) {
    forall l :: l in listing && l.Listed? && l.name != "" && l.id.Some? ==>
                  l.id.value in h.rulesets && h.rulesets[l.id.value].name == l.name
  }

  /** Every indexed id is there, and every ruleset carries its own. */
  ghost predicate Available(existing: Index, h: Hub) {
    && (forall n :: n in existing && existing[n].Some? ==> existing[n].value in h.rulesets)
    && (forall id :: id in h.rulesets ==> h.rulesets[id].id == Some(id))
  }

  /** No two names have one id. */
  ghost predicate OneName(existing: Index) {
    forall m, n :: m in existing && n in existing && existing[m].Some? && existing[m] == existing[n] ==> m == n
  }

  lemma {:induction false} ListedAvailable(h: Hub, listing: seq<Listed>)
    requires ValidHub(h) && ListsOnly(h, listing)
    ensures Available(IndexListing(listing), h) && OneName(IndexListing(listing))
  {
    var existing := IndexListing(listing);
    forall n | n in existing && existing[n].Some?
      ensures existing[n].value in h.rulesets && h.rulesets[existing[n].value].name == n
    {
      var i := LastListed(listing, n);
      assert listing[i] in listing;
    }
  }

  lemma ApplyExistingSucceeds(st: State, existing: Index, id: int, spec: RulesetSpec, g: GhRuleset, fails: nat -> bool)
    requires st.ok && Available(existing, st.hub) && id in st.hub.rulesets && forall i :: !fails(i)
    ensures var end := ApplyExisting(st, id, spec, g, fails);
            end.ok && Available(existing, end.hub) && end.toDelete == st.toDelete - {spec.name}
  {
  }

  lemma ApplyOneSucceeds(st: State, existing: Index, d: Desired, opts: Options, fails: nat -> bool)
    requires st.ok && Available(existing, st.hub) && forall i :: !fails(i)
    ensures var end := ApplyOne(st, existing, d, opts, fails);
            && (end.ok <==> (Applies(opts, d) ==> Sendable(opts, d)))
            && Available(existing, end.hub)
            && forall n :: n in end.toDelete ==> n in st.toDelete && end.toDelete[n] == st.toDelete[n]
  {
    if Applies(opts, d) && Sendable(opts, d) {
      var spec := Prepare(opts, d.spec).value;
      if spec.name in existing && existing[spec.name].Some? {
        ApplyExistingSucceeds(st, existing, existing[spec.name].value, spec, ToGitHub(spec).value, fails);
      }
    }
  }

  lemma {:induction false} ApplyAllSucceeds(st: State, existing: Index, ds: seq<Desired>, opts: Options,
                                            fails: nat -> bool)
    requires st.ok && Available(existing, st.hub) && forall i :: !fails(i)
    ensures var end := ApplyAll(st, existing, ds, opts, fails);
            && (end.ok <==> AllSendable(opts, ds))
            && Available(existing, end.hub)
            && forall n :: n in end.toDelete ==> n in st.toDelete && end.toDelete[n] == st.toDelete[n]
  {
    if ds != [] {
      var n := |ds| - 1;
      assert ds == ds[..n] + [ds[n]];
      ApplyAllSucceeds(st, existing, ds[..n], opts, fails);
      var before := ApplyAll(st, existing, ds[..n], opts, fails);
      if before.ok {
        ApplyOneSucceeds(before, existing, ds[n], opts, fails);
      }
    }
  }

  lemma {:induction false} DeleteAllSucceeds(st: State, order: seq<string>, fails: nat -> bool)
    requires forall n :: n in order ==> n in st.toDelete
    requires st.ok && Available(st.toDelete, st.hub) && OneName(st.toDelete) && NoDup(order) && forall i :: !fails(i)
    ensures var end := DeleteAll(st, order, fails);
            && end.ok
            && forall n :: n in st.toDelete && n !in order && st.toDelete[n].Some? ==> st.toDelete[n].value in end.hub.rulesets
  {
    if order != [] {
      var n := |order| - 1;
      assert order == order[..n] + [order[n]];
      DeleteAllSucceeds(st, order[..n], fails);
      assert order[n] !in order[..n];
    }
  }

  /**
    Unless GitHub lists an id it does not have, a run in which no call fails succeeds exactly if every applied definition
    can be prepared and mapped; rulesets listed without an id do not matter.
   */
  lemma SyncSucceedsIff(h0: Hub, listing: seq<Listed>, ds: seq<Desired>, opts: Options, fails: nat -> bool,
                        order: seq<string>, end: State)
    requires ValidHub(h0) && ListsOnly(h0, listing) && forall i :: !fails(i)
    requires Run(h0, listing, ds, opts, fails, order, end)
    ensures end.ok <==> AllSendable(opts, ds)
  {
    var existing, st := IndexListing(listing), Applied(h0, listing, ds, opts, fails);
    ListedAvailable(h0, listing);
    ApplyAllSucceeds(Start(h0, listing), existing, ds, opts, fails);
    if st.ok {
      DeleteAllSucceeds(st, order, fails);
    }
  }
}
