/**
  From an unresolved ruleset to its scheduling: the errors `Sync` returns for rulesets that could not be resolved
  (common/rulesets/resolve.go, sync.go) as the controller classifies them.
 */
module UnresolvedErrors {
  import opened Collections
  import opened RulesetTypes
  import opened ExtendsChain
  import opened RulesetCollect
  import opened RulesetSync
  import opened ErrorTree
  import opened RequeuePolicy

  /** An `UnresolvedError` with the error it wraps; it carries no marker for changes on GitHub. */
  function AsError(u: Unresolvable, cause: Option<Err>): Err {
    Marked(u.reason.UserActionRequired(), false, cause)
  }

  /** `errors.Join` of the unresolved errors, `cause(u)` being what each of them wraps. */
  function JoinedErrors(us: seq<Unresolvable>, cause: Unresolvable -> Option<Err>): Err {
    Joined(MapSeq((u: Unresolvable) => AsError(u, cause(u)), us))
  }

  /** Some definition met a preset that could not be read. */
  ghost predicate HitReadError(ds: seq<Desired>) {
    exists d :: d in ds && d.unresolved.Some? && d.unresolved.value.reason == ParentUnavailable
  }

  lemma {:induction false} UnresolvedOfIff(ds: seq<Desired>, u: Unresolvable)
    ensures u in UnresolvedOf(ds) <==> exists d :: d in ds && d.unresolved == Some(u)
  {
    if ds != [] {
      var n := |ds| - 1;
      assert ds == ds[..n] + [ds[n]];
      UnresolvedOfIff(ds[..n], u);
    }
  }

  /** The error of a run requires user action exactly when a ruleset is unresolved and none of them for a read error. */
  lemma {:induction false} UserActionIff(ds: seq<Desired>, cause: Unresolvable -> Option<Err>)
    ensures RequiresUserAction(JoinedErrors(UnresolvedOf(ds), cause)) <==>
            (exists d :: d in ds && d.unresolved.Some?) && !HitReadError(ds)
  {
    var us := UnresolvedOf(ds);
    var errs := MapSeq((u: Unresolvable) => AsError(u, cause(u)), us);
    forall u ensures u in us <==> exists d :: d in ds && d.unresolved == Some(u) {
      UnresolvedOfIff(ds, u);
    }
    assert forall i :: 0 <= i < |us| ==> RequiresUserAction(errs[i]) == us[i].reason.UserActionRequired();
    if d :| d in ds && d.unresolved.Some? {
      assert d.unresolved.value in us;
    }
    if us != [] {
      assert us[0] in us;
    }
    if HitReadError(ds) {
      var d :| d in ds && d.unresolved.Some? && d.unresolved.value.reason == ParentUnavailable;
      assert d.unresolved.value in us;
      var i :| 0 <= i < |us| && us[i] == d.unresolved.value;
      assert !RequiresUserAction(errs[i]);
    } else {
      forall i | 0 <= i < |us| ensures us[i].reason.UserActionRequired() {
        assert us[i] in us;
      }
    }
  }

  /** Such a run is retried with backoff exactly when a preset could not be read; otherwise the controller waits. */
  lemma {:induction false} BackoffIffReadError(p: Policy, now: int, ds: seq<Desired>,
                                               cause: Unresolvable -> Option<Err>)
    requires exists d :: d in ds && d.unresolved.Some?
    requires var e := JoinedErrors(UnresolvedOf(ds), cause); ResetTime(e).None? && SpreadDelay(e).None?
    ensures var e := JoinedErrors(UnresolvedOf(ds), cause);
            OnReconcileError(p, false, now, WithReadableMessage(e)).err.Some? <==> HitReadError(ds)
  {
    var e := JoinedErrors(UnresolvedOf(ds), cause);
    UserActionIff(ds, cause);
    ReadableKeepsDecision(p, false, now, e);
    NoErrorReturnedIff(p, false, now, e);
  }

  /** A definition has a read error exactly when its chain is clean up to a preset that cannot be read. */
  lemma ReadErrorIff(store: Store, source: string, raw: RulesetSpec, self: string)
    ensures HitReadError([ToDesired(source, raw, Resolve(store, raw, self))]) <==>
            exists names :: Obstacle(store, self, raw.parent, names, ParentUnavailable)
  {
    var d, outcome := ToDesired(source, raw, Resolve(store, raw, self)), Resolve(store, raw, self);
    assert HitReadError([d]) <==> d.unresolved.Some? && d.unresolved.value.reason == ParentUnavailable by {
      assert d in [d];
    }
    forall names: seq<string> | Obstacle(store, self, raw.parent, names, ParentUnavailable)
      ensures outcome == Unresolved(raw.name, names + [NextName(store, raw.parent, names)], ParentUnavailable)
    {
      ResolveFailsIff(store, raw, self, names, NextName(store, raw.parent, names), ParentUnavailable);
    }
    if outcome.Unresolved? && outcome.reason == ParentUnavailable {
      BlockedSomewhere(store, raw, self);
    }
  }

  lemma BlockedSomewhere(store: Store, raw: RulesetSpec, self: string)
    requires Resolve(store, raw, self).Unresolved? && Resolve(store, raw, self).reason == ParentUnavailable
    ensures exists names :: Obstacle(store, self, raw.parent, names, ParentUnavailable)
  {
    WalkIsClean(store, self, raw.parent, raw.parent, []);
    var w := Walk(store, self, raw.parent, []);
    assert Obstacle(store, self, raw.parent, w.chain[..|w.chain| - 1], ParentUnavailable);
  }

  /** Unresolved rulesets wait for a watch: unless something they wrap says otherwise, the success interval is used. */
  lemma {:induction false} UnresolvedWaitForWatches(p: Policy, canceled: bool, now: int, ds: seq<Desired>)
    requires exists d :: d in ds && d.unresolved.Some?
    requires !HitReadError(ds)
    ensures OnReconcileError(p, canceled, now, JoinedErrors(UnresolvedOf(ds), (u: Unresolvable) => None)) ==
            Decision(p.successInterval, None)
  {
    var us, none := UnresolvedOf(ds), (u: Unresolvable) => None;
    var e := JoinedErrors(us, none);
    UserActionIff(ds, none);
    UserActionWait(p, canceled, now, e);
    NothingWrapped(us, (x: Err) => x.Marked? && x.awaits);
    NothingWrapped(us, (x: Err) => x == GitHubResponse(Some(422)));
    NothingWrapped(us, (x: Err) => x.KubeStatus?);
    FindFirstIff(e, (x: Err) => x.KubeStatus?);
  }

  lemma NothingWrapped(us: seq<Unresolvable>, wanted: Err -> bool)
    requires forall errs :: !wanted(Joined(errs))
    requires forall b :: !wanted(Marked(b, false, None))
    ensures !Contains(JoinedErrors(us, (u: Unresolvable) => None), wanted)
  {
    var errs := MapSeq((u: Unresolvable) => AsError(u, None), us);
    assert forall i :: 0 <= i < |errs| ==> !Contains(errs[i], wanted);
    assert JoinedErrors(us, (u: Unresolvable) => None) == Joined(errs);
  }
}
