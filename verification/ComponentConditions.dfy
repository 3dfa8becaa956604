/**
  From the outcomes of the reconciliations to the conditions in the status (reconciler/executor.go): which component is
  True, False or skipped after a run, and what Ready says.
 */
module ComponentConditions {
  import opened Collections
  import opened KeyedMerge
  import opened ErrorTree
  import opened Executor

  // ---------------------------------------------------------------- outcomes

  /** The reconciliation returns an error that contains an intended stop. */
  ghost predicate Stops(r: Reconciliation) {
    r.outcome.Some? && Contains(r.outcome.value, (x: Err) => x.StopReconciliation?)
  }

  /** It returns an error that does not. */
  ghost predicate Fails(r: Reconciliation) {
    r.outcome.Some? && !Contains(r.outcome.value, (x: Err) => x.StopReconciliation?)
  }

  ghost predicate GroupFails(g: Group) { exists i :: 0 <= i < |g| && Fails(g[i]) }

  ghost predicate GroupStops(g: Group) { exists i :: 0 <= i < |g| && Stops(g[i]) }

  /** Group `h` is the first one in which a reconciliation fails or stops the run; `|groups|` if there is none. */
  ghost predicate EndsAt(groups: seq<Group>, h: nat) {
    && h <= |groups|
    && (forall g :: 0 <= g < h ==> !GroupFails(groups[g]) && !GroupStops(groups[g]))
    && (h < |groups| ==> GroupFails(groups[h]) || GroupStops(groups[h]))
  }

  ghost predicate Member(groups: seq<Group>, g: int, i: int) { 0 <= g < |groups| && 0 <= i < |groups[g]| }

  /** No two reconciliations report under one condition, and none under Ready. */
  ghost predicate DistinctConditions(groups: seq<Group>) {
    forall g, i :: Member(groups, g, i) ==>
      && groups[g][i].condition != "Ready"
      && forall g', i' :: Member(groups, g', i') && groups[g'][i'].condition == groups[g][i].condition ==> g' == g && i' == i
  }

  /** The whole error can be fixed by the user. */
  ghost predicate Fixable(e: Err) { forall l :: l in Leaves(e) ==> UserCanFix(l) }

  // ---------------------------------------------------------------- results

  lemma RanIs(r: Reconciliation)
    ensures Fails(r) ==> Ran(r).error == r.outcome && Ran(r).stop.None?
    ensures !Fails(r) ==> Ran(r).error.None?
    ensures Ran(r).stop.Some? <==> Stops(r)
    ensures Ran(r).condition == r.condition && Ran(r).skippedBy.None?
  {
    if r.outcome.Some? {
      FindFirstIff(r.outcome.value, (x: Err) => x.StopReconciliation?);
    }
  }

  lemma {:induction false} ErrorsIff(rs: seq<Result>, e: Err)
    ensures e in Errors(rs) <==> exists i :: 0 <= i < |rs| && rs[i].error == Some(e)
  {
    if rs != [] {
      var n := |rs| - 1;
      var init, r := rs[..n], rs[n];
      assert rs == init + [r];
      ErrorsIff(init, e);
      ErrorsSnoc(init, r);
      if i :| 0 <= i < |rs| && rs[i].error == Some(e) {
        assert i < n ==> init[i] == rs[i];
      }
      if i :| 0 <= i < n && init[i].error == Some(e) {
        assert rs[i].error == Some(e);
      }
    }
  }

  lemma {:induction false} FirstStopIff(rs: seq<Result>)
    ensures FirstStop(rs).Some? <==> exists i :: 0 <= i < |rs| && rs[i].stop.Some?
  {
    if rs != [] {
      var n := |rs| - 1;
      FirstStopIff(rs[..n]);
      if i :| 0 <= i < |rs| && rs[i].stop.Some? {
        assert i < n ==> rs[..n][i] == rs[i];
      }
      if i :| 0 <= i < n && rs[..n][i].stop.Some? {
        assert rs[i].stop.Some?;
      }
    }
  }

  /** A group's results have errors exactly when it fails, and a stop exactly when it stops. */
  lemma GroupOutcome(g: Group)
    ensures Errors(GroupResults(g)) != [] <==> GroupFails(g)
    ensures FirstStop(GroupResults(g)).Some? <==> GroupStops(g)
  {
    var rs := GroupResults(g);
    forall i | 0 <= i < |g| ensures rs[i].error.Some? <==> Fails(g[i]) {
      RanIs(g[i]);
    }
    forall i | 0 <= i < |g| ensures rs[i].stop.Some? <==> Stops(g[i]) {
      RanIs(g[i]);
    }
    if i :| 0 <= i < |g| && Fails(g[i]) {
      ErrorsIff(rs, rs[i].error.value);
    }
    if Errors(rs) != [] {
      ErrorsIff(rs, Errors(rs)[0]);
    }
    FirstStopIff(rs);
    if i :| 0 <= i < |g| && Stops(g[i]) {
      assert rs[i].stop.Some?;
    }
  }

  lemma EndIsFirstHalt(groups: seq<Group>, h: nat)
    requires EndsAt(groups, h)
    ensures forall i :: 0 <= i < h ==> !Halts(groups[i])
    ensures h < |groups| ==> Halts(groups[h])
  {
    forall i | 0 <= i < |groups| ensures Halts(groups[i]) <==> GroupFails(groups[i]) || GroupStops(groups[i]) {
      GroupOutcome(groups[i]);
    }
  }

  lemma {:induction false} FlattenIff(gs: seq<seq<Result>>, r: Result)
    ensures r in Flatten(gs) <==> exists g :: 0 <= g < |gs| && r in gs[g]
  {
    if gs != [] {
      FlattenIff(gs[1..], r);
      if g :| 0 <= g < |gs| && r in gs[g] {
        assert g > 0 ==> gs[1..][g - 1] == gs[g];
      }
      if g :| 0 <= g < |gs[1..]| && r in gs[1..][g] {
        assert gs[g + 1] == gs[1..][g];
      }
    }
  }

  ghost predicate Skips(groups: seq<Group>, stop: string, g: int, i: int, r: Result) {
    Member(groups, g, i) && r == Result(groups[g][i].condition, None, None, Some(stop))
  }

  lemma {:induction false} SkippedIff(groups: seq<Group>, stop: string, r: Result)
    ensures r in SkippedResults(groups, stop) <==>
            exists g, i :: Skips(groups, stop, g, i, r)
  {
    if groups != [] {
      var n := |groups| - 1;
      SkippedIff(groups[..n], stop, r);
      if g, i :| Skips(groups, stop, g, i, r) {
        if g < n {
          assert groups[..n][g] == groups[g] && Skips(groups[..n], stop, g, i, r);
        } else {
          assert MapSeq(Skipped(stop), groups[n])[i] == r;
        }
      }
      if g, i :| Skips(groups[..n], stop, g, i, r) {
        assert groups[g] == groups[..n][g] && Skips(groups, stop, g, i, r);
      }
      if r in MapSeq(Skipped(stop), groups[n]) {
        var i :| 0 <= i < |groups[n]| && MapSeq(Skipped(stop), groups[n])[i] == r;
        assert Skips(groups, stop, n, i, r);
      }
    }
  }

  /** The result of reconciliation `i` of group `g` in a run that ends at group `h`; None if it is not reached. */
  ghost function ResultOf(groups: seq<Group>, h: nat, g: int, i: int): Option<Result>
    requires Member(groups, g, i)
  {
    if g <= h then Some(Ran(groups[g][i]))
    else if h < |groups| && !GroupFails(groups[h]) && FirstStop(GroupResults(groups[h])).Some?
    then Some(Result(groups[g][i].condition, None, None, FirstStop(GroupResults(groups[h]))))
    else None
  }

  ghost predicate Gives(groups: seq<Group>, h: nat, g: int, i: int, r: Result) {
    Member(groups, g, i) && ResultOf(groups, h, g, i) == Some(r)
  }

  /** The results of a run are exactly those. */
  lemma {:induction false} ResultsIff(groups: seq<Group>, h: nat, r: Result)
    requires EndsAt(groups, h)
    ensures r in RunAll(groups).results <==>
            exists g, i :: Gives(groups, h, g, i, r)
  {
    if r in RunAll(groups).results {
      ResultHasOrigin(groups, h, r);
    }
    if g, i :| Gives(groups, h, g, i, r) {
      MemberHasResult(groups, h, g, i, r);
    }
  }

  lemma {:induction false} ResultHasOrigin(groups: seq<Group>, h: nat, r: Result)
    requires EndsAt(groups, h) && r in RunAll(groups).results
    ensures exists g, i :: Gives(groups, h, g, i, r)
  {
    EndIsFirstHalt(groups, h);
    Accounting(groups, h);
    if r in Flatten(MapSeq(GroupResults, RanGroups(groups, h))) {
      RanOrigin(groups, h, r);
    } else {
      SkippedOrigin(groups, h, r);
    }
  }

  lemma {:induction false} RanOrigin(groups: seq<Group>, h: nat, r: Result)
    requires h <= |groups| && r in Flatten(MapSeq(GroupResults, RanGroups(groups, h)))
    ensures exists g, i :: Gives(groups, h, g, i, r)
  {
    var ran := RanGroups(groups, h);
    FlattenIff(MapSeq(GroupResults, ran), r);
    var g :| 0 <= g < |ran| && r in MapSeq(GroupResults, ran)[g];
    var i :| 0 <= i < |ran[g]| && GroupResults(ran[g])[i] == r;
    assert Gives(groups, h, g, i, r);
  }

  lemma {:induction false} MemberHasResult(groups: seq<Group>, h: nat, g: int, i: int, r: Result)
    requires EndsAt(groups, h) && Gives(groups, h, g, i, r)
    ensures r in RunAll(groups).results
  {
    EndIsFirstHalt(groups, h);
    Accounting(groups, h);
    if g <= h {
      var ran := RanGroups(groups, h);
      assert ran[g] == groups[g] && GroupResults(ran[g])[i] == r;
      assert r in MapSeq(GroupResults, ran)[g];
      FlattenIff(MapSeq(GroupResults, ran), r);
    } else {
      GroupOutcome(groups[h]);
      var stop := FirstStop(GroupResults(groups[h])).value;
      assert Skips(groups[h + 1..], stop, g - h - 1, i, r);
      SkippedIff(groups[h + 1..], stop, r);
    }
  }

  lemma {:induction false} SkippedOrigin(groups: seq<Group>, h: nat, r: Result)
    requires EndsAt(groups, h) && r in SkippedAfter(groups, h)
    ensures exists g, i :: Gives(groups, h, g, i, r)
  {
    GroupOutcome(groups[h]);
    var stop := FirstStop(GroupResults(groups[h])).value;
    SkippedIff(groups[h + 1..], stop, r);
    var g, i :| Skips(groups[h + 1..], stop, g, i, r);
    assert Gives(groups, h, h + 1 + g, i, r);
  }

  /** What is skipped carries the message of the first reconciliation that stopped the run. */
  lemma {:induction false} StopMessage(g: Group, i: nat)
    requires i < |g| && Stops(g[i]) && forall j :: 0 <= j < i ==> !Stops(g[j])
    ensures FirstStop(GroupResults(g)) == StopOf(g[i].outcome) && StopOf(g[i].outcome).Some?
  {
    var n := |g| - 1;
    var init := g[..n];
    assert GroupResults(g) == GroupResults(init) + [Ran(g[n])];
    FirstStopSnoc(GroupResults(init), Ran(g[n]));
    RanIs(g[i]);
    if i < n {
      StopMessage(init, i);
    } else {
      GroupOutcome(init);
    }
  }

  // ---------------------------------------------------------------- conditions of the components

  /** What `UpdateConditions` ensures. */
  ghost predicate Updated(before: map<string, Condition>, results: seq<Result>, after: map<string, Condition>) {
    exists c :: && Overlays(before, c, results, ResultCondition, ConditionOf)
                && after == c["Ready" := ReadyOf(Errors(results))]
  }

  lemma {:induction false} NamedResult(groups: seq<Group>, h: nat, g: int, i: int, r: Result)
    requires EndsAt(groups, h) && DistinctConditions(groups) && Member(groups, g, i)
    requires r in RunAll(groups).results && r.condition == groups[g][i].condition
    ensures ResultOf(groups, h, g, i) == Some(r)
  {
    ResultsIff(groups, h, r);
    var g', i' :| Gives(groups, h, g', i', r);
    RanIs(groups[g'][i']);
    assert groups[g'][i'].condition == groups[g][i].condition;
  }

  /** The value under a name that only one result has, or none. */
  lemma OnlyResultSets(before: map<string, Condition>, after: map<string, Condition>, results: seq<Result>,
                       name: string, r: Result)
    requires Overlays(before, after, results, ResultCondition, ConditionOf)
    requires r in results && r.condition == name && forall x :: x in results && x.condition == name ==> x == r
    ensures name in after && after[name] == ConditionOf(r)
  {
    assert ResultCondition(r) == name && name in Keys(results, ResultCondition);
    var l := LastIndex(results, name, ResultCondition);
    assert results[l] in results;
  }

  lemma NoResultSets(before: map<string, Condition>, after: map<string, Condition>, results: seq<Result>, name: string)
    requires Overlays(before, after, results, ResultCondition, ConditionOf)
    requires forall x :: x in results ==> x.condition != name
    ensures (name in after <==> name in before) && (name in after ==> after[name] == before[name])
  {
    assert name !in Keys(results, ResultCondition);
  }

  /** A component with a result has the condition of that result; one without keeps what it had. */
  lemma {:induction false} ConditionOfComponent(groups: seq<Group>, h: nat, before: map<string, Condition>,
                                                after: map<string, Condition>, g: int, i: int)
    requires EndsAt(groups, h) && DistinctConditions(groups) && Member(groups, g, i)
    requires Updated(before, RunAll(groups).results, after)
    ensures var name := groups[g][i].condition;
            match ResultOf(groups, h, g, i)
            case Some(r) => name in after && after[name] == ConditionOf(r)
            case None => (name in after <==> name in before) && (name in after ==> after[name] == before[name])
  {
    var name, results := groups[g][i].condition, RunAll(groups).results;
    var c :| Overlays(before, c, results, ResultCondition, ConditionOf) && after == c["Ready" := ReadyOf(Errors(results))];
    forall x | x in results && x.condition == name ensures ResultOf(groups, h, g, i) == Some(x) {
      NamedResult(groups, h, g, i, x);
    }
    var result := ResultOf(groups, h, g, i);
    if result.Some? {
      MemberHasResult(groups, h, g, i, result.value);
      RanIs(groups[g][i]);
    }
    OneResultAtMost(before, c, results, name, result);
    assert name != "Ready";
  }

  lemma OneResultAtMost(before: map<string, Condition>, after: map<string, Condition>, results: seq<Result>,
                        name: string, result: Option<Result>)
    requires Overlays(before, after, results, ResultCondition, ConditionOf)
    requires forall x :: x in results && x.condition == name ==> result == Some(x)
    requires result.Some? ==> result.value in results && result.value.condition == name
    ensures match result
            case Some(r) => name in after && after[name] == ConditionOf(r)
            case None => (name in after <==> name in before) && (name in after ==> after[name] == before[name])
  {
    if result.Some? {
      OnlyResultSets(before, after, results, name, result.value);
    } else {
      NoResultSets(before, after, results, name);
    }
  }

  /** The condition of a component that ran. */
  lemma RanCondition(r: Reconciliation)
    ensures ConditionOf(Ran(r)) ==
            if Fails(r) then Condition(False, if Fixable(r.outcome.value) then UserActionRequired else SyncFailed)
            else Condition(True, SyncCompleted)
  {
    RanIs(r);
    if r.outcome.Some? {
      RequiresUserActionIff(r.outcome.value);
    }
  }

  /**
    The status of every component after a run: False exactly if its reconciliation was called and failed, with the reason
    UserActionRequired exactly if the user can fix all of it; True if it was called and did not fail; skipped if it comes
    after a group that stopped the run without a failure; and as before if it comes after a failure.
   */
  lemma {:induction false} ComponentStatus(groups: seq<Group>, h: nat, before: map<string, Condition>,
                                           after: map<string, Condition>, g: nat, i: nat)
    requires EndsAt(groups, h) && DistinctConditions(groups) && Member(groups, g, i)
    requires Updated(before, RunAll(groups).results, after)
    ensures var name, r := groups[g][i].condition, groups[g][i];
            if g > h && GroupFails(groups[h]) then
              (name in after <==> name in before) && (name in after ==> after[name] == before[name])
            else
              name in after &&
              after[name] == if g > h then Condition(Unknown, SkippedRun)
                             else if !Fails(r) then Condition(True, SyncCompleted)
                             else if Fixable(r.outcome.value) then Condition(False, UserActionRequired)
                             else Condition(False, SyncFailed)
  {
    ConditionOfComponent(groups, h, before, after, g, i);
    RanCondition(groups[g][i]);
    if g > h {
      GroupOutcome(groups[h]);
    }
  }

  // ---------------------------------------------------------------- Ready

  lemma {:induction false} FailuresAreReturned(groups: seq<Group>, h: nat, e: Err)
    requires EndsAt(groups, h)
    ensures e in Errors(RunAll(groups).results) <==>
            exists g, i :: Member(groups, g, i) && g <= h && Fails(groups[g][i]) && groups[g][i].outcome == Some(e)
  {
    var results := RunAll(groups).results;
    ErrorsIff(results, e);
    if l :| 0 <= l < |results| && results[l].error == Some(e) {
      ResultsIff(groups, h, results[l]);
      var g, i :| Gives(groups, h, g, i, results[l]);
      RanIs(groups[g][i]);
      assert g <= h && Fails(groups[g][i]);
    }
    if g, i :| Member(groups, g, i) && g <= h && Fails(groups[g][i]) && groups[g][i].outcome == Some(e) {
      RanIs(groups[g][i]);
      MemberHasResult(groups, h, g, i, Ran(groups[g][i]));
      var l :| 0 <= l < |results| && results[l] == Ran(groups[g][i]);
    }
  }

  ghost predicate SomeFails(groups: seq<Group>, h: nat) {
    exists g, i :: Member(groups, g, i) && g <= h && Fails(groups[g][i])
  }

  ghost predicate AllFixable(groups: seq<Group>, h: nat) {
    forall g, i :: Member(groups, g, i) && g <= h && Fails(groups[g][i]) ==> Fixable(groups[g][i].outcome.value)
  }

  /**
    Ready is True exactly if no component that was called failed, and otherwise asks for user action exactly if all
    that failed do.
   */
  lemma {:induction false} ReadyStatus(groups: seq<Group>, h: nat, before: map<string, Condition>,
                                       after: map<string, Condition>)
    requires EndsAt(groups, h) && Updated(before, RunAll(groups).results, after)
    ensures "Ready" in after &&
            after["Ready"] == if !SomeFails(groups, h) then Condition(True, ReconcileCompleted)
                              else if AllFixable(groups, h) then Condition(False, UserActionRequired)
                              else Condition(False, ReconcileFailed)
  {
    var errors := Errors(RunAll(groups).results);
    forall e ensures e in errors <==>
                     exists g, i :: Member(groups, g, i) && g <= h && Fails(groups[g][i]) && groups[g][i].outcome == Some(e)
    {
      FailuresAreReturned(groups, h, e);
    }
    if SomeFails(groups, h) {
      var g, i :| Member(groups, g, i) && g <= h && Fails(groups[g][i]);
      assert groups[g][i].outcome.value in errors;
    }
    if errors != [] {
      assert errors[0] in errors;
    }
    if !AllFixable(groups, h) {
      var g, i :| Member(groups, g, i) && g <= h && Fails(groups[g][i]) && !Fixable(groups[g][i].outcome.value);
      assert groups[g][i].outcome.value in errors;
    }
    ReadyIs(errors);
  }

  lemma ReadyIs(errors: seq<Err>)
    ensures ReadyOf(errors) == if errors == [] then Condition(True, ReconcileCompleted)
                               else if forall e :: e in errors ==> Fixable(e) then Condition(False, UserActionRequired)
                               else Condition(False, ReconcileFailed)
  {
    forall e | e in errors ensures RequiresUserAction(e) <==> Fixable(e) {
      RequiresUserActionIff(e);
    }
    if e :| e in errors && !Fixable(e) {
      var j :| 0 <= j < |errors| && errors[j] == e;
      assert !RequiresUserAction(errors[j]);
    }
  }

  /**
    In terms of the conditions: Ready asks for user action exactly if a called component is False and all such
    components ask for it.
   */
  lemma {:induction false} ReadyFromComponents(groups: seq<Group>, h: nat, before: map<string, Condition>,
                                               after: map<string, Condition>)
    requires EndsAt(groups, h) && DistinctConditions(groups) && Updated(before, RunAll(groups).results, after)
    ensures forall g, i :: Member(groups, g, i) && g <= h ==> groups[g][i].condition in after
    ensures after["Ready"].status == True <==>
            forall g, i :: Member(groups, g, i) && g <= h ==> after[groups[g][i].condition].status == True
    ensures after["Ready"].reason == UserActionRequired <==>
            && (exists g, i :: Member(groups, g, i) && g <= h && after[groups[g][i].condition].status == False)
            && (forall g, i :: Member(groups, g, i) && g <= h && after[groups[g][i].condition].status == False ==>
                  after[groups[g][i].condition].reason == UserActionRequired)
  {
    ReadyStatus(groups, h, before, after);
    forall g, i | Member(groups, g, i) && g <= h
      ensures var name, r := groups[g][i].condition, groups[g][i];
              && name in after
              && (after[name].status == False <==> Fails(r))
              && (after[name].status == True <==> !Fails(r))
              && (Fails(r) ==> (after[name].reason == UserActionRequired <==> Fixable(r.outcome.value)))
    {
      ComponentStatus(groups, h, before, after, g, i);
    }
  }

  /** A whole run, from outcomes to conditions, for every completion order. */
  method Reconcile(before: map<string, Condition>, groups: seq<Group>, orders: seq<seq<nat>>)
    returns (after: map<string, Condition>, failed: bool)
    requires |orders| == |groups| && forall i :: 0 <= i < |groups| ==> CompletionOrder(orders[i], |groups[i]|)
    ensures Updated(before, RunAll(groups).results, after)
    ensures failed <==> exists h :: EndsAt(groups, h) && SomeFails(groups, h)
  {
    var results, errors, calls := RunReconciliations(groups, orders);
    after := UpdateConditions(before, results);
    failed := errors != [];
    ghost var h := FirstHalt(groups);
    EndExists(groups);
    ResultsCarryTheErrors(groups);
    forall h' | EndsAt(groups, h') ensures failed <==> SomeFails(groups, h') {
      ReadyStatus(groups, h', before, after);
    }
  }

  lemma {:induction false} EndExists(groups: seq<Group>)
    ensures EndsAt(groups, FirstHalt(groups))
  {
    forall i | 0 <= i < |groups| ensures Halts(groups[i]) <==> GroupFails(groups[i]) || GroupStops(groups[i]) {
      GroupOutcome(groups[i]);
    }
  }
}
