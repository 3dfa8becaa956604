/**
  `ReconciliationExecutor` (reconciler/executor.go): groups of reconciliations run one after another, the members of a
  group in parallel; their results become status conditions and the returned error.
 */
module Executor {
  import opened Collections
  import opened KeyedMerge
  import opened ErrorTree
  import opened RequeuePolicy

  /** A reconciliation with the error its function returns. */
  datatype Reconciliation = Reconciliation(condition: string, outcome: Option<Err>)

  type Group = seq<Reconciliation>

  datatype Result = Result(condition: string, error: Option<Err>, stop: Option<string>, skippedBy: Option<string>)

  /** What a finished goroutine stores in its slot. */
  function Finished(r: Reconciliation): Result { Result(r.condition, r.outcome, None, None) }

  /** An intended stop is not an error. */
  function Settle(r: Result): Result {
    var s := StopOf(r.error);
    if s.Some? then r.(error := None, stop := s) else r
  }

  function Ran(r: Reconciliation): Result { Settle(Finished(r)) }

  function Skipped(stop: string): Reconciliation -> Result {
    (r: Reconciliation) => Result(r.condition, None, None, Some(stop))
  }

  /** The errors among results, in order. */
  function Errors(rs: seq<Result>): seq<Err> {
    if rs == [] then []
    else
      var n := |rs| - 1;
      Errors(rs[..n]) + if rs[n].error.Some? then [rs[n].error.value] else []
  }

  function FirstStop(rs: seq<Result>): Option<string> {
    if rs == [] then None
    else
      var n := |rs| - 1;
      var s := FirstStop(rs[..n]);
      if s.Some? then s else rs[n].stop
  }

  function GroupResults(g: Group): seq<Result> { MapSeq(Ran, g) }

  function SkippedResults(groups: seq<Group>, stop: string): seq<Result> {
    if groups == [] then []
    else
      var n := |groups| - 1;
      SkippedResults(groups[..n], stop) + MapSeq(Skipped(stop), groups[n])
  }

  // ---------------------------------------------------------------- a group, under every completion order

  /** An order in which the goroutines of a group finish. */
  ghost predicate CompletionOrder(order: seq<nat>, size: nat) {
    |order| == size && NoDup(order) && forall i :: 0 <= i < |order| ==> order[i] < size
  }

  lemma CompletionCoversAll(order: seq<nat>, size: nat, idx: nat)
    requires CompletionOrder(order, size) && idx < size
    ensures idx in order
  {
    var all := seq(size, (i: nat) => i);
    assert forall i :: 0 <= i < size ==> all[i] == i;
    forall x | x in Elems(order) ensures x in Elems(all) {
      assert all[x] == x;
    }
    Pigeonhole(order, all);
    assert all[idx] == idx && idx in multiset(all);
    assert idx in multiset(order);
  }

  /** One call of a reconciliation's function: the group and the place in it. */
  datatype Call = Call(group: nat, index: nat)

  /**
    Each goroutine calls its function and fills its own slot, so the results do not depend on the completion order;
    the calls are recorded in that order.
   */
  method RunGroup(g: Group, at: nat, order: seq<nat>) returns (results: seq<Result>, calls: seq<Call>)
    requires CompletionOrder(order, |g|)
    ensures results == MapSeq(Finished, g)
    ensures calls == MapSeq((idx: nat) => Call(at, idx), order)
  {
    var slots := new Result[|g|](_ => Result("", None, None, None));
    calls := [];
    for i := 0 to |order|
      invariant forall j :: 0 <= j < i ==> slots[order[j]] == Finished(g[order[j]])
      invariant calls == MapSeq((idx: nat) => Call(at, idx), order[..i])
    {
      calls := calls + [Call(at, order[i])];
      slots[order[i]] := Finished(g[order[i]]);
    }
    assert order[..|order|] == order;
    forall idx | 0 <= idx < |g| ensures slots[idx] == Finished(g[idx]) {
      CompletionCoversAll(order, |g|, idx);
    }
    results := slots[..];
  }

  /** Every reconciliation of the first `n` groups was called exactly once and no other one, group after group. */
  ghost predicate CalledUpTo(groups: seq<Group>, n: nat, calls: seq<Call>)
    requires n <= |groups|
  {
    && NoDup(calls)
    && (forall i, j :: 0 <= i < j < |calls| ==> calls[i].group <= calls[j].group)
    && (forall c :: c in calls <==> c.group < n && c.index < |groups[c.group]|)
  }

  lemma CalledMore(groups: seq<Group>, n: nat, calls: seq<Call>, order: seq<nat>, more: seq<Call>)
    requires n < |groups| && CalledUpTo(groups, n, calls) && CompletionOrder(order, |groups[n]|)
    requires more == MapSeq((idx: nat) => Call(n, idx), order)
    ensures CalledUpTo(groups, n + 1, calls + more)
  {
    var all := calls + more;
    forall c | c in calls ensures c.group < n {
    }
    forall c ensures c in all <==> c.group < n + 1 && c.index < |groups[c.group]| {
      if c.group == n && c.index < |groups[n]| {
        CompletionCoversAll(order, |groups[n]|, c.index);
        var j :| 0 <= j < |order| && order[j] == c.index;
        assert more[j] == c;
      }
    }
    forall i, j | 0 <= i < j < |all| ensures all[i] != all[j] && all[i].group <= all[j].group {
      assert i < |calls| ==> all[i] in calls;
      assert j < |calls| ==> all[j] in calls;
    }
  }

  // ---------------------------------------------------------------- all groups

  /** The results and the joined errors of a run. */
  datatype Run = Run(results: seq<Result>, errors: seq<Err>)

  function RunAll(groups: seq<Group>): Run {
    if groups == [] then Run([], [])
    else
      var rs := GroupResults(groups[0]);
      if Errors(rs) != [] then Run(rs, Errors(rs))
      else if FirstStop(rs).Some? then Run(rs + SkippedResults(groups[1..], FirstStop(rs).value), [])
      else
        var rest := RunAll(groups[1..]);
        Run(rs + rest.results, rest.errors)
  }

  /** Separates stops from errors within the results of a group. */
  method ProcessGroup(ghost g: Group, raw: seq<Result>)
    returns (rs: seq<Result>, errors: seq<Err>, stop: Option<string>)
    requires raw == MapSeq(Finished, g)
    ensures rs == GroupResults(g) && errors == Errors(rs) && stop == FirstStop(rs)
  {
    rs, errors, stop := [], [], None;
    for i := 0 to |raw|
      invariant rs == GroupResults(g[..i]) && errors == Errors(rs) && stop == FirstStop(rs)
    {
      var r := raw[i];
      var s := StopOf(r.error);
      ErrorsSnoc(rs, Ran(g[i]));
      FirstStopSnoc(rs, Ran(g[i]));
      if s.Some? {
        r := r.(error := None, stop := s);
        if stop.None? {
          stop := s;
        }
      } else if r.error.Some? {
        errors := errors + [r.error.value];
      }
      assert r == Ran(g[i]);
      assert GroupResults(g[..i + 1]) == rs + [r];
      rs := rs + [r];
    }
    assert g[..|raw|] == g;
  }

  lemma {:induction false} FirstStopSnoc(rs: seq<Result>, r: Result)
    ensures FirstStop(rs + [r]) == if FirstStop(rs).Some? then FirstStop(rs) else r.stop
  {
    assert (rs + [r])[..|rs|] == rs;
  }

  /** For every completion order: the results and errors of the run, and which reconciliations were called. */
  method RunReconciliations(groups: seq<Group>, orders: seq<seq<nat>>)
    returns (results: seq<Result>, errors: seq<Err>, calls: seq<Call>)
    requires |orders| == |groups| && forall i :: 0 <= i < |groups| ==> CompletionOrder(orders[i], |groups[i]|)
    ensures Run(results, errors) == RunAll(groups)
    ensures CalledUpTo(groups, |RanGroups(groups, FirstHalt(groups))|, calls)
  {
    results, errors, calls := [], [], [];
    for i := 0 to |groups|
      invariant errors == []
      invariant RunAll(groups) == After(results, RunAll(groups[i..]))
      invariant FirstHalt(groups) == i + FirstHalt(groups[i..])
      invariant CalledUpTo(groups, i, calls)
    {
      RunAllStep(results, groups, i);
      var raw, more := RunGroup(groups[i], i, orders[i]);
      CalledMore(groups, i, calls, orders[i], more);
      calls := calls + more;
      var rs, stop;
      rs, errors, stop := ProcessGroup(groups[i], raw);
      HaltStep(groups, i);
      if |errors| > 0 {
        return results + rs, errors, calls;
      }
      if stop.Some? {
        var skipped := SkipRemaining(groups[i + 1..], stop.value);
        return results + rs + skipped, [], calls;
      }
      results := results + rs;
    }
    assert groups[|groups|..] == [];
  }

  lemma HaltStep(groups: seq<Group>, i: nat)
    requires i < |groups|
    ensures FirstHalt(groups[i..]) == if Halts(groups[i]) then 0 else 1 + FirstHalt(groups[i + 1..])
    ensures |RanGroups(groups, i)| == i + 1
  {
    assert groups[i..][0] == groups[i] && groups[i..][1..] == groups[i + 1..];
  }

  function After(done: seq<Result>, rest: Run): Run { Run(done + rest.results, rest.errors) }

  lemma RunAllStep(done: seq<Result>, groups: seq<Group>, i: nat)
    requires i < |groups|
    ensures var rs := GroupResults(groups[i]);
            After(done, RunAll(groups[i..])) ==
            if Errors(rs) != [] then Run(done + rs, Errors(rs))
            else if FirstStop(rs).Some? then Run(done + rs + SkippedResults(groups[i + 1..], FirstStop(rs).value), [])
            else After(done + rs, RunAll(groups[i + 1..]))
  {
    var rs := GroupResults(groups[i]);
    assert groups[i..][0] == groups[i] && groups[i..][1..] == groups[i + 1..];
    if Errors(rs) == [] {
      if FirstStop(rs).Some? {
        var skipped := SkippedResults(groups[i + 1..], FirstStop(rs).value);
        assert done + (rs + skipped) == done + rs + skipped;
      } else {
        var rest := RunAll(groups[i + 1..]).results;
        assert done + (rs + rest) == done + rs + rest;
      }
    }
  }

  method SkipRemaining(groups: seq<Group>, stop: string) returns (results: seq<Result>)
    ensures results == SkippedResults(groups, stop)
  {
    results := [];
    for i := 0 to |groups|
      invariant results == SkippedResults(groups[..i], stop)
    {
      ghost var before := results;
      for j := 0 to |groups[i]|
        invariant results == before + MapSeq(Skipped(stop), groups[i][..j])
      {
        results := results + [Result(groups[i][j].condition, None, None, Some(stop))];
      }
      assert groups[i][..|groups[i]|] == groups[i];
      assert groups[..i + 1][..i] == groups[..i];
    }
    assert groups[..|groups|] == groups;
  }

  // ---------------------------------------------------------------- accounting

  /** A group that ends the run: one of its members failed or stopped it. */
  predicate Halts(g: Group) {
    Errors(GroupResults(g)) != [] || FirstStop(GroupResults(g)).Some?
  }

  /** The first group that halts; the number of groups if none does. */
  function FirstHalt(groups: seq<Group>): (h: nat)
    ensures h <= |groups| && (h < |groups| ==> Halts(groups[h]))
    ensures forall i :: 0 <= i < h ==> !Halts(groups[i])
  {
    if groups == [] || Halts(groups[0]) then 0 else 1 + FirstHalt(groups[1..])
  }

  function Flatten(gs: seq<seq<Result>>): seq<Result> {
    if gs == [] then [] else gs[0] + Flatten(gs[1..])
  }

  /** The groups that run when the first one to halt is `h`. */
  function RanGroups(groups: seq<Group>, h: nat): seq<Group> {
    if h < |groups| then groups[..h + 1] else groups
  }

  function HaltErrors(groups: seq<Group>, h: nat): seq<Err> {
    if h < |groups| then Errors(GroupResults(groups[h])) else []
  }

  /** One Skipped result for everything after a group that stopped the run without a failure. */
  function SkippedAfter(groups: seq<Group>, h: nat): seq<Result> {
    if h < |groups| && HaltErrors(groups, h) == [] && FirstStop(GroupResults(groups[h])).Some?
    then SkippedResults(groups[h + 1..], FirstStop(GroupResults(groups[h])).value)
    else []
  }

  lemma HaltTail(groups: seq<Group>, h: nat)
    requires 0 < h <= |groups|
    ensures RanGroups(groups, h) == [groups[0]] + RanGroups(groups[1..], h - 1)
    ensures HaltErrors(groups, h) == HaltErrors(groups[1..], h - 1)
    ensures SkippedAfter(groups, h) == SkippedAfter(groups[1..], h - 1)
  {
    if h < |groups| {
      assert groups[1..][h - 1] == groups[h] && groups[1..][h..] == groups[h + 1..];
    }
  }

  lemma FlattenCons(g: Group, gs: seq<Group>)
    ensures Flatten(MapSeq(GroupResults, [g] + gs)) == GroupResults(g) + Flatten(MapSeq(GroupResults, gs))
  {
    assert MapSeq(GroupResults, [g] + gs)[1..] == MapSeq(GroupResults, gs);
  }

  /**
    Accounting of the results: with `h` the first group that halts, every reconciliation up to and including that group
    (those that are called, see RunReconciliations) has its result, in order; if the group only stopped, each later one
    has exactly one Skipped result; if it failed, the later ones have none, and the returned errors are that group's.
   */
  lemma {:induction false} Accounting(groups: seq<Group>, h: nat)
    requires h <= |groups|
    requires forall i :: 0 <= i < h ==> !Halts(groups[i])
    requires h < |groups| ==> Halts(groups[h])
    ensures RunAll(groups).errors == HaltErrors(groups, h)
    ensures RunAll(groups).results == Flatten(MapSeq(GroupResults, RanGroups(groups, h))) + SkippedAfter(groups, h)
  {
    if groups == [] {
      assert MapSeq(GroupResults, RanGroups(groups, h)) == [];
    } else if h == 0 {
      HaltsAtOnce(groups);
    } else {
      assert !Halts(groups[0]);
      forall i | 0 <= i < h - 1 ensures !Halts(groups[1..][i]) {
        assert groups[1..][i] == groups[i + 1];
      }
      Accounting(groups[1..], h - 1);
      HaltTail(groups, h);
      GoesOn(groups);
      var ran, first := RanGroups(groups[1..], h - 1), GroupResults(groups[0]);
      FlattenCons(groups[0], ran);
      AppendAssociates(first, Flatten(MapSeq(GroupResults, ran)), SkippedAfter(groups, h));
    }
  }

  lemma AppendAssociates(a: seq<Result>, b: seq<Result>, c: seq<Result>)
    ensures a + (b + c) == a + b + c
  {
  }

  lemma {:induction false} HaltsAtOnce(groups: seq<Group>)
    requires groups != [] && Halts(groups[0])
    ensures RunAll(groups).errors == HaltErrors(groups, 0)
    ensures RunAll(groups).results == Flatten(MapSeq(GroupResults, RanGroups(groups, 0))) + SkippedAfter(groups, 0)
  {
    assert RanGroups(groups, 0) == [groups[0]] + [];
    FlattenCons(groups[0], []);
    assert MapSeq(GroupResults, []) == [];
  }

  lemma {:induction false} GoesOn(groups: seq<Group>)
    requires groups != [] && !Halts(groups[0])
    ensures RunAll(groups).errors == RunAll(groups[1..]).errors
    ensures RunAll(groups).results == GroupResults(groups[0]) + RunAll(groups[1..]).results
  {
  }

  // ---------------------------------------------------------------- conditions

  datatype Status = True | False | Unknown

  datatype Reason =
    | SyncCompleted | SyncFailed | SkippedRun | UserActionRequired | ReconcileCompleted | ReconcileFailed
    | ReconcileStarted

  datatype Condition = Condition(status: Status, reason: Reason)

  const READY := "Ready"

  function ConditionOf(r: Result): Condition {
    if r.error.Some? then Condition(False, if RequiresUserAction(r.error.value) then UserActionRequired else SyncFailed)
    else if r.stop.Some? then Condition(True, SyncCompleted)
    else if r.skippedBy.Some? then Condition(Unknown, SkippedRun)
    else Condition(True, SyncCompleted)
  }

  function ReadyOf(errors: seq<Err>): Condition {
    if errors == [] then Condition(True, ReconcileCompleted)
    else if AllRequireUserAction(errors) then Condition(False, UserActionRequired)
    else Condition(False, ReconcileFailed)
  }

  function ResultCondition(r: Result): string { r.condition }

  predicate AllRequireUserAction(errors: seq<Err>) {
    forall i :: 0 <= i < |errors| ==> RequiresUserAction(errors[i])
  }

  /** Every result sets its condition, and Ready, set last, summarizes the errors. */
  method UpdateConditions(conditions0: map<string, Condition>, results: seq<Result>)
    returns (conditions: map<string, Condition>)
    ensures READY in conditions && conditions[READY] == ReadyOf(Errors(results))
    ensures exists c :: && Overlays(conditions0, c, results, ResultCondition, ConditionOf)
                        && conditions == c[READY := ReadyOf(Errors(results))]
  {
    conditions := conditions0;
    var allReady, allUserAction := true, true;
    for i := 0 to |results|
      invariant allReady <==> Errors(results[..i]) == []
      invariant allUserAction <==> AllRequireUserAction(Errors(results[..i]))
      invariant Overlays(conditions0, conditions, results[..i], ResultCondition, ConditionOf)
    {
      var r := results[i];
      assert results[..i + 1] == results[..i] + [r];
      ErrorsSnoc(results[..i], r);
      OverlaysMore(conditions0, conditions, results[..i], r, ResultCondition, ConditionOf);
      if r.error.Some? {
        allReady := false;
        if !RequiresUserAction(r.error.value) {
          allUserAction := false;
        }
      }
      conditions := conditions[r.condition := ConditionOf(r)];
    }
    assert results[..|results|] == results;
    var ready := if allReady then Condition(True, ReconcileCompleted)
                 else if allUserAction then Condition(False, UserActionRequired)
                 else Condition(False, ReconcileFailed);
    conditions := conditions[READY := ready];
  }

  lemma {:induction false} ErrorsSnoc(rs: seq<Result>, r: Result)
    ensures Errors(rs + [r]) == Errors(rs) + if r.error.Some? then [r.error.value] else []
    ensures AllRequireUserAction(Errors(rs + [r])) <==>
            AllRequireUserAction(Errors(rs)) && (r.error.Some? ==> RequiresUserAction(r.error.value))
  {
    assert (rs + [r])[..|rs|] == rs;
    var all, init := Errors(rs + [r]), Errors(rs);
    assert forall j :: 0 <= j < |init| ==> all[j] == init[j];
    assert r.error.Some? ==> all[|init|] == r.error.value;
  }

  lemma {:induction false} ErrorsAppend(xs: seq<Result>, ys: seq<Result>)
    ensures Errors(xs + ys) == Errors(xs) + Errors(ys)
  {
    if ys == [] {
      assert xs + ys == xs;
    } else {
      var n := |ys| - 1;
      assert xs + ys == (xs + ys[..n]) + [ys[n]] && ys == ys[..n] + [ys[n]];
      ErrorsSnoc(xs + ys[..n], ys[n]);
      ErrorsSnoc(ys[..n], ys[n]);
      ErrorsAppend(xs, ys[..n]);
    }
  }

  lemma {:induction false} SkippedHaveNoErrors(groups: seq<Group>, stop: string)
    ensures Errors(SkippedResults(groups, stop)) == []
  {
    if groups != [] {
      var n := |groups| - 1;
      SkippedHaveNoErrors(groups[..n], stop);
      NoErrors(MapSeq(Skipped(stop), groups[n]));
      ErrorsAppend(SkippedResults(groups[..n], stop), MapSeq(Skipped(stop), groups[n]));
    }
  }

  lemma {:induction false} NoErrors(rs: seq<Result>)
    requires forall i :: 0 <= i < |rs| ==> rs[i].error.None?
    ensures Errors(rs) == []
  {
    if rs != [] {
      NoErrors(rs[..|rs| - 1]);
    }
  }

  /** The errors in the results are exactly the errors that are joined and returned. */
  lemma {:induction false} ResultsCarryTheErrors(groups: seq<Group>)
    ensures Errors(RunAll(groups).results) == RunAll(groups).errors
  {
    if groups != [] {
      var rs := GroupResults(groups[0]);
      if Errors(rs) == [] {
        if FirstStop(rs).Some? {
          SkippedHaveNoErrors(groups[1..], FirstStop(rs).value);
          ErrorsAppend(rs, SkippedResults(groups[1..], FirstStop(rs).value));
        } else {
          ResultsCarryTheErrors(groups[1..]);
          ErrorsAppend(rs, RunAll(groups[1..]).results);
        }
      }
    }
  }

  // ---------------------------------------------------------------- status and scheduling

  /** The error `Reconcile` returns once the status has been applied. */
  function ReturnedError(run: Run): Option<Err> {
    if run.errors == [] then None else Some(WithReadableMessage(Joined(run.errors)))
  }

  /** Ready is True exactly when no error is returned. */
  lemma {:induction false} ReadyIffNoError(groups: seq<Group>)
    ensures var run := RunAll(groups);
            ReadyOf(Errors(run.results)).status == True <==> ReturnedError(run).None?
  {
    ResultsCarryTheErrors(groups);
  }

  /**
    The Ready reason in the status and the controller's own classification of the returned error agree, for all groups
    and error trees: UserActionRequired is stored exactly when the controller waits for user action, and the returned
    error is then scheduled without backoff.
   */
  lemma {:induction false} StatusAgreesWithScheduling(groups: seq<Group>, p: Policy, canceled: bool, now: int)
    ensures var run := RunAll(groups);
            var ready, err := ReadyOf(Errors(run.results)), ReturnedError(run);
            && (ready.reason == UserActionRequired <==> err.Some? && RequiresUserAction(err.value))
            && (ready.reason == UserActionRequired ==>
                  OnReconcileError(p, canceled, now, err.value) == Decision(UserActionInterval(p, err.value), None))
            && (err.Some? ==>
                  (OnReconcileError(p, canceled, now, err.value).err.None? <==>
                   || ready.reason == UserActionRequired || canceled
                   || ResetTime(err.value).Some? || SpreadDelay(err.value).Some?))
  {
    ResultsCarryTheErrors(groups);
    var errors := RunAll(groups).errors;
    if errors != [] {
      ReadableKeepsClassification(Joined(errors), (x: Err) => x.KubeStatus?);
      assert RequiresUserAction(Joined(errors)) <==> AllRequireUserAction(errors);
      NoErrorReturnedIff(p, canceled, now, WithReadableMessage(Joined(errors)));
    }
  }

  /** The other direction fails for a rate limit hit while reconciling: Ready says failed, yet no error is returned. */
  lemma RateLimitIsNotReported(p: Policy, now: int, reset: int)
    ensures var run := RunAll([[Reconciliation("GitHubSynced", Some(RateLimited(reset)))]]);
            && ReadyOf(Errors(run.results)) == Condition(False, ReconcileFailed)
            && ReturnedError(run).Some?
            && OnReconcileError(p, false, now, ReturnedError(run).value).err.None?
  {
    var g := [Reconciliation("GitHubSynced", Some(RateLimited(reset)))];
    var e := RateLimited(reset);
    var rs := GroupResults(g);
    assert rs == [Result("GitHubSynced", Some(e), None, None)];
    assert rs[..0] == [];
    assert Errors(rs) == [e];
    assert RunAll([g]).errors == [e] && RunAll([g]).results == rs;
    assert FindFirst(Joined([e]), (x: Err) => x.RateLimited?) == Some(e) by {
      assert FindFirstOf([e], (x: Err) => x.RateLimited?) == Some(e);
    }
    assert UnprocessableOf([e]) == [] by {
      assert [e][1..] == [];
    }
  }

  /** An error is reported exactly when its tree contains no intended stop. */
  lemma {:induction false} FailureReportedIff(condition: string, e: Err)
    ensures var r := Ran(Reconciliation(condition, Some(e)));
            && (r.error == Some(e) <==> !Contains(e, (x: Err) => x.StopReconciliation?))
            && (r.error.Some? <==> r.stop.None?)
  {
    FindFirstIff(e, (x: Err) => x.StopReconciliation?);
  }

  /** A failure joined with an intended stop is taken for the stop: it is neither reported nor returned. */
  lemma StopHidesFailure(condition: string, message: string, e: Err)
    ensures Ran(Reconciliation(condition, Some(Joined([StopReconciliation(message), e])))) ==
            Result(condition, None, Some(message), None)
  {
    assert FindFirstOf([StopReconciliation(message), e], (x: Err) => x.StopReconciliation?) ==
           Some(StopReconciliation(message));
  }
}
