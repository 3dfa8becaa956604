/**
  The resilient authentication transport (ghclient/transport.go): requests share one cached installation transport, a
  401 discards it, and the request is replayed once. Transports are numbered in the order they are created; the two
  mutex-protected operations are atomic steps, everything else may interleave.
 */
module InstallationTransport {
  import opened Collections

  /** `currentInstallation` on the fields: the cached transport, or a new one. */
  datatype Cache = Cache(installation: Option<nat>, created: nat)

  function Acquire(c: Cache): (Cache, nat) {
    if c.installation.Some? then (c, c.installation.value) else (Cache(Some(c.created), c.created + 1), c.created)
  }

  /** `invalidate` on the fields: drops the cached transport only if it is the rejected one. */
  function Drop(c: Cache, rejected: nat): Cache {
    if c.installation == Some(rejected) then c.(installation := None) else c
  }

  class AuthorizeGitHubAccess {
    var installation: Option<nat>
    var created: nat

    constructor ()
      ensures installation == None && created == 0
    {
      installation, created := None, 0;
    }

    function Fields(): Cache
      reads this
    {
      Cache(installation, created)
    }

    method CurrentInstallation() returns (t: nat)
      modifies this
      ensures (Fields(), t) == Acquire(old(Fields()))
    {
      if installation.None? {
        installation := Some(created);
        created := created + 1;
      }
      t := installation.value;
    }

    method Invalidate(rejected: nat)
      modifies this
      ensures Fields() == Drop(old(Fields()), rejected)
    {
      if installation == Some(rejected) {
        installation := None;
      }
    }
  }

  // ---------------------------------------------------------------- concurrent requests

  /** Where a request stands in `RoundTrip`; the transport it last used. */
  datatype Phase = Sent(t: nat) | Rejected(t: nat) | Invalidated(t: nat) | Replayed(t: nat) | Done

  datatype Action =
    | Begin(r: nat)  // currentInstallation, then the first send
    | Answer(r: nat, unauthorized: bool)
    | Discard(r: nat)  // invalidate
    | GiveUp(r: nat)  // the body cannot be replayed
    | Replay(r: nat)  // currentInstallation, then the second send
    | Finish(r: nat)  // the second answer, whatever it is

  datatype Event = Handed(r: nat, t: nat, replay: bool) | Discarded(t: nat)

  datatype System = System(cache: Cache, requests: map<nat, Phase>, trace: seq<Event>)

  const INIT := System(Cache(None, 0), map[], [])

  /** One atomic step; None if the action is not possible. */
  function Step(s: System, a: Action): Option<System> {
    match a
    case Begin(r) =>
      if r in s.requests then None
      else
        var (c, t) := Acquire(s.cache);
        Some(System(c, s.requests[r := Sent(t)], s.trace + [Handed(r, t, false)]))
    case Answer(r, unauthorized) =>
      if r !in s.requests || !s.requests[r].Sent? then None
      else Some(s.(requests := s.requests[r := if unauthorized then Rejected(s.requests[r].t) else Done]))
    case Discard(r) =>
      if r !in s.requests || !s.requests[r].Rejected? then None
      else
        var t := s.requests[r].t;
        Some(System(Drop(s.cache, t), s.requests[r := Invalidated(t)], s.trace + [Discarded(t)]))
    case GiveUp(r) =>
      if r !in s.requests || !s.requests[r].Invalidated? then None else Some(s.(requests := s.requests[r := Done]))
    case Replay(r) =>
      if r !in s.requests || !s.requests[r].Invalidated? then None
      else
        var (c, t) := Acquire(s.cache);
        Some(System(c, s.requests[r := Replayed(t)], s.trace + [Handed(r, t, true)]))
    case Finish(r) =>
      if r !in s.requests || !s.requests[r].Replayed? then None else Some(s.(requests := s.requests[r := Done]))
  }

  /** The state after any sequence of actions from the start. */
  function Exec(actions: seq<Action>): Option<System> {
    if actions == [] then Some(INIT)
    else
      var before := Exec(actions[..|actions| - 1]);
      if before.None? then None else Step(before.value, actions[|actions| - 1])
  }

  // ---------------------------------------------------------------- invariants

  ghost function DiscardedIn(trace: seq<Event>): set<nat> {
    set e | e in trace && e.Discarded? :: e.t
  }

  /** The transports that were created and are not cached any more. */
  function Retired(c: Cache): set<nat> {
    set t: nat | t < c.created && c.installation != Some(t)
  }

  /** Only created transports are in use, and exactly the discarded ones are retired. */
  ghost predicate CacheInv(s: System) {
    && (s.cache.installation.Some? ==> s.cache.installation.value + 1 == s.cache.created)
    && DiscardedIn(s.trace) == Retired(s.cache)
    && (forall i :: 0 <= i < |s.trace| ==> s.trace[i].t < s.cache.created)
    && (forall r :: r in s.requests && !s.requests[r].Done? ==> s.requests[r].t < s.cache.created)
    && (forall r :: r in s.requests && s.requests[r].Invalidated? ==> s.requests[r].t in DiscardedIn(s.trace))
  }

  /** No transport is handed out after it was discarded. */
  ghost predicate NeverReused(trace: seq<Event>) {
    forall i, j :: 0 <= i < j < |trace| && trace[i].Discarded? && trace[j].Handed? ==> trace[i].t != trace[j].t
  }

  ghost function SendsOf(trace: seq<Event>, r: nat): seq<Event> {
    if trace == [] then []
    else
      var n := |trace| - 1;
      SendsOf(trace[..n], r) + if trace[n].Handed? && trace[n].r == r then [trace[n]] else []
  }

  function PhaseOf(s: System, r: nat): Option<Phase> {
    if r in s.requests then Some(s.requests[r]) else None
  }

  /** A request's sends so far: a first one, and a replay after its own rejection, on another transport. */
  ghost predicate SendsOk(r: nat, phase: Option<Phase>, sends: seq<Event>) {
    if phase.None? then sends == []
    else
      && 1 <= |sends| <= 2
      && sends[0] == Handed(r, sends[0].t, false)
      && (phase.value.Sent? || phase.value.Rejected? || phase.value.Invalidated? ==>
            |sends| == 1 && sends[0].t == phase.value.t)
      && (|sends| == 2 ==> sends[1] == Handed(r, sends[1].t, true) && sends[1].t != sends[0].t)
  }

  ghost predicate SendsInv(s: System, r: nat) {
    SendsOk(r, PhaseOf(s, r), SendsOf(s.trace, r))
  }

  ghost predicate Inv(s: System) {
    && CacheInv(s)
    && NeverReused(s.trace)
    && forall r :: SendsInv(s, r)
  }

  lemma {:induction false} SendsSnoc(trace: seq<Event>, e: Event, r: nat)
    ensures SendsOf(trace + [e], r) == SendsOf(trace, r) + if e.Handed? && e.r == r then [e] else []
  {
    assert (trace + [e])[..|trace|] == trace;
  }

  lemma DiscardedSnoc(trace: seq<Event>, e: Event)
    ensures DiscardedIn(trace + [e]) == DiscardedIn(trace) + if e.Discarded? then {e.t} else {}
  {
  }

  lemma HandOutCache(s: System, c: Cache, t: nat, e: Event)
    requires CacheInv(s) && NeverReused(s.trace) && (c, t) == Acquire(s.cache) && e.Handed? && e.t == t
    ensures DiscardedIn(s.trace + [e]) == Retired(c)
    ensures t < c.created && s.cache.created <= c.created && t !in DiscardedIn(s.trace)
    ensures NeverReused(s.trace + [e])
  {
    DiscardedSnoc(s.trace, e);
    assert Retired(c) == Retired(s.cache);
    forall i | 0 <= i < |s.trace| && s.trace[i].Discarded? ensures s.trace[i].t != t {
      assert s.trace[i].t in DiscardedIn(s.trace);
    }
  }

  /** Handing out a transport to `r`, */
  lemma HandOutKeeps(s: System, r: nat, p: Phase, e: Event)
    requires CacheInv(s) && NeverReused(s.trace) && !p.Done? && !p.Invalidated?
    requires e.Handed? && e.t == p.t == Acquire(s.cache).1
    ensures var s' := System(Acquire(s.cache).0, s.requests[r := p], s.trace + [e]);
            CacheInv(s') && NeverReused(s'.trace)
  {
    var (c, t) := Acquire(s.cache);
    HandOutCache(s, c, t, e);
    DiscardedSnoc(s.trace, e);
  }

  /** discarding the one that rejected `r`, */
  lemma DiscardKeeps(s: System, r: nat)
    requires CacheInv(s) && NeverReused(s.trace) && r in s.requests && s.requests[r].Rejected?
    ensures var t := s.requests[r].t;
            var s' := System(Drop(s.cache, t), s.requests[r := Invalidated(t)], s.trace + [Discarded(t)]);
            CacheInv(s') && NeverReused(s'.trace)
  {
    var t := s.requests[r].t;
    DiscardedSnoc(s.trace, Discarded(t));
    assert Retired(Drop(s.cache, t)) == Retired(s.cache) + {t};
  }

  /** and the steps of `r` that concern it alone keep the invariant. */
  lemma QuietKeeps(s: System, r: nat, p: Phase)
    requires CacheInv(s) && NeverReused(s.trace) && r in s.requests
    requires p.Done? || (p.Rejected? && !s.requests[r].Done? && p.t == s.requests[r].t)
    ensures CacheInv(s.(requests := s.requests[r := p]))
  {
  }

  lemma StepKeepsCache(s: System, a: Action)
    requires Inv(s) && Step(s, a).Some?
    ensures CacheInv(Step(s, a).value) && NeverReused(Step(s, a).value.trace)
  {
    var t := Acquire(s.cache).1;
    match a {
      case Begin(r) => HandOutKeeps(s, r, Sent(t), Handed(r, t, false));
      case Replay(r) => HandOutKeeps(s, r, Replayed(t), Handed(r, t, true));
      case Discard(r) => DiscardKeeps(s, r);
      case Answer(r, unauthorized) => QuietKeeps(s, r, if unauthorized then Rejected(s.requests[r].t) else Done);
      case GiveUp(r) => QuietKeeps(s, r, Done);
      case Finish(r) => QuietKeeps(s, r, Done);
    }
  }

  lemma ReplayUsesAnother(s: System, r: nat)
    requires Inv(s) && r in s.requests && s.requests[r].Invalidated?
    ensures Acquire(s.cache).1 != s.requests[r].t
  {
    var (c, t) := Acquire(s.cache);
    HandOutCache(s, c, t, Handed(r, t, true));
  }

  lemma ReplaySends(r: nat, t: nat, t': nat, sends: seq<Event>)
    requires SendsOk(r, Some(Invalidated(t)), sends) && t' != t
    ensures SendsOk(r, Some(Replayed(t')), sends + [Handed(r, t', true)])
  {
  }

  /** The steps of `r` itself that send nothing. */
  lemma SilentStep(r: nat, p: Phase, p': Phase, sends: seq<Event>)
    requires SendsOk(r, Some(p), sends)
    requires p'.Done? || (p.Sent? && p' == Rejected(p.t)) || (p.Rejected? && p' == Invalidated(p.t))
    ensures SendsOk(r, Some(p'), sends)
  {
  }

  lemma SendsStep(s: System, a: Action, r: nat)
    requires SendsInv(s, r) && Step(s, a).Some? && a.r == r
    requires a.Replay? ==> Acquire(s.cache).1 != s.requests[r].t
    ensures SendsInv(Step(s, a).value, r)
  {
    var sends, s' := SendsOf(s.trace, r), Step(s, a).value;
    match a {
      case Begin(_) =>
        var t := Acquire(s.cache).1;
        SendsSnoc(s.trace, Handed(r, t, false), r);
        assert SendsOk(r, Some(Sent(t)), [Handed(r, t, false)]);
      case Replay(_) =>
        var t := Acquire(s.cache).1;
        SendsSnoc(s.trace, Handed(r, t, true), r);
        ReplaySends(r, s.requests[r].t, t, sends);
      case Discard(_) =>
        SendsSnoc(s.trace, Discarded(s.requests[r].t), r);
        SilentStep(r, s.requests[r], s'.requests[r], sends);
      case _ =>
        SilentStep(r, s.requests[r], s'.requests[r], sends);
    }
  }

  lemma {:induction false} OthersSend(s: System, a: Action, r: nat)
    requires Step(s, a).Some? && a.r != r
    ensures SendsOf(Step(s, a).value.trace, r) == SendsOf(s.trace, r)
    ensures PhaseOf(Step(s, a).value, r) == PhaseOf(s, r)
  {
    if a.Begin? || a.Replay? {
      SendsSnoc(s.trace, Handed(a.r, Acquire(s.cache).1, a.Replay?), r);
    } else if a.Discard? {
      SendsSnoc(s.trace, Discarded(s.requests[a.r].t), r);
    }
  }

  lemma StepKeepsSends(s: System, a: Action, r: nat)
    requires Inv(s) && Step(s, a).Some?
    ensures SendsInv(Step(s, a).value, r)
  {
    assert SendsInv(s, r);
    if a.r != r {
      OthersSend(s, a, r);
    } else {
      if a.Replay? {
        ReplayUsesAnother(s, r);
      }
      SendsStep(s, a, r);
    }
  }

  lemma {:induction false} ExecKeepsInv(actions: seq<Action>)
    requires Exec(actions).Some?
    ensures Inv(Exec(actions).value)
  {
    if actions == [] {
      assert forall r :: SendsInv(INIT, r);
      assert Retired(INIT.cache) == {};
    } else {
      var n := |actions| - 1;
      ExecKeepsInv(actions[..n]);
      var s := Exec(actions[..n]).value;
      StepKeepsCache(s, actions[n]);
      forall r ensures SendsInv(Exec(actions).value, r) {
        StepKeepsSends(s, actions[n], r);
      }
    }
  }

  /** Safety of every run: a discarded transport is never handed out again. */
  lemma {:induction false} DiscardedIsNeverHandedOut(actions: seq<Action>, i: nat, j: nat)
    requires Exec(actions).Some?
    requires var trace := Exec(actions).value.trace; i < j < |trace| && trace[i].Discarded? && trace[j].Handed?
    ensures var trace := Exec(actions).value.trace; trace[i].t != trace[j].t
  {
    ExecKeepsInv(actions);
  }

  /** Every request is sent at most twice, the second time on a transport other than the rejected one. */
  lemma {:induction false} SentAtMostTwice(actions: seq<Action>, r: nat)
    requires Exec(actions).Some?
    ensures var sends := SendsOf(Exec(actions).value.trace, r);
            |sends| <= 2 && (|sends| == 2 ==> sends[1] == Handed(r, sends[1].t, true) && sends[1].t != sends[0].t)
  {
    ExecKeepsInv(actions);
    assert SendsInv(Exec(actions).value, r);
  }

  /** However many 401s a transport gets, it is replaced at most once: one new transport per discarded one. */
  lemma {:induction false} OneReplacementPerTransport(actions: seq<Action>)
    requires Exec(actions).Some?
    ensures var s := Exec(actions).value;
            s.cache.created == |DiscardedIn(s.trace)| + if s.cache.installation.Some? then 1 else 0
  {
    ExecKeepsInv(actions);
    var s := Exec(actions).value;
    var n := if s.cache.installation.Some? then s.cache.created - 1 else s.cache.created;
    assert Retired(s.cache) == Retired(Cache(None, n));
    RetiredSize(n);
  }

  lemma {:induction false} RetiredSize(n: nat)
    ensures |Retired(Cache(None, n))| == n
  {
    if n == 0 {
      assert Retired(Cache(None, 0)) == {};
    } else {
      RetiredSize(n - 1);
      assert Retired(Cache(None, n)) == Retired(Cache(None, n - 1)) + {n - 1};
    }
  }

  // ---------------------------------------------------------------- what a transport is discarded for

  /** Every request that is past a rejection was answered 401. */
  ghost predicate RejectionsAnswered(actions: seq<Action>, s: System) {
    forall r :: r in s.requests && (s.requests[r].Rejected? || s.requests[r].Invalidated? || s.requests[r].Replayed?) ==>
                  Answer(r, true) in actions
  }

  lemma {:induction false} ExecAnswers(actions: seq<Action>)
    requires Exec(actions).Some?
    ensures RejectionsAnswered(actions, Exec(actions).value)
  {
    if actions != [] {
      var n := |actions| - 1;
      var init, a := actions[..n], actions[n];
      ExecAnswers(init);
      assert actions == init + [a];
      assert forall b :: b in init ==> b in actions;
    }
  }

  lemma {:induction false} ExecPrefix(actions: seq<Action>, i: nat)
    requires Exec(actions).Some? && i <= |actions|
    ensures Exec(actions[..i]).Some?
    decreases |actions|
  {
    if i < |actions| {
      var n := |actions| - 1;
      ExecPrefix(actions[..n], i);
      assert actions[..n][..i] == actions[..i];
    } else {
      assert actions[..i] == actions;
    }
  }

  /** A request discards a transport, or is sent again, only after it was itself answered 401. */
  lemma {:induction false} OnlyRejectionsDiscard(actions: seq<Action>, i: nat, r: nat)
    requires Exec(actions).Some? && i < |actions| && (actions[i] == Discard(r) || actions[i] == Replay(r))
    ensures exists j :: 0 <= j < i && actions[j] == Answer(r, true)
  {
    ExecPrefix(actions, i + 1);
    var before := actions[..i];
    assert actions[..i + 1][..i] == before;
    ExecAnswers(before);
    assert Answer(r, true) in before;
  }

  /** A rejected request can always be sent again, on a transport that was never discarded. */
  lemma {:induction false} RejectedCanBeSentAgain(actions: seq<Action>, r: nat)
    requires Exec(actions).Some? && r in Exec(actions).value.requests && Exec(actions).value.requests[r].Rejected?
    ensures var again := Exec(actions + [Discard(r)] + [Replay(r)]);
            && again.Some? && again.value.trace != []
            && var last := again.value.trace[|again.value.trace| - 1];
               last == Handed(r, last.t, true) && last.t !in DiscardedIn(again.value.trace)
  {
    var once, twice := actions + [Discard(r)], actions + [Discard(r)] + [Replay(r)];
    assert once[..|actions|] == actions && twice[..|once|] == once;
    ExecKeepsInv(once);
    var s := Exec(once).value;
    var t := Acquire(s.cache).1;
    HandOutCache(s, Acquire(s.cache).0, t, Handed(r, t, true));
    DiscardedSnoc(s.trace, Handed(r, t, true));
  }
}
