/**
  The per-organization rate limit registry (ratelimit/org_registry.go), its use before a reconciliation
  (`checkRateLimit` in ghclient/factory.go) and the requeue that follows. Times and durations are in seconds.
 */
module RateLimit {
  import opened Collections
  import opened ErrorTree
  import opened RequeuePolicy

  datatype Category = Core | GraphQL | Search | CodeSearch | Other(name: string)

  const MONITORED: seq<Category> := [Core, GraphQL, Search, CodeSearch]

  datatype CategoryState = CategoryState(remaining: int, limit: int, resetTime: int, lastUpdated: int)

  datatype OrgState = OrgState(appId: int, categories: map<Category, CategoryState>)

  datatype Config = Config(thresholds: map<Category, int>, grace: int, staleness: int)

  datatype Limit = Limit(remaining: int, limit: int, resetTime: int)

  /** A GET /rate_limit response; a category may be absent. */
  datatype Limits = Limits(core: Option<Limit>, graphQL: Option<Limit>, search: Option<Limit>, codeSearch: Option<Limit>)

  type States = map<string, OrgState>

  /** How long a category has to wait: until its reset time plus the grace period. */
  function Delay(cfg: Config, c: CategoryState, now: int): int { c.resetTime + cfg.grace - now }

  /** The category is below its threshold and its window has not renewed. */
  predicate Blocks(cfg: Config, o: OrgState, cat: Category, now: int) {
    && cat in cfg.thresholds
    && cat in o.categories
    && o.categories[cat].remaining < cfg.thresholds[cat]
    && Delay(cfg, o.categories[cat], now) > 0
  }

  function Evaluated(cats: seq<Category>): seq<Category> { if cats == [] then MONITORED else cats }

  predicate Stalled(cfg: Config, states: States, org: string, cats: seq<Category>, now: int) {
    org in states && exists c :: c in Evaluated(cats) && Blocks(cfg, states[org], c, now)
  }

  /** `delay` is the longest wait of the blocking categories. */
  ghost predicate LongestWait(cfg: Config, o: OrgState, cats: seq<Category>, now: int, delay: int) {
    && (exists c :: c in cats && Blocks(cfg, o, c, now) && Delay(cfg, o.categories[c], now) == delay)
    && (forall c :: c in cats && Blocks(cfg, o, c, now) ==> Delay(cfg, o.categories[c], now) <= delay)
  }

  /** The answer of `ShouldStall` for the categories `cats`. */
  ghost predicate Answer(cfg: Config, o: OrgState, cats: seq<Category>, now: int, stalled: bool, delay: int) {
    if stalled then delay > 0 && LongestWait(cfg, o, cats, now, delay)
    else delay == 0 && forall c :: c in cats ==> !Blocks(cfg, o, c, now)
  }

  lemma AnswerMore(cfg: Config, o: OrgState, cats: seq<Category>, cat: Category, now: int, stalled: bool, delay: int)
    requires Answer(cfg, o, cats, now, stalled, delay)
    ensures !Blocks(cfg, o, cat, now) ==> Answer(cfg, o, cats + [cat], now, stalled, delay)
    ensures Blocks(cfg, o, cat, now) ==>
              Answer(cfg, o, cats + [cat], now, true, Max(delay, Delay(cfg, o.categories[cat], now)))
  {
    var all := cats + [cat];
    assert forall c :: c in all <==> c in cats || c == cat;
    if Blocks(cfg, o, cat, now) {
      var d := Delay(cfg, o.categories[cat], now);
      if stalled && d < delay {
        var c :| c in cats && Blocks(cfg, o, c, now) && Delay(cfg, o.categories[c], now) == delay;
        assert c in all;
      } else {
        assert cat in all && d == Max(delay, d);
      }
    } else if stalled {
      var c :| c in cats && Blocks(cfg, o, c, now) && Delay(cfg, o.categories[c], now) == delay;
      assert c in all;
    }
  }

  function Record(now: int, l: Limit): CategoryState { CategoryState(l.remaining, l.limit, l.resetTime, now) }

  function SetCategory(o: OrgState, cat: Category, now: int, l: Option<Limit>): OrgState {
    if l.None? then o else o.(categories := o.categories[cat := Record(now, l.value)])
  }

  function SetAll(o: OrgState, now: int, l: Limits): OrgState {
    SetCategory(SetCategory(SetCategory(SetCategory(o, Core, now, l.core), GraphQL, now, l.graphQL),
                            Search, now, l.search), CodeSearch, now, l.codeSearch)
  }

  function OrgOr(states: States, org: string, appId: int): OrgState {
    if org in states then states[org] else OrgState(appId, map[])
  }

  // ---------------------------------------------------------------- what the registry promises, spelled out

  /** The category is below its threshold, and its window renews, with the grace period, at the later time `until`. */
  ghost predicate WaitsUntil(cfg: Config, o: OrgState, c: Category, now: int, until: int) {
    && c in cfg.thresholds && c in o.categories
    && o.categories[c].remaining < cfg.thresholds[c]
    && until == o.categories[c].resetTime + cfg.grace && now < until
  }

  /** `until` is the latest such time among the given categories, or all monitored ones if none are given. */
  ghost predicate LastToRenew(cfg: Config, o: OrgState, cats: seq<Category>, now: int, until: int) {
    && (exists c :: Asked(cats, c) && WaitsUntil(cfg, o, c, now, until))
    && (forall c, u :: Asked(cats, c) && WaitsUntil(cfg, o, c, now, u) ==> u <= until)
  }

  ghost predicate Asked(cats: seq<Category>, c: Category) {
    if cats == [] then c == Core || c == GraphQL || c == Search || c == CodeSearch else c in cats
  }

  /** The category holds these limits, recorded at `now`; without limits it is as it was. */
  ghost predicate Holds(before: map<Category, CategoryState>, after: map<Category, CategoryState>, c: Category,
                        l: Option<Limit>, now: int) {
    match l
    case Some(x) => c in after && after[c] == CategoryState(x.remaining, x.limit, x.resetTime, now)
    case None => (c in after <==> c in before) && (c in after ==> after[c] == before[c])
  }

  /** The organization's state after a response: each of its categories is recorded, everything else is kept. */
  ghost predicate Refreshed(before: Option<OrgState>, appId: int, l: Limits, now: int, after: OrgState) {
    var was := if before.Some? then before.value.categories else map[];
    && after.appId == (if before.Some? then before.value.appId else appId)
    && Holds(was, after.categories, Core, l.core, now)
    && Holds(was, after.categories, GraphQL, l.graphQL, now)
    && Holds(was, after.categories, Search, l.search, now)
    && Holds(was, after.categories, CodeSearch, l.codeSearch, now)
    && forall n :: Holds(was, after.categories, Other(n), None, now)
  }

  ghost function Known(states: States, org: string): Option<OrgState> {
    if org in states then Some(states[org]) else None
  }

  lemma SetAllRefreshes(states: States, org: string, appId: int, l: Limits, now: int)
    ensures Refreshed(Known(states, org), appId, l, now, SetAll(OrgOr(states, org, appId), now, l))
  {
  }

  lemma BlocksIff(cfg: Config, o: OrgState, c: Category, now: int)
    ensures Blocks(cfg, o, c, now) <==> exists until :: WaitsUntil(cfg, o, c, now, until)
    ensures forall until :: WaitsUntil(cfg, o, c, now, until) ==> until == now + Delay(cfg, o.categories[c], now)
  {
    if Blocks(cfg, o, c, now) {
      assert WaitsUntil(cfg, o, c, now, now + Delay(cfg, o.categories[c], now));
    }
  }

  lemma AskedIff(cats: seq<Category>, c: Category)
    ensures Asked(cats, c) <==> c in Evaluated(cats)
  {
  }

  /** Stalled means that some category asked about waits, and the longest wait ends when the last of them renews. */
  lemma StalledIff(cfg: Config, states: States, org: string, cats: seq<Category>, now: int)
    ensures Stalled(cfg, states, org, cats, now) <==>
            org in states && exists c, until :: Asked(cats, c) && WaitsUntil(cfg, states[org], c, now, until)
  {
    if org in states {
      forall c
        ensures Blocks(cfg, states[org], c, now) <==> exists until :: WaitsUntil(cfg, states[org], c, now, until)
        ensures Asked(cats, c) <==> c in Evaluated(cats)
      {
        BlocksIff(cfg, states[org], c, now);
        AskedIff(cats, c);
      }
    }
  }

  lemma LongestWaitEnds(cfg: Config, o: OrgState, cats: seq<Category>, now: int, delay: int)
    requires LongestWait(cfg, o, Evaluated(cats), now, delay)
    ensures LastToRenew(cfg, o, cats, now, now + delay)
  {
    forall c, until | Asked(cats, c) && WaitsUntil(cfg, o, c, now, until) ensures until <= now + delay {
      BlocksIff(cfg, o, c, now);
      AskedIff(cats, c);
    }
    var c :| c in Evaluated(cats) && Blocks(cfg, o, c, now) && Delay(cfg, o.categories[c], now) == delay;
    AskedIff(cats, c);
    assert WaitsUntil(cfg, o, c, now, now + delay);
  }

  class OrgRateLimitRegistry {
    var states: States
    const config: Config

    constructor (config: Config)
      ensures states == map[] && this.config == config
    {
      states := map[];
      this.config := config;
    }

    /** Unmonitored categories are ignored; no other organization and no other category is touched. */
    method Update(org: string, cat: Category, l: Limit, appId: int, now: int)
      modifies this
      ensures cat !in MONITORED ==> states == old(states)
      ensures cat in MONITORED ==>
                states == old(states)[org := SetCategory(OrgOr(old(states), org, appId), cat, now, Some(l))]
      ensures cat in {Core, GraphQL, Search, CodeSearch} ==>
                && org in states
                && states[org].appId == (if org in old(states) then old(states)[org].appId else appId)
                && states[org].categories ==
                   (if org in old(states) then old(states)[org].categories else map[])
                     [cat := CategoryState(l.remaining, l.limit, l.resetTime, now)]
      ensures forall o :: o != org ==> (o in states <==> o in old(states))
      ensures forall o :: o != org && o in states ==> states[o] == old(states)[o]
    {
      if cat !in MONITORED {
        return;
      }
      var state := OrgOr(states, org, appId);
      states := states[org := state.(categories := state.categories[cat := Record(now, l)])];
    }

    method UpdateFromRateLimitResponse(org: string, limits: Option<Limits>, appId: int, now: int)
      modifies this
      ensures limits.None? ==> states == old(states)
      ensures limits.Some? ==> states == old(states)[org := SetAll(OrgOr(old(states), org, appId), now, limits.value)]
      ensures limits.Some? ==>
                org in states && Refreshed(Known(old(states), org), appId, limits.value, now, states[org])
      ensures forall o :: o != org ==> (o in states <==> o in old(states))
      ensures forall o :: o != org && o in states ==> states[o] == old(states)[o]
    {
      if limits.None? {
        return;
      }
      var state := OrgOr(states, org, appId);
      state := SetCategory(state, Core, now, limits.value.core);
      state := SetCategory(state, GraphQL, now, limits.value.graphQL);
      state := SetCategory(state, Search, now, limits.value.search);
      state := SetCategory(state, CodeSearch, now, limits.value.codeSearch);
      SetAllRefreshes(states, org, appId, limits.value, now);
      states := states[org := state];
    }

    /** Stalled exactly when some evaluated category blocks; the delay is the longest wait among those. */
    method ShouldStall(org: string, cats: seq<Category>, now: int) returns (stalled: bool, delay: int)
      ensures stalled <==> Stalled(config, states, org, cats, now)
      ensures stalled ==> delay > 0 && LongestWait(config, states[org], Evaluated(cats), now, delay)
      ensures !stalled ==> delay == 0
      ensures stalled <==>
              org in states && exists c, until :: Asked(cats, c) && WaitsUntil(config, states[org], c, now, until)
      ensures stalled ==> LastToRenew(config, states[org], cats, now, now + delay)
    {
      stalled, delay := false, 0;
      StalledIff(config, states, org, cats, now);
      if org !in states {
        return;
      }
      var state := states[org];
      var evaluated := if |cats| == 0 then MONITORED else cats;
      for i := 0 to |evaluated|
        invariant Answer(config, state, evaluated[..i], now, stalled, delay)
      {
        var cat := evaluated[i];
        assert evaluated[..i + 1] == evaluated[..i] + [cat];
        AnswerMore(config, state, evaluated[..i], cat, now, stalled, delay);
        if cat in config.thresholds && cat in state.categories {
          var c := state.categories[cat];
          if c.remaining < config.thresholds[cat] {
            var d := Delay(config, c, now);
            if d > 0 {
              stalled := true;
              if d > delay {
                delay := d;
              }
            }
          }
        }
      }
      assert evaluated[..|evaluated|] == evaluated;
      if stalled {
        LongestWaitEnds(config, state, cats, now, delay);
      }
    }

    /** No category of the organization was updated within the threshold. */
    ghost predicate StaleAt(org: string, at: int)
      reads this
    {
      org in states ==>
        forall c :: c in states[org].categories ==> at - states[org].categories[c].lastUpdated > config.staleness
    }

    method IsStale(org: string, now: int) returns (stale: bool)
      ensures stale <==> StaleAt(org, now)
    {
      if org !in states {
        return true;
      }
      var categories := states[org].categories;
      var mostRecent: Option<int> := None;
      var rest := categories.Keys;
      while rest != {}
        invariant rest <= categories.Keys
        invariant mostRecent.None? <==> rest == categories.Keys
        invariant forall c :: c in categories && c !in rest ==> categories[c].lastUpdated <= WithDefault(mostRecent, 0)
        invariant mostRecent.Some? ==>
                    exists c :: c in categories && c !in rest && categories[c].lastUpdated == mostRecent.value
        decreases |rest|
      {
        var c :| c in rest;
        if mostRecent.None? || categories[c].lastUpdated > mostRecent.value {
          mostRecent := Some(categories[c].lastUpdated);
        }
        rest := rest - {c};
      }
      if mostRecent.None? {
        return true;
      }
      return now - mostRecent.value > config.staleness;
    }

    /** `ShouldStall` answered `delay` at time `checked`, and the reset time counts it from `raised` on. */
    ghost predicate RaisedFor(org: string, reset: int, checked: int, raised: int, delay: int)
      reads this
    {
      && org in states && Answer(config, states[org], Evaluated([]), checked, true, delay)
      && LastToRenew(config, states[org], [], checked, checked + delay)
      && reset == raised + delay
    }

    /** The data was stale and GitHub answered. */
    ghost predicate Refreshes(org: string, refresh: Option<Option<Limits>>, at: int)
      reads this
    {
      StaleAt(org, at) && refresh.Some?
    }

    /**
      `checkRateLimit`: None lets the reconciliation go on. `refresh` is the answer of GET /rate_limit, None on error;
      the clock is read at the times t[0] <= t[1] <= ... . A known stall is an error at once. Otherwise stale data is
      refreshed, and the refreshed state decides; data that is not stale, or cannot be refreshed, lets it go on.
     */
    method CheckRateLimit(org: string, appId: int, refresh: Option<Option<Limits>>, t: seq<int>)
      returns (resetTime: Option<int>)
      requires |t| == 6 && forall i :: 0 <= i < 5 ==> t[i] <= t[i + 1]
      modifies this
      ensures forall o :: o != org ==> (o in states <==> o in old(states))
      ensures forall o :: o != org && o in states ==> states[o] == old(states)[o]
      ensures old(Stalled(config, states, org, [], t[0])) ==>
                && states == old(states) && resetTime.Some?
                && exists delay :: RaisedFor(org, resetTime.value, t[0], t[1], delay)
      ensures !old(Stalled(config, states, org, [], t[0])) && !old(Refreshes(org, refresh, t[2])) ==>
                states == old(states) && resetTime.None?
      ensures !old(Stalled(config, states, org, [], t[0])) && old(Refreshes(org, refresh, t[2])) ==>
                && (refresh.value.None? ==> states == old(states))
                && (refresh.value.Some? ==>
                      org in states && Refreshed(Known(old(states), org), appId, refresh.value.value, t[3], states[org]))
                && (resetTime.Some? <==> Stalled(config, states, org, [], t[4]))
                && (resetTime.Some? ==> exists delay :: RaisedFor(org, resetTime.value, t[4], t[5], delay))
      ensures resetTime.Some? ==> forall later :: later >= resetTime.value ==> !Stalled(config, states, org, [], later)
    {
      var stalled, delay := ShouldStall(org, [], t[0]);
      if stalled {
        StallEnds(config, states, org, [], t[0], delay, t[1] + delay);
        assert RaisedFor(org, t[1] + delay, t[0], t[1], delay);
        return Some(t[1] + delay);
      }
      var stale := IsStale(org, t[2]);
      if stale && refresh.Some? {
        resetTime := RefreshAndCheck(org, appId, refresh.value, t[3], t[4], t[5]);
        return;
      }
      return None;
    }

    /** The slow path: record the response at `now` and look again. */
    method RefreshAndCheck(org: string, appId: int, limits: Option<Limits>, now: int, checked: int, raised: int)
      returns (resetTime: Option<int>)
      requires checked <= raised
      modifies this
      ensures forall o :: o != org ==> (o in states <==> o in old(states))
      ensures forall o :: o != org && o in states ==> states[o] == old(states)[o]
      ensures limits.None? ==> states == old(states)
      ensures limits.Some? ==>
                org in states && Refreshed(Known(old(states), org), appId, limits.value, now, states[org])
      ensures resetTime.Some? <==> Stalled(config, states, org, [], checked)
      ensures resetTime.Some? ==> exists delay :: RaisedFor(org, resetTime.value, checked, raised, delay)
      ensures resetTime.Some? ==> forall later :: later >= resetTime.value ==> !Stalled(config, states, org, [], later)
    {
      UpdateFromRateLimitResponse(org, limits, appId, now);
      var stalled, delay := ShouldStall(org, [], checked);
      if !stalled {
        return None;
      }
      StallEnds(config, states, org, [], checked, delay, raised + delay);
      assert RaisedFor(org, raised + delay, checked, raised, delay);
      return Some(raised + delay);
    }

    /**
      From the check to the requeue: an error of `checkRateLimit`, wrapped `depth` times on its way to the controller
      and handled there at time `now`, is requeued without backoff to a time from which on the organization is not
      stalled, if the registry is not updated meanwhile. A known stall leads there, and so does a response to stale data
      that is below a threshold; nothing else does.
     */
    method RequeueAfterCheck(org: string, appId: int, refresh: Option<Option<Limits>>, t: seq<int>, depth: nat, now: int)
      returns (decision: Option<Decision>)
      requires |t| == 6 && forall i :: 0 <= i < 5 ==> t[i] <= t[i + 1]
      modifies this
      ensures decision.Some? <==>
              || old(Stalled(config, states, org, [], t[0]))
              || (old(Refreshes(org, refresh, t[2])) && Stalled(config, states, org, [], t[4]))
      ensures old(Refreshes(org, refresh, t[2])) && refresh.value.Some? ==>
                forall c :: TooLow(config, refresh.value.value, c, t[4]) ==> decision.Some?
      ensures decision.Some? ==>
                && decision.value.err.None?
                && decision.value.requeueAfter >= 30
                && forall later :: later >= now + decision.value.requeueAfter ==> !Stalled(config, states, org, [], later)
    {
      var resetTime := CheckRateLimit(org, appId, refresh, t);
      ghost var renewed := !old(Stalled(config, states, org, [], t[0])) && old(Refreshes(org, refresh, t[2]));
      if renewed && refresh.value.Some? {
        TooLowStalls(config, states, org, old(Known(states, org)), appId, refresh.value.value, t[3], t[4]);
      }
      if resetTime.None? {
        return None;
      }
      ghost var checked := if renewed then t[4] else t[0];
      ghost var raised := if renewed then t[5] else t[1];
      ghost var delay :| RaisedFor(org, resetTime.value, checked, raised, delay);
      RequeueOutlastsStall(config, states, org, checked, delay, resetTime.value, depth, now);
      return Some(OnFactoryError(false, now, WrapTimes(RateLimited(resetTime.value), depth)));
    }
  }

  /** The limits of one category in a response. */
  function LimitOf(l: Limits, c: Category): Option<Limit> {
    match c
    case Core => l.core
    case GraphQL => l.graphQL
    case Search => l.search
    case CodeSearch => l.codeSearch
    case Other(_) => None
  }

  /** The response is below the threshold of the category, and its window renews after `at`. */
  ghost predicate TooLow(cfg: Config, l: Limits, c: Category, at: int) {
    && c in cfg.thresholds && LimitOf(l, c).Some?
    && LimitOf(l, c).value.remaining < cfg.thresholds[c]
    && at < LimitOf(l, c).value.resetTime + cfg.grace
  }

  lemma TooLowStalls(cfg: Config, states: States, org: string, before: Option<OrgState>, appId: int, l: Limits,
                     now: int, at: int)
    requires org in states && Refreshed(before, appId, l, now, states[org])
    ensures (exists c :: TooLow(cfg, l, c, at)) ==> Stalled(cfg, states, org, [], at)
  {
    if c :| TooLow(cfg, l, c, at) {
      StalledIff(cfg, states, org, [], at);
      assert Asked([], c) && WaitsUntil(cfg, states[org], c, at, LimitOf(l, c).value.resetTime + cfg.grace);
    }
  }

  // ---------------------------------------------------------------- the stall is as long as needed, and no longer

  /** From the end of the delay on, the organization is not stalled. */
  lemma StallEnds(cfg: Config, states: States, org: string, cats: seq<Category>, now: int, delay: int, reset: int)
    requires org in states && delay > 0 && LongestWait(cfg, states[org], Evaluated(cats), now, delay)
    requires reset >= now + delay
    ensures forall later :: later >= reset ==> !Stalled(cfg, states, org, cats, later)
  {
    forall later, c | later >= reset && c in Evaluated(cats) ensures !Blocks(cfg, states[org], c, later) {
      assert Blocks(cfg, states[org], c, later) ==> Blocks(cfg, states[org], c, now);
    }
  }

  /** Until then it is stalled all the time. */
  lemma StallLasts(cfg: Config, states: States, org: string, cats: seq<Category>, now: int, delay: int, t: int)
    requires org in states && LongestWait(cfg, states[org], Evaluated(cats), now, delay)
    requires now <= t < now + delay
    ensures Stalled(cfg, states, org, cats, t)
  {
    var c :| c in Evaluated(cats) && Blocks(cfg, states[org], c, now) &&
             Delay(cfg, states[org].categories[c], now) == delay;
    assert Blocks(cfg, states[org], c, t);
  }

  /**
    The requeue after a rate limit error outlasts the stall it was raised for: with the registry as it was when
    `ShouldStall` answered, the organization is not stalled from the requeue time on, however the error was wrapped and
    however long it took to get to the controller.
   */
  lemma {:induction false} RequeueOutlastsStall(cfg: Config, states: States, org: string, checked: int, delay: int,
                                                reset: int, depth: nat, now: int)
    requires org in states && Answer(cfg, states[org], Evaluated([]), checked, true, delay) && reset >= checked + delay
    ensures var d := OnFactoryError(false, now, WrapTimes(RateLimited(reset), depth));
            && d.err.None? && d.requeueAfter >= MIN_RATE_LIMIT_DELAY
            && forall later :: later >= now + d.requeueAfter ==> !Stalled(cfg, states, org, [], later)
  {
    WrappedResetTime(reset, depth);
    StallEnds(cfg, states, org, [], checked, delay, reset);
  }

  /** The factory's error carries the reset time through any wrapping. */
  lemma {:induction false} WrappedResetTime(reset: int, depth: nat)
    ensures ResetTime(WrapTimes(RateLimited(reset), depth)) == Some(reset)
  {
    FindWrapped(RateLimited(reset), depth, (x: Err) => x.RateLimited?);
    FindWrapped(RateLimited(reset), depth, (x: Err) => x.RateLimitReached?);
  }

  function WrapTimes(e: Err, depth: nat): Err {
    if depth == 0 then e else Wrapped(Some(WrapTimes(e, depth - 1)))
  }

  lemma {:induction false} FindWrapped(e: Err, depth: nat, wanted: Err -> bool)
    requires forall c :: !wanted(Wrapped(c))
    ensures FindFirst(WrapTimes(e, depth), wanted) == FindFirst(e, wanted)
  {
    if depth > 0 {
      FindWrapped(e, depth - 1, wanted);
    }
  }
}
