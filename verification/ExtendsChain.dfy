/**
  The extends walk of resolve.go over a fixed set of presets: what `Resolve` and `Ancestors` compute when every read
  of a preset gives the same answer. A name the store does not hold is a missing preset.
 */
module ExtendsChain {
  import opened Collections
  import opened ChainFold
  import opened RulesetTypes
  import opened RulesetMerge

  const MAX_EXTENDS_DEPTH: nat := 5
  const DEFAULT_TARGET := "branch"

  datatype Preset = Preset(spec: RulesetSpec, generation: int)

  /** The answer of one read: found, NotFound, or any other error. */
  datatype Read = Found(preset: Preset) | Missing | Failed

  type Store = map<string, Read>

  function Lookup(store: Store, name: string): Read {
    if name in store then store[name] else Missing
  }

  predicate Exists(store: Store, name: string) {
    Lookup(store, name).Found?
  }

  function SpecOf(store: Store, name: string): RulesetSpec
    requires Exists(store, name)
  {
    Lookup(store, name).preset.spec
  }

  /** The preset a preset extends; "" when it extends none or does not exist. */
  function ParentOf(store: Store, name: string): string {
    if Exists(store, name) then SpecOf(store, name).parent else ""
  }

  datatype Reason = ParentNotFound | ParentUnavailable | ExtendsCycle | ExtendsTooDeep | EnforcementMissing
  {
    /** All but a read error can only be fixed by changing a preset or the resource. */
    predicate UserActionRequired() {
      this != ParentUnavailable
    }
  }

  /** The error carries the ruleset's name, the walked presets nearest first, and the reason. */
  datatype Outcome = Resolved(spec: RulesetSpec) | Unresolved(ruleset: string, chain: seq<string>, reason: Reason)

  datatype Walked = Reached(chain: seq<string>) | Blocked(chain: seq<string>, reason: Reason)

  /** The loop of `Resolve` from the point where `chain` has been walked and `next` is to be read. */
  function Walk(store: Store, self: string, next: string, chain: seq<string>): Walked
    requires |chain| <= MAX_EXTENDS_DEPTH
    decreases MAX_EXTENDS_DEPTH - |chain|
  {
    if next == "" then Reached(chain)
    else if next in chain || next == self then Blocked(chain + [next], ExtendsCycle)
    else if |chain| == MAX_EXTENDS_DEPTH then Blocked(chain + [next], ExtendsTooDeep)
    else
      match Lookup(store, next)
      case Missing => Blocked(chain + [next], ParentNotFound)
      case Failed => Blocked(chain + [next], ParentUnavailable)
      case Found(p) => Walk(store, self, p.spec.parent, chain + [next])
  }

  predicate AllExist(store: Store, names: seq<string>) {
    forall i :: 0 <= i < |names| ==> Exists(store, names[i])
  }

  function Specs(store: Store, names: seq<string>): seq<RulesetSpec>
    requires AllExist(store, names)
  {
    seq(|names|, i requires 0 <= i < |names| => SpecOf(store, names[i]))
  }

  /** The end of `Resolve`: clear extends, default the target, insist on an enforcement. */
  function Finish(ruleset: string, chain: seq<string>, merged: RulesetSpec): Outcome {
    if merged.enforcement == "" then Unresolved(ruleset, chain, EnforcementMissing)
    else Resolved(merged.(parent := "", target := if merged.target == "" then DEFAULT_TARGET else merged.target))
  }

  function Resolve(store: Store, spec: RulesetSpec, self: string): Outcome {
    WalkIsClean(store, self, spec.parent, spec.parent, []);
    match Walk(store, self, spec.parent, [])
    case Blocked(chain, reason) => Unresolved(spec.name, chain, reason)
    case Reached(chain) => Finish(spec.name, chain, FoldSpecs([spec] + Specs(store, chain)))
  }

  // ---------------------------------------------------------------- walks described without walking

  /** The name the walk wants after `names`. */
  function NextName(store: Store, start: string, names: seq<string>): string {
    if names == [] then start else ParentOf(store, names[|names| - 1])
  }

  /** `names` are existing presets, each extended by the one before it, the first one being `start`. */
  ghost predicate Ascends(store: Store, start: string, names: seq<string>) {
    forall i :: 0 <= i < |names| ==> Linked(store, start, names, i)
  }

  ghost predicate Linked(store: Store, start: string, names: seq<string>, i: nat)
    requires i < |names|
  {
    && names[i] != ""
    && Exists(store, names[i])
    && names[i] == if i == 0 then start else ParentOf(store, names[i - 1])
  }

  /** A path of distinct presets, none of them the ruleset's own, no longer than allowed. */
  ghost predicate CleanPath(store: Store, self: string, start: string, names: seq<string>) {
    && Ascends(store, start, names)
    && NoDup(names)
    && self !in names
    && |names| <= MAX_EXTENDS_DEPTH
  }

  /** Why a clean path cannot be continued. */
  ghost predicate Obstacle(store: Store, self: string, start: string, names: seq<string>, reason: Reason) {
    && CleanPath(store, self, start, names)
    && var x := NextName(store, start, names);
       && x != ""
       && match reason
          case ExtendsCycle => x in names || x == self
          case ExtendsTooDeep => x !in names && x != self && |names| == MAX_EXTENDS_DEPTH
          case ParentNotFound =>
            x !in names && x != self && |names| < MAX_EXTENDS_DEPTH && Lookup(store, x).Missing?
          case ParentUnavailable =>
            x !in names && x != self && |names| < MAX_EXTENDS_DEPTH && Lookup(store, x).Failed?
          case EnforcementMissing => false
  }

  lemma CleanPathSnoc(store: Store, self: string, start: string, names: seq<string>, x: string)
    requires CleanPath(store, self, start, names)
    requires x == NextName(store, start, names) && x != "" && x !in names && x != self
    requires |names| < MAX_EXTENDS_DEPTH && Exists(store, x)
    ensures CleanPath(store, self, start, names + [x])
    ensures NextName(store, start, names + [x]) == SpecOf(store, x).parent
  {
    forall i | 0 <= i < |names + [x]| ensures Linked(store, start, names + [x], i) {
      assert i < |names| ==> Linked(store, start, names, i);
    }
  }

  lemma CleanPathPrefix(store: Store, self: string, start: string, names: seq<string>, i: nat)
    requires CleanPath(store, self, start, names) && i <= |names|
    ensures CleanPath(store, self, start, names[..i])
    ensures i < |names| ==> NextName(store, start, names[..i]) == names[i]
  {
    forall j | 0 <= j < i ensures Linked(store, start, names[..i], j) {
      assert Linked(store, start, names, j);
    }
    assert i < |names| ==> Linked(store, start, names, i);
  }

  lemma CleanPathExists(store: Store, self: string, start: string, names: seq<string>)
    requires CleanPath(store, self, start, names)
    ensures AllExist(store, names)
  {
    forall i | 0 <= i < |names| ensures Exists(store, names[i]) {
      assert Linked(store, start, names, i);
    }
  }

  /** The walk follows every clean path from the start. */
  lemma {:induction false} WalkAlong(store: Store, self: string, start: string, names: seq<string>)
    requires CleanPath(store, self, start, names)
    ensures Walk(store, self, start, []) == Walk(store, self, NextName(store, start, names), names)
    decreases |names|
  {
    if names != [] {
      var init, x := names[..|names| - 1], names[|names| - 1];
      assert names == init + [x];
      CleanPathPrefix(store, self, start, names, |names| - 1);
      assert Linked(store, start, names, |names| - 1);
      WalkAlong(store, self, start, init);
    }
  }

  /** The walk ends on a clean path: all of it when the end is reached, all but the obstacle otherwise. */
  lemma {:induction false} WalkIsClean(store: Store, self: string, start: string, next: string, names: seq<string>)
    requires CleanPath(store, self, start, names)
    requires next == NextName(store, start, names)
    ensures match Walk(store, self, next, names)
            case Reached(chain) =>
              && CleanPath(store, self, start, chain)
              && NextName(store, start, chain) == ""
              && AllExist(store, chain)
            case Blocked(chain, reason) =>
              && chain != []
              && Obstacle(store, self, start, chain[..|chain| - 1], reason)
              && chain[|chain| - 1] == NextName(store, start, chain[..|chain| - 1])
    decreases MAX_EXTENDS_DEPTH - |names|
  {
    assert (names + [next])[..|names|] == names;
    CleanPathExists(store, self, start, names);
    if next != "" && next !in names && next != self && |names| < MAX_EXTENDS_DEPTH && Exists(store, next) {
      CleanPathSnoc(store, self, start, names, next);
      WalkIsClean(store, self, start, SpecOf(store, next).parent, names + [next]);
    }
  }

  /** The walk reaches the end exactly along a clean path that extends nothing further. */
  lemma {:induction false} WalkReachesIff(store: Store, self: string, start: string, names: seq<string>)
    ensures Walk(store, self, start, []) == Reached(names) <==>
            CleanPath(store, self, start, names) && NextName(store, start, names) == ""
  {
    WalkIsClean(store, self, start, start, []);
    if CleanPath(store, self, start, names) {
      WalkAlong(store, self, start, names);
    }
  }

  /** The walk is blocked exactly at the first obstacle after a clean path. */
  lemma {:induction false} WalkBlockedIff(store: Store, self: string, start: string, names: seq<string>, x: string,
                                          reason: Reason)
    ensures Walk(store, self, start, []) == Blocked(names + [x], reason) <==>
            Obstacle(store, self, start, names, reason) && x == NextName(store, start, names)
  {
    WalkIsClean(store, self, start, start, []);
    assert (names + [x])[..|names|] == names;
    if Obstacle(store, self, start, names, reason) {
      WalkAlong(store, self, start, names);
    }
  }

  // ---------------------------------------------------------------- the exact outcome of Resolve

  /** Some ruleset of the chain sets enforcement. */
  ghost predicate EnforcementSet(specs: seq<RulesetSpec>) {
    exists i :: 0 <= i < |specs| && specs[i].enforcement != ""
  }

  lemma FoldEnforcement(specs: seq<RulesetSpec>)
    requires |specs| > 0
    ensures FoldSpecs(specs).enforcement != "" <==> EnforcementSet(specs)
  {
    EffectiveScalars(specs);
    NearestSetEmpty(MapSeq(EnforcementOf, specs));
  }

  /** Success: the walk ends within five distinct existing presets and some ruleset sets enforcement. */
  lemma ResolveSucceedsIff(store: Store, spec: RulesetSpec, self: string)
    ensures Resolve(store, spec, self).Resolved? <==>
            exists names :: && CleanPath(store, self, spec.parent, names)
                            && AllExist(store, names)
                            && NextName(store, spec.parent, names) == ""
                            && EnforcementSet([spec] + Specs(store, names))
  {
    WalkIsClean(store, self, spec.parent, spec.parent, []);
    forall names | CleanPath(store, self, spec.parent, names) && NextName(store, spec.parent, names) == ""
      ensures Walk(store, self, spec.parent, []) == Reached(names)
      ensures AllExist(store, names)
      ensures FoldSpecs([spec] + Specs(store, names)).enforcement != "" <==>
              EnforcementSet([spec] + Specs(store, names))
    {
      WalkReachesIff(store, self, spec.parent, names);
      CleanPathExists(store, self, spec.parent, names);
      FoldEnforcement([spec] + Specs(store, names));
    }
  }

  /** Failure: the error names the first obstacle, and its chain is the walked path plus the obstacle. */
  lemma ResolveFailsIff(store: Store, spec: RulesetSpec, self: string, names: seq<string>, x: string, reason: Reason)
    requires reason != EnforcementMissing
    ensures Resolve(store, spec, self) == Unresolved(spec.name, names + [x], reason) <==>
            Obstacle(store, self, spec.parent, names, reason) && x == NextName(store, spec.parent, names)
  {
    WalkBlockedIff(store, self, spec.parent, names, x, reason);
    WalkIsClean(store, self, spec.parent, spec.parent, []);
  }

  lemma ResolveLacksEnforcementIff(store: Store, spec: RulesetSpec, self: string, names: seq<string>)
    ensures Resolve(store, spec, self) == Unresolved(spec.name, names, EnforcementMissing) <==>
            && CleanPath(store, self, spec.parent, names)
            && AllExist(store, names)
            && NextName(store, spec.parent, names) == ""
            && !EnforcementSet([spec] + Specs(store, names))
  {
    WalkReachesIff(store, self, spec.parent, names);
    WalkIsClean(store, self, spec.parent, spec.parent, []);
    if CleanPath(store, self, spec.parent, names) {
      CleanPathExists(store, self, spec.parent, names);
      FoldEnforcement([spec] + Specs(store, names));
    }
  }

  // ---------------------------------------------------------------- locality

  /** The presets a walk from `next` reads. */
  ghost function ReadNames(store: Store, self: string, next: string, chain: seq<string>): set<string>
    requires |chain| <= MAX_EXTENDS_DEPTH
    decreases MAX_EXTENDS_DEPTH - |chain|
  {
    if next == "" || next in chain || next == self || |chain| == MAX_EXTENDS_DEPTH then {}
    else if Exists(store, next) then {next} + ReadNames(store, self, SpecOf(store, next).parent, chain + [next])
    else {next}
  }

  lemma {:induction false} ReadNamesAreWalked(store: Store, self: string, next: string, chain: seq<string>)
    requires |chain| <= MAX_EXTENDS_DEPTH
    ensures var w := Walk(store, self, next, chain);
            && chain <= w.chain
            && (w.Reached? ==> forall n :: n in w.chain ==> n in chain || n in ReadNames(store, self, next, chain))
    decreases MAX_EXTENDS_DEPTH - |chain|
  {
    if next != "" && next !in chain && next != self && |chain| < MAX_EXTENDS_DEPTH && Exists(store, next) {
      ReadNamesAreWalked(store, self, SpecOf(store, next).parent, chain + [next]);
    }
  }

  lemma {:induction false} WalkIsLocal(store: Store, store': Store, self: string, next: string, chain: seq<string>)
    requires |chain| <= MAX_EXTENDS_DEPTH
    requires forall n :: n in ReadNames(store, self, next, chain) ==> Lookup(store, n) == Lookup(store', n)
    ensures Walk(store, self, next, chain) == Walk(store', self, next, chain)
    decreases MAX_EXTENDS_DEPTH - |chain|
  {
    if next != "" && next !in chain && next != self && |chain| < MAX_EXTENDS_DEPTH {
      assert next in ReadNames(store, self, next, chain);
      if Exists(store, next) {
        WalkIsLocal(store, store', self, SpecOf(store, next).parent, chain + [next]);
      }
    }
  }

  /** The outcome depends on nothing but the presets the walk reads. */
  lemma {:induction false} ResolveIsLocal(store: Store, store': Store, spec: RulesetSpec, self: string)
    requires forall n :: n in ReadNames(store, self, spec.parent, []) ==> Lookup(store, n) == Lookup(store', n)
    ensures Resolve(store, spec, self) == Resolve(store', spec, self)
  {
    WalkIsLocal(store, store', self, spec.parent, []);
    WalkIsClean(store, self, spec.parent, spec.parent, []);
    WalkIsClean(store', self, spec.parent, spec.parent, []);
    var w := Walk(store, self, spec.parent, []);
    if w.Reached? {
      ReadNamesAreWalked(store, self, spec.parent, []);
      assert Specs(store, w.chain) == Specs(store', w.chain);
    }
  }

  // ---------------------------------------------------------------- Ancestors

  /** The loop of `Ancestors`: the presets found, or None after an unexpected read error. */
  function AncestorWalk(store: Store, self: string, next: string, found: seq<string>): Option<seq<string>>
    requires |found| <= MAX_EXTENDS_DEPTH
    decreases MAX_EXTENDS_DEPTH - |found|
  {
    if next == "" || next == self || next in found || |found| == MAX_EXTENDS_DEPTH then Some(found)
    else
      match Lookup(store, next)
      case Missing => Some(found)
      case Failed => None
      case Found(p) => AncestorWalk(store, self, p.spec.parent, found + [next])
  }

  function Ancestors(store: Store, start: string, self: string): Option<seq<string>> {
    AncestorWalk(store, self, start, [])
  }

  /** `Ancestors` is `Resolve`'s walk up to its obstacle; it fails exactly where `Resolve` finds a preset unreadable. */
  lemma {:induction false} AncestorsMirrorWalk(store: Store, self: string, next: string, chain: seq<string>)
    requires |chain| <= MAX_EXTENDS_DEPTH
    ensures AncestorWalk(store, self, next, chain) ==
            match Walk(store, self, next, chain)
            case Reached(c) => Some(c)
            case Blocked(c, reason) =>
              if reason == ParentUnavailable || c == [] then None else Some(c[..|c| - 1])
    decreases MAX_EXTENDS_DEPTH - |chain|
  {
    assert (chain + [next])[..|chain|] == chain;
    if Exists(store, next) && |chain| < MAX_EXTENDS_DEPTH {
      AncestorsMirrorWalk(store, self, SpecOf(store, next).parent, chain + [next]);
    }
  }

  // ---------------------------------------------------------------- flattening

  /** A clean path continues cleanly from any of its members, with that member as the ruleset's own name. */
  lemma CleanPathTail(store: Store, self: string, start: string, names: seq<string>, i: nat)
    requires CleanPath(store, self, start, names) && i < |names|
    requires Exists(store, names[i])
    ensures CleanPath(store, names[i], SpecOf(store, names[i]).parent, names[i + 1..])
    ensures NextName(store, SpecOf(store, names[i]).parent, names[i + 1..]) == NextName(store, start, names)
  {
    var q, tail := names[i], names[i + 1..];
    assert Linked(store, start, names, i);
    forall j | 0 <= j < |tail| ensures Linked(store, SpecOf(store, q).parent, tail, j) {
      assert Linked(store, start, names, i + 1 + j);
    }
  }

  /** Replacing a preset that stands on a clean path by one that extends nothing ends the path there. */
  lemma CleanPathCut(store: Store, store': Store, self: string, start: string, names: seq<string>, i: nat)
    requires CleanPath(store, self, start, names) && i < |names|
    requires forall n :: n != names[i] ==> Lookup(store', n) == Lookup(store, n)
    requires Exists(store', names[i]) && SpecOf(store', names[i]).parent == ""
    ensures CleanPath(store', self, start, names[..i + 1])
    ensures NextName(store', start, names[..i + 1]) == ""
  {
    var cut := names[..i + 1];
    forall j | 0 <= j < |cut| ensures Linked(store', start, cut, j) {
      assert Linked(store, start, names, j);
      assert j > 0 ==> names[j - 1] != names[i];
    }
  }

  /** Clearing extends and defaulting the target of the far end of a chain is invisible to the finished ruleset. */
  lemma FinishAfterFlatten(ruleset: string, chain: seq<string>, chain': seq<string>, near: seq<RulesetSpec>,
                           far: seq<RulesetSpec>, flat: RulesetSpec)
    requires |near| > 0 && |far| > 0
    requires flat == FoldSpecs(far).(parent := "", target := flat.target)
    requires flat.target == if FoldSpecs(far).target == "" then DEFAULT_TARGET else FoldSpecs(far).target
    requires Finish(ruleset, chain, FoldSpecs(near + far)).Resolved?
    ensures Finish(ruleset, chain', FoldSpecs(near + [flat])) == Finish(ruleset, chain, FoldSpecs(near + far))
  {
    var m := FoldSpecs(far);
    FoldPrefix(near, far, [m], MergeSpec);
    FlattenEnd(near, m, flat);
    TargetOfEnd(near, m);
    TargetOfEnd(near, flat);
  }

  /** The target at the far end counts only if no nearer ruleset sets one. */
  lemma TargetOfEnd(near: seq<RulesetSpec>, m: RulesetSpec)
    ensures FoldSpecs(near + [m]).target ==
            if NearestSet(MapSeq(TargetOf, near)) != "" then NearestSet(MapSeq(TargetOf, near)) else m.target
  {
    EffectiveScalars(near + [m]);
    NearestSetAppend(MapSeq(TargetOf, near), m.target);
    assert MapSeq(TargetOf, near + [m]) == MapSeq(TargetOf, near) + [m.target];
  }

  lemma {:induction false} NearestSetAppend(values: seq<string>, v: string)
    ensures NearestSet(values + [v]) == if NearestSet(values) != "" then NearestSet(values) else v
  {
    if values == [] {
      assert (values + [v])[1..] == [];
    } else {
      assert (values + [v])[1..] == values[1..] + [v];
      NearestSetAppend(values[1..], v);
    }
  }

  lemma {:induction false} FlattenEnd(near: seq<RulesetSpec>, m: RulesetSpec, flat: RulesetSpec)
    requires |near| > 0
    requires flat == m.(parent := flat.parent, target := flat.target)
    ensures var a, b := FoldSpecs(near + [m]), FoldSpecs(near + [flat]);
            b == a.(target := b.target)
  {
    var xs, ys := near[1..] + [m], near[1..] + [flat];
    assert (near + [m])[1..] == xs && (near + [flat])[1..] == ys;
    assert FoldSpecs(near + [m]) == MergeSpec(FoldSpecs(xs), near[0]);
    assert FoldSpecs(near + [flat]) == MergeSpec(FoldSpecs(ys), near[0]);
    if |near| == 1 {
      assert xs == [m] && ys == [flat];
    } else {
      FlattenEnd(near[1..], m, flat);
    }
  }

  /**
    Flattening preserves meaning: replacing a resolvable preset by its own effective ruleset leaves the effective
    ruleset of everything that resolved before unchanged.
   */
  lemma FlatteningPreservesMeaning(store: Store, q: string, generation: int, spec: RulesetSpec, self: string)
    requires Exists(store, q)
    requires Resolve(store, SpecOf(store, q), q).Resolved?
    requires Resolve(store, spec, self).Resolved?
    ensures var flat := Resolve(store, SpecOf(store, q), q).spec;
            Resolve(store[q := Found(Preset(flat, generation))], spec, self) == Resolve(store, spec, self)
  {
    var flat := Resolve(store, SpecOf(store, q), q).spec;
    var store' := store[q := Found(Preset(flat, generation))];
    WalkIsClean(store, self, spec.parent, spec.parent, []);
    var names := Walk(store, self, spec.parent, []).chain;
    if q !in names {
      ReadNamesWithin(store, self, spec.parent, []);
      ResolveIsLocal(store, store', spec, self);
    } else {
      var i :| 0 <= i < |names| && names[i] == q;
      FlattenedWalk(store, store', spec, self, names, i);
    }
  }

  /** A walk that reaches the end reads only the chain it returns. */
  lemma {:induction false} ReadNamesWithin(store: Store, self: string, next: string, chain: seq<string>)
    requires |chain| <= MAX_EXTENDS_DEPTH
    requires Walk(store, self, next, chain).Reached?
    ensures forall n :: n in ReadNames(store, self, next, chain) ==> n in Walk(store, self, next, chain).chain
    decreases MAX_EXTENDS_DEPTH - |chain|
  {
    if next != "" {
      ReadNamesWithin(store, self, SpecOf(store, next).parent, chain + [next]);
      ReadNamesAreWalked(store, self, SpecOf(store, next).parent, chain + [next]);
      assert Walk(store, self, next, chain).chain[|chain|] == next;
    }
  }

  lemma ResolveReached(store: Store, spec: RulesetSpec, self: string, names: seq<string>)
    requires CleanPath(store, self, spec.parent, names) && NextName(store, spec.parent, names) == ""
    ensures AllExist(store, names)
    ensures Resolve(store, spec, self) == Finish(spec.name, names, FoldSpecs([spec] + Specs(store, names)))
  {
    CleanPathExists(store, self, spec.parent, names);
    WalkReachesIff(store, self, spec.parent, names);
  }

  lemma SpecsSplit(store: Store, store': Store, spec: RulesetSpec, names: seq<string>, i: nat)
    requires i < |names| && AllExist(store, names) && Exists(store', names[i]) && NoDup(names)
    requires forall n :: n != names[i] ==> Lookup(store', n) == Lookup(store, n)
    ensures [spec] + Specs(store, names) ==
            ([spec] + Specs(store, names[..i])) + ([SpecOf(store, names[i])] + Specs(store, names[i + 1..]))
    ensures AllExist(store', names[..i + 1])
    ensures [spec] + Specs(store', names[..i + 1]) == ([spec] + Specs(store, names[..i])) + [SpecOf(store', names[i])]
  {
  }

  lemma FlattenedWalk(store: Store, store': Store, spec: RulesetSpec, self: string, names: seq<string>, i: nat)
    requires i < |names| && Exists(store, names[i]) && Exists(store', names[i])
    requires CleanPath(store, self, spec.parent, names) && NextName(store, spec.parent, names) == ""
    requires Resolve(store, SpecOf(store, names[i]), names[i]) == Resolved(SpecOf(store', names[i]))
    requires Resolve(store, spec, self).Resolved?
    requires forall n :: n != names[i] ==> Lookup(store', n) == Lookup(store, n)
    ensures Resolve(store', spec, self) == Resolve(store, spec, self)
  {
    var q, tail, cut := names[i], names[i + 1..], names[..i + 1];
    var flat := SpecOf(store', q);
    ResolveReached(store, spec, self, names);
    CleanPathTail(store, self, spec.parent, names, i);
    ResolveReached(store, SpecOf(store, q), q, tail);
    CleanPathCut(store, store', self, spec.parent, names, i);
    ResolveReached(store', spec, self, cut);
    var near := [spec] + Specs(store, names[..i]);
    var far := [SpecOf(store, q)] + Specs(store, tail);
    SpecsSplit(store, store', spec, names, i);
    FinishAfterFlatten(spec.name, names, cut, near, far, flat);
  }
}
