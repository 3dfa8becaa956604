/**
  `ChainResolver` of resolve.go: reads presets through a reader that may answer differently every time, keeps the ones
  it found, and resolves extends chains. `reader(name, t)` is the answer to the t-th read.
 */
module ChainResolver {
  import opened Collections
  import opened ChainFold
  import opened RulesetTypes
  import opened RulesetMerge
  import opened ExtendsChain

  /** A store that gives the answers in `answers`. */
  ghost predicate Explains(store: Store, answers: Store) {
    forall n :: n in answers ==> Lookup(store, n) == answers[n]
  }

  /** On every store that gives the answers, that is the outcome. */
  ghost predicate Yields(answers: Store, spec: RulesetSpec, self: string, outcome: Outcome) {
    forall s: Store :: Explains(s, answers) ==> Resolve(s, spec, self) == outcome
  }

  /** Some read of `name` was answered by `r`. */
  ghost predicate Answers(reader: (string, nat) -> Read, name: string, r: Read) {
    exists t: nat :: reader(name, t) == r
  }

  ghost predicate ReadFrom(reader: (string, nat) -> Read, answers: Store) {
    forall n :: n in answers ==> Answers(reader, n, answers[n])
  }

  class ChainResolver {
    const reader: (string, nat) -> Read
    var presets: map<string, Preset>
    var readCount: nat

    constructor (reader: (string, nat) -> Read)
      ensures this.reader == reader && presets == map[] && readCount == 0
    {
      this.reader := reader;
      presets, readCount := map[], 0;
    }

    /** The reader always answers from `store`, and so do the memoized presets. */
    ghost predicate Serves(store: Store)
      reads this
    {
      && (forall n, t: nat :: reader(n, t) == Lookup(store, n))
      && (forall n :: n in presets ==> Lookup(store, n) == Found(presets[n]))
    }

    /** Every memoized preset was an answer of the reader. */
    ghost predicate Honest()
      reads this
    {
      forall n :: n in presets ==> Answers(reader, n, Found(presets[n]))
    }

    lemma LearnedIsHonest(before: map<string, Preset>, from: nat, answers: Store)
      requires Learned(before, from, answers)
      requires forall n :: n in before ==> Answers(reader, n, Found(before[n]))
      ensures Honest() && ReadFrom(reader, answers)
    {
      forall n | n in answers ensures Answers(reader, n, answers[n]) {
        assert Answered(before, from, n, answers[n]);
      }
    }

    /** What a call that began with `before` and `from` reads done may have learned from `answers`. */
    ghost predicate Learned(before: map<string, Preset>, from: nat, answers: Store)
      reads this
    {
      && from <= readCount
      && (forall n :: n in before ==> n in presets && presets[n] == before[n])
      && (forall n :: n in presets ==> n in before || (n in answers && answers[n] == Found(presets[n])))
      && (forall n :: n in answers ==> Answered(before, from, n, answers[n]))
    }

    ghost predicate Answered(before: map<string, Preset>, from: nat, n: string, answer: Read)
      reads this
    {
      if n in before then answer == Found(before[n])
      else exists t: nat :: from <= t < readCount && answer == reader(n, t)
    }

    method GetPreset(name: string) returns (r: Read)
      modifies this
      ensures name in old(presets) ==> r == Found(old(presets)[name]) && presets == old(presets) && readCount == old(readCount)
      ensures name !in old(presets) ==>
                && r == reader(name, old(readCount))
                && readCount == old(readCount) + 1
                && presets == if r.Found? then old(presets)[name := r.preset] else old(presets)
    {
      if name in presets {
        return Found(presets[name]);
      }
      r := reader(name, readCount);
      readCount := readCount + 1;
      if r.Found? {
        presets := presets[name := r.preset];
      }
    }

    /** One read on the way up a chain, with what it adds to the answers of the running call. */
    method Ask(name: string, ghost before: map<string, Preset>, ghost from: nat, ghost answers: Store,
               ghost store: Store)
      returns (r: Read)
      requires Learned(before, from, answers) && name !in answers
      modifies this
      ensures Learned(before, from, answers[name := r])
      ensures old(Serves(store)) ==> Serves(store) && r == Lookup(store, name)
    {
      r := GetPreset(name);
      assert name !in before ==> name !in old(presets);
      assert Answered(before, from, name, r);
      forall n | n in answers ensures Answered(before, from, n, answers[n]) {
        assert old(Answered(before, from, n, answers[n]));
      }
    }

    /** One round of the walk of `Resolve`: the obstacle at `next`, or the preset read there. */
    method StepUp(spec: RulesetSpec, self: string, chain: seq<string>, seen: set<string>, next: string,
                  ghost before: map<string, Preset>, ghost from: nat, ghost answers0: Store, ghost store: Store)
      returns (obstacle: Option<Reason>, preset: Option<Preset>, ghost answers: Store)
      requires next != "" && seen == Elems(chain) + if self != "" then {self} else {}
      requires Progress(answers0, spec, self, chain, next) && Learned(before, from, answers0)
      modifies this
      ensures Learned(before, from, answers)
      ensures old(Serves(store)) && Explains(store, answers0) ==> Serves(store) && Explains(store, answers)
      ensures obstacle.Some? ==> Yields(answers, spec, self, Unresolved(spec.name, chain + [next], obstacle.value))
      ensures obstacle.None? ==>
                && |chain| < MAX_EXTENDS_DEPTH && preset.Some?
                && Progress(answers, spec, self, chain + [next], preset.value.spec.parent)
                && [spec] + Specs(answers, chain + [next]) == [spec] + Specs(answers0, chain) + [preset.value.spec]
    {
      answers, obstacle, preset := answers0, None, None;
      if next in seen {
        obstacle := Some(ExtendsCycle);
      } else if |chain| == MAX_EXTENDS_DEPTH {
        obstacle := Some(ExtendsTooDeep);
      } else {
        var r := Ask(next, before, from, answers0, store);
        GrowAnswers(answers0, spec, self, chain, next, r);
        answers := answers0[next := r];
        match r {
          case Missing => obstacle := Some(ParentNotFound);
          case Failed => obstacle := Some(ParentUnavailable);
          case Found(p) => preset := Some(p);
        }
      }
      if obstacle.Some? {
        BlockedFor(answers, spec, self, chain, next, obstacle.value);
      }
    }

    /** The walk of `Resolve`: the chain, the specs along it, and the obstacle if there is one. */
    method WalkUp(spec: RulesetSpec, self: string, ghost store: Store)
      returns (walked: Walked, specs: seq<RulesetSpec>, ghost answers: Store)
      modifies this
      ensures Learned(old(presets), old(readCount), answers)
      ensures old(Serves(store)) ==> Serves(store) && Explains(store, answers)
      ensures walked.Reached? ==>
                && Progress(answers, spec, self, walked.chain, "")
                && specs == [spec] + Specs(answers, walked.chain)
      ensures walked.Blocked? ==> Yields(answers, spec, self, Unresolved(spec.name, walked.chain, walked.reason))
    {
      specs := [spec];
      var chain: seq<string> := [];
      var seen: set<string> := if self != "" then {self} else {};
      var next := spec.parent;
      answers := map[];
      while next != ""
        invariant seen == Elems(chain) + if self != "" then {self} else {}
        invariant Progress(answers, spec, self, chain, next)
        invariant specs == [spec] + Specs(answers, chain)
        invariant Learned(old(presets), old(readCount), answers)
        invariant old(Serves(store)) ==> Serves(store) && Explains(store, answers)
        decreases MAX_EXTENDS_DEPTH - |chain|
      {
        var obstacle, preset;
        obstacle, preset, answers := StepUp(spec, self, chain, seen, next, old(presets), old(readCount), answers, store);
        if obstacle.Some? {
          return Blocked(chain + [next], obstacle.value), specs, answers;
        }
        ElemsSnoc(chain, next);
        seen := seen + {next};
        chain := chain + [next];
        specs := specs + [preset.value.spec];
        next := preset.value.spec.parent;
      }
      walked := Reached(chain);
    }

    /**
      The outcome is the one every store consistent with the answers received gives, each preset being asked for at
      most once; `store` stands for the presets of a reader that does not change.
     */
    method ResolveRuleset(spec: RulesetSpec, self: string, ghost store: Store)
      returns (outcome: Outcome, ghost answers: Store)
      modifies this
      ensures Learned(old(presets), old(readCount), answers)
      ensures old(Honest()) ==> Honest() && ReadFrom(reader, answers)
      ensures Yields(answers, spec, self, outcome)
      ensures old(Serves(store)) ==> Serves(store) && outcome == Resolve(store, spec, self)
    {
      var walked, specs;
      walked, specs, answers := WalkUp(spec, self, store);
      if old(Honest()) {
        LearnedIsHonest(old(presets), old(readCount), answers);
      }
      if walked.Blocked? {
        return Unresolved(spec.name, walked.chain, walked.reason), answers;
      }
      var result := FoldLoop(specs);
      outcome := Finish(spec.name, walked.chain, result);
      forall s: Store | Explains(s, answers) ensures Resolve(s, spec, self) == outcome {
        ExplainedPath(s, answers, spec, self, walked.chain);
        ResolveReached(s, spec, self, walked.chain);
      }
    }

    /**
      `Ancestors`: the presets of the chain with their names, as far as it can be walked, or a read error; what every
      store consistent with the answers received gives.
     */
    method FindAncestors(start: string, self: string, ghost store: Store)
      returns (found: Option<seq<Preset>>, names: seq<string>, ghost answers: Store)
      modifies this
      ensures Learned(old(presets), old(readCount), answers)
      ensures old(Honest()) ==> Honest() && ReadFrom(reader, answers)
      ensures old(Serves(store)) ==> Serves(store) && Explains(store, answers)
      ensures AncestorsAre(answers, start, self, if found.Some? then Some(names) else None) && self !in answers
      ensures found.Some? ==> PresetsOf(answers, names, found.value)
      ensures found.None? ==> exists n :: n in answers && answers[n] == Failed
    {
      var result: seq<Preset> := [];
      names, answers := [], map[];
      var seen: set<string> := if self != "" then {self} else {};
      var next := start;
      while next != "" && next !in seen && |result| < MAX_EXTENDS_DEPTH
        invariant |names| <= MAX_EXTENDS_DEPTH && PresetsOf(answers, names, result)
        invariant answers.Keys == Elems(names) && self !in answers
        invariant seen == Elems(names) + if self != "" then {self} else {}
        invariant AncestorsLead(answers, start, self, next, names)
        invariant Learned(old(presets), old(readCount), answers)
        invariant old(Serves(store)) ==> Serves(store) && Explains(store, answers)
        decreases MAX_EXTENDS_DEPTH - |result|
      {
        seen := seen + {next};
        var r := Ask(next, old(presets), old(readCount), answers, store);
        OneMoreAncestor(answers, start, self, next, names, r);
        PresetsStay(answers, next, r, names, result);
        answers := answers[next := r];
        assert next in answers && answers[next] == r;
        if !r.Found? {
          if old(Honest()) {
            LearnedIsHonest(old(presets), old(readCount), answers);
          }
          return if r.Missing? then Some(result) else None, names, answers;
        }
        names := names + [next];
        result := result + [r.preset];
        next := r.preset.spec.parent;
      }
      if old(Honest()) {
        LearnedIsHonest(old(presets), old(readCount), answers);
      }
      found := Some(result);
    }
  }

  /** On every store that gives the answers, the ancestors are those. */
  ghost predicate AncestorsAre(answers: Store, start: string, self: string, found: Option<seq<string>>) {
    forall s: Store :: Explains(s, answers) ==> Ancestors(s, start, self) == found
  }

  /** On every such store, the walk gets to `next` with `names` found. */
  ghost predicate AncestorsLead(answers: Store, start: string, self: string, next: string, names: seq<string>)
    requires |names| <= MAX_EXTENDS_DEPTH
  {
    forall s: Store :: Explains(s, answers) ==> Ancestors(s, start, self) == AncestorWalk(s, self, next, names)
  }

  lemma PresetsStay(answers: Store, next: string, r: Read, names: seq<string>, found: seq<Preset>)
    requires PresetsOf(answers, names, found) && next !in names
    ensures PresetsOf(answers[next := r], names, found)
    ensures r.Found? ==> PresetsOf(answers[next := r], names + [next], found + [r.preset])
  {
  }

  lemma OneMoreAncestor(answers: Store, start: string, self: string, next: string, names: seq<string>, r: Read)
    requires |names| < MAX_EXTENDS_DEPTH && AncestorsLead(answers, start, self, next, names)
    requires next != "" && next != self && next !in names && next !in answers
    ensures var more := answers[next := r];
            match r
            case Found(p) => AncestorsLead(more, start, self, p.spec.parent, names + [next])
            case Missing => AncestorsAre(more, start, self, Some(names))
            case Failed => AncestorsAre(more, start, self, None)
  {
    var more := answers[next := r];
    forall s: Store | Explains(s, more)
      ensures Explains(s, answers) && Lookup(s, next) == r
      ensures Ancestors(s, start, self) == AncestorWalk(s, self, next, names)
    {
      assert more[next] == r;
      forall n | n in answers ensures Lookup(s, n) == answers[n] {
        assert n in more;
      }
    }
  }

  /** The answers so far are exactly a clean path, and `next` is the name it leads to. */
  ghost predicate Progress(answers: Store, spec: RulesetSpec, self: string, chain: seq<string>, next: string) {
    && answers.Keys == Elems(chain)
    && CleanPath(answers, self, spec.parent, chain)
    && AllExist(answers, chain)
    && next == NextName(answers, spec.parent, chain)
  }

  ghost predicate PresetsOf(store: Store, names: seq<string>, found: seq<Preset>) {
    |found| == |names| && forall i :: 0 <= i < |names| ==> Lookup(store, names[i]) == Found(found[i])
  }

  /** The merge loop of `Resolve`, from the base to the ruleset itself. */
  method FoldLoop(specs: seq<RulesetSpec>) returns (result: RulesetSpec)
    requires |specs| > 0
    ensures result == FoldSpecs(specs)
  {
    var i := |specs| - 1;
    result := specs[i];
    while i > 0
      invariant 0 <= i < |specs|
      invariant result == FoldSpecs(specs[i..])
    {
      i := i - 1;
      result := MergeSpec(result, specs[i]);
      assert specs[i..][1..] == specs[i + 1..];
    }
    assert specs[0..] == specs;
  }

  /** A path walked on the answers is walked on every store that gives them. */
  lemma ExplainedPath(s: Store, answers: Store, spec: RulesetSpec, self: string, chain: seq<string>)
    requires Explains(s, answers)
    requires answers.Keys >= Elems(chain)
    requires CleanPath(answers, self, spec.parent, chain) && AllExist(answers, chain)
    ensures CleanPath(s, self, spec.parent, chain) && AllExist(s, chain)
    ensures NextName(s, spec.parent, chain) == NextName(answers, spec.parent, chain)
    ensures Specs(s, chain) == Specs(answers, chain)
  {
    forall i | 0 <= i < |chain| ensures Lookup(s, chain[i]) == Lookup(answers, chain[i]) {
      assert chain[i] in answers;
    }
    forall i | 0 <= i < |chain| ensures Linked(s, spec.parent, chain, i) {
      assert Linked(answers, spec.parent, chain, i);
    }
  }

  lemma BlockedFor(answers: Store, spec: RulesetSpec, self: string, chain: seq<string>, x: string, reason: Reason)
    requires Elems(chain) <= answers.Keys && AllExist(answers, chain)
    requires Obstacle(answers, self, spec.parent, chain, reason) && x == NextName(answers, spec.parent, chain)
    requires reason in {ParentNotFound, ParentUnavailable} ==> x in answers
    ensures Yields(answers, spec, self, Unresolved(spec.name, chain + [x], reason))
  {
    forall s: Store | Explains(s, answers)
      ensures Resolve(s, spec, self) == Unresolved(spec.name, chain + [x], reason)
    {
      ExplainedPath(s, answers, spec, self, chain);
      ResolveFailsIff(s, spec, self, chain, x, reason);
    }
  }

  lemma GrowAnswers(answers: Store, spec: RulesetSpec, self: string, chain: seq<string>, next: string, r: Read)
    requires Progress(answers, spec, self, chain, next)
    requires next != "" && next !in chain && next != self && |chain| < MAX_EXTENDS_DEPTH
    ensures var answers' := answers[next := r];
            && Elems(chain) <= answers'.Keys && AllExist(answers', chain)
            && CleanPath(answers', self, spec.parent, chain)
            && NextName(answers', spec.parent, chain) == next
            && (r.Found? ==>
                  && Progress(answers', spec, self, chain + [next], r.preset.spec.parent)
                  && Specs(answers', chain + [next]) == Specs(answers, chain) + [r.preset.spec])
  {
    var answers' := answers[next := r];
    assert Explains(answers', answers);
    ExplainedPath(answers', answers, spec, self, chain);
    if r.Found? {
      CleanPathSnoc(answers', self, spec.parent, chain, next);
    }
  }
}
