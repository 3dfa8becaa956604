/** `Collect` (common/rulesets/collect.go): the desired rulesets of an owner from its references and inline rulesets. */
module RulesetCollect {
  import opened Collections
  import opened KeyedMerge
  import opened ChainFold
  import opened RulesetTypes
  import opened RulesetMerge
  import opened ExtendsChain
  import opened MergeDefinitions
  import Resolver = ChainResolver

  /** The UnresolvedError of a definition: the walked chain and the reason. */
  datatype Unresolvable = Unresolvable(chain: seq<string>, reason: Reason)

  datatype Desired =
    Desired(source: string, spec: RulesetSpec, unresolved: Option<Unresolvable>, raw: RulesetSpec)

  datatype Collection =
    | Collected(desired: seq<Desired>)
    | ReferenceUnreadable(name: string, read: Read)
    | Conflicting(conflicts: seq<Conflict>)

  function PresetSource(name: string): string { "rulesetPreset/" + name }

  function InlineSource(i: int): string { "inline[" + FormatInt(i) + "]" }

  /** `resolveDesired`. */
  function ToDesired(source: string, raw: RulesetSpec, outcome: Outcome): Desired {
    match outcome
    case Resolved(spec) => Desired(source, spec, None, raw)
    case Unresolved(_, chain, reason) => Desired(source, raw, Some(Unresolvable(chain, reason)), raw)
  }

  function NameOf(d: Desired): string { d.spec.name }

  function SourceOf(d: Desired): string { d.source }

  /** Definitions are compared resolved if both are, and as written otherwise. */
  predicate SameDefinition(a: Desired, b: Desired) {
    if a.unresolved.None? && b.unresolved.None? then a.spec == b.spec else a.raw == b.raw
  }

  /** The last unresolved candidate of each name. */
  function LastUnresolved(cs: seq<Desired>): map<string, Desired> {
    if cs == [] then map[]
    else
      var n := |cs| - 1;
      var m := LastUnresolved(cs[..n]);
      if cs[n].unresolved.Some? then m[NameOf(cs[n]) := cs[n]] else m
  }

  function Marked(unresolved: map<string, Desired>, d: Desired): Desired {
    if NameOf(d) in unresolved && d.unresolved.None?
    then d.(spec := unresolved[NameOf(d)].spec, unresolved := unresolved[NameOf(d)].unresolved)
    else d
  }

  /** What `Collect` returns for these candidates once there are no conflicts. */
  function Outcomes(cs: seq<Desired>): seq<Desired> {
    MapSeq(d => Marked(LastUnresolved(cs), d), FirstPerKey(cs, NameOf))
  }

  // ---------------------------------------------------------------- the code

  /** `markUnresolvedDuplicates` overwrites elements of the result in place. */
  method MarkUnresolvedDuplicates(cs: seq<Desired>, result: array<Desired>)
    modifies result
    ensures result[..] == MapSeq(d => Marked(LastUnresolved(cs), d), old(result[..]))
  {
    var unresolved: map<string, Desired> := map[];
    for i := 0 to |cs|
      invariant unresolved == LastUnresolved(cs[..i])
      invariant result[..] == old(result[..])
    {
      assert cs[..i + 1][..i] == cs[..i];
      if cs[i].unresolved.Some? {
        unresolved := unresolved[NameOf(cs[i]) := cs[i]];
      }
    }
    assert cs[..|cs|] == cs;
    for i := 0 to result.Length
      invariant forall j :: 0 <= j < i ==> result[j] == Marked(unresolved, old(result[..])[j])
      invariant forall j :: i <= j < result.Length ==> result[j] == old(result[..])[j]
    {
      if NameOf(result[i]) in unresolved && result[i].unresolved.None? {
        var u := unresolved[NameOf(result[i])];
        result[i] := result[i].(spec := u.spec, unresolved := u.unresolved);
      }
    }
  }

  function RefCandidate(store: Store, r: string): Desired
    requires Exists(store, r)
  {
    ToDesired(PresetSource(r), SpecOf(store, r), Resolve(store, SpecOf(store, r), r))
  }

  function InlineCandidate(store: Store, i: int, rs: RulesetSpec): Desired {
    ToDesired(InlineSource(i), rs, Resolve(store, rs, ""))
  }

  /** The candidates of a reader that does not change. */
  function Candidates(store: Store, refs: seq<string>, inlined: seq<RulesetSpec>): (cs: seq<Desired>)
    requires AllExist(store, refs)
    ensures |cs| == |refs| + |inlined|
  {
    RefPart(store, refs) + InlinePart(store, inlined)
  }

  function RefPart(store: Store, refs: seq<string>): (cs: seq<Desired>)
    requires AllExist(store, refs)
    ensures |cs| == |refs|
    ensures forall i :: 0 <= i < |refs| ==> cs[i] == RefCandidate(store, refs[i])
  {
    seq(|refs|, i requires 0 <= i < |refs| && Exists(store, refs[i]) => RefCandidate(store, refs[i]))
  }

  function InlinePart(store: Store, inlined: seq<RulesetSpec>): (cs: seq<Desired>)
    ensures |cs| == |inlined|
    ensures forall i :: 0 <= i < |inlined| ==> cs[i] == InlineCandidate(store, i, inlined[i])
  {
    seq(|inlined|, i requires 0 <= i < |inlined| => InlineCandidate(store, i, inlined[i]))
  }

  lemma InlinePartNext(store: Store, inlined: seq<RulesetSpec>, i: nat)
    requires i < |inlined|
    ensures InlinePart(store, inlined[..i + 1]) == InlinePart(store, inlined[..i]) + [InlineCandidate(store, i, inlined[i])]
  {
  }

  /** Every candidate keeps the name of its definition, and an unresolved one is the definition itself. */
  ghost predicate WellFormed(cs: seq<Desired>) {
    forall c :: c in cs ==> c.spec.name == c.raw.name && (c.unresolved.Some? ==> c.spec == c.raw)
  }

  lemma ToDesiredKeepsName(source: string, raw: RulesetSpec, store: Store, self: string)
    ensures var c := ToDesired(source, raw, Resolve(store, raw, self));
            c.spec.name == c.raw.name && (c.unresolved.Some? ==> c.spec == c.raw)
  {
    WalkIsClean(store, self, raw.parent, raw.parent, []);
    var w := Walk(store, self, raw.parent, []);
    if w.Reached? {
      EffectiveScalars([raw] + Specs(store, w.chain));
    }
  }

  /** `c` is the definition `raw` resolved with answers the reader gave. */
  ghost predicate Derived(reader: (string, nat) -> Read, source: string, raw: RulesetSpec, self: string, c: Desired) {
    exists s: Store :: Resolver.ReadFrom(reader, s) && c == ToDesired(source, raw, Resolve(s, raw, self))
  }

  ghost predicate RefDerived(reader: (string, nat) -> Read, r: string, c: Desired) {
    exists p: Preset :: Resolver.Answers(reader, r, Found(p)) && Derived(reader, PresetSource(r), p.spec, r, c)
  }

  /** One candidate per reference and inline ruleset, in order, each derived from answers of the reader. */
  ghost predicate AllDerived(reader: (string, nat) -> Read, refs: seq<string>, inlined: seq<RulesetSpec>,
                             cs: seq<Desired>) {
    && |cs| == |refs| + |inlined|
    && (forall i :: 0 <= i < |refs| ==> RefDerived(reader, refs[i], cs[i]))
    && (forall i :: 0 <= i < |inlined| ==> Derived(reader, InlineSource(i), inlined[i], "", cs[|refs| + i]))
  }

  lemma RefDerivedNext(reader: (string, nat) -> Read, refs: seq<string>, i: nat, cs: seq<Desired>, c: Desired)
    requires i < |refs| && AllDerived(reader, refs[..i], [], cs) && RefDerived(reader, refs[i], c)
    ensures AllDerived(reader, refs[..i + 1], [], cs + [c])
  {
  }

  lemma InlineDerivedNext(reader: (string, nat) -> Read, refs: seq<string>, inlined: seq<RulesetSpec>, i: nat,
                          cs: seq<Desired>, c: Desired)
    requires i < |inlined| && AllDerived(reader, refs, inlined[..i], cs)
    requires Derived(reader, InlineSource(i), inlined[i], "", c)
    ensures AllDerived(reader, refs, inlined[..i + 1], cs + [c])
  {
    var all, now := cs + [c], inlined[..i + 1];
    forall j | 0 <= j < |refs| ensures RefDerived(reader, refs[j], all[j]) {
      assert all[j] == cs[j];
    }
    forall j | 0 <= j < |now| ensures Derived(reader, InlineSource(j), now[j], "", all[|refs| + j]) {
      assert j < i ==> all[|refs| + j] == cs[|refs| + j] && now[j] == inlined[..i][j];
    }
  }

  /** The candidate of one definition, resolved with whatever the reader answers. */
  method ResolveDesired(resolver: Resolver.ChainResolver, source: string, raw: RulesetSpec, self: string,
                        ghost store: Store)
    returns (c: Desired)
    modifies resolver
    ensures c.spec.name == c.raw.name && (c.unresolved.Some? ==> c.spec == c.raw)
    ensures old(resolver.Honest()) ==> resolver.Honest() && Derived(resolver.reader, source, raw, self, c)
    ensures old(resolver.Serves(store)) ==>
              resolver.Serves(store) && c == ToDesired(source, raw, Resolve(store, raw, self))
  {
    var outcome, answers := resolver.ResolveRuleset(raw, self, store);
    assert Resolver.Explains(answers, answers);
    ToDesiredKeepsName(source, raw, answers, self);
    c := ToDesired(source, raw, outcome);
  }

  lemma RefCandidates(store: Store, refs: seq<string>, i: nat)
    requires i < |refs| && AllExist(store, refs[..i]) && Exists(store, refs[i])
    ensures AllExist(store, refs[..i + 1])
    ensures Candidates(store, refs[..i + 1], []) == Candidates(store, refs[..i], []) + [RefCandidate(store, refs[i])]
  {
    assert refs[..i + 1] == refs[..i] + [refs[i]];
    assert RefPart(store, refs[..i + 1]) == RefPart(store, refs[..i]) + [RefCandidate(store, refs[i])];
  }

  lemma InlineCandidates(store: Store, refs: seq<string>, inlined: seq<RulesetSpec>, i: nat)
    requires AllExist(store, refs) && i < |inlined|
    ensures Candidates(store, refs, inlined[..i + 1]) ==
            Candidates(store, refs, inlined[..i]) + [InlineCandidate(store, i, inlined[i])]
  {
    InlinePartNext(store, inlined, i);
  }

  method CollectReferences(resolver: Resolver.ChainResolver, refs: seq<string>, ghost store: Store)
    returns (cs: seq<Desired>, failed: Option<(string, Read)>)
    requires resolver.Honest()
    modifies resolver
    ensures WellFormed(cs) && resolver.Honest()
    ensures failed.Some? ==>
              && failed.value.0 in refs && !failed.value.1.Found?
              && Resolver.Answers(resolver.reader, failed.value.0, failed.value.1)
    ensures failed.None? ==> AllDerived(resolver.reader, refs, [], cs)
    ensures old(resolver.Serves(store)) ==>
              && resolver.Serves(store)
              && (failed.None? <==> AllExist(store, refs))
              && (failed.None? ==> cs == Candidates(store, refs, []))
  {
    ghost var steady := resolver.Serves(store);
    cs := [];
    for i := 0 to |refs|
      invariant WellFormed(cs) && resolver.Honest() && AllDerived(resolver.reader, refs[..i], [], cs)
      invariant steady ==> resolver.Serves(store)
      invariant steady ==> AllExist(store, refs[..i]) && cs == Candidates(store, refs[..i], [])
    {
      var r := refs[i];
      var read := resolver.GetPreset(r);
      assert Resolver.Answers(resolver.reader, r, read);
      assert steady ==> resolver.Serves(store) && read == Lookup(store, r);
      if !read.Found? {
        return cs, Some((r, read));
      }
      var c := ResolveDesired(resolver, PresetSource(r), read.preset.spec, r, store);
      RefDerivedNext(resolver.reader, refs, i, cs, c);
      if steady {
        RefCandidates(store, refs, i);
      }
      cs := cs + [c];
    }
    assert refs[..|refs|] == refs;
    failed := None;
  }

  /** One round of the loop over the inline rulesets. */
  method CollectOneInline(resolver: Resolver.ChainResolver, ghost refs: seq<string>, inlined: seq<RulesetSpec>, i: nat,
                          cs0: seq<Desired>, ghost store: Store)
    returns (cs: seq<Desired>)
    requires i < |inlined| && WellFormed(cs0) && resolver.Honest()
    requires AllDerived(resolver.reader, refs, inlined[..i], cs0)
    modifies resolver
    ensures WellFormed(cs) && resolver.Honest() && AllDerived(resolver.reader, refs, inlined[..i + 1], cs)
    ensures old(resolver.Serves(store)) ==>
              && resolver.Serves(store)
              && cs == cs0 + [InlineCandidate(store, i, inlined[i])]
  {
    var c := ResolveDesired(resolver, InlineSource(i), inlined[i], "", store);
    InlineDerivedNext(resolver.reader, refs, inlined, i, cs0, c);
    cs := cs0 + [c];
  }

  method CollectInline(resolver: Resolver.ChainResolver, ghost refs: seq<string>, inlined: seq<RulesetSpec>,
                       cs0: seq<Desired>, ghost store: Store)
    returns (cs: seq<Desired>)
    requires WellFormed(cs0) && resolver.Honest() && AllDerived(resolver.reader, refs, [], cs0)
    modifies resolver
    ensures WellFormed(cs) && AllDerived(resolver.reader, refs, inlined, cs)
    ensures old(resolver.Serves(store)) && AllExist(store, refs) && cs0 == Candidates(store, refs, []) ==>
              cs == Candidates(store, refs, inlined)
  {
    ghost var steady := resolver.Serves(store) && AllExist(store, refs) && cs0 == Candidates(store, refs, []);
    cs := cs0;
    assert inlined[..0] == [];
    for i := 0 to |inlined|
      invariant WellFormed(cs) && resolver.Honest() && AllDerived(resolver.reader, refs, inlined[..i], cs)
      invariant steady ==> resolver.Serves(store) && cs == Candidates(store, refs, inlined[..i])
    {
      if steady {
        InlineCandidates(store, refs, inlined, i);
      }
      cs := CollectOneInline(resolver, refs, inlined, i, cs, store);
    }
    assert inlined[..|inlined|] == inlined;
  }

  /**
    `Collect` for a reader that may answer differently every time: whatever candidates it ends up with, the result is
    the deduplicated and marked list or the conflicts; with a reader that does not change the candidates are those of
    its store.
   */
  method Collect(reader: (string, nat) -> Read, refs: seq<string>, inlined: seq<RulesetSpec>, ghost store: Store)
    returns (result: Collection, ghost cs: seq<Desired>)
    ensures WellFormed(cs)
    ensures result.ReferenceUnreadable? ==>
              result.name in refs && !result.read.Found? && Resolver.Answers(reader, result.name, result.read)
    ensures !result.ReferenceUnreadable? ==> AllDerived(reader, refs, inlined, cs)
    ensures result.Collected? ==>
              ConflictKeys(cs, NameOf, SameDefinition) == [] && result.desired == Outcomes(cs)
    ensures result.Conflicting? ==>
              && result.conflicts != []
              && MapSeq((c: Conflict) => c.key, result.conflicts) == ConflictKeys(cs, NameOf, SameDefinition)
              && forall i :: 0 <= i < |result.conflicts| ==>
                   result.conflicts[i].sources == Sources(cs, result.conflicts[i].key, NameOf, SourceOf)
    ensures (forall n, t: nat :: reader(n, t) == Lookup(store, n)) ==>
              && (result.ReferenceUnreadable? <==> !AllExist(store, refs))
              && (AllExist(store, refs) ==> cs == Candidates(store, refs, inlined))
  {
    var resolver := new Resolver.ChainResolver(reader);
    var candidates, failed := CollectReferences(resolver, refs, store);
    cs := candidates;
    if failed.Some? {
      return ReferenceUnreadable(failed.value.0, failed.value.1), cs;
    }
    candidates := CollectInline(resolver, refs, inlined, candidates, store);
    cs := candidates;
    var kept, conflicts := Dedupe(candidates, NameOf, SameDefinition, SourceOf);
    if |conflicts| > 0 {
      return Conflicting(conflicts), cs;
    }
    var marked := new Desired[|kept|](i requires 0 <= i < |kept| => kept[i]);
    assert marked[..] == kept;
    MarkUnresolvedDuplicates(candidates, marked);
    result := Collected(marked[..]);
  }

  // ---------------------------------------------------------------- fail closed

  lemma {:induction false} LastUnresolvedIff(cs: seq<Desired>, k: string)
    ensures k in LastUnresolved(cs) <==> exists c :: c in cs && NameOf(c) == k && c.unresolved.Some?
    ensures k in LastUnresolved(cs) ==>
              var u := LastUnresolved(cs)[k]; u in cs && NameOf(u) == k && u.unresolved.Some?
  {
    if cs != [] {
      LastUnresolvedIff(cs[..|cs| - 1], k);
      assert cs == cs[..|cs| - 1] + [cs[|cs| - 1]];
    }
  }

  /**
    Fail closed: for any mix of resolved and unresolved definitions, a name with an unresolved definition is returned
    as unresolved, every defined name is returned, and no name is returned twice.
   */
  lemma CollectFailsClosed(cs: seq<Desired>)
    requires WellFormed(cs)
    ensures var out := Outcomes(cs);
            && (forall i, j :: 0 <= i < j < |out| ==> NameOf(out[i]) != NameOf(out[j]))
            && (forall c :: c in cs ==> exists d :: d in out && NameOf(d) == NameOf(c))
            && (forall d :: d in out ==> (d.unresolved.Some? <==>
                  exists c :: c in cs && NameOf(c) == NameOf(d) && c.unresolved.Some?))
  {
    var kept, out := FirstPerKey(cs, NameOf), Outcomes(cs);
    FirstPerKeyIsFirst(cs, NameOf);
    forall i | 0 <= i < |out|
      ensures NameOf(out[i]) == NameOf(kept[i])
      ensures out[i].unresolved.Some? <==> exists c :: c in cs && NameOf(c) == NameOf(kept[i]) && c.unresolved.Some?
    {
      LastUnresolvedIff(cs, NameOf(kept[i]));
      assert kept[i] in kept;
    }
    forall c | c in cs ensures exists d :: d in out && NameOf(d) == NameOf(c) {
      assert NameOf(c) in Keys(kept, NameOf);
      var i :| 0 <= i < |kept| && NameOf(kept[i]) == NameOf(c);
      assert out[i] in out;
    }
  }

  // ---------------------------------------------------------------- order independence

  /** `raw` is the definition of preset `self`, or an inline one. */
  ghost predicate OwnName(store: Store, raw: RulesetSpec, self: string) {
    self == "" || (Exists(store, self) && SpecOf(store, self) == raw)
  }

  /** No preset on a chain that ends extends the first one. */
  lemma NeverBackToStart(store: Store, self: string, start: string, names: seq<string>, i: nat)
    requires CleanPath(store, self, start, names) && NextName(store, start, names) == "" && i < |names|
    ensures Exists(store, names[i]) && names[i] != "" && ParentOf(store, names[i]) != start
  {
    assert Linked(store, start, names, i) && Linked(store, start, names, 0);
    if i + 1 < |names| {
      assert Linked(store, start, names, i + 1);
    }
  }

  /** The name a definition is stored under does not decide whether it resolves. */
  lemma SelfDoesNotMatter(store: Store, raw: RulesetSpec, self: string, self': string)
    requires OwnName(store, raw, self')
    requires Resolve(store, raw, self).Resolved?
    ensures Resolve(store, raw, self') == Resolve(store, raw, self)
  {
    WalkIsClean(store, self, raw.parent, raw.parent, []);
    var names := Walk(store, self, raw.parent, []).chain;
    forall i | 0 <= i < |names| ensures names[i] != self' {
      NeverBackToStart(store, self, raw.parent, names, i);
    }
    assert CleanPath(store, self', raw.parent, names);
    ResolveReached(store, raw, self, names);
    ResolveReached(store, raw, self', names);
  }

  /** A candidate as a store that does not change produces it. */
  ghost predicate FromStore(store: Store, c: Desired) {
    exists self :: OwnName(store, c.raw, self) && c == ToDesired(c.source, c.raw, Resolve(store, c.raw, self))
  }

  /** Definitions written alike are resolved or unresolved together, and resolve to the same ruleset. */
  lemma RawEqualTogether(store: Store, a: Desired, b: Desired)
    requires FromStore(store, a) && FromStore(store, b) && a.raw == b.raw
    ensures a.unresolved.None? <==> b.unresolved.None?
    ensures a.spec == b.spec
  {
    var sa :| OwnName(store, a.raw, sa) && a == ToDesired(a.source, a.raw, Resolve(store, a.raw, sa));
    var sb :| OwnName(store, b.raw, sb) && b == ToDesired(b.source, b.raw, Resolve(store, b.raw, sb));
    if a.unresolved.None? {
      SelfDoesNotMatter(store, a.raw, sa, sb);
    } else if b.unresolved.None? {
      SelfDoesNotMatter(store, a.raw, sb, sa);
    }
  }

  /** So the comparison is an equivalence on the candidates of one store. */
  lemma SameDefinitionTransitive(store: Store, a: Desired, b: Desired, c: Desired)
    requires FromStore(store, a) && FromStore(store, b) && FromStore(store, c)
    requires SameDefinition(a, b) && SameDefinition(b, c)
    ensures SameDefinition(a, c)
  {
    if a.raw == b.raw {
      RawEqualTogether(store, a, b);
    }
    if b.raw == c.raw {
      RawEqualTogether(store, b, c);
    }
  }

  /** Same definition, but for where it was written. */
  ghost predicate Alike(a: Desired, b: Desired) {
    a.spec == b.spec && a.raw == b.raw && (a.unresolved.None? <==> b.unresolved.None?)
  }

  ghost predicate Covers(cs: seq<Desired>, cs': seq<Desired>) {
    forall c :: c in cs ==> exists c' :: c' in cs' && Alike(c, c')
  }

  ghost predicate AllFromStore(store: Store, cs: seq<Desired>) {
    forall c :: c in cs ==> FromStore(store, c)
  }

  /** A name is in conflict exactly when two of its definitions differ, whichever comes first. */
  lemma {:induction false} ConflictsAreSymmetric(store: Store, cs: seq<Desired>, k: string)
    requires AllFromStore(store, cs)
    ensures k in ConflictKeys(cs, NameOf, SameDefinition) <==>
            exists a, b :: a in cs && b in cs && NameOf(a) == k && NameOf(b) == k && !SameDefinition(a, b)
  {
    var same := WithKey(cs, k, NameOf);
    ConflictIff(cs, NameOf, SameDefinition, k);
    WithKeySome(cs, k, NameOf);
    if j :| 0 < j < |same| && !SameDefinition(same[0], same[j]) {
      assert same[0] in same && same[j] in same;
    }
    if a, b :| a in cs && b in cs && NameOf(a) == k && NameOf(b) == k && !SameDefinition(a, b) {
      assert a in same && b in same && same[0] in same;
      if SameDefinition(same[0], a) && SameDefinition(same[0], b) {
        SameDefinitionTransitive(store, a, same[0], b);
      } else {
        var x := if SameDefinition(same[0], a) then b else a;
        var j :| 0 <= j < |same| && same[j] == x;
      }
    }
  }

  lemma {:induction false} ConflictsCarryOver(store: Store, cs: seq<Desired>, cs': seq<Desired>, k: string)
    requires AllFromStore(store, cs) && AllFromStore(store, cs') && Covers(cs, cs')
    requires k in ConflictKeys(cs, NameOf, SameDefinition)
    ensures k in ConflictKeys(cs', NameOf, SameDefinition)
  {
    ConflictsAreSymmetric(store, cs, k);
    ConflictsAreSymmetric(store, cs', k);
    var a, b :| a in cs && b in cs && NameOf(a) == k && NameOf(b) == k && !SameDefinition(a, b);
    var a' :| a' in cs' && Alike(a, a');
    var b' :| b' in cs' && Alike(b, b');
    assert NameOf(a') == k && NameOf(b') == k && !SameDefinition(a', b');
  }

  /** Without conflicts, the returned entry of a name is alike every candidate of that name. */
  lemma {:induction false} OutcomeIsAlike(store: Store, cs: seq<Desired>, d: Desired, c: Desired)
    requires AllFromStore(store, cs) && ConflictKeys(cs, NameOf, SameDefinition) == []
    requires d in Outcomes(cs) && c in cs && NameOf(c) == NameOf(d)
    requires WellFormed(cs)
    ensures d.spec == c.spec && (d.unresolved.None? <==> c.unresolved.None?)
  {
    var kept := FirstPerKey(cs, NameOf);
    var i :| 0 <= i < |kept| && d == Marked(LastUnresolved(cs), kept[i]);
    var f, k := kept[i], NameOf(kept[i]);
    LastUnresolvedIff(cs, k);
    FirstPerKeyIsFirst(cs, NameOf);
    assert f in kept && NameOf(d) == k;
    NoConflictSame(store, cs, k, f, c);
    if k in LastUnresolved(cs) {
      NoConflictSame(store, cs, k, f, LastUnresolved(cs)[k]);
    }
  }

  lemma {:induction false} NoConflictSame(store: Store, cs: seq<Desired>, k: string, a: Desired, b: Desired)
    requires AllFromStore(store, cs) && k !in ConflictKeys(cs, NameOf, SameDefinition)
    requires a in cs && b in cs && NameOf(a) == k && NameOf(b) == k
    ensures a.spec == b.spec && (a.unresolved.None? <==> b.unresolved.None?)
  {
    ConflictsAreSymmetric(store, cs, k);
    assert SameDefinition(a, b);
    if a.raw == b.raw {
      RawEqualTogether(store, a, b);
    }
  }

  lemma CandidatesFromStore(store: Store, refs: seq<string>, inlined: seq<RulesetSpec>)
    requires AllExist(store, refs)
    ensures AllFromStore(store, Candidates(store, refs, inlined))
    ensures WellFormed(Candidates(store, refs, inlined))
  {
    var cs := Candidates(store, refs, inlined);
    forall i | 0 <= i < |cs|
      ensures FromStore(store, cs[i])
      ensures cs[i].spec.name == cs[i].raw.name && (cs[i].unresolved.Some? ==> cs[i].spec == cs[i].raw)
    {
      var self := if i < |refs| then refs[i] else "";
      CandidateAt(store, refs, inlined, i);
      assert OwnName(store, cs[i].raw, self);
      ToDesiredKeepsName(cs[i].source, cs[i].raw, store, self);
    }
  }

  lemma CandidateAt(store: Store, refs: seq<string>, inlined: seq<RulesetSpec>, i: nat)
    requires AllExist(store, refs) && i < |refs| + |inlined|
    ensures Candidates(store, refs, inlined)[i] ==
            if i < |refs| then RefCandidate(store, refs[i])
            else InlineCandidate(store, i - |refs|, inlined[i - |refs|])
  {
  }

  lemma CandidatesCover(store: Store, refs: seq<string>, inlined: seq<RulesetSpec>, refs': seq<string>,
                        inlined': seq<RulesetSpec>)
    requires AllExist(store, refs) && AllExist(store, refs')
    requires Elems(refs) <= Elems(refs') && Elems(inlined) <= Elems(inlined')
    ensures Covers(Candidates(store, refs, inlined), Candidates(store, refs', inlined'))
  {
    var cs, cs' := Candidates(store, refs, inlined), Candidates(store, refs', inlined');
    forall i | 0 <= i < |cs| ensures exists c' :: c' in cs' && Alike(cs[i], c') {
      CandidateAt(store, refs, inlined, i);
      if i < |refs| {
        CoverRef(store, refs', inlined', refs[i]);
      } else {
        CoverInline(store, refs', inlined', i - |refs|, inlined[i - |refs|]);
      }
    }
  }

  lemma CoverRef(store: Store, refs: seq<string>, inlined: seq<RulesetSpec>, r: string)
    requires AllExist(store, refs) && r in Elems(refs)
    ensures Exists(store, r)
    ensures exists c :: c in Candidates(store, refs, inlined) && Alike(RefCandidate(store, r), c)
  {
    var j :| 0 <= j < |refs| && refs[j] == r;
    var cs := Candidates(store, refs, inlined);
    CandidateAt(store, refs, inlined, j);
    assert cs[j] in cs && Alike(RefCandidate(store, r), cs[j]);
  }

  lemma CoverInline(store: Store, refs: seq<string>, inlined: seq<RulesetSpec>, i: int, rs: RulesetSpec)
    requires AllExist(store, refs) && rs in Elems(inlined)
    ensures exists c :: c in Candidates(store, refs, inlined) && Alike(InlineCandidate(store, i, rs), c)
  {
    var j :| 0 <= j < |inlined| && inlined[j] == rs;
    CandidateAt(store, refs, inlined, |refs| + j);
    InlinesAlike(store, i, j, rs);
    CoveredBy(Candidates(store, refs, inlined), |refs| + j, InlineCandidate(store, i, rs));
  }

  lemma CoveredBy(cs: seq<Desired>, j: nat, d: Desired)
    requires j < |cs| && Alike(d, cs[j])
    ensures exists c :: c in cs && Alike(d, c)
  {
    assert cs[j] in cs;
  }

  lemma InlinesAlike(store: Store, i: int, j: int, rs: RulesetSpec)
    ensures Alike(InlineCandidate(store, i, rs), InlineCandidate(store, j, rs))
  {
  }

  /**
    Order independence: with the presets fixed and all referenced ones present, two lists of references and inline
    rulesets with the same members (in particular, a permutation) have the same conflicting names.
   */
  lemma ConflictsIgnoreOrder(store: Store, refs: seq<string>, inlined: seq<RulesetSpec>, refs': seq<string>,
                             inlined': seq<RulesetSpec>)
    requires AllExist(store, refs) && AllExist(store, refs')
    requires Elems(refs) == Elems(refs') && Elems(inlined) == Elems(inlined')
    ensures Elems(ConflictKeys(Candidates(store, refs, inlined), NameOf, SameDefinition)) ==
            Elems(ConflictKeys(Candidates(store, refs', inlined'), NameOf, SameDefinition))
  {
    var cs, cs' := Candidates(store, refs, inlined), Candidates(store, refs', inlined');
    CandidatesFromStore(store, refs, inlined);
    CandidatesFromStore(store, refs', inlined');
    CandidatesCover(store, refs, inlined, refs', inlined');
    CandidatesCover(store, refs', inlined', refs, inlined);
    forall k ensures k in ConflictKeys(cs, NameOf, SameDefinition) <==> k in ConflictKeys(cs', NameOf, SameDefinition) {
      if k in ConflictKeys(cs, NameOf, SameDefinition) {
        ConflictsCarryOver(store, cs, cs', k);
      }
      if k in ConflictKeys(cs', NameOf, SameDefinition) {
        ConflictsCarryOver(store, cs', cs, k);
      }
    }
  }

  /** ... and, without conflicts, the same effective ruleset under every name. */
  lemma EffectiveRulesetsIgnoreOrder(store: Store, refs: seq<string>, inlined: seq<RulesetSpec>, refs': seq<string>,
                                     inlined': seq<RulesetSpec>, d: Desired)
    requires AllExist(store, refs) && AllExist(store, refs')
    requires Elems(refs) == Elems(refs') && Elems(inlined) == Elems(inlined')
    requires ConflictKeys(Candidates(store, refs, inlined), NameOf, SameDefinition) == []
    requires d in Outcomes(Candidates(store, refs, inlined))
    ensures exists d' :: && d' in Outcomes(Candidates(store, refs', inlined'))
                         && d'.spec == d.spec
                         && (d'.unresolved.None? <==> d.unresolved.None?)
  {
    var cs, cs' := Candidates(store, refs, inlined), Candidates(store, refs', inlined');
    CandidatesFromStore(store, refs, inlined);
    CandidatesFromStore(store, refs', inlined');
    CandidatesCover(store, refs, inlined, refs', inlined');
    ConflictsIgnoreOrder(store, refs, inlined, refs', inlined');
    NoElems(ConflictKeys(cs', NameOf, SameDefinition));
    FirstPerKeyIsFirst(cs, NameOf);
    var kept := FirstPerKey(cs, NameOf);
    var i :| 0 <= i < |kept| && d == Marked(LastUnresolved(cs), kept[i]);
    var c := kept[i];
    assert c in kept;
    LastUnresolvedIff(cs, NameOf(c));
    OutcomeIsAlike(store, cs, d, c);
    var c' :| c' in cs' && Alike(c, c');
    CollectFailsClosed(cs');
    var d' :| d' in Outcomes(cs') && NameOf(d') == NameOf(c');
    OutcomeIsAlike(store, cs', d', c');
  }

  lemma NoElems(xs: seq<string>)
    ensures Elems(xs) == {} ==> xs == []
  {
    if xs != [] {
      assert xs[0] in Elems(xs);
    }
  }
}
