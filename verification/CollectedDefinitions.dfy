/**
  What `Collect` reports and returns, in terms of the owner's definitions and what they resolve to: when definitions
  conflict, and which ruleset is returned for a name.
 */
module CollectedDefinitions {
  import opened Collections
  import opened ChainFold
  import opened RulesetTypes
  import opened ExtendsChain
  import opened MergeDefinitions
  import opened RulesetCollect

  /** One of the owner's definitions: that of a referenced preset, `self` being its name, or an inline ruleset. */
  ghost predicate Defines(store: Store, refs: seq<string>, inlined: seq<RulesetSpec>, raw: RulesetSpec, self: string) {
    || (self in refs && Exists(store, self) && SpecOf(store, self) == raw)
    || (self == "" && raw in inlined)
  }

  /** Two definitions differ: in what they resolve to if both resolve, and as written otherwise. */
  ghost predicate Clash(store: Store, raw: RulesetSpec, self: string, raw': RulesetSpec, self': string) {
    match (Resolve(store, raw, self), Resolve(store, raw', self'))
    case (Resolved(spec), Resolved(spec')) => spec != spec'
    case _ => raw != raw'
  }

  /** The candidate has the definition's resolved spec, or the definition itself and why it does not resolve. */
  ghost predicate Carries(store: Store, raw: RulesetSpec, self: string, c: Desired) {
    c.raw == raw &&
    match Resolve(store, raw, self)
    case Resolved(spec) => c.spec == spec && c.unresolved == None
    case Unresolved(_, chain, reason) => c.spec == raw && c.unresolved == Some(Unresolvable(chain, reason))
  }

  lemma CandidateCarries(store: Store, source: string, raw: RulesetSpec, self: string)
    ensures Carries(store, raw, self, ToDesired(source, raw, Resolve(store, raw, self)))
  {
  }

  lemma CandidateOf(store: Store, refs: seq<string>, inlined: seq<RulesetSpec>, raw: RulesetSpec, self: string)
    returns (c: Desired)
    requires AllExist(store, refs) && Defines(store, refs, inlined, raw, self)
    ensures c in Candidates(store, refs, inlined) && Carries(store, raw, self, c)
  {
    if self in refs && Exists(store, self) && SpecOf(store, self) == raw {
      c := RefCandidateOf(store, refs, inlined, self);
    } else {
      c := InlineCandidateOf(store, refs, inlined, raw);
    }
  }

  lemma RefCandidateOf(store: Store, refs: seq<string>, inlined: seq<RulesetSpec>, r: string) returns (c: Desired)
    requires AllExist(store, refs) && r in refs
    ensures Exists(store, r) && c in Candidates(store, refs, inlined) && Carries(store, SpecOf(store, r), r, c)
  {
    var i :| 0 <= i < |refs| && refs[i] == r;
    CandidateAt(store, refs, inlined, i);
    CandidateCarries(store, PresetSource(r), SpecOf(store, r), r);
    c := Candidates(store, refs, inlined)[i];
  }

  lemma InlineCandidateOf(store: Store, refs: seq<string>, inlined: seq<RulesetSpec>, raw: RulesetSpec)
    returns (c: Desired)
    requires AllExist(store, refs) && raw in inlined
    ensures c in Candidates(store, refs, inlined) && Carries(store, raw, "", c)
  {
    var i :| 0 <= i < |inlined| && inlined[i] == raw;
    CandidateAt(store, refs, inlined, |refs| + i);
    CandidateCarries(store, InlineSource(i), raw, "");
    c := Candidates(store, refs, inlined)[|refs| + i];
  }

  lemma DefinitionOf(store: Store, refs: seq<string>, inlined: seq<RulesetSpec>, c: Desired)
    returns (raw: RulesetSpec, self: string)
    requires AllExist(store, refs) && c in Candidates(store, refs, inlined)
    ensures Defines(store, refs, inlined, raw, self) && Carries(store, raw, self, c)
  {
    var cs := Candidates(store, refs, inlined);
    var i :| 0 <= i < |cs| && cs[i] == c;
    CandidateAt(store, refs, inlined, i);
    if i < |refs| {
      raw, self := SpecOf(store, refs[i]), refs[i];
    } else {
      raw, self := inlined[i - |refs|], "";
    }
  }

  lemma SameUnlessClash(store: Store, raw: RulesetSpec, self: string, a: Desired, raw': RulesetSpec, self': string,
                        b: Desired)
    requires Carries(store, raw, self, a) && Carries(store, raw', self', b)
    ensures SameDefinition(a, b) <==> !Clash(store, raw, self, raw', self')
  {
  }

  ghost predicate NamedClash(store: Store, refs: seq<string>, inlined: seq<RulesetSpec>, k: string, raw: RulesetSpec,
                             self: string, raw': RulesetSpec, self': string) {
    && Defines(store, refs, inlined, raw, self) && raw.name == k
    && Defines(store, refs, inlined, raw', self') && raw'.name == k
    && Clash(store, raw, self, raw', self')
  }

  /** A name is reported as a conflict exactly when two of its definitions clash. */
  lemma ConflictsExactly(store: Store, refs: seq<string>, inlined: seq<RulesetSpec>, k: string)
    requires AllExist(store, refs)
    ensures k in ConflictKeys(Candidates(store, refs, inlined), NameOf, SameDefinition) <==>
            exists raw, self, raw', self' :: NamedClash(store, refs, inlined, k, raw, self, raw', self')
  {
    var cs := Candidates(store, refs, inlined);
    CandidatesFromStore(store, refs, inlined);
    ConflictsAreSymmetric(store, cs, k);
    if a, b :| a in cs && b in cs && NameOf(a) == k && NameOf(b) == k && !SameDefinition(a, b) {
      var raw, self := DefinitionOf(store, refs, inlined, a);
      var raw', self' := DefinitionOf(store, refs, inlined, b);
      SameUnlessClash(store, raw, self, a, raw', self', b);
      assert NamedClash(store, refs, inlined, k, raw, self, raw', self');
    }
    if raw, self, raw', self' :| NamedClash(store, refs, inlined, k, raw, self, raw', self') {
      var a := CandidateOf(store, refs, inlined, raw, self);
      var b := CandidateOf(store, refs, inlined, raw', self');
      SameUnlessClash(store, raw, self, a, raw', self', b);
      assert NameOf(a) == k && NameOf(b) == k;
    }
  }

  /** Every definition of the name resolves to that ruleset. */
  ghost predicate AllResolveTo(store: Store, refs: seq<string>, inlined: seq<RulesetSpec>, k: string, spec: RulesetSpec) {
    forall raw, self :: Defines(store, refs, inlined, raw, self) && raw.name == k ==>
                          Resolve(store, raw, self) == Resolved(spec)
  }

  /** Some definition of the name does not resolve, for that reason. */
  ghost predicate Unresolves(store: Store, refs: seq<string>, inlined: seq<RulesetSpec>, k: string, raw: RulesetSpec,
                             u: Unresolvable) {
    raw.name == k &&
    exists self :: Defines(store, refs, inlined, raw, self) &&
                   Resolve(store, raw, self) == Unresolved(raw.name, u.chain, u.reason)
  }

  /**
    Without conflicts, what is returned for a name is what all of its definitions resolve to, or, if one of them does
    not resolve, a definition of that name as written, with its reason.
   */
  lemma CollectedExactly(store: Store, refs: seq<string>, inlined: seq<RulesetSpec>, d: Desired)
    requires AllExist(store, refs)
    requires ConflictKeys(Candidates(store, refs, inlined), NameOf, SameDefinition) == []
    requires d in Outcomes(Candidates(store, refs, inlined))
    ensures match d.unresolved
            case None => AllResolveTo(store, refs, inlined, d.spec.name, d.spec)
            case Some(u) => Unresolves(store, refs, inlined, d.spec.name, d.spec, u)
  {
    var cs := Candidates(store, refs, inlined);
    CandidatesFromStore(store, refs, inlined);
    if d.unresolved.None? {
      forall raw, self | Defines(store, refs, inlined, raw, self) && raw.name == d.spec.name
        ensures Resolve(store, raw, self) == Resolved(d.spec)
      {
        var c := CandidateOf(store, refs, inlined, raw, self);
        OutcomeIsAlike(store, cs, d, c);
      }
    } else {
      var c := UnresolvedCandidate(cs, d);
      var raw, self := DefinitionOf(store, refs, inlined, c);
      UnresolvedNamed(store, raw, self);
    }
  }

  lemma UnresolvedNamed(store: Store, raw: RulesetSpec, self: string)
    ensures Resolve(store, raw, self).Unresolved? ==> Resolve(store, raw, self).ruleset == raw.name
  {
    WalkIsClean(store, self, raw.parent, raw.parent, []);
  }

  /** An unresolved entry has its spec and its error from one of the candidates. */
  lemma UnresolvedCandidate(cs: seq<Desired>, d: Desired) returns (c: Desired)
    requires WellFormed(cs) && d in Outcomes(cs) && d.unresolved.Some?
    ensures c in cs && c.spec == d.spec && c.unresolved == d.unresolved
  {
    var kept := FirstPerKey(cs, NameOf);
    var i :| 0 <= i < |kept| && d == Marked(LastUnresolved(cs), kept[i]);
    FirstPerKeyIsFirst(cs, NameOf);
    LastUnresolvedIff(cs, NameOf(kept[i]));
    assert kept[i] in kept;
    c := if kept[i].unresolved.Some? then kept[i] else LastUnresolved(cs)[NameOf(kept[i])];
  }

  /** The last unresolved definition of a name. */
  ghost predicate LastUnresolvedAt(cs: seq<Desired>, k: string, j: nat) {
    && j < |cs| && NameOf(cs[j]) == k && cs[j].unresolved.Some?
    && forall l :: j < l < |cs| && NameOf(cs[l]) == k ==> cs[l].unresolved.None?
  }

  lemma {:induction false} LastUnresolvedIsLast(cs: seq<Desired>, k: string, j: nat)
    requires LastUnresolvedAt(cs, k, j)
    ensures k in LastUnresolved(cs) && LastUnresolved(cs)[k] == cs[j]
  {
    var n := |cs| - 1;
    if j < n {
      assert LastUnresolvedAt(cs[..n], k, j);
      LastUnresolvedIsLast(cs[..n], k, j);
    }
  }

  /**
    Which definition is returned when they resolve differently, as they may if presets change meanwhile: the first one,
    but if that resolves and a later one does not, with the spec and the error of the last such.
   */
  lemma OutcomeIs(cs: seq<Desired>, d: Desired) returns (i: nat)
    requires d in Outcomes(cs) && WellFormed(cs)
    ensures i < |cs| && FirstAt(cs, NameOf, i) && NameOf(cs[i]) == NameOf(d)
    ensures cs[i].unresolved.Some? ==> d == cs[i]
    ensures (forall j :: 0 <= j < |cs| && NameOf(cs[j]) == NameOf(cs[i]) ==> cs[j].unresolved.None?) ==> d == cs[i]
    ensures cs[i].unresolved.None? ==>
              forall j: nat :: LastUnresolvedAt(cs, NameOf(cs[i]), j) ==>
                                 d == cs[i].(spec := cs[j].spec, unresolved := cs[j].unresolved)
  {
    var kept := FirstPerKey(cs, NameOf);
    var places := FirstPerKeyPlaces(cs, NameOf);
    var a :| 0 <= a < |kept| && d == Marked(LastUnresolved(cs), kept[a]);
    i := places[a];
    assert i in places;
    LastUnresolvedIff(cs, NameOf(cs[i]));
    forall j: nat | LastUnresolvedAt(cs, NameOf(cs[i]), j)
      ensures NameOf(cs[i]) in LastUnresolved(cs) && LastUnresolved(cs)[NameOf(cs[i])] == cs[j]
    {
      LastUnresolvedIsLast(cs, NameOf(cs[i]), j);
    }
  }

  /** The sources that conflicts name tell presets and inline rulesets apart, and end in the name or the index. */
  lemma SourcesIdentify(a: string, b: string, i: int, j: int)
    ensures PresetSource(a)[|"rulesetPreset/"|..] == a
    ensures var s := InlineSource(i); s[|"inline["|..|s| - 1] == FormatInt(i)
    ensures PresetSource(a) == PresetSource(b) ==> a == b
    ensures InlineSource(i) == InlineSource(j) ==> i == j
    ensures PresetSource(a) != InlineSource(i)
  {
    if PresetSource(a) == PresetSource(b) {
      assert PresetSource(a)[14..] == a && PresetSource(b)[14..] == b;
    }
    if InlineSource(i) == InlineSource(j) {
      var s, t := InlineSource(i), InlineSource(j);
      assert s[7..|s| - 1] == FormatInt(i) && t[7..|t| - 1] == FormatInt(j);
      FormatIntInjective(i, j);
    }
    assert PresetSource(a)[0] == 'r' && InlineSource(i)[0] == 'i';
  }

  /** A definition without a parent resolves to itself, its target written out. */
  lemma ResolvesAlone(raw: RulesetSpec)
    requires raw.parent == "" && raw.enforcement != ""
    ensures Resolve(map[], raw, "") == Resolved(raw.(target := if raw.target == "" then "branch" else raw.target))
  {
    ResolveReached(map[], raw, "", []);
    assert [raw] + Specs(map[], []) == [raw];
  }

  /** For instance: two definitions that differ only in how they spell the default target are not in conflict. */
  lemma SameWhenResolved(a: RulesetSpec, b: RulesetSpec)
    requires a.parent == "" && a.enforcement != "" && a.target == "" && b == a.(target := "branch")
    ensures ConflictKeys(Candidates(map[], [], [a, b]), NameOf, SameDefinition) == []
  {
    ResolvesAlone(a);
    ResolvesAlone(b);
    forall k ensures k !in ConflictKeys(Candidates(map[], [], [a, b]), NameOf, SameDefinition) {
      ConflictsExactly(map[], [], [a, b], k);
    }
    var found := ConflictKeys(Candidates(map[], [], [a, b]), NameOf, SameDefinition);
    assert Elems(found) == {};
    NoElems(found);
  }
}
