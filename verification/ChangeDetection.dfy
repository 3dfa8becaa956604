/**
  Startup change detection: the generations the factory records for an owner's ruleset presets
  (reconcilerfactory/factory.go) and the decision to delay a reconciliation (spreading/spreading.go).
 */
module ChangeDetection {
  import opened Collections
  import opened RulesetTypes
  import opened ExtendsChain
  import opened PresetIndex
  import Resolver = ChainResolver

  const PRESET_KIND := "RulesetPreset"

  /** The key of a sub-resource; the namespace is the owner's. */
  datatype SubKey = SubKey(kind: string, name: string)

  type Generations = map<SubKey, int>

  // ---------------------------------------------------------------- what is recorded

  function ChainNames(store: Store, start: string, self: string): set<string> {
    var found := Ancestors(store, start, self);
    if found.Some? then Elems(found.value) else {}
  }

  /** The presets recorded for a direct reference: the preset itself, if it exists, and its ancestors. */
  function RefNames(store: Store, r: string): set<string> {
    (if Exists(store, r) then {r} else {}) + ChainNames(store, ParentOf(store, r), r)
  }

  function Tracked(store: Store, o: Owner): set<string> {
    (set r, n | r in o.refs && n in RefNames(store, r) :: n) +
    set rs, n | rs in o.inlined && n in ChainNames(store, rs.parent, "") :: n
  }

  lemma {:induction false} AncestorsExist(store: Store, self: string, next: string, found: seq<string>)
    requires |found| <= MAX_EXTENDS_DEPTH && AllExist(store, found)
    ensures AncestorWalk(store, self, next, found).Some? ==>
              var all := AncestorWalk(store, self, next, found).value;
              AllExist(store, all) && found <= all
    decreases MAX_EXTENDS_DEPTH - |found|
  {
    if next != "" && next != self && next !in found && |found| < MAX_EXTENDS_DEPTH && Exists(store, next) {
      AncestorsExist(store, self, SpecOf(store, next).parent, found + [next]);
    }
  }

  function Key(n: string): SubKey { SubKey(PRESET_KIND, n) }

  /** No read of the collection ends in an unexpected error. */
  ghost predicate Readable(store: Store, o: Owner) {
    && (forall r :: r in o.refs ==> !Lookup(store, r).Failed? && Ancestors(store, ParentOf(store, r), r).Some?)
    && (forall rs :: rs in o.inlined ==> Ancestors(store, rs.parent, "").Some?)
  }

  ghost predicate Stable(reader: (string, nat) -> Read, store: Store) {
    forall n, t: nat :: reader(n, t) == Lookup(store, n)
  }

  /** `result` holds the generations of exactly the presets in `names`, and otherwise what it held before. */
  ghost predicate Recorded(result0: Generations, result: Generations, store: Store, names: set<string>) {
    && (forall n :: n in names ==>
          Exists(store, n) && Key(n) in result && result[Key(n)] == Lookup(store, n).preset.generation)
    && (forall k :: k in result ==> k in result0 || (k.kind == PRESET_KIND && k.name in names))
    && (forall k :: k in result0 ==>
          k in result && (result[k] == result0[k] || (k.kind == PRESET_KIND && k.name in names)))
  }

  lemma RecordedGrows(result0: Generations, result: Generations, store: Store, names: set<string>, n: string)
    requires Recorded(result0, result, store, names) && Exists(store, n)
    ensures Recorded(result0, result[Key(n) := Lookup(store, n).preset.generation], store, names + {n})
  {
  }

  // ---------------------------------------------------------------- collecting, for a reader that may change

  /** Some read of the preset gave that generation. */
  ghost predicate GenerationRead(reader: (string, nat) -> Read, n: string, generation: int) {
    exists p: Preset :: Resolver.Answers(reader, n, Found(p)) && p.generation == generation
  }

  /** Nothing is lost, and whatever is new is the generation some read gave. */
  ghost predicate OnlyRead(reader: (string, nat) -> Read, result0: Generations, result: Generations) {
    && (forall k :: k in result0 ==> k in result)
    && (forall k :: k in result ==>
          || (k in result0 && result[k] == result0[k])
          || (k.kind == PRESET_KIND && GenerationRead(reader, k.name, result[k])))
  }

  /** Answers the reader gave lead to the presets `names` above `start`, and all of them are recorded. */
  ghost predicate ChainCovered(reader: (string, nat) -> Read, answers: Store, start: string, self: string,
                               names: seq<string>, result: Generations) {
    && Resolver.ReadFrom(reader, answers) && Resolver.AncestorsAre(answers, start, self, Some(names))
    && forall n :: n in names ==> Key(n) in result
  }

  ghost predicate InlineCovered(reader: (string, nat) -> Read, parent: string, result: Generations) {
    exists answers, names :: ChainCovered(reader, answers, parent, "", names, result)
  }

  /** What a preset that was read extends; nothing if it was not found. */
  function ParentIn(read: Read): string { if read.Found? then read.preset.spec.parent else "" }

  /** The same for a reference, with the read of the preset itself. */
  ghost predicate RefCovered(reader: (string, nat) -> Read, r: string, result: Generations) {
    exists read, answers, names ::
      && RefRead(reader, r, read, result)
      && ChainCovered(reader, answers, ParentIn(read), r, names, result)
  }

  ghost predicate RefRead(reader: (string, nat) -> Read, r: string, read: Read, result: Generations) {
    Resolver.Answers(reader, r, read) && !read.Failed? && (read.Found? ==> Key(r) in result)
  }

  lemma CoveredStays(reader: (string, nat) -> Read, result: Generations, result': Generations)
    requires forall k :: k in result ==> k in result'
    ensures forall p :: InlineCovered(reader, p, result) ==> InlineCovered(reader, p, result')
    ensures forall r :: RefCovered(reader, r, result) ==> RefCovered(reader, r, result')
  {
    forall p | InlineCovered(reader, p, result) ensures InlineCovered(reader, p, result') {
      var answers, names :| ChainCovered(reader, answers, p, "", names, result);
      assert ChainCovered(reader, answers, p, "", names, result');
    }
    forall r | RefCovered(reader, r, result) ensures RefCovered(reader, r, result') {
      var read, answers, names :|
        RefRead(reader, r, read, result) && ChainCovered(reader, answers, ParentIn(read), r, names, result);
      assert RefRead(reader, r, read, result') && ChainCovered(reader, answers, ParentIn(read), r, names, result');
    }
  }

  ghost predicate Covered(reader: (string, nat) -> Read, o: Owner, result: Generations) {
    && (forall r :: r in o.refs ==> RefCovered(reader, r, result))
    && (forall rs :: rs in o.inlined ==> InlineCovered(reader, rs.parent, result))
  }

  lemma CoveredRef(reader: (string, nat) -> Read, refs: seq<string>, i: nat, before: Generations, result: Generations)
    requires i < |refs| && Covered(reader, Owner(refs[..i], []), before) && RefCovered(reader, refs[i], result)
    requires forall k :: k in before ==> k in result
    ensures Covered(reader, Owner(refs[..i + 1], []), result)
  {
    CoveredStays(reader, before, result);
    assert refs[..i + 1] == refs[..i] + [refs[i]];
  }

  lemma CoveredInline(reader: (string, nat) -> Read, o: Owner, i: nat, before: Generations, result: Generations)
    requires i < |o.inlined| && Covered(reader, Owner(o.refs, o.inlined[..i]), before)
    requires InlineCovered(reader, o.inlined[i].parent, result) && forall k :: k in before ==> k in result
    ensures Covered(reader, Owner(o.refs, o.inlined[..i + 1]), result)
  {
    CoveredStays(reader, before, result);
    assert o.inlined[..i + 1] == o.inlined[..i] + [o.inlined[i]];
  }

  /** Some read failed. */
  ghost predicate ReadFails(reader: (string, nat) -> Read) {
    exists n :: Resolver.Answers(reader, n, Failed)
  }

  method CollectAncestors(resolver: Resolver.ChainResolver, start: string, self: string, result0: Generations,
                          ghost store: Store, ghost base: Generations, ghost known: set<string>)
    returns (ok: bool, result: Generations, ghost answers: Store, ghost names: seq<string>)
    requires resolver.Honest()
    modifies resolver
    ensures resolver.Honest() && OnlyRead(resolver.reader, result0, result)
    ensures if ok then ChainCovered(resolver.reader, answers, start, self, names, result) else ReadFails(resolver.reader)
    ensures old(resolver.Serves(store)) && Recorded(base, result0, store, known) ==>
              && resolver.Serves(store)
              && ok == Ancestors(store, start, self).Some?
              && (ok ==> Recorded(base, result, store, known + ChainNames(store, start, self)))
  {
    ghost var steady := resolver.Serves(store) && Recorded(base, result0, store, known);
    result := result0;
    var found, chain;
    found, chain, answers := resolver.FindAncestors(start, self, store);
    names := chain;
    if found.None? {
      ghost var n :| n in answers && answers[n] == Failed;
      assert Resolver.Answers(resolver.reader, n, Failed);
      return false, result, answers, names;
    }
    result := RecordAll(resolver.reader, answers, chain, found.value, result, store, base, known);
    ok := true;
  }

  /** The loop that writes the generations of the presets found. */
  method RecordAll(ghost reader: (string, nat) -> Read, ghost answers: Store, names: seq<string>, found: seq<Preset>,
                   result0: Generations, ghost store: Store, ghost base: Generations, ghost known: set<string>)
    returns (result: Generations)
    requires Resolver.ReadFrom(reader, answers) && Resolver.PresetsOf(answers, names, found)
    requires forall n :: n in names ==> n in answers
    ensures OnlyRead(reader, result0, result) && forall n :: n in names ==> Key(n) in result
    ensures Recorded(base, result0, store, known) && Resolver.Explains(store, answers) ==>
              Recorded(base, result, store, known + Elems(names))
  {
    ghost var steady := Recorded(base, result0, store, known) && Resolver.Explains(store, answers);
    result := result0;
    assert known + Elems(names[..0]) == known;
    for i := 0 to |names|
      invariant OnlyRead(reader, result0, result)
      invariant forall n :: n in names[..i] ==> Key(n) in result
      invariant steady ==> Recorded(base, result, store, known + Elems(names[..i]))
    {
      assert names[..i + 1] == names[..i] + [names[i]];
      assert answers[names[i]] == Found(found[i]);
      assert GenerationRead(reader, names[i], found[i].generation);
      if steady {
        ElemsPrefix(names, i);
        RecordedGrows(base, result, store, known + Elems(names[..i]), names[i]);
        assert known + Elems(names[..i]) + {names[i]} == known + Elems(names[..i + 1]);
      }
      result := result[Key(names[i]) := found[i].generation];
    }
    assert names[..|names|] == names;
  }

  /** One reference: its own generation, if it exists, and those of its ancestors. */
  method CollectReference(resolver: Resolver.ChainResolver, r: string, result0: Generations, ghost store: Store,
                          ghost base: Generations, ghost known: set<string>)
    returns (ok: bool, result: Generations)
    requires resolver.Honest()
    modifies resolver
    ensures resolver.Honest() && OnlyRead(resolver.reader, result0, result)
    ensures if ok then RefCovered(resolver.reader, r, result) else ReadFails(resolver.reader)
    ensures old(resolver.Serves(store)) && Recorded(base, result0, store, known) ==>
              && resolver.Serves(store)
              && ok == (!Lookup(store, r).Failed? && Ancestors(store, ParentOf(store, r), r).Some?)
              && (ok ==> Recorded(base, result, store, known + RefNames(store, r)))
  {
    ghost var steady := resolver.Serves(store) && Recorded(base, result0, store, known);
    result := result0;
    var read := resolver.reader(r, resolver.readCount);
    assert Resolver.Answers(resolver.reader, r, read);
    if read.Failed? {
      return false, result;
    }
    var start := "";
    ghost var own: set<string> := {};
    if read.Found? {
      if steady {
        RecordedGrows(base, result, store, known, r);
      }
      assert GenerationRead(resolver.reader, r, read.preset.generation);
      result := result[Key(r) := read.preset.generation];
      start, own := read.preset.spec.parent, {r};
    }
    assert known + {} == known;
    ghost var middle := result;
    ghost var answers, names;
    ok, result, answers, names := CollectAncestors(resolver, start, r, result, store, base, known + own);
    OnlyReadTwice(resolver.reader, result0, middle, result);
    assert ok ==> RefRead(resolver.reader, r, read, result) && start == ParentIn(read);
    assert steady ==> known + own + ChainNames(store, start, r) == known + RefNames(store, r);
  }

  lemma OnlyReadTwice(reader: (string, nat) -> Read, a: Generations, b: Generations, c: Generations)
    requires OnlyRead(reader, a, b) && OnlyRead(reader, b, c)
    ensures OnlyRead(reader, a, c)
  {
  }

  method CollectReferences(resolver: Resolver.ChainResolver, result0: Generations, refs: seq<string>,
                           ghost store: Store)
    returns (ok: bool, result: Generations)
    requires resolver.Honest()
    modifies resolver
    ensures resolver.Honest() && OnlyRead(resolver.reader, result0, result)
    ensures if ok then Covered(resolver.reader, Owner(refs, []), result) else ReadFails(resolver.reader)
    ensures old(resolver.Serves(store)) ==>
              && resolver.Serves(store)
              && ok == Readable(store, Owner(refs, []))
              && (ok ==> Recorded(result0, result, store, Tracked(store, Owner(refs, []))))
  {
    ghost var steady := resolver.Serves(store);
    result := result0;
    for i := 0 to |refs|
      invariant resolver.Honest() && OnlyRead(resolver.reader, result0, result)
      invariant Covered(resolver.reader, Owner(refs[..i], []), result)
      invariant steady ==> resolver.Serves(store) && Readable(store, Owner(refs[..i], []))
      invariant steady ==> Recorded(result0, result, store, Tracked(store, Owner(refs[..i], [])))
    {
      ghost var before := result;
      TrackRef(store, refs, i);
      ReadableRef(store, refs, i);
      ok, result := CollectReference(resolver, refs[i], result, store, result0, Tracked(store, Owner(refs[..i], [])));
      OnlyReadTwice(resolver.reader, result0, before, result);
      if !ok {
        return;
      }
      CoveredRef(resolver.reader, refs, i, before, result);
    }
    assert refs[..|refs|] == refs;
    ok := true;
  }

  method CollectInline(resolver: Resolver.ChainResolver, result0: Generations, o: Owner, ghost store: Store,
                       ghost base: Generations)
    returns (ok: bool, result: Generations)
    requires resolver.Honest() && Covered(resolver.reader, Owner(o.refs, []), result0)
    modifies resolver
    ensures OnlyRead(resolver.reader, result0, result)
    ensures if ok then Covered(resolver.reader, o, result) else ReadFails(resolver.reader)
    ensures old(resolver.Serves(store)) && Readable(store, Owner(o.refs, [])) &&
            Recorded(base, result0, store, Tracked(store, Owner(o.refs, []))) ==>
              && ok == Readable(store, o)
              && (ok ==> Recorded(base, result, store, Tracked(store, o)))
  {
    ghost var steady := resolver.Serves(store) && Readable(store, Owner(o.refs, [])) &&
                        Recorded(base, result0, store, Tracked(store, Owner(o.refs, [])));
    result := result0;
    for i := 0 to |o.inlined|
      invariant resolver.Honest() && OnlyRead(resolver.reader, result0, result)
      invariant Covered(resolver.reader, Owner(o.refs, o.inlined[..i]), result)
      invariant steady ==> resolver.Serves(store) && Readable(store, Owner(o.refs, o.inlined[..i]))
      invariant steady ==> Recorded(base, result, store, Tracked(store, Owner(o.refs, o.inlined[..i])))
    {
      ghost var before := result;
      ghost var answers, names;
      TrackInline(store, o, i);
      ReadableInline(store, o, i);
      ok, result, answers, names := CollectAncestors(resolver, o.inlined[i].parent, "", result, store, base,
                                                     Tracked(store, Owner(o.refs, o.inlined[..i])));
      OnlyReadTwice(resolver.reader, result0, before, result);
      if !ok {
        return;
      }
      CoveredInline(resolver.reader, o, i, before, result);
    }
    assert Owner(o.refs, o.inlined[..|o.inlined|]) == o;
    ok := true;
  }

  /**
    `collectRulesetPresetGenerations`, for any reader: a failure means a read failed; otherwise, for every reference and
    inline ruleset, all presets of a chain that answers of the reader lead through are recorded, and nothing is recorded
    that was not read. With a reader that does not change, it succeeds exactly when every read on the way does, and
    records the generations of exactly the tracked presets.
   */
  method CollectPresetGenerations(reader: (string, nat) -> Read, result0: Generations, o: Owner, ghost store: Store)
    returns (ok: bool, result: Generations)
    ensures OnlyRead(reader, result0, result)
    ensures if ok then Covered(reader, o, result) else ReadFails(reader)
    ensures Stable(reader, store) ==>
              && ok == Readable(store, o)
              && (ok ==> Recorded(result0, result, store, Tracked(store, o)))
  {
    var resolver := new Resolver.ChainResolver(reader);
    ok, result := CollectReferences(resolver, result0, o.refs, store);
    if ok {
      ghost var before := result;
      ok, result := CollectInline(resolver, result, o, store, result0);
      OnlyReadTwice(reader, result0, before, result);
    }
  }

  lemma TrackRef(store: Store, refs: seq<string>, i: nat)
    requires i < |refs|
    ensures Tracked(store, Owner(refs[..i + 1], [])) == Tracked(store, Owner(refs[..i], [])) + RefNames(store, refs[i])
  {
    var a, b := Owner(refs[..i], []), Owner(refs[..i + 1], []);
    assert forall r :: r in b.refs <==> r in a.refs || r == refs[i];
  }

  lemma TrackInline(store: Store, o: Owner, i: nat)
    requires i < |o.inlined|
    ensures Tracked(store, Owner(o.refs, o.inlined[..i + 1])) ==
            Tracked(store, Owner(o.refs, o.inlined[..i])) + ChainNames(store, o.inlined[i].parent, "")
  {
    var a, b := Owner(o.refs, o.inlined[..i]), Owner(o.refs, o.inlined[..i + 1]);
    assert forall rs :: rs in b.inlined <==> rs in a.inlined || rs == o.inlined[i];
  }

  lemma ReadableRef(store: Store, refs: seq<string>, i: nat)
    requires i < |refs|
    ensures Readable(store, Owner(refs[..i + 1], [])) <==>
            && Readable(store, Owner(refs[..i], [])) && !Lookup(store, refs[i]).Failed?
            && Ancestors(store, ParentOf(store, refs[i]), refs[i]).Some?
    ensures Readable(store, Owner(refs, [])) ==> Readable(store, Owner(refs[..i + 1], []))
  {
    var a, b := Owner(refs[..i], []), Owner(refs[..i + 1], []);
    assert forall r :: r in b.refs <==> r in a.refs || r == refs[i];
  }

  lemma ReadableInline(store: Store, o: Owner, i: nat)
    requires i < |o.inlined|
    ensures Readable(store, Owner(o.refs, o.inlined[..i + 1])) <==>
            Readable(store, Owner(o.refs, o.inlined[..i])) && Ancestors(store, o.inlined[i].parent, "").Some?
    ensures Readable(store, o) ==> Readable(store, Owner(o.refs, o.inlined[..i + 1]))
  {
    var a, b := Owner(o.refs, o.inlined[..i]), Owner(o.refs, o.inlined[..i + 1]);
    assert forall rs :: rs in b.inlined <==> rs in a.inlined || rs == o.inlined[i];
  }

  // ---------------------------------------------------------------- the comparison

  /** A nil map is None. */
  method SubResourcesChanged(a: Option<Generations>, b: Option<Generations>) returns (changed: bool)
    ensures changed <==> a != b
  {
    if a.None? && b.None? {
      return false;
    }
    if a.None? || b.None? {
      return true;
    }
    if |a.value| != |b.value| {
      return true;
    }
    var rest := a.value.Keys;
    while rest != {}
      invariant rest <= a.value.Keys
      invariant forall k :: k in a.value && k !in rest ==> k in b.value && a.value[k] == b.value[k]
      decreases |rest|
    {
      var k :| k in rest;
      if k !in b.value || a.value[k] != b.value[k] {
        return true;
      }
      rest := rest - {k};
    }
    assert |a.value.Keys| == |a.value| && |b.value.Keys| == |b.value|;
    SubsetOfSameSize(a.value.Keys, b.value.Keys);
    assert a.value == b.value;
    return false;
  }

  /** A fetched map: the owner's preset generations on top of those of its other sub-resources. */
  ghost predicate Fetched(store: Store, o: Owner, others: Generations, all: Generations) {
    && (forall k :: k in others ==> k.kind != PRESET_KIND)
    && Recorded(others, all, store, Tracked(store, o))
  }

  /** An empty map is handed on as nil. */
  function AsStored(all: Generations): Option<Generations> {
    if |all| == 0 then None else Some(all)
  }

  /** A preset whose generation is the same has the same spec. */
  ghost predicate GenerationDeterminesSpec(s1: Store, s2: Store) {
    forall n :: Exists(s1, n) && Exists(s2, n) && Lookup(s1, n).preset.generation == Lookup(s2, n).preset.generation ==>
                  SpecOf(s1, n) == SpecOf(s2, n)
  }

  lemma TrackedAgree(s1: Store, s2: Store, o: Owner, others1: Generations, others2: Generations, all: Generations)
    requires GenerationDeterminesSpec(s1, s2)
    requires Fetched(s1, o, others1, all) && Fetched(s2, o, others2, all)
    ensures Tracked(s1, o) == Tracked(s2, o)
    ensures forall n :: n in Tracked(s1, o) ==> Exists(s1, n) && Lookup(s1, n) == Lookup(s2, n)
  {
    forall n ensures n in Tracked(s1, o) <==> Key(n) in all {
    }
    forall n ensures n in Tracked(s2, o) <==> Key(n) in all {
    }
  }

  /** If two walks record only presets the stores agree on, they read the same answers throughout. */
  lemma {:induction false} SameReads(s1: Store, s2: Store, agreed: set<string>, self: string, next: string,
                                     chain: seq<string>)
    requires |chain| <= MAX_EXTENDS_DEPTH && AllExist(s1, chain) && AllExist(s2, chain)
    requires forall n :: n in agreed ==> Exists(s1, n) && Lookup(s1, n) == Lookup(s2, n)
    requires AncestorWalk(s1, self, next, chain).Some? && Elems(AncestorWalk(s1, self, next, chain).value) <= agreed
    requires AncestorWalk(s2, self, next, chain).Some? && Elems(AncestorWalk(s2, self, next, chain).value) <= agreed
    ensures forall n :: n in ReadNames(s1, self, next, chain) ==> Lookup(s1, n) == Lookup(s2, n)
    decreases MAX_EXTENDS_DEPTH - |chain|
  {
    if next != "" && next != self && next !in chain && |chain| < MAX_EXTENDS_DEPTH {
      FoundIsRecorded(s1, self, next, chain);
      FoundIsRecorded(s2, self, next, chain);
      if Exists(s1, next) {
        SameReads(s1, s2, agreed, self, SpecOf(s1, next).parent, chain + [next]);
      }
    }
  }

  lemma {:induction false} FoundIsRecorded(store: Store, self: string, next: string, chain: seq<string>)
    requires |chain| < MAX_EXTENDS_DEPTH && AllExist(store, chain)
    requires next != "" && next != self && next !in chain
    requires AncestorWalk(store, self, next, chain).Some?
    ensures Exists(store, next) <==> next in Elems(AncestorWalk(store, self, next, chain).value)
  {
    if Exists(store, next) {
      AncestorsExist(store, self, SpecOf(store, next).parent, chain + [next]);
      assert AncestorWalk(store, self, next, chain).value[|chain|] == next;
    }
  }

  /**
    If an owner's recorded generations are equal for two states of the presets, every reference and every inline
    ruleset of the owner has the same outcome in both, missing parents, cycles and depth included.
   */
  lemma ChangeDetectionIsSound(s1: Store, s2: Store, o: Owner, others1: Generations, others2: Generations,
                               all1: Generations, all2: Generations)
    requires Readable(s1, o) && Readable(s2, o)
    requires GenerationDeterminesSpec(s1, s2)
    requires Fetched(s1, o, others1, all1) && Fetched(s2, o, others2, all2)
    requires AsStored(all1) == AsStored(all2)
    ensures !Affected(s1, s2, o)
  {
    assert all1 == all2 by {
      if |all1| == 0 {
        assert all1 == map[] && all2 == map[];
      }
    }
    TrackedAgree(s1, s2, o, others1, others2, all1);
    var agreed := Tracked(s1, o);
    forall r | r in o.refs ensures ResolveRef(s1, r) == ResolveRef(s2, r) {
      assert RefNames(s1, r) <= agreed && RefNames(s2, r) <= Tracked(s2, o);
      assert Exists(s1, r) ==> r in agreed;
      assert Exists(s2, r) ==> r in agreed;
      if Exists(s1, r) {
        SameReads(s1, s2, agreed, r, ParentOf(s1, r), []);
        ResolveIsLocal(s1, s2, SpecOf(s1, r), r);
      }
    }
    forall rs | rs in o.inlined ensures Resolve(s1, rs, "") == Resolve(s2, rs, "") {
      assert ChainNames(s1, rs.parent, "") <= agreed && ChainNames(s2, rs.parent, "") <= Tracked(s2, o);
      SameReads(s1, s2, agreed, "", rs.parent, []);
      ResolveIsLocal(s1, s2, rs, "");
    }
  }

  // ---------------------------------------------------------------- spreading

  datatype SpreadConfig = SpreadConfig(enabled: bool, start: int, period: int, interval: int)

  datatype Resource =
    Resource(generation: int, observedGeneration: int, healthy: bool, deleting: bool, observed: Option<Generations>)

  const MINUTE := 60

  /**
    `Spread` at time `now`, `pick` being the random draw. A delayed reconciliation is one whose spec and sub-resources
    are as last observed, and it lands inside the spreading interval.
   */
  method Spread(cfg: SpreadConfig, now: int, res: Resource, current: Option<Generations>, pick: nat)
    returns (delay: Option<int>)
    ensures delay.Some? ==>
              && cfg.enabled && now - cfg.start <= cfg.period
              && res.generation == res.observedGeneration && res.healthy && !res.deleting
              && current == res.observed
              && delay.value > 0
              && cfg.start + cfg.period <= now + delay.value < cfg.start + cfg.period + cfg.interval
              && (pick < cfg.interval / 60 ==> now + delay.value == cfg.start + cfg.period + pick * 60)
    ensures delay.None? ==>
              || !cfg.enabled || now - cfg.start > cfg.period
              || res.generation != res.observedGeneration || !res.healthy || res.deleting
              || current != res.observed
              || cfg.interval < 60
              || (now == cfg.start + cfg.period && pick % (cfg.interval / 60) == 0)
  {
    if !cfg.enabled || now - cfg.start > cfg.period {
      return None;
    }
    if res.generation != res.observedGeneration || !res.healthy || res.deleting {
      return None;
    }
    var changed := SubResourcesChanged(current, res.observed);
    if changed {
      return None;
    }
    var minutes := cfg.interval / MINUTE;
    if minutes < 1 {
      return None;
    }
    var offset := pick % minutes;
    var d := cfg.start + cfg.period + offset * MINUTE - now;
    if d <= 0 {
      return None;
    }
    return Some(d);
  }
}
