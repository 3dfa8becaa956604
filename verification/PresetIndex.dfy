/**
  `RulesetPresetIndex` (rulesetpreset_index.go): which Organizations and Repositories a changed preset wakes up. The
  reverse walk over the extends edges is bounded and must reach everything whose resolution reads the preset.
 */
module PresetIndex {
  import opened Collections
  import opened RulesetTypes
  import opened RulesetMerge
  import opened ExtendsChain

  /** The presets extending `parent`, as the field index on `spec.extends` lists them. */
  function Children(store: Store, parent: string): set<string> {
    set n | n in store && Exists(store, n) && ParentOf(store, n) != "" && ParentOf(store, n) == parent
  }

  /** `p` and every preset that extends it in at most `depth` steps. */
  function Descendants(store: Store, p: string, depth: nat): set<string> {
    if depth == 0 then {p}
    else
      var near := Descendants(store, p, depth - 1);
      near + set n | n in store && Exists(store, n) && ParentOf(store, n) != "" && ParentOf(store, n) in near
  }

  lemma {:induction false} DescendantsGrow(store: Store, p: string, d: nat, e: nat)
    requires d <= e
    ensures p in Descendants(store, p, d) && Descendants(store, p, d) <= Descendants(store, p, e)
    decreases e
  {
    if d < e {
      DescendantsGrow(store, p, d, e - 1);
    } else if d > 0 {
      DescendantsGrow(store, p, d - 1, e - 1);
    }
  }

  lemma {:induction false} DescendantsFixed(store: Store, p: string, d: nat, e: nat)
    requires d <= e
    requires forall q :: q in Descendants(store, p, d) ==> Children(store, q) <= Descendants(store, p, d)
    ensures Descendants(store, p, e) == Descendants(store, p, d)
    decreases e
  {
    if d < e {
      DescendantsFixed(store, p, d, e - 1);
      forall n | n in store && Exists(store, n) && ParentOf(store, n) != "" &&
                 ParentOf(store, n) in Descendants(store, p, d)
        ensures n in Descendants(store, p, d)
      {
        assert n in Children(store, ParentOf(store, n));
      }
    }
  }

  // ---------------------------------------------------------------- the bounded reverse walk

  /** `list(q)` is the answer of listing the presets that extend `q`: some order of the children, or an error. */
  ghost predicate ListsChildren(list: string -> Option<seq<string>>, store: Store) {
    forall q :: list(q).Some? ==> Elems(list(q).value) == Children(store, q)
  }

  /** The names so far are within reach, and every name not on the level still to expand has been expanded. */
  ghost predicate Expanded(store: Store, p: string, names: seq<string>, level: seq<string>, depth: nat) {
    && NoDup(names)
    && |names| > 0 && names[0] == p
    && Elems(level) <= Elems(names)
    && Elems(names) == Descendants(store, p, depth)
    && forall q :: q in names && q !in level ==> Children(store, q) <= Elems(names)
  }

  /** Expands one level; None when a list call fails, with the names found so far. */
  method ExpandLevel(ghost store: Store, list: string -> Option<seq<string>>, p: string, level: seq<string>,
                     names0: seq<string>, ghost depth: nat)
    returns (names: seq<string>, next: seq<string>, failed: bool)
    requires ListsChildren(list, store)
    requires Expanded(store, p, names0, level, depth)
    ensures NoDup(names) && |names| > 0 && names[0] == p
    ensures Elems(names) <= Descendants(store, p, depth + 1)
    ensures failed ==> exists q :: list(q).None?
    ensures !failed ==> Expanded(store, p, names, next, depth + 1)
  {
    names, next, failed := names0, [], false;
    for i := 0 to |level|
      invariant NoDup(names) && names0 <= names
      invariant Elems(names) == Elems(names0) + Elems(next)
      invariant Elems(names) <= Descendants(store, p, depth + 1)
      invariant forall q :: q in names0 && q !in level[i..] ==> Children(store, q) <= Elems(names)
    {
      var children := list(level[i]);
      if children.None? {
        return names, next, true;
      }
      assert level[i..] == [level[i]] + level[i + 1..];
      names, next := AddUnseen(store, p, level[i], children.value, names, next, depth);
    }
    assert level[|level|..] == [];
    forall n | n in Descendants(store, p, depth + 1) ensures n in names {
      if n !in names0 {
        assert n in Children(store, ParentOf(store, n));
      }
    }
  }

  method AddUnseen(ghost store: Store, p: string, parent: string, children: seq<string>,
                   names0: seq<string>, next0: seq<string>, ghost depth: nat)
    returns (names: seq<string>, next: seq<string>)
    requires Elems(children) == Children(store, parent) && parent in Descendants(store, p, depth)
    requires NoDup(names0) && Elems(names0) <= Descendants(store, p, depth + 1)
    ensures NoDup(names) && names0 <= names && Elems(names) <= Descendants(store, p, depth + 1)
    ensures Elems(names) == Elems(names0) + Children(store, parent)
    ensures Elems(next) == Elems(next0) + (Children(store, parent) - Elems(names0))
  {
    names, next := names0, next0;
    for j := 0 to |children|
      invariant NoDup(names) && names0 <= names
      invariant Elems(names) == Elems(names0) + Elems(children[..j])
      invariant Elems(next) == Elems(next0) + (Elems(children[..j]) - Elems(names0))
    {
      ElemsPrefix(children, j);
      ElemsSnoc(names, children[j]);
      ElemsSnoc(next, children[j]);
      if children[j] !in names {
        names := names + [children[j]];
        next := next + [children[j]];
      }
    }
    assert children[..|children|] == children;
  }

  /** Without list errors the walk returns, without repetition, exactly what extends `p` in at most five steps. */
  method PresetWithDescendants(ghost store: Store, list: string -> Option<seq<string>>, p: string)
    returns (names: seq<string>)
    requires ListsChildren(list, store)
    ensures NoDup(names) && |names| > 0 && names[0] == p
    ensures Elems(names) <= Descendants(store, p, MAX_EXTENDS_DEPTH)
    ensures (forall q :: list(q).Some?) ==> Elems(names) == Descendants(store, p, MAX_EXTENDS_DEPTH)
  {
    names := [p];
    var level := [p];
    var depth := 0;
    while depth < MAX_EXTENDS_DEPTH && |level| > 0
      invariant depth <= MAX_EXTENDS_DEPTH
      invariant Expanded(store, p, names, level, depth)
      decreases MAX_EXTENDS_DEPTH - depth
    {
      var failed;
      names, level, failed := ExpandLevel(store, list, p, level, names, depth);
      DescendantsGrow(store, p, depth + 1, MAX_EXTENDS_DEPTH);
      if failed {
        return;
      }
      depth := depth + 1;
    }
    if |level| == 0 {
      DescendantsFixed(store, p, depth, MAX_EXTENDS_DEPTH);
    }
  }

  // ---------------------------------------------------------------- owners and their requests

  /** An Organization or Repository: its preset references and its inline rulesets. */
  datatype Owner = Owner(refs: seq<string>, inlined: seq<RulesetSpec>)

  /** `referencedRulesetPresetNames`, as a set: the index keys of an owner. */
  function ReferencedNames(o: Owner): set<string> {
    Elems(o.refs) + set rs | rs in o.inlined && rs.parent != "" :: rs.parent
  }

  /** The owners indexed under at least one of `names`. */
  function Referencing(owners: map<string, Owner>, names: set<string>): set<string> {
    set o | o in owners && ReferencedNames(owners[o]) * names != {}
  }

  ghost predicate ListsOwners(list: string -> Option<seq<string>>, owners: map<string, Owner>) {
    forall q :: list(q).Some? ==> Elems(list(q).value) == Referencing(owners, {q})
  }

  /** One request per owner referencing the preset or a descendant; an owner list that fails is skipped. */
  method Requests(ghost store: Store, ghost owners: map<string, Owner>, listPresets: string -> Option<seq<string>>,
                  listOwners: string -> Option<seq<string>>, p: string)
    returns (requests: seq<string>)
    requires ListsChildren(listPresets, store) && ListsOwners(listOwners, owners)
    ensures NoDup(requests)
    ensures Elems(requests) <= Referencing(owners, Descendants(store, p, MAX_EXTENDS_DEPTH))
    ensures (forall q :: listPresets(q).Some? && listOwners(q).Some?) ==>
              Elems(requests) == Referencing(owners, Descendants(store, p, MAX_EXTENDS_DEPTH))
  {
    var names := PresetWithDescendants(store, listPresets, p);
    requests := [];
    for i := 0 to |names|
      invariant NoDup(requests)
      invariant Elems(requests) <= Referencing(owners, Elems(names[..i]))
      invariant (forall q :: listOwners(q).Some?) ==> Elems(requests) == Referencing(owners, Elems(names[..i]))
    {
      assert names[..i + 1] == names[..i] + [names[i]];
      assert Elems(names[..i + 1]) == Elems(names[..i]) + {names[i]};
      ReferencingSplit(owners, Elems(names[..i]), {names[i]});
      var list := listOwners(names[i]);
      if list.Some? {
        requests := AddRequests(requests, list.value);
      }
    }
    assert names[..|names|] == names;
    ReferencingSplit(owners, Elems(names), Descendants(store, p, MAX_EXTENDS_DEPTH) - Elems(names));
    assert Elems(names) + (Descendants(store, p, MAX_EXTENDS_DEPTH) - Elems(names)) ==
           Descendants(store, p, MAX_EXTENDS_DEPTH);
  }

  method AddRequests(requests0: seq<string>, items: seq<string>) returns (requests: seq<string>)
    requires NoDup(requests0)
    ensures NoDup(requests) && Elems(requests) == Elems(requests0) + Elems(items)
  {
    requests := requests0;
    for j := 0 to |items|
      invariant NoDup(requests) && Elems(requests) == Elems(requests0) + Elems(items[..j])
    {
      ElemsPrefix(items, j);
      ElemsSnoc(requests, items[j]);
      if items[j] !in requests {
        requests := requests + [items[j]];
      }
    }
    assert items[..|items|] == items;
  }

  lemma ReferencingSplit(owners: map<string, Owner>, a: set<string>, b: set<string>)
    ensures Referencing(owners, a + b) == Referencing(owners, a) + Referencing(owners, b)
  {
    forall o | o in owners
      ensures ReferencedNames(owners[o]) * (a + b) != {} <==>
              ReferencedNames(owners[o]) * a != {} || ReferencedNames(owners[o]) * b != {}
    {
      assert ReferencedNames(owners[o]) * (a + b) == ReferencedNames(owners[o]) * a + ReferencedNames(owners[o]) * b;
    }
  }

  // ---------------------------------------------------------------- watch completeness

  /** What a direct reference yields: the read of the preset itself, then its resolution. */
  datatype RefOutcome = Unreadable(read: Read) | Effective(outcome: Outcome)

  function ResolveRef(store: Store, name: string): RefOutcome {
    if Exists(store, name) then Effective(Resolve(store, SpecOf(store, name), name))
    else Unreadable(Lookup(store, name))
  }

  /** The change makes a difference to some ruleset of the owner. */
  ghost predicate Affected(before: Store, after: Store, o: Owner) {
    || (exists r :: r in o.refs && ResolveRef(before, r) != ResolveRef(after, r))
    || (exists rs :: rs in o.inlined && Resolve(before, rs, "") != Resolve(after, rs, ""))
  }

  /** The stores differ at most in preset `p`: it was created, deleted or changed. */
  ghost predicate OnlyChanged(before: Store, after: Store, p: string) {
    forall n :: n != p ==> Lookup(before, n) == Lookup(after, n)
  }

  /** Whatever a walk reads is reached by the reverse walk, in any store that has the same other presets. */
  lemma {:induction false} ReadersAreDescendants(before: Store, after: Store, p: string, self: string, next: string,
                                                 chain: seq<string>)
    requires OnlyChanged(before, after, p)
    requires |chain| <= MAX_EXTENDS_DEPTH
    requires p in ReadNames(before, self, next, chain)
    ensures |chain| < MAX_EXTENDS_DEPTH && next != ""
    ensures next in Descendants(after, p, MAX_EXTENDS_DEPTH - 1 - |chain|)
    decreases MAX_EXTENDS_DEPTH - |chain|
  {
    if next == p {
      DescendantsGrow(after, p, 0, MAX_EXTENDS_DEPTH - 1 - |chain|);
    } else {
      ReadersAreDescendants(before, after, p, self, SpecOf(before, next).parent, chain + [next]);
      assert Lookup(after, next) == Lookup(before, next);
    }
  }

  /** A change that makes a difference is read by the walk. */
  lemma {:induction false} ChangeIsRead(before: Store, after: Store, p: string, spec: RulesetSpec, self: string)
    requires OnlyChanged(before, after, p)
    ensures p in ReadNames(before, self, spec.parent, []) || Resolve(before, spec, self) == Resolve(after, spec, self)
  {
    if p !in ReadNames(before, self, spec.parent, []) {
      ResolveIsLocal(before, after, spec, self);
    }
  }

  lemma {:induction false} ReadersOf(before: Store, after: Store, p: string, spec: RulesetSpec, self: string)
    requires OnlyChanged(before, after, p)
    requires p in ReadNames(before, self, spec.parent, [])
    ensures spec.parent != "" && spec.parent in Descendants(after, p, MAX_EXTENDS_DEPTH - 1)
  {
    ReadersAreDescendants(before, after, p, self, spec.parent, []);
  }

  /** A ruleset whose outcome changes extends a preset that the reverse walk finds in four steps. */
  lemma {:induction false} ChangedReaders(before: Store, after: Store, p: string, spec: RulesetSpec, self: string)
    requires OnlyChanged(before, after, p)
    requires Resolve(before, spec, self) != Resolve(after, spec, self)
    ensures spec.parent != "" && spec.parent in Descendants(after, p, MAX_EXTENDS_DEPTH - 1)
  {
    ChangeIsRead(before, after, p, spec, self);
    ReadersOf(before, after, p, spec, self);
  }

  lemma {:induction false} ReferenceReaders(before: Store, after: Store, p: string, r: string)
    requires OnlyChanged(before, after, p)
    requires ResolveRef(before, r) != ResolveRef(after, r)
    ensures r in Descendants(after, p, MAX_EXTENDS_DEPTH)
  {
    if r == p {
      DescendantsGrow(after, p, 0, MAX_EXTENDS_DEPTH);
    } else {
      assert Lookup(before, r) == Lookup(after, r);
      ChangedReaders(before, after, p, SpecOf(before, r), r);
    }
  }

  /**
    Every owner with a ruleset whose outcome the change of `p` alters references a name the reverse walk finds; the
    walk may run on the presets before or after the change, and extends may form cycles.
   */
  lemma {:induction false} WatchIsComplete(before: Store, after: Store, p: string, owners: map<string, Owner>,
                                           o: string)
    requires OnlyChanged(before, after, p)
    requires o in owners && Affected(before, after, owners[o])
    ensures o in Referencing(owners, Descendants(after, p, MAX_EXTENDS_DEPTH))
    ensures o in Referencing(owners, Descendants(before, p, MAX_EXTENDS_DEPTH))
  {
    WatchFindsOwner(before, after, p, owners, o);
    WatchFindsOwner(after, before, p, owners, o);
  }

  lemma {:induction false} WatchFindsOwner(before: Store, after: Store, p: string, owners: map<string, Owner>,
                                           o: string)
    requires OnlyChanged(before, after, p)
    requires o in owners && Affected(before, after, owners[o])
    ensures o in Referencing(owners, Descendants(after, p, MAX_EXTENDS_DEPTH))
  {
    var found := Descendants(after, p, MAX_EXTENDS_DEPTH);
    if r :| r in owners[o].refs && ResolveRef(before, r) != ResolveRef(after, r) {
      ReferenceReaders(before, after, p, r);
      assert r in ReferencedNames(owners[o]) * found;
    } else {
      var rs :| rs in owners[o].inlined && Resolve(before, rs, "") != Resolve(after, rs, "");
      ChangedReaders(before, after, p, rs, "");
      DescendantsGrow(after, p, MAX_EXTENDS_DEPTH - 1, MAX_EXTENDS_DEPTH);
      assert rs.parent in ReferencedNames(owners[o]) * found;
    }
  }

  // ---------------------------------------------------------------- which owners are woken up

  /** A path along the extends edges that ends at `p`. */
  ghost predicate LeadsTo(store: Store, path: seq<string>, p: string) {
    && path != [] && path[|path| - 1] == p
    && forall i :: 0 <= i < |path| - 1 ==> Extends(store, path[i], path[i + 1])
  }

  ghost predicate Extends(store: Store, n: string, parent: string) {
    n in store && Exists(store, n) && ParentOf(store, n) == parent && parent != ""
  }

  lemma {:induction false} DescendantsLead(store: Store, p: string, depth: nat, n: string) returns (path: seq<string>)
    requires n in Descendants(store, p, depth)
    ensures LeadsTo(store, path, p) && path[0] == n && |path| <= depth + 1
  {
    if depth == 0 {
      path := [p];
    } else if n in Descendants(store, p, depth - 1) {
      path := DescendantsLead(store, p, depth - 1, n);
    } else {
      var up := DescendantsLead(store, p, depth - 1, ParentOf(store, n));
      path := [n] + up;
      assert Extends(store, n, up[0]);
      assert forall i :: 0 < i < |path| ==> path[i] == up[i - 1];
      assert forall i :: 0 < i < |path| - 1 ==> Extends(store, up[i - 1], up[i]);
    }
  }

  lemma {:induction false} LeadingIsDescending(store: Store, path: seq<string>, p: string, depth: nat)
    requires LeadsTo(store, path, p) && |path| <= depth + 1
    ensures path[0] in Descendants(store, p, depth)
  {
    if |path| == 1 {
      DescendantsGrow(store, p, 0, depth);
    } else {
      var rest := path[1..];
      forall i | 0 <= i < |rest| - 1 ensures Extends(store, rest[i], rest[i + 1]) {
        assert rest[i] == path[i + 1] && rest[i + 1] == path[i + 2];
      }
      LeadingIsDescending(store, rest, p, depth - 1);
      assert Extends(store, path[0], path[1]);
    }
  }

  /** The owner references the preset, or extends it in an inline ruleset. */
  ghost predicate Uses(o: Owner, n: string) {
    n in o.refs || (n != "" && exists rs :: rs in o.inlined && rs.parent == n)
  }

  /** An owner is woken up exactly if it uses a preset from which at most five extends edges lead to the changed one. */
  lemma {:induction false} WokenUpIff(store: Store, p: string, owners: map<string, Owner>, o: string)
    ensures o in Referencing(owners, Descendants(store, p, MAX_EXTENDS_DEPTH)) <==>
            o in owners && exists path :: LeadsTo(store, path, p) && |path| <= 6 && Uses(owners[o], path[0])
  {
    var found := Descendants(store, p, MAX_EXTENDS_DEPTH);
    if o in Referencing(owners, found) {
      var n :| n in ReferencedNames(owners[o]) * found;
      var path := DescendantsLead(store, p, MAX_EXTENDS_DEPTH, n);
      assert Uses(owners[o], path[0]);
    }
    if o in owners {
      if path :| LeadsTo(store, path, p) && |path| <= 6 && Uses(owners[o], path[0]) {
        LeadingIsDescending(store, path, p, MAX_EXTENDS_DEPTH);
        assert path[0] in ReferencedNames(owners[o]) * found;
      }
    }
  }

  /** For inline rulesets four steps would do. */
  lemma {:induction false} InlineNeedsOneLess(before: Store, after: Store, p: string, o: Owner)
    requires OnlyChanged(before, after, p)
    requires o.refs == [] && Affected(before, after, o)
    ensures ReferencedNames(o) * Descendants(after, p, MAX_EXTENDS_DEPTH - 1) != {}
  {
    var rs :| rs in o.inlined && Resolve(before, rs, "") != Resolve(after, rs, "");
    ChangedReaders(before, after, p, rs, "");
    assert rs.parent in ReferencedNames(o) * Descendants(after, p, MAX_EXTENDS_DEPTH - 1);
  }

  // ---------------------------------------------------------------- the bound is needed

  function Plain(name: string, parent: string, enforcement: string): RulesetSpec {
    RulesetSpec(name, parent, "", None, enforcement, [],
                Rules(None, None, None, None, None, None, None, None, None, None, None, None, None, None, None))
  }

  function Entry(name: string, parent: string, enforcement: string): Read {
    Found(Preset(Plain(name, parent, enforcement), 1))
  }

  /** A reference five steps below a missing base. */
  const LONG_CHAIN: Store :=
    map["r" := Entry("r", "a", ""), "a" := Entry("a", "b", ""), "b" := Entry("b", "c", ""),
        "c" := Entry("c", "d", ""), "d" := Entry("d", "p", "")]

  lemma LongChainPath(store: Store)
    requires forall n :: n != "p" ==> Lookup(store, n) == Lookup(LONG_CHAIN, n)
    ensures CleanPath(store, "r", "a", ["a", "b", "c", "d"])
    ensures NextName(store, "a", ["a", "b", "c", "d"]) == "p"
  {
    var names := ["a", "b", "c", "d"];
    assert Lookup(store, "a") == LONG_CHAIN["a"] && Lookup(store, "b") == LONG_CHAIN["b"];
    assert Lookup(store, "c") == LONG_CHAIN["c"] && Lookup(store, "d") == LONG_CHAIN["d"];
    forall i | 0 <= i < |names| ensures Linked(store, "a", names, i) {
      assert i == 0 || i == 1 || i == 2 || i == 3;
    }
  }

  const LONG_CHAIN_WITH_BASE: Store := LONG_CHAIN["p" := Entry("p", "", "active")]

  lemma LongChainFailsIff(store: Store, spec: RulesetSpec)
    requires forall n :: n != "p" ==> Lookup(store, n) == Lookup(LONG_CHAIN, n)
    requires Lookup(store, "r").Found? && SpecOf(store, "r") == spec && spec.name == "r" && spec.parent == "a"
    ensures ResolveRef(store, "r") == Effective(Unresolved("r", ["a", "b", "c", "d"] + ["p"], ParentNotFound)) <==>
            Lookup(store, "p").Missing?
  {
    LongChainPath(store);
    ResolveFailsIff(store, spec, "r", ["a", "b", "c", "d"], "p", ParentNotFound);
  }

  /** Without the base the reference does not resolve; with it, there is no such error. */
  lemma BaseMakesADifference()
    ensures ResolveRef(LONG_CHAIN, "r") != ResolveRef(LONG_CHAIN_WITH_BASE, "r")
  {
    LongChainFailsIff(LONG_CHAIN, Plain("r", "a", ""));
    LongChainFailsIff(LONG_CHAIN_WITH_BASE, Plain("r", "a", ""));
  }

  lemma LongChainParents(n: string)
    requires ParentOf(LONG_CHAIN_WITH_BASE, n) != ""
    ensures (n, ParentOf(LONG_CHAIN_WITH_BASE, n)) in {("r", "a"), ("a", "b"), ("b", "c"), ("c", "d"), ("d", "p")}
  {
  }

  /** What extends one of `near` is in `far`. */
  lemma OneMoreStep(depth: nat, near: set<string>, far: set<string>)
    requires Descendants(LONG_CHAIN_WITH_BASE, "p", depth) <= near <= far
    requires forall n :: ParentOf(LONG_CHAIN_WITH_BASE, n) != "" && ParentOf(LONG_CHAIN_WITH_BASE, n) in near ==> n in far
    ensures Descendants(LONG_CHAIN_WITH_BASE, "p", depth + 1) <= far
  {
  }

  lemma FourStepsFromBase()
    ensures Descendants(LONG_CHAIN_WITH_BASE, "p", 4) <= {"p", "d", "c", "b", "a"}
  {
    forall n | ParentOf(LONG_CHAIN_WITH_BASE, n) != "" {
      LongChainParents(n);
    }
    OneMoreStep(0, {"p"}, {"p", "d"});
    OneMoreStep(1, {"p", "d"}, {"p", "d", "c"});
    OneMoreStep(2, {"p", "d", "c"}, {"p", "d", "c", "b"});
    OneMoreStep(3, {"p", "d", "c", "b"}, {"p", "d", "c", "b", "a"});
  }

  lemma OneReference(before: Store, after: Store, r: string)
    requires ResolveRef(before, r) != ResolveRef(after, r)
    ensures Affected(before, after, Owner([r], [])) && ReferencedNames(Owner([r], [])) == {r}
  {
    assert r in Owner([r], []).refs;
  }

  /** With a bound of four, creating the base of a longest allowed chain would not wake the chain's owner. */
  lemma FourStepsMissADirectReference()
    ensures var o := Owner(["r"], []);
            && OnlyChanged(LONG_CHAIN, LONG_CHAIN_WITH_BASE, "p")
            && Affected(LONG_CHAIN, LONG_CHAIN_WITH_BASE, o)
            && ReferencedNames(o) * Descendants(LONG_CHAIN_WITH_BASE, "p", MAX_EXTENDS_DEPTH - 1) == {}
  {
    BaseMakesADifference();
    OneReference(LONG_CHAIN, LONG_CHAIN_WITH_BASE, "r");
    FourStepsFromBase();
  }
}
