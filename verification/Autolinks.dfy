/**
  Autolink synchronization (reporec/rec_autolinks.go): unused autolinks are deleted before missing ones are created.
  GitHub is a map of autolinks by id with the history of its states; the n-th API call fails if `fails(n)`.
 */
module Autolinks {
  import opened Collections
  import opened KeyedMerge
  import opened ChainFold
  import opened MergeDefinitions

  datatype Autolink = Autolink(keyPrefix: string, urlTemplate: string, isAlphanumeric: bool)

  datatype DesiredAutolink = DesiredAutolink(source: string, spec: Autolink)

  // ---------------------------------------------------------------- identity

  /** The string that is hashed. */
  function JoinedText(l: Autolink): string {
    l.keyPrefix + "|" + l.urlTemplate + "|" + if l.isAlphanumeric then "true" else "false"
  }

  predicate NoBar(l: Autolink) { '|' !in l.keyPrefix }

  lemma SamePrefix(a: Autolink, b: Autolink)
    requires NoBar(a) && NoBar(b) && JoinedText(a) == JoinedText(b)
    ensures a.keyPrefix == b.keyPrefix
  {
    BarEndsPrefix(a);
    BarEndsPrefix(b);
    assert |a.keyPrefix| == |b.keyPrefix|;
    assert a.keyPrefix == JoinedText(a)[..|a.keyPrefix|] && b.keyPrefix == JoinedText(b)[..|b.keyPrefix|];
  }

  lemma BarEndsPrefix(l: Autolink)
    requires NoBar(l)
    ensures |l.keyPrefix| < |JoinedText(l)| && JoinedText(l)[|l.keyPrefix|] == '|'
    ensures forall i :: 0 <= i < |l.keyPrefix| ==> JoinedText(l)[i] != '|'
  {
    assert forall i :: 0 <= i < |l.keyPrefix| ==> JoinedText(l)[i] == l.keyPrefix[i];
  }

  /** Without a bar in the prefixes, the text identifies the autolink. */
  lemma JoinedTextInjective(a: Autolink, b: Autolink)
    requires NoBar(a) && NoBar(b) && JoinedText(a) == JoinedText(b)
    ensures a == b
  {
    SamePrefix(a, b);
    var s := JoinedText(a);
    var n := |a.keyPrefix| + 1;
    assert s[|s| - 5] == if a.isAlphanumeric then '|' else 'f';
    assert s[|s| - 5] == if b.isAlphanumeric then '|' else 'f';
    var tail := if a.isAlphanumeric then 5 else 6;
    assert a.urlTemplate == s[n..|s| - tail] && b.urlTemplate == s[n..|s| - tail];
  }

  /**
    An autolink can be told apart by its text from all those that pass admission (whose prefixes have no bar) exactly
    when its own prefix has none.
   */
  lemma JoinedTextIdentifiesIff(l: Autolink)
    ensures (forall m :: NoBar(m) && JoinedText(m) == JoinedText(l) ==> m == l) <==> NoBar(l)
  {
    if NoBar(l) {
      forall m | NoBar(m) && JoinedText(m) == JoinedText(l) ensures m == l {
        JoinedTextInjective(m, l);
      }
    } else {
      var i := FirstPlace(l.keyPrefix, '|');
      var before, after := l.keyPrefix[..i], l.keyPrefix[i + 1..];
      var m := Autolink(before, after + "|" + l.urlTemplate, l.isAlphanumeric);
      var end := "|" + if l.isAlphanumeric then "true" else "false";
      assert JoinedText(m) == before + "|" + (after + "|" + l.urlTemplate) + end;
      assert before + "|" + (after + "|" + l.urlTemplate) == (before + "|" + after) + "|" + l.urlTemplate;
      assert JoinedText(m) == JoinedText(l);
      assert NoBar(m) && m != l;
    }
  }

  /** With a bar two autolinks collide. */
  lemma BarsCollide()
    ensures JoinedText(Autolink("a|b", "c", true)) == JoinedText(Autolink("a", "b|c", true))
  {
  }

  ghost predicate CollisionFree(hash: string -> string) {
    forall x, y :: hash(x) == hash(y) ==> x == y
  }

  /** `HashAutolink`. */
  function HashOf(hash: string -> string, l: Autolink): string { hash(JoinedText(l)) }

  lemma HashInjective(hash: string -> string, a: Autolink, b: Autolink)
    requires CollisionFree(hash) && NoBar(a) && NoBar(b) && HashOf(hash, a) == HashOf(hash, b)
    ensures a == b
  {
    JoinedTextInjective(a, b);
  }

  // ---------------------------------------------------------------- the desired autolinks

  function PrefixOf(d: DesiredAutolink): string { d.spec.keyPrefix }

  predicate SameLink(a: DesiredAutolink, b: DesiredAutolink) { a.spec == b.spec }

  function LinkSource(d: DesiredAutolink): string { d.source }

  function LinksOf(ds: seq<DesiredAutolink>): set<Autolink> {
    set d | d in ds :: d.spec
  }

  ghost predicate DistinctPrefixes(links: set<Autolink>) {
    forall a, b :: a in links && b in links && a.keyPrefix == b.keyPrefix ==> a == b
  }

  /** Without conflicts the deduplicated list has all desired autolinks, each prefix once. */
  lemma {:induction false} DedupedLinks(cs: seq<DesiredAutolink>)
    requires ConflictKeys(cs, PrefixOf, SameLink) == []
    ensures LinksOf(FirstPerKey(cs, PrefixOf)) == LinksOf(cs)
    ensures DistinctPrefixes(LinksOf(cs))
  {
    var kept := FirstPerKey(cs, PrefixOf);
    FirstPerKeyIsFirst(cs, PrefixOf);
    forall c | c in cs ensures exists d :: d in kept && d.spec == c.spec && PrefixOf(d) == PrefixOf(c) {
      assert PrefixOf(c) in Keys(kept, PrefixOf);
      var d :| d in kept && PrefixOf(d) == PrefixOf(c);
      FirstIsSame(cs, d, c);
    }
    forall a, b | a in LinksOf(cs) && b in LinksOf(cs) && a.keyPrefix == b.keyPrefix ensures a == b {
      var c :| c in cs && c.spec == a;
      var d :| d in cs && d.spec == b;
      var f :| f in kept && f.spec == c.spec && PrefixOf(f) == PrefixOf(c);
      FirstIsSame(cs, f, d);
    }
  }

  lemma {:induction false} FirstIsSame(cs: seq<DesiredAutolink>, first: DesiredAutolink, c: DesiredAutolink)
    requires ConflictKeys(cs, PrefixOf, SameLink) == []
    requires c in cs && PrefixOf(c) == PrefixOf(first)
    requires WithKey(cs, PrefixOf(first), PrefixOf) != [] && WithKey(cs, PrefixOf(first), PrefixOf)[0] == first
    ensures first.spec == c.spec
  {
    var same := WithKey(cs, PrefixOf(first), PrefixOf);
    WithKeySome(cs, PrefixOf(first), PrefixOf);
    ConflictIff(cs, PrefixOf, SameLink, PrefixOf(first));
    var j :| 0 <= j < |same| && same[j] == c;
  }

  // ---------------------------------------------------------------- GitHub's side

  datatype Hub = Hub(links: map<int, Autolink>, nextId: int, calls: nat, history: seq<map<int, Autolink>>)

  datatype State = State(hub: Hub, ok: bool)

  function Fail(st: State): State { State(st.hub.(calls := st.hub.calls + 1), false) }

  function Become(st: State, links: map<int, Autolink>, nextId: int): State {
    State(Hub(links, nextId, st.hub.calls + 1, st.hub.history + [links]), true)
  }

  function DeleteLink(st: State, id: int, fails: nat -> bool): State {
    if fails(st.hub.calls) || id !in st.hub.links then Fail(st)
    else Become(st, st.hub.links - {id}, st.hub.nextId)
  }

  function CreateLink(st: State, l: Autolink, fails: nat -> bool): State {
    if fails(st.hub.calls) then Fail(st)
    else Become(st, st.hub.links[st.hub.nextId := l], st.hub.nextId + 1)
  }

  /** `cleanupUnusedAutolinks` over the map in some order; an entry without id is skipped. */
  function RemoveAll(st: State, unused: map<string, Option<int>>, order: seq<string>, fails: nat -> bool): State
    requires forall h :: h in order ==> h in unused
  {
    if order == [] then st
    else
      var n := |order| - 1;
      var before := RemoveAll(st, unused, order[..n], fails);
      if !before.ok || unused[order[n]].None? then before else DeleteLink(before, unused[order[n]].value, fails)
  }

  /** `createMissingAutolinks` over the map in some order. */
  function AddAll(st: State, missing: map<string, Autolink>, order: seq<string>, fails: nat -> bool): State
    requires forall h :: h in order ==> h in missing
  {
    if order == [] then st
    else
      var n := |order| - 1;
      var before := AddAll(st, missing, order[..n], fails);
      if before.ok then CreateLink(before, missing[order[n]], fails) else before
  }

  // ---------------------------------------------------------------- what is unused and what is missing

  datatype Listed =
    Listed(id: Option<int>, keyPrefix: Option<string>, urlTemplate: Option<string>, isAlphanumeric: Option<bool>)

  predicate Complete(l: Listed) { l.keyPrefix.Some? && l.urlTemplate.Some? && l.isAlphanumeric.Some? }

  function LinkOf(l: Listed): Autolink
    requires Complete(l)
  {
    Autolink(l.keyPrefix.value, l.urlTemplate.value, l.isAlphanumeric.value)
  }

  /** The listed autolinks by hash, incomplete ones skipped. */
  function Existing(hash: string -> string, listing: seq<Listed>): map<string, Option<int>> {
    if listing == [] then map[]
    else
      var n := |listing| - 1;
      var m := Existing(hash, listing[..n]);
      if Complete(listing[n]) then m[HashOf(hash, LinkOf(listing[n])) := listing[n].id] else m
  }

  function Hashes(hash: string -> string, ds: seq<DesiredAutolink>): set<string> {
    set d | d in ds :: HashOf(hash, d.spec)
  }

  function Unused(existing: map<string, Option<int>>, wanted: set<string>): map<string, Option<int>> {
    existing - wanted
  }

  function Missing(hash: string -> string, existing: map<string, Option<int>>, ds: seq<DesiredAutolink>):
      map<string, Autolink> {
    if ds == [] then map[]
    else
      var n := |ds| - 1;
      var m := Missing(hash, existing, ds[..n]);
      var h := HashOf(hash, ds[n].spec);
      if h in existing then m else m[h := ds[n].spec]
  }

  /** `order` lists each key of a map once; all of them if the loop came to its end. */
  ghost predicate Enumerates(order: seq<string>, keys: set<string>, all: bool) {
    NoDup(order) && Elems(order) <= keys && (all ==> Elems(order) == keys)
  }

  /** A run from the listing on: removals in the order `rs`, then additions in the order `cs`. */
  ghost predicate Run(hub: Hub, hash: string -> string, listing: seq<Listed>, ds: seq<DesiredAutolink>,
                      fails: nat -> bool, rs: seq<string>, cs: seq<string>, end: State) {
    if fails(hub.calls) then end == Fail(State(hub, true))
    else
      var existing := Existing(hash, listing);
      var unused, missing := Unused(existing, Hashes(hash, ds)), Missing(hash, existing, ds);
      && (forall h :: h in rs ==> h in unused)
      && (forall h :: h in cs ==> h in missing)
      && var cleaned := RemoveAll(State(hub.(calls := hub.calls + 1), true), unused, rs, fails);
         && Enumerates(rs, unused.Keys, cleaned.ok)
         && if cleaned.ok then end == AddAll(cleaned, missing, cs, fails) && Enumerates(cs, missing.Keys, end.ok)
            else end == cleaned
  }

  // ---------------------------------------------------------------- the code

  method IndexListing(hash: string -> string, listing: seq<Listed>) returns (m: map<string, Option<int>>)
    ensures m == Existing(hash, listing)
  {
    m := map[];
    for i := 0 to |listing|
      invariant m == Existing(hash, listing[..i])
    {
      assert listing[..i + 1][..i] == listing[..i];
      if !Complete(listing[i]) {
        continue;
      }
      m := m[HashOf(hash, LinkOf(listing[i])) := listing[i].id];
    }
    assert listing[..|listing|] == listing;
  }

  method Compare(hash: string -> string, existing: map<string, Option<int>>, ds: seq<DesiredAutolink>)
    returns (unused: map<string, Option<int>>, missing: map<string, Autolink>)
    ensures unused == Unused(existing, Hashes(hash, ds)) && missing == Missing(hash, existing, ds)
  {
    unused, missing := existing, map[];
    for i := 0 to |ds|
      invariant unused == Unused(existing, Hashes(hash, ds[..i]))
      invariant missing == Missing(hash, existing, ds[..i])
    {
      var h := HashOf(hash, ds[i].spec);
      assert ds[..i + 1][..i] == ds[..i];
      assert Hashes(hash, ds[..i + 1]) == Hashes(hash, ds[..i]) + {h};
      if h in existing {
        unused := unused - {h};
        continue;
      }
      assert Unused(existing, Hashes(hash, ds[..i]) + {h}) == Unused(existing, Hashes(hash, ds[..i]));
      missing := missing[h := ds[i].spec];
    }
    assert ds[..|ds|] == ds;
  }

  /** `st` is what removing in the order `order` leads to, all of `unused` unless a call failed. */
  ghost predicate Removes(st0: State, unused: map<string, Option<int>>, order: seq<string>, fails: nat -> bool,
                          st: State) {
    && (forall h :: h in order ==> h in unused)
    && st == RemoveAll(st0, unused, order, fails)
    && Enumerates(order, unused.Keys, st.ok)
  }

  /** The same for the additions. */
  ghost predicate Adds(st0: State, missing: map<string, Autolink>, order: seq<string>, fails: nat -> bool, st: State) {
    && (forall h :: h in order ==> h in missing)
    && st == AddAll(st0, missing, order, fails)
    && Enumerates(order, missing.Keys, st.ok)
  }

  method CleanupUnused(st0: State, unused: map<string, Option<int>>, fails: nat -> bool) returns (st: State)
    requires st0.ok
    ensures exists order :: Removes(st0, unused, order, fails, st)
  {
    st := st0;
    ghost var order := [];
    var rest := unused.Keys;
    while rest != {}
      invariant NoDup(order) && Elems(order) == unused.Keys - rest && rest <= unused.Keys
      invariant forall h :: h in order ==> h in unused
      invariant st.ok && st == RemoveAll(st0, unused, order, fails)
      decreases |rest|
    {
      var h :| h in rest;
      NextInOrder(order, h, rest, unused.Keys);
      order := order + [h];
      rest := rest - {h};
      if unused[h].None? {
        continue;
      }
      st := DeleteLink(st, unused[h].value, fails);
      if !st.ok {
        assert Removes(st0, unused, order, fails, st);
        return;
      }
    }
    assert Removes(st0, unused, order, fails, st);
  }

  method CreateMissing(st0: State, missing: map<string, Autolink>, fails: nat -> bool) returns (st: State)
    requires st0.ok
    ensures exists order :: Adds(st0, missing, order, fails, st)
  {
    st := st0;
    ghost var order := [];
    var rest := missing.Keys;
    while rest != {}
      invariant NoDup(order) && Elems(order) == missing.Keys - rest && rest <= missing.Keys
      invariant forall h :: h in order ==> h in missing
      invariant st.ok && st == AddAll(st0, missing, order, fails)
      decreases |rest|
    {
      var h :| h in rest;
      NextInOrder(order, h, rest, missing.Keys);
      order := order + [h];
      rest := rest - {h};
      st := CreateLink(st, missing[h], fails);
      if !st.ok {
        assert Adds(st0, missing, order, fails, st);
        return;
      }
    }
    assert Adds(st0, missing, order, fails, st);
  }

  lemma NextInOrder(order: seq<string>, h: string, rest: set<string>, keys: set<string>)
    requires NoDup(order) && Elems(order) == keys - rest && rest <= keys && h in rest
    ensures NoDup(order + [h]) && Elems(order + [h]) == keys - (rest - {h})
    ensures (order + [h])[..|order|] == order
  {
    assert h !in Elems(order);
    ElemsSnoc(order, h);
  }

  /** `reconcileAutolinks` on the candidates of all sources: a conflict ends it before any call to GitHub. */
  method ReconcileAutolinks(hub: Hub, hash: string -> string, candidates: seq<DesiredAutolink>, listing: seq<Listed>,
                            fails: nat -> bool)
    returns (end: State, conflicts: seq<Conflict>, ghost rs: seq<string>, ghost cs: seq<string>)
    ensures conflicts != [] <==> ConflictKeys(candidates, PrefixOf, SameLink) != []
    ensures conflicts != [] ==> end == State(hub, false)
    ensures conflicts == [] ==> Run(hub, hash, listing, FirstPerKey(candidates, PrefixOf), fails, rs, cs, end)
  {
    rs, cs := [], [];
    var ds;
    ds, conflicts := Dedupe(candidates, PrefixOf, SameLink, LinkSource);
    if |conflicts| > 0 {
      return State(hub, false), conflicts, rs, cs;
    }
    if fails(hub.calls) {
      return Fail(State(hub, true)), conflicts, rs, cs;
    }
    var existing := IndexListing(hash, listing);
    var unused, missing := Compare(hash, existing, ds);
    var start := State(hub.(calls := hub.calls + 1), true);
    end := CleanupUnused(start, unused, fails);
    rs :| Removes(start, unused, rs, fails, end);
    if end.ok {
      ghost var cleaned := end;
      end := CreateMissing(end, missing, fails);
      cs :| Adds(cleaned, missing, cs, fails, end);
    }
  }

  // ---------------------------------------------------------------- what a run keeps and what it reaches

  ghost predicate UniquePrefixes(links: map<int, Autolink>) {
    forall i, j :: i in links && j in links && links[i].keyPrefix == links[j].keyPrefix ==> i == j
  }

  ghost predicate Has(links: map<int, Autolink>, l: Autolink) {
    exists id :: id in links && links[id] == l
  }

  ghost predicate ValidHub(h: Hub) {
    UniquePrefixes(h.links) && forall id :: id in h.links ==> id < h.nextId && NoBar(h.links[id])
  }

  /** Every autolink is listed with its id and all its fields, and nothing else is. */
  ghost predicate ListsAll(h: Hub, listing: seq<Listed>) {
    && (forall l :: l in listing ==> Complete(l) && l.id.Some? && l.id.value in h.links && LinkOf(l) == h.links[l.id.value])
    && (forall id :: id in h.links ==> exists l :: l in listing && l.id == Some(id))
  }

  /** The states since `n` all have unique prefixes. */
  ghost predicate UniqueSince(h: Hub, n: nat) {
    UniquePrefixes(h.links) && forall i :: n <= i < |h.history| ==> UniquePrefixes(h.history[i])
  }

  lemma {:induction false} ExistingIsExact(h: Hub, hash: string -> string, listing: seq<Listed>, k: string)
    requires ValidHub(h) && CollisionFree(hash)
    requires forall l :: l in listing ==>
               Complete(l) && l.id.Some? && l.id.value in h.links && LinkOf(l) == h.links[l.id.value]
    ensures k in Existing(hash, listing) ==>
              var id := Existing(hash, listing)[k];
              id.Some? && id.value in h.links && HashOf(hash, h.links[id.value]) == k
    ensures forall l :: l in listing ==> HashOf(hash, LinkOf(l)) in Existing(hash, listing)
  {
    if listing != [] {
      var n := |listing| - 1;
      assert listing == listing[..n] + [listing[n]];
      assert listing[n] in listing;
      ExistingIsExact(h, hash, listing[..n], k);
    }
  }

  /** The index finds every autolink under its hash. */
  lemma {:induction false} ExistingFinds(h: Hub, hash: string -> string, listing: seq<Listed>, id: int)
    requires ValidHub(h) && CollisionFree(hash) && ListsAll(h, listing) && id in h.links
    ensures HashOf(hash, h.links[id]) in Existing(hash, listing)
    ensures Existing(hash, listing)[HashOf(hash, h.links[id])] == Some(id)
  {
    var k := HashOf(hash, h.links[id]);
    ExistingIsExact(h, hash, listing, k);
    var l :| l in listing && l.id == Some(id);
    assert HashOf(hash, LinkOf(l)) == k;
    var found := Existing(hash, listing)[k].value;
    assert found in h.links && NoBar(h.links[found]) && NoBar(h.links[id]);
    HashInjective(hash, h.links[found], h.links[id]);
  }

  lemma {:induction false} MissingIff(hash: string -> string, existing: map<string, Option<int>>,
                                      ds: seq<DesiredAutolink>, h: string)
    ensures h in Missing(hash, existing, ds) <==> h in Hashes(hash, ds) && h !in existing
    ensures h in Missing(hash, existing, ds) ==>
              var l := Missing(hash, existing, ds)[h]; l in LinksOf(ds) && HashOf(hash, l) == h
  {
    if ds != [] {
      var n := |ds| - 1;
      assert ds == ds[..n] + [ds[n]];
      MissingIff(hash, existing, ds[..n], h);
    }
  }

  /** Removing keeps uniqueness and, if it completes, leaves exactly the links whose id is not unused. */
  lemma {:induction false} RemoveAllEffect(st: State, unused: map<string, Option<int>>, order: seq<string>,
                                           fails: nat -> bool)
    requires (forall h :: h in order ==> h in unused) && UniquePrefixes(st.hub.links)
    ensures var end := RemoveAll(st, unused, order, fails);
            && UniqueSince(end.hub, |st.hub.history|)
            && end.hub.nextId == st.hub.nextId && st.hub.history <= end.hub.history
            && (forall id :: id in end.hub.links ==> id in st.hub.links && end.hub.links[id] == st.hub.links[id])
            && (forall id :: id in st.hub.links ==>
                  id in end.hub.links || exists h :: h in order && unused[h] == Some(id))
            && (st.ok && end.ok ==> forall h :: h in order && unused[h].Some? ==> unused[h].value !in end.hub.links)
  {
    if order != [] {
      var n := |order| - 1;
      assert order == order[..n] + [order[n]];
      RemoveAllEffect(st, unused, order[..n], fails);
    }
  }

  /** Desired links only, with unique prefixes. */
  ghost predicate OnlyWanted(hub: Hub, wanted: set<Autolink>) {
    && UniquePrefixes(hub.links) && NextIsFree(hub)
    && forall id :: id in hub.links ==> hub.links[id] in wanted
  }

  /** Different wanted links, none of them present. */
  ghost predicate AbsentWanted(missing: map<string, Autolink>, links: map<int, Autolink>, wanted: set<Autolink>) {
    && (forall k :: k in missing ==> missing[k] in wanted && !Has(links, missing[k]))
    && (forall j, k :: j in missing && k in missing && j != k ==> missing[j] != missing[k])
  }

  ghost predicate NextIsFree(hub: Hub) {
    forall id :: id in hub.links ==> id < hub.nextId
  }

  /** Adding desired links that are absent keeps uniqueness after every step. */
  lemma {:induction false} AddAllEffect(st: State, missing: map<string, Autolink>, order: seq<string>,
                                        fails: nat -> bool, wanted: set<Autolink>)
    requires (forall h :: h in order ==> h in missing) && NoDup(order)
    requires OnlyWanted(st.hub, wanted) && DistinctPrefixes(wanted)
    requires AbsentWanted(missing, st.hub.links, wanted)
    ensures var end := AddAll(st, missing, order, fails);
            && UniqueSince(end.hub, |st.hub.history|) && st.hub.history <= end.hub.history
            && OnlyWanted(end.hub, wanted)
            && (forall h :: h in missing && h !in order ==> !Has(end.hub.links, missing[h]))
  {
    if order != [] {
      var n := |order| - 1;
      assert order == order[..n] + [order[n]];
      AddAllEffect(st, missing, order[..n], fails, wanted);
      var before := AddAll(st, missing, order[..n], fails);
      var end := AddAll(st, missing, order, fails);
      if before.ok && !fails(before.hub.calls) {
        AddOneLink(before.hub, missing[order[n]], end.hub, wanted);
        forall h | h in missing && h !in order ensures !Has(end.hub.links, missing[h]) {
          HasAfterCreate(before.hub.links, before.hub.nextId, missing[order[n]], missing[h]);
        }
      }
    }
  }

  lemma AddOneLink(before: Hub, l: Autolink, end: Hub, wanted: set<Autolink>)
    requires OnlyWanted(before, wanted) && DistinctPrefixes(wanted) && l in wanted && !Has(before.links, l)
    requires end.links == before.links[before.nextId := l] && end.nextId == before.nextId + 1
    ensures OnlyWanted(end, wanted)
  {
    forall id | id in before.links ensures before.links[id].keyPrefix != l.keyPrefix {
      assert before.links[id] != l;
    }
  }

  /** A complete round of additions adds every missing link and loses none. */
  lemma {:induction false} AddAllAdds(st: State, missing: map<string, Autolink>, order: seq<string>, fails: nat -> bool,
                                      l: Autolink)
    requires forall h :: h in order ==> h in missing
    requires NextIsFree(st.hub)
    ensures var end := AddAll(st, missing, order, fails);
            && NextIsFree(end.hub)
            && (Has(st.hub.links, l) ==> Has(end.hub.links, l))
            && (st.ok && end.ok && (exists h :: h in order && missing[h] == l) ==> Has(end.hub.links, l))
  {
    if order != [] {
      var n := |order| - 1;
      assert order == order[..n] + [order[n]];
      AddAllAdds(st, missing, order[..n], fails, l);
      var before := AddAll(st, missing, order[..n], fails);
      if before.ok && !fails(before.hub.calls) {
        HasAfterCreate(before.hub.links, before.hub.nextId, missing[order[n]], l);
      }
    }
  }

  lemma HasAfterCreate(links: map<int, Autolink>, id: int, added: Autolink, l: Autolink)
    requires id !in links
    ensures Has(links[id := added], l) <==> Has(links, l) || l == added
  {
    var links' := links[id := added];
    assert links'[id] == added;
    if j :| j in links && links[j] == l {
      assert links'[j] == l;
    }
  }

  /** What is missing is desired and absent, and each desired autolink is listed or missing. */
  lemma {:induction false} MissingIsAbsent(h: Hub, hash: string -> string, listing: seq<Listed>,
                                           ds: seq<DesiredAutolink>)
    requires ValidHub(h) && CollisionFree(hash) && ListsAll(h, listing)
    requires forall d :: d in ds ==> NoBar(d.spec)
    ensures var missing := Missing(hash, Existing(hash, listing), ds);
            && (forall k :: k in missing ==> missing[k] in LinksOf(ds) && !Has(h.links, missing[k]))
            && (forall j, k :: j in missing && k in missing && j != k ==> missing[j] != missing[k])
            && (forall l :: l in LinksOf(ds) && !Has(h.links, l) ==>
                  HashOf(hash, l) in missing && missing[HashOf(hash, l)] == l)
  {
    var existing := Existing(hash, listing);
    var missing := Missing(hash, existing, ds);
    forall k | k in missing
      ensures missing[k] in LinksOf(ds) && !Has(h.links, missing[k]) && HashOf(hash, missing[k]) == k
    {
      MissingIff(hash, existing, ds, k);
      if id :| id in h.links && h.links[id] == missing[k] {
        ExistingFinds(h, hash, listing, id);
      }
    }
    forall l | l in LinksOf(ds) && !Has(h.links, l)
      ensures HashOf(hash, l) in missing && missing[HashOf(hash, l)] == l
    {
      var k := HashOf(hash, l);
      MissingIff(hash, existing, ds, k);
      ExistingIsExact(h, hash, listing, k);
      if k in existing {
        var id := existing[k].value;
        assert NoBar(h.links[id]);
        HashInjective(hash, h.links[id], l);
      } else {
        assert k in missing;
        HashInjective(hash, missing[k], l);
      }
    }
  }

  /** After the removals, exactly the autolinks that are desired are left. */
  lemma {:induction false} RemovalLeavesDesired(h: Hub, hash: string -> string, listing: seq<Listed>,
                                                ds: seq<DesiredAutolink>, order: seq<string>, st: State,
                                                fails: nat -> bool)
    requires ValidHub(h) && CollisionFree(hash) && ListsAll(h, listing) && st.ok && st.hub.links == h.links
    requires forall d :: d in ds ==> NoBar(d.spec)
    requires var unused := Unused(Existing(hash, listing), Hashes(hash, ds));
             && (forall k :: k in order ==> k in unused)
             && Elems(order) == unused.Keys
             && RemoveAll(st, unused, order, fails).ok
    ensures var links := RemoveAll(st, Unused(Existing(hash, listing), Hashes(hash, ds)), order, fails).hub.links;
            forall l :: Has(links, l) <==> Has(h.links, l) && l in LinksOf(ds)
  {
    var existing := Existing(hash, listing);
    var unused := Unused(existing, Hashes(hash, ds));
    var links := RemoveAll(st, unused, order, fails).hub.links;
    RemoveAllEffect(st, unused, order, fails);
    forall id | id in h.links ensures id in links <==> h.links[id] in LinksOf(ds) {
      var k := HashOf(hash, h.links[id]);
      ExistingFinds(h, hash, listing, id);
      if k in Hashes(hash, ds) {
        var d :| d in ds && HashOf(hash, d.spec) == k;
        HashInjective(hash, d.spec, h.links[id]);
        forall j | j in order ensures unused[j] != Some(id) {
          ExistingIsExact(h, hash, listing, j);
        }
      } else {
        assert k in Elems(order);
        assert h.links[id] !in LinksOf(ds);
      }
    }
    forall l ensures Has(links, l) <==> Has(h.links, l) && l in LinksOf(ds) {
      if id :| id in links && links[id] == l {
        assert id in h.links;
      }
      if id :| id in h.links && h.links[id] == l {
        assert l in LinksOf(ds) ==> id in links && links[id] == l;
      }
    }
  }

  /** The removals keep prefixes unique after each of them. */
  lemma {:induction false} RemovalsStayUnique(st: State, unused: map<string, Option<int>>, order: seq<string>,
                                              fails: nat -> bool)
    requires (forall h :: h in order ==> h in unused) && UniquePrefixes(st.hub.links)
    ensures var end := RemoveAll(st, unused, order, fails);
            UniqueSince(end.hub, |st.hub.history|) && st.hub.history <= end.hub.history
  {
    RemoveAllEffect(st, unused, order, fails);
  }

  /** So do the additions of a run, which leave desired autolinks only. */
  lemma {:induction false} AdditionsStayUnique(h: Hub, hash: string -> string, listing: seq<Listed>,
                                               ds: seq<DesiredAutolink>, fails: nat -> bool, rs: seq<string>,
                                               cs: seq<string>, cleaned: State, end: State)
    requires Run(h, hash, listing, ds, fails, rs, cs, end) && !fails(h.calls)
    requires ValidHub(h) && CollisionFree(hash) && ListsAll(h, listing)
    requires (forall d :: d in ds ==> NoBar(d.spec)) && DistinctPrefixes(LinksOf(ds))
    requires cleaned == RemoveAll(State(h.(calls := h.calls + 1), true),
                                  Unused(Existing(hash, listing), Hashes(hash, ds)), rs, fails) && cleaned.ok
    ensures UniqueSince(end.hub, |cleaned.hub.history|) && cleaned.hub.history <= end.hub.history
    ensures OnlyWanted(end.hub, LinksOf(ds))
  {
    ReadyToAdd(h, hash, listing, ds, fails, rs);
    AddAllEffect(cleaned, Missing(hash, Existing(hash, listing), ds), cs, fails, LinksOf(ds));
  }

  /** Key prefixes are unique after every delete and every create, wherever the run is cut. */
  lemma PrefixesStayUnique(h: Hub, hash: string -> string, listing: seq<Listed>, ds: seq<DesiredAutolink>,
                           fails: nat -> bool, rs: seq<string>, cs: seq<string>, end: State)
    requires Run(h, hash, listing, ds, fails, rs, cs, end)
    requires ValidHub(h) && CollisionFree(hash) && ListsAll(h, listing)
    requires (forall d :: d in ds ==> NoBar(d.spec)) && DistinctPrefixes(LinksOf(ds))
    ensures UniqueSince(end.hub, |h.history|)
  {
    if !fails(h.calls) {
      var st, unused := State(h.(calls := h.calls + 1), true), Unused(Existing(hash, listing), Hashes(hash, ds));
      var cleaned := RemoveAll(st, unused, rs, fails);
      RemovalsStayUnique(st, unused, rs, fails);
      if cleaned.ok {
        AdditionsStayUnique(h, hash, listing, ds, fails, rs, cs, cleaned, end);
        UniqueThroughout(cleaned.hub, end.hub, |h.history|);
      }
    }
  }

  lemma UniqueThroughout(mid: Hub, end: Hub, n: nat)
    requires UniqueSince(mid, n) && UniqueSince(end, |mid.history|) && mid.history <= end.history
    ensures UniqueSince(end, n)
  {
    forall i | n <= i < |end.history| ensures UniquePrefixes(end.history[i]) {
      assert i < |mid.history| ==> end.history[i] == mid.history[i];
    }
  }

  /** Once the removals are done, the additions meet their conditions. */
  lemma {:induction false} ReadyToAdd(h: Hub, hash: string -> string, listing: seq<Listed>, ds: seq<DesiredAutolink>,
                                      fails: nat -> bool, rs: seq<string>)
    requires ValidHub(h) && CollisionFree(hash) && ListsAll(h, listing)
    requires forall d :: d in ds ==> NoBar(d.spec)
    requires var unused := Unused(Existing(hash, listing), Hashes(hash, ds));
             && (forall k :: k in rs ==> k in unused)
             && Elems(rs) == unused.Keys
             && RemoveAll(State(h.(calls := h.calls + 1), true), unused, rs, fails).ok
    ensures var unused, missing := Unused(Existing(hash, listing), Hashes(hash, ds)),
                                   Missing(hash, Existing(hash, listing), ds);
            var links := RemoveAll(State(h.(calls := h.calls + 1), true), unused, rs, fails).hub.links;
            && OnlyWanted(RemoveAll(State(h.(calls := h.calls + 1), true), unused, rs, fails).hub, LinksOf(ds))
            && AbsentWanted(missing, links, LinksOf(ds))
  {
    var st := State(h.(calls := h.calls + 1), true);
    var unused := Unused(Existing(hash, listing), Hashes(hash, ds));
    var links := RemoveAll(st, unused, rs, fails).hub.links;
    MissingIsAbsent(h, hash, listing, ds);
    RemoveAllEffect(st, unused, rs, fails);
    RemovalLeavesDesired(h, hash, listing, ds, rs, st, fails);
    forall id | id in links ensures links[id] in LinksOf(ds) {
      assert Has(links, links[id]);
    }
  }

  /** A desired autolink is present after the removals or queued for creation. */
  lemma {:induction false} PresentOrQueued(h: Hub, hash: string -> string, listing: seq<Listed>,
                                           ds: seq<DesiredAutolink>, fails: nat -> bool, rs: seq<string>, l: Autolink)
    requires ValidHub(h) && CollisionFree(hash) && ListsAll(h, listing)
    requires forall d :: d in ds ==> NoBar(d.spec)
    requires var unused := Unused(Existing(hash, listing), Hashes(hash, ds));
             && (forall k :: k in rs ==> k in unused)
             && Elems(rs) == unused.Keys
             && RemoveAll(State(h.(calls := h.calls + 1), true), unused, rs, fails).ok
    requires l in LinksOf(ds)
    ensures var unused, missing := Unused(Existing(hash, listing), Hashes(hash, ds)),
                                   Missing(hash, Existing(hash, listing), ds);
            || Has(RemoveAll(State(h.(calls := h.calls + 1), true), unused, rs, fails).hub.links, l)
            || (HashOf(hash, l) in missing && missing[HashOf(hash, l)] == l)
  {
    MissingIsAbsent(h, hash, listing, ds);
    RemovalLeavesDesired(h, hash, listing, ds, rs, State(h.(calls := h.calls + 1), true), fails);
  }

  lemma {:induction false} AllDesiredArePresent(h: Hub, hash: string -> string, listing: seq<Listed>,
                                                ds: seq<DesiredAutolink>, fails: nat -> bool, rs: seq<string>,
                                                cs: seq<string>, cleaned: State, end: State, l: Autolink)
    requires Run(h, hash, listing, ds, fails, rs, cs, end) && end.ok && l in LinksOf(ds)
    requires ValidHub(h) && CollisionFree(hash) && ListsAll(h, listing)
    requires forall d :: d in ds ==> NoBar(d.spec)
    requires var unused := Unused(Existing(hash, listing), Hashes(hash, ds));
             cleaned == RemoveAll(State(h.(calls := h.calls + 1), true), unused, rs, fails) && cleaned.ok
    requires NextIsFree(cleaned.hub)
    ensures Has(end.hub.links, l)
  {
    var missing := Missing(hash, Existing(hash, listing), ds);
    PresentOrQueued(h, hash, listing, ds, fails, rs, l);
    AddAllAdds(cleaned, missing, cs, fails, l);
    assert HashOf(hash, l) in missing ==> HashOf(hash, l) in Elems(cs);
  }

  /** A complete run leaves exactly the desired autolinks. */
  lemma AutolinksConverge(h: Hub, hash: string -> string, listing: seq<Listed>, ds: seq<DesiredAutolink>,
                          fails: nat -> bool, rs: seq<string>, cs: seq<string>, end: State, l: Autolink)
    requires Run(h, hash, listing, ds, fails, rs, cs, end) && end.ok
    requires ValidHub(h) && CollisionFree(hash) && ListsAll(h, listing)
    requires (forall d :: d in ds ==> NoBar(d.spec)) && DistinctPrefixes(LinksOf(ds))
    ensures Has(end.hub.links, l) <==> l in LinksOf(ds)
  {
    var cleaned := RemoveAll(State(h.(calls := h.calls + 1), true),
                             Unused(Existing(hash, listing), Hashes(hash, ds)), rs, fails);
    AdditionsStayUnique(h, hash, listing, ds, fails, rs, cs, cleaned, end);
    if l in LinksOf(ds) {
      ReadyToAdd(h, hash, listing, ds, fails, rs);
      AllDesiredArePresent(h, hash, listing, ds, fails, rs, cs, cleaned, end, l);
    }
  }

  // ---------------------------------------------------------------- any listing

  /** The index has an id for a hash only from a complete element with that hash. */
  lemma {:induction false} ExistingFrom(hash: string -> string, listing: seq<Listed>, k: string)
    ensures k in Existing(hash, listing) <==>
            exists i :: 0 <= i < |listing| && Complete(listing[i]) && HashOf(hash, LinkOf(listing[i])) == k
    ensures k in Existing(hash, listing) ==>
              exists i :: 0 <= i < |listing| && Complete(listing[i]) && HashOf(hash, LinkOf(listing[i])) == k &&
                          Existing(hash, listing)[k] == listing[i].id
  {
    if listing != [] {
      var n := |listing| - 1;
      var init := listing[..n];
      ExistingFrom(hash, init, k);
      if i :| 0 <= i < |listing| && Complete(listing[i]) && HashOf(hash, LinkOf(listing[i])) == k {
        assert i < n ==> init[i] == listing[i];
      }
      if i :| 0 <= i < n && Complete(init[i]) && HashOf(hash, LinkOf(init[i])) == k {
        assert listing[i] == init[i];
      }
      if k in Existing(hash, init) {
        var i :| 0 <= i < n && Complete(init[i]) && HashOf(hash, LinkOf(init[i])) == k && Existing(hash, init)[k] == init[i].id;
        assert listing[i] == init[i];
      }
    }
  }

  lemma {:induction false} RemoveAllKeeps(st: State, unused: map<string, Option<int>>, order: seq<string>,
                                          fails: nat -> bool, id: int)
    requires (forall k :: k in order ==> k in unused) && (forall k :: k in unused ==> unused[k] != Some(id))
    requires id in st.hub.links && NextIsFree(st.hub)
    ensures var end := RemoveAll(st, unused, order, fails);
            id in end.hub.links && end.hub.links[id] == st.hub.links[id] && NextIsFree(end.hub)
  {
    if order != [] {
      RemoveAllKeeps(st, unused, order[..|order| - 1], fails, id);
    }
  }

  lemma {:induction false} AddAllKeeps(st: State, missing: map<string, Autolink>, order: seq<string>,
                                       fails: nat -> bool, id: int)
    requires (forall k :: k in order ==> k in missing) && id in st.hub.links && NextIsFree(st.hub)
    ensures var end := AddAll(st, missing, order, fails);
            id in end.hub.links && end.hub.links[id] == st.hub.links[id] && NextIsFree(end.hub)
  {
    if order != [] {
      AddAllKeeps(st, missing, order[..|order| - 1], fails, id);
    }
  }

  /** Whatever GitHub lists: an autolink that is not listed with its id and all its fields is never deleted. */
  lemma UnlistedStays(h: Hub, hash: string -> string, listing: seq<Listed>, ds: seq<DesiredAutolink>,
                      fails: nat -> bool, rs: seq<string>, cs: seq<string>, end: State, id: int)
    requires Run(h, hash, listing, ds, fails, rs, cs, end) && NextIsFree(h) && id in h.links
    requires forall i :: 0 <= i < |listing| && Complete(listing[i]) ==> listing[i].id != Some(id)
    ensures id in end.hub.links && end.hub.links[id] == h.links[id]
  {
    if !fails(h.calls) {
      var existing, st := Existing(hash, listing), State(h.(calls := h.calls + 1), true);
      var unused := Unused(existing, Hashes(hash, ds));
      forall k | k in unused ensures unused[k] != Some(id) {
        ExistingFrom(hash, listing, k);
      }
      RemoveAllKeeps(st, unused, rs, fails, id);
      var cleaned := RemoveAll(st, unused, rs, fails);
      if cleaned.ok {
        AddAllKeeps(cleaned, Missing(hash, existing, ds), cs, fails, id);
      }
    }
  }

  // ---------------------------------------------------------------- when a run succeeds

  /** What is listed completely and with an id is on GitHub like that; the rest of the listing may be anything. */
  ghost predicate ListsOnly(h: Hub, listing: seq<Listed>) {
    forall l :: l in listing && Complete(l) && l.id.Some? ==> l.id.value in h.links && h.links[l.id.value] == LinkOf(l)
  }

  /** The ids that are unused are there, each under one hash. */
  ghost predicate Removable(unused: map<string, Option<int>>, links: map<int, Autolink>, hash: string -> string) {
    forall k :: k in unused && unused[k].Some? ==> unused[k].value in links && HashOf(hash, links[unused[k].value]) == k
  }

  lemma {:induction false} ListedRemovable(h: Hub, hash: string -> string, listing: seq<Listed>)
    requires ListsOnly(h, listing)
    ensures Removable(Existing(hash, listing), h.links, hash)
  {
    if listing != [] {
      var n := |listing| - 1;
      assert listing == listing[..n] + [listing[n]];
      ListedRemovable(h, hash, listing[..n]);
      assert listing[n] in listing;
    }
  }

  lemma {:induction false} RemoveAllSucceeds(st: State, unused: map<string, Option<int>>, order: seq<string>,
                                             fails: nat -> bool, hash: string -> string)
    requires (forall k :: k in order ==> k in unused) && NoDup(order)
    requires st.ok && Removable(unused, st.hub.links, hash) && forall i :: !fails(i)
    ensures var end := RemoveAll(st, unused, order, fails);
            && end.ok
            && forall k :: k in unused && k !in order && unused[k].Some? ==> unused[k].value in end.hub.links
  {
    if order != [] {
      var n := |order| - 1;
      assert order == order[..n] + [order[n]];
      RemoveAllSucceeds(st, unused, order[..n], fails, hash);
      assert order[n] !in order[..n];
    }
  }

  lemma {:induction false} AddAllSucceeds(st: State, missing: map<string, Autolink>, order: seq<string>,
                                          fails: nat -> bool)
    requires (forall k :: k in order ==> k in missing) && st.ok && forall i :: !fails(i)
    ensures AddAll(st, missing, order, fails).ok
  {
    if order != [] {
      AddAllSucceeds(st, missing, order[..|order| - 1], fails);
    }
  }

  /** A run fails only if a call fails or GitHub lists an id it does not have; what is listed in part does not matter. */
  lemma AutolinksSucceed(h: Hub, hash: string -> string, listing: seq<Listed>, ds: seq<DesiredAutolink>,
                         fails: nat -> bool, rs: seq<string>, cs: seq<string>, end: State)
    requires Run(h, hash, listing, ds, fails, rs, cs, end)
    requires ListsOnly(h, listing) && forall i :: !fails(i)
    ensures end.ok
  {
    var existing, st := Existing(hash, listing), State(h.(calls := h.calls + 1), true);
    var unused := Unused(existing, Hashes(hash, ds));
    ListedRemovable(h, hash, listing);
    RemoveAllSucceeds(st, unused, rs, fails, hash);
    AddAllSucceeds(RemoveAll(st, unused, rs, fails), Missing(hash, existing, ds), cs, fails);
  }
}
