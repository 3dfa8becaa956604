/** `merge.Dedupe` (common/merge/merge.go): keep the first definition per key and report keys defined differently. */
module MergeDefinitions {
  import opened Collections
  import opened KeyedMerge
  import opened ChainFold

  datatype Conflict = Conflict(key: string, sources: seq<string>)

  /** The first candidate of each key, in order. */
  function FirstPerKey<T(==)>(cs: seq<T>, key: T -> string): seq<T> {
    if cs == [] then []
    else
      var n := |cs| - 1;
      var kept := FirstPerKey(cs[..n], key);
      if Occurs(cs[..n], key(cs[n]), key) then kept else kept + [cs[n]]
  }

  /** The keys with a candidate that differs from the first one of that key, in the order they were found. */
  function ConflictKeys<T(==)>(cs: seq<T>, key: T -> string, equal: (T, T) -> bool): seq<string> {
    if cs == [] then []
    else
      var n := |cs| - 1;
      var k := key(cs[n]);
      var found := ConflictKeys(cs[..n], key, equal);
      if Differs(cs[..n], cs[n], key, equal) && k !in found then found + [k] else found
  }

  /** An earlier candidate has the key of `c`, and the first of them is not equal to `c`. */
  predicate Differs<T>(cs: seq<T>, c: T, key: T -> string, equal: (T, T) -> bool) {
    var same := WithKey(cs, key(c), key);
    same != [] && !equal(same[0], c)
  }

  lemma {:induction false} WithKeySome<T>(cs: seq<T>, k: string, key: T -> string)
    ensures WithKey(cs, k, key) != [] <==> k in Keys(cs, key)
    ensures forall c :: c in WithKey(cs, k, key) <==> c in cs && key(c) == k
  {
    if cs != [] {
      var n := |cs| - 1;
      assert cs == cs[..n] + [cs[n]];
      KeysAppend(cs[..n], [cs[n]], key);
      WithKeySome(cs[..n], k, key);
    }
  }

  /** A key is in conflict exactly when a later candidate differs from the first one with that key. */
  lemma {:induction false} ConflictIff<T>(cs: seq<T>, key: T -> string, equal: (T, T) -> bool, k: string)
    ensures k in ConflictKeys(cs, key, equal) <==>
            var same := WithKey(cs, k, key);
            exists j :: 0 < j < |same| && !equal(same[0], same[j])
  {
    if cs != [] {
      var n := |cs| - 1;
      var before, same := WithKey(cs[..n], k, key), WithKey(cs, k, key);
      ConflictIff(cs[..n], key, equal, k);
      if key(cs[n]) == k {
        assert same == before + [cs[n]];
        assert same[|before|] == cs[n];
        if j :| 0 < j < |before| && !equal(before[0], before[j]) {
          assert same[j] == before[j];
        }
        if j :| 0 < j < |same| && !equal(same[0], same[j]) {
          assert j < |before| ==> before[j] == same[j];
        }
      } else {
        assert same == before;
      }
    }
  }

  /** `kept` has distinct keys, covers every key, and each of its candidates is the first of its key. */
  ghost predicate FirstOnes<T>(cs: seq<T>, kept: seq<T>, key: T -> string) {
    && Keys(kept, key) == Keys(cs, key)
    && (forall c :: c in kept ==> c in cs && WithKey(cs, key(c), key) != [] && WithKey(cs, key(c), key)[0] == c)
    && (forall i, j :: 0 <= i < j < |kept| ==> key(kept[i]) != key(kept[j]))
  }

  /** That is what is kept. */
  lemma {:induction false} FirstPerKeyIsFirst<T>(cs: seq<T>, key: T -> string)
    ensures FirstOnes(cs, FirstPerKey(cs, key), key)
  {
    if cs != [] {
      var n := |cs| - 1;
      assert cs == cs[..n] + [cs[n]];
      FirstPerKeyIsFirst(cs[..n], key);
      KeepsFirst(cs[..n], cs[n], key);
    }
  }

  /** No earlier candidate has the key of the one at `i`. */
  ghost predicate FirstAt<T>(cs: seq<T>, key: T -> string, i: nat)
    requires i < |cs|
  {
    forall j :: 0 <= j < i ==> key(cs[j]) != key(cs[i])
  }

  /** In order: what is kept are the candidates at exactly those places. */
  lemma {:induction false} FirstPerKeyPlaces<T>(cs: seq<T>, key: T -> string) returns (places: seq<nat>)
    ensures |places| == |FirstPerKey(cs, key)|
    ensures forall a :: 0 <= a < |places| ==> places[a] < |cs| && FirstPerKey(cs, key)[a] == cs[places[a]]
    ensures forall a, b :: 0 <= a < b < |places| ==> places[a] < places[b]
    ensures forall i :: 0 <= i < |cs| ==> (i in places <==> FirstAt(cs, key, i))
  {
    places := [];
    if cs != [] {
      var n := |cs| - 1;
      var init := cs[..n];
      places := FirstPerKeyPlaces(init, key);
      assert forall i :: 0 <= i < n ==> (FirstAt(cs, key, i) <==> FirstAt(init, key, i));
      OccursIff(init, key(cs[n]), key);
      if !Occurs(init, key(cs[n]), key) {
        places := places + [n];
      }
    }
  }

  /** The kept candidates after one more. */
  lemma {:induction false} KeepsFirst<T>(cs: seq<T>, c: T, key: T -> string)
    requires FirstOnes(cs, FirstPerKey(cs, key), key)
    ensures FirstOnes(cs + [c], FirstPerKey(cs + [c], key), key)
  {
    var kept := FirstPerKey(cs, key);
    FirstPerKeySnoc(cs, c, key);
    KeysSnoc(cs, c, key);
    KeysSnoc(kept, c, key);
    WithKeySome(cs, key(c), key);
    forall d | d in kept ensures WithKey(cs + [c], key(d), key) != [] && WithKey(cs + [c], key(d), key)[0] == d {
      WithKeySnoc(cs, c, key(d), key);
    }
    if key(c) !in Keys(cs, key) {
      WithKeySnoc(cs, c, key(c), key);
      forall i | 0 <= i < |kept| ensures key(kept[i]) != key(c) {
        assert key(kept[i]) in Keys(kept, key);
      }
    }
  }

  datatype Info = Info(keptIdx: nat, sources: seq<string>, conflict: bool)

  function Sources<T>(cs: seq<T>, k: string, key: T -> string, source: T -> string): seq<string> {
    MapSeq(source, WithKey(cs, k, key))
  }

  /** What the loop knows about one key. */
  ghost predicate Known<T>(cs: seq<T>, k: string, key: T -> string, source: T -> string, kept: seq<T>,
                           conflicts: seq<string>, info: Info) {
    && WithKey(cs, k, key) != []
    && info.keptIdx < |kept| && kept[info.keptIdx] == WithKey(cs, k, key)[0]
    && info.sources == Sources(cs, k, key, source)
    && (info.conflict <==> k in conflicts)
  }

  /** The lists and the known keys after the candidates `cs`. */
  ghost predicate Listed<T>(cs: seq<T>, key: T -> string, equal: (T, T) -> bool, kept: seq<T>,
                            conflicts: seq<string>, known: set<string>) {
    kept == FirstPerKey(cs, key) && conflicts == ConflictKeys(cs, key, equal) && known == Keys(cs, key)
  }

  ghost predicate AllKnown<T>(cs: seq<T>, key: T -> string, source: T -> string, kept: seq<T>, conflicts: seq<string>,
                              byKey: map<string, Info>) {
    forall k {:trigger byKey[k]} :: k in byKey ==> Known(cs, k, key, source, kept, conflicts, byKey[k])
  }

  /** The state of the loop after the candidates `cs`. */
  ghost predicate Scanned<T>(cs: seq<T>, key: T -> string, equal: (T, T) -> bool, source: T -> string,
                             kept: seq<T>, conflicts: seq<string>, byKey: map<string, Info>) {
    Listed(cs, key, equal, kept, conflicts, byKey.Keys) && AllKnown(cs, key, source, kept, conflicts, byKey)
  }

  lemma ListedSnoc<T>(cs: seq<T>, key: T -> string, equal: (T, T) -> bool, kept: seq<T>, conflicts: seq<string>,
                      known: set<string>, c: T)
    requires Listed(cs, key, equal, kept, conflicts, known)
    ensures Listed(cs + [c], key, equal, if key(c) in known then kept else kept + [c],
                   if Differs(cs, c, key, equal) && key(c) !in conflicts then conflicts + [key(c)] else conflicts,
                   known + {key(c)})
  {
    KeysSnoc(cs, c, key);
    FirstPerKeySnoc(cs, c, key);
    ConflictKeysSnoc(cs, c, key, equal);
  }

  /** What is known about the other keys stays so. */
  lemma KnownStays<T>(cs: seq<T>, c: T, k: string, key: T -> string, source: T -> string, kept: seq<T>, kept': seq<T>,
                      conflicts: seq<string>, conflicts': seq<string>, info: Info)
    requires Known(cs, k, key, source, kept, conflicts, info) && key(c) != k
    requires kept <= kept' && (k in conflicts <==> k in conflicts')
    ensures Known(cs + [c], k, key, source, kept', conflicts', info)
  {
    WithKeySnoc(cs, c, k, key);
    assert WithKey(cs + [c], k, key) == WithKey(cs, k, key);
  }

  lemma ScanNew<T>(cs: seq<T>, key: T -> string, equal: (T, T) -> bool, source: T -> string, kept: seq<T>,
                   conflicts: seq<string>, byKey: map<string, Info>, c: T)
    requires Scanned(cs, key, equal, source, kept, conflicts, byKey) && key(c) !in byKey
    ensures Scanned(cs + [c], key, equal, source, kept + [c], conflicts,
                    byKey[key(c) := Info(|kept|, [source(c)], false)])
  {
    var byKey' := byKey[key(c) := Info(|kept|, [source(c)], false)];
    ListedNew(cs, key, equal, source, kept, conflicts, byKey.Keys, c);
    KeysAfterSet(byKey, key(c), byKey'[key(c)]);
    KnownFirst(cs, c, key, source, kept, conflicts, byKey'[key(c)]);
    AllKnownNext(cs, key, source, kept, kept + [c], conflicts, conflicts, byKey, c, byKey'[key(c)]);
  }

  lemma KeysAfterSet(m: map<string, Info>, k: string, info: Info)
    ensures m[k := info].Keys == m.Keys + {k}
  {
  }

  lemma {:induction false} AllKnownNext<T>(cs: seq<T>, key: T -> string, source: T -> string, kept: seq<T>,
                                           kept': seq<T>, conflicts: seq<string>, conflicts': seq<string>,
                                           byKey: map<string, Info>, c: T, info: Info)
    requires AllKnown(cs, key, source, kept, conflicts, byKey) && kept <= kept'
    requires forall k :: k != key(c) ==> (k in conflicts <==> k in conflicts')
    requires Known(cs + [c], key(c), key, source, kept', conflicts', info)
    ensures AllKnown(cs + [c], key, source, kept', conflicts', byKey[key(c) := info])
  {
    forall k | k in byKey && k != key(c) ensures Known(cs + [c], k, key, source, kept', conflicts', byKey[k]) {
      KnownStays(cs, c, k, key, source, kept, kept', conflicts, conflicts', byKey[k]);
    }
  }

  lemma {:induction false} ListedNew<T>(cs: seq<T>, key: T -> string, equal: (T, T) -> bool, source: T -> string,
                                        kept: seq<T>, conflicts: seq<string>, known: set<string>, c: T)
    requires Listed(cs, key, equal, kept, conflicts, known) && key(c) !in known
    ensures Listed(cs + [c], key, equal, kept + [c], conflicts, known + {key(c)}) && key(c) !in conflicts
    ensures WithKey(cs + [c], key(c), key) == [c] && Sources(cs + [c], key(c), key, source) == [source(c)]
  {
    ListedSnoc(cs, key, equal, kept, conflicts, known, c);
    NewKey(cs, c, key, equal, source);
  }

  lemma {:induction false} KnownFirst<T>(cs: seq<T>, c: T, key: T -> string, source: T -> string, kept: seq<T>,
                                         conflicts: seq<string>, info: Info)
    requires WithKey(cs + [c], key(c), key) == [c] && Sources(cs + [c], key(c), key, source) == [source(c)]
    requires info == Info(|kept|, [source(c)], false) && key(c) !in conflicts
    ensures Known(cs + [c], key(c), key, source, kept + [c], conflicts, info)
  {
  }

  lemma {:induction false} NewKey<T>(cs: seq<T>, c: T, key: T -> string, equal: (T, T) -> bool, source: T -> string)
    requires key(c) !in Keys(cs, key)
    ensures !Differs(cs, c, key, equal) && key(c) !in ConflictKeys(cs, key, equal)
    ensures WithKey(cs + [c], key(c), key) == [c] && Sources(cs + [c], key(c), key, source) == [source(c)]
  {
    WithKeySome(cs, key(c), key);
    ConflictIff(cs, key, equal, key(c));
    WithKeySnoc(cs, c, key(c), key);
  }

  /** The list of conflicts grows exactly when the candidate differs from a kept one not yet reported. */
  lemma {:induction false} ConflictKeysSnoc<T>(cs: seq<T>, c: T, key: T -> string, equal: (T, T) -> bool)
    ensures ConflictKeys(cs + [c], key, equal) ==
            if Differs(cs, c, key, equal) && key(c) !in ConflictKeys(cs, key, equal)
            then ConflictKeys(cs, key, equal) + [key(c)] else ConflictKeys(cs, key, equal)
  {
    assert (cs + [c])[..|cs|] == cs;
  }

  lemma {:induction false} FirstPerKeySnoc<T>(cs: seq<T>, c: T, key: T -> string)
    ensures FirstPerKey(cs + [c], key) ==
            if key(c) in Keys(cs, key) then FirstPerKey(cs, key) else FirstPerKey(cs, key) + [c]
  {
    OccursIff(cs, key(c), key);
    assert (cs + [c])[..|cs|] == cs;
  }

  lemma ScanSeen<T>(cs: seq<T>, key: T -> string, equal: (T, T) -> bool, source: T -> string, kept: seq<T>,
                    conflicts: seq<string>, byKey: map<string, Info>, c: T)
    requires Scanned(cs, key, equal, source, kept, conflicts, byKey) && key(c) in byKey
    requires byKey[key(c)].keptIdx < |kept|
    ensures var info := byKey[key(c)];
            var newly := !equal(kept[info.keptIdx], c) && !info.conflict;
            Scanned(cs + [c], key, equal, source, kept,
                    if newly then conflicts + [key(c)] else conflicts,
                    byKey[key(c) := Info(info.keptIdx, info.sources + [source(c)], info.conflict || newly)])
  {
    var k, info := key(c), byKey[key(c)];
    var newly := !equal(kept[info.keptIdx], c) && !info.conflict;
    var order := if newly then conflicts + [k] else conflicts;
    var info' := Info(info.keptIdx, info.sources + [source(c)], info.conflict || newly);
    assert Known(cs, k, key, source, kept, conflicts, info);
    ListedSnoc(cs, key, equal, kept, conflicts, byKey.Keys, c);
    KeysAfterSet(byKey, k, info');
    assert byKey.Keys + {k} == byKey.Keys;
    KnownAgain(cs, c, key, source, kept, conflicts, order, info, info');
    AllKnownNext(cs, key, source, kept, kept, conflicts, order, byKey, c, info');
  }

  /** One more source for a known key. */
  lemma KnownAgain<T>(cs: seq<T>, c: T, key: T -> string, source: T -> string, kept: seq<T>, conflicts: seq<string>,
                      conflicts': seq<string>, info: Info, info': Info)
    requires Known(cs, key(c), key, source, kept, conflicts, info)
    requires info'.keptIdx == info.keptIdx && info'.sources == info.sources + [source(c)]
    requires info'.conflict <==> key(c) in conflicts'
    ensures Known(cs + [c], key(c), key, source, kept, conflicts', info')
  {
    WithKeySnoc(cs, c, key(c), key);
    assert Sources(cs + [c], key(c), key, source) == Sources(cs, key(c), key, source) + [source(c)];
  }

  /** One pass; a conflict lists all sources that define its key. */
  method Dedupe<T(==)>(cs: seq<T>, key: T -> string, equal: (T, T) -> bool, source: T -> string)
    returns (result: seq<T>, conflicts: seq<Conflict>)
    ensures result == FirstPerKey(cs, key)
    ensures |conflicts| == |ConflictKeys(cs, key, equal)|
    ensures forall i :: 0 <= i < |conflicts| ==>
                          && conflicts[i].key == ConflictKeys(cs, key, equal)[i]
                          && conflicts[i].sources == Sources(cs, conflicts[i].key, key, source)
  {
    result := [];
    var byKey: map<string, Info> := map[];
    var conflictOrder: seq<string> := [];
    for i := 0 to |cs|
      invariant Scanned(cs[..i], key, equal, source, result, conflictOrder, byKey)
    {
      var c := cs[i];
      var k := key(c);
      assert cs[..i + 1] == cs[..i] + [c];
      if k !in byKey {
        ScanNew(cs[..i], key, equal, source, result, conflictOrder, byKey, c);
        byKey := byKey[k := Info(|result|, [source(c)], false)];
        result := result + [c];
      } else {
        var info := byKey[k];
        assert Known(cs[..i], k, key, source, result, conflictOrder, info);
        ScanSeen(cs[..i], key, equal, source, result, conflictOrder, byKey, c);
        var first := result[info.keptIdx];
        info := info.(sources := info.sources + [source(c)]);
        if !equal(first, c) && !info.conflict {
          info := info.(conflict := true);
          conflictOrder := conflictOrder + [k];
        }
        byKey := byKey[k := info];
      }
    }
    assert cs[..|cs|] == cs;
    conflicts := ListConflicts(cs, key, equal, source, result, conflictOrder, byKey);
  }

  lemma {:induction false} ConflictKnown<T>(cs: seq<T>, key: T -> string, equal: (T, T) -> bool, source: T -> string,
                                            kept: seq<T>, order: seq<string>, byKey: map<string, Info>, k: string)
    requires Scanned(cs, key, equal, source, kept, order, byKey) && k in order
    ensures k in byKey && byKey[k].sources == Sources(cs, k, key, source)
  {
    ConflictIff(cs, key, equal, k);
    WithKeySome(cs, k, key);
    assert Known(cs, k, key, source, kept, order, byKey[k]);
  }

  method ListConflicts<T(==)>(ghost cs: seq<T>, ghost key: T -> string, ghost equal: (T, T) -> bool,
                              ghost source: T -> string, ghost kept: seq<T>, order: seq<string>,
                              byKey: map<string, Info>)
    returns (conflicts: seq<Conflict>)
    requires Scanned(cs, key, equal, source, kept, order, byKey)
    ensures |conflicts| == |order|
    ensures forall i :: 0 <= i < |order| ==>
                          conflicts[i] == Conflict(order[i], Sources(cs, order[i], key, source))
  {
    conflicts := [];
    for i := 0 to |order|
      invariant |conflicts| == i
      invariant forall j :: 0 <= j < i ==>
                              conflicts[j] == Conflict(order[j], Sources(cs, order[j], key, source))
    {
      ConflictKnown(cs, key, equal, source, kept, order, byKey, order[i]);
      conflicts := conflicts + [Conflict(order[i], byKey[order[i]].sources)];
    }
  }
}
