/**
  Folding a merge over an extends chain. A chain lists the ruleset itself first, then its parents, the base last;
  the fold starts at the base, as `ChainResolver.Resolve` does.
 */
module ChainFold {
  import opened Collections
  import opened KeyedMerge

  function FoldChain<T>(chain: seq<T>, merge: (T, T) -> T): T
    requires |chain| > 0
  {
    if |chain| == 1 then chain[0] else merge(FoldChain(chain[1..], merge), chain[0])
  }

  ghost predicate Associative<T(!new)>(merge: (T, T) -> T) {
    forall a, b, c :: merge(merge(a, b), c) == merge(a, merge(b, c))
  }

  // ---------------------------------------------------------------- merging a piece of the chain first

  lemma {:induction false} FoldAppend<T(!new)>(near: seq<T>, far: seq<T>, merge: (T, T) -> T)
    requires Associative(merge)
    requires |near| > 0 && |far| > 0
    ensures FoldChain(near + far, merge) == merge(FoldChain(far, merge), FoldChain(near, merge))
  {
    if |near| == 1 {
      assert (near + far)[1..] == far;
    } else {
      assert (near + far)[1..] == near[1..] + far;
      FoldAppend(near[1..], far, merge);
    }
  }

  lemma {:induction false} FoldPrefix<T>(near: seq<T>, far: seq<T>, far': seq<T>, merge: (T, T) -> T)
    requires |far| > 0 && |far'| > 0
    requires FoldChain(far, merge) == FoldChain(far', merge)
    ensures FoldChain(near + far, merge) == FoldChain(near + far', merge)
  {
    if near == [] {
      assert near + far == far && near + far' == far';
    } else {
      assert (near + far)[1..] == near[1..] + far && (near + far')[1..] == near[1..] + far';
      FoldPrefix(near[1..], far, far', merge);
    }
  }

  /** With an associative merge any contiguous piece of a chain may be merged first. */
  lemma {:induction false} FoldPiece<T(!new)>(near: seq<T>, piece: seq<T>, far: seq<T>, merge: (T, T) -> T)
    requires Associative(merge)
    requires |piece| > 0
    ensures FoldChain(near + piece + far, merge) == FoldChain(near + [FoldChain(piece, merge)] + far, merge)
  {
    var one := [FoldChain(piece, merge)];
    if far == [] {
      assert piece + far == piece && one + far == one;
    } else {
      FoldAppend(piece, far, merge);
      FoldAppend(one, far, merge);
    }
    FoldPrefix(near, piece + far, one + far, merge);
    assert near + piece + far == near + (piece + far) && near + one + far == near + (one + far);
  }

  // ---------------------------------------------------------------- keyed lists along a chain

  function MergeLists<T(==), K(==)>(lists: seq<seq<T>>, key: T -> K): seq<T>
    requires |lists| > 0
  {
    FoldChain(lists, (parent, child) => MergeKeyed(parent, child, key))
  }

  /** All entries of the chain, base first. */
  function BaseFirst<T>(lists: seq<seq<T>>): seq<T> {
    if lists == [] then [] else BaseFirst(lists[1..]) + lists[0]
  }

  /** The last entry of the nearest non-base ruleset that defines a key. */
  function Overrides<T(==), K(==)>(lists: seq<seq<T>>, key: T -> K): map<K, T> {
    if |lists| <= 1 then map[] else Overrides(lists[1..], key) + LastByKey(lists[0], key)
  }

  lemma {:induction false} OverridesWellKeyed<T, K>(lists: seq<seq<T>>, key: T -> K)
    ensures WellKeyed(Overrides(lists, key), key)
  {
    if |lists| > 1 {
      OverridesWellKeyed(lists[1..], key);
    }
  }

  lemma {:induction false} MergeListsClosedForm<T, K>(lists: seq<seq<T>>, key: T -> K)
    requires |lists| > 0
    ensures MergeLists(lists, key) == Override(BaseFirst(lists), Overrides(lists, key), key)
  {
    if |lists| == 1 {
      OverrideNothing(lists[0], key);
      assert BaseFirst(lists) == [] + lists[0] == lists[0];
    } else {
      MergeListsClosedForm(lists[1..], key);
      OverridesWellKeyed(lists[1..], key);
      OverrideThenAppend(BaseFirst(lists[1..]), lists[0], Overrides(lists[1..], key), LastByKey(lists[0], key), key);
    }
  }

  /** The entries with one key, in order. */
  function WithKey<T, K(==)>(xs: seq<T>, k: K, key: T -> K): seq<T> {
    if xs == [] then []
    else
      var n := |xs| - 1;
      WithKey(xs[..n], k, key) + if key(xs[n]) == k then [xs[n]] else []
  }

  /** The keys in the order of their first occurrence. */
  function FirstKeys<T(==), K(==)>(xs: seq<T>, key: T -> K): seq<K> {
    if xs == [] then []
    else
      var n := |xs| - 1;
      var ks := FirstKeys(xs[..n], key);
      if Occurs(xs[..n], key(xs[n]), key) then ks else ks + [key(xs[n])]
  }

  lemma {:induction false} WithKeyNone<T, K>(xs: seq<T>, k: K, key: T -> K)
    requires k !in Keys(xs, key)
    ensures WithKey(xs, k, key) == []
  {
    if xs != [] {
      var n := |xs| - 1;
      assert xs == xs[..n] + [xs[n]];
      KeysAppend(xs[..n], [xs[n]], key);
      WithKeyNone(xs[..n], k, key);
    }
  }

  lemma {:induction false} WithKeyAppend<T, K>(xs: seq<T>, ys: seq<T>, k: K, key: T -> K)
    ensures WithKey(xs + ys, k, key) == WithKey(xs, k, key) + WithKey(ys, k, key)
  {
    if ys == [] {
      assert xs + ys == xs;
    } else {
      var n := |ys| - 1;
      assert (xs + ys)[..|xs| + n] == xs + ys[..n];
      WithKeyAppend(xs, ys[..n], k, key);
    }
  }

  lemma {:induction false} WithKeySnoc<T, K>(xs: seq<T>, e: T, k: K, key: T -> K)
    ensures WithKey(xs + [e], k, key) == WithKey(xs, k, key) + if key(e) == k then [e] else []
  {
    assert (xs + [e])[..|xs|] == xs;
  }

  lemma {:induction false} WithKeyOverride<T, K>(xs: seq<T>, m: map<K, T>, k: K, key: T -> K)
    requires WellKeyed(m, key)
    ensures WithKey(Override(xs, m, key), k, key) ==
            if k !in m then WithKey(xs, k, key) else if k in Keys(xs, key) then [m[k]] else []
  {
    if xs != [] {
      var n := |xs| - 1;
      var init, e := xs[..n], xs[n];
      var out := Override(init, m, key);
      assert xs == init + [e];
      KeysAppend(init, [e], key);
      WithKeyOverride(init, m, k, key);
      OverrideSnoc(init, e, m, key);
      WithKeySnoc(init, e, k, key);
      if key(e) !in m {
        WithKeySnoc(out, e, k, key);
      } else if key(e) !in Keys(init, key) {
        WithKeySnoc(out, m[key(e)], k, key);
      }
    }
  }

  lemma {:induction false} FirstKeysSnoc<T, K>(xs: seq<T>, e: T, key: T -> K)
    ensures FirstKeys(xs + [e], key) ==
            if key(e) in Keys(xs, key) then FirstKeys(xs, key) else FirstKeys(xs, key) + [key(e)]
  {
    assert (xs + [e])[..|xs|] == xs;
    OccursIff(xs, key(e), key);
  }

  lemma {:induction false} FirstKeysOverride<T, K>(xs: seq<T>, m: map<K, T>, key: T -> K)
    requires WellKeyed(m, key)
    ensures FirstKeys(Override(xs, m, key), key) == FirstKeys(xs, key)
  {
    if xs != [] {
      var n := |xs| - 1;
      var init, e := xs[..n], xs[n];
      var out := Override(init, m, key);
      assert xs == init + [e];
      FirstKeysOverride(init, m, key);
      OverrideKeys(init, m, key);
      OverrideSnoc(init, e, m, key);
      FirstKeysSnoc(init, e, key);
      if key(e) !in m {
        FirstKeysSnoc(out, e, key);
      } else if key(e) !in Keys(init, key) {
        FirstKeysSnoc(out, m[key(e)], key);
      }
    }
  }

  lemma {:induction false} NearestOverride<T, K>(lists: seq<seq<T>>, i: nat, k: K, key: T -> K)
    requires i < |lists| - 1
    requires k in Keys(lists[i], key)
    requires forall j :: 0 <= j < i ==> k !in Keys(lists[j], key)
    ensures k in Overrides(lists, key) && Overrides(lists, key)[k] == LastByKey(lists[i], key)[k]
    ensures k in Keys(BaseFirst(lists), key)
  {
    KeysAppend(BaseFirst(lists[1..]), lists[0], key);
    if i > 0 {
      assert forall j :: 0 <= j < i - 1 ==> lists[1..][j] == lists[j + 1];
      NearestOverride(lists[1..], i - 1, k, key);
    }
  }

  lemma {:induction false} NoOverride<T, K>(lists: seq<seq<T>>, k: K, key: T -> K)
    requires |lists| > 0
    requires forall j :: 0 <= j < |lists| - 1 ==> k !in Keys(lists[j], key)
    ensures k !in Overrides(lists, key)
    ensures WithKey(BaseFirst(lists), k, key) == WithKey(lists[|lists| - 1], k, key)
  {
    if |lists| == 1 {
      assert BaseFirst(lists) == [] + lists[0] == lists[0];
    } else {
      assert forall j :: 0 <= j < |lists| - 2 ==> lists[1..][j] == lists[j + 1];
      NoOverride(lists[1..], k, key);
      assert k !in Keys(lists[0], key);
      WithKeyNone(lists[0], k, key);
      WithKeyAppend(BaseFirst(lists[1..]), lists[0], k, key);
    }
  }

  /** A key set by some non-base ruleset has exactly one effective entry: the nearest definer's last one. */
  lemma NearestDefinerWins<T, K>(lists: seq<seq<T>>, i: nat, k: K, key: T -> K)
    requires i < |lists| - 1
    requires k in Keys(lists[i], key)
    requires forall j :: 0 <= j < i ==> k !in Keys(lists[j], key)
    ensures WithKey(MergeLists(lists, key), k, key) == [LastByKey(lists[i], key)[k]]
  {
    MergeListsClosedForm(lists, key);
    OverridesWellKeyed(lists, key);
    NearestOverride(lists, i, k, key);
    WithKeyOverride(BaseFirst(lists), Overrides(lists, key), k, key);
  }

  /** A key no other ruleset sets keeps all of the base's entries, in their order. */
  lemma BaseEntriesKept<T, K>(lists: seq<seq<T>>, k: K, key: T -> K)
    requires |lists| > 0
    requires forall j :: 0 <= j < |lists| - 1 ==> k !in Keys(lists[j], key)
    ensures WithKey(MergeLists(lists, key), k, key) == WithKey(lists[|lists| - 1], k, key)
  {
    MergeListsClosedForm(lists, key);
    OverridesWellKeyed(lists, key);
    NoOverride(lists, k, key);
    WithKeyOverride(BaseFirst(lists), Overrides(lists, key), k, key);
  }

  lemma {:induction false} BaseFirstKeys<T, K>(lists: seq<seq<T>>, k: K, key: T -> K)
    ensures k in Keys(BaseFirst(lists), key) <==> exists i :: 0 <= i < |lists| && k in Keys(lists[i], key)
  {
    if lists != [] {
      BaseFirstKeys(lists[1..], k, key);
      KeysAppend(BaseFirst(lists[1..]), lists[0], key);
      if i :| 0 <= i < |lists| && k in Keys(lists[i], key) {
        if i > 0 {
          assert lists[1..][i - 1] == lists[i];
        }
      }
      if i :| 0 <= i < |lists[1..]| && k in Keys(lists[1..][i], key) {
        assert lists[i + 1] == lists[1..][i];
      }
    }
  }

  /** Inherited entries are never lost, none are invented, and keys appear in base-first order. */
  lemma {:induction false} ChainKeysAndOrder<T, K>(lists: seq<seq<T>>, key: T -> K)
    requires |lists| > 0
    ensures forall k :: k in Keys(MergeLists(lists, key), key) <==>
                        exists i :: 0 <= i < |lists| && k in Keys(lists[i], key)
    ensures FirstKeys(MergeLists(lists, key), key) == FirstKeys(BaseFirst(lists), key)
  {
    MergeListsClosedForm(lists, key);
    OverridesWellKeyed(lists, key);
    OverrideKeys(BaseFirst(lists), Overrides(lists, key), key);
    FirstKeysOverride(BaseFirst(lists), Overrides(lists, key), key);
    forall k {
      BaseFirstKeys(lists, k, key);
    }
  }

  /** Ruleset `i` sets the key and no nearer one does. */
  ghost predicate NearestDefines<T, K>(lists: seq<seq<T>>, i: nat, k: K, key: T -> K) {
    i < |lists| && k in Keys(lists[i], key) && forall j :: 0 <= j < i ==> k !in Keys(lists[j], key)
  }

  /**
    Nearest-definer semantics of a merged list: no key of the chain is lost and none invented, keys keep base-first order,
    a key set by a ruleset other than the base has one entry, the nearest definer's last, and a key only the base sets
    keeps the base's entries.
   */
  ghost predicate ByNearest<T, K(!new)>(lists: seq<seq<T>>, merged: seq<T>, key: T -> K) {
    && |lists| > 0
    && FirstKeys(merged, key) == FirstKeys(BaseFirst(lists), key)
    && (forall k :: k in Keys(merged, key) <==> exists j :: 0 <= j < |lists| && k in Keys(lists[j], key))
    && (forall i: nat, k :: NearestDefines(lists, i, k, key) ==>
          WithKey(merged, k, key) ==
          if i < |lists| - 1 then [LastByKey(lists[i], key)[k]] else WithKey(lists[i], k, key))
  }

  lemma NearestDefinerSemantics<T, K(!new)>(lists: seq<seq<T>>, key: T -> K)
    requires |lists| > 0
    ensures ByNearest(lists, MergeLists(lists, key), key)
  {
    var merged := MergeLists(lists, key);
    ChainKeysAndOrder(lists, key);
    forall i: nat, k | NearestDefines(lists, i, k, key)
      ensures WithKey(merged, k, key) ==
              if i < |lists| - 1 then [LastByKey(lists[i], key)[k]] else WithKey(lists[i], k, key)
    {
      if i < |lists| - 1 {
        NearestDefinerWins(lists, i, k, key);
      } else {
        BaseEntriesKept(lists, k, key);
      }
    }
  }

  // ---------------------------------------------------------------- lifting to records and optional records

  /** A field that a record merge merges on its own is folded on its own along the whole chain. */
  lemma {:induction false} ProjectChain<S(!new), T>(chain: seq<S>, merge: (S, S) -> S, field: S -> T,
                                                    mergeField: (T, T) -> T)
    requires |chain| > 0
    requires forall p, c {:trigger merge(p, c)} :: field(merge(p, c)) == mergeField(field(p), field(c))
    ensures field(FoldChain(chain, merge)) == FoldChain(MapSeq(field, chain), mergeField)
  {
    if |chain| > 1 {
      assert MapSeq(field, chain)[1..] == MapSeq(field, chain[1..]);
      ProjectChain(chain[1..], merge, field, mergeField);
    }
  }

  /** `mergeObject`: an absent object inherits, a present one is merged with a present parent. */
  function MergeObject<T>(parent: Option<T>, child: Option<T>, merge: (T, T) -> T): Option<T> {
    if child.None? then parent
    else if parent.None? then child
    else Some(merge(parent.value, child.value))
  }

  function Present<T>(chain: seq<Option<T>>): seq<T> {
    if chain == [] then []
    else (if chain[0].Some? then [chain[0].value] else []) + Present(chain[1..])
  }

  /** The effective object is the fold of the objects that are present; absent ones do not take part. */
  lemma {:induction false} FoldObjects<T>(chain: seq<Option<T>>, merge: (T, T) -> T)
    requires |chain| > 0
    ensures FoldChain(chain, (p, c) => MergeObject(p, c, merge)) ==
            if Present(chain) == [] then None else Some(FoldChain(Present(chain), merge))
  {
    if |chain| == 1 {
      assert chain[1..] == [];
    } else {
      var lifted: (Option<T>, Option<T>) -> Option<T> := (p, c) => MergeObject(p, c, merge);
      var rest := Present(chain[1..]);
      FoldObjects(chain[1..], merge);
      assert FoldChain(chain, lifted) == MergeObject(FoldChain(chain[1..], lifted), chain[0], merge);
      if chain[0].None? {
        assert Present(chain) == rest;
      } else if rest != [] {
        assert Present(chain)[1..] == rest;
      }
    }
  }

  lemma MergeObjectAssociative<T(!new)>(a: Option<T>, b: Option<T>, c: Option<T>, merge: (T, T) -> T)
    requires Associative(merge)
    ensures MergeObject(MergeObject(a, b, merge), c, merge) == MergeObject(a, MergeObject(b, c, merge), merge)
  {
  }
}
