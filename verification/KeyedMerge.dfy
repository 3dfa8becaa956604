/**
  The keyed list merge of extends_merge.go, for an arbitrary entry type and key function.

  `MergeKeyed` is the value the loop computes, in closed form: run over the parent entries followed by the child
  entries, keep the entries whose key the child does not define, and emit the child's last entry for a key the child
  defines at the first occurrence of that key. All recursions peel off the last entry, as the loops add it.
 */
module KeyedMerge {
  import opened Collections

  function Keys<T(==), K(==)>(xs: seq<T>, key: T -> K): set<K> {
    set x | x in xs :: key(x)
  }

  lemma KeysSnoc<T, K>(xs: seq<T>, x: T, key: T -> K)
    ensures Keys(xs + [x], key) == Keys(xs, key) + {key(x)}
  {
    assert forall y :: y in xs + [x] <==> y in xs || y == x;
  }

  lemma KeysAppend<T, K>(xs: seq<T>, ys: seq<T>, key: T -> K)
    ensures Keys(xs + ys, key) == Keys(xs, key) + Keys(ys, key)
  {
    assert forall k :: k in Keys(xs + ys, key) <==> k in Keys(xs, key) + Keys(ys, key);
  }

  /** Some entry has the key. The recursion goes with those below; `OccursIff` ties it to the set of keys. */
  predicate Occurs<T, K(==)>(xs: seq<T>, k: K, key: T -> K) {
    xs != [] && (key(xs[|xs| - 1]) == k || Occurs(xs[..|xs| - 1], k, key))
  }

  lemma {:induction false} OccursIff<T, K>(xs: seq<T>, k: K, key: T -> K)
    ensures Occurs(xs, k, key) <==> k in Keys(xs, key)
  {
    if xs != [] {
      var n := |xs| - 1;
      assert xs == xs[..n] + [xs[n]];
      KeysSnoc(xs[..n], xs[n], key);
      OccursIff(xs[..n], k, key);
    }
  }

  /** The last entry with each key: the contents of the map that a loop filling `m[key(e)] = e` leaves behind. */
  function LastByKey<T(==), K(==)>(xs: seq<T>, key: T -> K): (m: map<K, T>)
    ensures m.Keys == Keys(xs, key)
    ensures forall k :: k in m ==> key(m[k]) == k
  {
    if xs == [] then map[]
    else
      var n := |xs| - 1;
      assert xs == xs[..n] + [xs[n]];
      KeysAppend(xs[..n], [xs[n]], key);
      LastByKey(xs[..n], key)[key(xs[n]) := xs[n]]
  }

  /** Replaces the first entry with a key of `m` by `m`'s entry and drops the later ones; keeps all other entries. */
  function Override<T(==), K(==)>(xs: seq<T>, m: map<K, T>, key: T -> K): seq<T> {
    if xs == [] then []
    else
      var n := |xs| - 1;
      var out := Override(xs[..n], m, key);
      var k := key(xs[n]);
      if k !in m then out + [xs[n]]
      else if Occurs(xs[..n], k, key) then out
      else out + [m[k]]
  }

  /** The merged list: parent order first, then the child's new keys in child order. */
  function MergeKeyed<T(==), K(==)>(parent: seq<T>, child: seq<T>, key: T -> K): seq<T> {
    Override(parent + child, LastByKey(child, key), key)
  }

  /** Every entry of `m` is stored under its own key. */
  ghost predicate WellKeyed<T, K>(m: map<K, T>, key: T -> K) {
    forall k :: k in m ==> key(m[k]) == k
  }

  // ---------------------------------------------------------------- one step of each recursion

  lemma {:induction false} OverrideSnoc<T, K>(xs: seq<T>, e: T, m: map<K, T>, key: T -> K)
    ensures Override(xs + [e], m, key) ==
            if key(e) !in m then Override(xs, m, key) + [e]
            else if key(e) in Keys(xs, key) then Override(xs, m, key)
            else Override(xs, m, key) + [m[key(e)]]
  {
    OccursIff(xs, key(e), key);
    assert (xs + [e])[..|xs|] == xs;
  }

  lemma {:induction false} LastByKeySnoc<T, K>(xs: seq<T>, e: T, key: T -> K)
    ensures LastByKey(xs + [e], key) == LastByKey(xs, key)[key(e) := e]
  {
    assert (xs + [e])[..|xs|] == xs;
  }

  lemma {:induction false} LastByKeyAppend<T, K>(xs: seq<T>, ys: seq<T>, key: T -> K)
    ensures LastByKey(xs + ys, key) == LastByKey(xs, key) + LastByKey(ys, key)
  {
    if ys == [] {
      assert xs + ys == xs;
    } else {
      var n := |ys| - 1;
      var init, e := ys[..n], ys[n];
      calc {
        LastByKey(xs + ys, key);
      ==  { assert xs + ys == (xs + init) + [e]; LastByKeySnoc(xs + init, e, key); }
        LastByKey(xs + init, key)[key(e) := e];
      ==  { LastByKeyAppend(xs, init, key); }
        (LastByKey(xs, key) + LastByKey(init, key))[key(e) := e];
      ==
        LastByKey(xs, key) + LastByKey(init, key)[key(e) := e];
      ==  { assert ys == init + [e]; }
        LastByKey(xs, key) + LastByKey(ys, key);
      }
    }
  }

  /** No later entry has the key of entry `l`. */
  ghost predicate IsLastOf<T, K>(xs: seq<T>, l: nat, key: T -> K)
    requires l < |xs|
  {
    forall m :: l < m < |xs| ==> key(xs[m]) != key(xs[l])
  }

  /** The index holds the last entry of each key. */
  lemma {:induction false} LastByKeyIsLast<T, K>(xs: seq<T>, l: nat, key: T -> K)
    requires l < |xs| && IsLastOf(xs, l, key)
    ensures key(xs[l]) in LastByKey(xs, key) && LastByKey(xs, key)[key(xs[l])] == xs[l]
  {
    var n := |xs| - 1;
    assert xs == xs[..n] + [xs[n]];
    LastByKeySnoc(xs[..n], xs[n], key);
    if l < n {
      assert xs[..n][l] == xs[l] && key(xs[n]) != key(xs[l]);
      LastByKeyIsLast(xs[..n], l, key);
    }
  }

  /** Every key has a last entry. */
  lemma {:induction false} LastIndex<T, K>(xs: seq<T>, k: K, key: T -> K) returns (l: nat)
    requires k in Keys(xs, key)
    ensures l < |xs| && key(xs[l]) == k && IsLastOf(xs, l, key)
    ensures k in LastByKey(xs, key) && LastByKey(xs, key)[k] == xs[l]
  {
    var n := |xs| - 1;
    if key(xs[n]) == k {
      l := n;
    } else {
      assert xs == xs[..n] + [xs[n]];
      KeysSnoc(xs[..n], xs[n], key);
      l := LastIndex(xs[..n], k, key);
      assert xs[l] == xs[..n][l];
      assert forall m :: l < m < n ==> xs[m] == xs[..n][m];
    }
    LastByKeyIsLast(xs, l, key);
  }

  // ---------------------------------------------------------------- what overriding keeps

  lemma {:induction false} OverrideKeys<T, K>(xs: seq<T>, m: map<K, T>, key: T -> K)
    requires WellKeyed(m, key)
    ensures Keys(Override(xs, m, key), key) == Keys(xs, key)
  {
    if xs != [] {
      var n := |xs| - 1;
      var init, e := xs[..n], xs[n];
      var out := Override(init, m, key);
      assert xs == init + [e];
      OverrideKeys(init, m, key);
      OverrideSnoc(init, e, m, key);
      KeysSnoc(init, e, key);
      if key(e) !in m {
        KeysSnoc(out, e, key);
      } else if key(e) !in Keys(init, key) {
        KeysSnoc(out, m[key(e)], key);
      }
    }
  }

  lemma {:induction false} OverrideNothing<T, K>(xs: seq<T>, key: T -> K)
    ensures Override(xs, map[], key) == xs
  {
    if xs == [] {
    } else {
      OverrideNothing(xs[..|xs| - 1], key);
    }
  }

  /** The last entry of a key after overriding: the overriding one, or the last one there was. */
  lemma {:induction false} LastByKeyOverride<T, K>(xs: seq<T>, m: map<K, T>, key: T -> K, k: K)
    requires WellKeyed(m, key) && k in Keys(xs, key)
    ensures k in LastByKey(Override(xs, m, key), key)
    ensures LastByKey(Override(xs, m, key), key)[k] == if k in m then m[k] else LastByKey(xs, key)[k]
  {
    var n := |xs| - 1;
    var init, e := xs[..n], xs[n];
    var out := Override(init, m, key);
    assert xs == init + [e];
    OverrideKeys(xs, m, key);
    KeysAppend(init, [e], key);
    OverrideSnoc(init, e, m, key);
    LastByKeySnoc(init, e, key);
    if k in Keys(init, key) {
      LastByKeyOverride(init, m, key, k);
    }
    if key(e) !in m {
      LastByKeySnoc(out, e, key);
    } else if key(e) !in Keys(init, key) {
      LastByKeySnoc(out, m[key(e)], key);
    }
  }

  lemma {:induction false} LastByKeyMerge<T, K>(parent: seq<T>, child: seq<T>, key: T -> K)
    ensures LastByKey(MergeKeyed(parent, child, key), key) == LastByKey(parent, key) + LastByKey(child, key)
  {
    var all := parent + child;
    OverrideKeys(all, LastByKey(child, key), key);
    LastByKeyAppend(parent, child, key);
    KeysAppend(parent, child, key);
    forall k | k in Keys(all, key)
      ensures LastByKey(MergeKeyed(parent, child, key), key)[k] == LastByKey(all, key)[k]
    {
      LastByKeyOverride(all, LastByKey(child, key), key, k);
    }
  }

  // ---------------------------------------------------------------- associativity

  lemma {:induction false} OverrideTwice<T, K>(xs: seq<T>, m1: map<K, T>, m2: map<K, T>, key: T -> K)
    requires WellKeyed(m1, key)
    ensures Override(Override(xs, m1, key), m2, key) == Override(xs, m1 + m2, key)
  {
    if xs != [] {
      var n := |xs| - 1;
      var init, e := xs[..n], xs[n];
      var inner := Override(init, m1, key);
      assert xs == init + [e];
      OverrideTwice(init, m1, m2, key);
      OverrideKeys(init, m1, key);
      OverrideSnoc(init, e, m1, key);
      OverrideSnoc(init, e, m1 + m2, key);
      OverrideSnoc(inner, e, m2, key);
      if key(e) in m1 {
        OverrideSnoc(inner, m1[key(e)], m2, key);
      }
    }
  }

  /** Overriding and then merging a child is one override by both maps. */
  lemma {:induction false} OverrideThenAppend<T, K>(xs: seq<T>, child: seq<T>, m1: map<K, T>, m2: map<K, T>,
                                                    key: T -> K)
    requires WellKeyed(m1, key)
    requires Keys(child, key) <= m2.Keys
    ensures Override(Override(xs, m1, key) + child, m2, key) == Override(xs + child, m1 + m2, key)
  {
    var inner := Override(xs, m1, key);
    if child == [] {
      assert inner + child == inner && xs + child == xs;
      OverrideTwice(xs, m1, m2, key);
    } else {
      var n := |child| - 1;
      var c, e := child[..n], child[n];
      assert child == c + [e];
      KeysAppend(c, [e], key);
      assert e in child && key(e) in m2;
      OverrideThenAppend(xs, c, m1, m2, key);
      assert inner + child == (inner + c) + [e] && xs + child == (xs + c) + [e];
      OverrideSnoc(inner + c, e, m2, key);
      OverrideSnoc(xs + c, e, m1 + m2, key);
      OverrideKeys(xs, m1, key);
      KeysAppend(inner, c, key);
      KeysAppend(xs, c, key);
    }
  }

  /** If every key of a tail is overridden anyway, overriding the tail first changes nothing. */
  lemma {:induction false} OverrideTailFirst<T, K>(xs: seq<T>, tail: seq<T>, m2: map<K, T>, m: map<K, T>, key: T -> K)
    requires WellKeyed(m2, key)
    requires Keys(tail, key) <= m.Keys
    ensures Override(xs + Override(tail, m2, key), m, key) == Override(xs + tail, m, key)
  {
    if tail != [] {
      var n := |tail| - 1;
      var t, e := tail[..n], tail[n];
      assert tail == t + [e];
      KeysAppend(t, [e], key);
      assert key(e) in Keys([e], key);
      OverrideTailFirst(xs, t, m2, m, key);
      OverrideTailStep(xs, t, e, m2, m, key);
    }
  }

  lemma {:induction false} OverriddenKeys<T, K>(xs: seq<T>, t: seq<T>, m: map<K, T>, key: T -> K)
    requires WellKeyed(m, key)
    ensures Keys(xs + Override(t, m, key), key) == Keys(xs + t, key)
  {
    OverrideKeys(t, m, key);
    KeysAppend(xs, t, key);
    KeysAppend(xs, Override(t, m, key), key);
  }

  /** Two entries with one overridden key add the same to lists with the same keys that are overridden alike. */
  lemma {:induction false} OverrideSameSnoc<T, K>(ys: seq<T>, zs: seq<T>, x: T, e: T, m: map<K, T>, key: T -> K)
    requires key(x) == key(e) && key(e) in m && Keys(ys, key) == Keys(zs, key)
    requires Override(ys, m, key) == Override(zs, m, key)
    ensures Override(ys + [x], m, key) == Override(zs + [e], m, key)
  {
    OverrideSnoc(ys, x, m, key);
    OverrideSnoc(zs, e, m, key);
  }

  lemma {:induction false} OverrideTailStep<T, K>(xs: seq<T>, t: seq<T>, e: T, m2: map<K, T>, m: map<K, T>, key: T -> K)
    requires WellKeyed(m2, key) && key(e) in m
    requires Override(xs + Override(t, m2, key), m, key) == Override(xs + t, m, key)
    ensures Override(xs + Override(t + [e], m2, key), m, key) == Override(xs + (t + [e]), m, key)
  {
    var inner, k := Override(t, m2, key), key(e);
    OverrideSnoc(t, e, m2, key);
    OverriddenKeys(xs, t, m2, key);
    assert xs + (t + [e]) == (xs + t) + [e];
    if k in m2 && k in Keys(t, key) {
      KeysAppend(xs, t, key);
      OverrideSnoc(xs + t, e, m, key);
    } else {
      var x := if k in m2 then m2[k] else e;
      assert xs + (inner + [x]) == (xs + inner) + [x];
      OverrideSameSnoc(xs + inner, xs + t, x, e, m, key);
    }
  }

  /** `mergeKeyed` is associative on all lists, duplicate keys included. */
  lemma MergeKeyedAssociative<T, K>(a: seq<T>, b: seq<T>, c: seq<T>, key: T -> K)
    ensures MergeKeyed(MergeKeyed(a, b, key), c, key) == MergeKeyed(a, MergeKeyed(b, c, key), key)
  {
    var lb, lc := LastByKey(b, key), LastByKey(c, key);
    var bc := MergeKeyed(b, c, key);
    calc {
      MergeKeyed(MergeKeyed(a, b, key), c, key);
    ==  { OverrideThenAppend(a + b, c, lb, lc, key); }
      Override(a + b + c, lb + lc, key);
    ==  { assert a + b + c == a + (b + c); }
      Override(a + (b + c), lb + lc, key);
    ==  { KeysAppend(b, c, key); OverrideTailFirst(a, b + c, lc, lb + lc, key); }
      Override(a + bc, lb + lc, key);
    ==  { LastByKeyMerge(b, c, key); }
      MergeKeyed(a, bc, key);
    }
  }

  // ---------------------------------------------------------------- the loop

  /** `childByKey` and the maps of the differ: filled by one pass, so the last entry of a key wins. */
  method IndexByKey<T(==), K(==)>(xs: seq<T>, key: T -> K) returns (m: map<K, T>)
    ensures m == LastByKey(xs, key)
  {
    m := map[];
    for i := 0 to |xs|
      invariant m == LastByKey(xs[..i], key)
    {
      assert xs[..i + 1] == xs[..i] + [xs[i]];
      LastByKeySnoc(xs[..i], xs[i], key);
      m := m[key(xs[i]) := xs[i]];
    }
    assert xs[..|xs|] == xs;
  }

  /** `mergeKeyed` as the source runs it: index the child, overwrite in the parent, append what is new. */
  method MergeKeyedLoop<T(==), K(==)>(parent: seq<T>, child: seq<T>, key: T -> K) returns (out: seq<T>)
    ensures out == MergeKeyed(parent, child, key)
  {
    if |child| == 0 {
      assert parent + child == parent;
      OverrideNothing(parent, key);
      return parent;
    }
    var childByKey := IndexByKey(child, key);
    var done: set<K>;
    out, done := OverwriteParents(parent, childByKey, key);
    out := AppendNew(parent, child, childByKey, key, out, done);
  }

  /** First loop of `mergeKeyed`: the parent entries, overridden in place. */
  method OverwriteParents<T(==), K(==)>(parent: seq<T>, childByKey: map<K, T>, key: T -> K)
    returns (out: seq<T>, done: set<K>)
    ensures done == Keys(parent, key) * childByKey.Keys
    ensures out == Override(parent, childByKey, key)
  {
    out, done := [], {};
    ghost var seen := [];
    for i := 0 to |parent|
      invariant seen == parent[..i]
      invariant done == Keys(seen, key) * childByKey.Keys
      invariant out == Override(seen, childByKey, key)
    {
      MergeStep(seen, parent[i], childByKey, key);
      assert parent[..i + 1] == seen + [parent[i]];
      seen := seen + [parent[i]];
      var k := key(parent[i]);
      if k !in childByKey {
        out := out + [parent[i]];
      } else if k !in done {
        out := out + [childByKey[k]];
        done := done + {k};
      }
    }
    assert parent[..|parent|] == parent;
  }

  /** Second loop of `mergeKeyed`: the child's remaining keys, in child order. */
  method AppendNew<T(==), K(==)>(parent: seq<T>, child: seq<T>, childByKey: map<K, T>, key: T -> K,
                                 overwritten: seq<T>, overwrittenKeys: set<K>)
    returns (out: seq<T>)
    requires Keys(child, key) <= childByKey.Keys
    requires overwrittenKeys == Keys(parent, key) * childByKey.Keys
    requires overwritten == Override(parent, childByKey, key)
    ensures out == Override(parent + child, childByKey, key)
  {
    out := overwritten;
    var done := overwrittenKeys;
    ghost var merged := parent;
    for i := 0 to |child|
      invariant merged == parent + child[..i]
      invariant done == Keys(merged, key) * childByKey.Keys
      invariant out == Override(merged, childByKey, key)
    {
      var k := key(child[i]);
      KeyIsKnown(child, i, childByKey.Keys, key);
      MergeStep(merged, child[i], childByKey, key);
      PrefixGrows(parent, child, i);
      merged := merged + [child[i]];
      if k !in done {
        out := out + [childByKey[k]];
        done := done + {k};
      }
    }
    assert merged == parent + child;
  }

  lemma KeyIsKnown<T, K>(xs: seq<T>, i: nat, keys: set<K>, key: T -> K)
    requires i < |xs| && Keys(xs, key) <= keys
    ensures key(xs[i]) in keys
  {
    assert key(xs[i]) in Keys(xs, key);
  }

  lemma PrefixGrows<T>(xs: seq<T>, ys: seq<T>, i: nat)
    requires i < |ys|
    ensures xs + ys[..i + 1] == xs + ys[..i] + [ys[i]]
  {
  }

  lemma {:induction false} MergeStep<T, K>(xs: seq<T>, e: T, m: map<K, T>, key: T -> K)
    ensures Keys(xs + [e], key) * m.Keys ==
            if key(e) in m && key(e) !in Keys(xs, key) * m.Keys then Keys(xs, key) * m.Keys + {key(e)}
            else Keys(xs, key) * m.Keys
    ensures Override(xs + [e], m, key) ==
            if key(e) !in m then Override(xs, m, key) + [e]
            else if key(e) in Keys(xs, key) * m.Keys then Override(xs, m, key)
            else Override(xs, m, key) + [m[key(e)]]
  {
    KeysSnoc(xs, e, key);
    OverrideSnoc(xs, e, m, key);
  }

  // ---------------------------------------------------------------- maps updated entry by entry

  /** `m` is `m0` after setting `key(x)` to `f(x)` for every `x` of `xs` in turn. */
  ghost predicate Overlays<T, K, V>(m0: map<K, V>, m: map<K, V>, xs: seq<T>, key: T -> K, f: T -> V) {
    && m.Keys == m0.Keys + Keys(xs, key)
    && forall k :: k in m ==> m[k] == if k in Keys(xs, key) then f(LastByKey(xs, key)[k]) else m0[k]
  }

  lemma OverlaysMore<T, K, V>(m0: map<K, V>, m: map<K, V>, xs: seq<T>, x: T, key: T -> K, f: T -> V)
    requires Overlays(m0, m, xs, key, f)
    ensures Overlays(m0, m[key(x) := f(x)], xs + [x], key, f)
  {
    KeysAppend(xs, [x], key);
    LastByKeySnoc(xs, x, key);
    var m' := m[key(x) := f(x)];
    forall k | k in m'
      ensures m'[k] == if k in Keys(xs + [x], key) then f(LastByKey(xs + [x], key)[k]) else m0[k]
    {
      assert k != key(x) ==> k in m;
    }
  }
}
