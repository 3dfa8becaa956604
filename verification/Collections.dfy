/** Optional values and the few facts about finite sequences that the ruleset model shares. */
module Collections {

  /** A Go pointer that may be nil. */
  datatype Option<+T> = None | Some(value: T)

  /** `utils.WithDefault`: the value behind a pointer, or a default for nil. */
  function WithDefault<T>(o: Option<T>, default: T): T {
    if o.Some? then o.value else default
  }

  function MapSeq<A, B>(f: A -> B, xs: seq<A>): (ys: seq<B>)
    ensures |ys| == |xs|
    ensures forall i :: 0 <= i < |xs| ==> ys[i] == f(xs[i])
  {
    seq(|xs|, i requires 0 <= i < |xs| => f(xs[i]))
  }

  function Elems<T(==)>(xs: seq<T>): set<T> {
    set x | x in xs
  }

  lemma ElemsSnoc<T>(xs: seq<T>, x: T)
    ensures Elems(xs + [x]) == Elems(xs) + {x}
  {
  }

  lemma ElemsPrefix<T>(xs: seq<T>, i: nat)
    requires i < |xs|
    ensures Elems(xs[..i + 1]) == Elems(xs[..i]) + {xs[i]}
  {
    assert xs[..i + 1] == xs[..i] + [xs[i]];
  }

  ghost predicate NoDup<T>(xs: seq<T>) {
    forall i, j :: 0 <= i < j < |xs| ==> xs[i] != xs[j]
  }

  lemma {:induction false} NoDupSize<T>(xs: seq<T>)
    ensures |Elems(xs)| <= |xs|
    ensures NoDup(xs) <==> |Elems(xs)| == |xs|
  {
    if xs == [] {
    } else {
      var n := |xs| - 1;
      var init := xs[..n];
      NoDupSize(init);
      assert xs == init + [xs[n]];
      assert Elems(xs) == Elems(init) + {xs[n]};
      if xs[n] in init {
        assert Elems(xs) == Elems(init);
      } else {
        assert |Elems(xs)| == |Elems(init)| + 1;
        if NoDup(init) {
          assert NoDup(xs);
        }
      }
    }
  }

  lemma SubsetOfSameSize<T>(a: set<T>, b: set<T>)
    requires a <= b && |b| <= |a|
    ensures a == b
  {
    if a != b {
      var x :| x in b && x !in a;
      assert a <= b - {x};
      SubsetSize(a, b - {x});
    }
  }

  lemma {:induction false} SubsetSize<T>(a: set<T>, b: set<T>)
    requires a <= b
    ensures |a| <= |b|
    decreases |a|
  {
    if a == {} {
    } else {
      var x :| x in a;
      SubsetSize(a - {x}, b - {x});
    }
  }

  lemma {:induction false} NoDupMultiset<T>(xs: seq<T>)
    requires NoDup(xs)
    ensures multiset(xs) == multiset(Elems(xs))
  {
    if xs == [] {
    } else {
      var n := |xs| - 1;
      var init := xs[..n];
      NoDupMultiset(init);
      assert xs == init + [xs[n]];
      assert xs[n] !in init;
      assert Elems(xs) == Elems(init) + {xs[n]};
    }
  }

  /** The pigeonhole step: a duplicate-free list contained in a list that is no longer is a permutation of it. */
  lemma Pigeonhole<T>(xs: seq<T>, ys: seq<T>)
    requires NoDup(xs)
    requires Elems(xs) <= Elems(ys)
    requires |ys| <= |xs|
    ensures NoDup(ys)
    ensures multiset(xs) == multiset(ys)
  {
    NoDupSize(xs);
    NoDupSize(ys);
    SubsetOfSameSize(Elems(xs), Elems(ys));
    NoDupMultiset(xs);
    NoDupMultiset(ys);
  }

  /** A string that is longer than all the given ones. */
  function Longer(xs: seq<string>): (s: string)
    ensures forall x :: x in xs ==> |x| < |s|
  {
    if xs == [] then "x" else Longer(xs[1..]) + xs[0] + "x"
  }

  /** The first place of a character. */
  lemma FirstPlace(s: string, c: char) returns (i: nat)
    requires c in s
    ensures i < |s| && s[i] == c && c !in s[..i] && s == s[..i] + [c] + s[i + 1..]
  {
    i := 0;
    while s[i] != c
      invariant i < |s| && c in s[i..] && c !in s[..i]
      decreases |s| - i
    {
      assert s[..i + 1] == s[..i] + [s[i]] && s[i..] == [s[i]] + s[i + 1..];
      i := i + 1;
    }
  }
}
