/** Sequences up to order. */
module Sequences {

  function Map<A, B>(f: A -> B, s: seq<A>): (r: seq<B>)
    ensures |r| == |s| && forall i :: 0 <= i < |s| ==> r[i] == f(s[i])
  {
    seq(|s|, i requires 0 <= i < |s| => f(s[i]))
  }

  function Without<A>(s: seq<A>, k: nat): (r: seq<A>)
    requires k < |s|
    ensures |r| == |s| - 1
  {
    s[..k] + s[k + 1..]
  }

  lemma WithoutOne<A(!new)>(s: seq<A>, k: nat)
    requires k < |s|
    ensures multiset(s) == multiset(Without(s, k)) + multiset{s[k]}
    ensures multiset(Without(s, k)) == multiset(s) - multiset{s[k]}
  {
    assert s == s[..k] + [s[k]] + s[k + 1..];
  }

  lemma {:induction false} PermutationsHaveOneLength<A(!new)>(a: seq<A>, b: seq<A>)
    requires multiset(a) == multiset(b)
    ensures |a| == |b|
  {
    assert |a| == |multiset(a)| == |multiset(b)| == |b|;
  }

  /** Mapping preserves being a permutation. */
  lemma {:induction false} MapPermutes<A(!new), B(!new)>(f: A -> B, a: seq<A>, b: seq<A>)
    requires multiset(a) == multiset(b)
    ensures multiset(Map(f, a)) == multiset(Map(f, b))
    decreases |a|
  {
    PermutationsHaveOneLength(a, b);
    if a != [] {
      assert a[0] in multiset(b);
      var k :| 0 <= k < |b| && b[k] == a[0];
      WithoutOne(a, 0);
      WithoutOne(b, k);
      MapPermutes(f, Without(a, 0), Without(b, k));
      WithoutOne(Map(f, a), 0);
      WithoutOne(Map(f, b), k);
      MapWithout(f, a, 0);
      MapWithout(f, b, k);
    }
  }

  lemma MapWithout<A, B>(f: A -> B, s: seq<A>, k: nat)
    requires k < |s|
    ensures Map(f, Without(s, k)) == Without(Map(f, s), k)
  {}

  /** The numbers below n that satisfy keep, in increasing order. */
  function Where(n: nat, keep: nat -> bool): (ps: seq<nat>)
  {
    if n == 0 then [] else if keep(n - 1) then Where(n - 1, keep) + [n - 1] else Where(n - 1, keep)
  }

  ghost predicate Increasing(ps: seq<nat>) {
    forall p, q :: 0 <= p < q < |ps| ==> ps[p] < ps[q]
  }

  ghost predicate Below(ps: seq<nat>, n: nat) {
    forall p :: 0 <= p < |ps| ==> ps[p] < n
  }

  lemma IncreasingSnoc(ps: seq<nat>, n: nat)
    requires Increasing(ps) && Below(ps, n)
    ensures Increasing(ps + [n]) && Below(ps + [n], n + 1) && Below(ps, n + 1)
  {}

  lemma {:induction false} WhereIncreases(n: nat, keep: nat -> bool)
    ensures Increasing(Where(n, keep)) && Below(Where(n, keep), n)
  {
    hide Increasing, Below;
    if n == 0 {
      assert Increasing([]) && Below([], 0) by {
        NothingIncreases();
      }
    } else {
      WhereIncreases(n - 1, keep);
      IncreasingSnoc(Where(n - 1, keep), n - 1);
    }
  }

  lemma NothingIncreases()
    ensures Increasing([]) && Below([], 0)
  {}

  lemma {:induction false} WhereHolds(n: nat, keep: nat -> bool, k: nat)
    ensures k in Where(n, keep) <==> k < n && keep(k)
  {
    if n > 0 {
      WhereHolds(n - 1, keep, k);
    }
  }

  /** Where lists each number below n that satisfies keep exactly once, in increasing order, and no other. */
  lemma WhereIs(n: nat, keep: nat -> bool)
    ensures var ps := Where(n, keep);
      Increasing(ps) && Below(ps, n) && forall k: nat :: k in ps <==> k < n && keep(k)
  {
    hide Where, Increasing, Below;
    WhereIncreases(n, keep);
    forall k: nat ensures k in Where(n, keep) <==> k < n && keep(k) {
      WhereHolds(n, keep, k);
    }
  }

  /** The elements of s at these positions. */
  function Selected<T>(s: seq<T>, ps: seq<nat>): (r: seq<T>)
    requires Below(ps, |s|)
    ensures |r| == |ps| && forall p :: 0 <= p < |ps| ==> r[p] == s[ps[p]]
  {
    seq(|ps|, p requires 0 <= p < |ps| => s[ps[p]])
  }

  lemma SelectedSnoc<T>(s: seq<T>, ps: seq<nat>, k: nat)
    requires Below(ps, |s|) && k < |s|
    ensures Below(ps + [k], |s|) && Selected(s, ps + [k]) == Selected(s, ps) + [s[k]]
  {}
}
