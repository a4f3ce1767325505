/** Deleting from a slice shifts its backing array in place, which is why a rollback needs a copy of the order. */
module SliceDelete {

  /** The backing array's first n elements after deleting index i: the tail moves down, the last slot keeps its
      value. */
  function Shifted<T>(s: seq<T>, i: nat): (r: seq<T>)
    requires i < |s|
    ensures |r| == |s| && r[..|s| - 1] == s[..i] + s[i + 1..]
  {
    s[..i] + s[i + 1..] + [s[|s| - 1]]
  }

  /** append(s[:i], s[i+1:]...) on a slice of n elements over a. */
  method DeleteShift<T>(a: array<T>, n: nat, i: nat)
    requires i < n <= a.Length
    modifies a
    ensures a[..n] == Shifted(old(a[..n]), i) && a[n..] == old(a[n..])
  {
    for k := i to n - 1
      invariant a[..i] == old(a[..i]) && a[k..] == old(a[k..])
      invariant forall j :: i <= j < k ==> a[j] == old(a[j + 1])
    {
      assert a[k + 1] == a[k..][1] == old(a[k..])[1];
      a[k] := a[k + 1];
    }
    ghost var was := old(a[..n]);
    assert a[n - 1] == a[n - 1..][0] == old(a[n - 1..])[0] == was[n - 1];
    forall j | 0 <= j < n ensures a[..n][j] == Shifted(was, i)[j] {
      if j < i {
        assert a[j] == a[..i][j] == old(a[..i])[j];
      } else if j < n - 1 {
        assert a[j] == old(a[j + 1]);
      }
    }
    assert a[n..] == a[n - 1..][1..] == old(a[n - 1..])[1..] == old(a[n..]);
  }

  /** The backing array after deleting index 0 of its first m elements, m times over. */
  function Drained<T>(a: seq<T>, m: nat): (r: seq<T>)
    requires m <= |a|
    ensures |r| == |a|
    decreases m
  {
    if m == 0 then a else Drained(Shifted(a[..m], 0) + a[m..], m - 1)
  }

  /** Emptying a slice from the front smears its last element over all its slots. */
  lemma {:induction false} DrainedAt<T>(a: seq<T>, m: nat, k: nat)
    requires m <= |a| && k < |a|
    ensures Drained(a, m)[k] == if k < m then a[m - 1] else a[k]
    decreases m
  {
    if m > 0 {
      var b := Shifted(a[..m], 0) + a[m..];
      assert m > 1 ==> b[m - 2] == a[m - 1];
      assert b[m - 1] == a[m - 1];
      DrainedAt(b, m - 1, k);
    }
  }

  /** What a rollback that kept the order as another slice of the same array would read back after deleting index i of s
      and then every remaining element. */
  function ReadBack<T>(s: seq<T>, i: nat): seq<T>
    requires i < |s|
  {
    Drained(Shifted(s, i), |s| - 1)
  }

  lemma ReadBackAt<T>(s: seq<T>, i: nat, k: nat)
    requires i < |s| && k < |s|
    ensures ReadBack(s, i)[k] == if k < |s| - 1 && i == |s| - 1 then s[|s| - 2] else s[|s| - 1]
  {
    DrainedAt(Shifted(s, i), |s| - 1, k);
    if |s| > 1 {
      var rest := s[..i] + s[i + 1..];
      assert Shifted(s, i)[|s| - 2] == Shifted(s, i)[..|s| - 1][|s| - 2] == rest[|s| - 2];
    }
  }

  /** Nothing beyond the slice takes part. */
  lemma ReadBackIsDrained<T>(s: seq<T>, rest: seq<T>, i: nat)
    requires i < |s|
    ensures Drained(Shifted(s, i) + rest, |s| - 1)[..|s|] == ReadBack(s, i)
  {
    forall k: nat | k < |s| ensures Drained(Shifted(s, i) + rest, |s| - 1)[k] == ReadBack(s, i)[k] {
      DrainedAt(Shifted(s, i) + rest, |s| - 1, k);
      DrainedAt(Shifted(s, i), |s| - 1, k);
    }
  }

  /** Deleting index i of s, the front of a backing array that goes on with `rest`, and then every remaining element
      leaves the array's front as s was exactly when nothing remained, or only the element in front. */
  lemma AliasedOrderIsLost<T(!new)>(s: seq<T>, rest: seq<T>, i: nat)
    requires i < |s| && forall j, k :: 0 <= j < k < |s| ==> s[j] != s[k]
    ensures Drained(Shifted(s, i) + rest, |s| - 1)[..|s|] == s <==> |s| == 1 || (|s| == 2 && i == 1)
  {
    ReadBackIsDrained(s, rest, i);
    forall k: nat | k < |s|
      ensures ReadBack(s, i)[k] == if k < |s| - 1 && i == |s| - 1 then s[|s| - 2] else s[|s| - 1]
    {
      ReadBackAt(s, i, k);
    }
    if ReadBack(s, i) == s && |s| > 1 {
      assert ReadBack(s, i)[0] == s[0];
    }
  }
}
