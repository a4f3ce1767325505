/** The monitor fingerprint: an unstable in-place sort, a translation to an origin and a rendering that
    together identify an arrangement up to enumeration order and translation. */
module Fingerprint {
  import opened Types
  import opened Machine
  import opened Sequences

  /** What the fingerprint looks at: everything but the work area. */
  datatype Geo = Geo(x: int, y: int, w: int, h: int, scale: int, primary: bool)

  function GeoOf(m: Monitor): Geo {
    Geo(m.x as int, m.y as int, m.w as int, m.h as int, m.scale, m.primary)
  }

  function Geos(ms: seq<Monitor>): seq<Geo> {
    Map(GeoOf, ms)
  }

  /** The comparator: top to bottom, left to right, then every remaining field, non-primary first. */
  predicate Less(a: Geo, b: Geo) {
    if a.y != b.y then a.y < b.y
    else if a.x != b.x then a.x < b.x
    else if a.w != b.w then a.w < b.w
    else if a.h != b.h then a.h < b.h
    else if a.scale != b.scale then a.scale < b.scale
    else !a.primary && b.primary
  }

  ghost predicate Sorted(s: seq<Geo>) {
    forall i, j :: 0 <= i < j < |s| ==> !Less(s[j], s[i])
  }

  // ---- a sorted permutation is unique, however it was reached ----

  function Insert(g: Geo, s: seq<Geo>): seq<Geo> {
    if s == [] || !Less(s[0], g) then [g] + s else [s[0]] + Insert(g, s[1..])
  }

  function Sort(s: seq<Geo>): seq<Geo> {
    if s == [] then [] else Insert(s[0], Sort(s[1..]))
  }

  lemma {:induction false} InsertPermutes(g: Geo, s: seq<Geo>)
    ensures multiset(Insert(g, s)) == multiset(s) + multiset{g}
  {
    hide Less;
    if s != [] {
      InsertPermutes(g, s[1..]);
      assert s == [s[0]] + s[1..];
    }
  }

  lemma {:induction false} InsertSorts(g: Geo, s: seq<Geo>)
    requires Sorted(s)
    ensures Sorted(Insert(g, s))
  {
    if s == [] {
    } else if !Less(s[0], g) {
      assert forall k :: 0 <= k < |s| ==> !Less(s[k], g);
    } else {
      InsertSorts(g, s[1..]);
      InsertPermutes(g, s[1..]);
      PrependLeast(s[0], Insert(g, s[1..]), s[1..], g);
    }
  }

  lemma PrependLeast(least: Geo, rest: seq<Geo>, old': seq<Geo>, g: Geo)
    requires Sorted(rest) && multiset(rest) == multiset(old') + multiset{g}
    requires Less(least, g) && forall k :: 0 <= k < |old'| ==> !Less(old'[k], least)
    ensures Sorted([least] + rest)
  {
    forall k | 0 <= k < |rest| ensures !Less(rest[k], least) {
      assert rest[k] in multiset(rest);
    }
  }

  lemma {:induction false} SortFacts(s: seq<Geo>)
    ensures Sorted(Sort(s)) && multiset(Sort(s)) == multiset(s)
  {
    if s != [] {
      SortFacts(s[1..]);
      InsertSorts(s[0], Sort(s[1..]));
      InsertPermutes(s[0], Sort(s[1..]));
      assert s == [s[0]] + s[1..];
    }
  }

  lemma LeastIsFirst(a: seq<Geo>, b: seq<Geo>)
    requires Sorted(a) && Sorted(b) && multiset(a) == multiset(b) && a != [] && b != []
    ensures a[0] == b[0]
  {
    assert a[0] in multiset(b) && b[0] in multiset(a);
    var i :| 0 <= i < |b| && b[i] == a[0];
    var j :| 0 <= j < |a| && a[j] == b[0];
  }

  lemma {:induction false} SortedIsUnique(a: seq<Geo>, b: seq<Geo>)
    requires Sorted(a) && Sorted(b) && multiset(a) == multiset(b)
    ensures a == b
    decreases |a|
  {
    hide Less, Sorted, Without;
    PermutationsHaveOneLength(a, b);
    if a != [] {
      LeastIsFirst(a, b);
      WithoutOne(a, 0);
      WithoutOne(b, 0);
      SortedTail(a);
      SortedTail(b);
      SortedIsUnique(Without(a, 0), Without(b, 0));
    }
  }

  lemma SortedTail(s: seq<Geo>)
    requires s != [] && Sorted(s)
    ensures Sorted(Without(s, 0)) && s == [s[0]] + Without(s, 0)
  {
    hide Less;
  }

  // ---- normalization ----

  /** The origin of a sorted list: its first primary monitor, else its first monitor. */
  function Origin(s: seq<Geo>): (int, int) {
    var k := FirstPrimary(s);
    if k < |s| then (s[k].x, s[k].y) else if s != [] then (s[0].x, s[0].y) else (0, 0)
  }

  function FirstPrimary(s: seq<Geo>): (k: nat)
    ensures k <= |s| && (k < |s| ==> s[k].primary)
    ensures forall i :: 0 <= i < k ==> !s[i].primary
  {
    if s == [] || s[0].primary then 0 else 1 + FirstPrimary(s[1..])
  }

  function Relative(s: seq<Geo>, ox: int, oy: int): (r: seq<Geo>)
    ensures |r| == |s| && forall i :: 0 <= i < |s| ==> r[i] == s[i].(x := Wrap(s[i].x - ox), y := Wrap(s[i].y - oy))
  {
    seq(|s|, i requires 0 <= i < |s| => s[i].(x := Wrap(s[i].x - ox), y := Wrap(s[i].y - oy)))
  }

  function Normal(s: seq<Geo>): seq<Geo> {
    var sorted := Sort(s);
    Relative(sorted, Origin(sorted).0, Origin(sorted).1)
  }

  /** One of the least elements from position `from` on; which one is left open, as for an unstable sort. */
  method PickLeast(a: array<Monitor>, from: nat) returns (k: nat)
    requires from < a.Length
    ensures from <= k < a.Length
    ensures forall l :: from <= l < a.Length ==> !Less(GeoOf(a[l]), GeoOf(a[k]))
  {
    k := from;
    for l := from + 1 to a.Length
      invariant from <= k < l
      invariant forall j :: from <= j < l ==> !Less(GeoOf(a[j]), GeoOf(a[k]))
    {
      var useTie := *;
      if Less(GeoOf(a[l]), GeoOf(a[k])) || (!Less(GeoOf(a[k]), GeoOf(a[l])) && useTie) {
        k := l;
      }
    }
  }

  /** None of the first n elements comes after an element behind it. */
  ghost predicate Settled(s: seq<Monitor>, n: nat) {
    forall j, k :: 0 <= j < n && j < k < |s| ==> !Less(GeoOf(s[k]), GeoOf(s[j]))
  }

  function Swapped(s: seq<Monitor>, i: nat, k: nat): seq<Monitor>
    requires i < |s| && k < |s|
  {
    s[i := s[k]][k := s[i]]
  }

  lemma SwapSettles(s: seq<Monitor>, i: nat, k: nat)
    requires i <= k < |s| && Settled(s, i)
    requires forall l :: i <= l < |s| ==> !Less(GeoOf(s[l]), GeoOf(s[k]))
    ensures Settled(Swapped(s, i, k), i + 1) && multiset(Swapped(s, i, k)) == multiset(s)
  {
    hide Less, GeoOf;
  }

  /** Stands for sort.Slice: callers only learn that the result is some sorted permutation. */
  method SortSlice(a: array<Monitor>)
    modifies a
    ensures Sorted(Geos(a[..])) && multiset(a[..]) == multiset(old(a[..]))
  {
    hide Less, GeoOf, Settled;
    NothingSettled(a[..]);
    for i := 0 to a.Length
      invariant Settled(a[..], i) && multiset(a[..]) == multiset(old(a[..]))
    {
      var k := PickLeast(a, i);
      SwapSettles(a[..], i, k);
      ghost var after := Swapped(a[..], i, k);
      a[i], a[k] := a[k], a[i];
      assert a[..] == after;
    }
    SettledIsSorted(a[..]);
  }

  lemma NothingSettled(s: seq<Monitor>)
    ensures Settled(s, 0)
  {}

  lemma SettledIsSorted(s: seq<Monitor>)
    requires Settled(s, |s|)
    ensures Sorted(Geos(s))
  {
    hide Less;
  }

  method FindOrigin(out: array<Monitor>) returns (originX: int32, originY: int32)
    ensures (originX as int, originY as int) == Origin(Geos(out[..]))
  {
    ghost var s := Geos(out[..]);
    originX, originY := 0, 0;
    var hasPrimary := false;
    for i := 0 to out.Length
      invariant !hasPrimary && originX == originY == 0
      invariant forall k :: 0 <= k < i ==> !s[k].primary
    {
      assert s[i] == GeoOf(out[i]);
      if out[i].primary {
        originX, originY, hasPrimary := out[i].x, out[i].y, true;
        assert FirstPrimary(s) == i;
        break;
      }
    }
    if !hasPrimary && out.Length > 0 {
      assert s[0] == GeoOf(out[0]);
      originX, originY := out[0].x, out[0].y;
    }
  }

  method Translate(out: array<Monitor>, originX: int32, originY: int32)
    modifies out
    ensures Geos(out[..]) == Relative(old(Geos(out[..])), originX as int, originY as int)
  {
    hide Wrap;
    ghost var before := out[..];
    for i := 0 to out.Length
      invariant forall k :: 0 <= k < i ==>
        out[k] == before[k].(x := Minus(before[k].x, originX), y := Minus(before[k].y, originY))
      invariant forall k :: i <= k < out.Length ==> out[k] == before[k]
    {
      out[i] := out[i].(x := Minus(out[i].x, originX), y := Minus(out[i].y, originY));
    }
  }

  method Normalize(ms: seq<Monitor>) returns (out: array<Monitor>)
    ensures fresh(out) && Geos(out[..]) == Normal(Geos(ms))
  {
    hide Less, Sort, Sorted, Wrap, Origin, Geos, Relative;
    out := new Monitor[|ms|](i requires 0 <= i < |ms| => ms[i]);
    assert out[..] == ms;
    SortSlice(out);
    SortedSlice(out[..], ms);
    var originX, originY := FindOrigin(out);
    Translate(out, originX, originY);
  }

  lemma SortedSlice(a: seq<Monitor>, ms: seq<Monitor>)
    requires Sorted(Geos(a)) && multiset(a) == multiset(ms)
    ensures Geos(a) == Sort(Geos(ms))
  {
    hide Less, Sorted;
    MapPermutes(GeoOf, a, ms);
    SortFacts(Geos(ms));
    SortedIsUnique(Geos(a), Sort(Geos(ms)));
  }
}
