/** The canonical string is a complete invariant of a monitor arrangement. */
module FingerprintTheorems {
  import opened Types
  import opened Sequences
  import opened Machine
  import Decimal
  import opened Fingerprint

  // ---- rendering ----

  /** "%s%dx%d+%d+%d@%d". */
  function Part(g: Geo): string {
    (if g.primary then "*" else "") + Decimal.Text(g.w) + "x" + Decimal.Text(g.h) + "+" + Decimal.Text(g.x) + "+"
    + Decimal.Text(g.y) + "@" + Decimal.Text(g.scale)
  }

  function Render(s: seq<Geo>): string {
    Decimal.Join(Map(Part, s), ";")
  }

  /** The canonical string of an arrangement. */
  function CanonicalOf(ms: seq<Monitor>): string {
    Render(Normal(Geos(ms)))
  }

  method Canonical(ms: seq<Monitor>) returns (r: string)
    ensures r == CanonicalOf(ms)
  {
    hide Normal, Part;
    var sorted := Normalize(ms);
    ghost var normal := sorted[..];
    var parts := new string[sorted.Length](_ => "");
    for i := 0 to sorted.Length
      invariant sorted[..] == normal
      invariant forall k :: 0 <= k < i ==> parts[k] == Part(GeoOf(normal[k]))
    {
      parts[i] := Part(GeoOf(sorted[i]));
    }
    assert parts[..] == Map(Part, Geos(normal));
    r := Decimal.Join(parts[..], ";");
  }

  /** Part(g) followed by rest, read from the left. */
  function PartThen(g: Geo, rest: string): string {
    (if g.primary then "*" else "") + (Decimal.Text(g.w) + AfterWidth(g, rest))
  }

  function AfterWidth(g: Geo, rest: string): string { "x" + (Decimal.Text(g.h) + AfterHeight(g, rest)) }
  function AfterHeight(g: Geo, rest: string): string { "+" + (Decimal.Text(g.x) + AfterX(g, rest)) }
  function AfterX(g: Geo, rest: string): string { "+" + (Decimal.Text(g.y) + AfterY(g, rest)) }
  function AfterY(g: Geo, rest: string): string { "@" + (Decimal.Text(g.scale) + rest) }

  lemma PartThenIsConcat(g: Geo, rest: string)
    ensures PartThen(g, rest) == Part(g) + rest
  {
    hide Decimal.Text;
  }

  lemma SameField(c: char, m: int, n: int, s: string, t: string)
    requires [c] + (Decimal.Text(m) + s) == [c] + (Decimal.Text(n) + t) && Decimal.Stops(s) && Decimal.Stops(t)
    ensures m == n && s == t
  {
    hide Decimal.Text, Decimal.Stops;
    assert Decimal.Text(m) + s == ([c] + (Decimal.Text(m) + s))[1..] == Decimal.Text(n) + t;
    Decimal.NumberIsReadable(m, n, s, t);
  }

  lemma FieldsStop(g: Geo, rest: string)
    ensures Decimal.Stops(AfterWidth(g, rest)) && Decimal.Stops(AfterHeight(g, rest))
    ensures Decimal.Stops(AfterX(g, rest)) && Decimal.Stops(AfterY(g, rest))
  {
    hide Decimal.Text;
  }

  lemma SameStar(g: Geo, g': Geo, rest: string, rest': string)
    requires PartThen(g, rest) == PartThen(g', rest')
    ensures g.primary == g'.primary
    ensures Decimal.Text(g.w) + AfterWidth(g, rest) == Decimal.Text(g'.w) + AfterWidth(g', rest')
  {
    hide AfterWidth, Decimal.Text;
    Decimal.TextFacts(g.w);
    Decimal.TextFacts(g'.w);
    var s, s' := PartThen(g, rest), PartThen(g', rest');
    assert Decimal.IsNumeric(Decimal.Text(g.w)[0]) && Decimal.IsNumeric(Decimal.Text(g'.w)[0]);
    assert g.primary <==> s[0] == '*';
    assert g'.primary <==> s'[0] == '*';
    assert !g.primary ==> s == Decimal.Text(g.w) + AfterWidth(g, rest);
    assert !g'.primary ==> s' == Decimal.Text(g'.w) + AfterWidth(g', rest');
    assert g.primary ==> s[1..] == Decimal.Text(g.w) + AfterWidth(g, rest);
    assert g'.primary ==> s'[1..] == Decimal.Text(g'.w) + AfterWidth(g', rest');
  }

  /** One rendered monitor can be read back from in front of a separator or the end. */
  lemma PartIsReadable(g: Geo, g': Geo, rest: string, rest': string)
    requires PartThen(g, rest) == PartThen(g', rest') && Decimal.Stops(rest) && Decimal.Stops(rest')
    ensures g == g' && rest == rest'
  {
    hide PartThen, Decimal.Text, Decimal.Stops;
    SameStar(g, g', rest, rest');
    FieldsStop(g, rest);
    FieldsStop(g', rest');
    Decimal.NumberIsReadable(g.w, g'.w, AfterWidth(g, rest), AfterWidth(g', rest'));
    SameField('x', g.h, g'.h, AfterHeight(g, rest), AfterHeight(g', rest'));
    SameField('+', g.x, g'.x, AfterX(g, rest), AfterX(g', rest'));
    SameField('+', g.y, g'.y, AfterY(g, rest), AfterY(g', rest'));
    SameField('@', g.scale, g'.scale, rest, rest');
  }

  /** What follows the first monitor of a non-empty list. */
  function Tail(s: seq<Geo>): string
    requires s != []
  {
    if |s| == 1 then "" else ";" + Render(s[1..])
  }

  lemma RenderStep(s: seq<Geo>)
    requires s != []
    ensures Render(s) == PartThen(s[0], Tail(s)) && Render(s) != "" && Decimal.Stops(Tail(s))
  {
    hide Part, PartThen;
    PartThenIsConcat(s[0], Tail(s));
    PartIsNotEmpty(s[0]);
    assert Map(Part, s)[1..] == Map(Part, s[1..]);
    if |s| == 1 {
      assert Part(s[0]) + "" == Part(s[0]);
    } else {
      assert Part(s[0]) + ";" + Render(s[1..]) == Part(s[0]) + (";" + Render(s[1..]));
    }
  }

  lemma PartIsNotEmpty(g: Geo)
    ensures Part(g) != ""
  {
    hide Decimal.Text;
  }

  /** The rendering loses nothing. */
  lemma {:induction false} RenderInjective(s: seq<Geo>, t: seq<Geo>)
    requires Render(s) == Render(t)
    ensures s == t
    decreases |s|
  {
    hide Render, PartThen;
    if s == [] || t == [] {
      EmptyRendersEmpty(s, t);
    } else {
      RenderStep(s);
      RenderStep(t);
      PartIsReadable(s[0], t[0], Tail(s), Tail(t));
      SameTails(s, t);
      if |s| > 1 {
        RenderInjective(s[1..], t[1..]);
      }
      assert s == [s[0]] + s[1..] && t == [t[0]] + t[1..];
    }
  }

  lemma EmptyRendersEmpty(s: seq<Geo>, t: seq<Geo>)
    requires Render(s) == Render(t) && (s == [] || t == [])
    ensures s == [] && t == []
  {
    hide Render, PartThen;
    NothingRendersEmpty();
    if s != [] {
      RenderStep(s);
    }
    if t != [] {
      RenderStep(t);
    }
  }

  lemma NothingRendersEmpty()
    ensures Render([]) == ""
  {}

  lemma SameTails(s: seq<Geo>, t: seq<Geo>)
    requires s != [] && t != [] && Tail(s) == Tail(t)
    ensures |s| == 1 <==> |t| == 1
    ensures Render(s[1..]) == Render(t[1..])
  {
    hide Render;
    if |s| > 1 && |t| > 1 {
      assert Tail(s)[1..] == Render(s[1..]) && Tail(t)[1..] == Render(t[1..]);
    } else {
      assert s[1..] == t[1..];
    }
  }

  /** Two arrangements have one canonical string exactly when they have one normal form. */
  lemma CanonicalIffNormal(a: seq<Monitor>, b: seq<Monitor>)
    ensures CanonicalOf(a) == CanonicalOf(b) <==> Normal(Geos(a)) == Normal(Geos(b))
  {
    hide Render, Normal;
    if CanonicalOf(a) == CanonicalOf(b) {
      RenderInjective(Normal(Geos(a)), Normal(Geos(b)));
    }
  }

  // ---- translation ----

  function Moved(g: Geo, dx: int, dy: int): Geo {
    g.(x := g.x + dx, y := g.y + dy)
  }

  function Shift(s: seq<Geo>, dx: int, dy: int): (r: seq<Geo>)
    ensures |r| == |s| && forall i :: 0 <= i < |s| ==> r[i] == Moved(s[i], dx, dy)
  {
    Map(g => Moved(g, dx, dy), s)
  }

  /** b is, up to order, a translated copy of a. */
  ghost predicate TranslatedPermutation(a: seq<Geo>, b: seq<Geo>) {
    exists dx, dy :: multiset(Shift(a, dx, dy)) == multiset(b)
  }

  lemma ShiftPermutes(a: seq<Geo>, b: seq<Geo>, dx: int, dy: int)
    requires multiset(a) == multiset(b)
    ensures multiset(Shift(a, dx, dy)) == multiset(Shift(b, dx, dy))
  {
    MapPermutes(g => Moved(g, dx, dy), a, b);
  }

  lemma ShiftKeepsOrder(s: seq<Geo>, dx: int, dy: int)
    requires Sorted(s)
    ensures Sorted(Shift(s, dx, dy))
  {}

  /** Sorting commutes with translation, whatever order the copy is enumerated in. */
  lemma SortOfTranslated(a: seq<Geo>, b: seq<Geo>, dx: int, dy: int)
    requires multiset(Shift(a, dx, dy)) == multiset(b)
    ensures Sort(b) == Shift(Sort(a), dx, dy)
  {
    hide Sort, Sorted, Shift;
    SortFacts(a);
    SortFacts(b);
    ShiftPermutes(a, Sort(a), dx, dy);
    ShiftKeepsOrder(Sort(a), dx, dy);
    SortedIsUnique(Sort(b), Shift(Sort(a), dx, dy));
  }

  lemma OriginMoves(s: seq<Geo>, dx: int, dy: int)
    requires s != []
    ensures Origin(Shift(s, dx, dy)) == (Origin(s).0 + dx, Origin(s).1 + dy)
  {
    hide Shift;
    var t := Shift(s, dx, dy);
    var k, l := FirstPrimary(s), FirstPrimary(t);
    assert forall i :: 0 <= i < |s| ==> t[i].primary == s[i].primary;
    assert k < |s| ==> t[k].primary;
    assert l < |t| ==> s[l].primary;
  }

  /** Enumeration order and translation never change the canonical string, on any input. */
  lemma CanonicalIsInvariant(a: seq<Monitor>, b: seq<Monitor>)
    requires TranslatedPermutation(Geos(a), Geos(b))
    ensures CanonicalOf(a) == CanonicalOf(b)
  {
    hide Sort, Origin, Render, Shift, Wrap;
    var dx, dy :| multiset(Shift(Geos(a), dx, dy)) == multiset(Geos(b));
    SortOfTranslated(Geos(a), Geos(b), dx, dy);
    var s := Sort(Geos(a));
    if s != [] {
      OriginMoves(s, dx, dy);
    }
    assert Normal(Geos(a)) == Normal(Geos(b));
  }

  /** All differences of coordinates fit into an int32. */
  ghost predicate SpanFits(ms: seq<Monitor>) {
    forall i, j :: 0 <= i < |ms| && 0 <= j < |ms| ==>
      && -0x8000_0000 <= ms[i].x as int - ms[j].x as int < 0x8000_0000
      && -0x8000_0000 <= ms[i].y as int - ms[j].y as int < 0x8000_0000
  }

  lemma OriginIsAMonitor(s: seq<Geo>) returns (k: nat)
    requires s != []
    ensures k < |s| && Origin(s) == (s[k].x, s[k].y)
  {
    k := if FirstPrimary(s) < |s| then FirstPrimary(s) else 0;
  }

  lemma SortedFromInput(ms: seq<Monitor>, i: nat) returns (k: nat)
    requires i < |Sort(Geos(ms))|
    ensures k < |ms| && Sort(Geos(ms))[i] == GeoOf(ms[k])
  {
    SortFacts(Geos(ms));
    assert Sort(Geos(ms))[i] in multiset(Geos(ms));
    k :| k < |ms| && Geos(ms)[k] == Sort(Geos(ms))[i];
  }

  /** Within the span, normalization subtracts the origin without wrap-around. */
  lemma NormalSubtracts(ms: seq<Monitor>)
    requires SpanFits(ms)
    ensures var s := Sort(Geos(ms)); Normal(Geos(ms)) == Shift(s, -Origin(s).0, -Origin(s).1)
  {
    hide Sort, Origin, Wrap, Geos;
    var s := Sort(Geos(ms));
    forall i | 0 <= i < |s| ensures Normal(Geos(ms))[i] == Shift(s, -Origin(s).0, -Origin(s).1)[i] {
      var o := OriginIsAMonitor(s);
      var k := SortedFromInput(ms, i);
      var l := SortedFromInput(ms, o);
      WrapIsIdentity(s[i].x - Origin(s).0);
      WrapIsIdentity(s[i].y - Origin(s).1);
    }
  }

  lemma ShiftTwice(s: seq<Geo>, dx: int, dy: int, ex: int, ey: int)
    ensures Shift(Shift(s, dx, dy), ex, ey) == Shift(s, dx + ex, dy + ey)
  {}

  /** The canonical string is a complete invariant: it identifies exactly the arrangements that are permutations of
      translated copies of each other, the work areas aside. */
  lemma CanonicalIsComplete(a: seq<Monitor>, b: seq<Monitor>)
    requires SpanFits(a) && SpanFits(b)
    ensures CanonicalOf(a) == CanonicalOf(b) <==> TranslatedPermutation(Geos(a), Geos(b))
  {
    hide Sort, Origin, Render, Shift, Normal, SpanFits;
    if CanonicalOf(a) == CanonicalOf(b) {
      CanonicalIffNormal(a, b);
      NormalSubtracts(a);
      NormalSubtracts(b);
      var s, t := Sort(Geos(a)), Sort(Geos(b));
      var ox, oy, px, py := Origin(s).0, Origin(s).1, Origin(t).0, Origin(t).1;
      ShiftTwice(s, -ox, -oy, px, py);
      ShiftTwice(t, -px, -py, px, py);
      ShiftByNothing(t);
      SortFacts(Geos(a));
      SortFacts(Geos(b));
      ShiftPermutes(s, Geos(a), px - ox, py - oy);
      assert multiset(Shift(Geos(a), px - ox, py - oy)) == multiset(Geos(b));
    } else if TranslatedPermutation(Geos(a), Geos(b)) {
      CanonicalIsInvariant(a, b);
    }
  }

  lemma ShiftByNothing(s: seq<Geo>)
    ensures Shift(s, 0, 0) == s
  {}

  // ---- beyond the span ----

  predicate Congruent(m: int, n: int) {
    (m - n) % 0x1_0000_0000 == 0
  }

  /** t is s moved by (dx, dy) modulo 2^32, position by position. */
  ghost predicate MovedModulo(s: seq<Geo>, t: seq<Geo>, dx: int, dy: int) {
    |s| == |t| && forall i :: 0 <= i < |s| ==>
      t[i].(x := 0, y := 0) == s[i].(x := 0, y := 0) && Congruent(t[i].x, s[i].x + dx) && Congruent(t[i].y, s[i].y + dy)
  }

  ghost predicate SameModuloWrap(s: seq<Geo>, t: seq<Geo>) {
    exists dx, dy :: MovedModulo(s, t, dx, dy)
  }

  lemma WrapIffCongruent(m: int, n: int)
    ensures Wrap(m) == Wrap(n) <==> Congruent(m, n)
  {}

  lemma CongruentShift(m: int, n: int, p: int, q: int, d: int)
    requires Congruent(m, n + d) && Congruent(p, q + d)
    ensures Congruent(m - p, n - q)
  {}

  lemma SamePrimary(s: seq<Geo>, t: seq<Geo>, dx: int, dy: int)
    requires MovedModulo(s, t, dx, dy)
    ensures FirstPrimary(s) == FirstPrimary(t)
  {
    hide Congruent;
    var k, l := FirstPrimary(s), FirstPrimary(t);
    assert k < |s| ==> t[k].(x := 0, y := 0).primary;
    assert l < |t| ==> s[l].(x := 0, y := 0).primary;
  }

  /** On all int32 inputs, without any bound: the canonical strings agree exactly when the sorted lists do up to a
      translation modulo 2^32. */
  lemma CanonicalModuloWrap(a: seq<Monitor>, b: seq<Monitor>)
    ensures CanonicalOf(a) == CanonicalOf(b) <==> SameModuloWrap(Sort(Geos(a)), Sort(Geos(b)))
  {
    hide Render, Wrap, MovedModulo, Origin, Geos, CanonicalOf, Relative;
    CanonicalIffNormal(a, b);
    var s, t := Sort(Geos(a)), Sort(Geos(b));
    if CanonicalOf(a) == CanonicalOf(b) {
      NormalsMove(s, t);
    } else if SameModuloWrap(s, t) {
      var dx, dy :| MovedModulo(s, t, dx, dy);
      MovedNormals(s, t, dx, dy);
    }
  }

  lemma NormalsMove(s: seq<Geo>, t: seq<Geo>)
    requires Relative(s, Origin(s).0, Origin(s).1) == Relative(t, Origin(t).0, Origin(t).1)
    ensures SameModuloWrap(s, t)
  {
    hide Wrap, Origin, Congruent, Relative;
    var r := Relative(s, Origin(s).0, Origin(s).1);
    forall i | 0 <= i < |s|
      ensures t[i].(x := 0, y := 0) == s[i].(x := 0, y := 0)
      ensures Congruent(t[i].x, s[i].x + (Origin(t).0 - Origin(s).0))
      ensures Congruent(t[i].y, s[i].y + (Origin(t).1 - Origin(s).1))
    {
      assert r[i].(x := 0, y := 0) == s[i].(x := 0, y := 0);
      assert r[i].(x := 0, y := 0) == t[i].(x := 0, y := 0);
      WrapIffCongruent(t[i].x - Origin(t).0, s[i].x - Origin(s).0);
      WrapIffCongruent(t[i].y - Origin(t).1, s[i].y - Origin(s).1);
      CongruentRegroup(t[i].x, Origin(t).0, s[i].x, Origin(s).0);
      CongruentRegroup(t[i].y, Origin(t).1, s[i].y, Origin(s).1);
    }
    assert MovedModulo(s, t, Origin(t).0 - Origin(s).0, Origin(t).1 - Origin(s).1);
  }

  lemma CongruentRegroup(m: int, p: int, n: int, q: int)
    ensures Congruent(m - p, n - q) <==> Congruent(m, n + (p - q))
  {}

  lemma MovedNormals(s: seq<Geo>, t: seq<Geo>, dx: int, dy: int)
    requires MovedModulo(s, t, dx, dy)
    ensures Relative(s, Origin(s).0, Origin(s).1) == Relative(t, Origin(t).0, Origin(t).1)
  {
    hide Wrap, Congruent, Relative;
    SamePrimary(s, t, dx, dy);
    if s != [] {
      var k := if FirstPrimary(s) < |s| then FirstPrimary(s) else 0;
      forall i | 0 <= i < |s|
        ensures Relative(s, Origin(s).0, Origin(s).1)[i] == Relative(t, Origin(t).0, Origin(t).1)[i]
      {
        CongruentShift(t[i].x, s[i].x, t[k].x, s[k].x, dx);
        CongruentShift(t[i].y, s[i].y, t[k].y, s[k].y, dy);
        WrapIffCongruent(t[i].x - t[k].x, s[i].x - s[k].x);
        WrapIffCongruent(t[i].y - t[k].y, s[i].y - s[k].y);
        SameButPosition(s[i], t[i]);
      }
    }
  }

  lemma SameButPosition(g: Geo, h: Geo)
    requires h.(x := 0, y := 0) == g.(x := 0, y := 0)
    ensures h.w == g.w && h.h == g.h && h.scale == g.scale && h.primary == g.primary
  {
    assert h.(x := 0, y := 0).w == h.w && g.(x := 0, y := 0).w == g.w;
  }

  /** Beyond the span the claim fails: subtraction wraps and two different arrangements collide. */
  lemma WideArrangementsCollide()
    ensures var unknown := Rect(0, 0, 0, 0);
      var a := [Monitor(0, 0, 1, 1, 100, false, unknown), Monitor(-0x8000_0000, 1, 1, 1, 100, false, unknown)];
      var b := [Monitor(-0x8000_0000, 0, 1, 1, 100, false, unknown), Monitor(0, 1, 1, 1, 100, false, unknown)];
      CanonicalOf(a) == CanonicalOf(b) && !TranslatedPermutation(Geos(a), Geos(b))
  {
    var unknown := Rect(0, 0, 0, 0);
    var a := [Monitor(0, 0, 1, 1, 100, false, unknown), Monitor(-0x8000_0000, 1, 1, 1, 100, false, unknown)];
    var b := [Monitor(-0x8000_0000, 0, 1, 1, 100, false, unknown), Monitor(0, 1, 1, 1, 100, false, unknown)];
    var l, r := Geo(-0x8000_0000, 0, 1, 1, 100, false), Geo(0, 0, 1, 1, 100, false);
    var low := l.(y := 1);
    var lowR := r.(y := 1);
    assert Geos(a) == [r, low] && Geos(b) == [l, lowR];
    InOrder(r, low);
    InOrder(l, lowR);
    assert Normal(Geos(a)) == [r, low] == Normal(Geos(b));
    forall dx, dy ensures multiset(Shift(Geos(a), dx, dy)) != multiset(Geos(b)) {
      if multiset(Shift(Geos(a), dx, dy)) == multiset(Geos(b)) {
        SortOfTranslated(Geos(a), Geos(b), dx, dy);
      }
    }
  }

  lemma InOrder(g: Geo, h: Geo)
    requires g.y < h.y && !g.primary && !h.primary
    ensures Sort([g, h]) == [g, h] && Origin([g, h]) == (g.x, g.y)
  {
    assert [g, h][1..] == [h] && [h][1..] == [];
    assert Sort([h]) == Insert(h, []) == [h];
  }
}
