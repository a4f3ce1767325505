/** What the normal form and the canonical string of an arrangement look like. */
module FingerprintShape {
  import opened Types
  import opened Machine
  import Decimal
  import opened Sequences
  import opened Fingerprint
  import opened FingerprintTheorems

  /** a comes no later than b: top to bottom, then left to right, then by width, height, scale, the primary one last. */
  predicate NoLater(a: Geo, b: Geo) {
    a.y < b.y || (a.y == b.y &&
      (a.x < b.x || (a.x == b.x &&
        (a.w < b.w || (a.w == b.w &&
          (a.h < b.h || (a.h == b.h &&
            (a.scale < b.scale || (a.scale == b.scale && (!a.primary || b.primary))))))))))
  }

  /** Monitors are listed from top to bottom and from left to right. */
  lemma ListedTopToBottom(ms: seq<Monitor>, i: nat, j: nat)
    requires i < j < |Sort(Geos(ms))|
    ensures NoLater(Sort(Geos(ms))[i], Sort(Geos(ms))[j]) && multiset(Sort(Geos(ms))) == multiset(Geos(ms))
  {
    SortFacts(Geos(ms));
    var s := Sort(Geos(ms));
    assert !Less(s[j], s[i]);
  }

  /** k is the monitor the others are measured from: the first primary one, or the first one when none is primary. */
  ghost predicate IsReference(s: seq<Geo>, k: nat) {
    && k < |s|
    && (s[k].primary ==> forall i :: 0 <= i < k ==> !s[i].primary)
    && (!s[k].primary ==> k == 0 && forall i :: 0 <= i < |s| ==> !s[i].primary)
  }

  lemma ReferenceIsOrigin(s: seq<Geo>, k: nat)
    requires IsReference(s, k)
    ensures Origin(s) == (s[k].x, s[k].y)
  {
    var f := FirstPrimary(s);
    assert s[k].primary ==> f == k;
  }

  /** In the normal form that monitor lies at (0, 0), every other where it lies relative to it (modulo 2^32), and
      nothing else about a monitor changes. */
  lemma MeasuredFromReference(ms: seq<Monitor>, k: nat, i: nat)
    requires IsReference(Sort(Geos(ms)), k) && i < |Sort(Geos(ms))|
    ensures var s, n := Sort(Geos(ms)), Normal(Geos(ms));
      && |n| == |s| && n[k].x == 0 && n[k].y == 0
      && n[i] == Geo(Wrap(s[i].x - s[k].x), Wrap(s[i].y - s[k].y), s[i].w, s[i].h, s[i].scale, s[i].primary)
  {
    hide Sort, Wrap, Origin, Geos;
    var s := Sort(Geos(ms));
    ReferenceIsOrigin(s, k);
    WrapIsIdentity(0);
  }

  lemma FourDigits(n: nat)
    requires 1000 <= n < 10000
    ensures Decimal.Text(n) == [Decimal.Digit(n / 1000), Decimal.Digit(n / 100 % 10), Decimal.Digit(n / 10 % 10),
      Decimal.Digit(n % 10)]
  {
    ThreeDigits(n / 10);
  }

  lemma ThreeDigits(n: nat)
    requires 100 <= n < 1000
    ensures Decimal.Text(n) == [Decimal.Digit(n / 100), Decimal.Digit(n / 10 % 10), Decimal.Digit(n % 10)]
  {
    assert Decimal.Digits(n / 100) == [Decimal.Digit(n / 100)];
    assert Decimal.Digits(n / 10) == Decimal.Digits(n / 100) + [Decimal.Digit(n / 10 % 10)];
  }

  /** The rendering of one monitor: a star for the primary one, its size, its place, its scale. */
  lemma PartIs(g: Geo)
    ensures Part(g) == (if g.primary then "*"
      else "") + Decimal.Text(g.w) + "x" + Decimal.Text(g.h) + "+" + Decimal.Text(g.x)
                       + "+" + Decimal.Text(g.y) + "@" + Decimal.Text(g.scale)
  {}

  /** A laptop below and to the left of a primary monitor, as it is written down. */
  lemma TwoMonitorsWritten()
    ensures var unknown := Rect(0, 0, 0, 0);
      CanonicalOf([Monitor(-1280, 1440, 1280, 1024, 125, false, unknown),
        Monitor(0, 0, 2560, 1440, 100, true, unknown)])
      == "*2560x1440+0+0@100;1280x1024+-1280+1440@125"
  {
    hide *;
    TwoNormalized(Rect(0, 0, 0, 0));
    TwoRendered(Geo(0, 0, 2560, 1440, 100, true), Geo(-1280, 1440, 1280, 1024, 125, false));
    DeskWritten();
    LaptopWritten();
  }

  lemma DeskWritten()
    ensures Part(Geo(0, 0, 2560, 1440, 100, true)) == "*2560x1440+0+0@100"
  {
    hide *;
    PartIs(Geo(0, 0, 2560, 1440, 100, true));
    FourDigits(2560);
    FourDigits(1440);
    ThreeDigits(100);
    DigitsShown();
  }

  lemma LaptopWritten()
    ensures Part(Geo(-1280, 1440, 1280, 1024, 125, false)) == "1280x1024+-1280+1440@125"
  {
    hide *;
    PartIs(Geo(-1280, 1440, 1280, 1024, 125, false));
    FourDigits(1280);
    FourDigits(1440);
    FourDigits(1024);
    ThreeDigits(125);
    DigitsShown();
  }

  lemma DigitsShown()
    ensures Decimal.Digit(0) == '0' && Decimal.Digit(1) == '1' && Decimal.Digit(2) == '2' && Decimal.Digit(4) == '4'
    ensures Decimal.Digit(5) == '5' && Decimal.Digit(6) == '6' && Decimal.Digit(8) == '8'
    ensures Decimal.Text(0) == "0" && Decimal.Text(-1280) == "-" + Decimal.Text(1280)
  {}

  lemma TwoRendered(a: Geo, b: Geo)
    ensures Render([a, b]) == Part(a) + ";" + Part(b)
  {
    hide Part;
    var parts := Map(Part, [a, b]);
    assert parts == [Part(a), Part(b)] && parts[1..] == [Part(b)];
    assert Decimal.Join([Part(b)], ";") == Part(b);
    assert Render([a, b]) == Decimal.Join(parts, ";");
  }

  lemma TwoNormalized(unknown: Rect)
    requires unknown == Rect(0, 0, 0, 0)
    ensures var ms := [Monitor(-1280, 1440, 1280, 1024, 125, false, unknown),
      Monitor(0, 0, 2560, 1440, 100, true, unknown)];
      var n := [Geo(0, 0, 2560, 1440, 100, true), Geo(-1280, 1440, 1280, 1024, 125, false)];
      Normal(Geos(ms)) == n && CanonicalOf(ms) == Render(n)
  {
    var a, b := Geo(-1280, 1440, 1280, 1024, 125, false), Geo(0, 0, 2560, 1440, 100, true);
    var ms := [Monitor(-1280, 1440, 1280, 1024, 125, false, unknown), Monitor(0, 0, 2560, 1440, 100, true, unknown)];
    assert Geos(ms) == [a, b];
    assert [a, b][1..] == [b] && [b][1..] == [];
    assert Sort([b]) == [b] && Insert(a, [b]) == [b] + Insert(a, []);
    assert Sort([a, b]) == [b, a];
    assert FirstPrimary([b, a]) == 0;
  }
}
