/** Keeping a target rectangle reachable: the int32 geometry of Clamp, wrap-around included, and what it guarantees when
    nothing wraps. */
module Clamp {
  import opened Types
  import opened Machine

  function MonitorRect(m: Monitor): Rect {
    Rect(m.x, m.y, m.w, m.h)
  }

  // ---- the program, on all inputs ----

  /** The four-way comparison. */
  predicate Overlaps(r: Rect, m: Rect) {
    && r.x < Plus(m.x, m.w) && Plus(r.x, r.w) > m.x
    && r.y < Plus(m.y, m.h) && Plus(r.y, r.h) > m.y
  }

  /** The area a window is placed in: the work area when known, else the whole monitor. */
  function PlacementArea(m: Monitor): Rect {
    if m.work.w > 0 && m.work.h > 0 then m.work else MonitorRect(m)
  }

  /** Squared distance between the centres, as computed. */
  function Measured(r: Rect, m: Monitor): int64 {
    SquareSum(Minus(Plus(r.x, Half(r.w)), Plus(m.x, Half(m.w))), Minus(Plus(r.y, Half(r.h)), Plus(m.y, Half(m.h))))
  }

  /** The monitor the scan prefers among the first n, and its measure; a negative measure is always given up. */
  function Preferred(r: Rect, ms: seq<Monitor>, n: nat): (p: (nat, int64))
    requires n <= |ms|
    ensures n > 0 ==> p.0 < n
  {
    if n == 0 then (0, -1)
    else
      var p := Preferred(r, ms, n - 1);
      var d := Measured(r, ms[n - 1]);
      if p.1 < 0 || d < p.1 then (n - 1, d) else p
  }

  method Nearest(r: Rect, ms: seq<Monitor>) returns (best: Monitor)
    requires |ms| > 0
    ensures best == ms[Preferred(r, ms, |ms|).0]
  {
    hide Plus, Minus, Half, SquareSum;
    var rx, ry := Plus(r.x, Half(r.w)), Plus(r.y, Half(r.h));
    best := ms[0];
    var bestDist: int64 := -1;
    for i := 0 to |ms|
      invariant best == ms[Preferred(r, ms, i).0] && bestDist == Preferred(r, ms, i).1
    {
      var m := ms[i];
      var dx := Minus(rx, Plus(m.x, Half(m.w)));
      var dy := Minus(ry, Plus(m.y, Half(m.h)));
      var d := SquareSum(dx, dy);
      if bestDist < 0 || d < bestDist {
        best, bestDist := m, d;
      }
    }
  }

  function ClampInt32(v: int32, lo: int32, hi: int32): int32 {
    if v < lo then lo else if v > hi then hi else v
  }

  function Smaller(a: int32, b: int32): int32 {
    if a > b then b else a
  }

  /** r shrunk to fit into area and moved onto it. */
  function Placed(r: Rect, area: Rect): Rect {
    var w, h := Smaller(r.w, area.w), Smaller(r.h, area.h);
    Rect(ClampInt32(r.x, area.x, Minus(Plus(area.x, area.w), w)),
      ClampInt32(r.y, area.y, Minus(Plus(area.y, area.h), h)), w, h)
  }

  predicate OnScreen(r: Rect, ms: seq<Monitor>) {
    exists i :: 0 <= i < |ms| && Overlaps(r, MonitorRect(ms[i]))
  }

  /** What Clamp returns. */
  function Clamped(r: Rect, ms: seq<Monitor>): Rect {
    if ms == [] || OnScreen(r, ms) then r else Placed(r, PlacementArea(ms[Preferred(r, ms, |ms|).0]))
  }

  method ClampToScreen(r: Rect, ms: seq<Monitor>) returns (out: Rect)
    ensures out == Clamped(r, ms)
  {
    hide Plus, Minus, Preferred;
    if |ms| == 0 {
      return r;
    }
    for i := 0 to |ms|
      invariant forall k :: 0 <= k < i ==> !Overlaps(r, MonitorRect(ms[k]))
    {
      var m := ms[i];
      if r.x < Plus(m.x, m.w) && Plus(r.x, r.w) > m.x && r.y < Plus(m.y, m.h) && Plus(r.y, r.h) > m.y {
        assert Overlaps(r, MonitorRect(ms[i]));
        return r;
      }
    }
    var near := Nearest(r, ms);
    var target := PlacementArea(near);
    out := r;
    if out.w > target.w {
      out := out.(w := target.w);
    }
    if out.h > target.h {
      out := out.(h := target.h);
    }
    out := out.(x := ClampInt32(out.x, target.x, Minus(Plus(target.x, target.w), out.w)));
    out := out.(y := ClampInt32(out.y, target.y, Minus(Plus(target.y, target.h), out.h)));
  }

  // ---- what is on screen ----

  /** The right and bottom edges exist in int32. */
  predicate EdgesFit(r: Rect) {
    Fits(r.x as int + r.w as int) && Fits(r.y as int + r.h as int)
  }

  predicate HasArea(r: Rect) {
    r.w > 0 && r.h > 0
  }

  /** Pixel (px, py) of the virtual screen lies in r. */
  predicate Covers(r: Rect, px: int, py: int) {
    r.x as int <= px < r.x as int + r.w as int && r.y as int <= py < r.y as int + r.h as int
  }

  ghost predicate SharesPixel(r: Rect, s: Rect) {
    exists px, py :: Covers(r, px, py) && Covers(s, px, py)
  }

  predicate Inside(r: Rect, area: Rect) {
    && area.x as int <= r.x as int && r.x as int + r.w as int <= area.x as int + area.w as int
    && area.y as int <= r.y as int && r.y as int + r.h as int <= area.y as int + area.h as int
  }

  lemma SharesPixelIff(r: Rect, m: Rect)
    requires HasArea(r) && HasArea(m)
    ensures SharesPixel(r, m) <==>
      && r.x as int < m.x as int + m.w as int && r.x as int + r.w as int > m.x as int
      && r.y as int < m.y as int + m.h as int && r.y as int + r.h as int > m.y as int
  {
    var px := if r.x < m.x then m.x as int else r.x as int;
    var py := if r.y < m.y then m.y as int else r.y as int;
    assert Covers(r, px, py) && Covers(m, px, py) ==> SharesPixel(r, m);
  }

  /** One axis of the comparison: the wrapped form holds exactly when the exact one does and no edge wraps. */
  lemma AxisOverlaps(x: int32, w: int32, mx: int32, mw: int32)
    requires w > 0 && mw > 0
    ensures x < Plus(mx, mw) && Plus(x, w) > mx <==>
      && x as int < mx as int + mw as int && x as int + w as int > mx as int
      && Fits(x as int + w as int) && Fits(mx as int + mw as int)
  {}

  /** On all inputs with area: the four-way comparison is exactly "the rectangles share a pixel and neither has an edge
      beyond int32". */
  lemma OverlapsIffSharesPixel(r: Rect, m: Rect)
    requires HasArea(r) && HasArea(m)
    ensures Overlaps(r, m) <==> SharesPixel(r, m) && EdgesFit(r) && EdgesFit(m)
  {
    hide Plus, SharesPixel;
    SharesPixelIff(r, m);
    AxisOverlaps(r.x, r.w, m.x, m.w);
    AxisOverlaps(r.y, r.h, m.y, m.h);
  }

  lemma OnScreenIffSharesPixel(r: Rect, ms: seq<Monitor>)
    requires HasArea(r) && forall i :: 0 <= i < |ms| ==> HasArea(MonitorRect(ms[i]))
    ensures OnScreen(r, ms) <==>
      EdgesFit(r) && exists i :: 0 <= i < |ms| && EdgesFit(MonitorRect(ms[i])) && SharesPixel(r, MonitorRect(ms[i]))
  {
    hide Overlaps, SharesPixel, EdgesFit;
    forall i | 0 <= i < |ms|
      ensures Overlaps(r, MonitorRect(ms[i])) <==>
        SharesPixel(r, MonitorRect(ms[i])) && EdgesFit(r) && EdgesFit(MonitorRect(ms[i]))
    {
      OverlapsIffSharesPixel(r, MonitorRect(ms[i]));
    }
  }

  // ---- the nearest monitor ----

  function CentreX(r: Rect): int { r.x as int + Half(r.w) as int }
  function CentreY(r: Rect): int { r.y as int + Half(r.h) as int }

  /** Squared distance between the centres. */
  function Distance(r: Rect, m: Monitor): int {
    var dx, dy := CentreX(r) - CentreX(MonitorRect(m)), CentreY(r) - CentreY(MonitorRect(m));
    dx * dx + dy * dy
  }

  /** The centres are less than 2^31 apart, on either axis. */
  predicate CentresNear(r: Rect, m: Rect) {
    -0x8000_0000 < CentreX(r) - CentreX(m) < 0x8000_0000 && -0x8000_0000 < CentreY(r) - CentreY(m) < 0x8000_0000
  }

  predicate AllNear(r: Rect, ms: seq<Monitor>) {
    forall i :: 0 <= i < |ms| ==> CentresNear(r, MonitorRect(ms[i]))
  }

  lemma MeasuredIsDistance(r: Rect, m: Monitor)
    requires CentresNear(r, MonitorRect(m))
    ensures Measured(r, m) as int == Distance(r, m) >= 0
  {
    hide Plus, Minus, Half;
    DifferenceIsExact(r.x, Half(r.w), m.x, Half(m.w));
    DifferenceIsExact(r.y, Half(r.h), m.y, Half(m.h));
    SumIsExact(Minus(Plus(r.x, Half(r.w)), Plus(m.x, Half(m.w))), Minus(Plus(r.y, Half(r.h)), Plus(m.y, Half(m.h))));
  }

  lemma SumIsExact(dx: int32, dy: int32)
    requires dx > -0x8000_0000
    ensures SquareSum(dx, dy) as int == dx as int * dx as int + dy as int * dy as int >= 0
  {
    SquareBound(dx);
    SquareBound(dy);
  }

  /** i is the first of the first n monitors at minimum centre distance. */
  ghost predicate NearestAmong(r: Rect, ms: seq<Monitor>, n: nat, i: nat)
    requires n <= |ms|
  {
    && i < n
    && (forall k :: 0 <= k < n ==> Distance(r, ms[i]) <= Distance(r, ms[k]))
    && (forall k :: 0 <= k < i ==> Distance(r, ms[i]) < Distance(r, ms[k]))
  }

  ghost predicate IsNearest(r: Rect, ms: seq<Monitor>, i: nat) {
    NearestAmong(r, ms, |ms|, i)
  }

  lemma {:induction false} PreferredIsNearest(r: Rect, ms: seq<Monitor>, n: nat)
    requires AllNear(r, ms) && 0 < n <= |ms|
    ensures NearestAmong(r, ms, n, Preferred(r, ms, n).0)
    ensures Preferred(r, ms, n).1 as int == Distance(r, ms[Preferred(r, ms, n).0]) >= 0
  {
    hide Distance, Measured, CentresNear;
    MeasuredIsDistance(r, ms[n - 1]);
    if n > 1 {
      PreferredIsNearest(r, ms, n - 1);
    }
  }

  // ---- the placement ----

  /** out is r shrunk only as far as area demands and moved no further, on either axis, than any rectangle of that size
      inside area. */
  ghost predicate MinimallyMoved(r: Rect, area: Rect, out: Rect) {
    && out.w == Smaller(r.w, area.w) && out.h == Smaller(r.h, area.h) && Inside(out, area)
    && forall other: Rect :: other.w == out.w && other.h == out.h && Inside(other, area) ==>
         && Abs(out.x as int - r.x as int) <= Abs(other.x as int - r.x as int)
         && Abs(out.y as int - r.y as int) <= Abs(other.y as int - r.y as int)
  }

  function Abs(n: int): nat {
    if n < 0 then -n else n
  }

  lemma PlacedIsMinimal(r: Rect, area: Rect)
    requires HasArea(r) && HasArea(area) && EdgesFit(area)
    ensures MinimallyMoved(r, area, Placed(r, area)) && HasArea(Placed(r, area))
  {
    hide Plus, Minus;
    DifferenceIsExact(area.x, area.w, 0, Smaller(r.w, area.w));
    DifferenceIsExact(area.y, area.h, 0, Smaller(r.h, area.h));
    PlusZero(Smaller(r.w, area.w));
    PlusZero(Smaller(r.h, area.h));
  }

  lemma PlusZero(n: int32)
    ensures Plus(0, n) == n
  {}

  // ---- what clamping guarantees ----

  /** Monitors with area and edges in int32, each with its work area (when known) inside it. */
  predicate WellFormed(ms: seq<Monitor>) {
    forall i :: 0 <= i < |ms| ==> WellFormedMonitor(ms[i])
  }

  predicate WellFormedMonitor(m: Monitor) {
    HasArea(MonitorRect(m)) && EdgesFit(MonitorRect(m)) && (HasArea(m.work) ==> Inside(m.work, MonitorRect(m)))
  }

  /** Enumeration computes a size from two int32 edges, so edges in order and a positive size exist in int32 again. */
  lemma EnumeratedEdgeFits(left: int32, right: int32)
    requires left <= right && Minus(right, left) > 0
    ensures left as int + Minus(right, left) as int == right as int
  {}

  lemma AreaIsInside(m: Monitor)
    requires WellFormedMonitor(m)
    ensures var area := PlacementArea(m);
      HasArea(area) && EdgesFit(area) && Inside(area, MonitorRect(m))
  {}

  lemma InsideIsOnScreen(r: Rect, area: Rect, m: Rect)
    requires HasArea(r) && Inside(r, area) && Inside(area, m) && EdgesFit(m)
    ensures SharesPixel(r, m) && EdgesFit(r)
  {
    assert Covers(r, r.x as int, r.y as int) && Covers(m, r.x as int, r.y as int);
  }

  ghost predicate Visible(r: Rect, ms: seq<Monitor>) {
    exists i :: 0 <= i < |ms| && SharesPixel(r, MonitorRect(ms[i]))
  }

  lemma OnScreenIffVisible(r: Rect, ms: seq<Monitor>)
    requires HasArea(r) && WellFormed(ms)
    ensures OnScreen(r, ms) <==> Visible(r, ms) && EdgesFit(r)
  {
    hide Overlaps, SharesPixel, EdgesFit, HasArea, OnScreen;
    assert forall i :: 0 <= i < |ms| ==> WellFormedMonitor(ms[i]);
    OnScreenIffSharesPixel(r, ms);
  }

  /** A rectangle is returned unchanged exactly when it shares a pixel with some monitor and its edges exist in
      int32. Any other lies afterwards wholly inside the taskbar-free part of a monitor (inside the whole monitor when
      that part is unknown), shrunk and moved as little as possible: of the first nearest one, if the centres are less
      than 2^31 apart. */
  lemma ClampedIsReachable(r: Rect, ms: seq<Monitor>)
    requires HasArea(r) && ms != [] && WellFormed(ms)
    ensures Clamped(r, ms) == r <==> Visible(r, ms) && EdgesFit(r)
    ensures HasArea(Clamped(r, ms)) && EdgesFit(Clamped(r, ms)) && Visible(Clamped(r, ms), ms)
    ensures Clamped(r, ms) != r ==> exists near: nat :: near < |ms| && LandsOn(r, ms[near], Clamped(r, ms))
                                                        && (AllNear(r, ms) ==> IsNearest(r, ms, near))
  {
    hide Placed, Overlaps, SharesPixel, NearestAmong, EdgesFit, AllNear, Preferred, OnScreen, LandsOn, MinimallyMoved;
    OnScreenIffVisible(r, ms);
    if !OnScreen(r, ms) {
      var near := Preferred(r, ms, |ms|).0;
      assert WellFormedMonitor(ms[near]);
      AreaIsInside(ms[near]);
      PlacedIsMinimal(r, PlacementArea(ms[near]));
      PlacedLands(r, ms[near]);
      MovedIsInside(r, PlacementArea(ms[near]), Clamped(r, ms));
      InsideIsOnScreen(Clamped(r, ms), PlacementArea(ms[near]), MonitorRect(ms[near]));
      if AllNear(r, ms) {
        PreferredIsNearest(r, ms, |ms|);
      }
    }
  }

  /** out is r placed minimally inside m's work area when m has one, else inside the whole of m. */
  ghost predicate LandsOn(r: Rect, m: Monitor, out: Rect) {
    && (m.work.w > 0 && m.work.h > 0 ==> Inside(out, m.work) && MinimallyMoved(r, m.work, out))
    && (m.work.w <= 0 || m.work.h <= 0 ==>
         Inside(out, Rect(m.x, m.y, m.w, m.h)) && MinimallyMoved(r, Rect(m.x, m.y, m.w, m.h), out))
  }

  lemma PlacedLands(r: Rect, m: Monitor)
    requires MinimallyMoved(r, PlacementArea(m), Placed(r, PlacementArea(m)))
    ensures LandsOn(r, m, Placed(r, PlacementArea(m)))
  {
    hide Placed;
  }

  lemma MovedIsInside(r: Rect, area: Rect, out: Rect)
    requires MinimallyMoved(r, area, out)
    ensures Inside(out, area)
  {}

  /** For rectangles with area the distance is that of the pixel centres, squared. */
  lemma DistanceIsEuclidean(r: Rect, m: Monitor)
    requires HasArea(r) && HasArea(MonitorRect(m))
    ensures var dx := r.x as int + r.w as int / 2 - (m.x as int + m.w as int / 2);
      var dy := r.y as int + r.h as int / 2 - (m.y as int + m.h as int / 2);
      Distance(r, m) == dx * dx + dy * dy
  {}

  /** A window restored from a larger setup comes to rest above the taskbar. */
  lemma LandsAboveTaskbar()
    ensures Clamped(Rect(5000, 1000, 800, 600), [Screen(0)]) == Rect(1120, 440, 800, 600)
  {
    hide Measured;
    var r, ms := Rect(5000, 1000, 800, 600), [Screen(0)];
    assert Plus(0, 1920) == 1920 && Plus(0, 1040) == 1040 && Minus(1920, 800) == 1120 && Minus(1040, 600) == 440;
    assert !Overlaps(r, MonitorRect(ms[0])) && Preferred(r, ms, 1).0 == 0;
  }

  /** Clamping again changes nothing. */
  lemma ClampIsIdempotent(r: Rect, ms: seq<Monitor>)
    requires HasArea(r) && ms != [] && WellFormed(ms)
    ensures Clamped(Clamped(r, ms), ms) == Clamped(r, ms)
  {
    hide *;
    ClampedIsReachable(r, ms);
    ClampedIsReachable(Clamped(r, ms), ms);
  }

  // ---- bounds that suffice, and what happens beyond them ----

  predicate Within(r: Rect, bound: int) {
    && -bound <= r.x as int <= bound && -bound <= r.y as int <= bound
    && -bound <= r.w as int <= bound && -bound <= r.h as int <= bound
  }

  /** With every coordinate and size within 2^29 nothing wraps. */
  lemma SmallNumbersFit(r: Rect, m: Rect)
    requires Within(r, 0x2000_0000) && Within(m, 0x2000_0000)
    ensures EdgesFit(r) && EdgesFit(m) && CentresNear(r, m)
  {}

  function Screen(x: int32): Monitor {
    Monitor(x, 0, 1920, 1080, 100, x == 0, Rect(x, 0, 1920, 1040))
  }

  /** A hand-edited width: the window is in plain sight on an ordinary monitor, its right edge wraps, and it is taken
      for lost. */
  lemma WideWindowIsMoved()
    ensures var r, ms := Rect(1, 0, 0x7FFF_FFFF, 16), [Screen(0)];
      WellFormed(ms) && Visible(r, ms) && Clamped(r, ms) != r
  {
    hide *;
    var r, ms := Rect(1, 0, 0x7FFF_FFFF, 16), [Screen(0)];
    WideWindowFacts(r, ms);
    ClampedIsReachable(r, ms);
  }

  lemma WideWindowFacts(r: Rect, ms: seq<Monitor>)
    requires r == Rect(1, 0, 0x7FFF_FFFF, 16) && ms == [Screen(0)]
    ensures HasArea(r) && !EdgesFit(r) && WellFormed(ms) && Visible(r, ms)
  {
    assert Covers(r, 1, 0) && Covers(MonitorRect(ms[0]), 1, 0);
  }

  /** A hand-edited position beyond 2^31 from the centres of two ordinary monitors: the farther one is preferred. */
  lemma FarWindowPicksFartherMonitor()
    ensures var r, ms := Rect(-0x8000_0000, 0, 16, 16), [Screen(0), Screen(1920)];
      WellFormed(ms) && Preferred(r, ms, 2).0 == 1 && Distance(r, ms[0]) < Distance(r, ms[1])
  {
    hide Measured, Distance;
    var r, ms := Rect(-0x8000_0000, 0, 16, 16), [Screen(0), Screen(1920)];
    FarMeasures(r);
    FarDistances(r);
    assert Preferred(r, ms, 1) == (0, Measured(r, ms[0]));
  }

  lemma FarMeasures(r: Rect)
    requires r == Rect(-0x8000_0000, 0, 16, 16)
    ensures Measured(r, Screen(1920)) < Measured(r, Screen(0)) && Measured(r, Screen(0)) >= 0
  {
    hide SquareSum, Plus, Minus, Half, Wrap;
    assert Half(16) == 8 && Half(1920) == 960 && Half(1080) == 540;
    FarCentres();
    SumIsExact(0x7FFF_FC48, -532);
    SumIsExact(0x7FFF_F4C8, -532);
  }

  lemma FarCentres()
    ensures Minus(Plus(-0x8000_0000, 8), Plus(0, 960)) == 0x7FFF_FC48
    ensures Minus(Plus(-0x8000_0000, 8), Plus(1920, 960)) == 0x7FFF_F4C8
    ensures Minus(Plus(0, 8), Plus(0, 540)) == -532
  {}

  lemma FarDistances(r: Rect)
    requires r == Rect(-0x8000_0000, 0, 16, 16)
    ensures Distance(r, Screen(0)) < Distance(r, Screen(1920))
  {
    assert CentreX(r) == -0x7FFF_FFF8 && CentreX(MonitorRect(Screen(0))) == 960;
    assert CentreX(MonitorRect(Screen(1920))) == 2880;
    assert CentreY(MonitorRect(Screen(0))) == CentreY(MonitorRect(Screen(1920)));
    assert -0x7FFF_FFF8 - 960 == -0x8000_03B8 && -0x7FFF_FFF8 - 2880 == -0x8000_0B38;
    assert 0x8000_03B8 * 0x8000_03B8 < 0x8000_0B38 * 0x8000_0B38;
  }
}
