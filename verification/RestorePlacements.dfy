/** Which windows a restore places where, what its counters count, and that saving and restoring puts everything
    back. */
module RestorePlacements {
  import opened Types
  import opened Text
  import opened Sequences
  import opened Matching
  import opened Clamp
  import opened Restore
  import Capture

  // ---- one placement for each ticked match ----

  predicate Ticked(matches: seq<Match>, k: nat) {
    k < |matches| && matches[k].entry.ticked
  }

  /** The positions of the ticked matches among the first n, in order. */
  function TickedPositions(matches: seq<Match>, n: nat): (ps: seq<nat>)
    requires n <= |matches|
    ensures Below(ps, |matches|)
  {
    WhereIncreases(n, (k: nat) => Ticked(matches, k));
    Where(n, (k: nat) => Ticked(matches, k))
  }

  lemma TickedPositionsAre(matches: seq<Match>, n: nat)
    requires n <= |matches|
    ensures Increasing(TickedPositions(matches, n))
    ensures forall k: nat :: k in TickedPositions(matches, n) <==> k < n && matches[k].entry.ticked
  {
    WhereIs(n, (k: nat) => Ticked(matches, k));
  }

  /** The placement moves the match's window to the entry's own rectangles, each clamped (the screen rectangle only when
      it has area), with the entry's state and topmost flag. */
  predicate Places(placement: Placement, x: Match, ms: seq<Monitor>) {
    && placement.handle == x.live.handle
    && placement.rect == Clamped(x.entry.rect, ms)
    && (x.entry.screen.w > 0 && x.entry.screen.h > 0 ==> placement.screen == Clamped(x.entry.screen, ms))
    && (x.entry.screen.w <= 0 || x.entry.screen.h <= 0 ==> placement.screen == x.entry.screen)
    && placement.state == x.entry.state && placement.topmost == x.entry.topmost
  }

  /** The placements attempted are in order one for each ticked match, and nothing else. */
  lemma {:induction false} PlacementsFollowTicks(matches: seq<Match>, ms: seq<Monitor>, n: nat)
    requires n <= |matches|
    ensures var placed, ps := Attempts(matches, ms, n), TickedPositions(matches, n);
      |placed| == |ps| && forall p :: 0 <= p < |ps| ==> Places(placed[p], matches[ps[p]], ms)
  {
    hide Clamped;
    if n > 0 {
      PlacementsFollowTicks(matches, ms, n - 1);
    }
  }

  // ---- counters ----

  /** What the counters mean: deselected entries are not ticked; of the ticked ones those whose window cannot be placed
      failed, and the others are restored. */
  predicate Counts(o: Outcome, x: Match, refusing: set<nat>) {
    match o
    case Deselected => !x.entry.ticked
    case Failed => x.entry.ticked && x.live.handle in refusing
    case Restored => x.entry.ticked && x.live.handle !in refusing
  }

  ghost function Counted(matches: seq<Match>, refusing: set<nat>, o: Outcome, n: nat): set<nat>
    requires n <= |matches|
  {
    set k: nat | k < n && Counts(o, matches[k], refusing)
  }

  /** Each counter counts exactly the matches it is meant for. */
  lemma {:induction false} CountersCount(matches: seq<Match>, refusing: set<nat>, o: Outcome, n: nat)
    requires n <= |matches|
    ensures Tally(matches, refusing, o, n) == |Counted(matches, refusing, o, n)|
  {
    if n == 0 {
      assert Counted(matches, refusing, o, 0) == {};
    } else {
      var k: nat := n - 1;
      CountersCount(matches, refusing, o, k);
      OutcomeCounts(matches[k], refusing, o);
      hide OutcomeOf, Counts;
      assert Counted(matches, refusing, o, n)
        == Counted(matches, refusing, o, k) + if Counts(o, matches[k], refusing) then {k} else {};
    }
  }

  lemma OutcomeCounts(x: Match, refusing: set<nat>, o: Outcome)
    ensures OutcomeOf(x, refusing) == o <==> Counts(o, x, refusing)
  {}

  ghost function Unpaired(m: map<nat, nat>, n: nat): set<nat> {
    set i: nat | i < n && i !in m
  }

  lemma {:induction false} MissingCounts(entries: seq<WindowEntry>, m: map<nat, nat>, n: nat)
    requires n <= |entries|
    ensures |MissingOf(entries, m, n)| == |Unpaired(m, n)|
  {
    if n == 0 {
      assert Unpaired(m, 0) == {};
    } else {
      var k: nat := n - 1;
      MissingCounts(entries, m, k);
      assert Unpaired(m, n) == Unpaired(m, k) + if k in m then {} else {k};
    }
  }

  ghost predicate InOrder(matches: seq<Match>, n: nat) {
    && (forall p :: 0 <= p < |matches| ==> matches[p].index < n)
    && (forall p, q :: 0 <= p < q < |matches| ==> matches[p].index < matches[q].index)
  }

  lemma InOrderSnoc(matches: seq<Match>, n: nat, x: Match)
    requires InOrder(matches, n) && x.index == n
    ensures InOrder(matches + [x], n + 1)
  {}

  lemma InOrderWeaker(matches: seq<Match>, n: nat)
    requires InOrder(matches, n)
    ensures InOrder(matches + [], n + 1)
  {}

  lemma {:induction false} OrderKept(entries: seq<WindowEntry>, windows: seq<Live>, m: map<nat, nat>, n: nat)
    requires n <= |entries| && forall i :: i in m ==> m[i] < |windows|
    ensures InOrder(MatchesOf(entries, windows, m, n), n)
  {
    hide InOrder;
    if n == 0 {
      EmptyInOrder();
    } else {
      var k: nat, before := n - 1, MatchesOf(entries, windows, m, n - 1);
      OrderKept(entries, windows, m, k);
      if k in m {
        InOrderSnoc(before, k, Match(k, entries[k], windows[m[k]]));
      } else {
        InOrderWeaker(before, k);
      }
    }
  }

  lemma EmptyInOrder()
    ensures InOrder([], 0)
  {}

  /** Matches come in entry order, exactly one for each paired entry, with its own window; missing counts the others. */
  lemma MatchesInOrder(entries: seq<WindowEntry>, windows: seq<Live>, m: map<nat, nat>)
    requires forall i :: i in m ==> i < |entries| && m[i] < |windows|
    ensures var matches := MatchesOf(entries, windows, m, |entries|);
      && (forall p, q :: 0 <= p < q < |matches| ==> matches[p].index < matches[q].index)
      && (forall x :: x in matches <==> x.index in m && x == Match(x.index, entries[x.index], windows[m[x.index]]))
      && |MissingOf(entries, m, |entries|)| == |Unpaired(m, |entries|)|
  {
    hide MatchesOf, MissingOf;
    OrderKept(entries, windows, m, |entries|);
    MissingCounts(entries, m, |entries|);
    MatchesAreSound(entries, windows, m, |entries|);
    forall i | i in m ensures Match(i, entries[i], windows[m[i]]) in MatchesOf(entries, windows, m, |entries|) {
      MatchListed(entries, windows, m, i, |entries|);
    }
  }

  /** The unmatched windows are those not taken, in enumeration order. */
  lemma {:induction false} UnmatchedInOrder(windows: seq<Live>, taken: set<nat>, n: nat)
    requires n <= |windows|
    ensures Below(Where(n, (k: nat) => k !in taken), |windows|)
    ensures UnmatchedOf(windows, taken, n) == Selected(windows, Where(n, (k: nat) => k !in taken))
  {
    if n > 0 {
      UnmatchedInOrder(windows, taken, n - 1);
      SelectedSnoc(windows, Where(n - 1, (k: nat) => k !in taken), n - 1);
    }
  }

  function HandleOf(w: Live): nat {
    w.handle
  }

  function Shown(u: seq<Live>, k: nat): bool {
    k < |u| && u[k].state != "minimized"
  }

  function ShownPositions(u: seq<Live>, n: nat): seq<nat> {
    Where(n, (k: nat) => Shown(u, k))
  }

  /** With the option on, the handles to minimize are those of the windows not minimized yet, in order. */
  lemma {:induction false} MinimizedInOrder(u: seq<Live>, n: nat)
    requires n <= |u|
    ensures Below(ShownPositions(u, n), |u|)
    ensures ToMinimize(u, true, n) == Map(HandleOf, Selected(u, ShownPositions(u, n)))
  {
    hide Selected, Below, Map;
    if n == 0 {
      NothingSelected(u);
    } else {
      MinimizedInOrder(u, n - 1);
      SelectedSnoc(u, ShownPositions(u, n - 1), n - 1);
      MapSnoc(Selected(u, ShownPositions(u, n - 1)), u[n - 1]);
    }
  }

  lemma NothingSelected(u: seq<Live>)
    ensures Below([], |u|) && Map(HandleOf, Selected(u, [])) == []
  {}

  lemma MapSnoc(u: seq<Live>, w: Live)
    ensures Map(HandleOf, u + [w]) == Map(HandleOf, u) + [w.handle]
  {}

  /** With it off there are none. */
  lemma OffMinimizesNothing(u: seq<Live>, n: nat)
    requires n <= |u|
    ensures ToMinimize(u, false, n) == []
  {}

  // ---- saving, then restoring ----

  /** Restoring leaves this rectangle where it is: there are no monitors to clamp to, or it can be seen on them. */
  ghost predicate Stays(r: Rect, ms: seq<Monitor>) {
    ms == [] || (WellFormed(ms) && Visible(r, ms) && EdgesFit(r))
  }

  ghost predicate WindowStays(w: Live, ms: seq<Monitor>) {
    Stays(w.rect, ms) && (w.screen.w > 0 && w.screen.h > 0 ==> Stays(w.screen, ms))
  }

  lemma ClampedStays(r: Rect, ms: seq<Monitor>)
    requires Stays(r, ms) && r.w > 0 && r.h > 0
    ensures Clamped(r, ms) == r
  {
    hide WellFormed, Visible, EdgesFit;
    if ms != [] {
      ClampedIsReachable(r, ms);
    }
  }

  lemma {:induction false} IdentityMatches(entries: seq<WindowEntry>, windows: seq<Live>, m: map<nat, nat>, n: nat)
    requires n <= |entries| == |windows| && m == Capture.Identity(|entries|)
    ensures |MatchesOf(entries, windows, m, n)| == n
    ensures forall k: nat :: k < n ==> MatchesOf(entries, windows, m, n)[k] == Match(k, entries[k], windows[k])
  {
    hide Capture.Identity;
    if n > 0 {
      IdentityMatches(entries, windows, m, n - 1);
    }
  }

  lemma {:induction false} AllTicked(matches: seq<Match>, n: nat)
    requires n <= |matches| && forall k :: 0 <= k < n ==> matches[k].entry.ticked
    ensures |TickedPositions(matches, n)| == n && forall k :: 0 <= k < n ==> TickedPositions(matches, n)[k] == k
  {
    if n > 0 {
      AllTicked(matches, n - 1);
    }
  }

  lemma SavedMatches(tx: Locale, live: seq<Live>)
    ensures var windows := Eligibles(live);
      var entries := Capture.Entries(tx, windows);
      var plan := PlanOf(tx, entries, live);
      && plan.missing == [] && plan.unmatched == [] && |plan.matches| == |windows|
      && forall k: nat :: k < |windows| ==> plan.matches[k] == Match(k, entries[k], windows[k])
  {
    hide Eligibles, Assign, Capture.Identity, MatchesOf, MissingOf, UnmatchedOf, IsAssignment, Capture.EntryFor;
    var windows := Eligibles(live);
    var entries := Capture.Entries(tx, windows);
    Capture.CaptureIsFixed(tx, live);
    AssignIsPairing(tx, entries, windows);
    IdentityMatches(entries, windows, Assign(tx, entries, windows), |entries|);
  }

  /** Restoring what was just saved, with the same windows open and all of them on screen, places each eligible
      window once, in order, exactly as it is: its own handle, rectangles, state and topmost flag. Nothing is
      missing, deselected or minimized. */
  lemma SavedIsRestored(tx: Locale, live: seq<Live>, ms: seq<Monitor>, enabled: bool)
    requires forall w :: w in Eligibles(live) ==> WindowStays(w, ms)
    ensures var windows := Eligibles(live);
      var plan := PlanOf(tx, Capture.Entries(tx, windows), live);
      var placed := Attempts(plan.matches, ms, |plan.matches|);
      && plan.missing == [] && ToMinimize(plan.unmatched, enabled, |plan.unmatched|) == []
      && |placed| == |windows|
      && forall k :: 0 <= k < |windows| ==> placed[k] == AsItIs(windows[k])
  {
    hide PlanOf, Attempts, TickedPositions, Places, WindowStays, AsItIs, Capture.EntryFor, Eligible;
    var windows := Eligibles(live);
    var plan := PlanOf(tx, Capture.Entries(tx, windows), live);
    SavedMatches(tx, live);
    forall k | 0 <= k < |plan.matches| ensures plan.matches[k].entry.ticked {
      Capture.EntryRecords(tx, windows, k);
    }
    AllTicked(plan.matches, |plan.matches|);
    PlacementsFollowTicks(plan.matches, ms, |plan.matches|);
    forall k | 0 <= k < |windows| ensures Attempts(plan.matches, ms, |plan.matches|)[k] == AsItIs(windows[k]) {
      Capture.EntryRecords(tx, windows, k);
      assert windows[k] in windows;
      EligibleHasArea(windows[k]);
      StaysPlaced(Attempts(plan.matches, ms, |plan.matches|)[k], plan.matches[k], windows[k], ms);
    }
  }

  lemma EligibleHasArea(w: Live)
    requires Eligible(w)
    ensures w.rect.w > 0 && w.rect.h > 0
  {}

  /** The placement that changes nothing about a window. */
  function AsItIs(w: Live): Placement {
    Placement(w.handle, w.rect, w.screen, w.state, w.topmost)
  }

  lemma StaysPlaced(placement: Placement, x: Match, w: Live, ms: seq<Monitor>)
    requires Places(placement, x, ms) && x.live == w && WindowStays(w, ms) && w.rect.w > 0 && w.rect.h > 0
    requires x.entry.rect == w.rect && x.entry.screen == w.screen && x.entry.state == w.state
      && x.entry.topmost == w.topmost
    ensures placement == AsItIs(w)
  {
    hide Clamped, Stays;
    ClampedStays(w.rect, ms);
    if w.screen.w > 0 && w.screen.h > 0 {
      ClampedStays(w.screen, ms);
    }
  }

  // ---- which windows are touched at all ----

  /** A window of the user's: shown, titled, of a known executable, with area, and no tool, cloaked, shell or own
      window. */
  predicate Ordinary(w: Live) {
    && w.visible && !w.cloaked && !w.tool && !w.own && w.exe != "" && w.rect.w > 0 && w.rect.h > 0
    && (exists i :: 0 <= i < |w.title| && !IsSpace(w.title[i]))
    && w.cls != "Progman" && w.cls != "WorkerW" && w.cls != "Shell_TrayWnd" && w.cls != "Button"
  }

  lemma EligibleIffOrdinary(w: Live)
    ensures Eligible(w) <==> Ordinary(w)
  {
    hide TrimSpace, IsSpace;
    BlankIffAllSpace(w.title);
  }

  /** The windows a plan speaks of. */
  ghost predicate Planned(plan: Plan, w: Live) {
    w in plan.unmatched || exists x :: x in plan.matches && x.live == w
  }

  /** Saved, matched and minimized are only ordinary windows, and the plan speaks of every one of them. */
  lemma OnlyOrdinaryWindows(tx: Locale, entries: seq<WindowEntry>, live: seq<Live>, w: Live)
    ensures w in Eligibles(live) <==> w in live && Ordinary(w)
    ensures Planned(PlanOf(tx, entries, live), w) <==> w in live && Ordinary(w)
  {
    hide PlanOf, Eligible, Ordinary, LivesOf, Tally;
    EligibleIffOrdinary(w);
    RestoreAccounts(tx, entries, live, {});
    var plan := PlanOf(tx, entries, live);
    LivesAre(plan.matches, w);
    assert w in multiset(Eligibles(live)) <==> w in multiset(LivesOf(plan.matches)) || w in multiset(plan.unmatched);
  }

  lemma LivesAre(matches: seq<Match>, w: Live)
    ensures w in multiset(LivesOf(matches)) <==> exists x :: x in matches && x.live == w
  {
    if w in LivesOf(matches) {
      var k :| 0 <= k < |matches| && LivesOf(matches)[k] == w;
      assert matches[k] in matches;
    }
    forall x | x in matches && x.live == w ensures w in LivesOf(matches) {
      var k :| 0 <= k < |matches| && matches[k] == x;
      assert LivesOf(matches)[k] == w;
    }
  }
}
