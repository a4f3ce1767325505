/** Restoring a layout: which windows are placed, left alone, minimized, and how the counts add up. */
module Restore {
  import opened Types
  import opened Text
  import opened Matching
  import Matcher
  import opened Clamp

  datatype Placement = Placement(handle: nat, rect: Rect, screen: Rect, state: string, topmost: bool)
  datatype Report = Report(restored: nat, deselected: nat, missing: nat, failed: nat, minimized: seq<nat>)
  datatype Outcome = Restored | Deselected | Failed

  /** The rectangles applied for an entry: the restored one always clamped, the screen one only when present. */
  method ClampEntry(e: WindowEntry, ms: seq<Monitor>) returns (rect: Rect, screen: Rect)
    ensures rect == Clamped(e.rect, ms)
    ensures screen == if e.screen.w > 0 && e.screen.h > 0 then Clamped(e.screen, ms) else e.screen
  {
    rect := ClampToScreen(e.rect, ms);
    screen := e.screen;
    if screen.w > 0 && screen.h > 0 {
      screen := ClampToScreen(screen, ms);
    }
  }

  function ToMinimize(unmatched: seq<Live>, enabled: bool, n: nat): seq<nat>
    requires n <= |unmatched|
  {
    if n == 0 || !enabled then []
    else ToMinimize(unmatched, enabled, n - 1)
         + if unmatched[n - 1].state == STATE_MINIMIZED then [] else [unmatched[n - 1].handle]
  }

  method WindowsToMinimize(unmatched: seq<Live>, enabled: bool) returns (handles: seq<nat>)
    ensures handles == ToMinimize(unmatched, enabled, |unmatched|)
  {
    if !enabled {
      return [];
    }
    handles := [];
    for i := 0 to |unmatched|
      invariant handles == ToMinimize(unmatched, enabled, i)
    {
      if unmatched[i].state == STATE_MINIMIZED {
        continue;
      }
      handles := handles + [unmatched[i].handle];
    }
  }

  /** What becomes of one match when the windows in `refusing` cannot be placed. */
  function OutcomeOf(x: Match, refusing: set<nat>): Outcome {
    if !x.entry.ticked then Deselected else if x.live.handle in refusing then Failed else Restored
  }

  function Tally(matches: seq<Match>, refusing: set<nat>, o: Outcome, n: nat): nat
    requires n <= |matches|
  {
    if n == 0 then 0
    else Tally(matches, refusing, o, n - 1) + if OutcomeOf(matches[n - 1], refusing) == o then 1 else 0
  }

  function Attempt(x: Match, ms: seq<Monitor>): Placement {
    Placement(x.live.handle, Clamped(x.entry.rect, ms),
              if x.entry.screen.w > 0 && x.entry.screen.h > 0 then Clamped(x.entry.screen, ms) else x.entry.screen,
              x.entry.state, x.entry.topmost)
  }

  /** The placements attempted, in order: one for each ticked match. */
  function Attempts(matches: seq<Match>, ms: seq<Monitor>, n: nat): seq<Placement>
    requires n <= |matches|
  {
    if n == 0 then []
    else
      var x := matches[n - 1];
      Attempts(matches, ms, n - 1) + if x.entry.ticked then [Attempt(x, ms)] else []
  }

  lemma PlanEntries(tx: Locale, entries: seq<WindowEntry>, live: seq<Live>)
    ensures forall x :: x in PlanOf(tx, entries, live).matches ==> x.entry in entries
    ensures |PlanOf(tx, entries, live).matches| + |PlanOf(tx, entries, live).missing| == |entries|
  {
    hide Assign, IsAssignment, Eligibles;
    AssignIsPairing(tx, entries, Eligibles(live));
    MatchesAreSound(entries, Eligibles(live), Assign(tx, entries, Eligibles(live)), |entries|);
  }

  /** Restores a layout's windows. `refusing` are the windows the system will not place this time; `placed` records the
      placements attempted. Extraneous windows are minimized first. */
  method ActionRestore(tx: Locale, l: Layout, ms: seq<Monitor>, live: seq<Live>, minimizeOthers: bool,
                       refusing: set<nat>)
    returns (report: Report, placed: seq<Placement>)
    ensures var plan := PlanOf(tx, l.windows, live);
      && report == Report(Tally(plan.matches, refusing, Restored, |plan.matches|),
                          Tally(plan.matches, refusing, Deselected, |plan.matches|), |plan.missing|,
                          Tally(plan.matches, refusing, Failed, |plan.matches|),
                          ToMinimize(plan.unmatched, minimizeOthers, |plan.unmatched|))
      && placed == Attempts(plan.matches, ms, |plan.matches|)
  {
    hide PlanOf, Clamped;
    var plan := Matcher.MatchEntries(tx, l.windows, live);
    var minimized := WindowsToMinimize(plan.unmatched, minimizeOthers);
    var restored, deselected, failed := 0, 0, 0;
    placed := [];
    for i := 0 to |plan.matches|
      invariant restored == Tally(plan.matches, refusing, Restored, i)
      invariant deselected == Tally(plan.matches, refusing, Deselected, i)
      invariant failed == Tally(plan.matches, refusing, Failed, i)
      invariant placed == Attempts(plan.matches, ms, i)
    {
      var x := plan.matches[i];
      if !x.entry.ticked {
        deselected := deselected + 1;
        continue;
      }
      var rect, screen := ClampEntry(x.entry, ms);
      placed := placed + [Placement(x.live.handle, rect, screen, x.entry.state, x.entry.topmost)];
      if x.live.handle in refusing {
        failed := failed + 1;
        continue;
      }
      restored := restored + 1;
    }
    report := Report(restored, deselected, |plan.missing|, failed, minimized);
  }

  // ---- accounting ----

  lemma {:induction false} EveryMatchHasOneOutcome(matches: seq<Match>, refusing: set<nat>, n: nat)
    requires n <= |matches|
    ensures Tally(matches, refusing, Restored, n) + Tally(matches, refusing, Deselected, n)
            + Tally(matches, refusing, Failed, n) == n
  {
    if n > 0 {
      EveryMatchHasOneOutcome(matches, refusing, n - 1);
    }
  }

  ghost function LivesOf(matches: seq<Match>): seq<Live> {
    seq(|matches|, i requires 0 <= i < |matches| => matches[i].live)
  }

  lemma UnmatchedStep(windows: seq<Live>, taken: set<nat>, n: nat)
    requires n <= |windows|
    ensures if n == 0 then UnmatchedOf(windows, taken, n) == []
            else if n - 1 in taken then UnmatchedOf(windows, taken, n) == UnmatchedOf(windows, taken, n - 1)
            else UnmatchedOf(windows, taken, n) == UnmatchedOf(windows, taken, n - 1) + [windows[n - 1]]
  {}

  /** Taking one more window moves exactly that window out of the unmatched ones. */
  lemma {:induction false} TakingOne(windows: seq<Live>, taken: set<nat>, j: nat, n: nat)
    requires n <= |windows| && j < |windows| && j !in taken
    ensures multiset(UnmatchedOf(windows, taken, n))
            == multiset(UnmatchedOf(windows, taken + {j}, n)) + if j < n then multiset{windows[j]} else multiset{}
  {
    hide UnmatchedOf;
    UnmatchedStep(windows, taken, n);
    UnmatchedStep(windows, taken + {j}, n);
    if n > 0 {
      TakingOne(windows, taken, j, n - 1);
    }
  }

  /** The windows taken by the first n entries. */
  ghost function TakenBy(m: map<nat, nat>, n: nat): set<nat> {
    set i | i in m && i < n :: m[i]
  }

  lemma {:induction false} NothingTaken(windows: seq<Live>, n: nat)
    requires n <= |windows|
    ensures UnmatchedOf(windows, {}, n) == windows[..n]
  {
    if n > 0 {
      NothingTaken(windows, n - 1);
      assert windows[..n] == windows[..n - 1] + [windows[n - 1]];
    }
  }

  lemma TakenBySnoc(m: map<nat, nat>, n: nat)
    ensures TakenBy(m, n + 1) == if n in m then TakenBy(m, n) + {m[n]} else TakenBy(m, n)
  {}

  lemma TakenByFresh(tx: Locale, entries: seq<WindowEntry>, windows: seq<Live>, m: map<nat, nat>, n: nat)
    requires IsAssignment(tx, entries, windows, m) && n in m
    ensures m[n] !in TakenBy(m, n)
  {}

  lemma LivesSnoc(matches: seq<Match>, x: Match)
    ensures multiset(LivesOf(matches + [x])) == multiset(LivesOf(matches)) + multiset{x.live}
  {
    assert LivesOf(matches + [x]) == LivesOf(matches) + [x.live];
  }

  lemma {:induction false} WindowsArePartitioned(tx: Locale, entries: seq<WindowEntry>, windows: seq<Live>,
                                                 m: map<nat, nat>, n: nat)
    requires n <= |entries| && IsAssignment(tx, entries, windows, m)
    requires forall i :: i in m ==> m[i] < |windows|
    ensures multiset(LivesOf(MatchesOf(entries, windows, m, n)))
            + multiset(UnmatchedOf(windows, TakenBy(m, n), |windows|))
            == multiset(windows)
  {
    hide IsAssignment, UnmatchedOf, LivesOf;
    if n == 0 {
      NothingTaken(windows, |windows|);
      assert windows[..|windows|] == windows && TakenBy(m, 0) == {};
      NoLives();
    } else {
      WindowsArePartitioned(tx, entries, windows, m, n - 1);
      TakenBySnoc(m, n - 1);
      if n - 1 in m {
        TakenByFresh(tx, entries, windows, m, n - 1);
        TakingOne(windows, TakenBy(m, n - 1), m[n - 1], |windows|);
        LivesSnoc(MatchesOf(entries, windows, m, n - 1), Match(n - 1, entries[n - 1], windows[m[n - 1]]));
      } else {
        assert MatchesOf(entries, windows, m, n) == MatchesOf(entries, windows, m, n - 1);
      }
    }
  }

  lemma NoLives()
    ensures LivesOf([]) == []
  {}

  /** Every entry is accounted for once, and every eligible window is either matched or unmatched, never both. */
  lemma RestoreAccounts(tx: Locale, entries: seq<WindowEntry>, live: seq<Live>, refusing: set<nat>)
    ensures var plan := PlanOf(tx, entries, live);
      && Tally(plan.matches, refusing, Restored, |plan.matches|)
         + Tally(plan.matches, refusing, Deselected, |plan.matches|)
         + Tally(plan.matches, refusing, Failed, |plan.matches|) + |plan.missing| == |entries|
      && multiset(LivesOf(plan.matches)) + multiset(plan.unmatched) == multiset(Eligibles(live))
  {
    hide Assign, IsAssignment, Eligibles, LivesOf, MatchesOf, UnmatchedOf, Tally;
    var windows := Eligibles(live);
    var m := Assign(tx, entries, windows);
    AssignIsPairing(tx, entries, windows);
    PairsInRange(tx, entries, windows, m);
    PlanEntries(tx, entries, live);
    EveryMatchHasOneOutcome(PlanOf(tx, entries, live).matches, refusing, |PlanOf(tx, entries, live).matches|);
    WindowsArePartitioned(tx, entries, windows, m, |entries|);
    assert TakenBy(m, |entries|) == m.Values;
  }

  // ---- minimizing ----

  /** Some free window among the first n has handle h and is not minimized yet. */
  ghost predicate FreeHandle(windows: seq<Live>, taken: set<nat>, n: nat, h: nat)
    requires n <= |windows|
  {
    exists j: nat :: j < n && j !in taken && windows[j].handle == h && windows[j].state != STATE_MINIMIZED
  }

  lemma FreeHandleStep(windows: seq<Live>, taken: set<nat>, n: nat, h: nat)
    requires 0 < n <= |windows|
    ensures FreeHandle(windows, taken, n, h) <==>
      FreeHandle(windows, taken, n - 1, h)
        || (n - 1 !in taken && windows[n - 1].handle == h && windows[n - 1].state != STATE_MINIMIZED)
  {}

  ghost predicate DistinctHandles(ws: seq<Live>) {
    forall i, j :: 0 <= i < j < |ws| ==> ws[i].handle != ws[j].handle
  }

  lemma {:induction false} EligiblesDistinct(live: seq<Live>)
    requires DistinctHandles(live)
    ensures DistinctHandles(Eligibles(live))
  {
    if live != [] {
      hide Eligible;
      var n := |live| - 1;
      EligiblesDistinct(live[..n]);
      forall i | 0 <= i < |Eligibles(live[..n])| ensures Eligibles(live[..n])[i].handle != live[n].handle {
        assert Eligibles(live[..n])[i] in live[..n];
      }
    }
  }

  lemma {:induction false} MinimizedAreUnmatched(windows: seq<Live>, taken: set<nat>, enabled: bool, n: nat, h: nat)
    requires n <= |windows|
    ensures var u := UnmatchedOf(windows, taken, n);
      h in ToMinimize(u, enabled, |u|) <==>
      enabled && FreeHandle(windows, taken, n, h)
  {
    hide UnmatchedOf;
    UnmatchedStep(windows, taken, n);
    if n > 0 {
      FreeHandleStep(windows, taken, n, h);
      MinimizedAreUnmatched(windows, taken, enabled, n - 1, h);
      MinimizeSnoc(UnmatchedOf(windows, taken, n - 1), windows[n - 1], enabled);
    }
  }

  lemma MinimizeSnoc(u: seq<Live>, w: Live, enabled: bool)
    ensures ToMinimize(u + [w], enabled, |u| + 1)
            == ToMinimize(u, enabled, |u|) + if enabled && w.state != STATE_MINIMIZED then [w.handle] else []
  {
    MinimizePrefix(u, w, enabled, |u|);
  }

  lemma {:induction false} MinimizePrefix(u: seq<Live>, w: Live, enabled: bool, n: nat)
    requires n <= |u|
    ensures ToMinimize(u + [w], enabled, n) == ToMinimize(u, enabled, n)
  {
    if n > 0 {
      MinimizePrefix(u, w, enabled, n - 1);
    }
  }

  /** No window an entry claims is minimized, ticked or not; every other eligible window that is not minimized
      already is, when the option is on. */
  lemma OnlyForeignWindowsAreMinimized(tx: Locale, entries: seq<WindowEntry>, live: seq<Live>, enabled: bool)
    requires DistinctHandles(live)
    ensures var plan := PlanOf(tx, entries, live);
      var handles := ToMinimize(plan.unmatched, enabled, |plan.unmatched|);
      && (forall x :: x in plan.matches ==> x.live.handle !in handles)
      && (enabled ==> forall w :: w in live && Eligible(w) && w.state != STATE_MINIMIZED ==>
           w.handle in handles || exists x :: x in plan.matches && x.live == w)
  {
    hide Assign, IsAssignment, Eligible, ToMinimize, MatchesOf, UnmatchedOf;
    var windows := Eligibles(live);
    var m := Assign(tx, entries, windows);
    AssignIsPairing(tx, entries, windows);
    PairsInRange(tx, entries, windows, m);
    EligiblesDistinct(live);
    ClaimedStay(tx, entries, windows, m, enabled);
    if enabled {
      forall w | w in live && Eligible(w) && w.state != STATE_MINIMIZED
        ensures w.handle in ToMinimize(UnmatchedOf(windows, m.Values, |windows|), enabled,
          |UnmatchedOf(windows, m.Values, |windows|)|)
                || exists x :: x in MatchesOf(entries, windows, m, |entries|) && x.live == w
      {
        UnclaimedGo(entries, windows, m, w);
      }
    }
  }

  lemma ClaimedStay(tx: Locale, entries: seq<WindowEntry>, windows: seq<Live>, m: map<nat, nat>, enabled: bool)
    requires DistinctHandles(windows) && forall i :: i in m ==> i < |entries| && m[i] < |windows|
    ensures var u := UnmatchedOf(windows, m.Values, |windows|);
      forall x :: x in MatchesOf(entries, windows, m, |entries|) ==> x.live.handle !in ToMinimize(u, enabled, |u|)
  {
    hide ToMinimize, UnmatchedOf, MatchesOf;
    MatchesAreSound(entries, windows, m, |entries|);
    forall x | x in MatchesOf(entries, windows, m, |entries|)
      ensures var u := UnmatchedOf(windows, m.Values, |windows|); x.live.handle !in ToMinimize(u, enabled, |u|)
    {
      MinimizedAreUnmatched(windows, m.Values, enabled, |windows|, x.live.handle);
    }
  }

  lemma UnclaimedGo(entries: seq<WindowEntry>, windows: seq<Live>, m: map<nat, nat>, w: Live)
    requires w in windows && w.state != STATE_MINIMIZED
    requires forall i :: i in m ==> i < |entries| && m[i] < |windows|
    ensures var u := UnmatchedOf(windows, m.Values, |windows|);
      w.handle in ToMinimize(u, true, |u|) || exists x :: x in MatchesOf(entries, windows, m, |entries|) && x.live == w
  {
    hide ToMinimize, UnmatchedOf, MatchesOf;
    var j: nat :| j < |windows| && windows[j] == w;
    if j in m.Values {
      var i :| i in m && m[i] == j;
      MatchListed(entries, windows, m, i, |entries|);
    } else {
      MinimizedAreUnmatched(windows, m.Values, true, |windows|, w.handle);
    }
  }
}
