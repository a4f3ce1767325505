/** What each action puts into the store, field by field. */
module ActionEffects {
  import opened Types
  import opened Text
  import opened HotkeyText
  import opened HotkeySelect
  import opened Store
  import opened Actions
  import Matching
  import Capture
  import Restore
  import RestorePlacements

  /** The action changed layout i into l and nothing else, in memory and on disk. */
  predicate OnlyChanged(s: State, s': State, i: nat, l: Layout) {
    && i < |s.mem.layouts| && s'.mem == s'.disk && s'.mem.minimizeOthers == s.mem.minimizeOthers
    && |s'.mem.layouts| == |s.mem.layouts| && s'.mem.layouts[i] == l
    && forall k :: 0 <= k < |s.mem.layouts| && k != i ==> s'.mem.layouts[k] == s.mem.layouts[k]
  }

  /** Saving appends one layout with the new id, the trimmed name, the setup and the captured windows, and no hotkey; a
      cancelled or blank name changes nothing. */
  lemma SaveStores(tx: Locale, s: State, e: Event)
    requires e.SaveLayout? && e.saved
    ensures e.input.Some? && TrimSpace(e.input.value) != "" ==>
      var s' := Do(tx, s, e);
      && s'.mem == s'.disk && s'.mem.minimizeOthers == s.mem.minimizeOthers
      && s'.mem.layouts
         == s.mem.layouts + [Layout(e.id, TrimSpace(e.input.value), e.now, e.now, e.setup, e.windows, "")]
    ensures e.input.None? || TrimSpace(e.input.value) == "" ==> Do(tx, s, e) == s
  {
    hide TrimSpace;
  }

  /** An action on an id no layout has changes nothing. */
  lemma UnknownIdChangesNothing(tx: Locale, s: State, e: Event)
    requires !e.SaveLayout? && !e.ToggleMinimize? && forall i :: 0 <= i < |s.mem.layouts| ==>
      s.mem.layouts[i].id != e.id
    ensures Do(tx, s, e) == s
  {
    hide TrimSpace, AssignmentPasses;
  }

  /** Layout i is the one an action with this id works on. */
  predicate IsTarget(s: State, id: string, i: nat) {
    i < |s.mem.layouts| && s.mem.layouts[i].id == id && forall j :: 0 <= j < i ==> s.mem.layouts[j].id != id
  }

  /** Renaming changes the name and the stamp, unless the new name is blank or the old one. */
  lemma RenameStores(tx: Locale, s: State, e: Event, i: nat)
    requires e.RenameLayout? && e.saved && IsTarget(s, e.id, i)
    ensures var l := s.mem.layouts[i];
      if e.input.None? || TrimSpace(e.input.value) == "" || TrimSpace(e.input.value) == l.name then Do(tx, s, e) == s
      else OnlyChanged(s, Do(tx, s, e), i,
                       Layout(l.id, TrimSpace(e.input.value), l.created, e.now, l.setup, l.windows, l.hotkey))
  {
    hide TrimSpace, IndexOf;
    IndexIs(s.mem.layouts, e.id, i);
  }

  /** Overwriting replaces exactly setup, windows and stamp. */
  lemma OverwriteStores(tx: Locale, s: State, e: Event, i: nat)
    requires e.OverwriteLayout? && e.saved && IsTarget(s, e.id, i)
    ensures var l := s.mem.layouts[i];
      OnlyChanged(s, Do(tx, s, e), i, Layout(l.id, l.name, l.created, e.now, e.setup, e.windows, l.hotkey))
  {
    hide IndexOf;
    IndexIs(s.mem.layouts, e.id, i);
  }

  /** Two window lists that differ in the tick of window w alone. */
  predicate OnlyTickDiffers(windows: seq<WindowEntry>, windows': seq<WindowEntry>, w: nat) {
    && w < |windows| == |windows'|
    && (forall k :: 0 <= k < |windows| && k != w ==> windows'[k] == windows[k])
    && windows'[w] == WindowEntry(windows[w].exe, windows[w].cls, windows[w].title, windows[w].ordinal, windows[w].rect,
                                  windows[w].screen, windows[w].state, windows[w].topmost, !windows[w].ticked)
  }

  /** A toggle flips one tick and sets the stamp; an index out of range changes nothing. */
  lemma ToggleStores(tx: Locale, s: State, e: Event, i: nat)
    requires e.ToggleInclude? && e.saved && IsTarget(s, e.id, i)
    ensures var l, s' := s.mem.layouts[i], Do(tx, s, e);
      if 0 <= e.windowIdx < |l.windows| then
        && |s'.mem.layouts| == |s.mem.layouts| && OnlyTickDiffers(l.windows, s'.mem.layouts[i].windows, e.windowIdx)
        && OnlyChanged(s, s', i, Layout(l.id, l.name, l.created, e.now, l.setup, s'.mem.layouts[i].windows, l.hotkey))
      else s' == s
  {
    hide IndexOf;
    IndexIs(s.mem.layouts, e.id, i);
  }

  /** Toggling twice is the identity up to the stamp. */
  lemma ToggleTwice(tx: Locale, s: State, e: Event, e': Event, i: nat)
    requires e.ToggleInclude? && e.saved && IsTarget(s, e.id, i)
    requires e'.ToggleInclude? && e'.saved && e'.id == e.id && e'.windowIdx == e.windowIdx
    ensures SameFile(Do(tx, Do(tx, s, e), e').mem, s.mem)
  {
    hide Do, SameLayout;
    var l, s' := s.mem.layouts[i], Do(tx, s, e);
    var s'' := Do(tx, s', e');
    ToggleStores(tx, s, e, i);
    assert IsTarget(s', e.id, i);
    ToggleStores(tx, s', e', i);
    if 0 <= e.windowIdx < |l.windows| {
      assert s''.mem.layouts[i].windows == l.windows;
      SameButStamp(s''.mem.layouts[i], l);
    }
    forall k | 0 <= k < |s.mem.layouts| && k != i ensures SameLayout(s''.mem.layouts[k], s.mem.layouts[k]) {
      SameButStamp(s''.mem.layouts[k], s.mem.layouts[k]);
    }
    SameButStamp(l, l);
  }

  lemma SameButStamp(l: Layout, l': Layout)
    requires l' == Layout(l.id, l.name, l.created, l'.updated, l.setup, l.windows, l.hotkey)
    ensures SameLayout(l, l')
  {}

  /** The text is already what assigning hk would store, and means it. */
  predicate AlreadyStored(tx: Locale, l: Layout, hk: Hotkey) {
    l.hotkey == Canonical(hk) && (ParseOf(tx, l.hotkey) == Ok(hk) || (ParseOf(tx, l.hotkey).Err? && hk == NONE))
  }

  predicate NoOtherHas(tx: Locale, layouts: seq<Layout>, l: Layout, hk: Hotkey) {
    forall k ::
      0 <= k < |layouts| && layouts[k].id != l.id && layouts[k].setup.fingerprint == l.setup.fingerprint ==>
        Stored(tx, layouts[k]) != Some(hk)
  }

  /** Assigning stores the canonical text and the stamp, exactly when this changes something, no other layout of the
      setup has the combination, and the system grants it if the setup is the current one; clearing needs neither. */
  lemma AssignStores(tx: Locale, s: State, e: Event, i: nat)
    requires e.AssignHotkey? && e.saved && IsTarget(s, e.id, i)
    ensures var l := s.mem.layouts[i];
      if && !AlreadyStored(tx, l, e.hk)
         && (e.hk == NONE || NoOtherHas(tx, s.mem.layouts, l, e.hk))
         && (e.hk == NONE || l.setup.fingerprint != e.fpNow || e.granted)
      then OnlyChanged(s, Do(tx, s, e), i,
                       Layout(l.id, l.name, l.created, e.now, l.setup, l.windows, Canonical(e.hk)))
      else Do(tx, s, e) == s
  {
    hide IndexOf, ParseOf, Format;
    IndexIs(s.mem.layouts, e.id, i);
    var l := s.mem.layouts[i];
    assert IsZero(e.hk) <==> e.hk == NONE;
    assert AlreadyStored(tx, l, e.hk) <==> e.hk == CurrentHotkey(tx, l) && Canonical(e.hk) == l.hotkey;
    RivalsAre(tx, s.mem.layouts, l, e.hk);
  }

  lemma RivalsAre(tx: Locale, layouts: seq<Layout>, l: Layout, hk: Hotkey)
    ensures HasRival(tx, layouts, l.setup.fingerprint, hk, l.id) <==> !NoOtherHas(tx, layouts, l, hk)
  {
    hide Stored;
  }

  /** The system is asked for the combination exactly when it would be stored in the current setup if granted: never
      for a layout of another setup, never when nothing changes or another layout has it. */
  lemma ProbeAskedExactlyWhen(tx: Locale, s: State, id: string, hk: Hotkey, fpNow: string, i: nat)
    requires IsTarget(s, id, i)
    ensures var l := s.mem.layouts[i];
      ReachesProbe(tx, s.mem.layouts, id, hk, fpNow) <==>
        && hk != NONE && l.setup.fingerprint == fpNow
        && !AlreadyStored(tx, l, hk) && NoOtherHas(tx, s.mem.layouts, l, hk)
  {
    hide IndexOf, ParseOf, Format;
    IndexIs(s.mem.layouts, id, i);
    var l := s.mem.layouts[i];
    assert IsZero(hk) <==> hk == NONE;
    assert AlreadyStored(tx, l, hk) <==> hk == CurrentHotkey(tx, l) && Canonical(hk) == l.hotkey;
    RivalsAre(tx, s.mem.layouts, l, hk);
  }

  /** Deleting removes exactly the one layout, once confirmed. */
  lemma DeleteStores(tx: Locale, s: State, e: Event, i: nat)
    requires e.DeleteLayout? && e.saved && IsTarget(s, e.id, i)
    ensures var s' := Do(tx, s, e);
      if e.confirmed then
        s'.mem == s'.disk == File(s.mem.minimizeOthers, s.mem.layouts[..i] + s.mem.layouts[i + 1..])
      else s' == s
  {
    hide IndexOf;
    IndexIs(s.mem.layouts, e.id, i);
  }

  /** The option counts as on until it is set, so the first toggle stores that it is off; layouts are untouched. */
  lemma MinimizeStores(tx: Locale, s: State, e: Event)
    requires e.ToggleMinimize? && e.saved
    ensures var s' := Do(tx, s, e);
      && s'.mem == s'.disk && s'.mem.layouts == s.mem.layouts
      && s'.mem.minimizeOthers == if s.mem.minimizeOthers == Some(false) then Some(true) else Some(false)
  {}

  /** A save that fails leaves the file alone, and the memory but for stamps and an explicit default. */
  lemma FailedActionKeepsFile(tx: Locale, s: State, e: Event)
    requires !e.saved && Fresh(s.mem, e)
    ensures Do(tx, s, e).disk == s.disk && SameFile(Do(tx, s, e).mem, s.mem)
  {
    hide Attempted, RolledBack, Fresh, SameLayout;
    RollbackRestores(tx, s.mem, e);
    SameFileFacts(s.mem, s.mem, s.mem);
  }

  /** What was saved can be restored: with the same windows open, the layout just stored misses none of them and leaves
      none over, and if all are on screen each one is placed exactly as it is. */
  lemma SavedLayoutRestores(tx: Locale, s: State, e: Event, live: seq<Live>, ms: seq<Monitor>)
    requires e.SaveLayout? && e.saved && e.input.Some? && TrimSpace(e.input.value) != ""
    requires e.windows == Capture.Entries(tx, Matching.Eligibles(live))
    ensures |Do(tx, s, e).disk.layouts| == |s.mem.layouts| + 1
    ensures var l := Do(tx, s, e).disk.layouts[|s.mem.layouts|];
      var plan := Matching.PlanOf(tx, l.windows, live);
      && l.id == e.id && plan.missing == [] && plan.unmatched == []
      && ((forall w :: w in Matching.Eligibles(live) ==> RestorePlacements.WindowStays(w, ms)) ==>
            var placed := Restore.Attempts(plan.matches, ms, |plan.matches|);
            && |placed| == |Matching.Eligibles(live)|
            && forall k :: 0 <= k < |placed| ==> placed[k] == RestorePlacements.AsItIs(Matching.Eligibles(live)[k]))
  {
    hide TrimSpace, Do, Matching.PlanOf, Capture.Entries, Matching.Eligibles, Restore.Attempts,
      RestorePlacements.WindowStays;
    SaveStores(tx, s, e);
    RestorePlacements.SavedMatches(tx, live);
    if forall w :: w in Matching.Eligibles(live) ==> RestorePlacements.WindowStays(w, ms) {
      RestorePlacements.SavedIsRestored(tx, live, ms, true);
    }
  }
}
