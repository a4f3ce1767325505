/** The life of the running program: actions on the store, each followed by a sync of the hotkeys, display changes and
    whatever other applications do in between. */
module HotkeyLife {
  import opened Types
  import opened Text
  import opened HotkeyText
  import opened HotkeySelect
  import opened HotkeyManager
  import HotkeyCapture
  import HotkeyRoundTrip
  import HotkeyRuns
  import opened HotkeyLeaks
  import Store
  import Actions

  /** What the last sync worked with. */
  datatype Sync = Sync(layouts: seq<Layout>, setup: string)

  datatype Life = Life(store: Actions.State, keys: State, last: Sync)

  /** A sync is skipped when the monitors cannot be listed; the registrations then stay as they were. Any release may
      fail. */
  datatype Event =
    | Act(e: Actions.Event, fpAfter: Option<string>)
    | DisplayChange(fp: Option<string>)
    | World(foreign: set<Combo>, stuck: set<int>)

  ghost function Synced(tx: Locale, a: Life, fp: string): Life {
    var layouts := a.store.mem.layouts;
    a.(keys := Resync(a.keys, ActiveOf(tx, layouts, fp, |layouts|)), last := Sync(layouts, fp))
  }

  /** The action asks the system for a combination first. */
  ghost predicate Asks(tx: Locale, a: Life, e: Actions.Event) {
    e.AssignHotkey? && Actions.ReachesProbe(tx, a.store.mem.layouts, e.id, e.hk, e.fpNow)
  }

  ghost function Acted(tx: Locale, a: Life, e: Actions.Event): Life {
    a.(store := Actions.Do(tx, a.store, e),
      keys := if Asks(tx, a, e) then AfterProbe(a.keys, Actions.ComboFor(e.hk)) else a.keys)
  }

  ghost function Next(tx: Locale, a: Life, ev: Event): Life {
    match ev
    case Act(e, None) => Acted(tx, a, e)
    case Act(e, Some(fp)) => Synced(tx, Acted(tx, a, e), fp)
    case DisplayChange(None) => a
    case DisplayChange(Some(fp)) => Synced(tx, a, fp)
    case World(foreign, stuck) => a.(keys := a.keys.(foreign := foreign, stuck := stuck))
  }

  /** New ids are fresh, combinations come from the capture dialog, and the answer to a probe is the system's. */
  ghost predicate Legal(tx: Locale, a: Life, ev: Event) {
    match ev
    case Act(e, _) =>
      && Actions.Fresh(a.store.mem, e)
      && (e.AssignHotkey? ==> Valid(e.hk) || e.hk == NONE)
      && (Asks(tx, a, e) ==> e.granted == Grants(a.keys, Actions.ComboFor(e.hk)))
    case DisplayChange(_) => true
    case World(foreign, _) => foreign !! a.keys.own.Values
  }

  ghost predicate Possible(tx: Locale, a: Life, events: seq<Event>)
    decreases |events|
  {
    events == [] || (Legal(tx, a, events[0]) && Possible(tx, Next(tx, a, events[0]), events[1..]))
  }

  ghost function Outcome(tx: Locale, a: Life, events: seq<Event>): Life
    decreases |events|
  {
    if events == [] then a else Outcome(tx, Next(tx, a, events[0]), events[1..])
  }

  // ---- stored text stays canonical ----

  predicate CanonicalText(tx: Locale, l: Layout) {
    Stored(tx, l).Some? ==> l.hotkey == Canonical(Stored(tx, l).value)
  }

  ghost predicate Tidy(tx: Locale, layouts: seq<Layout>) {
    DistinctIDs(layouts) && forall i :: 0 <= i < |layouts| ==> CanonicalText(tx, layouts[i])
  }

  lemma TidyReplace(tx: Locale, layouts: seq<Layout>, i: nat, l: Layout)
    requires Tidy(tx, layouts) && i < |layouts| && l.id == layouts[i].id && CanonicalText(tx, l)
    ensures Tidy(tx, layouts[i := l])
  {
    hide CanonicalText;
  }

  lemma TidyAdd(tx: Locale, layouts: seq<Layout>, l: Layout)
    requires Tidy(tx, layouts) && Store.IndexOf(layouts, l.id).None? && l.hotkey == ""
    ensures Tidy(tx, layouts + [l])
  {
    hide ParseOf, Store.IndexOf;
  }

  lemma TidyRemove(tx: Locale, layouts: seq<Layout>, i: nat)
    requires Tidy(tx, layouts) && i < |layouts|
    ensures Tidy(tx, Store.Removed(layouts, i))
  {
    hide CanonicalText;
  }

  lemma SameTextSameForm(tx: Locale, l: Layout, l': Layout)
    requires CanonicalText(tx, l) && l'.hotkey == l.hotkey
    ensures CanonicalText(tx, l')
  {
    hide ParseOf, Format;
  }

  lemma AssignedText(tx: Locale, l: Layout, hk: Hotkey)
    requires HotkeyRoundTrip.LowersNames(tx) && (Valid(hk) || hk == NONE) && l.hotkey == Canonical(hk)
    ensures CanonicalText(tx, l)
  {
    hide ValidVK, Format, Stored, HotkeyRoundTrip.LowersNames;
    Actions.CanonicalIsStored(tx, l, hk);
  }

  lemma AttemptIsTidy(tx: Locale, mem: File, e: Actions.Event)
    requires HotkeyRoundTrip.LowersNames(tx) && Tidy(tx, mem.layouts) && Actions.Fresh(mem, e)
    requires e.AssignHotkey? ==> Valid(e.hk) || e.hk == NONE
    requires Actions.Attempted(tx, mem, e).Some?
    ensures Tidy(tx, Actions.Attempted(tx, mem, e).value.layouts)
  {
    hide Store.IndexOf, Tidy, HotkeyRoundTrip.LowersNames, TrimSpace, Actions.AssignmentPasses, ValidVK, Store.Removed,
      Format, CanonicalText;
    if e.SaveLayout? {
      TidyAdd(tx, mem.layouts, Actions.NewLayout(e));
    } else if !e.ToggleMinimize? {
      var i := Store.IndexOf(mem.layouts, e.id).value;
      if e.DeleteLayout? {
        TidyRemove(tx, mem.layouts, i);
      } else {
        var l := Actions.Changed(tx, mem.layouts, i, e).value;
        TidyMember(tx, mem.layouts, i);
        if e.AssignHotkey? {
          AssignedText(tx, l, e.hk);
        } else {
          SameTextSameForm(tx, mem.layouts[i], l);
        }
        TidyReplace(tx, mem.layouts, i, l);
      }
    }
  }

  lemma TidyMember(tx: Locale, layouts: seq<Layout>, i: nat)
    requires Tidy(tx, layouts) && i < |layouts|
    ensures CanonicalText(tx, layouts[i])
  {
    hide CanonicalText;
  }

  lemma TidyIgnoresStamps(tx: Locale, f: File, g: File)
    requires Actions.SameFile(f, g) && Tidy(tx, g.layouts)
    ensures Tidy(tx, f.layouts)
  {
    hide CanonicalText, Actions.SameLayout;
    forall i | 0 <= i < |f.layouts| ensures f.layouts[i].id == g.layouts[i].id && CanonicalText(tx, f.layouts[i]) {
      Actions.StampsHideNothing(f.layouts[i], g.layouts[i]);
      SameTextSameForm(tx, g.layouts[i], f.layouts[i]);
    }
  }

  lemma ActionKeepsTidy(tx: Locale, s: Actions.State, e: Actions.Event)
    requires HotkeyRoundTrip.LowersNames(tx) && Tidy(tx, s.mem.layouts) && Actions.Fresh(s.mem, e)
    requires e.AssignHotkey? ==> Valid(e.hk) || e.hk == NONE
    ensures Tidy(tx, Actions.Do(tx, s, e).mem.layouts)
  {
    hide Actions.Attempted, Actions.RolledBack, Tidy, HotkeyRoundTrip.LowersNames, Actions.SameFile, ValidVK,
      Actions.Fresh;
    match Actions.Attempted(tx, s.mem, e)
    case None =>
    case Some(_) =>
      AttemptIsTidy(tx, s.mem, e);
      Actions.RollbackRestores(tx, s.mem, e);
      TidyIgnoresStamps(tx, Actions.RolledBack(tx, s.mem, e), s.mem);
  }

  // ---- ids stay distinct, whatever the texts ----

  lemma AttemptKeepsIDs(tx: Locale, mem: File, e: Actions.Event)
    requires DistinctIDs(mem.layouts) && Actions.Fresh(mem, e) && Actions.Attempted(tx, mem, e).Some?
    ensures DistinctIDs(Actions.Attempted(tx, mem, e).value.layouts)
  {
    hide Store.IndexOf, TrimSpace, Actions.AssignmentPasses, Format;
  }

  lemma IDsIgnoreStamps(f: File, g: File)
    requires Actions.SameFile(f, g) && DistinctIDs(g.layouts)
    ensures DistinctIDs(f.layouts)
  {
    hide Actions.SameLayout;
    forall i | 0 <= i < |f.layouts| ensures f.layouts[i].id == g.layouts[i].id {
      Actions.StampsHideNothing(f.layouts[i], g.layouts[i]);
    }
  }

  lemma ActionKeepsIDs(tx: Locale, s: Actions.State, e: Actions.Event)
    requires DistinctIDs(s.mem.layouts) && Actions.Fresh(s.mem, e)
    ensures DistinctIDs(Actions.Do(tx, s, e).mem.layouts)
  {
    hide Actions.Attempted, Actions.RolledBack, DistinctIDs, Actions.SameFile, Actions.Fresh;
    match Actions.Attempted(tx, s.mem, e)
    case None =>
    case Some(_) =>
      AttemptKeepsIDs(tx, s.mem, e);
      Actions.RollbackRestores(tx, s.mem, e);
      IDsIgnoreStamps(Actions.RolledBack(tx, s.mem, e), s.mem);
  }

  // ---- what holds in every run ----

  /** The layout belongs to setup fp and stores combination c. */
  predicate Carries(tx: Locale, l: Layout, fp: string, c: Combo) {
    l.setup.fingerprint == fp && Stored(tx, l).Some? && Actions.ComboFor(Stored(tx, l).value) == c
  }

  /** The bindings the last sync set out to register. */
  ghost function LastBindings(tx: Locale, a: Life): seq<Binding> {
    ActiveOf(tx, a.last.layouts, a.last.setup, |a.last.layouts|)
  }

  /** Ids are distinct, and the registrations are those the last sync made, whatever happened to the store since. */
  ghost predicate Inv(tx: Locale, a: Life) {
    && DistinctIDs(a.store.mem.layouts) && DistinctIDs(a.last.layouts)
    && Sane(a.keys) && Reflects(a.keys, LastBindings(tx, a))
  }

  lemma LastAreDistinct(tx: Locale, a: Life)
    requires DistinctIDs(a.last.layouts)
    ensures DistinctBindings(LastBindings(tx, a)) && HotkeyRuns.DistinctLayouts(LastBindings(tx, a))
  {
    hide ActiveOf, DistinctIDs, DistinctBindings, HotkeyRuns.DistinctLayouts;
    ActiveIsDistinct(tx, a.last.layouts, a.last.setup, |a.last.layouts|);
    HotkeyRuns.ActiveLayoutsDistinct(tx, a.last.layouts, a.last.setup, |a.last.layouts|);
  }

  lemma SyncKeepsInv(tx: Locale, a: Life, fp: string)
    requires DistinctIDs(a.store.mem.layouts) && Sane(a.keys)
    ensures Inv(tx, Synced(tx, a, fp))
  {
    hide ActiveOf, Resync, Reflects, DistinctIDs, DistinctBindings, HotkeyRuns.DistinctLayouts;
    SaneAvoids(a.keys);
    hide Sane;
    var a' := Synced(tx, a, fp);
    LastAreDistinct(tx, a');
    ResyncIsSane(a.keys, LastBindings(tx, a'));
    ResyncReflects(a.keys, LastBindings(tx, a'));
  }

  lemma SaneAvoids(s: State)
    requires Sane(s)
    ensures s.foreign !! s.own.Values && PROBE_ID !in s.registered
  {
    hide Ids;
    assert PROBE_ID !in s.registered.Keys;
  }

  /** A probe moves nothing but its own id. */
  lemma ProbeReflects(s: State, c: Combo, bs: seq<Binding>)
    requires Reflects(s, bs) && PROBE_ID !in s.registered
    ensures Reflects(AfterProbe(s, c), bs)
  {
    hide FromBinding, Grants;
  }

  lemma ActKeepsInv(tx: Locale, a: Life, e: Actions.Event)
    requires Inv(tx, a) && Legal(tx, a, Act(e, None))
    ensures Inv(tx, Acted(tx, a, e))
  {
    hide Sane, Actions.Do, AfterProbe, Actions.Fresh, ValidVK, Asks, Grants, Reflects, DistinctIDs, ActiveOf;
    ActionKeepsIDs(tx, a.store, e);
    if Asks(tx, a, e) {
      AsksIsAssignment(tx, a, e);
      SaneAvoids(a.keys);
      ProbeKeepsSane(a.keys, Actions.ComboFor(e.hk));
      ProbeReflects(a.keys, Actions.ComboFor(e.hk), LastBindings(tx, a));
    }
  }

  lemma AsksIsAssignment(tx: Locale, a: Life, e: Actions.Event)
    requires Asks(tx, a, e)
    ensures e.AssignHotkey?
  {}

  lemma OneStep(tx: Locale, a: Life, ev: Event)
    requires Inv(tx, a) && Legal(tx, a, ev)
    ensures Inv(tx, Next(tx, a, ev))
  {
    hide Synced, Acted, DistinctIDs, LastBindings, FromBinding, Asks, Actions.Fresh, ValidVK, Grants, Ids;
    match ev
    case Act(e, fpAfter) =>
      ActKeepsInv(tx, a, e);
      if fpAfter.Some? {
        SyncKeepsInv(tx, Acted(tx, a, e), fpAfter.value);
      }
    case DisplayChange(fp) =>
      if fp.Some? {
        SyncKeepsInv(tx, a, fp.value);
      }
    case World(foreign, stuck) => WorldMovesNothingHeld(tx, a, foreign, stuck);
  }

  lemma WorldMovesNothingHeld(tx: Locale, a: Life, foreign: set<Combo>, stuck: set<int>)
    requires Inv(tx, a) && foreign !! a.keys.own.Values
    ensures Inv(tx, a.(keys := a.keys.(foreign := foreign, stuck := stuck)))
  {
    hide FromBinding, ActiveOf, DistinctIDs, Ids;
  }

  lemma {:induction false} RunKeepsInv(tx: Locale, a: Life, events: seq<Event>)
    requires Inv(tx, a) && Possible(tx, a, events)
    ensures Inv(tx, Outcome(tx, a, events))
    decreases |events|
  {
    hide Inv, Next, Legal;
    if events != [] {
      OneStep(tx, a, events[0]);
      RunKeepsInv(tx, Next(tx, a, events[0]), events[1..]);
    }
  }

  /** The program has loaded its store and registered nothing yet. Whatever texts the store holds, canonical,
      hand-edited or unparseable; only its ids are distinct. */
  ghost predicate Started(a: Life) {
    DistinctIDs(a.store.mem.layouts) && a.keys == HotkeyRuns.INITIAL && a.last == Sync([], "")
  }

  lemma StartIsInv(tx: Locale, a: Life)
    requires Started(a)
    ensures Inv(tx, a)
  {}

  lemma RunIsInv(tx: Locale, start: Life, events: seq<Event>)
    requires Started(start) && Possible(tx, start, events)
    ensures Inv(tx, Outcome(tx, start, events))
  {
    hide Possible, Outcome, Started, Inv;
    StartIsInv(tx, start);
    RunKeepsInv(tx, start, events);
  }

  /** Nothing was changed behind the last sync's back: its layouts are the store's. */
  predicate InStep(a: Life) {
    a.last.layouts == a.store.mem.layouts
  }

  /** Every sync that takes place brings the registrations into step; without one, exactly the actions that leave the
      layouts alone keep them in step. */
  lemma SyncsKeepInStep(tx: Locale, a: Life, ev: Event)
    ensures (ev.Act? && ev.fpAfter.Some?) || (ev.DisplayChange? && ev.fp.Some?) ==> InStep(Next(tx, a, ev))
    ensures ev.Act? && ev.fpAfter.None? && InStep(a) ==>
      (InStep(Next(tx, a, ev)) <==> Next(tx, a, ev).store.mem.layouts == a.store.mem.layouts)
    ensures ev.World? || (ev.DisplayChange? && ev.fp.None?) ==> (InStep(Next(tx, a, ev)) <==> InStep(a))
  {
    hide Actions.Do, AfterSync, AfterProbe, Asks, ActiveOf;
  }

  // ---- a press ----

  lemma BindingIsCarried(tx: Locale, layouts: seq<Layout>, fp: string, b: Binding) returns (i: nat)
    requires b in ActiveOf(tx, layouts, fp, |layouts|)
    ensures i < |layouts| && layouts[i].id == b.layoutID && Carries(tx, layouts[i], fp, ComboOf(b))
  {
    hide ActiveOf, Wins, Stored;
    WinnersStore(tx, layouts, fp);
    ActiveIffWins(tx, layouts, fp, |layouts|, b);
    i :| i < |layouts| && Wins(tx, layouts, fp, i) && b == Binding(layouts[i].id, Stored(tx, layouts[i]).value);
    WinnersBind(tx, layouts, fp, i);
  }

  /** In every run, whatever users, other applications, failing releases and skipped syncs do: behind a registered id
      stands a layout of the last sync that stored exactly the combination held under this id. */
  lemma PressHasALayout(tx: Locale, start: Life, events: seq<Event>, id: int)
    requires Started(start) && Possible(tx, start, events)
    requires id in Outcome(tx, start, events).keys.registered
    ensures var a := Outcome(tx, start, events);
      var was := Store.IndexOf(a.last.layouts, a.keys.registered[id]);
      && id in a.keys.own && was.Some? && Carries(tx, a.last.layouts[was.value], a.last.setup, a.keys.own[id])
  {
    hide Possible, Outcome, Started, Carries, Store.IndexOf, Sane, ComboOf, ActiveOf;
    RunIsInv(tx, start, events);
    var a := Outcome(tx, start, events);
    var bs, layouts := LastBindings(tx, a), a.last.layouts;
    var k :| 0 <= k < |bs| && bs[k].layoutID == a.keys.registered[id] && ComboOf(bs[k]) == a.keys.own[id];
    assert bs[k] in bs;
    var i := BindingIsCarried(tx, layouts, a.last.setup, bs[k]);
    Store.IndexIs(layouts, a.keys.registered[id], i);
  }

  /** In every run a press finds in the store a layout of the setup last synced that stores the pressed combination
      exactly when the layout has not been deleted, moved to another setup or rebound since that sync. */
  lemma PressFindsItsLayoutIffUntouched(tx: Locale, start: Life, events: seq<Event>, id: int)
    requires Started(start) && Possible(tx, start, events)
    requires id in Outcome(tx, start, events).keys.registered
    ensures var a := Outcome(tx, start, events);
      var was := Store.IndexOf(a.last.layouts, a.keys.registered[id]);
      var found := Store.IndexOf(a.store.mem.layouts, a.keys.registered[id]);
      && id in a.keys.own && was.Some?
      && (found.Some? && Carries(tx, a.store.mem.layouts[found.value], a.last.setup, a.keys.own[id]) <==>
            && found.Some? && a.store.mem.layouts[found.value].setup.fingerprint == a.last.setup
            && Stored(tx, a.store.mem.layouts[found.value]) == Stored(tx, a.last.layouts[was.value]))
  {
    hide Possible, Outcome, Started, Store.IndexOf, Stored, HotkeyCapture.Win32Mods;
    PressHasALayout(tx, start, events, id);
    var a := Outcome(tx, start, events);
    var was := a.last.layouts[Store.IndexOf(a.last.layouts, a.keys.registered[id]).value];
    var found := Store.IndexOf(a.store.mem.layouts, a.keys.registered[id]);
    if found.Some? && Carries(tx, a.store.mem.layouts[found.value], a.last.setup, a.keys.own[id]) {
      CombosDiffer(Binding("", Stored(tx, was).value), Binding("", Stored(tx, a.store.mem.layouts[found.value]).value));
    }
  }

  /** So as long as no sync was skipped after a change of the layouts, every press finds its layout. */
  lemma PressFindsItsLayout(tx: Locale, start: Life, events: seq<Event>, id: int)
    requires Started(start) && Possible(tx, start, events)
    requires id in Outcome(tx, start, events).keys.registered && InStep(Outcome(tx, start, events))
    ensures var a := Outcome(tx, start, events);
      var found := Store.IndexOf(a.store.mem.layouts, a.keys.registered[id]);
      && id in a.keys.own && found.Some?
      && Carries(tx, a.store.mem.layouts[found.value], a.last.setup, a.keys.own[id])
  {
    hide Possible, Outcome, Started, Carries, Store.IndexOf;
    PressHasALayout(tx, start, events, id);
  }

  /** The condition matters: a layout deleted just before the monitors cannot be listed stays registered, and its press
      finds nothing. */
  lemma DeletedLayoutStaysRegistered(tx: Locale, a: Life, id: int)
    requires DistinctIDs(a.store.mem.layouts) && id in a.keys.registered
    requires Store.IndexOf(a.store.mem.layouts, a.keys.registered[id]).Some?
    ensures var ev := Act(Actions.DeleteLayout(a.keys.registered[id], true, true), None);
      var a' := Next(tx, a, ev);
      && Legal(tx, a, ev) && a'.keys == a.keys && Store.IndexOf(a'.store.mem.layouts, a.keys.registered[id]).None?
  {
    hide Store.IndexOf;
    var layouts := a.store.mem.layouts;
    var i := Store.IndexOf(layouts, a.keys.registered[id]).value;
    var left := Store.Removed(layouts, i);
    assert forall k :: 0 <= k < |left| ==> left[k] == layouts[if k < i then k else k + 1];
  }

  // ---- a probe ----

  ghost predicate ProbeHolds(s: State, c: Combo) {
    PROBE_ID in s.own && s.own[PROBE_ID] == c
  }

  /** Some registration whose release failed and was forgotten holds c. */
  ghost predicate ForgottenHolds(s: State, c: Combo) {
    exists id :: Forgotten(s, id, c)
  }

  /** Layout i of the last sync binds hk, first in the setup, and the sync could have it. */
  ghost predicate Got(tx: Locale, a: Life, i: nat, hk: Hotkey) {
    && i < |a.last.layouts| && Wins(tx, a.last.layouts, a.last.setup, i)
    && Stored(tx, a.last.layouts[i]) == Some(hk) && a.last.layouts[i].id !in a.keys.unavailable
  }

  lemma OwnIsAccountedFor(s: State, c: Combo)
    requires Sane(s)
    ensures c in s.own.Values <==>
      ProbeHolds(s, c) || ForgottenHolds(s, c) || exists id :: id in s.registered && id in s.own && s.own[id] == c
  {
    hide Ids;
    ValuesAreHeld(s.own, c);
    if exists id :: id in s.own && s.own[id] == c {
      var id :| id in s.own && s.own[id] == c;
      if id != PROBE_ID && id !in s.registered {
        assert Forgotten(s, id, c);
      }
    }
    forall id | Forgotten(s, id, c) ensures id in s.own && s.own[id] == c {}
  }

  lemma GotIffBinding(tx: Locale, a: Life, hk: Hotkey)
    ensures (exists i: nat :: Got(tx, a, i, hk)) <==>
      var bs := LastBindings(tx, a);
      exists k :: 0 <= k < |bs| && ComboOf(bs[k]) == Actions.ComboFor(hk) && bs[k].layoutID !in a.keys.unavailable
  {
    hide ActiveOf, Wins, Stored, HotkeyCapture.Win32Mods;
    var bs, layouts, fp := LastBindings(tx, a), a.last.layouts, a.last.setup;
    WinnersStore(tx, layouts, fp);
    forall i: nat | Got(tx, a, i, hk)
      ensures exists k ::
        0 <= k < |bs| && ComboOf(bs[k]) == Actions.ComboFor(hk) && bs[k].layoutID !in a.keys.unavailable
    {
      var b := Binding(layouts[i].id, hk);
      ActiveIffWins(tx, layouts, fp, |layouts|, b);
      var k :| 0 <= k < |bs| && bs[k] == b;
    }
    forall k | 0 <= k < |bs| && ComboOf(bs[k]) == Actions.ComboFor(hk) && bs[k].layoutID !in a.keys.unavailable
      ensures exists i: nat :: Got(tx, a, i, hk)
    {
      CombosDiffer(bs[k], Binding(bs[k].layoutID, hk));
      assert bs[k] in bs;
      ActiveIffWins(tx, layouts, fp, |layouts|, bs[k]);
      var i: nat :| i < |layouts| && Wins(tx, layouts, fp, i)
        && bs[k] == Binding(layouts[i].id, Stored(tx, layouts[i]).value);
      WinnersBind(tx, layouts, fp, i);
      assert Got(tx, a, i, hk);
    }
  }

  lemma InvAccounts(tx: Locale, a: Life, hk: Hotkey)
    requires Inv(tx, a)
    ensures var c := Actions.ComboFor(hk);
      !Grants(a.keys, c) <==>
        c in a.keys.foreign || ProbeHolds(a.keys, c) || ForgottenHolds(a.keys, c) || exists i: nat :: Got(tx, a, i, hk)
  {
    hide Sane, Reflects, LastBindings, HotkeyRuns.DistinctLayouts, Got, ProbeHolds, ForgottenHolds, DistinctIDs,
      ComboOf, HotkeyCapture.Win32Mods;
    var c := Actions.ComboFor(hk);
    OwnIsAccountedFor(a.keys, c);
    LastAreDistinct(tx, a);
    HeldForBinding(a.keys, LastBindings(tx, a), c);
    GotIffBinding(tx, a, hk);
  }

  /** In every run the system refuses a combination exactly when another application holds it, a probe whose release
      failed does, a forgotten registration does, or the process itself does: because a layout of the last sync binds
      it, in that sync's setup, and the sync could have it. */
  lemma RefusedExactlyWhen(tx: Locale, start: Life, events: seq<Event>, hk: Hotkey)
    requires Started(start) && Possible(tx, start, events)
    ensures var a, c := Outcome(tx, start, events), Actions.ComboFor(hk);
      !Grants(a.keys, c) <==>
        c in a.keys.foreign || ProbeHolds(a.keys, c) || ForgottenHolds(a.keys, c) || exists i: nat :: Got(tx, a, i, hk)
  {
    hide *;
    RunIsInv(tx, start, events);
    InvAccounts(tx, Outcome(tx, start, events), hk);
  }

  /** When an assignment to a layout of the setup last synced reaches its probe and the registrations are in step, no
      layout but the one being edited binds the combination. */
  lemma OnlyItselfGot(tx: Locale, a: Life, id: string, hk: Hotkey)
    requires Inv(tx, a) && InStep(a) && Actions.ReachesProbe(tx, a.store.mem.layouts, id, hk, a.last.setup)
    ensures var l := a.store.mem.layouts[Store.IndexOf(a.store.mem.layouts, id).value];
      && ((exists i: nat :: Got(tx, a, i, hk)) <==> Stored(tx, l) == Some(hk) && l.id !in a.keys.unavailable)
      && (Stored(tx, l) == Some(hk) ==> l.hotkey != Canonical(hk))
  {
    hide Sane, Reflects, LastBindings, Store.IndexOf, ParseOf, Format;
    var layouts, fp := a.store.mem.layouts, a.last.setup;
    var n := Store.IndexOf(layouts, id).value;
    forall i: nat | i < |layouts| && Binds(tx, layouts[i], fp, hk) ensures i == n {
      assert !Rivals(tx, layouts[i], fp, hk, layouts[n].id);
    }
    if Stored(tx, layouts[n]) == Some(hk) && layouts[n].id !in a.keys.unavailable {
      assert Got(tx, a, n, hk);
    }
  }

  /** When the registrations are in step and the probed setup is the one last synced, the last case means that the
      layout being edited already stores the combination, under a text that is not canonical. */
  lemma RefusedInStep(tx: Locale, start: Life, events: seq<Event>, id: string, hk: Hotkey)
    requires Started(start) && Possible(tx, start, events)
    requires var a := Outcome(tx, start, events);
      InStep(a) && Actions.ReachesProbe(tx, a.store.mem.layouts, id, hk, a.last.setup)
    ensures var a, c := Outcome(tx, start, events), Actions.ComboFor(hk);
      var l := a.store.mem.layouts[Store.IndexOf(a.store.mem.layouts, id).value];
      && (!Grants(a.keys, c) <==>
            || c in a.keys.foreign || ProbeHolds(a.keys, c) || ForgottenHolds(a.keys, c)
            || (Stored(tx, l) == Some(hk) && l.id !in a.keys.unavailable))
      && (Stored(tx, l) == Some(hk) ==> l.hotkey != Canonical(hk))
  {
    hide *;
    RunIsInv(tx, start, events);
    InvAccounts(tx, Outcome(tx, start, events), hk);
    OnlyItselfGot(tx, Outcome(tx, start, events), id, hk);
  }

  lemma {:induction false} RunKeepsTidy(tx: Locale, a: Life, events: seq<Event>)
    requires HotkeyRoundTrip.LowersNames(tx) && Tidy(tx, a.store.mem.layouts) && Possible(tx, a, events)
    ensures Tidy(tx, Outcome(tx, a, events).store.mem.layouts)
    decreases |events|
  {
    hide Tidy, HotkeyRoundTrip.LowersNames, Actions.Do, AfterSync, AfterProbe, Asks, Grants, ActiveOf, Actions.Fresh,
      ValidVK;
    if events != [] {
      if events[0].Act? {
        ActionKeepsTidy(tx, a.store, events[0].e);
      }
      RunKeepsTidy(tx, Next(tx, a, events[0]), events[1..]);
    }
  }

  /** So in runs that start from canonical texts a refused probe then never means a registration fenster knows of. */
  lemma RefusedProbeMeansTaken(tx: Locale, start: Life, events: seq<Event>, id: string, hk: Hotkey)
    requires Started(start) && Possible(tx, start, events)
    requires HotkeyRoundTrip.LowersNames(tx) && Tidy(tx, start.store.mem.layouts)
    requires var a := Outcome(tx, start, events);
      InStep(a) && Actions.ReachesProbe(tx, a.store.mem.layouts, id, hk, a.last.setup)
    ensures var s, c := Outcome(tx, start, events).keys, Actions.ComboFor(hk);
      !Grants(s, c) <==> c in s.foreign || ProbeHolds(s, c) || ForgottenHolds(s, c)
  {
    hide Possible, Outcome, HotkeyRoundTrip.LowersNames, Started, Store.IndexOf, Actions.AssignmentPasses, Stored,
      Format, ForgottenHolds, ProbeHolds, Grants;
    RefusedInStep(tx, start, events, id, hk);
    RunKeepsTidy(tx, start, events);
  }

  /** A combination of the current setup that the system does not grant never reaches the store. */
  lemma UngrantedIsNotStored(tx: Locale, a: Life, e: Actions.Event)
    requires e.AssignHotkey? && e.hk != NONE && Legal(tx, a, Act(e, None))
    requires var i := Store.IndexOf(a.store.mem.layouts, e.id);
      i.Some? && a.store.mem.layouts[i.value].setup.fingerprint == e.fpNow
    requires !Grants(a.keys, Actions.ComboFor(e.hk))
    ensures Acted(tx, a, e).store == a.store
  {
    hide Store.IndexOf, ParseOf, Format, Grants, ValidVK, HasRival, Actions.CurrentHotkey;
    assert !IsZero(e.hk);
  }

  // ---- when only the probe's release can fail ----

  predicate OnlyProbeFails(events: seq<Event>) {
    forall k :: 0 <= k < |events| && events[k].World? ==> events[k].stuck <= {PROBE_ID}
  }

  lemma SyncKeepsRecord(tx: Locale, a: Life, fp: string)
    requires HotkeyManager.Inv(a.keys)
    ensures HotkeyManager.Inv(Synced(tx, a, fp).keys)
  {
    hide ActiveOf, HotkeyManager.Inv, Resync, AfterSync, DistinctBindings;
    var layouts := a.store.mem.layouts;
    var bs := ActiveOf(tx, layouts, fp, |layouts|);
    ActiveIsDistinct(tx, layouts, fp, |layouts|);
    ResyncIsAfterSync(a.keys, bs);
    HotkeyRuns.SyncKeepsInv(a.keys, bs);
  }

  lemma StepKeepsRecord(tx: Locale, a: Life, ev: Event)
    requires HotkeyManager.Inv(a.keys) && Legal(tx, a, ev) && (ev.World? ==> ev.stuck <= {PROBE_ID})
    ensures HotkeyManager.Inv(Next(tx, a, ev).keys)
  {
    hide Synced, Asks, AfterProbe, Actions.Do, Actions.Fresh, ValidVK, Grants, Ids;
    match ev
    case Act(e, fpAfter) =>
      if Asks(tx, a, e) {
        AsksIsAssignment(tx, a, e);
        HotkeyRuns.ProbeKeepsInv(a.keys, Actions.ComboFor(e.hk));
      }
      if fpAfter.Some? {
        SyncKeepsRecord(tx, Acted(tx, a, e), fpAfter.value);
      }
    case DisplayChange(fp) =>
      if fp.Some? {
        SyncKeepsRecord(tx, a, fp.value);
      }
    case World(_, _) =>
  }

  /** Nothing is forgotten then: everything held is registered, or the probe's and on record. */
  lemma {:induction false} NothingForgotten(tx: Locale, a: Life, events: seq<Event>)
    requires HotkeyManager.Inv(a.keys) && Possible(tx, a, events) && OnlyProbeFails(events)
    ensures HotkeyManager.Inv(Outcome(tx, a, events).keys)
    ensures forall c :: !ForgottenHolds(Outcome(tx, a, events).keys, c)
    decreases |events|
  {
    hide HotkeyManager.Inv, Next, Legal;
    if events == [] {
      RecordHoldsAll(a.keys);
    } else {
      StepKeepsRecord(tx, a, events[0]);
      NothingForgotten(tx, Next(tx, a, events[0]), events[1..]);
    }
  }

  lemma RecordHoldsAll(s: State)
    requires HotkeyManager.Inv(s)
    ensures forall c :: !ForgottenHolds(s, c)
  {
    hide Ids;
    forall id | id in s.own && id != PROBE_ID ensures id in s.registered {
      assert id in s.own.Keys - {PROBE_ID};
    }
  }

  /** The sync at shutdown gives up everything whose release succeeds; when only the probe's can fail and does not,
      nothing is left. */
  lemma ShutdownReleases(tx: Locale, s: State)
    ensures var s' := Resync(s, ActiveOf(tx, [], "", 0));
      && s'.registered == map[] && s'.own == Released(s)
      && (HotkeyManager.Inv(s) && PROBE_ID !in s.stuck ==> s'.own == map[])
  {
    hide Ids;
    if HotkeyManager.Inv(s) {
      InvReleases(s);
    }
  }
}
