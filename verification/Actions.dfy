/** What the menu actions do to the store and the file: mutate, save, and roll back when saving fails. */
module Actions {
  import opened Types
  import opened Text
  import opened HotkeyText
  import opened HotkeySelect
  import HotkeyCapture
  import HotkeyRoundTrip
  import HotkeyManager
  import opened Store

  /** The in-memory store and the file a fresh start would load. */
  datatype State = State(mem: File, disk: File)

  /** What the user and the system contribute to an action; `saved` says whether saving succeeds. */
  datatype Event =
    | SaveLayout(input: Option<string>, id: string, setup: Setup, windows: seq<WindowEntry>, now: int, saved: bool)
    | RenameLayout(id: string, input: Option<string>, now: int, saved: bool)
    | OverwriteLayout(id: string, setup: Setup, windows: seq<WindowEntry>, now: int, saved: bool)
    | AssignHotkey(id: string, hk: Hotkey, fpNow: string, granted: bool, now: int, saved: bool)
    | DeleteLayout(id: string, confirmed: bool, saved: bool)
    | ToggleInclude(id: string, windowIdx: int, now: int, rollbackNow: int, saved: bool)
    | ToggleMinimize(saved: bool)

  /** The combination shown as current; an unparseable text counts as none. */
  function CurrentHotkey(tx: Locale, l: Layout): Hotkey {
    match ParseOf(tx, l.hotkey)
    case Err(_) => NONE
    case Ok(h) => h
  }

  /** The assignment goes through: something changes, nobody else in the setup has the combination, and it can be
      granted if the setup is the current one. */
  ghost predicate AssignmentPasses(tx: Locale, layouts: seq<Layout>, l: Layout, hk: Hotkey, fpNow: string,
                                   granted: bool) {
    && !(hk == CurrentHotkey(tx, l) && Canonical(hk) == l.hotkey)
    && (IsZero(hk) || !HasRival(tx, layouts, l.setup.fingerprint, hk, l.id))
    && (IsZero(hk) || l.setup.fingerprint != fpNow || granted)
  }

  /** The assignment gets as far as asking the system for the combination. */
  ghost predicate ReachesProbe(tx: Locale, layouts: seq<Layout>, id: string, hk: Hotkey, fpNow: string) {
    && !IsZero(hk) && IndexOf(layouts, id).Some?
    && var l := layouts[IndexOf(layouts, id).value];
       l.setup.fingerprint == fpNow && AssignmentPasses(tx, layouts, l, hk, fpNow, true)
  }

  function NewLayout(e: Event): Layout
    requires e.SaveLayout? && e.input.Some?
  {
    Layout(e.id, TrimSpace(e.input.value), e.now, e.now, e.setup, e.windows, "")
  }

  /** The change an event asks for at layout i, or None when its guards stop it. */
  ghost function Changed(tx: Locale, layouts: seq<Layout>, i: nat, e: Event): Option<Layout>
    requires i < |layouts|
  {
    var l := layouts[i];
    match e
    case RenameLayout(_, input, now, _) =>
      if input.None? || TrimSpace(input.value) == "" || TrimSpace(input.value) == l.name then None
      else Some(l.(name := TrimSpace(input.value), updated := now))
    case OverwriteLayout(_, setup, windows, now, _) => Some(l.(setup := setup, windows := windows, updated := now))
    case AssignHotkey(_, hk, fpNow, granted, now, _) =>
      if AssignmentPasses(tx, layouts, l, hk, fpNow, granted) then Some(l.(hotkey := Canonical(hk), updated := now))
        else None
    case ToggleInclude(_, w, now, _, _) =>
      if 0 <= w < |l.windows| then Some(Ticked(l, w, !l.windows[w].ticked, now)) else None
    case _ => None
  }

  /** The file an event saves, or None when it saves nothing. */
  ghost function Attempted(tx: Locale, mem: File, e: Event): Option<File> {
    if e.SaveLayout? then
      if e.input.None? || TrimSpace(e.input.value) == "" then None
        else Some(mem.(layouts := mem.layouts + [NewLayout(e)]))
    else if e.ToggleMinimize? then Some(mem.(minimizeOthers := Some(!Minimizes(mem))))
    else match IndexOf(mem.layouts, e.id)
      case None => None
      case Some(i) =>
        if e.DeleteLayout? then if e.confirmed then Some(mem.(layouts := Removed(mem.layouts, i))) else None
        else match Changed(tx, mem.layouts, i, e)
          case None => None
          case Some(l) => Some(mem.(layouts := mem.layouts[i := l]))
  }

  /** What rolling back leaves in memory. Two events do not restore it to the letter: a toggle stamps the layout
      again, and the option becomes an explicit value. */
  ghost function RolledBack(tx: Locale, mem: File, e: Event): File {
    if e.SaveLayout? && e.input.Some? then
      var added := mem.layouts + [NewLayout(e)];
      if IndexOf(added, e.id).Some? then mem.(layouts := Removed(added, IndexOf(added, e.id).value)) else mem
    else if e.ToggleInclude? then
      match IndexOf(mem.layouts, e.id)
      case None => mem
      case Some(i) =>
        if 0 <= e.windowIdx < |mem.layouts[i].windows|
          then mem.(layouts := mem.layouts[i := mem.layouts[i].(updated := e.rollbackNow)])
        else mem
    else if e.ToggleMinimize? then mem.(minimizeOthers := Some(Minimizes(mem)))
    else mem
  }

  /** One action, from the menu click to the end of the handler. */
  ghost function Do(tx: Locale, s: State, e: Event): State {
    match Attempted(tx, s.mem, e)
    case None => s
    case Some(f) => if e.saved then State(f, f) else State(RolledBack(tx, s.mem, e), s.disk)
  }

  ghost function DoAll(tx: Locale, s: State, events: seq<Event>): State
    decreases |events|
  {
    if events == [] then s else DoAll(tx, Do(tx, s, events[0]), events[1..])
  }

  /** New ids are fresh. */
  ghost predicate Fresh(mem: File, e: Event) {
    e.SaveLayout? ==> IndexOf(mem.layouts, e.id).None?
  }

  ghost predicate AllFresh(tx: Locale, s: State, events: seq<Event>)
    decreases |events|
  {
    events == [] || (Fresh(s.mem, events[0]) && AllFresh(tx, Do(tx, s, events[0]), events[1..]))
  }

  // ---- memory and file agree ----

  /** Equal up to time stamps of the last change. */
  predicate SameLayout(l: Layout, l': Layout) {
    l.(updated := 0) == l'.(updated := 0)
  }

  /** Equal up to time stamps and an unset option standing for "on". */
  ghost predicate SameFile(f: File, g: File) {
    && Minimizes(f) == Minimizes(g) && |f.layouts| == |g.layouts|
    && forall i :: 0 <= i < |f.layouts| ==> SameLayout(f.layouts[i], g.layouts[i])
  }

  lemma RemoveWhatWasAdded(layouts: seq<Layout>, l: Layout)
    requires IndexOf(layouts, l.id).None?
    ensures IndexOf(layouts + [l], l.id) == Some(|layouts|) && Removed(layouts + [l], |layouts|) == layouts
  {
    hide IndexOf;
    IndexIs(layouts + [l], l.id, |layouts|);
  }

  /** Rolling back restores the memory, up to what no caller can see. */
  lemma RollbackRestores(tx: Locale, mem: File, e: Event)
    requires Fresh(mem, e)
    ensures SameFile(RolledBack(tx, mem, e), mem)
    ensures !e.ToggleInclude? && !e.ToggleMinimize? ==> RolledBack(tx, mem, e) == mem
  {
    hide IndexOf, TrimSpace;
    if e.SaveLayout? && e.input.Some? {
      RemoveWhatWasAdded(mem.layouts, NewLayout(e));
    }
  }

  /** After every action, whether its save succeeds or fails, memory and file agree. */
  lemma ActionKeepsAgreement(tx: Locale, s: State, e: Event)
    requires SameFile(s.mem, s.disk) && Fresh(s.mem, e)
    ensures SameFile(Do(tx, s, e).mem, Do(tx, s, e).disk)
  {
    hide RolledBack, Attempted, Fresh, SameLayout;
    RollbackRestores(tx, s.mem, e);
    var r := RolledBack(tx, s.mem, e);
    SameFileFacts(r, s.mem, s.disk);
    match Attempted(tx, s.mem, e)
    case None =>
    case Some(f) => SameFileFacts(f, f, f);
  }

  lemma SameFileFacts(f: File, g: File, h: File)
    ensures SameFile(f, g) && SameFile(g, h) ==> SameFile(f, h)
    ensures SameFile(f, f)
  {}

  /** In every run, with saves failing at arbitrary points, memory and file agree after each action. */
  lemma {:induction false} RunsKeepAgreement(tx: Locale, s: State, events: seq<Event>)
    requires SameFile(s.mem, s.disk) && AllFresh(tx, s, events)
    ensures SameFile(DoAll(tx, s, events).mem, DoAll(tx, s, events).disk)
    decreases |events|
  {
    hide Do, SameFile, Fresh;
    if events != [] {
      ActionKeepsAgreement(tx, s, events[0]);
      RunsKeepAgreement(tx, Do(tx, s, events[0]), events[1..]);
    }
  }

  // ---- combinations stay distinct ----

  /** No two layouts of one setup bind one combination. */
  ghost predicate DistinctHotkeys(tx: Locale, layouts: seq<Layout>) {
    forall i, j :: 0 <= i < j < |layouts| ==> !Clash(tx, layouts[i], layouts[j])
  }

  predicate Clash(tx: Locale, l: Layout, l': Layout) {
    l.setup.fingerprint == l'.setup.fingerprint && Stored(tx, l).Some? && Stored(tx, l) == Stored(tx, l')
  }

  lemma DistinctHotkeysIffEverySetup(tx: Locale, layouts: seq<Layout>)
    ensures DistinctHotkeys(tx, layouts) <==> forall fp :: DistinctIn(tx, layouts, fp)
  {
    hide Stored;
    if forall fp :: DistinctIn(tx, layouts, fp) {
      forall i, j | 0 <= i < j < |layouts| ensures !Clash(tx, layouts[i], layouts[j]) {
        assert DistinctIn(tx, layouts, layouts[i].setup.fingerprint);
      }
    }
  }

  /** Assignments come from the capture dialog or clear the binding; a captured layout keeps its setup when
      overwritten. */
  ghost predicate Ordinary(mem: File, e: Event) {
    && Fresh(mem, e)
    && (e.AssignHotkey? ==> Valid(e.hk) || e.hk == NONE)
    && (e.OverwriteLayout? ==> forall i :: 0 <= i < |mem.layouts| && mem.layouts[i].id == e.id ==>
          mem.layouts[i].setup.fingerprint == e.setup.fingerprint)
  }

  ghost predicate AllOrdinary(tx: Locale, s: State, events: seq<Event>)
    decreases |events|
  {
    events == [] || (Ordinary(s.mem, events[0]) && AllOrdinary(tx, Do(tx, s, events[0]), events[1..]))
  }

  ghost predicate Sound(tx: Locale, layouts: seq<Layout>) {
    DistinctIDs(layouts) && DistinctHotkeys(tx, layouts)
  }

  /** Storing a valid combination's canonical text stores that combination. */
  lemma CanonicalIsStored(tx: Locale, l: Layout, hk: Hotkey)
    requires HotkeyRoundTrip.LowersNames(tx) && (Valid(hk) || hk == NONE) && l.hotkey == Canonical(hk)
    ensures Stored(tx, l) == if hk == NONE then None else Some(hk)
  {
    hide ParseOf, Format, ValidVK, HotkeyRoundTrip.LowersNames;
    HotkeyRoundTrip.PrintThenParse(tx, hk, false);
    if hk != NONE {
      ValidPrintsText(tx, hk);
    } else {
      NoneIsEmpty();
    }
  }

  lemma NoneIsEmpty()
    ensures Canonical(NONE) == ""
  {}

  lemma ValidPrintsText(tx: Locale, hk: Hotkey)
    requires HotkeyRoundTrip.LowersNames(tx) && Valid(hk)
    ensures Canonical(hk) != ""
  {
    hide KeyName, ValidVK, HotkeyRoundTrip.LowersNames, TrimSpace, Format;
    HotkeyRoundTrip.PrintedIsNotBlank(tx, hk, false);
    BlankIffAllSpace("");
  }

  lemma ReplaceOne(tx: Locale, layouts: seq<Layout>, i: nat, l: Layout)
    requires Sound(tx, layouts) && i < |layouts| && l.id == layouts[i].id
    ensures DistinctIDs(layouts[i := l])
    ensures DistinctHotkeys(tx, layouts[i := l]) <==>
      Stored(tx, l).None? || !HasRival(tx, layouts, l.setup.fingerprint, Stored(tx, l).value, l.id)
  {
    hide Stored;
    var after := layouts[i := l];
    if Stored(tx, l).Some? {
      var hk := Stored(tx, l).value;
      forall j | 0 <= j < |layouts| && j != i
        ensures Clash(tx, l, after[j]) <==> Rivals(tx, layouts[j], l.setup.fingerprint, hk, l.id)
      {
        assert layouts[j].id != layouts[i].id;
      }
      assert !Rivals(tx, layouts[i], l.setup.fingerprint, hk, l.id);
      if DistinctHotkeys(tx, after) {
        forall j | 0 <= j < |layouts| ensures !Rivals(tx, layouts[j], l.setup.fingerprint, hk, l.id) {
          if j < i {
            assert !Clash(tx, after[j], after[i]);
          } else if j > i {
            assert !Clash(tx, after[i], after[j]);
          }
        }
      }
    }
  }

  /** A replacement that keeps setup and combination keeps them distinct. */
  lemma KeepingBoth(tx: Locale, layouts: seq<Layout>, i: nat, l: Layout)
    requires Sound(tx, layouts) && i < |layouts| && l.id == layouts[i].id
    requires l.setup.fingerprint == layouts[i].setup.fingerprint && l.hotkey == layouts[i].hotkey
    ensures Sound(tx, layouts[i := l])
  {
    hide ParseOf;
    var after := layouts[i := l];
    assert Stored(tx, l) == Stored(tx, layouts[i]);
    forall j, k | 0 <= j < k < |after| ensures !Clash(tx, after[j], after[k]) {
      assert !Clash(tx, layouts[j], layouts[k]);
    }
  }

  lemma AddingUnbound(tx: Locale, layouts: seq<Layout>, l: Layout)
    requires Sound(tx, layouts) && IndexOf(layouts, l.id).None? && l.hotkey == ""
    ensures Sound(tx, layouts + [l])
  {
    hide ParseOf, IndexOf;
  }

  lemma RemovingOne(tx: Locale, layouts: seq<Layout>, i: nat)
    requires Sound(tx, layouts) && i < |layouts|
    ensures Sound(tx, Removed(layouts, i))
  {
    hide Clash;
  }

  lemma AttemptIsSound(tx: Locale, mem: File, e: Event)
    requires HotkeyRoundTrip.LowersNames(tx) && Sound(tx, mem.layouts) && Ordinary(mem, e)
    requires Attempted(tx, mem, e).Some?
    ensures Sound(tx, Attempted(tx, mem, e).value.layouts)
  {
    hide IndexOf, Sound, HotkeyRoundTrip.LowersNames, TrimSpace, AssignmentPasses, ValidVK, Removed, Format;
    if e.SaveLayout? {
      AddingUnbound(tx, mem.layouts, NewLayout(e));
    } else if !e.ToggleMinimize? {
      var i := IndexOf(mem.layouts, e.id).value;
      if e.DeleteLayout? {
        RemovingOne(tx, mem.layouts, i);
      } else if e.AssignHotkey? {
        AssignmentIsSound(tx, mem.layouts, i, e);
      } else {
        KeepingBoth(tx, mem.layouts, i, Changed(tx, mem.layouts, i, e).value);
      }
    }
  }

  lemma AssignmentIsSound(tx: Locale, layouts: seq<Layout>, i: nat, e: Event)
    requires HotkeyRoundTrip.LowersNames(tx) && Sound(tx, layouts) && i < |layouts|
    requires e.AssignHotkey? && (Valid(e.hk) || e.hk == NONE)
    requires AssignmentPasses(tx, layouts, layouts[i], e.hk, e.fpNow, e.granted)
    ensures Sound(tx, layouts[i := layouts[i].(hotkey := Canonical(e.hk), updated := e.now)])
  {
    hide DistinctHotkeys, HotkeyRoundTrip.LowersNames, ValidVK, Format, Stored, HasRival, DistinctIDs;
    var l := layouts[i].(hotkey := Canonical(e.hk), updated := e.now);
    CanonicalIsStored(tx, l, e.hk);
    ReplaceOne(tx, layouts, i, l);
  }

  lemma SoundIgnoresStamps(tx: Locale, f: File, g: File)
    requires SameFile(f, g) && Sound(tx, g.layouts)
    ensures Sound(tx, f.layouts)
  {
    hide ParseOf;
    forall i | 0 <= i < |f.layouts|
      ensures f.layouts[i].id == g.layouts[i].id && f.layouts[i].setup == g.layouts[i].setup
        && f.layouts[i].hotkey == g.layouts[i].hotkey
    {
      StampsHideNothing(f.layouts[i], g.layouts[i]);
    }
    forall i, j | 0 <= i < j < |f.layouts| ensures !Clash(tx, f.layouts[i], f.layouts[j]) {
      assert !Clash(tx, g.layouts[i], g.layouts[j]);
    }
  }

  lemma StampsHideNothing(l: Layout, l': Layout)
    requires SameLayout(l, l')
    ensures l.id == l'.id && l.setup == l'.setup && l.hotkey == l'.hotkey
  {
    assert l.(updated := 0).id == l.id && l'.(updated := 0).id == l'.id;
  }

  lemma ActionKeepsSound(tx: Locale, s: State, e: Event)
    requires HotkeyRoundTrip.LowersNames(tx) && Sound(tx, s.mem.layouts) && Ordinary(s.mem, e)
    ensures Sound(tx, Do(tx, s, e).mem.layouts)
  {
    hide Attempted, RolledBack, Sound, HotkeyRoundTrip.LowersNames, SameFile, ValidVK;
    match Attempted(tx, s.mem, e)
    case None =>
    case Some(_) =>
      AttemptIsSound(tx, s.mem, e);
      RollbackRestores(tx, s.mem, e);
      SoundIgnoresStamps(tx, RolledBack(tx, s.mem, e), s.mem);
  }

  /** In every run of ordinary actions combinations stay pairwise distinct within each setup, so that nothing a user
      assigned is ever dropped as a duplicate. */
  lemma {:induction false} RunsKeepHotkeysDistinct(tx: Locale, s: State, events: seq<Event>)
    requires HotkeyRoundTrip.LowersNames(tx) && Sound(tx, s.mem.layouts) && AllOrdinary(tx, s, events)
    ensures Sound(tx, DoAll(tx, s, events).mem.layouts)
    decreases |events|
  {
    hide Do, Sound, Ordinary, HotkeyRoundTrip.LowersNames;
    if events != [] {
      ActionKeepsSound(tx, s, events[0]);
      RunsKeepHotkeysDistinct(tx, Do(tx, s, events[0]), events[1..]);
    }
  }

  /** Overwriting moves a layout to the current setup without asking who uses its combination there: distinctness
      survives exactly when nobody does. */
  lemma OverwriteKeepsDistinctIffNoRival(tx: Locale, mem: File, e: Event)
    requires Sound(tx, mem.layouts) && e.OverwriteLayout? && IndexOf(mem.layouts, e.id).Some?
    ensures var l := mem.layouts[IndexOf(mem.layouts, e.id).value];
      && Attempted(tx, mem, e).Some?
      && (Sound(tx, Attempted(tx, mem, e).value.layouts) <==>
            Stored(tx, l).None? || !HasRival(tx, mem.layouts, e.setup.fingerprint, Stored(tx, l).value, l.id))
  {
    hide IndexOf, ParseOf, HasRival, DistinctHotkeys, DistinctIDs;
    var i := IndexOf(mem.layouts, e.id).value;
    var l := mem.layouts[i];
    var l' := l.(setup := e.setup, windows := e.windows, updated := e.now);
    assert Stored(tx, l') == Stored(tx, l);
    ReplaceOne(tx, mem.layouts, i, l');
  }

  /** It can fail: two layouts of different setups may share a combination, until one of them is overwritten in the
      other's setup. */
  lemma OverwriteCanBreakDistinctness(tx: Locale, l: Layout, l': Layout, e: Event)
    requires l.id != l'.id && l.setup.fingerprint != l'.setup.fingerprint
    requires Stored(tx, l).Some? && Stored(tx, l') == Stored(tx, l)
    requires e.OverwriteLayout? && e.id == l'.id && e.setup == l.setup && e.saved
    ensures var s := State(File(None, [l, l']), File(None, [l, l']));
      Sound(tx, s.mem.layouts) && !Sound(tx, Do(tx, s, e).mem.layouts)
  {
    hide ParseOf, IndexOf;
    var layouts := [l, l'];
    IndexIs(layouts, e.id, 1);
    var after := layouts[1 := l'.(setup := e.setup, windows := e.windows, updated := e.now)];
    assert Clash(tx, after[0], after[1]);
  }

  // ---- probing before assigning ----

  function ComboFor(hk: Hotkey): HotkeyManager.Combo {
    HotkeyManager.Combo(HotkeyCapture.Win32Mods(hk.mods), hk.key)
  }
}
