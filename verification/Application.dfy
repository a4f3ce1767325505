/** The action handlers as the program runs them: the store is changed in place, saved, and rolled back when saving
    fails. */
module Application {
  import opened Types
  import opened Text
  import opened HotkeyText
  import opened HotkeySelect
  import HotkeyCapture
  import HotkeyRoundTrip
  import opened HotkeyManager
  import opened Store
  import opened SliceDelete
  import opened Actions
  import Capture
  import Matching

  datatype Dialog = Cancelled | Cleared | Pressed(bits: bv32, vk: nat)

  /** The combination a finished capture dialog asks for, if it asks for an acceptable one. */
  function Asked(d: Dialog): Option<Hotkey> {
    match d
    case Cancelled => None
    case Cleared => Some(NONE)
    case Pressed(bits, vk) =>
      match FromKeys(HotkeyCapture.HotkeyMods(bits), vk)
      case Refused(_) => None
      case Accepted(h) => Some(h)
  }

  class Application {
    const store: Store
    const manager: Manager

    constructor (store: Store, manager: Manager)
      ensures this.store == store && this.manager == manager
    {
      this.store, this.manager := store, manager;
    }

    ghost function Snapshot(): Actions.State
      requires store.Valid()
      reads store, store.layouts, store.fs
    {
      Actions.State(store.Contents(), store.OnDisk())
    }

    /** A temp file name no file has yet. */
    ghost predicate Unused(temp: string)
      reads store.fs
    {
      temp != store.path && temp !in store.fs.files
    }

    method ActionSave(tx: Locale, input: Option<string>, id: string, setup: Setup, live: seq<Live>, now: int,
                      faults: Faults, temp: string)
      requires store.Valid() && Unused(temp)
      modifies store, store.layouts, store.fs
      ensures store.Valid()
      ensures Snapshot() == Do(tx, old(Snapshot()), SaveLayout(input, id, setup,
        Capture.Entries(tx, Matching.Eligibles(live)), now, !SaveFails(faults)))
    {
      hide IndexOf, TrimSpace, SaveFails, OldOrNew, OnlyOldOrNew;
      if input.None? {
        return;
      }
      var name := TrimSpace(input.value);
      if name == "" {
        return;
      }
      var windows := Capture.Capture(tx, live);
      ghost var before := store.Contents().layouts;
      store.Add(Layout(id, name, now, now, setup, windows, ""));
      assert store.Contents().layouts[|before|].id == id;
      var saved := store.Save(faults, temp);
      if !saved {
        var undone := store.Delete(id);
      }
    }

    method ActionRename(tx: Locale, id: string, input: Option<string>, now: int, faults: Faults, temp: string)
      requires store.Valid() && Unused(temp)
      modifies store, store.layouts, store.fs
      ensures store.Valid() && Snapshot() == Do(tx, old(Snapshot()), RenameLayout(id, input, now, !SaveFails(faults)))
    {
      hide IndexOf, TrimSpace, SaveFails, OldOrNew, OnlyOldOrNew;
      var l := store.Get(id);
      if l.None? || input.None? {
        return;
      }
      var name := TrimSpace(input.value);
      if name == "" || name == l.value.name {
        return;
      }
      ReplaceAndSave(id, l.value, l.value.(name := name, updated := now), faults, temp);
    }

    /** Replaces the layout, saves, and puts the old one back when saving fails. */
    method ReplaceAndSave(id: string, old': Layout, l: Layout, faults: Faults, temp: string)
      requires store.Valid() && Unused(temp) && l.id == id
      requires IndexOf(store.Contents().layouts, id).Some?
        && store.Contents().layouts[IndexOf(store.Contents().layouts, id).value] == old'
      modifies store, store.layouts, store.fs
      ensures var mem := old(store.Contents());
        var changed := mem.(layouts := mem.layouts[IndexOf(mem.layouts, id).value := l]);
        store.Valid() && Snapshot() == if SaveFails(faults) then old(Snapshot()) else Actions.State(changed, changed)
    {
      hide IndexOf, SaveFails, OldOrNew, OnlyOldOrNew;
      ghost var mem := store.Contents();
      ghost var i := IndexOf(mem.layouts, id).value;
      var replaced := store.Replace(id, l);
      var saved := store.Save(faults, temp);
      if !saved {
        IndexIs(store.Contents().layouts, id, i);
        var undone := store.Replace(id, old');
        assert mem.layouts[i := l][i := old'] == mem.layouts;
      }
    }

    method ActionOverwrite(tx: Locale, id: string, setup: Setup, live: seq<Live>, now: int, faults: Faults,
                           temp: string)
      requires store.Valid() && Unused(temp)
      modifies store, store.layouts, store.fs
      ensures store.Valid()
      ensures Snapshot() == Do(tx, old(Snapshot()), OverwriteLayout(id, setup,
        Capture.Entries(tx, Matching.Eligibles(live)), now, !SaveFails(faults)))
    {
      hide IndexOf, SaveFails, OldOrNew, OnlyOldOrNew;
      var l := store.Get(id);
      if l.None? {
        return;
      }
      var windows := Capture.Capture(tx, live);
      ReplaceAndSave(id, l.value, l.value.(setup := setup, windows := windows, updated := now), faults, temp);
    }

    method ActionToggleInclude(tx: Locale, id: string, windowIdx: int, now: int, rollbackNow: int, faults: Faults,
                               temp: string)
      returns (reopen: bool)
      requires store.Valid() && Unused(temp)
      modifies store, store.layouts, store.fs
      ensures store.Valid()
      ensures Snapshot() ==
        Do(tx, old(Snapshot()), Event.ToggleInclude(id, windowIdx, now, rollbackNow, !SaveFails(faults)))
      ensures reopen == (!SaveFails(faults)
        && Attempted(tx, old(store.Contents()), Event.ToggleInclude(id, windowIdx, now, rollbackNow, true)).Some?)
    {
      hide IndexOf, SaveFails, OldOrNew, OnlyOldOrNew;
      ghost var mem := store.Contents();
      var l := store.Get(id);
      if l.None? || windowIdx < 0 || windowIdx >= |l.value.windows| {
        return false;
      }
      var current := l.value.windows[windowIdx].ticked;
      var set1 := store.SetInclude(id, windowIdx, !current, now);
      var saved := store.Save(faults, temp);
      if !saved {
        ghost var i := IndexOf(mem.layouts, id).value;
        IndexIs(store.Contents().layouts, id, i);
        var undone := store.SetInclude(id, windowIdx, current, rollbackNow);
        UntickUndoes(l.value, windowIdx, now, rollbackNow);
        assert mem.layouts[i := Ticked(l.value, windowIdx, !current, now)][i := l.value.(updated := rollbackNow)]
            == mem.layouts[i := l.value.(updated := rollbackNow)];
        return false;
      }
      return true;
    }

    method ActionToggleMinimize(tx: Locale, faults: Faults, temp: string) returns (reopen: bool)
      requires store.Valid() && Unused(temp)
      modifies store, store.layouts, store.fs
      ensures store.Valid() && Snapshot() == Do(tx, old(Snapshot()), ToggleMinimize(!SaveFails(faults)))
        && reopen == !SaveFails(faults)
    {
      hide IndexOf, SaveFails, OldOrNew, OnlyOldOrNew;
      var current := Minimizes(store.Contents());
      store.SetMinimizeOthers(!current);
      reopen := store.Save(faults, temp);
      if !reopen {
        store.SetMinimizeOthers(current);
      }
    }

    method ActionDelete(tx: Locale, id: string, confirmed: bool, faults: Faults, temp: string)
      requires store.Valid() && Unused(temp)
      modifies store, store.layouts, store.fs
      ensures store.Valid() && Snapshot() == Do(tx, old(Snapshot()), DeleteLayout(id, confirmed, !SaveFails(faults)))
    {
      hide IndexOf, SaveFails, OldOrNew, OnlyOldOrNew, Shifted, Drained, Removed;
      var l := store.Get(id);
      if l.None? || !confirmed {
        return;
      }
      var order := CopyOfOrder();
      var deleted := store.Delete(id);
      var saved := store.Save(faults, temp);
      if !saved {
        RestoreOrder(order, order.Length);
      }
    }

    /** A copy of the list in an array of its own. */
    method CopyOfOrder() returns (order: array<Layout>)
      requires store.Valid()
      ensures fresh(order) && order[..] == store.Contents().layouts
    {
      order := new Layout[store.count](k requires 0 <= k < store.count && store.Valid() reads store, store.layouts =>
        store.layouts[k]);
      assert order[..] == store.Contents().layouts;
    }

    /** Deletes every layout and adds the first n of the given ones, using nothing but the store's own operations. The
        order comes back as it was given, unless it lies in the store's own backing array, which the deletions shift. */
    method RestoreOrder(order: array<Layout>, n: nat)
      requires store.Valid() && n <= order.Length
      modifies store`layouts, store`count, store.layouts
      ensures store.Valid() && store.minimizeOthers == old(store.minimizeOthers)
      ensures store.Contents().layouts
           == (if order == old(store.layouts) then Drained(old(store.layouts[..]), old(store.count))
             else old(order[..]))[..n]
    {
      RemoveAll();
      AddAll(order, n);
    }

    method RemoveAll()
      requires store.Valid()
      modifies store`count, store.layouts
      ensures store.count == 0 && store.layouts[..] == Drained(old(store.layouts[..]), old(store.count))
    {
      hide IndexOf, Drained, Shifted, Removed;
      var currentIDs := seq(store.count, k requires 0 <= k < store.count && store.Valid() reads store, store.layouts =>
        store.layouts[k].id);
      ghost var start, before := store.layouts[..], store.Contents().layouts;
      for i := 0 to |currentIDs|
        invariant store.Valid() && store.count == |before| - i
        invariant store.Contents().layouts == before[i..]
        invariant Drained(start, |before|) == Drained(store.layouts[..], store.count)
      {
        ghost var now, m := store.layouts[..], store.count;
        assert store.Contents().layouts == now[..m] && store.layouts[m..] == now[m..];
        IndexIs(before[i..], currentIDs[i], 0);
        DrainStep(now, m);
        RemovedFront(before, i);
        var deleted := store.Delete(currentIDs[i]);
      }
      NothingToDrain(store.layouts[..]);
    }

    method AddAll(order: array<Layout>, n: nat)
      requires store.Valid() && store.count == 0 && n <= order.Length
      modifies store`layouts, store`count, store.layouts
      ensures store.Valid() && store.Contents() == File(old(store.minimizeOthers), old(order[..n]))
    {
      ghost var given, home := order[..], store.layouts;
      for i := 0 to n
        invariant store.Valid() && store.minimizeOthers == old(store.minimizeOthers)
        invariant store.layouts == home || fresh(store.layouts)
        invariant order[..] == given && store.count == i && store.Contents().layouts == given[..i]
      {
        store.Add(order[i]);
        assert given[..i + 1] == given[..i] + [given[i]];
      }
    }

    /** Assigns, changes or clears one layout's hotkey. fpNow is None when the monitors cannot be listed. A
        combination is probed before anything is persisted. */
    method ActionHotkey(tx: Locale, id: string, dialog: Dialog, fpNow: Option<string>, now: int, faults: Faults,
                        temp: string)
      requires store.Valid() && Unused(temp)
      modifies store, store.layouts, store.fs, manager`probeReleasePending, manager.backend`own
      ensures store.Valid() && Snapshot() == (match Asked(dialog)
        case None => old(Snapshot())
        case Some(hk) =>
          if fpNow.None? then old(Snapshot())
          else Do(tx, old(Snapshot()),
                  Event.AssignHotkey(id, hk, fpNow.value, Grants(old(manager.Snapshot()), ComboFor(hk)), now,
                                     !SaveFails(faults))))
      ensures manager.Snapshot() ==
        if Asked(dialog).Some? && fpNow.Some?
          && ReachesProbe(tx, old(store.Contents().layouts), id, Asked(dialog).value, fpNow.value)
        then AfterProbe(old(manager.Snapshot()), ComboFor(Asked(dialog).value)) else old(manager.Snapshot())
    {
      hide IndexOf, SaveFails, OldOrNew, OnlyOldOrNew, ParseOf, FromKeys, HotkeyCapture.HotkeyMods,
        HotkeyCapture.Win32Mods, Format, AfterProbe, HasRival, Rivals;
      var got := store.Get(id);
      if got.None? {
        return;
      }
      var l := got.value;
      var parsed := ParseOf(tx, l.hotkey);
      var current := if parsed.Ok? then parsed.h else NONE;
      var asked := Asked(dialog);
      if asked.None? {
        return;
      }
      var hk := asked.value;
      if hk == current && Canonical(hk) == l.hotkey {
        return;
      }
      if !IsZero(hk) {
        var other := Conflict(tx, store.Contents().layouts, l.setup.fingerprint, hk, l.id);
        if other.Some? {
          return;
        }
      }
      if fpNow.None? {
        return;
      }
      if !IsZero(hk) && l.setup.fingerprint == fpNow.value {
        var granted := manager.Probe(ComboFor(hk));
        if !granted {
          return;
        }
      }
      ReplaceAndSave(id, l, l.(hotkey := Canonical(hk), updated := now), faults, temp);
    }
  }

  lemma DrainStep(a: seq<Layout>, m: nat)
    requires 0 < m <= |a|
    ensures Drained(a, m) == Drained(Shifted(a[..m], 0) + a[m..], m - 1)
  {}

  lemma RemovedFront(s: seq<Layout>, i: nat)
    requires i < |s|
    ensures Removed(s[i..], 0) == s[i + 1..]
  {}

  lemma NothingToDrain(a: seq<Layout>)
    ensures Drained(a, 0) == a
  {}

  /** A cancelled dialog asks for nothing, clearing asks for no hotkey, and a pressed combination for itself,
      provided some text stands for it. */
  lemma AskedMeans(tx: Locale, bits: bv32, vk: nat, h: Hotkey)
    requires HotkeyRoundTrip.LowersNames(tx)
    ensures Asked(Cancelled) == None && Asked(Cleared) == Some(Hotkey({}, 0))
    ensures Asked(Pressed(bits, vk)) == Some(h) <==>
      h == Hotkey(HotkeyCapture.HotkeyMods(bits), vk) && h != NONE && exists t :: ParseOf(tx, t) == Ok(h)
  {
    hide ParseOf, ValidVK, HotkeyRoundTrip.LowersNames, HotkeyCapture.HotkeyMods;
    HotkeyCapture.CaptureAgreesWithParse(tx, bits, vk);
  }

  lemma UntickUndoes(l: Layout, w: nat, now: int, later: int)
    requires w < |l.windows|
    ensures Ticked(Ticked(l, w, !l.windows[w].ticked, now), w, l.windows[w].ticked, later) == l.(updated := later)
  {
    assert l.windows[w := l.windows[w].(ticked := !l.windows[w].ticked)][w := l.windows[w]] == l.windows;
  }
}
