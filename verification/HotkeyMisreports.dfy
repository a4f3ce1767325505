/** Inputs on which the program takes its own registration for another application's, or gives a combination out
    twice. */
module HotkeyMisreports {
  import opened Types
  import opened Text
  import opened HotkeyText
  import opened HotkeyTokens
  import opened HotkeySelect
  import opened HotkeyManager
  import opened HotkeyLeaks
  import opened HotkeyLife
  import HotkeyRoundTrip
  import HotkeyRuns
  import Store
  import Actions

  function Bare(id: string, fp: string, hotkey: string): Layout {
    Layout(id, id, 0, 0, Setup(fp, "", []), [], hotkey)
  }

  /** The program has just started on these layouts. */
  function FreshStart(layouts: seq<Layout>): Life {
    Life(Actions.State(File(None, layouts), File(None, layouts)), HotkeyRuns.INITIAL, Sync([], ""))
  }

  /** Neither another application nor a probe holds anything, and still the system refuses hk for this layout. */
  ghost predicate RefusedByItself(tx: Locale, a: Life, id: string, hk: Hotkey, fp: string) {
    && Actions.ReachesProbe(tx, a.store.mem.layouts, id, hk, fp) && !Grants(a.keys, Actions.ComboFor(hk))
    && a.keys.foreign == {} && PROBE_ID !in a.keys.own
  }

  lemma BareIsStored(tx: Locale, id: string, fp: string, hk: Hotkey)
    requires HotkeyRoundTrip.LowersNames(tx) && Valid(hk)
    ensures Stored(tx, Bare(id, fp, Canonical(hk))) == Some(hk)
  {
    hide ValidVK, Format, Stored, HotkeyRoundTrip.LowersNames;
    Actions.CanonicalIsStored(tx, Bare(id, fp, Canonical(hk)), hk);
  }

  lemma OneBindingHeld(tx: Locale, layouts: seq<Layout>, fp: string, i: nat, hk: Hotkey)
    requires DistinctIDs(layouts) && i < |layouts| && Binds(tx, layouts[i], fp, hk)
    ensures var s := Resync(HotkeyRuns.INITIAL, ActiveOf(tx, layouts, fp, |layouts|));
      !Grants(s, Actions.ComboFor(hk)) && s.foreign == {} && PROBE_ID !in s.own
  {
    hide ActiveOf, Binds, RegisterFrom, DistinctIDs, DistinctBindings, HotkeyRuns.DistinctLayouts,
      HotkeyRuns.IsRegistered, Reflects;
    var bs := ActiveOf(tx, layouts, fp, |layouts|);
    var s := Resync(HotkeyRuns.INITIAL, bs);
    ActiveIsDistinct(tx, layouts, fp, |layouts|);
    HotkeyRuns.ActiveLayoutsDistinct(tx, layouts, fp, |layouts|);
    ActiveCovers(tx, layouts, fp, i, hk);
    var n: nat :| n < |bs| && bs[n].hotkey == hk;
    SyncPartitionsActiveAnyway(HotkeyRuns.INITIAL, bs, n);
    ResyncReflects(HotkeyRuns.INITIAL, bs);
    HeldForBinding(s, bs, ComboOf(bs[n]));
    ValuesAreHeld(s.own, ComboOf(bs[n]));
    ProbeNotHeld(bs);
  }

  lemma ProbeNotHeld(bs: seq<Binding>)
    ensures PROBE_ID !in Resync(HotkeyRuns.INITIAL, bs).own
  {
    hide RegisterFrom, FromBinding;
    RegisterFromShape(Released(HotkeyRuns.INITIAL), bs, {}, {}, |bs|);
  }

  /** When a display change goes unnoticed because the monitors cannot be listed, the old setup's registrations stay. A
      layout of the new setup is then refused the combination a layout of the old setup has, although every text is
      canonical. */
  lemma SkippedSyncRefusesOwn(tx: Locale, hk: Hotkey)
    requires HotkeyRoundTrip.LowersNames(tx) && Valid(hk)
    ensures var start := FreshStart([Bare("a", "one", Canonical(hk)), Bare("b", "two", "")]);
      var events := [DisplayChange(Some("one")), DisplayChange(None)];
      Started(start) && Tidy(tx, start.store.mem.layouts) && Possible(tx, start, events)
        && RefusedByItself(tx, Outcome(tx, start, events), "b", hk, "two")
  {
    hide *;
    var l, l' := Bare("a", "one", Canonical(hk)), Bare("b", "two", "");
    BareFields("a", "one", Canonical(hk));
    BareFields("b", "two", "");
    assert "a"[0] != "b"[0] && "one"[0] != "two"[0];
    BareIsStored(tx, "a", "one", hk);
    TwoSetups(tx, l, l', hk);
    SyncThenSkip(tx, FreshStart([l, l']), "one");
  }

  lemma BareFields(id: string, fp: string, hotkey: string)
    ensures Bare(id, fp, hotkey).id == id && Bare(id, fp, hotkey).setup.fingerprint == fp
      && Bare(id, fp, hotkey).hotkey == hotkey
  {}

  lemma TwoSetups(tx: Locale, l: Layout, l': Layout, hk: Hotkey)
    requires l.id != l'.id && l.setup.fingerprint != l'.setup.fingerprint && l'.hotkey == "" && Valid(hk)
    requires Stored(tx, l) == Some(hk) && l.hotkey == Canonical(hk)
    ensures var start := FreshStart([l, l']);
      Started(start) && Tidy(tx, start.store.mem.layouts)
      && RefusedByItself(tx, Synced(tx, start, l.setup.fingerprint), l'.id, hk, l'.setup.fingerprint)
  {
    hide Resync, ActiveOf, Stored, Format, ValidVK, Store.IndexOf, RefusedByItself, Actions.ReachesProbe;
    var layouts, fp := [l, l'], l.setup.fingerprint;
    NothingStored(tx, l');
    assert Binds(tx, layouts[0], fp, hk);
    OneBindingHeld(tx, layouts, fp, 0, hk);
    UnboundReachesProbe(tx, l, l', hk);
    ReachesAndRefused(tx, Synced(tx, FreshStart(layouts), fp), l'.id, hk, l'.setup.fingerprint);
  }

  lemma NothingStored(tx: Locale, l: Layout)
    requires l.hotkey == ""
    ensures Stored(tx, l) == None && Actions.CurrentHotkey(tx, l) == NONE
  {
    BlankIffAllSpace("");
  }

  lemma SyncThenSkip(tx: Locale, start: Life, fp: string)
    ensures var events := [DisplayChange(Some(fp)), DisplayChange(None)];
      Possible(tx, start, events) && Outcome(tx, start, events) == Synced(tx, start, fp)
  {
    hide Synced;
    var events := [DisplayChange(Some(fp)), DisplayChange(None)];
    assert events[1..] == [DisplayChange(None)] && events[1..][1..] == [];
    assert Possible(tx, Synced(tx, start, fp), []) && Possible(tx, Synced(tx, start, fp), events[1..]);
    assert Outcome(tx, Synced(tx, start, fp), events[1..]) == Outcome(tx, Synced(tx, start, fp), []);
  }

  lemma SyncOnly(tx: Locale, start: Life, fp: string)
    ensures var events := [DisplayChange(Some(fp))];
      Possible(tx, start, events) && Outcome(tx, start, events) == Synced(tx, start, fp)
  {
    hide Synced;
    assert [DisplayChange(Some(fp))][1..] == [];
    assert Possible(tx, Synced(tx, start, fp), []) && Outcome(tx, Synced(tx, start, fp), []) == Synced(tx, start, fp);
  }

  lemma UnboundReachesProbe(tx: Locale, l: Layout, l': Layout, hk: Hotkey)
    requires l.id != l'.id && l.setup.fingerprint != l'.setup.fingerprint && l'.hotkey == "" && hk.mods != {}
    ensures Actions.ReachesProbe(tx, [l, l'], l'.id, hk, l'.setup.fingerprint)
  {
    hide Stored, Format, Store.IndexOf, Actions.CurrentHotkey;
    NothingStored(tx, l');
    Store.IndexIs([l, l'], l'.id, 1);
  }

  lemma ReachesAndRefused(tx: Locale, a: Life, id: string, hk: Hotkey, fp: string)
    requires Actions.ReachesProbe(tx, a.store.mem.layouts, id, hk, fp) && !Grants(a.keys, Actions.ComboFor(hk))
    requires a.keys.foreign == {} && PROBE_ID !in a.keys.own
    ensures RefusedByItself(tx, a, id, hk, fp)
  {
    hide Grants;
  }

  /** Two layouts of different setups share a combination, and overwriting one in the other's setup leaves that setup
      with the combination twice. */
  lemma OverwriteBreaksDistinctness(tx: Locale, hk: Hotkey)
    requires HotkeyRoundTrip.LowersNames(tx) && Valid(hk)
    ensures var start := FreshStart([Bare("a", "one", Canonical(hk)), Bare("b", "two", Canonical(hk))]).store;
      var e := Actions.OverwriteLayout("b", Setup("one", "", []), [], 0, true);
      Actions.Sound(tx, start.mem.layouts) && !Actions.Sound(tx, Actions.Do(tx, start, e).mem.layouts)
  {
    hide Stored, Format, ValidVK, HotkeyRoundTrip.LowersNames, Store.IndexOf, Actions.Sound, Actions.Do;
    var l, l' := Bare("a", "one", Canonical(hk)), Bare("b", "two", Canonical(hk));
    assert "a"[0] != "b"[0] && "one"[0] != "two"[0];
    BareIsStored(tx, "a", "one", hk);
    BareIsStored(tx, "b", "two", hk);
    Actions.OverwriteCanBreakDistinctness(tx, l, l', Actions.OverwriteLayout("b", Setup("one", "", []), [], 0, true));
  }

  // ---- text that is not canonical ----

  const CTRL_ALT_1 := Hotkey({Ctrl, Alt}, 0x31)

  lemma OtherOrderParses(tx: Locale)
    requires HotkeyRoundTrip.LowersNames(tx)
    ensures ParseOf(tx, "Alt+Ctrl+1") == Ok(CTRL_ALT_1) && Canonical(CTRL_ALT_1) == "Ctrl+Alt+1"
  {
    hide ParseOf, HotkeyRoundTrip.LowersNames, TrimSpace, MeaningOf;
    CanonicalText1();
    HotkeyRoundTrip.PrintThenParse(tx, CTRL_ALT_1, false);
    var chain := [["Alt", "Ctrl", "1"], ["Ctrl", "Alt", "1"]];
    var runs := ["", "+", "+", ""];
    assert Respelled(tx, chain[0], chain[1]);
    TwoSpellings(runs);
    NotBlank("Alt+Ctrl+1");
    NotBlank("Ctrl+Alt+1");
    SpellingDoesNotMatter(tx, chain, runs, runs);
  }

  lemma NotBlank(s: string)
    requires s != "" && 'A' <= s[0] <= 'Z'
    ensures TrimSpace(s) != ""
  {
    BlankIffAllSpace(s);
  }

  lemma CanonicalText1()
    ensures Canonical(CTRL_ALT_1) == "Ctrl+Alt+1" && Valid(CTRL_ALT_1)
  {
    var parts := ["Ctrl", "Alt", "1"];
    assert ModParts({Ctrl, Alt}, false) + [KeyName(0x31, false)] == parts;
    assert parts[1..] == ["Alt", "1"] && parts[1..][1..] == ["1"];
  }

  lemma TwoSpellings(runs: seq<string>)
    requires runs == ["", "+", "+", ""]
    ensures SplitsInto(runs, ["Alt", "Ctrl", "1"]) && Spell(runs, ["Alt", "Ctrl", "1"]) == "Alt+Ctrl+1"
    ensures SplitsInto(runs, ["Ctrl", "Alt", "1"]) && Spell(runs, ["Ctrl", "Alt", "1"]) == "Ctrl+Alt+1"
  {
    OneSpelling("Alt", "Ctrl");
    OneSpelling("Ctrl", "Alt");
  }

  lemma OneSpelling(t: string, u: string)
    requires IsToken(t) && IsToken(u)
    ensures SplitsInto(["", "+", "+", ""], [t, u, "1"])
    ensures Spell(["", "+", "+", ""], [t, u, "1"]) == t + "+" + u + "+1"
  {
    hide IsToken;
    var runs, tokens := ["", "+", "+", ""], [t, u, "1"];
    assert IsToken("1") by {
      OneIsToken();
    }
    assert runs[1..] == ["+", "+", ""] && runs[1..][1..] == ["+", ""] && runs[1..][1..][1..] == [""];
    assert tokens[1..] == [u, "1"] && tokens[1..][1..] == ["1"] && tokens[1..][1..][1..] == [];
    assert Spell([""], []) == "";
    assert Spell(["+", ""], ["1"]) == "+1";
    assert Spell(["+", "+", ""], [u, "1"]) == "+" + (u + "+1");
  }

  lemma OneIsToken()
    ensures IsToken("1")
  {}

  /** A combination stored by hand in another order is refused when its own layout is assigned it again: the guard
      compares texts, and the layout's own registration is in the way. */
  lemma OtherOrderRefusesOwn(tx: Locale)
    requires HotkeyRoundTrip.LowersNames(tx)
    ensures var start := FreshStart([Bare("a", "one", "Alt+Ctrl+1")]);
      var events := [DisplayChange(Some("one"))];
      Started(start) && Possible(tx, start, events)
        && RefusedByItself(tx, Outcome(tx, start, events), "a", CTRL_ALT_1, "one")
  {
    hide Resync, ActiveOf, ParseOf, Format, HotkeyRoundTrip.LowersNames, Store.IndexOf, RefusedByItself, Possible,
      Outcome;
    var l := Bare("a", "one", "Alt+Ctrl+1");
    OtherOrderParses(tx);
    assert "Alt+Ctrl+1"[0] != "Ctrl+Alt+1"[0];
    assert Binds(tx, [l][0], "one", CTRL_ALT_1);
    OneBindingHeld(tx, [l], "one", 0, CTRL_ALT_1);
    Store.IndexIs([l], "a", 0);
    ReachesAndRefused(tx, Synced(tx, FreshStart([l]), "one"), "a", CTRL_ALT_1, "one");
    SyncOnly(tx, FreshStart([l]), "one");
  }
}
