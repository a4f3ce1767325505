/** What a built menu shows: the layouts of the current setup on top, the others in their submenu, and in each row
    the saved windows with their ticks. */
module MenuShape {
  import opened Types
  import opened Text
  import opened Sequences
  import opened Menu
  import opened BuildMenu
  import Decimal
  import HotkeyText
  import HotkeySelect
  import Matching

  predicate InSetup(layouts: seq<Layout>, fp: string, same: bool, k: nat) {
    k < |layouts| && (layouts[k].setup.fingerprint == fp) == same
  }

  /** The layouts among the first n whose fingerprint is (or is not) fp, in store order. */
  function Positions(layouts: seq<Layout>, fp: string, same: bool, n: nat): seq<nat> {
    Where(n, (k: nat) => InSetup(layouts, fp, same, k))
  }

  lemma PositionsAre(layouts: seq<Layout>, fp: string, same: bool)
    ensures var ps := Positions(layouts, fp, same, |layouts|);
      Increasing(ps) && forall k: nat :: k in ps <==> k < |layouts| && (layouts[k].setup.fingerprint == fp) == same
  {
    WhereIs(|layouts|, (k: nat) => InSetup(layouts, fp, same, k));
  }

  // ---- one row ----

  /** Some open window matches saved window w of the layout. */
  ghost predicate IsOpen(tx: Locale, l: Layout, live: seq<Live>, w: nat) {
    exists x :: x in Matching.PlanOf(tx, l.windows, live).matches && x.index == w
  }

  /** A window's row: checked exactly when it is ticked, disabled and marked exactly when no open window matches it. */
  ghost predicate WindowRow(tx: Locale, l: Layout, live: seq<Live>, w: nat, it: Item)
    requires w < |l.windows|
  {
    && it.checked == l.windows[w].ticked && (it.disabled <==> !IsOpen(tx, l, live, w))
    && it.action == Action(ToggleInclude, l.id, w) && !it.separator && it.children == []
    && it.caption == tx.fileName(l.windows[w].exe) + " — " + l.windows[w].title
                     + if it.disabled then "  (nicht offen)" else ""
  }

  /** The text is the name with its tabs made blanks, followed by the accelerator. */
  predicate Captioned(text: string, name: string, accelerator: string) {
    && |text| == |name| + |accelerator| && text[|name|..] == accelerator
    && forall i :: 0 <= i < |name| ==> text[i] == if name[i] == '\t' then ' ' else name[i]
  }

  /** The combination in German behind a tab, if the layout has one, marked when it could not be registered. */
  function Shortcut(tx: Locale, l: Layout, unavailable: bool): string {
    match HotkeySelect.Stored(tx, l)
    case None => ""
    case Some(hk) => "\t" + HotkeyText.Label(hk) + if unavailable then " (belegt)" else ""
  }

  /** A layout's row: its name with the shortcut in the current setup, with the setup's name elsewhere; below it the
      command to restore everything, the saved windows in order, and the commands to manage it. */
  ghost predicate LayoutRow(tx: Locale, x: Input, l: Layout, current: bool, it: Item) {
    && !it.separator && !it.checked && !it.disabled && it.action == Action(Restore, l.id, 0)
    && Captioned(it.caption, if current || l.setup.caption == "" then l.name else l.name + " (" + l.setup.caption + ")",
                 if current then Shortcut(tx, l, l.id in x.unavailable) else "")
    && ChildRows(tx, l, x.live, l.id in x.unavailable, it.children)
  }

  /** What can be done with the layout itself. */
  predicate ManagementRows(tx: Locale, l: Layout, unavailable: bool, items: seq<Item>) {
    && |items| == 5 && items[0].separator
    && IsCommand(items[1], "Mit aktuellem Stand überschreiben", Action(Overwrite, l.id, 0))
    && IsCommand(items[2], "Umbenennen…", Action(Rename, l.id, 0))
    && IsCommand(items[3], HotkeyCommand(tx, l, unavailable), Action(AssignHotkey, l.id, 0))
    && IsCommand(items[4], "Löschen", Action(Delete, l.id, 0))
  }

  function HotkeyCommand(tx: Locale, l: Layout, unavailable: bool): string {
    match HotkeySelect.Stored(tx, l)
    case None => "Hotkey …"
    case Some(hk) => "Hotkey: " + HotkeyText.Label(hk) + (if unavailable then " (belegt)" else "") + " …"
  }

  /** A plain command. */
  predicate IsCommand(it: Item, caption: string, action: Action) {
    it.caption == caption && it.action == action && !it.separator && it.children == [] && !it.disabled
  }

  ghost predicate ChildRows(tx: Locale, l: Layout, live: seq<Live>, unavailable: bool, children: seq<Item>) {
    && |children| == 1 + (if l.windows == [] then 0 else 1 + |l.windows|) + 5
    && children[0].action == Action(Restore, l.id, 0) && children[0].caption == "Alle wiederherstellen"
    && ManagementRows(tx, l, unavailable, children[|children| - 5..])
    && forall w: nat :: w < |l.windows| ==> WindowRowAt(tx, l, live, w, children)
  }

  ghost predicate WindowRowAt(tx: Locale, l: Layout, live: seq<Live>, w: nat, children: seq<Item>) {
    w < |l.windows| && 2 + w < |children| && WindowRow(tx, l, live, w, children[2 + w])
  }

  lemma {:induction false} WindowItemAt(tx: Locale, l: Layout, present: set<nat>, n: nat, w: nat)
    requires w < n <= |l.windows|
    ensures |WindowItems(tx, l, present, n)| == n
    ensures WindowItems(tx, l, present, n)[w] == WindowItem(tx, l, w, w in present)
    decreases n
  {
    hide WindowItem;
    if w < n - 1 {
      WindowItemAt(tx, l, present, n - 1, w);
    } else if n > 1 {
      WindowItemAt(tx, l, present, n - 1, 0);
    }
  }

  lemma OpenIsPresent(tx: Locale, l: Layout, live: seq<Live>, w: nat)
    ensures w in Present(tx, l, live) <==> IsOpen(tx, l, live, w)
  {
    hide Matching.PlanOf, Present;
    PresentAreMatched(tx, l, live);
    assert Mentions(Matching.PlanOf(tx, l.windows, live).matches, w) <==> w in Present(tx, l, live);
  }

  lemma WindowItemIsRow(tx: Locale, l: Layout, live: seq<Live>, w: nat)
    requires w < |l.windows|
    ensures WindowRow(tx, l, live, w, WindowItem(tx, l, w, w in Present(tx, l, live)))
  {
    hide Present, IsOpen;
    OpenIsPresent(tx, l, live, w);
  }

  lemma WindowItemsCount(tx: Locale, l: Layout, present: set<nat>)
    ensures |WindowItems(tx, l, present, |l.windows|)| == |l.windows|
  {
    if l.windows != [] {
      WindowItemAt(tx, l, present, |l.windows|, 0);
    }
  }

  lemma ManagementIs(tx: Locale, l: Layout, unavailable: bool)
    ensures ManagementRows(tx, l, unavailable, Management(tx, l, unavailable))
  {
    hide HotkeySelect.Stored, HotkeyText.Label;
    match HotkeySelect.Stored(tx, l)
    case None =>
    case Some(hk) =>
      var shown := HotkeyText.Label(hk);
      assert "Hotkey: " + shown + "" + " …" == "Hotkey: " + shown + " …";
      assert "Hotkey: " + shown + " (belegt)" + " …" == "Hotkey: " + shown + " (belegt) …";
  }

  lemma ChildrenAre(tx: Locale, l: Layout, live: seq<Live>, unavailable: bool)
    ensures ChildRows(tx, l, live, unavailable, LayoutChildren(tx, l, live, unavailable))
  {
    hide Present, WindowItems, HotkeyEntryCaption, WindowRow, WindowItem, ManagementRows;
    var listed, children := WindowItems(tx, l, Present(tx, l, live), |l.windows|),
      LayoutChildren(tx, l, live, unavailable);
    WindowItemsCount(tx, l, Present(tx, l, live));
    ManagementIs(tx, l, unavailable);
    assert children[|children| - 5..] == Management(tx, l, unavailable);
    forall w: nat | w < |l.windows| ensures WindowRowAt(tx, l, live, w, children) {
      WindowItemAt(tx, l, Present(tx, l, live), |l.windows|, w);
      WindowItemIsRow(tx, l, live, w);
      assert children[2 + w] == listed[w];
    }
  }

  lemma CaptionIs(tx: Locale, l: Layout, suffix: string, current: bool, unavailable: bool)
    ensures Captioned(RowCaption(tx, l, suffix, current, unavailable),
                      if suffix == "" then l.name else l.name + " (" + suffix + ")",
                      if current then Shortcut(tx, l, unavailable) else "")
  {
    hide Shortcut, Captioned, Accelerator, NoTabs;
    var name := if suffix == "" then l.name else l.name + " (" + suffix + ")";
    ShortcutIs(tx, l, unavailable);
    UntabbedIs(name, if current then Shortcut(tx, l, unavailable) else "");
    var accelerator := Accelerator(tx, l, unavailable);
    assert NoTabs(name) + "" == NoTabs(name);
    assert NoTabs(name) + "\t" + accelerator == NoTabs(name) + ("\t" + accelerator);
  }

  lemma ShortcutIs(tx: Locale, l: Layout, unavailable: bool)
    ensures Shortcut(tx, l, unavailable)
         == if Accelerator(tx, l, unavailable) == "" then "" else "\t" + Accelerator(tx, l, unavailable)
  {
    hide HotkeySelect.Stored, HotkeyText.Label;
    match HotkeySelect.Stored(tx, l)
    case None =>
    case Some(hk) => LabelShows(tx, l, hk);
  }

  lemma UntabbedIs(name: string, accelerator: string)
    ensures Captioned(NoTabs(name) + accelerator, name, accelerator)
  {}

  lemma {:induction false} JoinIsNotEmpty(parts: seq<string>, sep: string)
    requires parts != [] && parts[|parts| - 1] != ""
    ensures Decimal.Join(parts, sep) != ""
    decreases |parts|
  {
    if |parts| > 1 {
      JoinIsNotEmpty(parts[1..], sep);
    }
  }

  lemma NameIsNotEmpty(vk: nat)
    ensures HotkeyText.KeyName(vk, true) != ""
  {
    hide Decimal.Text, HotkeyText.Hex, HotkeyText.NamedByCode;
  }

  /** A stored combination has a label to show. */
  lemma LabelShows(tx: Locale, l: Layout, hk: HotkeyText.Hotkey)
    requires HotkeySelect.Stored(tx, l) == Some(hk)
    ensures HotkeyText.Label(hk) != ""
  {
    hide HotkeyText.KeyName, HotkeyText.ParseOf;
    NameIsNotEmpty(hk.key);
    JoinIsNotEmpty(HotkeyText.ModParts(hk.mods, true) + [HotkeyText.KeyName(hk.key, true)], "+");
  }

  lemma LayoutItemIsRow(tx: Locale, x: Input, l: Layout, current: bool)
    ensures LayoutRow(tx, x, l, current,
                      LayoutItem(tx, l, x.live, if current then "" else l.setup.caption, current,
                        l.id in x.unavailable))
  {
    hide LayoutChildren, RowCaption, ChildRows, Captioned, Shortcut;
    ChildrenAre(tx, l, x.live, l.id in x.unavailable);
    CaptionIs(tx, l, if current then "" else l.setup.caption, current, l.id in x.unavailable);
  }

  // ---- the whole menu ----

  /** The rows are those of the layouts at these positions, in this order. */
  ghost predicate RowsOf(tx: Locale, x: Input, rows: seq<Item>, ps: seq<nat>, current: bool) {
    |rows| == |ps| && forall k :: 0 <= k < |ps| ==>
      ps[k] < |x.layouts| && LayoutRow(tx, x, x.layouts[ps[k]], current, rows[k])
  }

  lemma RowsSnoc(tx: Locale, x: Input, rows: seq<Item>, ps: seq<nat>, current: bool, row: Item, p: nat)
    requires RowsOf(tx, x, rows, ps, current) && p < |x.layouts| && LayoutRow(tx, x, x.layouts[p], current, row)
    ensures RowsOf(tx, x, rows + [row], ps + [p], current)
  {
    hide LayoutRow;
  }

  lemma {:induction false} CurrentRowsAre(tx: Locale, x: Input, n: nat)
    requires n <= |x.layouts|
    ensures RowsOf(tx, x, CurrentRows(tx, x, n), Positions(x.layouts, x.currentFingerprint, true, n), true)
  {
    hide LayoutItem, LayoutRow, RowsOf;
    if n == 0 {
      NoRows(tx, x);
    } else {
      CurrentRowsAre(tx, x, n - 1);
      var l, before := x.layouts[n - 1], Positions(x.layouts, x.currentFingerprint, true, n - 1);
      LayoutItemIsRow(tx, x, l, true);
      assert before + [] == before;
      if l.setup.fingerprint == x.currentFingerprint {
        RowsSnoc(tx, x, CurrentRows(tx, x, n - 1), before, true,
                 LayoutItem(tx, l, x.live, "", true, l.id in x.unavailable), n - 1);
      }
    }
  }

  lemma {:induction false} OtherRowsAre(tx: Locale, x: Input, n: nat)
    requires n <= |x.layouts|
    ensures RowsOf(tx, x, OtherRows(tx, x, n), Positions(x.layouts, x.currentFingerprint, false, n), false)
  {
    hide LayoutItem, LayoutRow, RowsOf;
    if n == 0 {
      NoRows(tx, x);
    } else {
      OtherRowsAre(tx, x, n - 1);
      var l, before := x.layouts[n - 1], Positions(x.layouts, x.currentFingerprint, false, n - 1);
      LayoutItemIsRow(tx, x, l, false);
      assert before + [] == before;
      if l.setup.fingerprint != x.currentFingerprint {
        RowsSnoc(tx, x, OtherRows(tx, x, n - 1), before, false,
                 LayoutItem(tx, l, x.live, l.setup.caption, false, l.id in x.unavailable), n - 1);
      }
    }
  }

  lemma NoRows(tx: Locale, x: Input)
    ensures RowsOf(tx, x, [], [], true) && RowsOf(tx, x, [], [], false)
  {}

  predicate IsPlaceholder(it: Item) {
    it.caption == "Noch keine Layouts für dieses Setup" && it.disabled && it.children == [] && it.action == NOTHING
    && !it.separator
  }

  /** The layouts of the current setup, or one disabled line that says there are none. */
  ghost predicate TopShows(tx: Locale, x: Input, items: seq<Item>) {
    var cur := Positions(x.layouts, x.currentFingerprint, true, |x.layouts|);
    if cur != [] then RowsOf(tx, x, items, cur, true) else |items| == 1 && IsPlaceholder(items[0])
  }

  ghost predicate IsOthers(tx: Locale, x: Input, it: Item, ps: seq<nat>) {
    it.caption == "Andere Setups" && !it.separator && !it.disabled && RowsOf(tx, x, it.children, ps, false)
  }

  /** The submenu of all other setups, or nothing when there are none. */
  ghost predicate OthersShow(tx: Locale, x: Input, items: seq<Item>) {
    var oth := Positions(x.layouts, x.currentFingerprint, false, |x.layouts|);
    if oth == [] then items == [] else |items| == 2 && items[0].separator && IsOthers(tx, x, items[1], oth)
  }

  predicate OptionsShow(x: Input, items: seq<Item>) {
    && |items| == 5 && items[0].separator
    && items[1].action == Action(Autostart, "", 0) && items[1].caption == "Mit Windows starten"
    && items[1].disabled == !x.autostartAvailable && items[1].checked == (x.autostartOn && x.autostartAvailable)
    && IsCommand(items[2], "Andere Fenster minimieren", Action(MinimizeOthers, "", 0))
    && items[2].checked == x.minimizeOthers
    && IsCommand(items[3], "Speicherort öffnen", Action(OpenFolder, "", 0))
    && IsCommand(items[4], "Beenden", Action(Quit, "", 0))
  }

  /** The menu from top to bottom: saving; the layouts whose fingerprint is the current one, in store order, or a
      placeholder exactly when there are none; a submenu with all others in store order, exactly when there are some;
      the options with their state. */
  lemma MenuShowsSetups(tx: Locale, x: Input)
    ensures exists top, under, options ::
      && MenuOf(tx, x)[2..] == top + under + options && MenuOf(tx, x)[1].separator
      && IsCommand(MenuOf(tx, x)[0], "Aktuelles Layout speichern…", Action(Save, "", 0))
      && TopShows(tx, x, top) && OthersShow(tx, x, under) && OptionsShow(x, options)
  {
    hide LayoutRow, CurrentRows, OtherRows, RowsOf, Positions, TopShows, OthersShow, OptionsShow, Placeholder, Others,
      Foot;
    CurrentRowsAre(tx, x, |x.layouts|);
    OtherRowsAre(tx, x, |x.layouts|);
    var rows, others := CurrentRows(tx, x, |x.layouts|), OtherRows(tx, x, |x.layouts|);
    TopIs(tx, x, rows);
    OthersAre(tx, x, others);
    FootIs(x);
    assert MenuOf(tx, x)[2..] == (rows + Placeholder(rows)) + Others(others) + Foot(x);
  }

  lemma TopIs(tx: Locale, x: Input, rows: seq<Item>)
    requires RowsOf(tx, x, rows, Positions(x.layouts, x.currentFingerprint, true, |x.layouts|), true)
    ensures TopShows(tx, x, rows + Placeholder(rows))
  {
    hide LayoutRow, Positions;
    assert rows + [] == rows;
  }

  lemma OthersAre(tx: Locale, x: Input, rows: seq<Item>)
    requires RowsOf(tx, x, rows, Positions(x.layouts, x.currentFingerprint, false, |x.layouts|), false)
    ensures OthersShow(tx, x, Others(rows))
  {
    hide LayoutRow, Positions;
  }

  lemma FootIs(x: Input)
    ensures OptionsShow(x, Foot(x))
  {}
}
