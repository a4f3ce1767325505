/** Assembling the tray menu from the stored layouts and the open windows. */
module BuildMenu {
  import opened Types
  import opened Text
  import opened Sequences
  import opened Menu
  import opened HotkeyText
  import HotkeySelect
  import Matching
  import Matcher

  datatype Input = Input(layouts: seq<Layout>, currentFingerprint: string, live: seq<Live>, autostartOn: bool,
                         autostartAvailable: bool, minimizeOthers: bool, unavailable: set<string>)

  const SEPARATOR := Item("", true, false, false, NOTHING, [])

  function Leaf(caption: string, action: Action): Item {
    Item(caption, false, false, false, action, [])
  }

  // ---- one layout ----

  /** The accelerator column: the combination in German, marked when another application holds it. */
  function Accelerator(tx: Locale, l: Layout, unavailable: bool): string {
    match HotkeySelect.Stored(tx, l)
    case None => ""
    case Some(hk) => if unavailable then Label(hk) + " (belegt)" else Label(hk)
  }

  function HotkeyEntryCaption(tx: Locale, l: Layout, unavailable: bool): string {
    match HotkeySelect.Stored(tx, l)
    case None => "Hotkey …"
    case Some(hk) => if unavailable then "Hotkey: " + Label(hk) + " (belegt) …" else "Hotkey: " + Label(hk) + " …"
  }

  function NoTabs(s: string): string {
    Map(c => if c == '\t' then ' ' else c, s)
  }

  /** A tab starts the accelerator column, so names are cleared of tabs before one is added. */
  function RowCaption(tx: Locale, l: Layout, suffix: string, current: bool, unavailable: bool): string {
    var name := NoTabs(if suffix != "" then l.name + " (" + suffix + ")" else l.name);
    if current && Accelerator(tx, l, unavailable) != "" then name + "\t" + Accelerator(tx, l, unavailable) else name
  }

  function WindowItem(tx: Locale, l: Layout, i: nat, present: bool): Item
    requires i < |l.windows|
  {
    var w := l.windows[i];
    Item(tx.fileName(w.exe) + " — " + w.title + (if present then "" else "  (nicht offen)"), false, w.ticked,
         !present, Action(ToggleInclude, l.id, i), [])
  }

  function WindowItems(tx: Locale, l: Layout, present: set<nat>, n: nat): seq<Item>
    requires n <= |l.windows|
  {
    if n == 0 then [] else WindowItems(tx, l, present, n - 1) + [WindowItem(tx, l, n - 1, n - 1 in present)]
  }

  /** The entries of the layout that some open window matches. */
  function Present(tx: Locale, l: Layout, live: seq<Live>): set<nat> {
    Matching.Assign(tx, l.windows, Matching.Eligibles(live)).Keys
  }

  function Management(tx: Locale, l: Layout, unavailable: bool): seq<Item> {
    [SEPARATOR,
     Leaf("Mit aktuellem Stand überschreiben", Action(Overwrite, l.id, 0)),
     Leaf("Umbenennen…", Action(Rename, l.id, 0)),
     Leaf(HotkeyEntryCaption(tx, l, unavailable), Action(AssignHotkey, l.id, 0)),
     Leaf("Löschen", Action(Delete, l.id, 0))]
  }

  function LayoutChildren(tx: Locale, l: Layout, live: seq<Live>, unavailable: bool): seq<Item> {
    [Leaf("Alle wiederherstellen", Action(Restore, l.id, 0))]
    + ((if l.windows != [] then [SEPARATOR] else []) + WindowItems(tx, l, Present(tx, l, live), |l.windows|))
    + Management(tx, l, unavailable)
  }

  function LayoutItem(tx: Locale, l: Layout, live: seq<Live>, suffix: string, current: bool, unavailable: bool): Item {
    Item(RowCaption(tx, l, suffix, current, unavailable), false, false, false, Action(Restore, l.id, 0),
         LayoutChildren(tx, l, live, unavailable))
  }

  ghost predicate Mentions(matches: seq<Matching.Match>, k: nat) {
    exists x :: x in matches && x.index == k
  }

  lemma MentionsSnoc(matches: seq<Matching.Match>, x: Matching.Match, k: nat)
    ensures Mentions(matches + [x], k) <==> Mentions(matches, k) || x.index == k
  {
    assert x in matches + [x];
    assert forall y :: y in matches ==> y in matches + [x];
  }

  lemma {:induction false} MatchedIndices(entries: seq<WindowEntry>, windows: seq<Live>, m: map<nat, nat>, n: nat,
                                          k: nat)
    requires n <= |entries| && (forall i :: i in m ==> m[i] < |windows|)
    ensures Mentions(Matching.MatchesOf(entries, windows, m, n), k) <==> k < n && k in m
  {
    hide Mentions;
    if n == 0 {
      NothingMentioned(k);
    } else {
      MatchedIndices(entries, windows, m, n - 1, k);
      var before := Matching.MatchesOf(entries, windows, m, n - 1);
      if n - 1 in m {
        MentionsSnoc(before, Matching.Match(n - 1, entries[n - 1], windows[m[n - 1]]), k);
      } else {
        assert Matching.MatchesOf(entries, windows, m, n) == before;
      }
    }
  }

  lemma NothingMentioned(k: nat)
    ensures !Mentions([], k)
  {}

  lemma PresentAreMatched(tx: Locale, l: Layout, live: seq<Live>)
    ensures forall k: nat :: Mentions(Matching.PlanOf(tx, l.windows, live).matches, k) <==> k in Present(tx, l, live)
  {
    hide Matching.Assign, Matching.Eligibles, Matching.IsAssignment, Matching.MatchesOf, Mentions;
    var windows := Matching.Eligibles(live);
    Matching.AssignIsPairing(tx, l.windows, windows);
    Matching.PairsInRange(tx, l.windows, windows, Matching.Assign(tx, l.windows, windows));
    forall k: nat ensures Mentions(Matching.PlanOf(tx, l.windows, live).matches, k) <==> k in Present(tx, l, live) {
      MatchedIndices(l.windows, windows, Matching.Assign(tx, l.windows, windows), |l.windows|, k);
    }
  }

  method ComputeLayoutItem(tx: Locale, l: Layout, live: seq<Live>, suffix: string, current: bool, unavailable: bool)
    returns (it: Item)
    ensures it == LayoutItem(tx, l, live, suffix, current, unavailable)
  {
    hide Matching.PlanOf, Present, Management, RowCaption, Leaf, SEPARATOR, Mentions;
    var plan := Matcher.MatchEntries(tx, l.windows, live);
    PresentAreMatched(tx, l, live);
    var present: set<nat> := {};
    for i := 0 to |plan.matches|
      invariant forall k: nat :: k in present <==> exists x :: 0 <= x < i && plan.matches[x].index == k
    {
      present := present + {plan.matches[i].index};
    }
    AllMatched(plan.matches, present);
    assert present == Present(tx, l, live);
    var children := [Leaf("Alle wiederherstellen", Action(Restore, l.id, 0))];
    var listed := if |l.windows| > 0 then [SEPARATOR] else [];
    ghost var start := listed;
    for i := 0 to |l.windows|
      invariant listed == start + WindowItems(tx, l, present, i)
    {
      listed := listed + [WindowItem(tx, l, i, i in present)];
    }
    it := Item(RowCaption(tx, l, suffix, current, unavailable), false, false, false, Action(Restore, l.id, 0),
               children + listed + Management(tx, l, unavailable));
  }

  lemma AllMatched(matches: seq<Matching.Match>, present: set<nat>)
    requires forall k: nat :: k in present <==> exists x :: 0 <= x < |matches| && matches[x].index == k
    ensures forall k: nat :: k in present <==> Mentions(matches, k)
  {
    forall k: nat | k in present ensures Mentions(matches, k) {
      var x :| 0 <= x < |matches| && matches[x].index == k;
      assert matches[x] in matches;
    }
  }

  // ---- the whole menu ----

  function Current(x: Input, l: Layout): bool {
    l.setup.fingerprint == x.currentFingerprint
  }

  function CurrentRows(tx: Locale, x: Input, n: nat): seq<Item>
    requires n <= |x.layouts|
  {
    if n == 0 then []
    else if Current(x, x.layouts[n - 1]) then
      CurrentRows(tx, x, n - 1) + [LayoutItem(tx, x.layouts[n - 1], x.live, "", true,
        x.layouts[n - 1].id in x.unavailable)]
    else CurrentRows(tx, x, n - 1)
  }

  function OtherRows(tx: Locale, x: Input, n: nat): seq<Item>
    requires n <= |x.layouts|
  {
    if n == 0 then []
    else if Current(x, x.layouts[n - 1]) then OtherRows(tx, x, n - 1)
    else OtherRows(tx, x, n - 1)
         + [LayoutItem(tx, x.layouts[n - 1], x.live, x.layouts[n - 1].setup.caption, false,
           x.layouts[n - 1].id in x.unavailable)]
  }

  function Head(): seq<Item> {
    [Leaf("Aktuelles Layout speichern…", Action(Save, "", 0)), SEPARATOR]
  }

  function Others(rows: seq<Item>): seq<Item> {
    if rows == [] then [] else [SEPARATOR, Item("Andere Setups", false, false, false, NOTHING, rows)]
  }

  function Placeholder(rows: seq<Item>): seq<Item> {
    if rows == [] then [Item("Noch keine Layouts für dieses Setup", false, false, true, NOTHING, [])] else []
  }

  function Foot(x: Input): seq<Item> {
    [SEPARATOR,
     Item("Mit Windows starten", false, x.autostartOn && x.autostartAvailable, !x.autostartAvailable,
       Action(Autostart, "", 0), []),
     Item("Andere Fenster minimieren", false, x.minimizeOthers, false, Action(MinimizeOthers, "", 0), []),
     Leaf("Speicherort öffnen", Action(OpenFolder, "", 0)),
     Leaf("Beenden", Action(Quit, "", 0))]
  }

  function MenuOf(tx: Locale, x: Input): seq<Item> {
    var rows := CurrentRows(tx, x, |x.layouts|);
    Head() + rows + Placeholder(rows) + Others(OtherRows(tx, x, |x.layouts|)) + Foot(x)
  }

  method Build(tx: Locale, x: Input) returns (items: seq<Item>)
    ensures items == MenuOf(tx, x)
  {
    hide LayoutItem, Head, Foot;
    items := Head();
    var others := [];
    var matching := 0;
    for i := 0 to |x.layouts|
      invariant items == Head() + CurrentRows(tx, x, i) && others == OtherRows(tx, x, i)
      invariant matching == |CurrentRows(tx, x, i)|
    {
      var l := x.layouts[i];
      if l.setup.fingerprint == x.currentFingerprint {
        var row := ComputeLayoutItem(tx, l, x.live, "", true, l.id in x.unavailable);
        items := items + [row];
        matching := matching + 1;
        continue;
      }
      var row := ComputeLayoutItem(tx, l, x.live, l.setup.caption, false, l.id in x.unavailable);
      others := others + [row];
    }
    if matching == 0 {
      items := items + [Item("Noch keine Layouts für dieses Setup", false, false, true, NOTHING, [])];
    }
    if |others| > 0 {
      items := items + [SEPARATOR, Item("Andere Setups", false, false, false, NOTHING, others)];
    }
    items := items + Foot(x);
  }

  // ---- what every built menu satisfies ----

  lemma {:induction false} BareConcat(a: seq<Item>, b: seq<Item>)
    requires SeparatorsBare(a) && SeparatorsBare(b)
    ensures SeparatorsBare(a + b)
  {
    if a == [] {
      assert a + b == b;
    } else {
      assert (a + b)[0] == a[0] && (a + b)[1..] == a[1..] + b;
      BareConcat(a[1..], b);
    }
  }

  lemma BareOne(it: Item)
    requires SeparatorsBare(it.children) && (it.separator ==> it.children == [])
    ensures SeparatorsBare([it])
  {
    assert [it][1..] == [];
  }

  /** A flat list of leaves and bare separators. */
  predicate Flat(items: seq<Item>) {
    forall k :: 0 <= k < |items| ==> items[k].children == []
  }

  lemma {:induction false} FlatIsBare(items: seq<Item>)
    requires Flat(items)
    ensures SeparatorsBare(items)
  {
    if items != [] {
      FlatIsBare(items[1..]);
    }
  }

  lemma {:induction false} WindowItemsFacts(tx: Locale, l: Layout, present: set<nat>, n: nat)
    requires n <= |l.windows|
    ensures var r := WindowItems(tx, l, present, n);
      |r| == n && Flat(r) && forall k :: 0 <= k < n ==> !r[k].separator && r[k].action == Action(ToggleInclude, l.id, k)
  {
    if n > 0 {
      WindowItemsFacts(tx, l, present, n - 1);
    }
  }

  lemma LayoutChildrenFlat(tx: Locale, l: Layout, live: seq<Live>, unavailable: bool)
    ensures Flat(LayoutChildren(tx, l, live, unavailable)) && LayoutChildren(tx, l, live, unavailable) != []
  {
    hide Present, WindowItems, HotkeyEntryCaption;
    WindowItemsFacts(tx, l, Present(tx, l, live), |l.windows|);
  }

  /** A list of layout rows: submenus over flat lists. */
  predicate Rows(items: seq<Item>) {
    forall k :: 0 <= k < |items| ==> !items[k].separator && items[k].children != [] && Flat(items[k].children)
  }

  lemma {:induction false} RowsAreBare(items: seq<Item>)
    requires Rows(items)
    ensures SeparatorsBare(items)
  {
    if items != [] {
      FlatIsBare(items[0].children);
      RowsAreBare(items[1..]);
    }
  }

  lemma {:induction false} LayoutRows(tx: Locale, x: Input, n: nat)
    requires n <= |x.layouts|
    ensures Rows(CurrentRows(tx, x, n)) && Rows(OtherRows(tx, x, n))
    ensures |CurrentRows(tx, x, n)| + |OtherRows(tx, x, n)| == n
  {
    hide LayoutChildren, RowCaption, Flat;
    if n > 0 {
      LayoutRows(tx, x, n - 1);
      LayoutChildrenFlat(tx, x.layouts[n - 1], x.live, x.layouts[n - 1].id in x.unavailable);
    }
  }

  /** Every built menu satisfies what the two numbering walks need: nothing hides below a separator. */
  lemma BuiltMenusAreBare(tx: Locale, x: Input)
    ensures SeparatorsBare(MenuOf(tx, x))
  {
    hide CurrentRows, OtherRows, Rows, SeparatorsBare;
    var rows, others := CurrentRows(tx, x, |x.layouts|), OtherRows(tx, x, |x.layouts|);
    LayoutRows(tx, x, |x.layouts|);
    RowsAreBare(rows);
    RowsAreBare(others);
    FlatIsBare(Head());
    FlatIsBare(Foot(x));
    FlatIsBare(Placeholder(rows));
    OthersAreBare(others);
    BareConcat(Head(), rows);
    BareConcat(Head() + rows, Placeholder(rows));
    BareConcat(Head() + rows + Placeholder(rows), Others(others));
    BareConcat(Head() + rows + Placeholder(rows) + Others(others), Foot(x));
  }

  lemma OthersAreBare(rows: seq<Item>)
    requires SeparatorsBare(rows)
    ensures SeparatorsBare(Others(rows))
  {
    if rows != [] {
      var sub := Item("Andere Setups", false, false, false, NOTHING, rows);
      BareOne(sub);
      BareOne(SEPARATOR);
      BareConcat([SEPARATOR], [sub]);
      assert Others(rows) == [SEPARATOR] + [sub];
    }
  }

  // ---- dividers ----

  /** No two dividers are adjacent in this list. */
  predicate Apart(items: seq<Item>) {
    forall k :: 0 <= k < |items| - 1 ==> !(items[k].separator && items[k + 1].separator)
  }

  /** No two dividers are adjacent at any level. */
  ghost predicate ApartEverywhere(items: seq<Item>) {
    Apart(items) && forall k :: 0 <= k < |items| ==> ApartEverywhere(items[k].children)
  }

  lemma FlatApart(items: seq<Item>)
    requires Flat(items) && Apart(items)
    ensures ApartEverywhere(items)
  {}

  lemma LayoutChildrenApart(tx: Locale, l: Layout, live: seq<Live>, unavailable: bool)
    ensures ApartEverywhere(LayoutChildren(tx, l, live, unavailable))
  {
    hide Present, WindowItems, HotkeyEntryCaption, ApartEverywhere;
    WindowItemsFacts(tx, l, Present(tx, l, live), |l.windows|);
    LayoutChildrenFlat(tx, l, live, unavailable);
    FlatApart(LayoutChildren(tx, l, live, unavailable));
  }

  lemma {:induction false} RowsApart(tx: Locale, x: Input, n: nat)
    requires n <= |x.layouts|
    ensures ApartEverywhere(CurrentRows(tx, x, n)) && ApartEverywhere(OtherRows(tx, x, n))
  {
    hide LayoutChildren, RowCaption, Flat;
    LayoutRows(tx, x, n);
    if n > 0 {
      RowsApart(tx, x, n - 1);
      LayoutChildrenApart(tx, x.layouts[n - 1], x.live, x.layouts[n - 1].id in x.unavailable);
    }
  }

  /** A built menu never shows two dividers in a row, on any level. */
  lemma BuiltMenusKeepDividersApart(tx: Locale, x: Input)
    ensures ApartEverywhere(MenuOf(tx, x))
  {
    hide CurrentRows, OtherRows, Flat;
    var rows, others := CurrentRows(tx, x, |x.layouts|), OtherRows(tx, x, |x.layouts|);
    LayoutRows(tx, x, |x.layouts|);
    RowsApart(tx, x, |x.layouts|);
  }
}
