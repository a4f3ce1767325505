/** Which commands a built menu offers: each layout's, each once, and the five global ones. */
module MenuActions {
  import opened Types
  import opened Text
  import opened Menu
  import opened BuildMenu

  function Toggles(l: Layout, n: nat): seq<Action>
    requires n <= |l.windows|
  {
    if n == 0 then [] else Toggles(l, n - 1) + [Action(ToggleInclude, l.id, n - 1)]
  }

  function ManagementActions(l: Layout): seq<Action> {
    [Action(Overwrite, l.id, 0), Action(Rename, l.id, 0), Action(AssignHotkey, l.id, 0), Action(Delete, l.id, 0)]
  }

  /** The commands of one layout. */
  function LayoutActions(l: Layout): seq<Action> {
    [Action(Restore, l.id, 0)] + Toggles(l, |l.windows|) + ManagementActions(l)
  }

  /** The commands of the layouts that are current (or not), among the first n. */
  function RowActions(x: Input, current: bool, n: nat): seq<Action>
    requires n <= |x.layouts|
  {
    if n == 0 then []
    else if Current(x, x.layouts[n - 1]) == current then RowActions(x, current, n - 1) + LayoutActions(x.layouts[n - 1])
    else RowActions(x, current, n - 1)
  }

  function GlobalFoot(): seq<Action> {
    [Action(Autostart, "", 0), Action(MinimizeOthers, "", 0), Action(OpenFolder, "", 0), Action(Quit, "", 0)]
  }

  /** The commands of the whole menu, in depth-first order. */
  function AllActions(x: Input): seq<Action> {
    [Action(Save, "", 0)] + (RowActions(x, true, |x.layouts|) + RowActions(x, false, |x.layouts|)) + GlobalFoot()
  }

  // ---- the menu offers exactly these ----

  lemma LeafActs(it: Item)
    requires it.children == []
    ensures Actions([it]) == if it.separator || it.action.kind == NoAction then [] else [it.action]
  {
    ActionsOfOne(it);
  }

  lemma {:induction false} WindowItemsAct(tx: Locale, l: Layout, present: set<nat>, n: nat)
    requires n <= |l.windows|
    ensures Actions(WindowItems(tx, l, present, n)) == Toggles(l, n)
  {
    hide Actions;
    if n == 0 {
      NoItemsAct();
    } else {
      WindowItemsAct(tx, l, present, n - 1);
      ActionsConcat(WindowItems(tx, l, present, n - 1), [WindowItem(tx, l, n - 1, n - 1 in present)]);
      LeafActs(WindowItem(tx, l, n - 1, n - 1 in present));
    }
  }

  lemma NoItemsAct()
    ensures Actions([]) == []
  {}

  lemma ManagementActs(tx: Locale, l: Layout, unavailable: bool)
    ensures Actions(Management(tx, l, unavailable)) == ManagementActions(l)
  {
    hide Actions, HotkeyEntryCaption;
    var m := Management(tx, l, unavailable);
    ActionsConcat([m[0]] + [m[1]] + [m[2]] + [m[3]], [m[4]]);
    ActionsConcat([m[0]] + [m[1]] + [m[2]], [m[3]]);
    ActionsConcat([m[0]] + [m[1]], [m[2]]);
    ActionsConcat([m[0]], [m[1]]);
    assert m == [m[0]] + [m[1]] + [m[2]] + [m[3]] + [m[4]];
    LeafActs(m[0]);
    LeafActs(m[1]);
    LeafActs(m[2]);
    LeafActs(m[3]);
    LeafActs(m[4]);
  }

  lemma LayoutChildrenAct(tx: Locale, l: Layout, live: seq<Live>, unavailable: bool)
    ensures Actions(LayoutChildren(tx, l, live, unavailable)) == LayoutActions(l)
  {
    hide Actions, Present, Management, WindowItems, Toggles;
    var first := [Leaf("Alle wiederherstellen", Action(Restore, l.id, 0))];
    var bar := if l.windows != [] then [SEPARATOR] else [];
    var ws := WindowItems(tx, l, Present(tx, l, live), |l.windows|);
    WindowItemsAct(tx, l, Present(tx, l, live), |l.windows|);
    ManagementActs(tx, l, unavailable);
    LeafActs(first[0]);
    LeafActs(SEPARATOR);
    NoItemsAct();
    ActionsConcat(bar, ws);
    assert Actions(bar) == [] && Actions(bar + ws) == Toggles(l, |l.windows|);
    ActionsConcat(first, bar + ws);
    ActionsConcat(first + (bar + ws), Management(tx, l, unavailable));
  }

  lemma LayoutItemActs(tx: Locale, l: Layout, live: seq<Live>, suffix: string, current: bool, unavailable: bool)
    ensures Actions([LayoutItem(tx, l, live, suffix, current, unavailable)]) == LayoutActions(l)
  {
    hide Actions, LayoutChildren, RowCaption, LayoutActions;
    ActionsOfOne(LayoutItem(tx, l, live, suffix, current, unavailable));
    LayoutChildrenAct(tx, l, live, unavailable);
    LayoutChildrenFlat(tx, l, live, unavailable);
  }

  lemma {:induction false} RowsAct(tx: Locale, x: Input, n: nat)
    requires n <= |x.layouts|
    ensures Actions(CurrentRows(tx, x, n)) == RowActions(x, true, n)
    ensures Actions(OtherRows(tx, x, n)) == RowActions(x, false, n)
  {
    hide Actions, LayoutItem, LayoutActions;
    if n == 0 {
      NoItemsAct();
    } else {
      RowsAct(tx, x, n - 1);
      var l := x.layouts[n - 1];
      var u := l.id in x.unavailable;
      if Current(x, l) {
        LayoutItemActs(tx, l, x.live, "", true, u);
        ActionsConcat(CurrentRows(tx, x, n - 1), [LayoutItem(tx, l, x.live, "", true, u)]);
      } else {
        LayoutItemActs(tx, l, x.live, l.setup.caption, false, u);
        ActionsConcat(OtherRows(tx, x, n - 1), [LayoutItem(tx, l, x.live, l.setup.caption, false, u)]);
      }
    }
  }

  lemma HeadActs()
    ensures Actions(Head()) == [Action(Save, "", 0)]
  {
    hide Actions;
    var h := Head();
    assert h == [h[0]] + [h[1]];
    ActionsConcat([h[0]], [h[1]]);
    LeafActs(h[0]);
    LeafActs(h[1]);
  }

  lemma FootActs(x: Input)
    ensures Actions(Foot(x)) == GlobalFoot()
  {
    hide Actions;
    var f := Foot(x);
    assert f == [f[0]] + [f[1]] + [f[2]] + [f[3]] + [f[4]];
    ActionsConcat([f[0]] + [f[1]] + [f[2]] + [f[3]], [f[4]]);
    ActionsConcat([f[0]] + [f[1]] + [f[2]], [f[3]]);
    ActionsConcat([f[0]] + [f[1]], [f[2]]);
    ActionsConcat([f[0]], [f[1]]);
    LeafActs(f[0]);
    LeafActs(f[1]);
    LeafActs(f[2]);
    LeafActs(f[3]);
    LeafActs(f[4]);
  }

  lemma OthersAct(rows: seq<Item>)
    ensures Actions(Others(rows)) == Actions(rows)
  {
    hide Actions;
    NoItemsAct();
    if rows != [] {
      var sub := Item("Andere Setups", false, false, false, NOTHING, rows);
      assert Others(rows) == [SEPARATOR] + [sub];
      ActionsConcat([SEPARATOR], [sub]);
      LeafActs(SEPARATOR);
      ActionsOfOne(sub);
    }
  }

  lemma PlaceholderActs(rows: seq<Item>)
    ensures Actions(Placeholder(rows)) == []
  {
    hide Actions;
    NoItemsAct();
    if rows == [] {
      LeafActs(Placeholder(rows)[0]);
      assert Placeholder(rows) == [Placeholder(rows)[0]];
    }
  }

  /** The menu's clickable commands are exactly the expected ones, in this order. */
  lemma MenuOffersAllActions(tx: Locale, x: Input)
    ensures Actions(MenuOf(tx, x)) == AllActions(x)
  {
    hide Actions, CurrentRows, OtherRows, Head, Foot, Others, Placeholder, RowActions, GlobalFoot;
    var rows, others := CurrentRows(tx, x, |x.layouts|), OtherRows(tx, x, |x.layouts|);
    RowsAct(tx, x, |x.layouts|);
    HeadActs();
    FootActs(x);
    OthersAct(others);
    PlaceholderActs(rows);
    ActionsConcat(Head(), rows);
    ActionsConcat(Head() + rows, Placeholder(rows));
    ActionsConcat(Head() + rows + Placeholder(rows), Others(others));
    ActionsConcat(Head() + rows + Placeholder(rows) + Others(others), Foot(x));
  }

  // ---- how many, and no command twice ----

  /** Saved windows of all layouts. */
  function WindowCount(layouts: seq<Layout>, n: nat): nat
    requires n <= |layouts|
  {
    if n == 0 then 0 else WindowCount(layouts, n - 1) + |layouts[n - 1].windows|
  }

  lemma {:induction false} ToggleFacts(l: Layout, n: nat)
    requires n <= |l.windows|
    ensures |Toggles(l, n)| == n && forall i :: 0 <= i < n ==> Toggles(l, n)[i] == Action(ToggleInclude, l.id, i)
  {
    if n > 0 {
      ToggleFacts(l, n - 1);
    }
  }

  lemma {:induction false} RowCount(x: Input, n: nat)
    requires n <= |x.layouts|
    ensures |RowActions(x, true, n)| + |RowActions(x, false, n)| == 5 * n + WindowCount(x.layouts, n)
  {
    hide LayoutActions;
    if n > 0 {
      RowCount(x, n - 1);
      LayoutActionCount(x.layouts[n - 1]);
    }
  }

  lemma LayoutActionCount(l: Layout)
    ensures |LayoutActions(l)| == 5 + |l.windows|
  {
    ToggleFacts(l, |l.windows|);
  }

  ghost predicate Distinct(s: seq<Action>) {
    forall i, j :: 0 <= i < j < |s| ==> s[i] != s[j]
  }

  lemma DistinctConcat(a: seq<Action>, b: seq<Action>)
    requires Distinct(a) && Distinct(b) && forall x :: x in a ==> x !in b
    ensures Distinct(a + b)
  {
    forall i, j | 0 <= i < j < |a + b| ensures (a + b)[i] != (a + b)[j] {
      if i < |a| <= j {
        assert a[i] in a && b[j - |a|] in b;
      }
    }
  }

  lemma LayoutActionsDistinct(l: Layout)
    ensures Distinct(LayoutActions(l))
    ensures forall a :: a in LayoutActions(l) ==>
      a.layoutID == l.id && a.kind !in {Save, Autostart, MinimizeOthers, OpenFolder, Quit}
  {
    ToggleFacts(l, |l.windows|);
  }

  lemma {:induction false} RowOrigin(x: Input, current: bool, n: nat, a: Action)
    requires n <= |x.layouts|
    ensures a in RowActions(x, current, n) <==>
      exists k: nat :: k < n && Current(x, x.layouts[k]) == current && a in LayoutActions(x.layouts[k])
  {
    hide LayoutActions;
    if n > 0 {
      RowOrigin(x, current, n - 1, a);
    }
  }

  lemma {:induction false} RowsDistinct(x: Input, current: bool, n: nat)
    requires n <= |x.layouts| && DistinctIDs(x.layouts)
    ensures Distinct(RowActions(x, current, n))
  {
    hide LayoutActions, Distinct;
    if n == 0 {
      NoneDistinct();
    } else {
      RowsDistinct(x, current, n - 1);
      LayoutActionsDistinct(x.layouts[n - 1]);
      var before, added := RowActions(x, current, n - 1), LayoutActions(x.layouts[n - 1]);
      forall a | a in before ensures a !in added {
        RowOrigin(x, current, n - 1, a);
        var k: nat :| k < n - 1 && Current(x, x.layouts[k]) == current && a in LayoutActions(x.layouts[k]);
        LayoutActionsDistinct(x.layouts[k]);
      }
      DistinctConcat(before, added);
    }
  }

  lemma NoneDistinct()
    ensures Distinct([])
  {}

  lemma RowKinds(x: Input, current: bool, a: Action)
    requires a in RowActions(x, current, |x.layouts|)
    ensures a.kind !in {Save, Autostart, MinimizeOthers, OpenFolder, Quit}
    ensures exists k: nat :: k < |x.layouts| && Current(x, x.layouts[k]) == current && a.layoutID == x.layouts[k].id
  {
    hide LayoutActions, RowActions;
    RowOrigin(x, current, |x.layouts|, a);
    var k: nat :| k < |x.layouts| && Current(x, x.layouts[k]) == current && a in LayoutActions(x.layouts[k]);
    LayoutActionsDistinct(x.layouts[k]);
  }

  lemma AllDistinct(x: Input)
    requires DistinctIDs(x.layouts)
    ensures Distinct(AllActions(x))
  {
    hide RowActions, Distinct;
    var a, b := RowActions(x, true, |x.layouts|), RowActions(x, false, |x.layouts|);
    RowsDistinct(x, true, |x.layouts|);
    RowsDistinct(x, false, |x.layouts|);
    forall r | r in a ensures r !in b && r.kind !in {Save, Autostart, MinimizeOthers, OpenFolder, Quit} {
      RowKinds(x, true, r);
      if r in b {
        RowKinds(x, false, r);
      }
    }
    forall r | r in b ensures r.kind !in {Save, Autostart, MinimizeOthers, OpenFolder, Quit} {
      RowKinds(x, false, r);
    }
    DistinctConcat(a, b);
    GlobalsDistinct();
    DistinctConcat([Action(Save, "", 0)], a + b);
    DistinctConcat([Action(Save, "", 0)] + (a + b), GlobalFoot());
  }

  lemma GlobalsDistinct()
    ensures Distinct([Action(Save, "", 0)]) && Distinct(GlobalFoot())
  {}

  /** With distinct layout ids the id table of a built menu is injective, has exactly 5 + 5 per layout + 1 per saved
      window ids, and offers every command of every layout. */
  lemma MenuTableIsExact(tx: Locale, x: Input)
    requires DistinctIDs(x.layouts)
    ensures var table := Table(MenuOf(tx, x));
      && (forall id: nat :: id in table <==> 1 <= id <= 5 + 5 * |x.layouts| + WindowCount(x.layouts, |x.layouts|))
      && (forall id, id' :: id in table && id' in table && table[id] == table[id'] ==> id == id')
      && (forall l, a :: l in x.layouts && a in LayoutActions(l) ==> a in table.Values)
  {
    hide RowActions, Actions, MenuOf, Table, LayoutActions, WindowCount;
    var table := Table(MenuOf(tx, x));
    MenuOffersAllActions(tx, x);
    TableIsNumbering(MenuOf(tx, x));
    RowCount(x, |x.layouts|);
    AllDistinct(x);
    forall l, a | l in x.layouts && a in LayoutActions(l) ensures a in table.Values {
      var k: nat :| k < |x.layouts| && x.layouts[k] == l;
      RowOrigin(x, Current(x, l), |x.layouts|, a);
      assert a in AllActions(x);
      var i :| 0 <= i < |AllActions(x)| && AllActions(x)[i] == a;
      assert table[i + 1] == a;
    }
  }
}
