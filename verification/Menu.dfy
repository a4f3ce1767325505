/** The tray menu as a tree of items, and the two walks that number its clickable leaves: the one that
    builds the id-to-action table and the one that wires ids onto the rendered menu. */
module Menu {

  datatype ActionKind = NoAction | Save | Restore | ToggleInclude | Overwrite | Rename | AssignHotkey | Delete
                      | Autostart | MinimizeOthers | OpenFolder | Quit

  datatype Action = Action(kind: ActionKind, layoutID: string, windowIdx: nat)

  const NOTHING := Action(NoAction, "", 0)

  datatype Item = Item(caption: string, separator: bool, checked: bool, disabled: bool, action: Action,
    children: seq<Item>)

  /** A leaf that can be clicked: a real action, no separator, no submenu. */
  predicate IsActionable(it: Item) {
    !it.separator && it.action.kind != NoAction && it.children == []
  }

  // ---- the table ----

  /** The actions the table walk meets, in depth-first order; it descends into every item. */
  function Actions(items: seq<Item>): seq<Action> {
    if items == [] then []
    else (if IsActionable(items[0]) then [items[0].action] else []) + Actions(items[0].children) + Actions(items[1..])
  }

  /** Numbers actions from `next` upwards into m. */
  function Numbered(m: map<nat, Action>, next: nat, actions: seq<Action>): map<nat, Action>
    decreases |actions|
  {
    if actions == [] then m
    else
      var n := |actions| - 1;
      Numbered(m, next, actions[..n])[next + n := actions[n]]
  }

  function Table(items: seq<Item>): map<nat, Action> {
    Numbered(map[], 1, Actions(items))
  }

  class Flattener {
    var next: nat
    var out: map<nat, Action>

    constructor ()
      ensures next == 1 && out == map[]
    {
      next, out := 1, map[];
    }

    method Walk(list: seq<Item>)
      modifies this
      ensures next == old(next) + |Actions(list)| && out == Numbered(old(out), old(next), Actions(list))
      decreases list
    {
      ghost var start, from := out, next;
      for i := 0 to |list|
        invariant next == from + |Actions(list[..i])| && out == Numbered(start, from, Actions(list[..i]))
      {
        ghost var met := Actions(list[..i]);
        ActionsSnoc(list, i);
        if IsActionable(list[i]) {
          NumberedConcat(start, from, met, [list[i].action]);
          NumberedOne(out, next, list[i].action);
          out := out[next := list[i].action];
          next := next + 1;
          NoActionsIn(list[i]);
        } else {
          NumberedConcat(start, from, met, Actions(list[i].children));
        }
        Walk(list[i].children);
      }
      assert list[..|list|] == list;
    }
  }

  method FlattenActions(items: seq<Item>) returns (out: map<nat, Action>)
    ensures out == Table(items)
  {
    var f := new Flattener();
    f.Walk(items);
    out := f.out;
  }

  /** What item it adds to the walk: its own action or those below it. */
  function Own(it: Item): seq<Action> {
    if IsActionable(it) then [it.action] else Actions(it.children)
  }

  lemma NoActionsIn(it: Item)
    requires it.children == []
    ensures Actions(it.children) == []
  {}

  lemma {:induction false} ActionsConcat(a: seq<Item>, b: seq<Item>)
    ensures Actions(a + b) == Actions(a) + Actions(b)
    decreases |a|
  {
    if a == [] {
      assert a + b == b;
    } else {
      assert (a + b)[0] == a[0] && (a + b)[1..] == a[1..] + b;
      ActionsConcat(a[1..], b);
    }
  }

  lemma ActionsOfOne(it: Item)
    ensures Actions([it]) == Own(it)
  {
    assert [it][1..] == [];
  }

  lemma ActionsSnoc(list: seq<Item>, i: nat)
    requires i < |list|
    ensures Actions(list[..i + 1]) == Actions(list[..i]) + Own(list[i])
  {
    assert list[..i + 1] == list[..i] + [list[i]];
    ActionsConcat(list[..i], [list[i]]);
    ActionsOfOne(list[i]);
  }

  lemma {:induction false} NumberedConcat(m: map<nat, Action>, next: nat, a: seq<Action>, b: seq<Action>)
    ensures Numbered(m, next, a + b) == Numbered(Numbered(m, next, a), next + |a|, b)
    decreases |b|
  {
    if b == [] {
      assert a + b == a;
    } else {
      var n := |b| - 1;
      assert (a + b)[..|a| + n] == a + b[..n] && (a + b)[|a| + n] == b[n];
      NumberedConcat(m, next, a, b[..n]);
    }
  }

  lemma NumberedOne(m: map<nat, Action>, next: nat, a: Action)
    ensures Numbered(m, next, [a]) == m[next := a]
  {
    assert [a][..0] == [];
    assert Numbered(m, next, [a][..0]) == m;
  }

  lemma {:induction false} NumberedAt(m: map<nat, Action>, next: nat, actions: seq<Action>, k: nat)
    ensures k in Numbered(m, next, actions) <==> k in m || next <= k < next + |actions|
    ensures next <= k < next + |actions| ==> Numbered(m, next, actions)[k] == actions[k - next]
    ensures k in m && !(next <= k < next + |actions|) ==> Numbered(m, next, actions)[k] == m[k]
    decreases |actions|
  {
    if actions != [] {
      NumberedAt(m, next, actions[..|actions| - 1], k);
    }
  }

  /** The table's ids are exactly 1..n, the k-th standing for the k-th action. */
  lemma TableIsNumbering(items: seq<Item>)
    ensures forall k: nat :: k in Table(items) <==> 1 <= k <= |Actions(items)|
    ensures forall k: nat :: 1 <= k <= |Actions(items)| ==> Table(items)[k] == Actions(items)[k - 1]
  {
    hide Numbered, Actions;
    forall k: nat
      ensures k in Table(items) <==> 1 <= k <= |Actions(items)|
      ensures 1 <= k <= |Actions(items)| ==> Table(items)[k] == Actions(items)[k - 1]
    {
      NumberedAt(map[], 1, Actions(items), k);
    }
  }

  // ---- the rendered menu ----

  /** The native menu, recorded as the calls that build it. */
  datatype Entry = Line | Popup(caption: string, entries: seq<Entry>, disabled: bool)
                 | Command(id: nat, caption: string, checked: bool, disabled: bool)

  /** The entry one item becomes when the next free id is `next`. */
  function EntryOf(it: Item, next: nat): Entry
    decreases it, 1
  {
    if it.separator then Line
    else if it.children != [] then Popup(it.caption, EntriesOf(it.children, next), it.disabled)
    else Command(if IsActionable(it) then next else 0, it.caption, it.checked, it.disabled)
  }

  function EntriesOf(items: seq<Item>, next: nat): seq<Entry>
    decreases items, 0
  {
    if items == [] then []
    else [EntryOf(items[0], next)] + EntriesOf(items[1..], next + |Wired(items[..1])|)
  }

  /** The actions the rendering walk wires, in depth-first order; it does not look below separators. */
  function Wired(items: seq<Item>): seq<Action> {
    if items == [] then []
    else (if IsActionable(items[0]) then [items[0].action] else [])
         + (if items[0].separator then [] else Wired(items[0].children)) + Wired(items[1..])
  }

  class Renderer {
    var next: nat

    constructor ()
      ensures next == 1
    {
      next := 1;
    }

    method Build(list: seq<Item>) returns (m: seq<Entry>)
      modifies this
      ensures m == EntriesOf(list, old(next)) && next == old(next) + |Wired(list)|
      decreases list
    {
      hide Wired, EntriesOf;
      m := [];
      ghost var from := next;
      NoEntries(from);
      assert list[..0] == [];
      for i := 0 to |list|
        invariant next == from + |Wired(list[..i])| && m == EntriesOf(list[..i], from)
      {
        var it := list[i];
        EntriesSnoc(list, i, from);
        if it.separator {
          m := m + [Line];
        } else if it.children != [] {
          var below := Build(it.children);
          m := m + [Popup(it.caption, below, it.disabled)];
        } else {
          var id := 0;
          if IsActionable(it) {
            id := next;
            next := next + 1;
          }
          m := m + [Command(id, it.caption, it.checked, it.disabled)];
        }
      }
      assert list[..|list|] == list;
    }
  }

  method Render(items: seq<Item>) returns (m: seq<Entry>, actions: map<nat, Action>)
    ensures m == EntriesOf(items, 1) && actions == Table(items)
  {
    actions := FlattenActions(items);
    var r := new Renderer();
    m := r.Build(items);
  }

  lemma {:induction false} WiredConcat(a: seq<Item>, b: seq<Item>)
    ensures Wired(a + b) == Wired(a) + Wired(b)
    decreases |a|
  {
    if a == [] {
      assert a + b == b;
    } else {
      assert (a + b)[0] == a[0] && (a + b)[1..] == a[1..] + b;
      WiredConcat(a[1..], b);
    }
  }

  lemma NoEntries(next: nat)
    ensures EntriesOf([], next) == [] && Wired([]) == []
  {}

  /** What the rendering walk wires for one item. */
  function WiredOwn(it: Item): seq<Action> {
    if IsActionable(it) then [it.action] else if it.separator then [] else Wired(it.children)
  }

  lemma WiredOfOne(it: Item)
    ensures Wired([it]) == WiredOwn(it)
  {
    assert [it][1..] == [];
    if it.children == [] {
      assert Wired(it.children) == [];
    }
  }

  lemma {:induction false} EntriesConcat(a: seq<Item>, b: seq<Item>, next: nat)
    ensures EntriesOf(a + b, next) == EntriesOf(a, next) + EntriesOf(b, next + |Wired(a)|)
    decreases |a|
  {
    hide EntryOf, Wired;
    NoEntries(next);
    if a == [] {
      assert a + b == b;
    } else {
      assert (a + b)[0] == a[0] && (a + b)[1..] == a[1..] + b && (a + b)[..1] == a[..1];
      EntriesConcat(a[1..], b, next + |Wired(a[..1])|);
      WiredConcat(a[..1], a[1..]);
      assert a == a[..1] + a[1..];
    }
  }

  lemma EntriesSnoc(list: seq<Item>, i: nat, next: nat)
    requires i < |list|
    ensures EntriesOf(list[..i + 1], next) == EntriesOf(list[..i], next) + [EntryOf(list[i], next + |Wired(list[..i])|)]
    ensures Wired(list[..i + 1]) == Wired(list[..i]) + WiredOwn(list[i])
  {
    hide EntryOf, Wired;
    assert list[..i + 1] == list[..i] + [list[i]];
    EntriesConcat(list[..i], [list[i]], next);
    WiredConcat(list[..i], [list[i]]);
    WiredOfOne(list[i]);
    assert [list[i]][1..] == [];
  }

  /** The rendered tree has the shape of the item tree: dividers, submenus and commands in the same places, with the
      captions, checks and disabled flags of their items. */
  predicate Mirrors(items: seq<Item>, entries: seq<Entry>) {
    if items == [] then entries == []
    else entries != [] && MirrorsOne(items[0], entries[0]) && Mirrors(items[1..], entries[1..])
  }

  predicate MirrorsOne(it: Item, e: Entry) {
    if it.separator then e == Line
    else if it.children != [] then
      e.Popup? && e.caption == it.caption && e.disabled == it.disabled && Mirrors(it.children, e.entries)
    else
      e.Command? && e.caption == it.caption && e.checked == it.checked && e.disabled == it.disabled
  }

  lemma {:induction false} RenderedMirrorsItems(items: seq<Item>, next: nat)
    ensures Mirrors(items, EntriesOf(items, next))
  {
    hide Wired;
    if items != [] {
      if items[0].children != [] {
        RenderedMirrorsItems(items[0].children, next);
      }
      RenderedMirrorsItems(items[1..], next + |Wired(items[..1])|);
    }
  }

  // ---- the two walks agree ----

  /** The leaves as the rendering walk shows them, in depth-first order. */
  function Leaves(items: seq<Item>): seq<Item> {
    if items == [] then []
    else (if items[0].separator then [] else if items[0].children == [] then [items[0]] else Leaves(items[0].children))
         + Leaves(items[1..])
  }

  /** The commands of a native menu, in depth-first order. */
  function Commands(entries: seq<Entry>): seq<Entry> {
    if entries == [] then []
    else (match entries[0]
          case Line => []
          case Popup(_, below, _) => Commands(below)
          case Command(_, _, _, _) => [entries[0]])
         + Commands(entries[1..])
  }

  /** The commands a leaf list becomes, with ids counting up from `next` over the actionable ones. */
  function CommandsFor(leaves: seq<Item>, next: nat): seq<Entry>
    decreases |leaves|
  {
    if leaves == [] then []
    else [EntryOf(leaves[0], next)] + CommandsFor(leaves[1..], if IsActionable(leaves[0]) then next + 1 else next)
  }

  /** The actions of the actionable leaves. */
  function ActionsOf(leaves: seq<Item>): seq<Action> {
    if leaves == [] then []
    else (if IsActionable(leaves[0]) then [leaves[0].action] else []) + ActionsOf(leaves[1..])
  }

  lemma {:induction false} ActionsOfConcat(a: seq<Item>, b: seq<Item>)
    ensures ActionsOf(a + b) == ActionsOf(a) + ActionsOf(b)
    decreases |a|
  {
    if a == [] {
      assert a + b == b;
    } else {
      assert (a + b)[1..] == a[1..] + b;
      ActionsOfConcat(a[1..], b);
    }
  }

  lemma {:induction false} CommandsForConcat(a: seq<Item>, b: seq<Item>, next: nat)
    ensures CommandsFor(a + b, next) == CommandsFor(a, next) + CommandsFor(b, next + |ActionsOf(a)|)
    decreases |a|
  {
    hide EntryOf;
    if a == [] {
      assert a + b == b;
    } else {
      assert (a + b)[1..] == a[1..] + b;
      CommandsForConcat(a[1..], b, if IsActionable(a[0]) then next + 1 else next);
    }
  }

  /** What the rendering walk wires is what its leaves carry. */
  lemma {:induction false} WiredIsLeafActions(items: seq<Item>)
    ensures Wired(items) == ActionsOf(Leaves(items))
  {
    if items != [] {
      var it := items[0];
      WiredIsLeafActions(items[1..]);
      if it.children != [] {
        WiredIsLeafActions(it.children);
      }
      OneItemWired(it);
      ActionsOfConcat(LeavesOf(it), Leaves(items[1..]));
      hide *;
      WiredCons(items);
      LeavesCons(items);
    }
  }

  lemma OneItemWired(it: Item)
    requires it.children != [] ==> Wired(it.children) == ActionsOf(Leaves(it.children))
    ensures WiredOwn(it) == ActionsOf(LeavesOf(it))
  {
    assert [it][1..] == [];
    if it.children == [] {
      assert Wired(it.children) == [];
    }
  }

  lemma WiredCons(items: seq<Item>)
    requires items != []
    ensures Wired(items) == WiredOwn(items[0]) + Wired(items[1..])
  {
    WiredOfOne(items[0]);
    WiredConcat([items[0]], items[1..]);
    hide *;
    assert items == [items[0]] + items[1..];
  }

  lemma LeavesCons(items: seq<Item>)
    requires items != []
    ensures Leaves(items) == LeavesOf(items[0]) + Leaves(items[1..])
  {}

  /** What the leaves of one item are. */
  function LeavesOf(it: Item): seq<Item> {
    if it.separator then [] else if it.children == [] then [it] else Leaves(it.children)
  }

  lemma OneItemCommands(it: Item, next: nat)
    requires it.children != [] && !it.separator ==>
      Commands(EntriesOf(it.children, next)) == CommandsFor(Leaves(it.children), next)
    ensures Commands([EntryOf(it, next)]) == CommandsFor(LeavesOf(it), next)
  {
    assert [EntryOf(it, next)][1..] == [];
    if !it.separator && it.children == [] {
      assert [it][1..] == [];
    }
  }

  lemma {:induction false} CommandsConcat(a: seq<Entry>, b: seq<Entry>)
    ensures Commands(a + b) == Commands(a) + Commands(b)
    decreases |a|
  {
    if a == [] {
      assert a + b == b;
    } else {
      assert (a + b)[0] == a[0] && (a + b)[1..] == a[1..] + b;
      CommandsConcat(a[1..], b);
    }
  }

  /** The rendered menu shows exactly the leaves, in order, each with its own id. */
  lemma {:induction false} RenderingShowsLeaves(items: seq<Item>, next: nat)
    ensures Commands(EntriesOf(items, next)) == CommandsFor(Leaves(items), next)
    decreases items
  {
    hide EntryOf, ActionsOf, CommandsFor, Commands, Leaves, Wired, EntriesOf;
    if items == [] {
      NothingShown(next);
    } else {
      var it := items[0];
      if it.children != [] && !it.separator {
        RenderingShowsLeaves(it.children, next);
      }
      OneItemCommands(it, next);
      EntriesCons(items, next);
      var after := next + |Wired(items[..1])|;
      RenderingShowsLeaves(items[1..], after);
      CommandsConcat([EntryOf(it, next)], EntriesOf(items[1..], after));
      CommandsForConcat(LeavesOf(it), Leaves(items[1..]), next);
      WiredIsLeafActions(items[..1]);
    }
  }

  lemma NothingShown(next: nat)
    ensures Commands(EntriesOf([], next)) == [] == CommandsFor(Leaves([]), next)
  {}

  lemma EntriesCons(items: seq<Item>, next: nat)
    requires items != []
    ensures EntriesOf(items, next) == [EntryOf(items[0], next)] + EntriesOf(items[1..], next + |Wired(items[..1])|)
    ensures Leaves(items) == LeavesOf(items[0]) + Leaves(items[1..])
    ensures Leaves(items[..1]) == LeavesOf(items[0])
  {
    hide EntryOf, Wired;
    assert items[..1][1..] == [];
  }

  lemma {:induction false} CommandIds(leaves: seq<Item>, next: nat, k: nat)
    requires k < |leaves| && next > 0 && forall l :: l in leaves ==> !l.separator && l.children == []
    ensures |CommandsFor(leaves, next)| == |leaves|
    ensures var c := CommandsFor(leaves, next)[k];
      && c == EntryOf(leaves[k], next + |ActionsOf(leaves[..k])|)
      && (IsActionable(leaves[k]) ==>
           |ActionsOf(leaves[..k])| < |ActionsOf(leaves)|
             && ActionsOf(leaves)[|ActionsOf(leaves[..k])|] == leaves[k].action)
    decreases |leaves|
  {
    hide EntryOf;
    var next' := if IsActionable(leaves[0]) then next + 1 else next;
    if k > 0 {
      CommandIds(leaves[1..], next', k - 1);
      assert leaves[1..][..k - 1] == leaves[..k][1..];
    } else {
      CommandCount(leaves[1..], next');
    }
  }

  lemma {:induction false} CommandCount(leaves: seq<Item>, next: nat)
    ensures |CommandsFor(leaves, next)| == |leaves|
    decreases |leaves|
  {
    hide EntryOf;
    if leaves != [] {
      CommandCount(leaves[1..], if IsActionable(leaves[0]) then next + 1 else next);
    }
  }

  lemma {:induction false} LeavesAreLeaves(items: seq<Item>)
    ensures forall l :: l in Leaves(items) ==> !l.separator && l.children == []
  {
    if items != [] {
      LeavesAreLeaves(items[1..]);
      if items[0].children != [] {
        LeavesAreLeaves(items[0].children);
      }
    }
  }

  // ---- separators with something below them ----

  /** No separator has children, at any level. */
  predicate SeparatorsBare(items: seq<Item>) {
    items == []
    || ((items[0].separator ==> items[0].children == []) && SeparatorsBare(items[0].children)
      && SeparatorsBare(items[1..]))
  }

  /** How many actions the table walk meets below separators, where the rendering walk never looks. */
  function Hidden(items: seq<Item>): nat {
    if items == [] then 0
    else (if items[0].separator then |Actions(items[0].children)| else Hidden(items[0].children)) + Hidden(items[1..])
  }

  lemma {:induction false} HiddenIsTheDifference(items: seq<Item>)
    ensures |Actions(items)| == |Wired(items)| + Hidden(items)
    ensures Hidden(items) == 0 ==> Wired(items) == Actions(items)
  {
    if items != [] {
      HiddenIsTheDifference(items[1..]);
      if !items[0].separator {
        HiddenIsTheDifference(items[0].children);
      }
    }
  }

  /** The two walks number alike exactly when nothing clickable hides below a separator. */
  lemma WalksAgreeIffNothingHidden(items: seq<Item>)
    ensures Wired(items) == Actions(items) <==> Hidden(items) == 0
  {
    HiddenIsTheDifference(items);
  }

  lemma {:induction false} BareHidesNothing(items: seq<Item>)
    requires SeparatorsBare(items)
    ensures Hidden(items) == 0
  {
    if items != [] {
      BareHidesNothing(items[1..]);
      if items[0].separator {
        assert Actions(items[0].children) == [];
      } else {
        BareHidesNothing(items[0].children);
      }
    }
  }

  /** Every id wired onto a leaf stands for that leaf's own action, ids count up from 1 in depth-first order, and 0
      marks exactly the leaves that cannot be clicked. */
  lemma ClicksReachTheirAction(items: seq<Item>, k: nat)
    requires SeparatorsBare(items) && k < |Leaves(items)|
    ensures var commands, leaf := Commands(EntriesOf(items, 1)), Leaves(items)[k];
      && |commands| == |Leaves(items)|
      && commands[k].Command? && commands[k] == Command(commands[k].id, leaf.caption, leaf.checked, leaf.disabled)
      && (commands[k].id == 0 <==> leaf.action.kind == NoAction)
      && (leaf.action.kind != NoAction ==>
           && commands[k].id == 1 + |ActionsOf(Leaves(items)[..k])|
           && commands[k].id in Table(items) && Table(items)[commands[k].id] == leaf.action)
  {
    hide Commands, EntriesOf, CommandsFor, Leaves, Actions, Wired, ActionsOf, Table, SeparatorsBare, Hidden;
    RenderingShowsLeaves(items, 1);
    LeavesAreLeaves(items);
    CommandIds(Leaves(items), 1, k);
    BareHidesNothing(items);
    WalksAgreeIffNothingHidden(items);
    WiredIsLeafActions(items);
    TableIsNumbering(items);
  }

  /** And every id of the table is wired onto some leaf. */
  lemma EveryIdIsWired(items: seq<Item>, id: nat)
    requires SeparatorsBare(items) && id in Table(items)
    ensures exists k :: 0 <= k < |Commands(EntriesOf(items, 1))| && Commands(EntriesOf(items, 1))[k].Command?
                        && Commands(EntriesOf(items, 1))[k].id == id
  {
    hide Commands, EntriesOf, CommandsFor, Leaves, Actions, Wired, ActionsOf, Table, SeparatorsBare, Hidden;
    BareHidesNothing(items);
    WalksAgreeIffNothingHidden(items);
    WiredIsLeafActions(items);
    TableIsNumbering(items);
    var k := LeafOfAction(Leaves(items), id - 1);
    ClicksReachTheirAction(items, k);
  }

  lemma {:induction false} LeafOfAction(leaves: seq<Item>, n: nat) returns (k: nat)
    requires n < |ActionsOf(leaves)|
    ensures k < |leaves| && IsActionable(leaves[k]) && |ActionsOf(leaves[..k])| == n
    decreases |leaves|
  {
    if IsActionable(leaves[0]) && n == 0 {
      k := 0;
    } else {
      k := LeafOfAction(leaves[1..], if IsActionable(leaves[0]) then n - 1 else n);
      assert leaves[1..][..k] == leaves[..k + 1][1..];
      k := k + 1;
    }
  }
}
