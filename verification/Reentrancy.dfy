/** Nested message loops: a dialog pumps every message of the thread, so handlers can be entered while another is
    waiting. The busy flag turns such entries into no-ops; display changes pass it by. */
module Reentrancy {
  import opened Types
  import opened Store

  datatype Message = TrayClick | HotkeyPress | DisplayChange

  /** A handler past its guard, between actions or holding the layout it read and waiting for a dialog; or a display
      change being handled. */
  datatype Frame = Between | Holding(id: string, read: Layout) | Display

  /** The call stack of the thread, innermost handler last. */
  datatype State = State(busy: bool, stack: seq<Frame>, layouts: seq<Layout>)

  datatype Step =
    | Deliver(msg: Message)                 // a message loop dispatches a message
    | Read(id: string)                      // the innermost handler looks a layout up and opens a dialog
    | Write(l: Layout)                      // the dialog is closed and the layout is replaced
    | Cancel                                // the dialog is closed and nothing happens
    | Change(layouts: seq<Layout>)          // a mutation that waits for nothing
    | Return                                // the innermost handler ends

  function Top(s: State): Frame
    requires s.stack != []
  {
    s.stack[|s.stack| - 1]
  }

  function WithTop(s: State, f: Frame): State
    requires s.stack != []
  {
    s.(stack := s.stack[..|s.stack| - 1] + [f])
  }

  /** Messages arrive in the outermost loop or while a handler waits; handling a display change pumps nothing. */
  predicate Enabled(s: State, step: Step) {
    match step
    case Deliver(_) => s.stack == [] || !Top(s).Display?
    case Read(id) => s.stack != [] && Top(s).Between? && IndexOf(s.layouts, id).Some?
    case Write(l) => s.stack != [] && Top(s).Holding? && l.id == Top(s).id && IndexOf(s.layouts, l.id).Some?
    case Cancel => s.stack != [] && Top(s).Holding?
    case Change(_) => s.stack != [] && Top(s).Between?
    case Return => s.stack != [] && !Top(s).Holding?
  }

  /** One step of the thread; `guarded` says whether handlers check the busy flag. */
  function Next(s: State, step: Step, guarded: bool): State
    requires Enabled(s, step)
  {
    match step
    case Deliver(msg) =>
      if msg.DisplayChange? then s.(stack := s.stack + [Display])
      else if guarded && s.busy then s
      else s.(busy := true, stack := s.stack + [Between])
    case Read(id) => WithTop(s, Holding(id, s.layouts[IndexOf(s.layouts, id).value]))
    case Write(l) => WithTop(s, Between).(layouts := s.layouts[IndexOf(s.layouts, l.id).value := l])
    case Cancel => WithTop(s, Between)
    case Change(layouts) => s.(layouts := layouts)
    case Return => s.(stack := s.stack[..|s.stack| - 1], busy := if Top(s).Display? then s.busy else false)
  }

  predicate Possible(s: State, steps: seq<Step>, guarded: bool)
    decreases |steps|
  {
    steps == [] || (Enabled(s, steps[0]) && Possible(Next(s, steps[0], guarded), steps[1..], guarded))
  }

  function Outcome(s: State, steps: seq<Step>, guarded: bool): State
    requires Possible(s, steps, guarded)
    decreases |steps|
  {
    if steps == [] then s else Outcome(Next(s, steps[0], guarded), steps[1..], guarded)
  }

  /** How many tray or hotkey handlers are past their guard. */
  function Handlers(stack: seq<Frame>): nat {
    if stack == [] then 0 else Handlers(stack[..|stack| - 1]) + if stack[|stack| - 1].Display? then 0 else 1
  }

  /** The layout a waiting handler read is still the stored one. */
  ghost predicate Current(s: State, f: Frame) {
    f.Holding? ==> IndexOf(s.layouts, f.id).Some? && s.layouts[IndexOf(s.layouts, f.id).value] == f.read
  }

  /** At most one handler, innermost but for a display change on top of it, and what it holds is current. */
  ghost predicate Inv(s: State) {
    && |s.stack| <= 2
    && (s.busy <==> exists k :: 0 <= k < |s.stack| && !s.stack[k].Display?)
    && (|s.stack| == 2 ==> !s.stack[0].Display? && s.stack[1].Display?)
    && forall k :: 0 <= k < |s.stack| ==> Current(s, s.stack[k])
  }

  lemma DeliverKeepsInv(s: State, msg: Message)
    requires Inv(s) && Enabled(s, Deliver(msg))
    ensures Inv(Next(s, Deliver(msg), true))
  {
    hide IndexOf;
    var s' := Next(s, Deliver(msg), true);
    assert s.stack != [] ==> s.stack[|s.stack| - 1] == Top(s);
    if |s.stack| == 1 {
      assert s'.stack[0] == s.stack[0];
    } else if !msg.DisplayChange? {
      assert s'.stack == [Between] && !s'.stack[0].Display?;
    }
  }

  lemma StepKeepsInv(s: State, step: Step)
    requires Inv(s) && Enabled(s, step)
    ensures Inv(Next(s, step, true))
  {
    hide IndexOf;
    var s' := Next(s, step, true);
    assert s.stack != [] ==> s.stack[|s.stack| - 1] == Top(s);
    match step
    case Deliver(msg) => DeliverKeepsInv(s, msg);
    case Read(_) => assert s'.stack == [Top(s')];
    case Write(_) => assert s'.stack == [Top(s')];
    case Cancel => assert s'.stack == [Top(s')];
    case Change(_) =>
    case Return => assert s'.stack == s.stack[..|s.stack| - 1];
  }

  lemma {:induction false} RunKeepsInv(s: State, steps: seq<Step>)
    requires Inv(s) && Possible(s, steps, true)
    ensures Inv(Outcome(s, steps, true))
    decreases |steps|
  {
    hide Inv, Next, Enabled;
    if steps != [] {
      StepKeepsInv(s, steps[0]);
      RunKeepsInv(Next(s, steps[0], true), steps[1..]);
    }
  }

  lemma {:induction false} AtMostOne(stack: seq<Frame>)
    requires |stack| <= 2 && (|stack| == 2 ==> stack[1].Display?)
    ensures Handlers(stack) <= 1
  {
    if |stack| == 2 {
      assert Handlers(stack[..1]) <= 1 by {
        assert stack[..1][..0] == [];
      }
    } else if |stack| == 1 {
      assert stack[..0] == [];
    }
  }

  /** Under every interleaving at most one tray or hotkey handler is past its guard. */
  lemma OneHandlerAtATime(layouts: seq<Layout>, steps: seq<Step>)
    requires Possible(State(false, [], layouts), steps, true)
    ensures Handlers(Outcome(State(false, [], layouts), steps, true).stack) <= 1
  {
    hide Next, Enabled, Possible, Outcome, Handlers;
    RunKeepsInv(State(false, [], layouts), steps);
    AtMostOne(Outcome(State(false, [], layouts), steps, true).stack);
  }

  /** Under every interleaving the layout an action read is still the stored one when it replaces it: no update is lost,
      although display changes bypass the guard. */
  lemma NoLostUpdate(layouts: seq<Layout>, steps: seq<Step>, l: Layout)
    requires Possible(State(false, [], layouts), steps, true)
    requires Enabled(Outcome(State(false, [], layouts), steps, true), Write(l))
    ensures var s := Outcome(State(false, [], layouts), steps, true);
      s.layouts[IndexOf(s.layouts, l.id).value] == Top(s).read
  {
    hide Next, Possible, Outcome, IndexOf;
    RunKeepsInv(State(false, [], layouts), steps);
    var s := Outcome(State(false, [], layouts), steps, true);
    assert Current(s, s.stack[|s.stack| - 1]);
  }

  /** The guard is what makes it so: without it, a click inside an open dialog gets the same layout changed twice and
      the first change is overwritten. */
  lemma WithoutGuardUpdatesAreLost(l: Layout, mine: Layout, theirs: Layout)
    requires mine.id == theirs.id == l.id && theirs != l
    ensures var steps := [Deliver(TrayClick), Read(l.id), Deliver(TrayClick), Read(l.id), Write(theirs), Return];
      var start := State(false, [], [l]);
      && Possible(start, steps, false)
      && var s := Outcome(start, steps, false);
         Enabled(s, Write(mine)) && s.layouts[0] == theirs && Top(s).read != theirs
  {
    hide IndexOf, Possible, Outcome;
    var s0 := State(false, [], [l]);
    var steps := [Deliver(TrayClick), Read(l.id), Deliver(TrayClick), Read(l.id), Write(theirs), Return];
    var s1 := State(true, [Between], [l]);
    var s2 := State(true, [Holding(l.id, l)], [l]);
    var s3 := State(true, [Holding(l.id, l), Between], [l]);
    var s4 := State(true, [Holding(l.id, l), Holding(l.id, l)], [l]);
    var s5 := State(true, [Holding(l.id, l), Between], [theirs]);
    var s6 := State(false, [Holding(l.id, l)], [theirs]);
    IndexIs([l], l.id, 0);
    IndexIs([theirs], l.id, 0);
    var done: seq<Step> := [];
    RunsTo(s6, done, s6);
    assert Next(s5, Return, false).stack == s6.stack;
    ThenRuns(s5, Return, s6, done, s6);
    var r5 := [Return] + done;
    var r4 := [Write(theirs)] + r5;
    ThenRuns(s4, Write(theirs), s5, r5, s6);
    var r3 := [Read(l.id)] + r4;
    ThenRuns(s3, Read(l.id), s4, r4, s6);
    var r2 := [Deliver(TrayClick)] + r3;
    ThenRuns(s2, Deliver(TrayClick), s3, r3, s6);
    var r1 := [Read(l.id)] + r2;
    assert Next(s1, Read(l.id), false).stack == s2.stack;
    ThenRuns(s1, Read(l.id), s2, r2, s6);
    ThenRuns(s0, Deliver(TrayClick), s1, r1, s6);
    assert [Deliver(TrayClick)] + r1 == steps;
  }

  lemma RunsTo(s: State, steps: seq<Step>, t: State)
    requires steps == [] && s == t
    ensures Possible(s, steps, false) && Outcome(s, steps, false) == t
  {}

  lemma ThenRuns(s: State, step: Step, next: State, steps: seq<Step>, t: State)
    requires Enabled(s, step) && Next(s, step, false) == next && Possible(next, steps, false)
      && Outcome(next, steps, false) == t
    ensures Possible(s, [step] + steps, false) && Outcome(s, [step] + steps, false) == t
  {
    hide Enabled, Next;
    assert ([step] + steps)[1..] == steps;
  }
}
