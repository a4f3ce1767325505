/** Syncs in which any release may fail. The loop at the start of a sync logs such a failure and forgets the id, so
    that the process can hold combinations nobody keeps track of. */
module HotkeyLeaks {
  import opened Types
  import opened Text
  import opened HotkeySelect
  import opened HotkeyManager
  import opened HotkeyRuns

  // ---- the registrations of one sync, whatever is held at the start ----

  /** One of the first n bindings has this layout and this combination. */
  ghost predicate FromBinding(layoutID: string, c: Combo, bs: seq<Binding>, n: nat)
    requires n <= |bs|
  {
    exists k :: 0 <= k < n && bs[k].layoutID == layoutID && ComboOf(bs[k]) == c
  }

  predicate GivenOut(p: Progress, id: int) {
    1 <= id < p.next
  }

  /** After n bindings: the ids given out are on record, each for a binding whose combination it holds; every other
      id is as it was. */
  ghost predicate Shape(p: Progress, own: map<int, Combo>, bs: seq<Binding>, n: nat)
    requires n <= |bs|
  {
    && p.next >= 1 && (forall id :: id in p.registered <==> GivenOut(p, id))
    && (forall id :: GivenOut(p, id) ==>
         id in p.registered && id in p.own && FromBinding(p.registered[id], p.own[id], bs, n))
    && (forall id :: !GivenOut(p, id) ==> (id in p.own <==> id in own) && (id in own ==> p.own[id] == own[id]))
  }

  lemma {:induction false} RegisterFromShape(own: map<int, Combo>, bs: seq<Binding>, foreign: set<Combo>,
                                             was: set<string>, n: nat)
    requires n <= |bs|
    ensures Shape(RegisterFrom(own, bs, foreign, was, n), own, bs, n)
  {
    hide Advance, Shape;
    if n == 0 {
      StartShape(own, bs);
    } else {
      RegisterFromShape(own, bs, foreign, was, n - 1);
      AdvanceShape(RegisterFrom(own, bs, foreign, was, n - 1), own, bs, foreign, was, n - 1);
    }
  }

  lemma StartShape(own: map<int, Combo>, bs: seq<Binding>)
    ensures Shape(Progress(own, map[], {}, 0, 1), own, bs, 0)
  {}

  lemma AdvanceShape(p: Progress, own: map<int, Combo>, bs: seq<Binding>, foreign: set<Combo>, was: set<string>, n: nat)
    requires n < |bs| && Shape(p, own, bs, n)
    ensures Shape(Advance(p, bs[n], foreign, was), own, bs, n + 1)
  {
    hide ComboOf;
    assert FromBinding(bs[n].layoutID, ComboOf(bs[n]), bs, n + 1);
    forall id | GivenOut(p, id) ensures FromBinding(p.registered[id], p.own[id], bs, n + 1) {
      var k :| 0 <= k < n && bs[k].layoutID == p.registered[id] && ComboOf(bs[k]) == p.own[id];
    }
  }

  /** Binding n is refused at its turn. */
  ghost predicate Refused(own: map<int, Combo>, bs: seq<Binding>, foreign: set<Combo>, was: set<string>, n: nat)
    requires n < |bs|
  {
    ComboOf(bs[n]) in foreign || ComboOf(bs[n]) in RegisterFrom(own, bs, foreign, was, n).own.Values
  }

  /** Some leftover still holds c when the ids below `next` have been given out anew. */
  ghost predicate LeftoverHolds(own: map<int, Combo>, next: int, c: Combo) {
    exists id :: id in own && own[id] == c && !(1 <= id < next)
  }

  /** With distinct bindings only other applications and leftovers stand in the way: a leftover does as long as its
      id has not been given out anew. */
  lemma RefusedExactlyWhen(own: map<int, Combo>, bs: seq<Binding>, foreign: set<Combo>, was: set<string>, n: nat)
    requires n < |bs| && DistinctBindings(bs)
    ensures Refused(own, bs, foreign, was, n) <==>
      ComboOf(bs[n]) in foreign
      || LeftoverHolds(own, RegisterFrom(own, bs, foreign, was, n).next, ComboOf(bs[n]))
  {
    hide ComboOf, RegisterFrom;
    var p, c := RegisterFrom(own, bs, foreign, was, n), ComboOf(bs[n]);
    RegisterFromShape(own, bs, foreign, was, n);
    forall id | GivenOut(p, id) ensures p.own[id] != c {
      var k :| 0 <= k < n && bs[k].layoutID == p.registered[id] && ComboOf(bs[k]) == p.own[id];
      if ComboOf(bs[k]) == c {
        CombosDiffer(bs[k], bs[n]);
      }
    }
    if LeftoverHolds(own, p.next, c) {
      var id :| id in own && own[id] == c && !(1 <= id < p.next);
      assert !GivenOut(p, id) && p.own[id] == c;
    }
    ValuesAreHeld(p.own, c);
  }

  lemma ValuesAreHeld(own: map<int, Combo>, c: Combo)
    ensures c in own.Values <==> exists id :: id in own && own[id] == c
  {
    if forall id :: id in own ==> own[id] != c {
      assert c !in own.Values;
    }
  }

  ghost predicate SomeTurn(own: map<int, Combo>, bs: seq<Binding>, foreign: set<Combo>, was: set<string>, n: nat,
                           layoutID: string, refused: bool)
    requires n <= |bs|
  {
    exists k :: 0 <= k < n && bs[k].layoutID == layoutID && Refused(own, bs, foreign, was, k) == refused
  }

  /** Layouts are on record or unavailable by what happened at their turns. */
  lemma {:induction false} OutcomeOfTurns(own: map<int, Combo>, bs: seq<Binding>, foreign: set<Combo>, was: set<string>,
                                          n: nat, layoutID: string)
    requires n <= |bs|
    ensures var p := RegisterFrom(own, bs, foreign, was, n);
      && (layoutID in p.unavailable <==> SomeTurn(own, bs, foreign, was, n, layoutID, true))
      && (Mentions(p.registered, layoutID) <==> SomeTurn(own, bs, foreign, was, n, layoutID, false))
  {
    hide ComboOf, Mentions, SomeTurn;
    if n == 0 {
      NoTurns(own, bs, foreign, was, layoutID);
    } else {
      var p := RegisterFrom(own, bs, foreign, was, n - 1);
      OutcomeOfTurns(own, bs, foreign, was, n - 1, layoutID);
      RegisterFromShape(own, bs, foreign, was, n - 1);
      OneMoreTurn(own, bs, foreign, was, n - 1, layoutID);
      MentionsPut(p.registered, p.next, bs[n - 1].layoutID, layoutID);
    }
  }

  lemma NoTurns(own: map<int, Combo>, bs: seq<Binding>, foreign: set<Combo>, was: set<string>, layoutID: string)
    ensures !SomeTurn(own, bs, foreign, was, 0, layoutID, true) && !SomeTurn(own, bs, foreign, was, 0, layoutID, false)
    ensures !Mentions(map[], layoutID)
  {}

  lemma OneMoreTurn(own: map<int, Combo>, bs: seq<Binding>, foreign: set<Combo>, was: set<string>, n: nat,
                    layoutID: string)
    requires n < |bs|
    ensures forall refused :: SomeTurn(own, bs, foreign, was, n + 1, layoutID, refused) <==>
      SomeTurn(own, bs, foreign, was, n, layoutID, refused)
      || (bs[n].layoutID == layoutID && Refused(own, bs, foreign, was, n) == refused)
  {
    hide Refused;
  }

  lemma MentionsPut(registered: map<int, string>, id: int, layoutID: string, other: string)
    requires id !in registered
    ensures Mentions(registered[id := layoutID], other) <==> Mentions(registered, other) || layoutID == other
  {
    var after := registered[id := layoutID];
    assert after[id] == layoutID;
    if Mentions(registered, other) {
      var k :| k in registered && registered[k] == other;
      assert k in after && after[k] == other;
    }
  }

  /** After a sync in any state, whatever releases failed: every active layout is registered or unavailable, never
      both; it is unavailable exactly when another application holds its combination, or a leftover whose id has not
      been given out anew when its turn comes. */
  lemma SyncPartitionsActiveAnyway(s: State, bs: seq<Binding>, n: nat)
    requires n < |bs| && DistinctBindings(bs) && DistinctLayouts(bs)
    ensures var s' := Resync(s, bs);
      var next := RegisterFrom(Released(s), bs, s.foreign, s.unavailable, n).next;
      && (IsRegistered(s', bs[n].layoutID) <==> bs[n].layoutID !in s'.unavailable)
      && (bs[n].layoutID in s'.unavailable <==>
            ComboOf(bs[n]) in s.foreign || LeftoverHolds(Released(s), next, ComboOf(bs[n])))
  {
    hide ComboOf, RegisterFrom, Released, Refused, DistinctBindings, LeftoverHolds, Mentions;
    OutcomeOfTurns(Released(s), bs, s.foreign, s.unavailable, |bs|, bs[n].layoutID);
    RefusedExactlyWhen(Released(s), bs, s.foreign, s.unavailable, n);
    OnlyTurn(Released(s), bs, s.foreign, s.unavailable, n);
  }

  /** In particular for the active bindings of any store with distinct ids. */
  lemma SyncOfAnyStore(tx: Locale, s: State, layouts: seq<Layout>, fp: string, n: nat)
    requires DistinctIDs(layouts) && n < |ActiveOf(tx, layouts, fp, |layouts|)|
    ensures var bs := ActiveOf(tx, layouts, fp, |layouts|);
      var s' := Step(tx, s, Sync(layouts, fp));
      var next := RegisterFrom(Released(s), bs, s.foreign, s.unavailable, n).next;
      && (IsRegistered(s', bs[n].layoutID) <==> bs[n].layoutID !in s'.unavailable)
      && (bs[n].layoutID in s'.unavailable <==>
            ComboOf(bs[n]) in s.foreign || LeftoverHolds(Released(s), next, ComboOf(bs[n])))
  {
    hide ActiveOf, RegisterFrom, Released, Resync, LeftoverHolds, IsRegistered, ComboOf, DistinctBindings,
      DistinctLayouts, DistinctIDs;
    ActiveIsDistinct(tx, layouts, fp, |layouts|);
    ActiveLayoutsDistinct(tx, layouts, fp, |layouts|);
    SyncPartitionsActiveAnyway(s, ActiveOf(tx, layouts, fp, |layouts|), n);
  }

  /** The state tells the truth about these bindings: behind every registration stands one of them, whose combination is
      held under its id; and each is registered or unavailable. */
  ghost predicate Reflects(s: State, bs: seq<Binding>) {
    && (forall id :: id in s.registered ==> id in s.own && FromBinding(s.registered[id], s.own[id], bs, |bs|))
    && (forall k :: 0 <= k < |bs| ==> (IsRegistered(s, bs[k].layoutID) <==> bs[k].layoutID !in s.unavailable))
  }

  lemma ResyncReflects(s: State, bs: seq<Binding>)
    requires DistinctBindings(bs) && DistinctLayouts(bs)
    ensures Reflects(Resync(s, bs), bs)
  {
    hide RegisterFrom, Released, FromBinding, LeftoverHolds, IsRegistered, ComboOf, DistinctBindings, DistinctLayouts;
    RegisterFromShape(Released(s), bs, s.foreign, s.unavailable, |bs|);
    forall k: nat | k < |bs|
      ensures IsRegistered(Resync(s, bs), bs[k].layoutID) <==> bs[k].layoutID !in Resync(s, bs).unavailable
    {
      SyncPartitionsActiveAnyway(s, bs, k);
    }
  }

  /** A registration holds c exactly when c is the combination of a binding that is not unavailable. */
  lemma HeldForBinding(s: State, bs: seq<Binding>, c: Combo)
    requires Reflects(s, bs) && DistinctLayouts(bs)
    ensures (exists id :: id in s.registered && id in s.own && s.own[id] == c)
       <==> exists k :: 0 <= k < |bs| && ComboOf(bs[k]) == c && bs[k].layoutID !in s.unavailable
  {
    hide ComboOf;
    forall id | id in s.registered && id in s.own && s.own[id] == c
      ensures exists k :: 0 <= k < |bs| && ComboOf(bs[k]) == c && bs[k].layoutID !in s.unavailable
    {
      var k :| 0 <= k < |bs| && bs[k].layoutID == s.registered[id] && ComboOf(bs[k]) == s.own[id];
      assert IsRegistered(s, bs[k].layoutID);
    }
    if exists k :: 0 <= k < |bs| && ComboOf(bs[k]) == c && bs[k].layoutID !in s.unavailable {
      var k :| 0 <= k < |bs| && ComboOf(bs[k]) == c && bs[k].layoutID !in s.unavailable;
      assert IsRegistered(s, bs[k].layoutID);
      var id :| id in s.registered && s.registered[id] == bs[k].layoutID;
      var j :| 0 <= j < |bs| && bs[j].layoutID == s.registered[id] && ComboOf(bs[j]) == s.own[id];
      assert j == k;
    }
  }

  lemma OnlyTurn(own: map<int, Combo>, bs: seq<Binding>, foreign: set<Combo>, was: set<string>, n: nat)
    requires n < |bs| && DistinctLayouts(bs)
    ensures forall refused :: SomeTurn(own, bs, foreign, was, |bs|, bs[n].layoutID, refused) <==>
      Refused(own, bs, foreign, was, n) == refused
  {
    hide Refused;
  }

  lemma {:induction false} NewlyCounts(own: map<int, Combo>, bs: seq<Binding>, foreign: set<Combo>, was: set<string>,
                                       n: nat)
    requires n <= |bs| && DistinctLayouts(bs)
    ensures var p := RegisterFrom(own, bs, foreign, was, n);
      p.newly == |p.unavailable - was|
  {
    hide ComboOf, SomeTurn, DistinctLayouts;
    if n > 0 {
      var p, id := RegisterFrom(own, bs, foreign, was, n - 1), bs[n - 1].layoutID;
      NewlyCounts(own, bs, foreign, was, n - 1);
      OutcomeOfTurns(own, bs, foreign, was, n - 1, id);
      NotYetTurned(own, bs, foreign, was, n - 1);
      DifferenceGrows(p.unavailable, was, id);
    }
  }

  lemma NotYetTurned(own: map<int, Combo>, bs: seq<Binding>, foreign: set<Combo>, was: set<string>, n: nat)
    requires n < |bs| && DistinctLayouts(bs)
    ensures !SomeTurn(own, bs, foreign, was, n, bs[n].layoutID, true)
  {
    hide Refused;
  }

  lemma DifferenceGrows(ids: set<string>, was: set<string>, id: string)
    requires id !in ids
    ensures |ids + {id} - was| == |ids - was| + if id in was then 0 else 1
  {
    assert ids + {id} - was == (ids - was) + if id in was then {} else {id};
  }

  /** What a sync returns: how many layouts are unavailable now and were not before. */
  lemma NewlyIsTheDifference(s: State, bs: seq<Binding>)
    requires DistinctLayouts(bs)
    ensures SyncRun(s, bs).newly == |Resync(s, bs).unavailable - s.unavailable|
  {
    hide RegisterFrom, DistinctLayouts;
    NewlyCounts(Released(s), bs, s.foreign, s.unavailable, |bs|);
  }

  // ---- what stays on record ----

  /** Everything held but the probe's id is on record. */
  ghost predicate RecordComplete(s: State) {
    s.own.Keys - {PROBE_ID} == s.registered.Keys
  }

  /** A sync forgets the releases that fail: whatever was held before, the record is complete again exactly when every
      id whose release failed is given out anew. */
  lemma RecordCompleteIffReused(s: State, bs: seq<Binding>)
    requires RecordComplete(s)
    ensures var s' := Resync(s, bs);
      && s'.registered.Keys == Ids(|s'.registered|)
      && (RecordComplete(s') <==> forall id :: id in s.registered && id in s.stuck ==> id in s'.registered)
  {
    hide RegisterFrom, Ids, Released, Shape;
    var p := SyncRun(s, bs);
    RegisterFromShape(Released(s), bs, s.foreign, s.unavailable, |bs|);
    GivenIds(p, Released(s), bs);
    ReleasedKeys(s);
    LeftBehind(Released(s).Keys, p.registered.Keys, s.registered.Keys, s.stuck);
  }

  lemma GivenIds(p: Progress, own: map<int, Combo>, bs: seq<Binding>)
    requires Shape(p, own, bs, |bs|)
    ensures p.registered.Keys == Ids(p.next - 1) == Ids(|p.registered|) && p.own.Keys == own.Keys + p.registered.Keys
    ensures PROBE_ID !in p.registered.Keys
  {
    hide FromBinding, ComboOf, Ids;
    assert forall id :: id in p.registered <==> GivenOut(p, id);
    IdsCount(p.registered, p.next - 1);
    KeysUnite(own, p.own, p.registered, p.next);
  }

  lemma KeysUnite(own: map<int, Combo>, own': map<int, Combo>, registered: map<int, string>, next: int)
    requires forall id :: id in registered <==> 1 <= id < next
    requires forall id :: 1 <= id < next ==> id in own'
    requires forall id :: !(1 <= id < next) ==> (id in own' <==> id in own)
    ensures own'.Keys == own.Keys + registered.Keys && PROBE_ID !in registered.Keys
  {
    forall id ensures id in own'.Keys <==> id in own.Keys || id in registered.Keys {
      assert id in registered <==> 1 <= id < next;
      assert !(1 <= id < next) ==> (id in own' <==> id in own);
      assert 1 <= id < next ==> id in own';
    }
  }

  lemma IdsCount(registered: map<int, string>, n: nat)
    requires forall id :: id in registered <==> 1 <= id <= n
    ensures registered.Keys == Ids(n) && |registered| == n
  {
    assert registered.Keys == Ids(n);
    assert |registered| == |registered.Keys|;
  }

  lemma ReleasedKeys(s: State)
    requires RecordComplete(s)
    ensures Released(s).Keys - {PROBE_ID} == s.registered.Keys * s.stuck
  {
    forall id ensures id in Released(s).Keys - {PROBE_ID} <==> id in s.registered.Keys * s.stuck {
      assert id in s.own.Keys - {PROBE_ID} <==> id in s.registered.Keys;
    }
  }

  lemma LeftBehind(kept: set<int>, given: set<int>, registered: set<int>, stuck: set<int>)
    requires kept - {PROBE_ID} == registered * stuck && PROBE_ID !in given
    ensures kept + given - {PROBE_ID} == given <==> forall id :: id in registered && id in stuck ==> id in given
  {
    assert kept + given - {PROBE_ID} == registered * stuck + given;
    if forall id :: id in registered && id in stuck ==> id in given {
      assert registered * stuck + given == given;
    }
    if registered * stuck + given == given {
      forall id | id in registered && id in stuck ensures id in given {
        assert id in registered * stuck + given;
      }
    }
  }

  /** Nobody stands in the way of any binding. */
  ghost predicate AllFree(s: State, bs: seq<Binding>) {
    forall k :: 0 <= k < |bs| ==> ComboOf(bs[k]) !in s.foreign && ComboOf(bs[k]) !in Released(s).Values
  }

  lemma {:induction false} AllGranted(s: State, bs: seq<Binding>, n: nat)
    requires n <= |bs| && DistinctBindings(bs) && AllFree(s, bs)
    ensures RegisterFrom(Released(s), bs, s.foreign, s.unavailable, n).next == n + 1
  {
    hide ComboOf, Released, Refused, DistinctBindings;
    if n > 0 {
      AllGranted(s, bs, n - 1);
      RefusedExactlyWhen(Released(s), bs, s.foreign, s.unavailable, n - 1);
      FreeIsGranted(s, bs, n - 1);
    }
  }

  lemma FreeIsGranted(s: State, bs: seq<Binding>, n: nat)
    requires n < |bs| && DistinctBindings(bs) && AllFree(s, bs)
    ensures !Refused(Released(s), bs, s.foreign, s.unavailable, n)
    ensures RegisterFrom(Released(s), bs, s.foreign, s.unavailable, n + 1).next
         == RegisterFrom(Released(s), bs, s.foreign, s.unavailable, n).next + 1
  {
    hide ComboOf, Released, DistinctBindings;
    var own := Released(s);
    RefusedExactlyWhen(own, bs, s.foreign, s.unavailable, n);
    ValuesAreHeld(own, ComboOf(bs[n]));
  }

  /** Decided before the sync: when no active combination is foreign or left over, the record is complete again exactly
      when no id whose release fails exceeds the number of active bindings. */
  lemma RecordCompleteIffFewFail(s: State, bs: seq<Binding>)
    requires RecordComplete(s) && s.registered.Keys == Ids(|s.registered|) && DistinctBindings(bs) && AllFree(s, bs)
    ensures RecordComplete(Resync(s, bs)) <==> forall id :: id in s.registered && id in s.stuck ==> id <= |bs|
  {
    hide RegisterFrom, Released, RecordComplete, AllFree, DistinctBindings, Shape;
    AllGranted(s, bs, |bs|);
    RecordCompleteIffReused(s, bs);
    RegisterFromShape(Released(s), bs, s.foreign, s.unavailable, |bs|);
    GivenIds(SyncRun(s, bs), Released(s), bs);
    forall id | id in s.registered ensures id in Resync(s, bs).registered <==> id <= |bs| {
      assert id in s.registered.Keys && id in Ids(|s.registered|);
      assert id in Resync(s, bs).registered <==> id in Ids(|bs|);
    }
  }

  // ---- whole runs with any releases failing ----

  ghost predicate MayHappen(s: State, e: Event) {
    e.World? ==> e.foreign !! s.own.Values
  }

  ghost function Step(tx: Locale, s: State, e: Event): State {
    match e
    case Sync(layouts, fp) => Resync(s, ActiveOf(tx, layouts, fp, |layouts|))
    case Probe(c) => AfterProbe(s, c)
    case World(foreign, stuck) => s.(foreign := foreign, stuck := stuck)
  }

  ghost predicate CanRun(tx: Locale, s: State, events: seq<Event>)
    decreases |events|
  {
    events == [] || (MayHappen(s, events[0]) && CanRun(tx, Step(tx, s, events[0]), events[1..]))
  }

  ghost function Result(tx: Locale, s: State, events: seq<Event>): State
    decreases |events|
  {
    if events == [] then s else Result(tx, Step(tx, s, events[0]), events[1..])
  }

  /** What survives failing releases: registrations are the ids 1..k and are held, and no combination is both ours and
      foreign. */
  ghost predicate Sane(s: State) {
    s.registered.Keys == Ids(|s.registered|) && s.registered.Keys <= s.own.Keys && s.foreign !! s.own.Values
  }

  lemma {:induction false} RegisteringAvoids(own: map<int, Combo>, bs: seq<Binding>, foreign: set<Combo>,
                                             was: set<string>, n: nat)
    requires n <= |bs| && foreign !! own.Values
    ensures foreign !! RegisterFrom(own, bs, foreign, was, n).own.Values
  {
    hide ComboOf, Advance;
    if n > 0 {
      RegisteringAvoids(own, bs, foreign, was, n - 1);
      AdvanceAvoids(RegisterFrom(own, bs, foreign, was, n - 1), bs[n - 1], foreign, was);
    }
  }

  lemma AdvanceAvoids(p: Progress, b: Binding, foreign: set<Combo>, was: set<string>)
    requires foreign !! p.own.Values
    ensures foreign !! Advance(p, b, foreign, was).own.Values
  {
    hide ComboOf;
    assert p.own[p.next := ComboOf(b)].Values <= p.own.Values + {ComboOf(b)};
  }

  lemma ReleasedAvoids(s: State)
    requires s.foreign !! s.own.Values
    ensures s.foreign !! Released(s).Values
  {
    assert Released(s).Values <= s.own.Values;
  }

  lemma ResyncIsSane(s: State, bs: seq<Binding>)
    requires s.foreign !! s.own.Values
    ensures Sane(Resync(s, bs))
  {
    hide RegisterFrom, Released, Ids, Shape;
    ReleasedAvoids(s);
    RegisteringAvoids(Released(s), bs, s.foreign, s.unavailable, |bs|);
    RegisterFromShape(Released(s), bs, s.foreign, s.unavailable, |bs|);
    GivenIds(SyncRun(s, bs), Released(s), bs);
  }

  lemma ProbeKeepsSane(s: State, c: Combo)
    requires Sane(s)
    ensures Sane(AfterProbe(s, c))
  {
    hide Ids;
    UpdateAvoids(s.own, c, s.foreign);
    assert PROBE_ID !in s.registered.Keys;
    KeysStay(s.own, c, s.registered.Keys);
  }

  lemma KeysStay(own: map<int, Combo>, c: Combo, ids: set<int>)
    requires ids <= own.Keys && PROBE_ID !in ids
    ensures ids <= own[PROBE_ID := c].Keys && ids <= (own - {PROBE_ID}).Keys
  {}

  lemma {:induction false} RunKeepsSane(tx: Locale, s: State, events: seq<Event>)
    requires Sane(s) && CanRun(tx, s, events)
    ensures Sane(Result(tx, s, events))
    decreases |events|
  {
    hide Resync, AfterProbe, ActiveOf, Ids;
    if events != [] {
      match events[0] {
        case Sync(layouts, fp) => ResyncIsSane(s, ActiveOf(tx, layouts, fp, |layouts|));
        case Probe(c) => ProbeKeepsSane(s, c);
        case World(_, _) =>
      }
      RunKeepsSane(tx, Step(tx, s, events[0]), events[1..]);
    }
  }

  lemma EveryRunIsSane(tx: Locale, events: seq<Event>)
    requires CanRun(tx, INITIAL, events)
    ensures Sane(Result(tx, INITIAL, events))
  {
    hide CanRun, Result;
    RunKeepsSane(tx, INITIAL, events);
  }

  // ---- forgotten registrations ----

  /** The id is held, though neither the probe's nor on record. */
  ghost predicate Forgotten(s: State, id: int, c: Combo) {
    id in s.own && s.own[id] == c && id != PROBE_ID && id !in s.registered
  }

  /** An id whose release fails, or that was forgotten before, keeps its combination through a sync with any bindings,
      unless it is given out anew: then it is forgotten. */
  lemma SyncForgets(s: State, bs: seq<Binding>, id: int)
    requires id in s.own && id != PROBE_ID && (id in s.registered ==> id in s.stuck)
    ensures id in Resync(s, bs).registered || Forgotten(Resync(s, bs), id, s.own[id])
  {
    hide RegisterFrom, FromBinding;
    RegisterFromShape(Released(s), bs, s.foreign, s.unavailable, |bs|);
    assert id in Released(s) && Released(s)[id] == s.own[id];
  }

  ghost predicate NeverGivenOut(tx: Locale, s: State, events: seq<Event>, id: int)
    decreases |events|
  {
    events == [] || (id !in Step(tx, s, events[0]).registered
      && NeverGivenOut(tx, Step(tx, s, events[0]), events[1..], id))
  }

  lemma StepForgets(tx: Locale, s: State, e: Event, id: int, c: Combo)
    requires Forgotten(s, id, c) && id !in Step(tx, s, e).registered
    ensures Forgotten(Step(tx, s, e), id, c)
  {
    hide ActiveOf, Resync, Grants;
    if e.Sync? {
      SyncForgets(s, ActiveOf(tx, e.layouts, e.fp, |e.layouts|), id);
    }
  }

  /** A forgotten registration keeps its combination through every run of syncs, probes and changes elsewhere, whichever
      releases fail or succeed, for as long as its id is not given out anew. */
  lemma {:induction false} ForgottenStays(tx: Locale, s: State, events: seq<Event>, id: int, c: Combo)
    requires Forgotten(s, id, c) && NeverGivenOut(tx, s, events, id)
    ensures Forgotten(Result(tx, s, events), id, c)
    decreases |events|
  {
    hide Step, Forgotten;
    if events != [] {
      NotGivenOutNow(tx, s, events, id);
      StepForgets(tx, s, events[0], id, c);
      ForgottenStays(tx, Step(tx, s, events[0]), events[1..], id, c);
    }
  }

  lemma NotGivenOutNow(tx: Locale, s: State, events: seq<Event>, id: int)
    requires events != [] && NeverGivenOut(tx, s, events, id)
    ensures id !in Step(tx, s, events[0]).registered && NeverGivenOut(tx, Step(tx, s, events[0]), events[1..], id)
  {}
}
