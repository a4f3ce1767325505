/** What holds in every run of syncs and probes, whatever other applications do in between. */
module HotkeyRuns {
  import opened Types
  import opened Text
  import opened HotkeySelect
  import opened HotkeyManager

  datatype Event =
    | Sync(layouts: seq<Layout>, fp: string)
    | Probe(c: Combo)
    | World(foreign: set<Combo>, stuck: set<int>)

  const INITIAL := State(map[], {}, {}, map[], {}, false)

  /** The system may move anywhere except onto combinations this process holds; only releasing the probe can fail. */
  ghost predicate Legal(s: State, e: Event) {
    e.World? ==> e.foreign !! s.own.Values && e.stuck <= {PROBE_ID}
  }

  ghost function Next(tx: Locale, s: State, e: Event): State {
    match e
    case Sync(layouts, fp) => AfterSync(s, ActiveOf(tx, layouts, fp, |layouts|))
    case Probe(c) => AfterProbe(s, c)
    case World(foreign, stuck) => s.(foreign := foreign, stuck := stuck)
  }

  ghost predicate Possible(tx: Locale, s: State, events: seq<Event>)
    decreases |events|
  {
    events == [] || (Legal(s, events[0]) && Possible(tx, Next(tx, s, events[0]), events[1..]))
  }

  ghost function Outcome(tx: Locale, s: State, events: seq<Event>): State
    decreases |events|
  {
    if events == [] then s else Outcome(tx, Next(tx, s, events[0]), events[1..])
  }

  // ---- one sync ----

  lemma HeldAvoidsBlocked(bs: seq<Binding>, blocked: set<Combo>)
    ensures HeldAs(Granted(bs, blocked, |bs|)).Values !! blocked
  {
    hide ComboOf, Granted, Ids;
    var granted := Granted(bs, blocked, |bs|);
    forall c | c in HeldAs(granted).Values ensures c !in blocked {
      var id :| id in HeldAs(granted) && HeldAs(granted)[id] == c;
      assert granted[id - 1] in granted;
      GrantedFrom(bs, blocked, |bs|, granted[id - 1]);
    }
  }

  lemma SyncKeepsInv(s: State, bs: seq<Binding>)
    requires Inv(s)
    ensures Inv(AfterSync(s, bs))
  {
    hide ComboOf, Granted, TurnedAway, Ids, HeldAs, RegisteredAs;
    SyncShape(s, bs);
    HeldAvoidsBlocked(bs, Blocked(s));
    MergeAvoids(StuckProbe(s), HeldAs(Granted(bs, Blocked(s), |bs|)), s.foreign);
  }

  lemma MergeAvoids(probe: map<int, Combo>, held: map<int, Combo>, foreign: set<Combo>)
    requires held.Values !! foreign && probe.Values !! foreign
    ensures (probe + held).Values !! foreign
  {
    assert (probe + held).Values <= probe.Values + held.Values;
  }

  /** After a sync the process holds exactly the registered ids 1..k, plus the probe's exactly when it was stuck. */
  lemma SyncShape(s: State, bs: seq<Binding>)
    requires Inv(s)
    ensures var s' := AfterSync(s, bs);
      && s'.registered.Keys == Ids(|s'.registered|)
      && s'.own.Keys - {PROBE_ID} == s'.registered.Keys
      && (PROBE_ID in s'.own <==> PROBE_ID in s.own && PROBE_ID in s.stuck)
      && (PROBE_ID in s'.own ==> s'.pending && s'.own[PROBE_ID] == s.own[PROBE_ID])
  {
    hide ComboOf, Granted, TurnedAway, Ids, HeldAs, RegisteredAs, Blocked;
    var granted := Granted(bs, Blocked(s), |bs|);
    TableShape(granted);
    MergeShape(StuckProbe(s), HeldAs(granted), |granted|);
  }

  lemma TableShape(granted: seq<Binding>)
    ensures RegisteredAs(granted).Keys == HeldAs(granted).Keys == Ids(|granted|) && |RegisteredAs(granted)| == |granted|
  {
    hide ComboOf, Ids;
    assert RegisteredAs(granted).Keys == Ids(|granted|);
    assert |RegisteredAs(granted)| == |RegisteredAs(granted).Keys|;
  }

  lemma MergeShape(probe: map<int, Combo>, held: map<int, Combo>, n: nat)
    requires probe.Keys <= {PROBE_ID} && held.Keys == Ids(n)
    ensures (probe + held).Keys - {PROBE_ID} == Ids(n)
    ensures PROBE_ID in probe + held <==> PROBE_ID in probe
    ensures PROBE_ID in probe ==> (probe + held)[PROBE_ID] == probe[PROBE_ID]
  {
    hide Ids;
  }

  ghost predicate DistinctLayouts(bs: seq<Binding>) {
    forall i, j :: 0 <= i < j < |bs| ==> bs[i].layoutID != bs[j].layoutID
  }

  lemma {:induction false} TurnedAwayFrom(bs: seq<Binding>, blocked: set<Combo>, n: nat, id: string)
    requires n <= |bs|
    ensures id in TurnedAway(bs, blocked, n) <==> exists b :: b in bs[..n] && b.layoutID == id && ComboOf(b) in blocked
  {
    hide ComboOf;
    if n > 0 {
      TurnedAwayFrom(bs, blocked, n - 1, id);
      assert bs[..n] == bs[..n - 1] + [bs[n - 1]];
    }
  }

  ghost predicate Mentions(registered: map<int, string>, layoutID: string) {
    exists id :: id in registered && registered[id] == layoutID
  }

  /** The layout answers to some registration. */
  ghost predicate IsRegistered(s: State, layoutID: string) {
    Mentions(s.registered, layoutID)
  }

  lemma RegisteredFrom(bs: seq<Binding>, blocked: set<Combo>, b: Binding)
    requires b in bs && DistinctLayouts(bs)
    ensures Mentions(RegisteredAs(Granted(bs, blocked, |bs|)), b.layoutID) <==> ComboOf(b) !in blocked
  {
    hide ComboOf, Granted, Ids;
    var granted := Granted(bs, blocked, |bs|);
    assert bs[..|bs|] == bs;
    if ComboOf(b) !in blocked {
      GrantedFrom(bs, blocked, |bs|, b);
      var k :| 0 <= k < |granted| && granted[k] == b;
      assert k + 1 in Ids(|granted|) && RegisteredAs(granted)[k + 1] == b.layoutID;
    }
    forall id | id in RegisteredAs(granted) && RegisteredAs(granted)[id] == b.layoutID ensures ComboOf(b) !in blocked {
      var other := granted[id - 1];
      assert other in granted;
      GrantedFrom(bs, blocked, |bs|, other);
      assert other == b;
    }
  }

  lemma TurnedAwayOne(bs: seq<Binding>, blocked: set<Combo>, b: Binding)
    requires b in bs && DistinctLayouts(bs)
    ensures b.layoutID in TurnedAway(bs, blocked, |bs|) <==> ComboOf(b) in blocked
  {
    hide ComboOf, TurnedAway;
    TurnedAwayFrom(bs, blocked, |bs|, b.layoutID);
    assert bs[..|bs|] == bs;
  }

  /** After each sync every active layout is registered or unavailable, never both; it is unavailable exactly when its
      combination is held by another application or by a stuck probe. */
  lemma SyncPartitionsActive(s: State, bs: seq<Binding>, b: Binding)
    requires Inv(s) && b in bs && DistinctLayouts(bs)
    ensures var s' := AfterSync(s, bs);
      && (IsRegistered(s', b.layoutID) <==> b.layoutID !in s'.unavailable)
      && (b.layoutID in s'.unavailable <==>
            ComboOf(b) in s.foreign || (PROBE_ID in s.own && PROBE_ID in s.stuck && ComboOf(b) == s.own[PROBE_ID]))
  {
    hide ComboOf, Granted, TurnedAway, RegisteredAs, HeldAs, Mentions, Inv, Blocked, DistinctLayouts;
    RegisteredFrom(bs, Blocked(s), b);
    TurnedAwayOne(bs, Blocked(s), b);
    ProbeBlocks(s, ComboOf(b));
  }

  lemma ProbeBlocks(s: State, c: Combo)
    requires Inv(s)
    ensures c in Blocked(s) <==> c in s.foreign || (PROBE_ID in s.own && PROBE_ID in s.stuck && c == s.own[PROBE_ID])
  {
    hide Ids;
    if c in StuckProbe(s).Values {
      var id :| id in StuckProbe(s) && StuckProbe(s)[id] == c;
    }
    if PROBE_ID in s.own && PROBE_ID in s.stuck {
      assert StuckProbe(s)[PROBE_ID] == s.own[PROBE_ID];
    }
  }

  /** Nothing but active layouts is registered or unavailable. */
  lemma SyncCoversOnlyActive(s: State, bs: seq<Binding>, id: string)
    ensures var s' := AfterSync(s, bs);
      IsRegistered(s', id) || id in s'.unavailable ==> exists b :: b in bs && b.layoutID == id
  {
    hide ComboOf, Granted, TurnedAway, Ids;
    var granted := Granted(bs, Blocked(s), |bs|);
    assert bs[..|bs|] == bs;
    TurnedAwayFrom(bs, Blocked(s), |bs|, id);
    if IsRegistered(AfterSync(s, bs), id) {
      var k :| k in RegisteredAs(granted) && RegisteredAs(granted)[k] == id;
      assert granted[k - 1] in granted;
      GrantedFrom(bs, Blocked(s), |bs|, granted[k - 1]);
    }
  }

  /** A sync forgets all history but a stuck probe: two states that agree on the outside world and on the probe end up
      the same, whatever was registered or unavailable before. */
  lemma SyncForgetsHistory(s: State, s': State, bs: seq<Binding>)
    requires Inv(s) && Inv(s') && s.foreign == s'.foreign && s.stuck == s'.stuck && s.pending == s'.pending
    requires PROBE_ID in s.own <==> PROBE_ID in s'.own
    requires PROBE_ID in s.own ==> s.own[PROBE_ID] == s'.own[PROBE_ID]
    ensures AfterSync(s, bs) == AfterSync(s', bs)
  {
    hide Granted, TurnedAway, HeldAs, RegisteredAs, Inv, StuckProbe;
    SameStuckProbe(s, s');
  }

  lemma SameStuckProbe(s: State, s': State)
    requires s.stuck == s'.stuck && s.pending == s'.pending
    requires PROBE_ID in s.own <==> PROBE_ID in s'.own
    requires PROBE_ID in s.own ==> s.own[PROBE_ID] == s'.own[PROBE_ID]
    ensures StuckProbe(s) == StuckProbe(s')
  {}

  // ---- whole runs ----

  lemma ProbeKeepsInv(s: State, c: Combo)
    requires Inv(s)
    ensures Inv(AfterProbe(s, c))
  {
    hide Ids;
    UpdateAvoids(s.own, c, s.foreign);
  }

  lemma UpdateAvoids(own: map<int, Combo>, c: Combo, foreign: set<Combo>)
    requires own.Values !! foreign
    ensures c !in foreign ==> own[PROBE_ID := c].Values !! foreign
    ensures (own - {PROBE_ID}).Values !! foreign
    ensures own[PROBE_ID := c].Keys - {PROBE_ID} == own.Keys - {PROBE_ID} == (own - {PROBE_ID}).Keys - {PROBE_ID}
  {
    assert own[PROBE_ID := c].Values <= own.Values + {c};
    assert (own - {PROBE_ID}).Values <= own.Values;
  }

  lemma OneStep(tx: Locale, s: State, e: Event)
    requires Inv(s) && Legal(s, e)
    ensures Inv(Next(tx, s, e))
  {
    hide AfterSync, AfterProbe, ActiveOf, Ids;
    match e
    case Sync(layouts, fp) => SyncKeepsInv(s, ActiveOf(tx, layouts, fp, |layouts|));
    case Probe(c) => ProbeKeepsInv(s, c);
    case World(_, _) =>
  }

  lemma {:induction false} RunKeepsInv(tx: Locale, s: State, events: seq<Event>)
    requires Inv(s) && Possible(tx, s, events)
    ensures Inv(Outcome(tx, s, events))
    decreases |events|
  {
    hide Inv, Next, Legal;
    if events != [] {
      OneStep(tx, s, events[0]);
      RunKeepsInv(tx, Next(tx, s, events[0]), events[1..]);
    }
  }

  /** In every run from the start: registrations are exactly ids 1..k, anything else held is a probe on record, and no
      combination is both ours and foreign. */
  lemma EveryRunKeepsInv(tx: Locale, events: seq<Event>)
    requires Possible(tx, INITIAL, events)
    ensures Inv(Outcome(tx, INITIAL, events))
  {
    RunKeepsInv(tx, INITIAL, events);
  }

  lemma {:induction false} ActiveLayoutsDistinct(tx: Locale, layouts: seq<Layout>, fp: string, n: nat)
    requires n <= |layouts| && DistinctIDs(layouts)
    ensures DistinctLayouts(ActiveOf(tx, layouts, fp, n))
  {
    hide Stored, Wins;
    if n > 0 {
      ActiveLayoutsDistinct(tx, layouts, fp, n - 1);
      var before := ActiveOf(tx, layouts, fp, n - 1);
      forall i | 0 <= i < |before| ensures before[i].layoutID != layouts[n - 1].id {
        ActiveIffWins(tx, layouts, fp, n - 1, before[i]);
      }
    }
  }

  /** After a sync at the end of any run: registered and unavailable layouts partition the active ones, and a layout is
      unavailable exactly when its combination is held by another application or by a stuck probe. */
  lemma SyncInRunPartitionsActive(tx: Locale, events: seq<Event>, layouts: seq<Layout>, fp: string)
    requires Possible(tx, INITIAL, events) && DistinctIDs(layouts)
    ensures var s := Outcome(tx, INITIAL, events);
      var s' := Next(tx, s, Sync(layouts, fp));
      var bs := ActiveOf(tx, layouts, fp, |layouts|);
      && (forall b :: b in bs ==>
           && (IsRegistered(s', b.layoutID) <==> b.layoutID !in s'.unavailable)
           && (b.layoutID in s'.unavailable <==>
                ComboOf(b) in s.foreign || (PROBE_ID in s.own && PROBE_ID in s.stuck && ComboOf(b) == s.own[PROBE_ID])))
      && (forall id :: IsRegistered(s', id) || id in s'.unavailable ==> exists b :: b in bs && b.layoutID == id)
  {
    hide ComboOf, Inv, Possible, Outcome, ActiveOf, DistinctIDs, DistinctLayouts, AfterSync, IsRegistered;
    var s := Outcome(tx, INITIAL, events);
    var bs := ActiveOf(tx, layouts, fp, |layouts|);
    EveryRunKeepsInv(tx, events);
    ActiveLayoutsDistinct(tx, layouts, fp, |layouts|);
    forall b | b in bs
      ensures IsRegistered(AfterSync(s, bs), b.layoutID) <==> b.layoutID !in AfterSync(s, bs).unavailable
      ensures b.layoutID in AfterSync(s, bs).unavailable <==>
        ComboOf(b) in s.foreign || (PROBE_ID in s.own && PROBE_ID in s.stuck && ComboOf(b) == s.own[PROBE_ID])
    {
      SyncPartitionsActive(s, bs, b);
    }
    forall id | IsRegistered(AfterSync(s, bs), id) || id in AfterSync(s, bs).unavailable
      ensures exists b :: b in bs && b.layoutID == id
    {
      SyncCoversOnlyActive(s, bs, id);
    }
  }

  // ---- the probe's record ----

  /** The record says a probe is held exactly when one is. */
  ghost predicate Accurate(s: State) {
    PROBE_ID in s.own <==> s.pending
  }

  /** A probe is granted and released while an earlier one is still on record. */
  ghost predicate Slips(s: State, e: Event) {
    e.Probe? && Grants(s, e.c) && s.pending && PROBE_ID !in s.stuck
  }

  /** The record becomes inaccurate in exactly one way: nothing clears it when a later probe's own release succeeds. */
  lemma RecordSlipsOnlyThere(tx: Locale, s: State, e: Event)
    requires Inv(s) && Accurate(s) && Legal(s, e)
    ensures Accurate(Next(tx, s, e)) <==> !Slips(s, e)
  {
    hide ActiveOf, Ids;
    if e.Sync? {
      SyncShape(s, ActiveOf(tx, e.layouts, e.fp, |e.layouts|));
    }
  }

  ghost predicate NeverSlips(tx: Locale, s: State, events: seq<Event>)
    decreases |events|
  {
    events == [] || (!Slips(s, events[0]) && NeverSlips(tx, Next(tx, s, events[0]), events[1..]))
  }

  lemma {:induction false} RecordStaysAccurate(tx: Locale, s: State, events: seq<Event>)
    requires Inv(s) && Accurate(s) && Possible(tx, s, events) && NeverSlips(tx, s, events)
    ensures Accurate(Outcome(tx, s, events))
    decreases |events|
  {
    hide Inv, Accurate, Slips, Next, Legal;
    if events != [] {
      RecordSlipsOnlyThere(tx, s, events[0]);
      OneStep(tx, s, events[0]);
      RecordStaysAccurate(tx, Next(tx, s, events[0]), events[1..]);
    }
  }

  /** A sync that can release the probe makes the record accurate again and leaves no probe behind. */
  lemma SyncHealsRecord(tx: Locale, s: State, layouts: seq<Layout>, fp: string)
    requires Inv(s) && PROBE_ID !in s.stuck
    ensures var s' := Next(tx, s, Sync(layouts, fp));
      Accurate(s') && PROBE_ID !in s'.own
  {
    hide ActiveOf, Ids, AfterSync;
    SyncShape(s, ActiveOf(tx, layouts, fp, |layouts|));
    PendingClears(s, ActiveOf(tx, layouts, fp, |layouts|));
  }

  lemma PendingClears(s: State, bs: seq<Binding>)
    ensures AfterSync(s, bs).pending <==> s.pending && PROBE_ID in s.stuck
  {}

  /** A run in which the record slips: two probes, the first one's release failing, leave it set with nothing held. */
  lemma RecordCanSlip(tx: Locale, c: Combo, c': Combo)
    requires c != c'
    ensures var events := [World({}, {PROBE_ID}), Probe(c), World({}, {}), Probe(c')];
      Possible(tx, INITIAL, events) && Outcome(tx, INITIAL, events).pending && Outcome(tx, INITIAL, events).own == map[]
  {
    var e := [World({}, {PROBE_ID}), Probe(c), World({}, {}), Probe(c')];
    var s1 := Next(tx, INITIAL, e[0]);
    var s2 := Next(tx, s1, e[1]);
    var s3 := Next(tx, s2, e[2]);
    var s4 := Next(tx, s3, e[3]);
    assert s2.own == map[PROBE_ID := c] && s4.own == map[];
    assert e[1..][1..][1..] == [e[3]] && e[1..][1..] == [e[2], e[3]] && e[1..] == [e[1], e[2], e[3]];
    assert Outcome(tx, s4, []) == s4 && Outcome(tx, s3, [e[3]]) == s4;
    assert Outcome(tx, s2, [e[2], e[3]]) == s4 && Outcome(tx, s1, [e[1], e[2], e[3]]) == s4;
    assert Possible(tx, s3, [e[3]]) && Possible(tx, s2, [e[2], e[3]]) && Possible(tx, s1, [e[1], e[2], e[3]]);
  }
}
