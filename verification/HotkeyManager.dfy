/** Keeping the registered global hotkeys in step with the store, against a system in which other
    applications take and release combinations and releasing a probe may fail. */
module HotkeyManager {
  import opened Types
  import opened Text
  import opened HotkeySelect
  import HotkeyCapture

  datatype Combo = Combo(mods: bv32, vk: nat)

  const PROBE_ID: int := 0

  function ComboOf(b: Binding): Combo {
    Combo(HotkeyCapture.Win32Mods(b.hotkey.mods), b.hotkey.key)
  }

  /** The part of the system that grants registrations. */
  class Backend {
    var own: map<int, Combo>    // what this process holds, by registration id
    var foreign: set<Combo>     // what other applications hold
    var stuck: set<int>         // ids whose release currently fails

    constructor ()
      ensures own == map[] && foreign == {} && stuck == {}
    {
      own, foreign, stuck := map[], {}, {};
    }

    method Register(id: int, c: Combo) returns (granted: bool)
      modifies this`own
      ensures granted <==> c !in foreign && c !in old(own).Values
      ensures own == if granted then old(own)[id := c] else old(own)
    {
      granted := c !in foreign && c !in own.Values;
      if granted {
        own := own[id := c];
      }
    }

    method Unregister(id: int) returns (released: bool)
      modifies this`own
      ensures released <==> id !in stuck
      ensures own == if released then old(own) - {id} else old(own)
    {
      released := id !in stuck;
      if released {
        own := own - {id};
      }
    }
  }

  // ---- specification ----

  datatype State = State(own: map<int, Combo>, foreign: set<Combo>, stuck: set<int>,
                         registered: map<int, string>, unavailable: set<string>, pending: bool)

  /** The ids 1..n. */
  function Ids(n: nat): (r: set<int>)
    ensures forall id :: id in r <==> 1 <= id <= n
    ensures |r| == n
  {
    if n == 0 then {} else Ids(n - 1) + {n}
  }

  /** Only the probe's release can fail; registrations are the ids 1..k, and whatever else is held is a probe on
      record. */
  ghost predicate Inv(s: State) {
    && s.stuck <= {PROBE_ID}
    && s.registered.Keys == Ids(|s.registered|)
    && s.own.Keys - {PROBE_ID} == s.registered.Keys
    && (PROBE_ID in s.own ==> s.pending)
    && s.foreign !! s.own.Values
  }

  /** The probe registration that survives the retry at the start of a sync. */
  function StuckProbe(s: State): map<int, Combo> {
    if PROBE_ID in s.own && !(s.pending && PROBE_ID !in s.stuck) then map[PROBE_ID := s.own[PROBE_ID]] else map[]
  }

  /** What a sync cannot have: combinations of other applications, and that of a stuck probe. */
  function Blocked(s: State): set<Combo> {
    s.foreign + StuckProbe(s).Values
  }

  /** The bindings among the first n whose combination is free. */
  function Granted(bs: seq<Binding>, blocked: set<Combo>, n: nat): (r: seq<Binding>)
    requires n <= |bs|
    ensures |r| <= n
  {
    if n == 0 then []
    else if ComboOf(bs[n - 1]) in blocked then Granted(bs, blocked, n - 1)
    else Granted(bs, blocked, n - 1) + [bs[n - 1]]
  }

  function TurnedAway(bs: seq<Binding>, blocked: set<Combo>, n: nat): set<string>
    requires n <= |bs|
  {
    if n == 0 then {}
    else if ComboOf(bs[n - 1]) in blocked then TurnedAway(bs, blocked, n - 1) + {bs[n - 1].layoutID}
    else TurnedAway(bs, blocked, n - 1)
  }

  /** How many of the first n bindings became unavailable that were not before. */
  function NewlyRefused(bs: seq<Binding>, blocked: set<Combo>, was: set<string>, n: nat): nat
    requires n <= |bs|
  {
    if n == 0 then 0
    else NewlyRefused(bs, blocked, was, n - 1)
         + if ComboOf(bs[n - 1]) in blocked && bs[n - 1].layoutID !in was then 1 else 0
  }

  /** Registration ids count up from 1 over the granted bindings. */
  function RegisteredAs(granted: seq<Binding>): map<int, string> {
    map id | id in Ids(|granted|) :: granted[id - 1].layoutID
  }

  function HeldAs(granted: seq<Binding>): map<int, Combo> {
    map id | id in Ids(|granted|) :: ComboOf(granted[id - 1])
  }

  /** The state after a sync, computed from the active bindings, the foreign combinations and the stuck probe alone. */
  function AfterSync(s: State, bs: seq<Binding>): State {
    var granted := Granted(bs, Blocked(s), |bs|);
    State(StuckProbe(s) + HeldAs(granted), s.foreign, s.stuck, RegisteredAs(granted), TurnedAway(bs, Blocked(s), |bs|),
          s.pending && PROBE_ID in s.stuck)
  }

  /** What is held after the releases at the start of a sync: failing releases leave their ids behind. */
  function Released(s: State): map<int, Combo> {
    (if s.pending && PROBE_ID !in s.stuck then s.own - {PROBE_ID} else s.own) - (s.registered.Keys - s.stuck)
  }

  /** How far the registrations of one sync have come; `next` is the id to give out next. */
  datatype Progress = Progress(own: map<int, Combo>, registered: map<int, string>, unavailable: set<string>, newly: nat,
                               next: int)

  /** One more binding is registered or turned away. */
  function Advance(p: Progress, b: Binding, foreign: set<Combo>, was: set<string>): Progress {
    if ComboOf(b) !in foreign && ComboOf(b) !in p.own.Values then
      Progress(p.own[p.next := ComboOf(b)], p.registered[p.next := b.layoutID], p.unavailable, p.newly, p.next + 1)
    else
      p.(unavailable := p.unavailable + {b.layoutID}, newly := p.newly + if b.layoutID !in was then 1 else 0)
  }

  /** The first n bindings registered one after the other, whatever is held at the start. */
  function RegisterFrom(own: map<int, Combo>, bs: seq<Binding>, foreign: set<Combo>, was: set<string>, n: nat): Progress
    requires n <= |bs|
  {
    if n == 0 then Progress(own, map[], {}, 0, 1)
    else Advance(RegisterFrom(own, bs, foreign, was, n - 1), bs[n - 1], foreign, was)
  }

  function SyncRun(s: State, bs: seq<Binding>): Progress {
    RegisterFrom(Released(s), bs, s.foreign, s.unavailable, |bs|)
  }

  /** The state after a sync in any state at all. */
  function Resync(s: State, bs: seq<Binding>): State {
    var p := SyncRun(s, bs);
    State(p.own, s.foreign, s.stuck, p.registered, p.unavailable, s.pending && PROBE_ID in s.stuck)
  }

  predicate Grants(s: State, c: Combo) {
    c !in s.foreign && c !in s.own.Values
  }

  function AfterProbe(s: State, c: Combo): State {
    if !Grants(s, c) then s
    else if PROBE_ID in s.stuck then s.(own := s.own[PROBE_ID := c], pending := true)
    else s.(own := s.own - {PROBE_ID})
  }

  /** Map iteration visits the keys in no particular order. */
  method AnyOf(ids: set<int>) returns (id: int)
    requires ids != {}
    ensures id in ids
  {
    assert (forall i :: i !in ids) ==> ids == {};
    id :| id in ids;
  }

  // ---- the manager ----

  class Manager {
    const backend: Backend
    var registered: map<int, string>
    var unavailable: set<string>
    var probeReleasePending: bool

    constructor (b: Backend)
      ensures backend == b && registered == map[] && unavailable == {} && !probeReleasePending
    {
      backend, registered, unavailable, probeReleasePending := b, map[], {}, false;
    }

    ghost function Snapshot(): State
      reads this, backend
    {
      State(backend.own, backend.foreign, backend.stuck, registered, unavailable, probeReleasePending)
    }

    /** Tests whether a combination would be granted, keeping a failed release on record. */
    method Probe(c: Combo) returns (granted: bool)
      modifies this`probeReleasePending, backend`own
      ensures granted <==> Grants(old(Snapshot()), c)
      ensures Snapshot() == AfterProbe(old(Snapshot()), c)
    {
      granted := backend.Register(PROBE_ID, c);
      if !granted {
        return;
      }
      var released := backend.Unregister(PROBE_ID);
      if !released {
        probeReleasePending := true;
      } else {
        assert backend.own == old(backend.own) - {PROBE_ID};
      }
    }

    method ReleaseProbe()
      modifies this`probeReleasePending, backend`own
      ensures backend.own == old(if probeReleasePending && PROBE_ID !in backend.stuck then backend.own - {PROBE_ID}
        else backend.own)
      ensures probeReleasePending == old(probeReleasePending && PROBE_ID in backend.stuck)
    {
      if probeReleasePending {
        var released := backend.Unregister(PROBE_ID);
        if released {
          probeReleasePending := false;
        }
      }
    }

    /** Unregisters every id on record, in no particular order. A release that fails is not tried again. */
    method ReleaseAll()
      modifies this`registered, backend`own
      ensures registered == map[] && backend.own == old(backend.own - (registered.Keys - backend.stuck))
    {
      var ids := registered.Keys;
      ghost var done: set<int> := {};
      while ids != {}
        invariant ids + done == registered.Keys && registered == old(registered)
        invariant backend.own == old(backend.own) - (done - backend.stuck)
        decreases ids
      {
        var id := AnyOf(ids);
        var released := backend.Unregister(id);
        ids, done := ids - {id}, done + {id};
      }
      registered := map[];
    }

    /** Registers the desired set from scratch and returns how many layouts became unavailable. When all releases but
        the probe's succeed, the outcome does not depend on what was registered before. */
    method Sync(tx: Locale, layouts: seq<Layout>, fp: string) returns (newly: nat)
      modifies this, backend`own
      ensures var bs := ActiveOf(tx, layouts, fp, |layouts|);
        Snapshot() == Resync(old(Snapshot()), bs) && newly == SyncRun(old(Snapshot()), bs).newly
      ensures var bs := ActiveOf(tx, layouts, fp, |layouts|);
        Inv(old(Snapshot())) ==>
          && Snapshot() == AfterSync(old(Snapshot()), bs)
          && newly == NewlyRefused(bs, Blocked(old(Snapshot())), old(unavailable), |bs|)
    {
      hide ActiveOf, Inv, AfterSync, RegisterFrom, NewlyRefused;
      ghost var start := Snapshot();
      ReleaseProbe();
      ReleaseAll();
      var bs, problems := Active(tx, layouts, fp);
      ActiveIsDistinct(tx, layouts, fp, |layouts|);
      if Inv(start) {
        ResyncIsAfterSync(start, bs);
      }
      newly := RegisterEach(bs, unavailable);
    }

    method RegisterEach(bs: seq<Binding>, was: set<string>) returns (newly: nat)
      requires registered == map[]
      modifies this`registered, this`unavailable, backend`own
      ensures var p := RegisterFrom(old(backend.own), bs, backend.foreign, was, |bs|);
        registered == p.registered && backend.own == p.own && unavailable == p.unavailable && newly == p.newly
    {
      hide ComboOf;
      unavailable := {};
      newly := 0;
      var id := 1;
      for i := 0 to |bs|
        invariant RegisterFrom(old(backend.own), bs, backend.foreign, was, i)
               == Progress(backend.own, registered, unavailable, newly, id)
      {
        var granted := backend.Register(id, ComboOf(bs[i]));
        if granted {
          registered := registered[id := bs[i].layoutID];
          id := id + 1;
          continue;
        }
        unavailable := unavailable + {bs[i].layoutID};
        if bs[i].layoutID !in was {
          newly := newly + 1;
        }
      }
    }
  }

  /** With at most a stuck probe held at the start, the registrations have a closed form. */
  lemma {:induction false} RegisterFromProbe(probe: map<int, Combo>, bs: seq<Binding>, foreign: set<Combo>,
                                             was: set<string>, n: nat)
    requires n <= |bs| && DistinctBindings(bs) && probe.Keys <= {PROBE_ID}
    ensures var blocked := foreign + probe.Values;
      RegisterFrom(probe, bs, foreign, was, n)
      == Progress(probe + HeldAs(Granted(bs, blocked, n)), RegisteredAs(Granted(bs, blocked, n)),
                  TurnedAway(bs, blocked, n), NewlyRefused(bs, blocked, was, n), |Granted(bs, blocked, n)| + 1)
  {
    hide DistinctBindings, ComboOf, HeldAs, RegisteredAs, Ids;
    if n == 0 {
      NothingHeld(probe);
    } else {
      var blocked := foreign + probe.Values;
      RegisterFromProbe(probe, bs, foreign, was, n - 1);
      FreshCombo(bs, blocked, n - 1, probe);
      HeldSnoc(probe, Granted(bs, blocked, n - 1), bs[n - 1]);
    }
  }

  lemma ResyncIsAfterSync(s: State, bs: seq<Binding>)
    requires Inv(s) && DistinctBindings(bs)
    ensures Resync(s, bs) == AfterSync(s, bs)
    ensures SyncRun(s, bs).newly == NewlyRefused(bs, Blocked(s), s.unavailable, |bs|)
  {
    hide DistinctBindings, ComboOf, HeldAs, RegisteredAs, Granted, TurnedAway, NewlyRefused, RegisterFrom, Inv,
      StuckProbe;
    InvReleases(s);
    RegisterFromProbe(StuckProbe(s), bs, s.foreign, s.unavailable, |bs|);
  }

  /** Releasing the probe (if possible) and everything on record leaves at most a stuck probe. */
  lemma InvReleases(s: State)
    requires Inv(s)
    ensures s.stuck <= {PROBE_ID} && PROBE_ID !in s.registered && StuckProbe(s).Keys <= {PROBE_ID}
    ensures Released(s) == StuckProbe(s)
  {
    hide Ids;
    OnlyProbeRemains(s.own, s.registered.Keys);
    assert PROBE_ID !in s.registered.Keys;
    assert s.registered.Keys - s.stuck == s.registered.Keys;
  }

  lemma OnlyProbeRemains(own: map<int, Combo>, ids: set<int>)
    requires own.Keys - {PROBE_ID} == ids
    ensures own - ids == if PROBE_ID in own then map[PROBE_ID := own[PROBE_ID]] else map[]
    ensures own - {PROBE_ID} - ids == map[]
  {
    assert PROBE_ID !in ids;
  }

  lemma NothingHeld(probe: map<int, Combo>)
    ensures RegisteredAs([]) == map[] && probe + HeldAs([]) == probe
  {}

  lemma HeldSnoc(probe: map<int, Combo>, granted: seq<Binding>, b: Binding)
    requires probe.Keys <= {PROBE_ID}
    ensures RegisteredAs(granted + [b]) == RegisteredAs(granted)[|granted| + 1 := b.layoutID]
    ensures probe + HeldAs(granted + [b]) == (probe + HeldAs(granted))[|granted| + 1 := ComboOf(b)]
  {
    hide ComboOf, Ids;
  }

  lemma CombosDiffer(b: Binding, b': Binding)
    requires ComboOf(b) == ComboOf(b')
    ensures b.hotkey == b'.hotkey
  {
    hide HotkeyCapture.Win32Mods;
    HotkeyCapture.ModsInjective(b.hotkey.mods, b'.hotkey.mods);
  }

  lemma {:induction false} GrantedFrom(bs: seq<Binding>, blocked: set<Combo>, n: nat, b: Binding)
    requires n <= |bs|
    ensures b in Granted(bs, blocked, n) <==> ComboOf(b) !in blocked && b in bs[..n]
  {
    hide ComboOf;
    if n > 0 {
      GrantedFrom(bs, blocked, n - 1, b);
      assert bs[..n] == bs[..n - 1] + [bs[n - 1]];
    }
  }

  /** Binding n is refused exactly when its combination is blocked: the earlier registrations never stand in its way. */
  lemma FreshCombo(bs: seq<Binding>, blocked: set<Combo>, n: nat, probe: map<int, Combo>)
    requires n < |bs| && DistinctBindings(bs) && probe.Keys <= {PROBE_ID}
    ensures ComboOf(bs[n]) in (probe + HeldAs(Granted(bs, blocked, n))).Values <==> ComboOf(bs[n]) in probe.Values
  {
    hide ComboOf, Granted, Ids;
    var granted := Granted(bs, blocked, n);
    var held := HeldAs(granted);
    forall id | id in held ensures held[id] != ComboOf(bs[n]) {
      var b := granted[id - 1];
      assert b in granted;
      GrantedFrom(bs, blocked, n, b);
      var k :| 0 <= k < n && bs[k] == b;
      if ComboOf(b) == ComboOf(bs[n]) {
        CombosDiffer(b, bs[n]);
      }
    }
    if PROBE_ID in probe {
      assert (probe + held)[PROBE_ID] == probe[PROBE_ID];
    }
  }
}
