/** Subscriptions to actions of registered devices. */
module Subscriptions {
  import opened Bytes
  import opened Hello
  import Registry

  /** The device is kept as its address: registered devices never move or change. Callbacks are
      opaque. */
  datatype Subscription = Subscription(id: uint, phy: nat, port: nat, actionId: nat, duration: nat, period: nat,
                                       isRenew: bool, callback: nat, doneCallback: Option<nat>)

  /** `started` are the START packets sent, `done` the ids of the DONE packets that found their
      entry, `finished` the entries whose done callback was called, `delivered` the calls of
      subscription callbacks, with the entry and the payload they were given. */
  datatype State = State(registry: Registry.State, subs: map<uint, Subscription>, counter: uint,
                         started: seq<Subscription>, done: seq<uint>, finished: seq<Subscription>,
                         delivered: seq<(Subscription, seq<ubyte>)>)

  datatype Event =
    | Hello(heard: Registry.Heard)
    /** Through an address: a done callback is asked for, but not passed on. */
    | Subscribe(phy: nat, port: nat, actionId: nat, duration: nat, period: nat, isRenew: bool,
                callback: nat, doneCallback: Option<nat>)
    /** With ready-made data, whose id the caller chooses. */
    | Submit(sub: Subscription)
    | Done(id: uint)
    | Update(id: uint, payload: seq<ubyte>)

  function Next(counter: uint): uint {
    (counter + 1) % 0x1_0000_0000
  }

  /** Emplace (which keeps an entry that is there) and send a START packet. */
  function Begin(s: State, sub: Subscription): State {
    s.(subs := if sub.id in s.subs then s.subs else s.subs[sub.id := sub], started := s.started + [sub])
  }

  /** The entry that a subscription through an address makes. */
  function Asked(id: uint, e: Event): Subscription
    requires e.Subscribe?
  {
    Subscription(id, e.phy, e.port, e.actionId, e.duration, e.period, e.isRenew, e.callback, None)
  }

  predicate Registered(s: State, phy: nat, port: nat) {
    Registry.LookupLog(s.registry.known, phy, port).Some?
  }

  /** The entry is told that it is done. */
  function Finish(s: State, sub: Subscription): State {
    s.(done := s.done + [sub.id], finished := if sub.doneCallback.Some? then s.finished + [sub] else s.finished)
  }

  function Step(s: State, e: Event): State {
    match e
    case Hello(heard) => s.(registry := Registry.Step(s.registry, heard))
    case Subscribe(phy, port, _, _, _, _, _, _) =>
      var counted := s.(counter := Next(s.counter));
      if Registered(s, phy, port) then Begin(counted, Asked(s.counter, e)) else counted
    case Submit(sub) =>
      if Registered(s, sub.phy, sub.port) then Begin(s, sub) else s
    case Done(id) =>
      if id !in s.subs then s
      else
        var told := Finish(s, s.subs[id]);
        if s.subs[id].isRenew then Begin(told, s.subs[id]) else told
    case Update(id, payload) =>
      if id !in s.subs then s else s.(delivered := s.delivered + [(s.subs[id], payload)])
  }

  function Run(notify: bool, events: seq<Event>): State {
    if events == [] then State(Registry.State(map[], notify, []), map[], 0, [], [], [], [])
    else Step(Run(notify, events[..|events| - 1]), events[|events| - 1])
  }

  lemma RunAppend(notify: bool, events: seq<Event>, e: Event)
    ensures Run(notify, events + [e]) == Step(Run(notify, events), e)
  {
    assert (events + [e])[..|events|] == events;
  }

  function Starts(l: seq<Subscription>, id: uint): nat {
    if l == [] then 0 else Starts(l[..|l| - 1], id) + if l[|l| - 1].id == id then 1 else 0
  }

  function Count(l: seq<uint>, id: uint): nat {
    if l == [] then 0 else Count(l[..|l| - 1], id) + if l[|l| - 1] == id then 1 else 0
  }

  function Subscribes(events: seq<Event>): nat {
    if events == [] then 0 else Subscribes(events[..|events| - 1]) + if events[|events| - 1].Subscribe? then 1 else 0
  }

  /** All subscriptions were made through an address. */
  ghost predicate ThroughAddresses(events: seq<Event>) {
    forall i | 0 <= i < |events| :: !events[i].Submit?
  }

  /** What the ledger of an id should say: one START, and one more for every DONE it handled if
      it renews. Every START repeats the entry. */
  function Due(s: State, id: uint): nat {
    if id !in s.subs then 0 else 1 + if s.subs[id].isRenew then Count(s.done, id) else 0
  }

  ghost predicate Ledger(s: State) {
    && (forall id: uint :: Starts(s.started, id) == Due(s, id))
    && (forall id: uint :: id !in s.subs ==> Count(s.done, id) == 0)
    && (forall id | id in s.subs :: s.subs[id].id == id)
    && (forall i | 0 <= i < |s.started| :: s.started[i].id in s.subs && s.started[i] == s.subs[s.started[i].id])
  }

  /** A subscription takes an id that is still in the table. Through an address this is possible
      only after the counter has gone all the way round. */
  predicate Collides(s: State, e: Event) {
    match e
    case Subscribe(phy, port, _, _, _, _, _, _) => Registered(s, phy, port) && s.counter in s.subs
    case Submit(sub) => Registered(s, sub.phy, sub.port) && sub.id in s.subs
    case _ => false
  }

  lemma StartsAppend(l: seq<Subscription>, sub: Subscription, id: uint)
    ensures Starts(l + [sub], id) == Starts(l, id) + if sub.id == id then 1 else 0
  {
    assert (l + [sub])[..|l|] == l;
  }

  lemma CountAppend(l: seq<uint>, x: uint, id: uint)
    ensures Count(l + [x], id) == Count(l, id) + if x == id then 1 else 0
  {
    assert (l + [x])[..|l|] == l;
  }

  /** Emplacing and starting keeps the ledger of a fresh id and adds a START to a known one. */
  lemma BeginCounts(s: State, sub: Subscription)
    ensures forall id: uint ::
              Starts(Begin(s, sub).started, id) == Starts(s.started, id) + if sub.id == id then 1 else 0
  {
    forall id: uint ensures Starts(Begin(s, sub).started, id) == Starts(s.started, id) + if sub.id == id then 1 else 0 {
      StartsAppend(s.started, sub, id);
    }
  }

  lemma DoneCounts(l: seq<uint>, x: uint)
    ensures forall id: uint :: Count(l + [x], id) == Count(l, id) + if x == id then 1 else 0
  {
    forall id: uint ensures Count(l + [x], id) == Count(l, id) + if x == id then 1 else 0 {
      CountAppend(l, x, id);
    }
  }

  lemma LedgerSubscribe(s: State, sub: Subscription)
    requires Ledger(s)
    ensures Ledger(Begin(s, sub)) <==> sub.id !in s.subs
  {
    hide Starts;
    hide Count;
    BeginCounts(s, sub);
    var s' := Begin(s, sub);
    if sub.id in s.subs {
      assert Starts(s'.started, sub.id) != Due(s', sub.id);
    } else {
      forall id: uint ensures Starts(s'.started, id) == Due(s', id) {
        assert Starts(s.started, id) == Due(s, id);
      }
    }
  }

  lemma LedgerDone(s: State, id0: uint)
    requires Ledger(s) && id0 in s.subs
    ensures Ledger(Step(s, Done(id0)))
  {
    hide Starts;
    hide Count;
    BeginCounts(Finish(s, s.subs[id0]), s.subs[id0]);
    DoneCounts(s.done, id0);
    var s' := Step(s, Done(id0));
    forall id: uint ensures Starts(s'.started, id) == Due(s', id) {
      assert Starts(s.started, id) == Due(s, id);
    }
  }

  /** A step keeps the ledger if and only if it does not collide. */
  lemma LedgerStep(s: State, e: Event)
    requires Ledger(s)
    ensures Ledger(Step(s, e)) <==> !Collides(s, e)
  {
    hide Ledger;
    match e
    case Hello(_) =>
      SameLedger(s, Step(s, e));
    case Subscribe(phy, port, _, _, _, _, _, _) =>
      var counted := s.(counter := Next(s.counter));
      SameLedger(s, counted);
      if Registered(s, phy, port) {
        LedgerSubscribe(counted, Asked(s.counter, e));
      }
    case Submit(sub) =>
      if Registered(s, sub.phy, sub.port) {
        LedgerSubscribe(s, sub);
      }
    case Done(id) =>
      if id in s.subs {
        LedgerDone(s, id);
      }
    case Update(_, _) =>
      SameLedger(s, Step(s, e));
  }

  lemma SameLedger(s: State, s': State)
    requires s'.subs == s.subs && s'.started == s.started && s'.done == s.done
    ensures Ledger(s') <==> Ledger(s)
  {
    assert forall id: uint :: Due(s', id) == Due(s, id);
  }

  /** The ledger is right throughout a run if and only if no step of the run collides. */
  lemma LedgerIffNoCollision(notify: bool, events: seq<Event>)
    ensures (forall k | 0 <= k <= |events| :: Ledger(Run(notify, events[..k])))
            <==> forall i | 0 <= i < |events| :: !Collides(Run(notify, events[..i]), events[i])
  {
    hide Ledger;
    hide Collides;
    hide Step;
    if forall i | 0 <= i < |events| :: !Collides(Run(notify, events[..i]), events[i]) {
      forall k | 0 <= k <= |events| ensures Ledger(Run(notify, events[..k])) {
        LedgerUpTo(notify, events, k);
      }
    }
    if forall k | 0 <= k <= |events| :: Ledger(Run(notify, events[..k])) {
      forall i | 0 <= i < |events| ensures !Collides(Run(notify, events[..i]), events[i]) {
        LedgerStep(Run(notify, events[..i]), events[i]);
        assert events[..i + 1][..i] == events[..i];
        assert Ledger(Run(notify, events[..i + 1]));
      }
    }
  }

  lemma {:induction false} LedgerUpTo(notify: bool, events: seq<Event>, k: nat)
    requires k <= |events|
    requires forall i | 0 <= i < |events| :: !Collides(Run(notify, events[..i]), events[i])
    ensures Ledger(Run(notify, events[..k]))
  {
    hide Collides;
    hide Step;
    if k == 0 {
      assert Run(notify, events[..0]).started == [];
    } else {
      hide Ledger;
      LedgerUpTo(notify, events, k - 1);
      LedgerStep(Run(notify, events[..k - 1]), events[k - 1]);
      assert events[..k][..k - 1] == events[..k - 1];
    }
  }

  /** Ids are below the counter as long as it has not wrapped. */
  lemma {:induction false} IdsBelowCounter(notify: bool, events: seq<Event>)
    requires Subscribes(events) < 0x1_0000_0000 && ThroughAddresses(events)
    ensures var s := Run(notify, events);
            s.counter == Subscribes(events) && forall id | id in s.subs :: s.subs[id].id == id < s.counter
  {
    hide Registry.Step;
    if events != [] {
      IdsBelowCounter(notify, events[..|events| - 1]);
    }
  }

  /** On a run of fewer than 2^32 subscriptions, all through addresses, for every id: the START
      packets number one plus, for a renewing subscription, the DONE packets handled. */
  lemma {:induction false} SubscriptionLedger(notify: bool, events: seq<Event>)
    requires Subscribes(events) < 0x1_0000_0000 && ThroughAddresses(events)
    ensures Ledger(Run(notify, events))
  {
    hide Registry.Step;
    if events != [] {
      var before := events[..|events| - 1];
      SubscriptionLedger(notify, before);
      IdsBelowCounter(notify, before);
      LedgerStep(Run(notify, before), events[|events| - 1]);
    }
  }

  // ---- A collision ----

  /** A subscription to a device that is not known only uses up an id. */
  function Missed(phy: nat): Event {
    Subscribe(phy, 0, 0, 0, 0, false, 0, None)
  }

  /** A state after k subscriptions that missed. */
  function AfterMisses(s: State, k: nat): State {
    s.(counter := (s.counter + k) % 0x1_0000_0000)
  }

  lemma MissOne(s: State, phy: nat, k: nat)
    requires phy !in s.registry.known
    ensures Step(AfterMisses(s, k), Missed(phy)) == AfterMisses(s, k + 1)
  {}

  lemma SubscribesAppend(es: seq<Event>, e: Event)
    ensures Subscribes(es + [e]) == Subscribes(es) + if e.Subscribe? then 1 else 0
  {
    assert (es + [e])[..|es|] == es;
  }

  lemma {:induction false} MissMany(notify: bool, es: seq<Event>, phy: nat, k: nat) returns (after: seq<Event>)
    requires phy !in Run(notify, es).registry.known
    ensures |after| == |es| + k && after[..|es|] == es && forall i | |es| <= i < |after| :: after[i] == Missed(phy)
    ensures Run(notify, after) == AfterMisses(Run(notify, es), k) && Subscribes(after) == Subscribes(es) + k
    decreases k
  {
    hide Run;
    hide Step;
    hide Subscribes;
    if k == 0 {
      after := es;
    } else {
      var before := MissMany(notify, es, phy, k - 1);
      MissOne(Run(notify, es), phy, k - 1);
      RunAppend(notify, before, Missed(phy));
      SubscribesAppend(before, Missed(phy));
      after := before + [Missed(phy)];
    }
  }

  /** One device is known and has one subscription. */
  lemma FirstSubscribed(hello: HelloWorld, first: Event) returns (es: seq<Event>)
    requires first.Subscribe? && first.phy == 1 && first.port == hello.srcAddr
    ensures ThroughAddresses(es) && Subscribes(es) == 1
    ensures var s := Run(false, es);
            && s.counter == 1 && s.subs == map[0 := Asked(0, first)] && s.started == [Asked(0, first)]
            && Registered(s, 1, hello.srcAddr) && 2 !in s.registry.known
  {
    hide Described;
    var h := Hello(Registry.Heard(1, hello));
    assert Run(false, []).subs == map[];
    RunAppend(false, [], h);
    RunAppend(false, [] + [h], first);
    assert Subscribes([]) == 0;
    SubscribesAppend([], h);
    SubscribesAppend([] + [h], first);
    es := [] + [h] + [first];
  }

  /** One known device, 2^32 - 1 subscriptions that miss in between, and one more to the device: it
      takes the id of the first, keeps the first's entry and callback, and sends a second START
      packet under the id, which the ledger does not account for. */
  lemma CollisionExample(hello: HelloWorld, first: Event, second: Event) returns (es: seq<Event>)
    requires first.Subscribe? && second.Subscribe?
    requires first.phy == second.phy == 1 && first.port == second.port == hello.srcAddr
    ensures ThroughAddresses(es) && Subscribes(es) == 0x1_0000_0001
    ensures es != [] && Collides(Run(false, es[..|es| - 1]), es[|es| - 1])
    ensures var s := Run(false, es);
            && !Ledger(s) && 0 in s.subs && s.subs[0] == Asked(0, first)
            && s.started == [Asked(0, first), Asked(0, second)]
  {
    hide Run;
    hide Step;
    hide Ledger;
    hide Subscribes;
    var head := FirstSubscribed(hello, first);
    var before := MissMany(false, head, 2, 0xFFFF_FFFF);
    es := before + [second];
    assert es[..|before|] == before;
    RunAppend(false, before, second);
    SubscribesAppend(before, second);
    SubscriptionLedger(false, head);
    SameLedger(Run(false, head), Run(false, before));
    LedgerStep(Run(false, before), second);
    CollidingStep(Run(false, before), second);
  }

  lemma CollidingStep(s: State, e: Event)
    requires e.Subscribe? && Registered(s, e.phy, e.port) && s.counter in s.subs
    ensures Step(s, e).subs == s.subs && Step(s, e).started == s.started + [Asked(s.counter, e)]
    ensures Collides(s, e)
  {}

  /** On every run: entries lie under their own ids, never change or vanish, and their devices
      stay registered as they were. */
  lemma {:induction false} EntriesStay(notify: bool, events: seq<Event>, k: nat, id: uint)
    requires k <= |events| && id in Run(notify, events[..k]).subs
    ensures var s, s' := Run(notify, events[..k]), Run(notify, events);
            && id in s'.subs && s'.subs[id] == s.subs[id] && s'.subs[id].id == id
            && var sub := s.subs[id];
            && Registry.LookupLog(s.registry.known, sub.phy, sub.port).Some?
            && Registry.LookupLog(s'.registry.known, sub.phy, sub.port)
                == Registry.LookupLog(s.registry.known, sub.phy, sub.port)
    decreases |events|
  {
    hide Step;
    if k == |events| {
      assert events[..k] == events;
      EntryRegistered(notify, events, id);
    } else {
      var before := events[..|events| - 1];
      assert before[..k] == events[..k];
      EntriesStay(notify, before, k, id);
      EntryKept(Run(notify, before), events[|events| - 1], id);
    }
  }

  /** An entry of an id in the table, whose device is registered. */
  ghost predicate Sound(s: State, id: uint) {
    id in s.subs && s.subs[id].id == id && Registry.LookupLog(s.registry.known, s.subs[id].phy, s.subs[id].port).Some?
  }

  lemma EntryKept(s: State, e: Event, id: uint)
    requires Sound(s, id)
    ensures var s', sub := Step(s, e), s.subs[id];
            && Sound(s', id) && s'.subs[id] == sub
            && Registry.LookupLog(s'.registry.known, sub.phy, sub.port)
                == Registry.LookupLog(s.registry.known, sub.phy, sub.port)
  {
    hide Registry.Step;
    if e.Hello? {
      Registry.LookupKept(s.registry, e.heard, s.subs[id].phy, s.subs[id].port);
    }
  }

  lemma EntryNew(s: State, e: Event, id: uint)
    requires id !in s.subs && id in Step(s, e).subs
    requires forall x | x in s.subs :: s.subs[x].id == x
    ensures Sound(Step(s, e), id)
  {
    hide Registry.Step;
  }

  lemma {:induction false} EntryRegistered(notify: bool, events: seq<Event>, id: uint)
    requires id in Run(notify, events).subs
    ensures Sound(Run(notify, events), id)
    decreases |events|
  {
    hide Step;
    if events == [] {
      assert false;
    }
    var before, e := events[..|events| - 1], events[|events| - 1];
    if id in Run(notify, before).subs {
      EntryRegistered(notify, before, id);
      EntryKept(Run(notify, before), e, id);
    } else {
      forall x | x in Run(notify, before).subs ensures Run(notify, before).subs[x].id == x {
        EntryRegistered(notify, before, x);
      }
      EntryNew(Run(notify, before), e, id);
    }
  }

  function PayloadsOf(l: seq<(Subscription, seq<ubyte>)>, id: uint): seq<seq<ubyte>> {
    if l == [] then []
    else PayloadsOf(l[..|l| - 1], id) + if l[|l| - 1].0.id == id then [l[|l| - 1].1] else []
  }

  /** The payloads of the updates with this id. */
  function UpdatesOf(events: seq<Event>, id: uint): seq<seq<ubyte>> {
    if events == [] then []
    else
      var e := events[|events| - 1];
      UpdatesOf(events[..|events| - 1], id) + if e.Update? && e.id == id then [e.payload] else []
  }

  /** From the moment a subscription is in the table, its callback gets every update with its id,
      in order and unchanged; before that, none. */
  lemma {:induction false} UpdatesDelivered(notify: bool, events: seq<Event>, k: nat, id: uint)
    requires k <= |events|
    requires id in Run(notify, events[..k]).subs
    ensures PayloadsOf(Run(notify, events).delivered, id)
         == PayloadsOf(Run(notify, events[..k]).delivered, id) + UpdatesOf(events[k..], id)
    decreases |events|
  {
    hide Step;
    hide Run;
    hide PayloadsOf;
    if k == |events| {
      assert events[..k] == events && events[k..] == [];
      assert UpdatesOf([], id) == [];
    } else {
      hide UpdatesOf;
      var before, e := events[..|events| - 1], events[|events| - 1];
      assert before[..k] == events[..k];
      UpdatesDelivered(notify, before, k, id);
      EntriesStay(notify, before, k, id);
      RunLast(notify, events);
      KeysAreIds(notify, before);
      DeliveredByStep(Run(notify, before), e, id);
      UpdatesLast(events[k..], id);
      assert events[k..][..|events| - 1 - k] == before[k..];
    }
  }

  lemma RunLast(notify: bool, events: seq<Event>)
    requires events != []
    ensures Run(notify, events) == Step(Run(notify, events[..|events| - 1]), events[|events| - 1])
  {}

  lemma UpdatesLast(events: seq<Event>, id: uint)
    requires events != []
    ensures var e := events[|events| - 1];
            UpdatesOf(events, id)
            == UpdatesOf(events[..|events| - 1], id) + if e.Update? && e.id == id then [e.payload] else []
  {}

  lemma DeliveredByStep(s: State, e: Event, id: uint)
    requires forall x | x in s.subs :: s.subs[x].id == x
    ensures PayloadsOf(Step(s, e).delivered, id)
         == PayloadsOf(s.delivered, id) + if e.Update? && e.id == id && id in s.subs then [e.payload] else []
  {
    hide Registry.Step;
    if e.Update? && e.id in s.subs {
      var l := s.delivered + [(s.subs[e.id], e.payload)];
      assert l[..|l| - 1] == s.delivered;
    }
  }

  lemma KeysAreIds(notify: bool, events: seq<Event>)
    ensures forall id | id in Run(notify, events).subs :: Run(notify, events).subs[id].id == id
  {
    forall id | id in Run(notify, events).subs ensures Run(notify, events).subs[id].id == id {
      EntryRegistered(notify, events, id);
    }
  }

  lemma {:induction false} NothingDeliveredBefore(notify: bool, events: seq<Event>, id: uint)
    requires id !in Run(notify, events).subs
    ensures PayloadsOf(Run(notify, events).delivered, id) == []
    decreases |events|
  {
    hide Registry.Step;
    if events != [] {
      var before := events[..|events| - 1];
      NothingDeliveredBefore(notify, before, id);
      KeysAreIds(notify, before);
      DeliveredByStep(Run(notify, before), events[|events| - 1], id);
    }
  }

  /** Whoever was called back was called with an entry of the table. */
  ghost predicate CallsEntries(s: State) {
    && (forall i | 0 <= i < |s.delivered| :: Kept(s, s.delivered[i].0))
    && (forall i | 0 <= i < |s.finished| :: Kept(s, s.finished[i]))
  }

  predicate Kept(s: State, sub: Subscription) {
    sub.id in s.subs && s.subs[sub.id] == sub
  }

  /** The done callback of an entry that has one is called once for every DONE packet handled for
      it; an entry without one is never called. */
  ghost predicate FinishedEach(s: State) {
    forall id: uint :: Starts(s.finished, id)
                       == if id in s.subs && s.subs[id].doneCallback.Some? then Count(s.done, id) else 0
  }

  lemma CallbackStep(s: State, e: Event)
    requires CallsEntries(s) && FinishedEach(s)
    requires forall id: uint :: id !in s.subs ==> Count(s.done, id) == 0
    requires forall id | id in s.subs :: s.subs[id].id == id
    ensures CallsEntries(Step(s, e)) && FinishedEach(Step(s, e))
    ensures forall id: uint :: id !in Step(s, e).subs ==> Count(Step(s, e).done, id) == 0
  {
    hide Registry.Step;
    hide Registered;
    hide Starts;
    hide Count;
    if e.Done? && e.id in s.subs {
      FinishCounts(s, s.subs[e.id]);
    }
  }

  lemma FinishCounts(s: State, sub: Subscription)
    ensures forall id: uint ::
              && Count(Finish(s, sub).done, id) == Count(s.done, id) + (if sub.id == id then 1 else 0)
              && Starts(Finish(s, sub).finished, id)
                   == Starts(s.finished, id) + if sub.id == id && sub.doneCallback.Some? then 1 else 0
  {
    forall id: uint
      ensures Count(Finish(s, sub).done, id) == Count(s.done, id) + if sub.id == id then 1 else 0
      ensures Starts(Finish(s, sub).finished, id)
           == Starts(s.finished, id) + if sub.id == id && sub.doneCallback.Some? then 1 else 0
    {
      CountAppend(s.done, sub.id, id);
      StartsAppend(s.finished, sub, id);
    }
  }

  /** On every run: callbacks are called with the entry in the table, the done callback once for
      every DONE packet handled if the entry has one. */
  lemma {:induction false} CallbacksMade(notify: bool, events: seq<Event>)
    ensures CallsEntries(Run(notify, events)) && FinishedEach(Run(notify, events))
    ensures forall id: uint :: id !in Run(notify, events).subs ==> Count(Run(notify, events).done, id) == 0
  {
    hide Step;
    if events == [] {
      assert Run(notify, []).finished == [] && Run(notify, []).done == [];
    } else {
      hide CallsEntries;
      hide FinishedEach;
      var before := events[..|events| - 1];
      CallbacksMade(notify, before);
      KeysAreIds(notify, before);
      CallbackStep(Run(notify, before), events[|events| - 1]);
    }
  }

  /** A subscription through an address is never told that it is done, whatever done callback was
      asked for: the callback is not passed on. */
  lemma {:induction false} NeverFinishedThroughAddresses(notify: bool, events: seq<Event>)
    requires ThroughAddresses(events)
    ensures var s := Run(notify, events);
            s.finished == [] && forall id | id in s.subs :: s.subs[id].doneCallback.None?
  {
    hide Registry.Step;
    if events != [] {
      NeverFinishedThroughAddresses(notify, events[..|events| - 1]);
    }
  }

  /** The hellos of a run, which alone decide the registry. */
  function Hellos(events: seq<Event>): seq<Registry.Heard> {
    if events == [] then []
    else Hellos(events[..|events| - 1]) + if events[|events| - 1].Hello? then [events[|events| - 1].heard] else []
  }

  lemma {:induction false} RegistryOfRun(notify: bool, events: seq<Event>)
    ensures Run(notify, events).registry == Registry.Run(notify, Hellos(events))
  {
    hide Registry.Step;
    if events != [] {
      var before, e := events[..|events| - 1], events[|events| - 1];
      RegistryOfRun(notify, before);
      var hs := Hellos(events);
      if e.Hello? {
        assert hs[..|hs| - 1] == Hellos(before) && hs[|hs| - 1] == e.heard;
      } else {
        assert hs == Hellos(before);
      }
    }
  }
}
