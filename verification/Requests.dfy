/** The request table: requests numbered by a wrapping byte, a table keyed by that byte, the
    answers that complete entries, and the callers that poll, collect and erase them. Calls run
    in different threads; a step is one access to the shared state, and a run is any
    interleaving of steps. */
module Requests {
  import opened Bytes

  datatype Kind = Fetch | Execute

  /** The statuses the manager itself uses; an answer may carry any of them, TIMEOUT included. */
  datatype Status = Timeout | Unknown | ActionNotFound | Other(code: nat)

  /** `status` has no value until an answer sets it. */
  datatype ActionResponse = ActionResponse(isWaiting: bool, reqId: ubyte, kind: Kind, phy: nat, port: nat,
                                           status: Option<Status>, payload: seq<ubyte>,
                                           timeSent: nat, timeReceived: nat)

  /** What a caller asked for. An execute without a status, `wantStatus` false, is not tracked. */
  datatype Request = Request(kind: Kind, blocking: bool, wantStatus: bool, phy: nat, port: nat)

  predicate Tracked(r: Request) {
    r.kind.Fetch? || r.wantStatus
  }

  /** Drawn: has its id, the entry is not in the table yet. Polling: inside the polling loop. */
  datatype Phase = Drawn | Polling | Returned

  /** The local state of one call. `id` is the byte it drew; `result` its last collected copy. */
  datatype Call = Call(request: Request, id: ubyte, phase: Phase, result: Option<ActionResponse>, start: nat)

  /** Call n is the n-th to draw an id. */
  datatype Manager = Manager(counter: ubyte, table: map<ubyte, ActionResponse>, calls: seq<Call>,
                             notify: bool, callbacks: seq<Option<ActionResponse>>)

  const RESPONSE_TIMEOUT := 5_000_000

  datatype Event =
    /** The counter is read and incremented. */
    | Draw(request: Request)
    /** An asynchronous execute of an unknown action: draws an id, reports and returns. */
    | Refuse(phy: nat, port: nat, now: nat)
    /** Call n emplaces its entry and sends its packet; a blocking call then notes the time. */
    | Insert(n: nat, sent: nat, start: nat)
    /** A result (no payload) or response (payload) packet is handled. `cause` is the call whose
        packet the sender answered; the handler does not see it. */
    | Answer(id: ubyte, status: Status, payload: Option<seq<ubyte>>, cause: nat)
    /** Call n evaluates its loop condition and runs the body once, or leaves the loop. */
    | Turn(n: nat, now: nat)

  function Start(notify: bool): Manager {
    Manager(0, map[], [], notify, [])
  }

  function Notified(m: Manager, r: Option<ActionResponse>): seq<Option<ActionResponse>> {
    if m.notify then m.callbacks + [r] else m.callbacks
  }

  function Answered(r: ActionResponse, status: Status, payload: Option<seq<ubyte>>): ActionResponse {
    r.(isWaiting := false, status := Some(status), payload := if payload.Some? then payload.value else r.payload)
  }

  function FreshEntry(c: Call, sent: nat): ActionResponse {
    ActionResponse(true, c.id, c.request.kind, c.request.phy, c.request.port, None, [], sent, 0)
  }

  function RefusedEntry(id: ubyte, phy: nat, port: nat, now: nat): ActionResponse {
    ActionResponse(false, id, Execute, phy, port, Some(Unknown), [], now, 0)
  }

  predicate CanInsert(calls: seq<Call>, n: nat) {
    n < |calls| && calls[n].phase == Drawn && Tracked(calls[n].request)
  }

  predicate CanTurn(calls: seq<Call>, n: nat) {
    n < |calls| && calls[n].phase == Polling
  }

  /** The condition of the polling loop: an execute waits while its status is TIMEOUT, a fetch
      while it has no result, and either only until the time is up. */
  predicate Waits(c: Call, now: nat) {
    && (c.result.None? || (c.request.kind.Execute? && c.result.value.status == Some(Timeout)))
    && U64(now - c.start) < RESPONSE_TIMEOUT
  }

  /** The byte that call n draws. */
  function Id(n: nat): ubyte {
    n % 0x100
  }

  function Inserted(c: Call, start: nat): Call {
    c.(phase := if c.request.blocking then Polling else Returned, start := start)
  }

  function Step(m: Manager, e: Event): Manager {
    match e
    case Draw(request) =>
      m.(counter := (m.counter + 1) % 0x100,
         calls := m.calls + [Call(request, m.counter, if Tracked(request) then Drawn else Returned, None, 0)])
    case Refuse(phy, port, now) =>
      m.(counter := (m.counter + 1) % 0x100,
         calls := m.calls + [Call(Request(Execute, false, false, phy, port), m.counter, Returned, None, 0)],
         callbacks := Notified(m, Some(RefusedEntry(m.counter, phy, port, now))))
    case Insert(n, sent, start) =>
      if !CanInsert(m.calls, n) then m
      else
        var c := m.calls[n];
        m.(table := if c.id in m.table then m.table else m.table[c.id := FreshEntry(c, sent)],
           calls := m.calls[n := Inserted(c, start)])
    case Answer(id, status, payload, _) =>
      if id !in m.table then m
      else
        var r := Answered(m.table[id], status, payload);
        m.(table := m.table[id := r], callbacks := Notified(m, Some(r)))
    case Turn(n, now) =>
      if !CanTurn(m.calls, n) then m
      else
        var c := m.calls[n];
        if Waits(c, now) then
          if c.id in m.table && !m.table[c.id].isWaiting then
            m.(table := m.table - {c.id},
               calls := m.calls[n := c.(result := Some(m.table[c.id].(timeReceived := now)))])
          else m
        else
          m.(calls := m.calls[n := c.(phase := Returned)], callbacks := Notified(m, c.result))
  }

  function Run(notify: bool, events: seq<Event>): Manager {
    if events == [] then Start(notify)
    else Step(Run(notify, events[..|events| - 1]), events[|events| - 1])
  }

  lemma RunAppend(notify: bool, es: seq<Event>, e: Event)
    ensures Run(notify, es + [e]) == Step(Run(notify, es), e)
  {
    assert (es + [e])[..|es|] == es;
  }

  /** The status a blocking execute returns. */
  function ReturnedStatus(c: Call): Status {
    if c.result.Some? && c.result.value.status.Some? then c.result.value.status.value else Timeout
  }

  // ---- What holds on every run, ids reused or not ----

  ghost predicate TableSound(m: Manager) {
    && m.counter == Id(|m.calls|)
    && (forall n | 0 <= n < |m.calls| :: m.calls[n].id == Id(n))
    && (forall id | id in m.table :: m.table[id].reqId == id)
    && (forall id | id in m.table :: m.table[id].isWaiting <==> m.table[id].status.None?)
    && (forall n | 0 <= n < |m.calls| && m.calls[n].result.Some? ::
          var r := m.calls[n].result.value;
          r.reqId == m.calls[n].id && !r.isWaiting && r.status.Some? && Tracked(m.calls[n].request)
              && m.calls[n].request.blocking)
    && (forall n | 0 <= n < |m.calls| && m.calls[n].phase == Polling ::
          Tracked(m.calls[n].request) && m.calls[n].request.blocking)
  }

  lemma TurnSound(m: Manager, e: Event)
    requires TableSound(m) && e.Turn?
    ensures TableSound(Step(m, e))
  {
    hide Waits;
    hide Id;
  }

  lemma StepSound(m: Manager, e: Event)
    requires TableSound(m)
    ensures TableSound(Step(m, e))
  {
    match e
    case Draw(_) =>
    case Refuse(_, _, _) =>
    case Insert(_, _, _) =>
    case Answer(_, _, _, _) =>
    case Turn(_, _) => TurnSound(m, e);
  }

  lemma {:induction false} RunSound(notify: bool, events: seq<Event>)
    ensures TableSound(Run(notify, events)) && Run(notify, events).notify == notify
  {
    if events != [] {
      RunSound(notify, events[..|events| - 1]);
      StepSound(Run(notify, events[..|events| - 1]), events[|events| - 1]);
    }
  }

  lemma {:induction false} ByteSetBound(s: set<ubyte>, bound: nat)
    requires forall x | x in s :: x < bound
    ensures |s| <= bound
  {
    if bound == 0 {
      assert forall x: ubyte :: x !in s;
      assert s == {};
    } else {
      var x: int := bound - 1;
      if bound <= 0x100 && x in s {
        ByteSetBound(s - {x}, bound - 1);
      } else {
        ByteSetBound(s, bound - 1);
      }
    }
  }

  /** On every run: each entry lies under its own id, at most 256 exist, an entry waits exactly
      until it has a status, and a call only ever holds answers under its own id. */
  lemma TableInvariant(notify: bool, events: seq<Event>)
    ensures var m := Run(notify, events);
            && |m.table| <= 0x100
            && (forall id | id in m.table :: m.table[id].reqId == id)
            && (forall id | id in m.table :: m.table[id].isWaiting <==> m.table[id].status.None?)
            && (forall n | 0 <= n < |m.calls| ::
                  m.calls[n].id == Id(n) && (m.calls[n].result.Some? ==> m.calls[n].result.value.reqId == Id(n)))
  {
    RunSound(notify, events);
    ByteSetBound(Run(notify, events).table.Keys, 0x100);
  }

  /** The entry was in the table throughout the events after the first k. */
  ghost predicate Kept(notify: bool, events: seq<Event>, k: nat, id: ubyte) {
    && id in Run(notify, events).table
    && forall i | k <= i <= |events| :: id in Run(notify, events[..i]).table
  }

  /** While an entry lives, what it is for and when it was sent do not change, and once it is
      answered it does not wait again. */
  lemma {:induction false} EntryIsStable(notify: bool, events: seq<Event>, k: nat, id: ubyte)
    requires k <= |events| && Kept(notify, events, k, id)
    ensures var r, r' := Run(notify, events[..k]).table[id], Run(notify, events).table[id];
            && r'.kind == r.kind && r'.phy == r.phy && r'.port == r.port && r'.timeSent == r.timeSent
            && (!r.isWaiting ==> !r'.isWaiting)
    decreases |events|
  {
    assert events[..|events|] == events;
    if k < |events| {
      var before := events[..|events| - 1];
      assert before == events[..|before|];
      forall i | k <= i <= |before| ensures id in Run(notify, before[..i]).table {
        assert before[..i] == events[..i];
      }
      EntryIsStable(notify, before, k, id);
      assert before[..k] == events[..k];
      assert before[..|before|] == before;
    }
  }

  // ---- What the steps of a call do, in the caller's terms ----

  /** Only a fetch, or an execute that wants a status, is inserted; any other is over once drawn. */
  lemma InsertedOnlyIfWanted(m: Manager, request: Request)
    ensures var c := Step(m, Draw(request)).calls[|m.calls|];
            && c.request == request
            && c.phase == if request.kind == Fetch || request.wantStatus then Drawn else Returned
    ensures forall n: nat | CanInsert(m.calls, n) ::
              m.calls[n].request.kind == Fetch || m.calls[n].request.wantStatus
  {}

  /** The call has what it waits for: a fetch any answer, an execute one whose status is not TIMEOUT. */
  predicate Settled(c: Call) {
    c.result.Some? && (c.request.kind == Fetch || c.result.value.status != Some(Timeout))
  }

  /** A turn returns exactly when the call is settled or its five seconds are over. Otherwise it
      takes the entry under its byte out of the table if that has been answered. */
  lemma TurnDecides(m: Manager, n: nat, now: nat)
    requires CanTurn(m.calls, n)
    ensures var c, m' := m.calls[n], Step(m, Turn(n, now));
            var over := Settled(c) || U64(now - c.start) >= 5_000_000;
            var found := !over && c.id in m.table && !m.table[c.id].isWaiting;
            && m'.calls[n].phase == (if over then Returned else Polling)
            && m'.calls[n].result == (if found then Some(m.table[c.id].(timeReceived := now)) else c.result)
            && m'.table == (if found then m.table - {c.id} else m.table)
  {}

  /** What a call settled for it keeps. */
  lemma SettledStays(m: Manager, e: Event, n: nat)
    requires n < |m.calls| && Settled(m.calls[n])
    requires m.calls[n].phase == Drawn ==> m.calls[n].result.None?
    ensures Settled(Step(m, e).calls[n]) && Step(m, e).calls[n].result == m.calls[n].result
  {}

  // ---- What the callback is given ----

  /** An answer that finds its entry reports the entry as the answer leaves it, and a call that
      returns reports what it holds; nothing is reported when no callback is set. */
  lemma StepReports(m: Manager, e: Event)
    ensures !m.notify ==> Step(m, e).callbacks == m.callbacks
    ensures m.notify && e.Answer? ==>
              if e.id in m.table then
                var r := m.table[e.id];
                var payload := if e.payload.Some? then e.payload.value else r.payload;
                Step(m, e).callbacks
                == m.callbacks + [Some(r.(isWaiting := false, status := Some(e.status), payload := payload))]
              else Step(m, e).callbacks == m.callbacks
    ensures m.notify && e.Turn? ==>
              Step(m, e).callbacks
              == if CanTurn(m.calls, e.n) && Step(m, e).calls[e.n].phase == Returned
                 then m.callbacks + [m.calls[e.n].result] else m.callbacks
    ensures e.Draw? || e.Insert? ==> Step(m, e).callbacks == m.callbacks
  {}

  /** Whatever is reported has a status and does not wait. */
  lemma {:induction false} ReportsAreAnswers(notify: bool, events: seq<Event>)
    ensures forall r | r in Run(notify, events).callbacks && r.Some? :: !r.value.isWaiting && r.value.status.Some?
  {
    if events != [] {
      var before := events[..|events| - 1];
      ReportsAreAnswers(notify, before);
      RunSound(notify, before);
      ReportIsAnswer(Run(notify, before), events[|events| - 1]);
    }
  }

  lemma ReportIsAnswer(m: Manager, e: Event)
    requires TableSound(m)
    ensures forall r | r in Step(m, e).callbacks && r.Some? ::
              r in m.callbacks || (!r.value.isWaiting && r.value.status.Some?)
  {
    hide Waits;
  }

  /** Callbacks are only ever added to, and never made when none is set. */
  lemma {:induction false} CallbacksGrow(notify: bool, events: seq<Event>, k: nat)
    requires k <= |events|
    ensures Run(notify, events[..k]).callbacks <= Run(notify, events).callbacks
    ensures !notify ==> Run(notify, events).callbacks == []
    decreases |events|
  {
    if k == |events| {
      assert events[..k] == events;
    }
    if events != [] {
      hide Step;
      var before, e := events[..|events| - 1], events[|events| - 1];
      CallbacksGrow(notify, before, if k < |events| then k else |before|);
      RunSound(notify, before);
      StepGrows(Run(notify, before), e);
      if k < |events| {
        assert before[..k] == events[..k];
      }
    }
  }

  lemma StepGrows(m: Manager, e: Event)
    ensures m.callbacks <= Step(m, e).callbacks
    ensures !m.notify ==> Step(m, e).callbacks == m.callbacks
  {
    hide Waits;
  }

  // ---- Callbacks are conserved ----

  function CountSome(l: seq<Option<ActionResponse>>): nat {
    if l == [] then 0 else CountSome(l[..|l| - 1]) + if l[|l| - 1].Some? then 1 else 0
  }

  /** Answers that found an entry. */
  function Accepted(notify: bool, events: seq<Event>): nat {
    if events == [] then 0
    else
      var before, e := events[..|events| - 1], events[|events| - 1];
      Accepted(notify, before) + if e.Answer? && e.id in Run(notify, before).table then 1 else 0
  }

  function Refusals(events: seq<Event>): nat {
    if events == [] then 0 else Refusals(events[..|events| - 1]) + if events[|events| - 1].Refuse? then 1 else 0
  }

  /** Blocking tracked calls that have returned, with or without a collected answer. */
  function Returns(calls: seq<Call>, collected: bool): nat {
    if calls == [] then 0
    else
      var c := calls[|calls| - 1];
      Returns(calls[..|calls| - 1], collected) +
      if c.phase == Returned && Tracked(c.request) && c.request.blocking && c.result.Some? == collected then 1 else 0
  }

  lemma {:induction false} ReturnsUpdate(calls: seq<Call>, n: nat, c: Call, collected: bool)
    requires n < |calls|
    ensures Returns(calls[n := c], collected)
              == Returns(calls, collected) - Returns([calls[n]], collected) + Returns([c], collected)
  {
    var last := |calls| - 1;
    assert [calls[n]][..0] == [] && [c][..0] == [];
    if n == last {
      assert calls[n := c][..last] == calls[..last];
    } else {
      ReturnsUpdate(calls[..last], n, c, collected);
      assert calls[n := c][..last] == calls[..last][n := c];
    }
  }

  lemma ReturnsAppend(calls: seq<Call>, c: Call, collected: bool)
    ensures Returns(calls + [c], collected) == Returns(calls, collected) + Returns([c], collected)
  {
    assert (calls + [c])[..|calls|] == calls;
    assert [c][..0] == [];
  }

  lemma CountAppend(l: seq<Option<ActionResponse>>, r: Option<ActionResponse>)
    ensures CountSome(l + [r]) == CountSome(l) + if r.Some? then 1 else 0
  {
    assert (l + [r])[..|l|] == l;
  }

  /** With a callback set, on every run: it was given an answer once for every answer accepted,
      every refused execute and every blocking call that returned what it collected, and it was
      given nothing once for every blocking call that returned empty-handed. */
  lemma {:induction false} CallbackConservation(events: seq<Event>)
    ensures var m := Run(true, events);
            && CountSome(m.callbacks) == Accepted(true, events) + Refusals(events) + Returns(m.calls, true)
            && |m.callbacks| - CountSome(m.callbacks) == Returns(m.calls, false)
  {
    if events != [] {
      var before, e := events[..|events| - 1], events[|events| - 1];
      CallbackConservation(before);
      RunSound(true, before);
      ConservedByStep(Run(true, before), e);
    }
  }

  lemma ConservedByStep(m: Manager, e: Event)
    requires TableSound(m) && m.notify
    ensures var m' := Step(m, e);
            var accepted := if (e.Answer? && e.id in m.table) || e.Refuse? then 1 else 0;
            && m'.notify
            && CountSome(m'.callbacks) - Returns(m'.calls, true)
                == CountSome(m.callbacks) - Returns(m.calls, true) + accepted
            && |m'.callbacks| - CountSome(m'.callbacks) - Returns(m'.calls, false)
               == |m.callbacks| - CountSome(m.callbacks) - Returns(m.calls, false)
  {
    hide Waits;
    hide TableSound;
    hide U64;
    var m' := Step(m, e);
    match e
    case Draw(request) =>
      ReturnsAppend(m.calls, m'.calls[|m.calls|], true);
      ReturnsAppend(m.calls, m'.calls[|m.calls|], false);
    case Refuse(phy, port, now) =>
      ReturnsAppend(m.calls, m'.calls[|m.calls|], true);
      ReturnsAppend(m.calls, m'.calls[|m.calls|], false);
      CountAppend(m.callbacks, Some(RefusedEntry(m.counter, phy, port, now)));
    case Insert(n, sent, start) =>
      if CanInsert(m.calls, n) {
        ReturnsUpdate(m.calls, n, m'.calls[n], true);
        ReturnsUpdate(m.calls, n, m'.calls[n], false);
      }
    case Answer(id, status, payload, _) =>
      if id in m.table {
        CountAppend(m.callbacks, Some(Answered(m.table[id], status, payload)));
      }
    case Turn(n, now) =>
      ConservedByTurn(m, n, now);
  }

  lemma ConservedByTurn(m: Manager, n: nat, now: nat)
    requires TableSound(m) && m.notify
    ensures var m' := Step(m, Turn(n, now));
            && m'.notify
            && CountSome(m'.callbacks) - Returns(m'.calls, true) == CountSome(m.callbacks) - Returns(m.calls, true)
            && |m'.callbacks| - CountSome(m'.callbacks) - Returns(m'.calls, false)
               == |m.callbacks| - CountSome(m.callbacks) - Returns(m.calls, false)
  {
    hide Waits;
    if CanTurn(m.calls, n) {
      var c, c' := m.calls[n], Step(m, Turn(n, now)).calls[n];
      ReturnsUpdate(m.calls, n, c', true);
      ReturnsUpdate(m.calls, n, c', false);
      CountAppend(m.callbacks, c.result);
      assert [c][..0] == [] && [c'][..0] == [];
    }
  }

  // ---- Giving up ----

  /** A blocking call that came back without what it waited for: it holds nothing, or it is an
      execute that holds a TIMEOUT answer. */
  ghost predicate CameBackUnsettled(m: Manager, n: nat) {
    && n < |m.calls| && m.calls[n].phase == Returned && !Settled(m.calls[n])
    && (m.calls[n].request.kind == Fetch || m.calls[n].request.wantStatus) && m.calls[n].request.blocking
  }

  /** A turn of call n at which its time is up: five seconds on a clock that has not gone back, or
      a clock that has (the unsigned difference then wraps). */
  predicate TimeIsUp(e: Event, n: nat, start: nat) {
    && e.Turn? && e.n == n && U64(e.now - start) >= 5_000_000
    && (e.now < start || e.now - start >= 5_000_000)
  }

  lemma LeavesUnsettled(m: Manager, e: Event, n: nat)
    requires CameBackUnsettled(Step(m, e), n) && !CameBackUnsettled(m, n)
    ensures TimeIsUp(e, n, Step(m, e).calls[n].start)
  {}

  /** A blocking call comes back unsettled only after a turn at which its time was up. */
  lemma {:induction false} UnsettledMeansTimedOut(notify: bool, events: seq<Event>, n: nat)
    requires CameBackUnsettled(Run(notify, events), n)
    ensures exists i :: 0 <= i < |events| && TimeIsUp(events[i], n, Run(notify, events).calls[n].start)
    decreases |events|
  {
    if events != [] {
      hide Step;
      hide TimeIsUp;
      var before, e := events[..|events| - 1], events[|events| - 1];
      var m := Run(notify, before);
      if CameBackUnsettled(m, n) {
        UnsettledMeansTimedOut(notify, before, n);
        StartKept(m, e, n);
        var i :| 0 <= i < |before| && TimeIsUp(before[i], n, m.calls[n].start);
        assert events[i] == before[i];
      } else {
        LeavesUnsettled(m, e, n);
        assert events[|events| - 1] == e;
      }
    }
  }

  lemma StartKept(m: Manager, e: Event, n: nat)
    requires n < |m.calls| && m.calls[n].phase == Returned
    ensures Step(m, e).calls[n] == m.calls[n]
  {}
}
