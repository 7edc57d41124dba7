/** What holds on guarded runs beyond what needs fresh ids only: whose entry and whose answer it is
    that a call comes back with. */
module RequestSoundness {
  import opened Bytes
  import opened Requests
  import opened FreshRequests
  import opened IdealRequests

  // ---- The entry a call returns is its own ----

  /** Event i is call n's insertion, and r is the entry it inserted or a later state of it. */
  ghost predicate InsertedAt(notify: bool, events: seq<Event>, n: nat, i: int, r: ActionResponse, q: Request) {
    && InsertsAt(notify, events, n, i) && r.timeSent == events[i].sent
    && r.kind == q.kind && r.phy == q.phy && r.port == q.port
  }

  /** The last step of a guarded run, seen in both machines. */
  lemma LastStep(notify: bool, events: seq<Event>) returns (before: seq<Event>, e: Event, m: Manager, i: Ideal)
    requires Guarded(notify, events) && events != []
    ensures before == events[..|events| - 1] && e == events[|events| - 1]
    ensures m == Run(notify, before) && i == IdealRun(notify, before)
    ensures Run(notify, events) == Step(m, e) && IdealRun(notify, events) == IdealNext(i, e)
    ensures Guarded(notify, before) && Guard(m, e) && Related(m, i) && IdealSound(i)
    ensures Related(Step(m, e), IdealNext(i, e))
  {
    hide Related;
    hide Step;
    hide IdealNext;
    hide IdealSound;
    before, e := events[..|events| - 1], events[|events| - 1];
    m, i := Run(notify, before), IdealRun(notify, before);
    GuardedPrefix(notify, events, |events| - 1);
    IdealRunSound(notify, before);
    Refines(notify, before);
    Refines(notify, events);
  }

  /** The history of a live entry. */
  lemma {:induction false} LiveHistory(notify: bool, events: seq<Event>, n: nat) returns (i: int, j: int)
    requires Guarded(notify, events) && n in IdealRun(notify, events).table
    ensures var m, r := IdealRun(notify, events), IdealRun(notify, events).table[n];
            && n < |m.calls|
            && InsertedAt(notify, events, n, i, r, m.calls[n].request)
            && (!r.isWaiting ==> AnsweredAt(events, n, i, j, |events|, r) && n in IdealRun(notify, events[..j]).table)
    decreases |events|
  {
    hide Guarded;
    hide Related;
    hide Guard;
    hide Step;
    hide IdealNext;
    hide IdealSound;
    var before, e, m, ideal := LastStep(notify, events);
    if n in ideal.table {
      i, j := LiveHistory(notify, before, n);
      assert before[..i] == events[..i];
      LiveStep(m, ideal, e, n);
      if e.Answer? && e.id == Id(n) {
        j := |before|;
      } else if !ideal.table[n].isWaiting {
        assert before[..j] == events[..j];
      }
    } else {
      LiveFromInsert(m, ideal, e, n);
      LiveCalls(m, ideal);
      i, j := |before|, 0;
    }
  }

  /** How a step changes a live entry: only an answer with its byte does. */
  lemma LiveStep(m: Manager, i: Ideal, e: Event, n: nat)
    requires Related(m, i) && IdealSound(i) && n in i.table && n in IdealNext(i, e).table
    ensures var i' := IdealNext(i, e);
            && n < |i.calls| <= |i'.calls| && i'.calls[n].request == i.calls[n].request
            && i'.table[n]
                 == if e.Answer? && e.id == Id(n) then Answered(i.table[n], e.status, e.payload) else i.table[n]
  {
    hide Mirrors;
    hide Owner;
    hide Waits;
    if e.Answer? {
      MirrorsOwner(m, i, e.id);
    }
  }

  lemma LiveFromInsert(m: Manager, i: Ideal, e: Event, n: nat)
    requires Related(m, i) && n !in i.table && n in IdealNext(i, e).table
    ensures var i' := IdealNext(i, e);
            && e.Insert? && e.n == n && n < |i.calls| == |i'.calls| && CanInsert(i.calls, n)
            && i'.calls[n].request == i.calls[n].request
            && i'.table[n] == FreshEntry(i.calls[n], e.sent)
  {
    hide Owner;
    hide Waits;
  }

  /** What call n holds is what it collected first, at k, and it is the entry that it inserted itself
      at i; the answer was handled at j. */
  ghost predicate Fulfilled(notify: bool, events: seq<Event>, n: nat, r: ActionResponse, q: Request,
                            i: int, j: int, k: int) {
    && Completed(notify, events, n, r, i, j, k)
    && InsertedAt(notify, events, n, i, r, q)
    && Run(notify, events[..k]).calls[n].result.None?
  }

  lemma FulfilledBefore(notify: bool, events: seq<Event>, n: nat, r: ActionResponse, q: Request,
                        i: int, j: int, k: int)
    requires events != [] && Fulfilled(notify, events[..|events| - 1], n, r, q, i, j, k)
    ensures 0 <= j < k < |events| - 1 && Fulfilled(notify, events, n, r, q, i, j, k)
  {
    hide Run;
    hide CollectedBy;
    var before := events[..|events| - 1];
    assert events[..k + 1] == before[..k + 1] && events[..k] == before[..k];
    assert events[..i] == before[..i];
  }

  lemma FulfilledNow(notify: bool, events: seq<Event>, n: nat, i: int, j: int)
    requires events != [] && events[|events| - 1].Turn?
    requires var k := |events| - 1;
             var m, m', e := Run(notify, events[..k]), Run(notify, events), events[k];
             && n < |m'.calls| && m'.calls[n].result.Some?
             && var r, q := m'.calls[n].result.value, m'.calls[n].request;
             && e == Turn(n, r.timeReceived) && CollectedBy(m, m', n, r) && m.calls[n].result.None?
             && InsertedAt(notify, events[..k], n, i, r, q) && AnsweredAt(events[..k], n, i, j, k, r)
    ensures var c := Run(notify, events).calls[n];
            Fulfilled(notify, events, n, c.result.value, c.request, i, j, |events| - 1)
  {
    hide Run;
    var k := |events| - 1;
    var before := events[..k];
    assert events[..k + 1] == events;
    assert events[..i] == before[..i];
  }

  lemma {:induction false} CollectedHistory(notify: bool, events: seq<Event>, n: nat) returns (i: int, j: int, k: int)
    requires Guarded(notify, events)
    requires n < |Run(notify, events).calls| && Run(notify, events).calls[n].result.Some?
    ensures var c := Run(notify, events).calls[n];
            && Fulfilled(notify, events, n, c.result.value, c.request, i, j, k)
            && n in IdealRun(notify, events[..j]).table
    decreases |events|
  {
    hide Guarded;
    hide Related;
    hide Guard;
    hide Step;
    hide IdealNext;
    hide IdealSound;
    hide CollectedBy;
    hide Fulfilled;
    if events == [] {
      assert false;
    }
    var before, e, m, ideal := LastStep(notify, events);
    if n < |m.calls| && m.calls[n].result.Some? {
      ResultKept(m, ideal, e, n);
      i, j, k := CollectedHistory(notify, before, n);
      FulfilledBefore(notify, events, n, m.calls[n].result.value, m.calls[n].request, i, j, k);
      assert events[..j] == before[..j];
    } else {
      CollectsOwn(m, ideal, e, n);
      LiveCalls(m, ideal);
      i, j := LiveHistory(notify, before, n);
      k := |before|;
      assert events[..j] == before[..j];
      FulfilledNow(notify, events, n, i, j);
    }
  }

  lemma LiveCalls(m: Manager, i: Ideal)
    requires Related(m, i)
    ensures m.calls == i.calls
  {}

  /** A guarded step leaves what a call has collected as it is. */
  lemma ResultKept(m: Manager, i: Ideal, e: Event, n: nat)
    requires Related(m, i) && IdealSound(i) && Guard(m, e)
    requires n < |m.calls| && m.calls[n].result.Some?
    ensures var m' := Step(m, e);
            m'.calls[n].result == m.calls[n].result && m'.calls[n].request == m.calls[n].request
  {
    hide Mirrors;
    hide Waits;
  }

  /** The step in which a call collects takes the call's own entry out of the table. */
  lemma CollectsOwn(m: Manager, i: Ideal, e: Event, n: nat)
    requires Related(m, i) && IdealSound(i) && Guard(m, e)
    requires n < |Step(m, e).calls| && Step(m, e).calls[n].result.Some?
    requires n < |m.calls| ==> m.calls[n].result.None?
    ensures n < |m.calls| && e == Turn(n, e.now) && n in i.table && !i.table[n].isWaiting
    ensures Step(m, e).calls[n] == m.calls[n].(result := Some(i.table[n].(timeReceived := e.now)))
    ensures CollectedBy(m, Step(m, e), n, Step(m, e).calls[n].result.value)
  {
    hide Mirrors;
    hide U64;
    if n in i.table {
      OwnEntry(m, i, n);
    }
  }

  /** On a guarded run, a call that comes back with an answer comes back with the first it collected,
      and that is the entry it inserted itself. */
  lemma OwnEntryCollected(notify: bool, events: seq<Event>, n: nat)
    requires Guarded(notify, events) && n < |Run(notify, events).calls|
    ensures var c := Run(notify, events).calls[n];
            c.result.Some? ==> exists i, j, k :: Fulfilled(notify, events, n, c.result.value, c.request, i, j, k)
  {
    if Run(notify, events).calls[n].result.Some? {
      var i, j, k := CollectedHistory(notify, events, n);
    }
  }

  // ---- When an answer lands on the request that caused it ----

  /** The call an answer was sent for is one it can still reach: it has the answer's byte, was
      sent, and has not collected an answer yet. */
  predicate Reaches(m: Manager, e: Event) {
    e.Answer? && e.id == Id(e.cause) && Outstanding(m.calls, e.cause)
  }

  /** After a guarded run, an answer lands on the entry of the call it was sent for if and only if
      that call is still outstanding. A duplicate that comes after the first was collected lands on
      whatever call has the byte by then. */
  lemma LandsOnCauseIffReaches(notify: bool, events: seq<Event>, e: Event)
    requires Guarded(notify, events) && e.Answer?
    ensures Owner(IdealRun(notify, events), e.id) == Some(e.cause) <==> Reaches(Run(notify, events), e)
  {
    hide Guarded;
    hide Outstanding;
    Refines(notify, events);
    EntryStaysIffOutstanding(notify, events, e.cause);
    MirrorsOwner(Run(notify, events), IdealRun(notify, events), e.id);
  }

  /** Every answer of the run reaches the call it was sent for. */
  ghost predicate AllReach(notify: bool, events: seq<Event>) {
    forall j | 0 <= j < |events| && events[j].Answer? :: Reaches(Run(notify, events[..j]), events[j])
  }

  /** Answer j of the run lands on the entry of the call it was sent for. */
  ghost predicate LandsOnCause(notify: bool, events: seq<Event>, j: int)
    requires 0 <= j < |events| && events[j].Answer?
  {
    Owner(IdealRun(notify, events[..j]), events[j].id) == Some(events[j].cause)
  }

  /** The exact condition: the byte-keyed table stays faithful and every answer lands on the request
      that caused it if and only if every step is guarded and every answer reaches its cause. */
  lemma AttributionIff(notify: bool, events: seq<Event>)
    ensures Guarded(notify, events) && AllReach(notify, events) <==>
            && (forall k | 0 <= k <= |events| :: Related(Run(notify, events[..k]), IdealRun(notify, events[..k])))
            && forall j | 0 <= j < |events| && events[j].Answer? :: LandsOnCause(notify, events, j)
  {
    hide Guarded;
    hide Related;
    hide Reaches;
    hide Run;
    hide IdealRun;
    FaithfulIffGuarded(notify, events);
    if Guarded(notify, events) {
      forall j | 0 <= j < |events| && events[j].Answer?
        ensures LandsOnCause(notify, events, j) <==> Reaches(Run(notify, events[..j]), events[j])
      {
        GuardedPrefix(notify, events, j);
        LandsOnCauseIffReaches(notify, events[..j], events[j]);
      }
    }
  }

  /** No answer completes the entry of another call than the one it was sent for, on a guarded run, if
      and only if every answer reaches its cause or finds no entry under its byte and is dropped. */
  lemma NoneMisdirectedIff(notify: bool, events: seq<Event>)
    requires Guarded(notify, events)
    ensures (forall j | 0 <= j < |events| && events[j].Answer? ::
               Owner(IdealRun(notify, events[..j]), events[j].id) in {None, Some(events[j].cause)})
            <==> forall j | 0 <= j < |events| && events[j].Answer? ::
                   Reaches(Run(notify, events[..j]), events[j]) || events[j].id !in Run(notify, events[..j]).table
  {
    hide Guarded;
    hide Reaches;
    hide Run;
    hide IdealRun;
    hide Owner;
    hide Related;
    forall j | 0 <= j < |events| && events[j].Answer?
      ensures Owner(IdealRun(notify, events[..j]), events[j].id) in {None, Some(events[j].cause)}
              <==> Reaches(Run(notify, events[..j]), events[j]) || events[j].id !in Run(notify, events[..j]).table
    {
      GuardedPrefix(notify, events, j);
      LandsOnCauseIffReaches(notify, events[..j], events[j]);
      OwnedIffPresent(notify, events[..j], events[j].id);
    }
  }

  lemma OwnedIffPresent(notify: bool, events: seq<Event>, id: ubyte)
    requires Guarded(notify, events)
    ensures Owner(IdealRun(notify, events), id).Some? <==> id in Run(notify, events).table
  {
    hide Guarded;
    Refines(notify, events);
    MirrorsOwner(Run(notify, events), IdealRun(notify, events), id);
  }

  /** On a guarded run, the answer a call comes back with was sent for that very call if and only
      if the call it was sent for was still outstanding when it was handled. */
  lemma OwnAnswerIffReaches(notify: bool, events: seq<Event>, n: nat)
    requires Guarded(notify, events)
    requires n < |Run(notify, events).calls| && Run(notify, events).calls[n].result.Some?
    ensures var c := Run(notify, events).calls[n];
            exists i, j, k ::
              && Fulfilled(notify, events, n, c.result.value, c.request, i, j, k)
              && (events[j].cause == n <==> Reaches(Run(notify, events[..j]), events[j]))
  {
    hide Guarded;
    hide Reaches;
    var i, j, k := CollectedHistory(notify, events, n);
    GuardedPrefix(notify, events, j);
    LandsOnCauseIffReaches(notify, events[..j], events[j]);
    Refines(notify, events[..j]);
    MirrorsOwner(Run(notify, events[..j]), IdealRun(notify, events[..j]), Id(n));
  }

  // ---- The network's part ----

  /** A tracked call that was sent and not answered yet still has its entry, waiting. */
  lemma {:induction false} UnansweredWaits(notify: bool, events: seq<Event>, n: nat)
    requires Guarded(notify, events) && Honest(notify, events)
    requires Sent(Run(notify, events), n) && n !in Causes(events)
    ensures var i := IdealRun(notify, events);
            n in i.table && i.table[n].isWaiting
    decreases |events|
  {
    hide Guarded;
    hide Related;
    hide Guard;
    hide Step;
    hide IdealNext;
    hide IdealSound;
    hide Honest;
    hide Causes;
    if events == [] {
      assert false;
    }
    var before, e, m, i := LastStep(notify, events);
    HonestPrefix(notify, events, |events| - 1);
    CausesLast(events);
    if Sent(m, n) {
      UnansweredWaits(notify, before, n);
      if e.Answer? {
        FirstToCause(notify, events, |before|);
        UnansweredWaits(notify, before, e.cause);
      }
      WaitingKept(m, i, e, n);
    } else {
      WaitsOnceInserted(m, i, e, n);
    }
  }

  lemma WaitingKept(m: Manager, i: Ideal, e: Event, n: nat)
    requires Related(m, i) && IdealSound(i) && n in i.table && i.table[n].isWaiting
    requires e.Answer? ==> e.cause != n && e.cause in i.table && e.id == Id(e.cause)
    ensures n in IdealNext(i, e).table && IdealNext(i, e).table[n].isWaiting
  {
    hide Mirrors;
    hide Owner;
    hide Waits;
    if e.Answer? {
      MirrorsOwner(m, i, e.id);
    }
  }

  lemma WaitsOnceInserted(m: Manager, i: Ideal, e: Event, n: nat)
    requires Related(m, i) && IdealSound(i)
    requires Sent(Step(m, e), n) && !Sent(m, n)
    ensures n in IdealNext(i, e).table && IdealNext(i, e).table[n].isWaiting
  {
    hide Mirrors;
    hide Owner;
    hide Waits;
  }

  /** If every step is guarded as well, the entry that an answer finds is the very entry of the call
      it answers. */
  lemma OwnEntryAnswered(notify: bool, events: seq<Event>, j: nat)
    requires Guarded(notify, events) && Honest(notify, events)
    requires j < |events| && events[j].Answer?
    ensures var m, i := Run(notify, events[..j]), IdealRun(notify, events[..j]);
            && events[j].id in m.table && m.table[events[j].id].isWaiting
            && Owner(i, events[j].id) == Some(events[j].cause)
            && m.table[events[j].id] == i.table[events[j].cause]
  {
    hide Guarded;
    hide Step;
    hide IdealNext;
    var before := events[..j];
    GuardedPrefix(notify, events, j);
    HonestPrefix(notify, events, j);
    Refines(notify, before);
    FirstToCause(notify, events, j);
    UnansweredWaits(notify, before, events[j].cause);
    OwnEntry(Run(notify, before), IdealRun(notify, before), events[j].cause);
  }

  /** With an honest network, every answer reaches the call it was sent for. */
  lemma HonestReaches(notify: bool, events: seq<Event>)
    requires Guarded(notify, events) && Honest(notify, events)
    ensures AllReach(notify, events)
  {
    hide Guarded;
    hide Honest;
    hide Reaches;
    forall j | 0 <= j < |events| && events[j].Answer? ensures Reaches(Run(notify, events[..j]), events[j]) {
      OwnEntryAnswered(notify, events, j);
      GuardedPrefix(notify, events, j);
      LandsOnCauseIffReaches(notify, events[..j], events[j]);
    }
  }

  /** Event j is the answer sent for call n, and r is what it says. */
  ghost predicate OwnCause(events: seq<Event>, n: nat, r: ActionResponse, j: int) {
    && 0 <= j < |events| && events[j].Answer? && events[j].cause == n
    && r.status == Some(events[j].status)
    && r.payload == (if events[j].payload.Some? then events[j].payload.value else [])
  }

  /** With an honest network as well, the answer a call returns was sent in answer to that very
      call, and its payload is exactly what the answer carried. */
  lemma {:induction false} AnsweredByOwnCause(notify: bool, events: seq<Event>, n: nat)
    requires Guarded(notify, events) && Honest(notify, events)
    requires n < |Run(notify, events).calls| && Run(notify, events).calls[n].result.Some?
    ensures var r := Run(notify, events).calls[n].result.value;
            exists j :: OwnCause(events, n, r, j)
    decreases |events|
  {
    hide Guarded;
    hide Related;
    hide Guard;
    hide Step;
    hide IdealNext;
    hide IdealSound;
    hide Honest;
    if events == [] {
      assert false;
    }
    var before, e, m, i := LastStep(notify, events);
    HonestPrefix(notify, events, |events| - 1);
    if n < |m.calls| && m.calls[n].result.Some? {
      ResultKept(m, i, e, n);
      AnsweredByOwnCause(notify, before, n);
      var j :| OwnCause(before, n, m.calls[n].result.value, j);
      assert OwnCause(events, n, m.calls[n].result.value, j);
    } else {
      CollectsOwn(m, i, e, n);
      var j := OwnAnswer(notify, before, n);
      assert OwnCause(events, n, i.table[n].(timeReceived := e.now), j);
    }
  }

  lemma {:induction false} OwnAnswer(notify: bool, events: seq<Event>, n: nat) returns (j: int)
    requires Guarded(notify, events) && Honest(notify, events)
    requires n in IdealRun(notify, events).table && !IdealRun(notify, events).table[n].isWaiting
    ensures var r := IdealRun(notify, events).table[n];
            OwnCause(events, n, r, j)
    decreases |events|
  {
    hide Guarded;
    hide Related;
    hide Guard;
    hide Step;
    hide IdealNext;
    hide IdealSound;
    hide Honest;
    if events == [] {
      assert false;
    }
    var before, e, m, i := LastStep(notify, events);
    HonestPrefix(notify, events, |events| - 1);
    if n !in i.table {
      LiveFromInsert(m, i, e, n);
    } else {
      LiveStep(m, i, e, n);
      if e.Answer? && e.id == Id(n) {
        OwnEntryAnswered(notify, events, |events| - 1);
        FirstAnswer(m, i, e, n);
        j := |before|;
      } else {
        j := OwnAnswer(notify, before, n);
      }
    }
  }

  /** An honest answer that reaches call n's entry answers call n, and is the entry's first. */
  lemma FirstAnswer(m: Manager, i: Ideal, e: Event, n: nat)
    requires Related(m, i) && IdealSound(i) && n in i.table && e.Answer? && e.id == Id(n)
    requires Owner(i, e.id) == Some(e.cause) && m.table[e.id].isWaiting
    ensures e.cause == n && i.table[n].payload == []
  {}

  // ---- An answer that has come is collected ----

  /** A live entry whose answer has been handled is not waiting. */
  lemma {:induction false} AnsweredIsReady(notify: bool, events: seq<Event>, n: nat)
    requires Guarded(notify, events) && Honest(notify, events)
    requires n in IdealRun(notify, events).table && n in Causes(events)
    ensures !IdealRun(notify, events).table[n].isWaiting
    decreases |events|
  {
    hide Guarded;
    hide Related;
    hide Guard;
    hide Step;
    hide IdealNext;
    hide IdealSound;
    hide Honest;
    if events == [] {
      assert false;
    }
    var before, e, m, i := LastStep(notify, events);
    HonestPrefix(notify, events, |events| - 1);
    if e.Answer? && e.cause == n {
      OwnEntryAnswered(notify, events, |events| - 1);
      ReadyOnAnswer(m, i, e);
    } else {
      CausesLast(events);
      if n in i.table {
        AnsweredIsReady(notify, before, n);
        LiveStep(m, i, e, n);
      } else {
        LiveFromInsert(m, i, e, n);
        LiveCalls(m, i);
        DrawnUnanswered(notify, before, n);
      }
    }
  }

  lemma ReadyOnAnswer(m: Manager, i: Ideal, e: Event)
    requires Related(m, i) && e.Answer? && Owner(i, e.id) == Some(e.cause)
    ensures e.cause in IdealNext(i, e).table && !IdealNext(i, e).table[e.cause].isWaiting
  {}

  /** A call that has not inserted its entry has not been answered. */
  lemma DrawnUnanswered(notify: bool, events: seq<Event>, n: nat)
    requires Honest(notify, events)
    requires n >= |Run(notify, events).calls| || Run(notify, events).calls[n].phase == Drawn
    ensures n !in Causes(events)
  {
    hide Step;
    hide Honest;
    forall l | 0 <= l < |events| && events[l].Answer? ensures events[l].cause != n {
      if events[l].cause == n {
        FirstToCause(notify, events, l);
        StaysInserted(notify, events, l, n);
      }
    }
  }

  lemma {:induction false} StaysInserted(notify: bool, events: seq<Event>, l: nat, n: nat)
    requires l <= |events| && n < |Run(notify, events[..l]).calls| && Run(notify, events[..l]).calls[n].phase != Drawn
    ensures n < |Run(notify, events).calls| && Run(notify, events).calls[n].phase != Drawn
    decreases |events|
  {
    if l == |events| {
      assert events[..l] == events;
    } else {
      hide Waits;
      assert events[..|events| - 1][..l] == events[..l];
      StaysInserted(notify, events[..|events| - 1], l, n);
    }
  }

  /** On a guarded run with an honest network, a call that is waiting and takes a turn in time
      collects if and only if its own answer has been handled. */
  lemma CollectsIffAnswered(notify: bool, events: seq<Event>, n: nat, now: nat)
    requires Guarded(notify, events) && Honest(notify, events)
    requires var m := Run(notify, events);
             CanTurn(m.calls, n) && m.calls[n].result.None? && Waits(m.calls[n], now)
    ensures Run(notify, events + [Turn(n, now)]).calls[n].result.Some? <==> n in Causes(events)
  {
    hide *;
    RunAppend(notify, events, Turn(n, now));
    Refines(notify, events);
    IdealRunSound(notify, events);
    TurnCollects(Run(notify, events), IdealRun(notify, events), n, now);
    if n in Causes(events) {
      AnsweredIsReady(notify, events, n);
    } else {
      TurnsAreTracked(notify, events, n);
      UnansweredWaits(notify, events, n);
    }
  }

  lemma TurnCollects(m: Manager, i: Ideal, n: nat, now: nat)
    requires Related(m, i) && IdealSound(i) && CanTurn(m.calls, n) && m.calls[n].result.None? && Waits(m.calls[n], now)
    ensures n in i.table && n < |Step(m, Turn(n, now)).calls|
    ensures Step(m, Turn(n, now)).calls[n].result.Some? <==> !i.table[n].isWaiting
  {
    hide Waits;
  }

  lemma TurnsAreTracked(notify: bool, events: seq<Event>, n: nat)
    requires CanTurn(Run(notify, events).calls, n)
    ensures Sent(Run(notify, events), n)
  {
    hide Run;
    RunSound(notify, events);
  }
}
