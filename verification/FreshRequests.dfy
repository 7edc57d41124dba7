/** What holds on every run on which no live id is reused, whatever statuses the answers carry: the
    answer a blocking call comes back with, and the manager's assertions. */
module FreshRequests {
  import opened Bytes
  import opened Requests

  /** Not an insertion under an id whose entry is still in the table. */
  predicate FreshId(m: Manager, e: Event) {
    e.Insert? && CanInsert(m.calls, e.n) ==> m.calls[e.n].id !in m.table
  }

  ghost predicate NoReuse(notify: bool, events: seq<Event>) {
    forall i | 0 <= i < |events| :: FreshId(Run(notify, events[..i]), events[i])
  }

  lemma NoReusePrefix(notify: bool, events: seq<Event>, k: nat)
    requires NoReuse(notify, events) && k <= |events|
    ensures NoReuse(notify, events[..k])
  {
    hide FreshId;
    hide Run;
    forall i | 0 <= i < k ensures FreshId(Run(notify, events[..k][..i]), events[..k][i]) {
      assert events[..k][..i] == events[..i];
    }
  }

  // ---- The answer a blocking call comes back with ----

  /** Event i is the insertion of call n. */
  ghost predicate InsertsAt(notify: bool, events: seq<Event>, n: nat, i: int) {
    0 <= i < |events| && events[i].Insert? && events[i].n == n && CanInsert(Run(notify, events[..i]).calls, n)
  }

  /** Event j, after i, is the last answer with call n's byte before event k, and it gave r its
      status and, if it had one, its payload. */
  ghost predicate AnsweredAt(events: seq<Event>, n: nat, i: int, j: int, k: int, r: ActionResponse) {
    && i < j < k <= |events| && 0 <= j && events[j].Answer? && events[j].id == Id(n)
    && r.status == Some(events[j].status)
    && (events[j].payload.Some? ==> r.payload == events[j].payload.value)
    && forall l | j < l < k :: !(events[l].Answer? && events[l].id == Id(n))
  }

  /** Event k is the turn in which call n takes its present answer r out of the table. */
  ghost predicate CollectedAt(notify: bool, events: seq<Event>, n: nat, r: ActionResponse, k: int) {
    && 0 <= k < |events| && events[k] == Turn(n, r.timeReceived)
    && CollectedBy(Run(notify, events[..k]), Run(notify, events[..k + 1]), n, r)
  }

  ghost predicate CollectedBy(m: Manager, m': Manager, n: nat, r: ActionResponse) {
    && CanTurn(m.calls, n) && U64(r.timeReceived - m.calls[n].start) < 5_000_000
    && Id(n) in m.table && !m.table[Id(n)].isWaiting
    && r == m.table[Id(n)].(timeReceived := r.timeReceived)
    && n < |m'.calls| && m'.calls[n].result == Some(r) && Id(n) !in m'.table
  }

  /** Call n was inserted at i, answered under its byte at j and collected that answer at k. */
  ghost predicate Completed(notify: bool, events: seq<Event>, n: nat, r: ActionResponse, i: int, j: int, k: int) {
    InsertsAt(notify, events, n, i) && AnsweredAt(events, n, i, j, k, r) && CollectedAt(notify, events, n, r, k)
  }

  /** A result stays until the call collects again. */
  lemma ResultStep(m: Manager, e: Event, n: nat)
    requires TableSound(m)
    requires var m' := Step(m, e); n < |m'.calls| && m'.calls[n].result.Some?
    ensures var m', r := Step(m, e), Step(m, e).calls[n].result.value;
            || (n < |m.calls| && m.calls[n].result == m'.calls[n].result)
            || (e == Turn(n, r.timeReceived) && CollectedBy(m, m', n, r))
  {}

  /** On every run a result was collected in some turn. */
  lemma {:induction false} CollectedSometime(notify: bool, events: seq<Event>, n: nat) returns (k: int)
    requires n < |Run(notify, events).calls| && Run(notify, events).calls[n].result.Some?
    ensures CollectedAt(notify, events, n, Run(notify, events).calls[n].result.value, k)
    decreases |events|
  {
    hide Step;
    hide TableSound;
    hide CollectedBy;
    if events == [] {
      assert false;
    }
    var before, e := events[..|events| - 1], events[|events| - 1];
    RunSound(notify, before);
    ResultStep(Run(notify, before), e, n);
    var m := Run(notify, before);
    if n < |m.calls| && m.calls[n].result == Run(notify, events).calls[n].result {
      k := CollectedSometime(notify, before, n);
      assert before[..k] == events[..k] && before[..k + 1] == events[..k + 1];
    } else {
      k := |before|;
      assert events[..k + 1] == events;
    }
  }

  /** Event l inserts an entry under this byte. */
  ghost predicate InsertsUnder(m: Manager, e: Event, id: ubyte) {
    e.Insert? && CanInsert(m.calls, e.n) && m.calls[e.n].id == id
  }

  /** Unless ids are reused, an answered entry is changed by answers under its byte only, and it is
      not a new one. */
  lemma AnsweredStep(m: Manager, e: Event, id: ubyte)
    requires FreshId(m, e) && !(e.Answer? && e.id == id)
    requires id in Step(m, e).table && !Step(m, e).table[id].isWaiting
    ensures id in m.table && Step(m, e).table[id] == m.table[id] && !InsertsUnder(m, e, id)
  {
    hide Waits;
  }

  /** Event j is the last answer with the byte, no entry was inserted under it since, and j gave r
      its status and, if it had one, its payload. */
  ghost predicate LastAnswered(notify: bool, events: seq<Event>, id: ubyte, j: int, r: ActionResponse) {
    && 0 <= j < |events| && events[j].Answer? && events[j].id == id
    && r.status == Some(events[j].status)
    && (events[j].payload.Some? ==> r.payload == events[j].payload.value)
    && (forall l | j < l < |events| :: !(events[l].Answer? && events[l].id == id))
    && (forall l | j < l < |events| :: !InsertsUnder(Run(notify, events[..l]), events[l], id))
  }

  lemma LastAnsweredNow(notify: bool, events: seq<Event>, e: Event)
    requires e.Answer? && e.id in Run(notify, events).table
    ensures e.id in Run(notify, events + [e]).table
    ensures LastAnswered(notify, events + [e], e.id, |events|, Run(notify, events + [e]).table[e.id])
  {
    RunAppend(notify, events, e);
  }

  lemma LastAnsweredKept(notify: bool, events: seq<Event>, e: Event, id: ubyte, j: int, r: ActionResponse)
    requires LastAnswered(notify, events, id, j, r) && !(e.Answer? && e.id == id)
    requires !InsertsUnder(Run(notify, events), e, id)
    ensures LastAnswered(notify, events + [e], id, j, r)
  {
    hide Run;
    hide InsertsUnder;
    var es := events + [e];
    forall l | j < l < |es| ensures !InsertsUnder(Run(notify, es[..l]), es[l], id) {
      assert es[..l] == if l < |events| then events[..l] else events;
    }
  }

  lemma {:induction false} AnsweredSometime(notify: bool, events: seq<Event>, id: ubyte) returns (j: int)
    requires NoReuse(notify, events)
    requires id in Run(notify, events).table && !Run(notify, events).table[id].isWaiting
    ensures LastAnswered(notify, events, id, j, Run(notify, events).table[id])
    decreases |events|
  {
    hide Step;
    hide FreshId;
    hide InsertsUnder;
    hide LastAnswered;
    if events == [] {
      assert false;
    }
    var before, e := events[..|events| - 1], events[|events| - 1];
    assert events == before + [e];
    NoReusePrefix(notify, events, |before|);
    if e.Answer? && e.id == id {
      AnswerNeedsEntry(Run(notify, before), e);
      LastAnsweredNow(notify, before, e);
      j := |before|;
    } else {
      AnsweredStep(Run(notify, before), e, id);
      j := AnsweredSometime(notify, before, id);
      LastAnsweredKept(notify, before, e, id, j, Run(notify, before).table[id]);
    }
  }

  lemma AnswerNeedsEntry(m: Manager, e: Event)
    requires e.Answer? && e.id in Step(m, e).table
    ensures e.id in m.table
  {}

  /** A tracked call that was drawn and has its entry behind it. */
  predicate Sent(m: Manager, n: nat) {
    n < |m.calls| && Tracked(m.calls[n].request) && m.calls[n].phase != Drawn
  }

  lemma SentStep(m: Manager, e: Event, n: nat)
    requires Sent(Step(m, e), n) && !Sent(m, n)
    ensures e.Insert? && e.n == n && CanInsert(m.calls, n)
  {
    hide Waits;
  }

  lemma {:induction false} InsertedSometime(notify: bool, events: seq<Event>, n: nat) returns (i: int)
    requires Sent(Run(notify, events), n)
    ensures InsertsAt(notify, events, n, i)
    decreases |events|
  {
    hide Step;
    if events == [] {
      assert false;
    }
    var before, e := events[..|events| - 1], events[|events| - 1];
    if Sent(Run(notify, before), n) {
      i := InsertedSometime(notify, before, n);
      assert before[..i] == events[..i];
    } else {
      SentStep(Run(notify, before), e, n);
      i := |before|;
    }
  }

  lemma {:induction false} RequestKept(notify: bool, events: seq<Event>, k: nat, n: nat)
    requires k <= |events| && n < |Run(notify, events[..k]).calls|
    ensures n < |Run(notify, events).calls|
    ensures Run(notify, events).calls[n].request == Run(notify, events[..k]).calls[n].request
    decreases |events|
  {
    if k == |events| {
      assert events[..k] == events;
    } else {
      hide Step;
      var before := events[..|events| - 1];
      assert before[..k] == events[..k];
      RequestKept(notify, before, k, n);
      RequestKeptOne(Run(notify, before), events[|events| - 1], n);
    }
  }

  lemma RequestKeptOne(m: Manager, e: Event, n: nat)
    requires n < |m.calls|
    ensures n < |Step(m, e).calls| && Step(m, e).calls[n].request == m.calls[n].request
  {
    hide Waits;
  }

  /** On every run, an execute that wants no status is over once it has its id: it is never
      inserted and holds nothing. */
  lemma QuietExecute(notify: bool, events: seq<Event>, n: nat)
    requires n < |Run(notify, events).calls|
    requires var q := Run(notify, events).calls[n].request; q.kind == Execute && !q.wantStatus
    ensures Run(notify, events).calls[n].phase == Returned && Run(notify, events).calls[n].result.None?
    ensures forall i :: !InsertsAt(notify, events, n, i)
  {
    hide Run;
    forall i ensures !InsertsAt(notify, events, n, i) {
      if InsertsAt(notify, events, n, i) {
        RequestKept(notify, events, i, n);
        assert false;
      }
    }
    QuietIsOver(notify, events, n);
  }

  lemma {:induction false} QuietIsOver(notify: bool, events: seq<Event>, n: nat)
    requires n < |Run(notify, events).calls|
    requires var q := Run(notify, events).calls[n].request; q.kind == Execute && !q.wantStatus
    ensures Run(notify, events).calls[n].phase == Returned && Run(notify, events).calls[n].result.None?
    decreases |events|
  {
    if events != [] {
      hide Step;
      var before, e := events[..|events| - 1], events[|events| - 1];
      if n < |Run(notify, before).calls| {
        RequestKeptOne(Run(notify, before), e, n);
        QuietIsOver(notify, before, n);
      }
      QuietStep(Run(notify, before), e, n);
    }
  }

  lemma QuietStep(m: Manager, e: Event, n: nat)
    requires n < |Step(m, e).calls|
    requires var q := Step(m, e).calls[n].request; q.kind == Execute && !q.wantStatus
    requires n < |m.calls| ==> m.calls[n].phase == Returned && m.calls[n].result.None?
    ensures Step(m, e).calls[n].phase == Returned && Step(m, e).calls[n].result.None?
  {
    hide Waits;
  }

  /** The insertion, the answer and the collecting turn of a call that holds an answer. */
  lemma CompletedHistory(notify: bool, events: seq<Event>, n: nat) returns (i: int, j: int, k: int)
    requires NoReuse(notify, events)
    requires n < |Run(notify, events).calls| && Run(notify, events).calls[n].result.Some?
    ensures Completed(notify, events, n, Run(notify, events).calls[n].result.value, i, j, k)
  {
    hide Run;
    hide NoReuse;
    k := CollectedSometime(notify, events, n);
    var before := events[..k];
    RunSound(notify, before);
    i := InsertedSometime(notify, before, n);
    NoReusePrefix(notify, events, k);
    j := AnsweredSometime(notify, before, Id(n));
    assert before[..i] == events[..i];
    RunSound(notify, before[..i]);
    assert InsertsUnder(Run(notify, before[..i]), before[i], Id(n));
  }

  /** As long as no live id is reused, a call that comes back with an answer comes back with one that
      was handled under its byte after its own insertion and before its collecting turn: status and
      payload are that answer's, and the byte is out of the table after that turn. */
  lemma BlockingSoundness(notify: bool, events: seq<Event>, n: nat)
    requires NoReuse(notify, events) && n < |Run(notify, events).calls|
    ensures var c := Run(notify, events).calls[n];
            && (c.result.Some? ==> exists i, j, k :: Completed(notify, events, n, c.result.value, i, j, k))
            && (ReturnedStatus(c) != Timeout ==> c.result.Some? && c.result.value.status == Some(ReturnedStatus(c)))
  {
    if Run(notify, events).calls[n].result.Some? {
      var i, j, k := CompletedHistory(notify, events, n);
    }
  }

  // ---- The network's part ----

  /** The network answers only calls that were sent, under their byte, and each at most once. */
  ghost predicate HonestAt(notify: bool, events: seq<Event>, j: int)
    requires 0 <= j < |events|
  {
    events[j].Answer? ==>
      && Sent(Run(notify, events[..j]), events[j].cause) && events[j].id == Id(events[j].cause)
      && forall l | 0 <= l < j :: events[l].Answer? ==> events[l].cause != events[j].cause
  }

  ghost predicate Honest(notify: bool, events: seq<Event>) {
    forall j | 0 <= j < |events| :: HonestAt(notify, events, j)
  }

  lemma HonestPrefix(notify: bool, events: seq<Event>, k: nat)
    requires Honest(notify, events) && k <= |events|
    ensures Honest(notify, events[..k])
  {
    forall j | 0 <= j < k ensures HonestAt(notify, events[..k], j) {
      assert HonestAt(notify, events, j);
      assert events[..k][..j] == events[..j];
    }
  }

  /** The calls that have been answered. */
  ghost function Causes(events: seq<Event>): set<nat> {
    set l | 0 <= l < |events| && events[l].Answer? :: events[l].cause
  }

  lemma CausesLast(events: seq<Event>)
    requires events != []
    ensures var e := events[|events| - 1];
            Causes(events) == Causes(events[..|events| - 1]) + if e.Answer? then {e.cause} else {}
  {
    var before, e := events[..|events| - 1], events[|events| - 1];
    forall n | n in Causes(before) ensures n in Causes(events) {
      var l :| 0 <= l < |before| && before[l].Answer? && before[l].cause == n;
      assert events[l] == before[l];
    }
  }

  /** An honest answer is the first to its cause. */
  lemma FirstToCause(notify: bool, events: seq<Event>, j: nat)
    requires Honest(notify, events) && j < |events| && events[j].Answer?
    ensures Sent(Run(notify, events[..j]), events[j].cause) && events[j].id == Id(events[j].cause)
    ensures events[j].cause !in Causes(events[..j])
  {
    hide Sent;
    assert HonestAt(notify, events, j);
  }

  /** The entry of call n waits under its byte. */
  predicate Awaits(m: Manager, n: nat)
    requires n < |m.calls|
  {
    && Id(n) in m.table
    && var r, q := m.table[Id(n)], m.calls[n].request;
    && r.isWaiting && r.payload == [] && r.kind == q.kind && r.phy == q.phy && r.port == q.port
  }

  /** Every call that was sent and not answered has its waiting entry, and no two have the same. */
  ghost predicate EachAwaits(m: Manager, answered: set<nat>) {
    && (forall n | Sent(m, n) && n !in answered :: Awaits(m, n))
    && (forall n, k | Sent(m, n) && n !in answered && Sent(m, k) && k !in answered && Id(n) == Id(k) :: n == k)
  }

  lemma EachAwaitsInsert(m: Manager, e: Event, answered: set<nat>)
    requires TableSound(m) && EachAwaits(m, answered) && FreshId(m, e) && e.Insert?
    ensures EachAwaits(Step(m, e), answered)
  {
    hide Id;
  }

  lemma EachAwaitsAnswer(m: Manager, e: Event, answered: set<nat>)
    requires EachAwaits(m, answered) && e.Answer?
    requires Sent(m, e.cause) && e.cause !in answered && e.id == Id(e.cause)
    ensures EachAwaits(Step(m, e), answered + {e.cause})
  {
    hide Id;
  }

  lemma EachAwaitsTurn(m: Manager, e: Event, answered: set<nat>)
    requires TableSound(m) && EachAwaits(m, answered) && e.Turn?
    ensures EachAwaits(Step(m, e), answered)
  {
    hide Waits;
    hide Id;
  }

  lemma EachAwaitsStep(m: Manager, e: Event, answered: set<nat>)
    requires TableSound(m) && EachAwaits(m, answered) && FreshId(m, e)
    requires e.Answer? ==> Sent(m, e.cause) && e.cause !in answered && e.id == Id(e.cause)
    ensures EachAwaits(Step(m, e), answered + if e.Answer? then {e.cause} else {})
  {
    match e
    case Draw(_) =>
    case Refuse(_, _, _) =>
    case Insert(_, _, _) => EachAwaitsInsert(m, e, answered);
    case Answer(_, _, _, _) => EachAwaitsAnswer(m, e, answered);
    case Turn(_, _) => EachAwaitsTurn(m, e, answered);
  }

  lemma {:induction false} UnansweredAwait(notify: bool, events: seq<Event>)
    requires NoReuse(notify, events) && Honest(notify, events)
    ensures EachAwaits(Run(notify, events), Causes(events))
    decreases |events|
  {
    if events != [] {
      hide Step;
      hide FreshId;
      hide EachAwaits;
      hide TableSound;
      var before, e := events[..|events| - 1], events[|events| - 1];
      NoReusePrefix(notify, events, |before|);
      HonestPrefix(notify, events, |before|);
      UnansweredAwait(notify, before);
      RunSound(notify, before);
      hide Honest;
      if e.Answer? {
        FirstToCause(notify, events, |before|);
      }
      CausesLast(events);
      EachAwaitsStep(Run(notify, before), e, Causes(before));
    }
  }

  /** As long as no live id is reused and the network is honest, every answer finds an entry under
      its byte that waits and was made for the request it answers: neither assertion of the packet
      handler fails, and no answer is unexpected. */
  lemma AssertionsHold(notify: bool, events: seq<Event>, j: nat)
    requires NoReuse(notify, events) && Honest(notify, events)
    requires j < |events| && events[j].Answer?
    ensures var m, e := Run(notify, events[..j]), events[j];
            && e.cause < |m.calls| && e.id == Id(e.cause) && e.id in m.table
            && var r, q := m.table[e.id], m.calls[e.cause].request;
            && r.isWaiting && r.payload == [] && r.kind == q.kind && r.phy == q.phy && r.port == q.port
  {
    hide Run;
    hide NoReuse;
    NoReusePrefix(notify, events, j);
    HonestPrefix(notify, events, j);
    UnansweredAwait(notify, events[..j]);
    FirstToCause(notify, events, j);
    assert Awaits(Run(notify, events[..j]), events[j].cause);
  }
}
