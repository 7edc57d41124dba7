/** The request table with unbounded request numbers in place of bytes, and when the byte-keyed
    table is faithful to it. */
module IdealRequests {
  import opened Bytes
  import opened Requests
  import opened FreshRequests

  /** Entries under the number of the call that inserted them. */
  datatype Ideal = Ideal(table: map<nat, ActionResponse>, calls: seq<Call>,
                         notify: bool, callbacks: seq<Option<ActionResponse>>)

  function Told(i: Ideal, r: Option<ActionResponse>): seq<Option<ActionResponse>> {
    if i.notify then i.callbacks + [r] else i.callbacks
  }

  /** An answer goes to the entry of call `owner`, and a call looks only at its own entry. */
  function IdealStep(i: Ideal, e: Event, owner: Option<nat>): Ideal {
    match e
    case Draw(request) =>
      i.(calls := i.calls + [Call(request, Id(|i.calls|), if Tracked(request) then Drawn else Returned, None, 0)])
    case Refuse(phy, port, now) =>
      i.(calls := i.calls + [Call(Request(Execute, false, false, phy, port), Id(|i.calls|), Returned, None, 0)],
         callbacks := Told(i, Some(RefusedEntry(Id(|i.calls|), phy, port, now))))
    case Insert(n, sent, start) =>
      if !CanInsert(i.calls, n) then i
      else i.(table := i.table[n := FreshEntry(i.calls[n], sent)],
              calls := i.calls[n := Inserted(i.calls[n], start)])
    case Answer(_, status, payload, _) =>
      if owner.None? || owner.value !in i.table then i
      else
        var r := Answered(i.table[owner.value], status, payload);
        i.(table := i.table[owner.value := r], callbacks := Told(i, Some(r)))
    case Turn(n, now) =>
      if !CanTurn(i.calls, n) then i
      else
        var c := i.calls[n];
        if Waits(c, now) then
          if n in i.table && !i.table[n].isWaiting then
            i.(table := i.table - {n}, calls := i.calls[n := c.(result := Some(i.table[n].(timeReceived := now)))])
          else i
        else
          i.(calls := i.calls[n := c.(phase := Returned)], callbacks := Told(i, c.result))
  }

  /** The live call with this byte, if there is one. */
  ghost function Owner(i: Ideal, id: ubyte): (o: Option<nat>)
    ensures o.Some? ==> o.value in i.table && Id(o.value) == id
    ensures o.None? ==> forall n | n in i.table :: Id(n) != id
  {
    if n: nat :| n in i.table && Id(n) == id then Some(n) else None
  }

  ghost function IdealNext(i: Ideal, e: Event): Ideal {
    IdealStep(i, e, if e.Answer? then Owner(i, e.id) else None)
  }

  ghost function IdealRun(notify: bool, events: seq<Event>): Ideal {
    if events == [] then Ideal(map[], [], notify, [])
    else IdealNext(IdealRun(notify, events[..|events| - 1]), events[|events| - 1])
  }

  /** The byte-keyed entries are in bijection with the numbered ones through n mod 256. */
  ghost predicate Mirrors<V>(bytes: map<ubyte, V>, numbers: map<nat, V>) {
    && (forall n | n in numbers :: Id(n) in bytes && bytes[Id(n)] == numbers[n])
    && (forall n, k | n in numbers && k in numbers && Id(n) == Id(k) :: n == k)
    && (forall id | id in bytes :: exists n :: n in numbers && Id(n) == id)
  }

  /** The two machines agree. */
  ghost predicate Related(m: Manager, i: Ideal) {
    && m.counter == Id(|i.calls|) && m.calls == i.calls && m.notify == i.notify && m.callbacks == i.callbacks
    && Mirrors(m.table, i.table)
  }

  /** A step of the byte-keyed machine is faithful unless it emplaces under an id whose entry is
      still in the table, or lets a call that already collected an answer (one whose status was
      TIMEOUT, so that it polls on) collect the next entry under its id. */
  predicate Guard(m: Manager, e: Event) {
    match e
    case Insert(n, _, _) => CanInsert(m.calls, n) ==> m.calls[n].id !in m.table
    case Turn(n, now) =>
      CanTurn(m.calls, n) && Waits(m.calls[n], now) && m.calls[n].result.Some? ==>
        m.calls[n].id !in m.table || m.table[m.calls[n].id].isWaiting
    case _ => true
  }

  ghost predicate Guarded(notify: bool, events: seq<Event>) {
    forall i | 0 <= i < |events| :: Guard(Run(notify, events[..i]), events[i])
  }

  // ---- The ideal machine by itself ----

  ghost predicate IdealSound(i: Ideal) {
    && (forall n | 0 <= n < |i.calls| :: i.calls[n].id == Id(n))
    && (forall n | n in i.table ::
          && n < |i.calls| && i.calls[n].phase != Drawn && i.calls[n].result.None?
          && (i.table[n].isWaiting ==> i.table[n].payload == []))
    && (forall n | 0 <= n < |i.calls| && i.calls[n].phase == Polling && i.calls[n].result.None? :: n in i.table)
    && (forall n | 0 <= n < |i.calls| && i.calls[n].phase == Drawn :: i.calls[n].result.None?)
  }

  lemma IdealTurnSound(i: Ideal, e: Event)
    requires IdealSound(i) && e.Turn?
    ensures IdealSound(IdealNext(i, e))
  {
    hide Waits;
    hide Id;
  }

  lemma IdealStepSound(i: Ideal, e: Event)
    requires IdealSound(i)
    ensures IdealSound(IdealNext(i, e))
  {
    hide Owner;
    match e
    case Draw(_) =>
    case Refuse(_, _, _) =>
    case Insert(_, _, _) =>
    case Answer(_, _, _, _) =>
    case Turn(_, _) => IdealTurnSound(i, e);
  }

  lemma {:induction false} IdealRunSound(notify: bool, events: seq<Event>)
    ensures IdealSound(IdealRun(notify, events))
  {
    if events != [] {
      IdealRunSound(notify, events[..|events| - 1]);
      IdealStepSound(IdealRun(notify, events[..|events| - 1]), events[|events| - 1]);
    }
  }

  // ---- Refinement ----

  /** A new number keeps the bijection if and only if its byte is free. */
  lemma MirrorsInsert<V>(bytes: map<ubyte, V>, numbers: map<nat, V>, n: nat, v: V)
    requires Mirrors(bytes, numbers) && n !in numbers
    ensures Id(n) !in bytes ==> Mirrors(bytes[Id(n) := v], numbers[n := v])
    ensures Id(n) in bytes ==> !Mirrors(bytes, numbers[n := v])
  {
    if Id(n) in bytes {
      var k :| k in numbers && Id(k) == Id(n);
      assert k in numbers[n := v] && n in numbers[n := v];
    } else {
      var bytes', numbers' := bytes[Id(n) := v], numbers[n := v];
      forall b | b in bytes' ensures exists k :: k in numbers' && Id(k) == b {
        if b == Id(n) {
          assert n in numbers';
        } else {
          var k :| k in numbers && Id(k) == b;
          assert k in numbers';
        }
      }
    }
  }

  lemma MirrorsUpdate<V>(bytes: map<ubyte, V>, numbers: map<nat, V>, n: nat, v: V)
    requires Mirrors(bytes, numbers) && n in numbers
    ensures Mirrors(bytes[Id(n) := v], numbers[n := v])
  {
    var bytes', numbers' := bytes[Id(n) := v], numbers[n := v];
    forall b | b in bytes' ensures exists k :: k in numbers' && Id(k) == b {
      var k :| k in numbers && Id(k) == b;
      assert k in numbers';
    }
  }

  lemma MirrorsRemove<V>(bytes: map<ubyte, V>, numbers: map<nat, V>, n: nat)
    requires Mirrors(bytes, numbers) && n in numbers
    ensures Mirrors(bytes - {Id(n)}, numbers - {n})
  {
    forall b | b in bytes - {Id(n)} ensures exists k :: k in numbers - {n} && Id(k) == b {
      var k :| k in numbers && Id(k) == b;
      assert k in numbers - {n};
    }
  }

  /** Taking away an entry that has an owner, without the owner, breaks the bijection. */
  lemma MirrorsSteal<V>(bytes: map<ubyte, V>, numbers: map<nat, V>, id: ubyte)
    requires Mirrors(bytes, numbers) && id in bytes
    ensures !Mirrors(bytes - {id}, numbers)
  {
    var k :| k in numbers && Id(k) == id;
  }

  lemma MirrorsOwner(m: Manager, i: Ideal, id: ubyte)
    requires Mirrors(m.table, i.table)
    ensures Owner(i, id).Some? <==> id in m.table
    ensures Owner(i, id).Some? ==> m.table[id] == i.table[Owner(i, id).value]
    ensures forall n | n in i.table && Id(n) == id :: Owner(i, id) == Some(n)
  {}

  lemma InsertCommutes(m: Manager, i: Ideal, e: Event)
    requires Related(m, i) && IdealSound(i) && e.Insert?
    ensures Related(Step(m, e), IdealNext(i, e)) <==> Guard(m, e)
  {
    hide Mirrors;
    if CanInsert(m.calls, e.n) {
      MirrorsInsert(m.table, i.table, e.n, FreshEntry(m.calls[e.n], e.sent));
    }
  }

  lemma AnswerCommutes(m: Manager, i: Ideal, e: Event)
    requires Related(m, i) && e.Answer?
    ensures Related(Step(m, e), IdealNext(i, e))
  {
    hide Mirrors;
    hide Owner;
    MirrorsOwner(m, i, e.id);
    if e.id in m.table {
      MirrorsUpdate(m.table, i.table, Owner(i, e.id).value, Answered(m.table[e.id], e.status, e.payload));
    }
  }

  lemma TurnCommutes(m: Manager, i: Ideal, e: Event)
    requires Related(m, i) && IdealSound(i) && e.Turn?
    ensures Related(Step(m, e), IdealNext(i, e)) <==> Guard(m, e)
  {
    hide Mirrors;
    if CanTurn(m.calls, e.n) && Waits(m.calls[e.n], e.now) {
      var c := m.calls[e.n];
      if e.n in i.table {
        OwnEntry(m, i, e.n);
        MirrorsRemove(m.table, i.table, e.n);
      } else if c.id in m.table {
        MirrorsSteal(m.table, i.table, c.id);
      }
    }
  }

  lemma OwnEntry(m: Manager, i: Ideal, n: nat)
    requires Mirrors(m.table, i.table) && n in i.table
    ensures Id(n) in m.table && m.table[Id(n)] == i.table[n]
  {}

  /** One step from agreeing states keeps them in agreement if and only if the guard holds. */
  lemma Commutes(m: Manager, i: Ideal, e: Event)
    requires Related(m, i) && IdealSound(i)
    ensures Related(Step(m, e), IdealNext(i, e)) <==> Guard(m, e)
  {
    hide Mirrors;
    hide IdealSound;
    match e
    case Insert(_, _, _) => InsertCommutes(m, i, e);
    case Answer(_, _, _, _) => AnswerCommutes(m, i, e);
    case Turn(_, _) => TurnCommutes(m, i, e);
    case _ =>
  }

  lemma GuardedPrefix(notify: bool, events: seq<Event>, k: nat)
    requires Guarded(notify, events) && k <= |events|
    ensures Guarded(notify, events[..k])
  {
    forall i | 0 <= i < k ensures Guard(Run(notify, events[..k][..i]), events[..k][i]) {
      assert events[..k][..i] == events[..i];
    }
  }

  lemma {:induction false} Refines(notify: bool, events: seq<Event>)
    requires Guarded(notify, events)
    ensures Related(Run(notify, events), IdealRun(notify, events))
    decreases |events|
  {
    if events != [] {
      hide IdealNext;
      hide Step;
      var k := |events| - 1;
      GuardedPrefix(notify, events, k);
      Refines(notify, events[..k]);
      IdealRunSound(notify, events[..k]);
      Commutes(Run(notify, events[..k]), IdealRun(notify, events[..k]), events[k]);
    }
  }

  /** The byte-keyed table stays faithful to the unbounded one throughout a run if and only if
      every step of the run is guarded. */
  lemma FaithfulIffGuarded(notify: bool, events: seq<Event>)
    ensures Guarded(notify, events) <==>
            forall k | 0 <= k <= |events| :: Related(Run(notify, events[..k]), IdealRun(notify, events[..k]))
  {
    hide Related;
    hide Guard;
    hide Step;
    hide IdealNext;
    if Guarded(notify, events) {
      forall k | 0 <= k <= |events| ensures Related(Run(notify, events[..k]), IdealRun(notify, events[..k])) {
        GuardedPrefix(notify, events, k);
        Refines(notify, events[..k]);
      }
    }
    if forall k | 0 <= k <= |events| :: Related(Run(notify, events[..k]), IdealRun(notify, events[..k])) {
      forall i | 0 <= i < |events| ensures Guard(Run(notify, events[..i]), events[i]) {
        IdealRunSound(notify, events[..i]);
        Commutes(Run(notify, events[..i]), IdealRun(notify, events[..i]), events[i]);
        assert events[..i + 1][..i] == events[..i];
        assert Related(Run(notify, events[..i + 1]), IdealRun(notify, events[..i + 1]));
      }
    }
  }

  /** A guarded run does not reuse live ids. */
  lemma GuardedIsFresh(notify: bool, events: seq<Event>)
    requires Guarded(notify, events)
    ensures NoReuse(notify, events)
  {
    hide Run;
    forall i | 0 <= i < |events| ensures FreshId(Run(notify, events[..i]), events[i]) {
      assert Guard(Run(notify, events[..i]), events[i]);
    }
  }

  // ---- Without TIMEOUT answers, not reusing a live id is enough ----

  predicate NoTimeoutStatus(m: Manager) {
    && (forall id | id in m.table :: m.table[id].status != Some(Timeout))
    && (forall n | 0 <= n < |m.calls| && m.calls[n].result.Some? :: m.calls[n].result.value.status != Some(Timeout))
  }

  lemma {:induction false} NoTimeoutRun(notify: bool, events: seq<Event>)
    requires forall i | 0 <= i < |events| :: events[i].Answer? ==> events[i].status != Timeout
    ensures NoTimeoutStatus(Run(notify, events))
  {
    if events != [] {
      hide Step;
      NoTimeoutRun(notify, events[..|events| - 1]);
      NoTimeoutStep(Run(notify, events[..|events| - 1]), events[|events| - 1]);
    }
  }

  lemma NoTimeoutStep(m: Manager, e: Event)
    requires NoTimeoutStatus(m) && (e.Answer? ==> e.status != Timeout)
    ensures NoTimeoutStatus(Step(m, e))
  {
    hide Waits;
  }

  lemma GuardedStep(m: Manager, e: Event)
    requires FreshId(m, e) && NoTimeoutStatus(m)
    ensures Guard(m, e)
  {}

  /** If no id is inserted while its entry is live and no answer carries the status TIMEOUT,
      then every step is guarded. */
  lemma GuardedWithoutTimeouts(notify: bool, events: seq<Event>)
    requires NoReuse(notify, events)
    requires forall i | 0 <= i < |events| :: events[i].Answer? ==> events[i].status != Timeout
    ensures Guarded(notify, events)
  {
    hide Guard;
    hide FreshId;
    hide Run;
    hide NoTimeoutStatus;
    forall i | 0 <= i < |events| ensures Guard(Run(notify, events[..i]), events[i]) {
      NoTimeoutRun(notify, events[..i]);
      GuardedStep(Run(notify, events[..i]), events[i]);
    }
  }

  // ---- Which entries stay, and how long the guard can hold ----

  /** A tracked call that has inserted its entry and holds no answer: it polls on, gave up, or
      never polls because it is asynchronous. */
  predicate Outstanding(calls: seq<Call>, n: nat) {
    n < |calls| && Tracked(calls[n].request) && calls[n].phase != Drawn && calls[n].result.None?
  }

  ghost predicate HoldsOutstanding(i: Ideal) {
    forall n: nat :: n in i.table <==> Outstanding(i.calls, n)
  }

  lemma HoldsOutstandingStep(i: Ideal, e: Event)
    requires IdealSound(i) && HoldsOutstanding(i)
    ensures HoldsOutstanding(IdealNext(i, e))
  {
    hide Owner;
    hide Waits;
    match e
    case Draw(_) =>
    case Refuse(_, _, _) =>
    case Insert(_, _, _) =>
    case Answer(_, _, _, _) =>
    case Turn(_, _) =>
  }

  lemma {:induction false} IdealHoldsOutstanding(notify: bool, events: seq<Event>)
    ensures HoldsOutstanding(IdealRun(notify, events))
  {
    if events != [] {
      var before := events[..|events| - 1];
      IdealHoldsOutstanding(notify, before);
      IdealRunSound(notify, before);
      HoldsOutstandingStep(IdealRun(notify, before), events[|events| - 1]);
    }
  }

  /** On a guarded run the table is exactly the entries of the outstanding calls: a call that has
      inserted keeps its entry until it collects an answer, for good if it never does. */
  lemma EntryStaysIffOutstanding(notify: bool, events: seq<Event>, n: nat)
    requires Guarded(notify, events)
    ensures var m, i := Run(notify, events), IdealRun(notify, events);
            && (Outstanding(m.calls, n) <==> n in i.table)
            && (Outstanding(m.calls, n) ==> Id(n) in m.table && m.table[Id(n)] == i.table[n])
  {
    hide Guarded;
    hide IdealNext;
    hide Step;
    Refines(notify, events);
    IdealHoldsOutstanding(notify, events);
  }

  /** A bijection keeps the size. */
  lemma {:induction false} MirrorsSize<V>(bytes: map<ubyte, V>, numbers: map<nat, V>)
    requires Mirrors(bytes, numbers)
    ensures |bytes.Keys| == |numbers.Keys|
    decreases |numbers.Keys|
  {
    hide Mirrors;
    MirrorsKeys(bytes, numbers);
    if n :| n in numbers.Keys {
      MirrorsRemove(bytes, numbers, n);
      assert (bytes - {Id(n)}).Keys == bytes.Keys - {Id(n)};
      assert (numbers - {n}).Keys == numbers.Keys - {n};
      MirrorsSize(bytes - {Id(n)}, numbers - {n});
    }
  }

  lemma MirrorsKeys<V>(bytes: map<ubyte, V>, numbers: map<nat, V>)
    requires Mirrors(bytes, numbers)
    ensures forall n | n in numbers.Keys :: Id(n) in bytes.Keys
    ensures numbers.Keys == {} ==> bytes.Keys == {}
  {}

  ghost function OutstandingCalls(calls: seq<Call>): set<nat> {
    set n: nat | n < |calls| && Outstanding(calls, n)
  }

  /** The calls that leave an entry behind whatever happens: nobody collects for them. */
  ghost function AsyncCalls(calls: seq<Call>): set<nat> {
    set n: nat | n < |calls| && Tracked(calls[n].request) && !calls[n].request.blocking && calls[n].phase != Drawn
  }

  lemma {:induction false} SubsetSize<T>(a: set<T>, b: set<T>)
    requires a <= b
    ensures |a| <= |b|
  {
    if x :| x in a {
      SubsetSize(a - {x}, b - {x});
    }
  }

  /** A guarded run has as many outstanding calls as table entries, so at most 256, and at most 256
      asynchronous tracked calls in all: after that no further one can be guarded. */
  lemma GuardedIsBounded(notify: bool, events: seq<Event>)
    requires Guarded(notify, events)
    ensures var m := Run(notify, events);
            && |OutstandingCalls(m.calls)| == |m.table| <= 0x100
            && |AsyncCalls(m.calls)| <= |m.table|
  {
    hide Guarded;
    hide IdealNext;
    hide Step;
    hide Mirrors;
    var m, i := Run(notify, events), IdealRun(notify, events);
    Refines(notify, events);
    IdealHoldsOutstanding(notify, events);
    assert OutstandingCalls(m.calls) == i.table.Keys;
    MirrorsSize(m.table, i.table);
    TableInvariant(notify, events);
    RunSound(notify, events);
    assert AsyncCalls(m.calls) <= OutstandingCalls(m.calls);
    SubsetSize(AsyncCalls(m.calls), OutstandingCalls(m.calls));
  }
}
