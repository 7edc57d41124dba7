/** Three runs on which a caller is handed somebody else's answer: one for each half of the guard,
    and a guarded one on which an answer no longer reaches the call it was sent for. */
module RequestExamples {
  import opened Bytes
  import opened Requests
  import opened FreshRequests
  import opened IdealRequests
  import opened RequestSoundness

  /** An execute that asks for no status: it only uses up an id. */
  const QUIET := Request(Execute, false, false, 0, 0)

  function Draws(k: nat): (es: seq<Event>) {
    seq(k, _ => Draw(QUIET))
  }

  lemma DrawsLast(es: seq<Event>, k: nat)
    requires k > 0
    ensures es + Draws(k) == es + Draws(k - 1) + [Draw(QUIET)]
  {}

  /** m' is m after k such draws: the counter has moved and nothing else is touched. */
  ghost predicate After(m: Manager, k: nat, m': Manager) {
    && m'.table == m.table && |m'.calls| == |m.calls| + k && m'.notify == m.notify
    && (forall n | 0 <= n < |m.calls| :: m'.calls[n] == m.calls[n])
    && m'.counter == (m.counter + k) % 0x100
  }

  lemma AfterOneMore(m: Manager, k: nat, m': Manager)
    requires After(m, k, m')
    ensures After(m, k + 1, Step(m', Draw(QUIET)))
  {}

  lemma {:induction false} DrawMany(es: seq<Event>, k: nat)
    ensures After(Run(true, es), k, Run(true, es + Draws(k)))
    decreases k
  {
    hide After;
    hide Step;
    hide Draws;
    if k == 0 {
      NoDraws(es);
    } else {
      DrawMany(es, k - 1);
      AfterOneMore(Run(true, es), k - 1, Run(true, es + Draws(k - 1)));
      DrawsLast(es, k);
      RunAppend(true, es + Draws(k - 1), Draw(QUIET));
    }
  }

  lemma NoDraws(es: seq<Event>)
    ensures After(Run(true, es), 0, Run(true, es + Draws(0)))
  {
    assert es + Draws(0) == es;
    RunSound(true, es);
  }

  lemma Then(es: seq<Event>, e: Event) returns (m: Manager)
    ensures m == Run(true, es + [e]) == Step(Run(true, es), e)
  {
    RunAppend(true, es, e);
    m := Run(true, es + [e]);
  }

  lemma ThreeMore(before: seq<Event>, e1: Event, e2: Event, e3: Event) returns (es: seq<Event>)
    ensures |es| == |before| + 3 && es[..|before|] == before
    ensures es[|before|] == e1 && es[|before| + 1] == e2 && es[|before| + 2] == e3
    ensures Run(true, es[..|before| + 1]) == Step(Run(true, before), e1)
    ensures Run(true, es) == Step(Step(Step(Run(true, before), e1), e2), e3)
  {
    hide Step;
    var m := Then(before, e1);
    m := Then(before + [e1], e2);
    m := Then(before + [e1] + [e2], e3);
    es := before + [e1] + [e2] + [e3];
    assert es[..|before| + 1] == before + [e1];
  }

  /** Using up 255 ids and drawing one more brings the byte round to where it was. */
  lemma ComeRound(es: seq<Event>, late: Request) returns (drawn: seq<Event>, m: Manager)
    requires |Run(true, es).calls| == 1 && Run(true, es).counter == 1 && Tracked(late)
    ensures |drawn| == |es| + 256 && drawn[..|es|] == es && m == Run(true, drawn)
    ensures forall i | |es| <= i < |drawn| :: drawn[i].Draw?
    ensures |m.calls| == 257 && m.notify && m.table == Run(true, es).table
    ensures m.calls[0] == Run(true, es).calls[0] && m.calls[256] == Call(late, 0, Drawn, None, 0)
  {
    DrawMany(es, 255);
    m := Then(es + Draws(255), Draw(late));
    drawn := es + Draws(255) + [Draw(late)];
    RunSound(true, es);
  }

  /** An asynchronous fetch is never collected, so its entry stays; 256 ids later a blocking fetch
      emplaces nothing, the answer meant for it lands on the old entry, and it collects that one. */
  lemma ReuseExample() returns (es: seq<Event>)
    ensures exists i :: 0 <= i < |es| && !FreshId(Run(true, es[..i]), es[i])
    ensures var m := Run(true, es);
            && |m.calls| == 257 && m.calls[256].request.port == 2
            && m.calls[256].result.Some? && m.calls[256].result.value.port == 1
  {
    var head := FetchLeftBehind();
    var before, m := ComeRound(head, Request(Fetch, true, true, 9, 2));
    var e1, e2, e3 := Insert(256, 5, 5), Answer(0, Other(7), Some([1]), 256), Turn(256, 6);
    hide Step;
    Misplace(m, e1, e2, e3);
    es := ThreeMore(before, e1, e2, e3);
  }

  lemma FetchLeftBehind() returns (es: seq<Event>)
    ensures var m := Run(true, es);
            && m.counter == 1 && |m.calls| == 1
            && m.table == map[0 := FreshEntry(Call(Request(Fetch, false, true, 9, 1), 0, Drawn, None, 0), 0)]
  {
    var early := Request(Fetch, false, true, 9, 1);
    assert Run(true, []) == Start(true);
    var m := Then([], Draw(early));
    m := Then([] + [Draw(early)], Insert(0, 0, 0));
    es := [] + [Draw(early)] + [Insert(0, 0, 0)];
  }

  lemma Misplace(m: Manager, e1: Event, e2: Event, e3: Event)
    requires |m.calls| == 257 && 0 in m.table && m.table[0].port == 1
    requires m.calls[256] == Call(Request(Fetch, true, true, 9, 2), 0, Drawn, None, 0)
    requires e1 == Insert(256, 5, 5) && e2 == Answer(0, Other(7), Some([1]), 256) && e3 == Turn(256, 6)
    ensures !FreshId(m, e1)
    ensures var m' := Step(Step(Step(m, e1), e2), e3);
            && |m'.calls| == 257 && m'.calls[256].request.port == 2
            && m'.calls[256].result.Some? && m'.calls[256].result.value.port == 1
  {
    assert Step(m, e1).table == m.table;
  }

  /** No live id is reused here. An execute is answered with the status TIMEOUT, so it collects
      and polls on; 256 ids later a fetch is issued under its byte and answered, and the execute
      collects the fetch's answer. */
  lemma TimeoutStatusExample() returns (es: seq<Event>)
    ensures NoReuse(true, es)
    ensures var m := Run(true, es);
            && |m.calls| == 257 && m.calls[0].request.kind == Execute && m.calls[256].request.kind == Fetch
            && m.calls[0].result.Some? && m.calls[0].result.value.kind == Fetch
            && m.calls[0].result.value.payload == [1]
  {
    var head := TimeoutCollected();
    var before, m := ComeRound(head, Request(Fetch, true, true, 9, 2));
    var e1, e2, e3 := Insert(256, 5, 5), Answer(0, Other(7), Some([1]), 256), Turn(0, 6);
    hide Step;
    Steal(m, e1, e2, e3);
    es := ThreeMore(before, e1, e2, e3);
    FreshThroughout(head, before, e1, es);
  }

  /** The only insertions are the two whose ids are free. */
  lemma FreshThroughout(head: seq<Event>, before: seq<Event>, e1: Event, es: seq<Event>)
    requires |head| == 4 && !head[0].Insert? && head[1].Insert? && !head[2].Insert? && !head[3].Insert?
    requires FreshId(Run(true, head[..1]), head[1])
    requires |before| == 260 && before[..4] == head && forall i | 4 <= i < 260 :: before[i].Draw?
    requires e1.Insert? && FreshId(Run(true, before), e1)
    requires |es| == 263 && es[..260] == before && es[260] == e1 && es[261].Answer? && es[262].Turn?
    ensures NoReuse(true, es)
  {
    hide Run;
    forall i | 0 <= i < |es| ensures FreshId(Run(true, es[..i]), es[i]) {
      assert es[..1] == before[..4][..1];
      assert i < 260 ==> es[i] == before[i];
      assert i < 4 ==> before[i] == head[i];
    }
  }

  /** A call that polls on after a TIMEOUT answer takes the answer of a later call with its byte. */
  lemma Steal(m: Manager, e1: Event, e2: Event, e3: Event)
    requires |m.calls| == 257 && m.table == map[]
    requires m.calls[256] == Call(Request(Fetch, true, true, 9, 2), 0, Drawn, None, 0)
    requires var c := m.calls[0];
             && c.id == 0 && c.phase == Polling && c.request.kind == Execute && c.start == 0
             && c.result.Some? && c.result.value.status == Some(Timeout)
    requires e1 == Insert(256, 5, 5) && e2 == Answer(0, Other(7), Some([1]), 256) && e3 == Turn(0, 6)
    ensures FreshId(m, e1)
    ensures var m' := Step(Step(Step(m, e1), e2), e3);
            && |m'.calls| == 257
            && m'.calls[0].request == m.calls[0].request && m'.calls[256].request == m.calls[256].request
            && m'.calls[0].result.Some? && m'.calls[0].result.value.kind == Fetch
            && m'.calls[0].result.value.payload == [1]
  {
    var m1 := Step(m, e1);
    assert m1.table == map[0 := FreshEntry(m.calls[256], 5)];
  }

  /** The first execute has collected its TIMEOUT answer and is polling on. */
  lemma TimeoutCollected() returns (es: seq<Event>)
    ensures |es| == 4 && es[1] == Insert(0, 0, 0) && !es[0].Insert? && !es[2].Insert? && !es[3].Insert?
    ensures FreshId(Run(true, es[..1]), es[1])
    ensures var m := Run(true, es);
            && m.table == map[] && m.counter == 1 && m.notify && |m.calls| == 1
            && m.calls[0].request == Request(Execute, true, true, 9, 1) && m.calls[0].id == 0
            && m.calls[0].phase == Polling && m.calls[0].start == 0
            && m.calls[0].result.Some? && m.calls[0].result.value.status == Some(Timeout)
  {
    var first := Request(Execute, true, true, 9, 1);
    assert Run(true, []) == Start(true);
    var m := Then([], Draw(first));
    var e1 := [] + [Draw(first)];
    assert FreshId(m, Insert(0, 0, 0));
    m := Then(e1, Insert(0, 0, 0));
    var e2 := e1 + [Insert(0, 0, 0)];
    m := Then(e2, Answer(0, Timeout, None, 0));
    var e3 := e2 + [Answer(0, Timeout, None, 0)];
    m := Then(e3, Turn(0, 1));
    es := e3 + [Turn(0, 1)];
    assert es[..1] == e1;
  }

  /** Every step of this run is guarded. A fetch is answered and collects; 256 ids later another
      fetch is issued under its byte, a second copy of the first answer arrives, and the later
      fetch collects it. */
  lemma DuplicateAnswerExample() returns (es: seq<Event>)
    ensures Guarded(true, es)
    ensures |es| == 263 && es[261] == Answer(0, Other(9), Some([2]), 0)
    ensures !Reaches(Run(true, es[..261]), es[261])
    ensures var m := Run(true, es);
            && |m.calls| == 257 && m.calls[256].request.port == 2
            && m.calls[256].result.Some? && m.calls[256].result.value.payload == [2]
  {
    var head := FetchCollected();
    var before, m := ComeRound(head, Request(Fetch, true, true, 9, 2));
    var e1, e2, e3 := Insert(256, 5, 5), Answer(0, Other(9), Some([2]), 0), Turn(256, 6);
    hide Step;
    Mislead(m, e1, e2, e3);
    es := ThreeMore(before, e1, e2, e3);
    FreshThroughout(head, before, e1, es);
    OnlyAnswers(head, before, es);
    GuardedWithoutTimeouts(true, es);
  }

  lemma OnlyAnswers(head: seq<Event>, before: seq<Event>, es: seq<Event>)
    requires |head| == 4 && forall i | 0 <= i < 4 :: head[i].Answer? ==> head[i].status != Timeout
    requires |before| == 260 && before[..4] == head && forall i | 4 <= i < 260 :: before[i].Draw?
    requires |es| == 263 && es[..260] == before && !es[260].Answer? && !es[262].Answer?
    requires es[261].Answer? ==> es[261].status != Timeout
    ensures forall i | 0 <= i < |es| :: es[i].Answer? ==> es[i].status != Timeout
  {
    forall i | 0 <= i < |es| ensures es[i].Answer? ==> es[i].status != Timeout {
      assert i < 260 ==> es[i] == before[i];
      assert i < 4 ==> before[i] == head[i];
    }
  }

  /** An answer sent for call 0, which has collected already, completes the entry of call 256. */
  lemma Mislead(m: Manager, e1: Event, e2: Event, e3: Event)
    requires |m.calls| == 257 && m.table == map[] && m.calls[0].result.Some?
    requires m.calls[256] == Call(Request(Fetch, true, true, 9, 2), 0, Drawn, None, 0)
    requires e1 == Insert(256, 5, 5) && e2 == Answer(0, Other(9), Some([2]), 0) && e3 == Turn(256, 6)
    ensures FreshId(m, e1) && !Reaches(Step(m, e1), e2)
    ensures var m' := Step(Step(Step(m, e1), e2), e3);
            && |m'.calls| == 257 && m'.calls[256].request.port == 2
            && m'.calls[256].result.Some? && m'.calls[256].result.value.payload == [2]
  {
    var m1 := Step(m, e1);
    assert m1.table == map[0 := FreshEntry(m.calls[256], 5)];
  }

  /** The first fetch has been answered and has collected. */
  lemma FetchCollected() returns (es: seq<Event>)
    ensures |es| == 4 && es[1] == Insert(0, 0, 0) && !es[0].Insert? && !es[2].Insert? && !es[3].Insert?
    ensures forall i | 0 <= i < 4 :: es[i].Answer? ==> es[i].status != Timeout
    ensures FreshId(Run(true, es[..1]), es[1])
    ensures var m := Run(true, es);
            && m.table == map[] && m.counter == 1 && m.notify && |m.calls| == 1 && m.calls[0].result.Some?
  {
    var first := Request(Fetch, true, true, 9, 1);
    assert Run(true, []) == Start(true);
    var m := Then([], Draw(first));
    var e1 := [] + [Draw(first)];
    assert FreshId(m, Insert(0, 0, 0));
    m := Then(e1, Insert(0, 0, 0));
    var e2 := e1 + [Insert(0, 0, 0)];
    m := Then(e2, Answer(0, Other(7), Some([1]), 0));
    var e3 := e2 + [Answer(0, Other(7), Some([1]), 0)];
    m := Then(e3, Turn(0, 1));
    es := e3 + [Turn(0, 1)];
    assert es[..1] == e1;
  }
}
