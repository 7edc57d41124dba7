/** Length-prefixed framing over a byte stream: what the sender writes, what one poll of a
    client does with the bytes that have arrived, and what the two together guarantee for
    every fragmentation of the stream. */
module Framing {
  import opened Bytes

  type Packet = p: seq<ubyte> | |p| < 0x1_0000_0000

  // ---- The sender ----

  function EncodeFrame(p: Packet): seq<ubyte> {
    WriteU32(|p|) + p
  }

  function EncodeAll(ps: seq<Packet>): seq<ubyte> {
    if ps == [] then [] else EncodeFrame(ps[0]) + EncodeAll(ps[1..])
  }

  lemma {:induction false} EncodeAllAppend(ps: seq<Packet>, p: Packet)
    ensures EncodeAll(ps + [p]) == EncodeAll(ps) + EncodeFrame(p)
  {
    if ps == [] {
      assert EncodeAll([p]) == EncodeFrame(p) + EncodeAll([]);
    } else {
      EncodeAllAppend(ps[1..], p);
      assert (ps + [p])[1..] == ps[1..] + [p];
    }
  }

  lemma EncodeAllFrom(ps: seq<Packet>, k: nat)
    requires k <= |ps|
    ensures EncodeAll(ps[k..]) == if k == |ps| then [] else EncodeFrame(ps[k]) + EncodeAll(ps[k + 1..])
  {
    if k < |ps| {
      assert ps[k..][0] == ps[k] && ps[k..][1..] == ps[k + 1..];
    }
  }

  lemma {:induction false} EncodeAllSplit(ps: seq<Packet>, k: nat)
    requires k <= |ps|
    ensures EncodeAll(ps) == EncodeAll(ps[..k]) + EncodeAll(ps[k..])
  {
    if k == 0 {
      assert ps[..0] == [] && ps[0..] == ps;
    } else {
      EncodeAllSplit(ps, k - 1);
      EncodeAllFrom(ps, k - 1);
      EncodeAllAppend(ps[..k - 1], ps[k - 1]);
      assert ps[..k] == ps[..k - 1] + [ps[k - 1]];
      Regroup(EncodeAll(ps[..k - 1]), EncodeFrame(ps[k - 1]), EncodeAll(ps[k..]));
    }
  }

  lemma Regroup<T>(a: seq<T>, b: seq<T>, c: seq<T>)
    ensures a + (b + c) == (a + b) + c
  {}

  /** Taking n bytes off the front of two splits of the same bytes. */
  lemma TakeFront<T>(a: seq<T>, b: seq<T>, c: seq<T>, d: seq<T>, n: nat)
    requires a + b == c + d && n <= |a| && n <= |c|
    ensures a[..n] == c[..n] && a[n..] + b == c[n..] + d
  {
    assert a[..n] == (a + b)[..n] == (c + d)[..n] == c[..n];
    assert a[n..] + b == (a + b)[n..] == (c + d)[n..] == c[n..] + d;
  }

  // ---- The receiver: one client, one poll ----

  datatype RecvBuffer = RecvBuffer(data: seq<ubyte>, size: uint)

  const EMPTY := RecvBuffer([], 0)

  /** The packets handed to the mesh controller, and what is left. */
  datatype PollResult = PollResult(buffer: RecvBuffer, unread: seq<ubyte>, delivered: seq<seq<ubyte>>)

  function Min(a: nat, b: nat): nat {
    if a <= b then a else b
  }

  function Poll(b: RecvBuffer, readable: seq<ubyte>): PollResult {
    if readable == [] then
      PollResult(b, readable, [])
    else if b.size == 0 && |readable| >= 4 then
      Receive(b.data, ReadU32(readable[..4]), readable[4..])
    else
      Receive(b.data, b.size, readable)
  }

  /** The part of a poll after the length field: append what the frame still lacks. */
  function Receive(data: seq<ubyte>, size: uint, body: seq<ubyte>): PollResult {
    var take := Min(|body|, U64(size - |data|));
    var data' := data + body[..take];
    if |data'| == size
    then PollResult(EMPTY, body[take..], [data'])
    else PollResult(RecvBuffer(data', size), body[take..], [])
  }

  // ---- A stream: the sender, the wire and one client ----

  /** `transit` is sent but not readable yet; `sent` and `delivered` record the whole history. */
  datatype Stream = Stream(buffer: RecvBuffer, readable: seq<ubyte>, transit: seq<ubyte>,
                           sent: seq<Packet>, delivered: seq<seq<ubyte>>)

  datatype Event = Send(packet: Packet) | Arrive(count: nat) | Check

  const START := Stream(EMPTY, [], [], [], [])

  function Step(s: Stream, e: Event): Stream {
    match e
    case Send(p) => s.(transit := s.transit + EncodeFrame(p), sent := s.sent + [p])
    case Arrive(count) =>
      var k := Min(count, |s.transit|);
      s.(readable := s.readable + s.transit[..k], transit := s.transit[k..])
    case Check =>
      var r := Poll(s.buffer, s.readable);
      s.(buffer := r.buffer, readable := r.unread, delivered := s.delivered + r.delivered)
  }

  function Run(events: seq<Event>): Stream {
    if events == [] then START else Step(Run(events[..|events| - 1]), events[|events| - 1])
  }

  /** A poll that finds only one, two or three bytes of the next header. */
  predicate AtPartialHeader(s: Stream) {
    s.buffer.size == 0 && 1 <= |s.readable| <= 3
  }

  /** How many polls of the run found a partial header. */
  function PartialHeaderChecks(events: seq<Event>): nat {
    if events == [] then 0
    else
      var before := events[..|events| - 1];
      PartialHeaderChecks(before) +
      if events[|events| - 1].Check? && AtPartialHeader(Run(before)) then 1 else 0
  }

  function NonEmpty(ps: seq<seq<ubyte>>): seq<seq<ubyte>> {
    if ps == [] then []
    else NonEmpty(ps[..|ps| - 1]) + if ps[|ps| - 1] == [] then [] else [ps[|ps| - 1]]
  }

  lemma {:induction false} NonEmptyPrefix(ps: seq<seq<ubyte>>, k: nat)
    requires k <= |ps|
    ensures NonEmpty(ps[..k]) <= NonEmpty(ps)
  {
    if k < |ps| {
      NonEmptyPrefix(ps[..|ps| - 1], k);
      assert ps[..|ps| - 1][..k] == ps[..k];
    } else {
      assert ps[..k] == ps;
    }
  }

  // ---- The invariant ----

  /** The client has taken frames 0..k-1 off the wire completely and holds a proper,
      possibly empty, part of frame k; the rest is still to be read. */
  ghost predicate At(s: Stream, k: nat) {
    && k <= |s.sent|
    && if s.buffer.size == 0 then
         && s.buffer.data == []
         && s.readable + s.transit == EncodeAll(s.sent[k..])
       else
         && k < |s.sent|
         && s.buffer.size == |s.sent[k]|
         && |s.buffer.data| < s.buffer.size
         && s.buffer.data == s.sent[k][..|s.buffer.data|]
         && s.readable + s.transit == s.sent[k][|s.buffer.data|..] + EncodeAll(s.sent[k + 1..])
  }

  /** `At`, and what the mesh controller was given, when `partial` polls met a partial header. */
  ghost predicate Exact(s: Stream, k: nat, partial: nat) {
    && At(s, k)
    && NonEmpty(s.delivered) == NonEmpty(s.sent[..k])
    && |s.delivered| == k + partial
    && (partial == 0 ==> s.delivered == s.sent[..k])
  }

  /** The bytes of the frame the client is in the middle of. */
  function Partial(b: RecvBuffer): seq<ubyte> {
    if b.size == 0 then [] else WriteU32(b.size) + b.data
  }

  lemma FirstFrame(s: Stream, k: nat)
    requires At(s, k) && s.buffer.size == 0 && |s.readable| >= 4
    ensures k < |s.sent|
    ensures ReadU32(s.readable[..4]) == |s.sent[k]|
    ensures s.readable[4..] + s.transit == s.sent[k] + EncodeAll(s.sent[k + 1..])
  {
    EncodeAllFrom(s.sent, k);
    assert |s.readable + s.transit| >= 4;
    var p, rest := s.sent[k], EncodeAll(s.sent[k + 1..]);
    Regroup(WriteU32(|p|), p, rest);
    TakeFront(s.readable, s.transit, WriteU32(|p|), p + rest, 4);
    assert WriteU32(|p|)[4..] + (p + rest) == p + rest;
    assert WriteU32(|p|)[..4] == WriteU32(|p|);
    ReadWriteU32(|p|);
  }

  /** Taking body bytes of frame k: the whole remainder when it is there, else what is there. */
  lemma ReceiveAt(s: Stream, k: nat, body: seq<ubyte>, data: seq<ubyte>) returns (k': nat)
    requires k < |s.sent|
    requires |data| < |s.sent[k]| || data == s.sent[k] == []
    requires data == s.sent[k][..|data|]
    requires body + s.transit == s.sent[k][|data|..] + EncodeAll(s.sent[k + 1..])
    ensures var r := Receive(data, |s.sent[k]|, body);
            && At(s.(buffer := r.buffer, readable := r.unread), k')
            && (if |body| >= |s.sent[k]| - |data| then k' == k + 1 && r.delivered == [s.sent[k]]
                else k' == k && r.delivered == [])
  {
    var p, rest := s.sent[k], EncodeAll(s.sent[k + 1..]);
    var take := Min(|body|, |p| - |data|);
    TakeBody(body, s.transit, p, |data|, rest);
    assert U64(|p| - |data|) == |p| - |data|;
    var data' := data + body[..take];
    if take == |p| - |data| {
      k' := k + 1;
      assert p[..|p|] == p && p[|p|..] + rest == rest;
    } else {
      k' := k;
    }
  }

  lemma TakeBody(body: seq<ubyte>, transit: seq<ubyte>, p: seq<ubyte>, n: nat, rest: seq<ubyte>)
    requires n <= |p| && body + transit == p[n..] + rest
    ensures var take := Min(|body|, |p| - n);
            && p[..n] + body[..take] == p[..n + take]
            && body[take..] + transit == p[n + take..] + rest
  {
    var take := Min(|body|, |p| - n);
    TakeFront(body, transit, p[n..], rest, take);
    assert p[..n] + p[n..][..take] == p[..n + take];
    assert p[n..][take..] == p[n + take..];
  }

  /** A poll that has something to read and is not stopped at a partial header. */
  lemma CheckBody(s: Stream, k: nat) returns (k': nat)
    requires At(s, k) && s.readable != [] && !AtPartialHeader(s)
    ensures var r := Poll(s.buffer, s.readable);
            && At(s.(buffer := r.buffer, readable := r.unread), k')
            && (if k' == k then r.delivered == []
                else k' == k + 1 && k < |s.sent| && r.delivered == [s.sent[k]])
    ensures s.transit == [] ==> k' == k + 1
  {
    if s.buffer.size == 0 {
      FirstFrame(s, k);
      assert s.sent[k][0..] == s.sent[k];
      assert s.transit == [] ==> s.readable[4..] + s.transit == s.readable[4..];
      k' := ReceiveAt(s, k, s.readable[4..], []);
    } else {
      assert s.transit == [] ==> s.readable + s.transit == s.readable;
      k' := ReceiveAt(s, k, s.readable, s.buffer.data);
    }
  }

  /** What a poll does at frame k. */
  lemma CheckAt(s: Stream, k: nat) returns (k': nat)
    requires At(s, k)
    ensures var r := Poll(s.buffer, s.readable);
            && At(s.(buffer := r.buffer, readable := r.unread), k')
            && (if AtPartialHeader(s) then k' == k && r == PollResult(s.buffer, s.readable, [[]])
                else if k' == k then r.delivered == []
                else k' == k + 1 && k < |s.sent| && r.delivered == [s.sent[k]])
    ensures s.transit == [] && k < |s.sent| ==> k' == k + 1
  {
    EncodeAllFrom(s.sent, k);
    assert s.transit == [] ==> s.readable + s.transit == s.readable;
    if s.readable != [] && !AtPartialHeader(s) {
      k' := CheckBody(s, k);
    } else {
      k' := k;
    }
  }

  lemma SendAt(s: Stream, k: nat, p: Packet)
    requires At(s, k)
    ensures At(Step(s, Send(p)), k)
  {
    var j := if s.buffer.size == 0 then k else k + 1;
    assert (s.sent + [p])[j..] == s.sent[j..] + [p];
    EncodeAllAppend(s.sent[j..], p);
    Regroup(s.readable, s.transit, EncodeFrame(p));
    if s.buffer.size != 0 {
      Regroup(s.sent[k][|s.buffer.data|..], EncodeAll(s.sent[j..]), EncodeFrame(p));
    }
  }

  lemma ExactStep(s: Stream, k: nat, partial: nat, e: Event) returns (k': nat)
    requires Exact(s, k, partial)
    ensures Exact(Step(s, e), k', partial + if e.Check? && AtPartialHeader(s) then 1 else 0)
  {
    hide Poll;
    hide NonEmpty;
    hide EncodeAll;
    var s' := Step(s, e);
    k' := k;
    match e
    case Send(p) =>
      SendAt(s, k, p);
      assert s'.sent[..k] == s.sent[..k];
    case Arrive(count) =>
      assert s'.readable + s'.transit == s.readable + s.transit;
    case Check =>
      k' := CheckAt(s, k);
      ExactDelivery(s, k, partial, Poll(s.buffer, s.readable).delivered, k');
  }

  /** The bookkeeping of a poll that moved from frame k to frame k'. */
  lemma ExactDelivery(s: Stream, k: nat, partial: nat, d: seq<seq<ubyte>>, k': nat)
    requires Exact(s, k, partial)
    requires if AtPartialHeader(s) then k' == k && d == [[]]
             else if k' == k then d == []
             else k' == k + 1 && k < |s.sent| && d == [s.sent[k]]
    ensures var partial' := partial + if AtPartialHeader(s) then 1 else 0;
            && NonEmpty(s.delivered + d) == NonEmpty(s.sent[..k'])
            && |s.delivered + d| == k' + partial'
            && (partial' == 0 ==> s.delivered + d == s.sent[..k'])
  {
    if d == [] {
      assert s.delivered + d == s.delivered;
    } else {
      assert (s.delivered + d)[..|s.delivered|] == s.delivered;
      if k' == k + 1 {
        assert s.sent[..k'] == s.sent[..k] + [s.sent[k]];
        assert s.sent[..k'][..k] == s.sent[..k];
      }
    }
  }

  lemma {:induction false} RunExact(events: seq<Event>) returns (k: nat)
    ensures Exact(Run(events), k, PartialHeaderChecks(events))
  {
    if events == [] {
      k := 0;
    } else {
      var k0 := RunExact(events[..|events| - 1]);
      k := ExactStep(Run(events[..|events| - 1]), k0, PartialHeaderChecks(events[..|events| - 1]),
                     events[|events| - 1]);
    }
  }

  // ---- Main results ----

  /** However the stream is cut up, the non-empty packets delivered are the non-empty packets
      among the first k sent, and no byte is lost: k whole frames, the frame in hand and the
      unread bytes are the bytes sent. */
  lemma Exactness(events: seq<Event>)
    ensures var s := Run(events);
            && NonEmpty(s.delivered) <= NonEmpty(s.sent)
            && exists k: nat :: k <= |s.sent|
                 && NonEmpty(s.delivered) == NonEmpty(s.sent[..k])
                 && EncodeAll(s.sent[..k]) + Partial(s.buffer) + s.readable + s.transit == EncodeAll(s.sent)
  {
    var s := Run(events);
    var k := RunExact(events);
    NonEmptyPrefix(s.sent, k);
    EncodeAllSplit(s.sent, k);
    FromPosition(s, k);
    Regroup(EncodeAll(s.sent[..k]), Partial(s.buffer), s.readable + s.transit);
    Regroup(EncodeAll(s.sent[..k]) + Partial(s.buffer), s.readable, s.transit);
  }

  lemma FromPosition(s: Stream, k: nat)
    requires At(s, k)
    ensures EncodeAll(s.sent[k..]) == Partial(s.buffer) + (s.readable + s.transit)
  {
    EncodeAllFrom(s.sent, k);
    if s.buffer.size != 0 {
      var p, rest := s.sent[k], EncodeAll(s.sent[k + 1..]);
      var tail := p[|s.buffer.data|..];
      assert p == s.buffer.data + tail;
      Regroup(WriteU32(|p|), s.buffer.data, tail);
      Regroup(WriteU32(|p|) + s.buffer.data, tail, rest);
    }
  }

  /** The deliveries are exactly the first k packets sent, empty ones included, if and only if
      no poll met a partial header; each such poll adds one delivery of size 0. */
  lemma ExactIffNoPartialHeader(events: seq<Event>)
    ensures var s := Run(events);
            exists k: nat :: k <= |s.sent| && At(s, k)
              && |s.delivered| == k + PartialHeaderChecks(events)
              && (s.delivered == s.sent[..k] <==> PartialHeaderChecks(events) == 0)
  {
    var k := RunExact(events);
    assert |Run(events).sent[..k]| == k;
  }

  /** A poll at a partial header hands over a packet of size 0 and changes nothing else,
      and on a reachable stream only a whole empty frame can also be handed over as size 0. */
  lemma EmptyDeliveries(events: seq<Event>)
    ensures var s := Run(events);
            var r := Poll(s.buffer, s.readable);
            && (AtPartialHeader(s) ==> r == PollResult(s.buffer, s.readable, [[]]))
            && (r.delivered == [[]] && !AtPartialHeader(s) ==>
                  exists k: nat :: At(s, k) && k < |s.sent| && s.sent[k] == [] && At(Step(s, Check), k + 1))
  {
    var s := Run(events);
    var k := RunExact(events);
    var k' := CheckAt(s, k);
  }

  /** The client never holds more than it expects, and exactly as much only between frames, so
      the unsigned subtraction in the poll does not wrap. */
  lemma {:induction false} NoWrap(events: seq<Event>)
    ensures var b := Run(events).buffer;
            && |b.data| <= b.size
            && (|b.data| == b.size <==> b == EMPTY)
            && U64(b.size - |b.data|) == b.size - |b.data|
  {
    var k := RunExact(events);
  }

  /** The position k in the stream is determined by the stream. */
  lemma AtUnique(s: Stream, j: nat, k: nat)
    requires At(s, j) && At(s, k)
    ensures j == k
  {
    if j < k {
      Shorter(s.sent, j, k, s.buffer);
    } else if k < j {
      Shorter(s.sent, k, j, s.buffer);
    }
  }

  /** Bytes still to read at position k. */
  function Pending(ps: seq<Packet>, k: nat, b: RecvBuffer): int
    requires k <= |ps| && (b.size != 0 ==> k < |ps|)
  {
    if b.size == 0 then |EncodeAll(ps[k..])| else |ps[k]| - |b.data| + |EncodeAll(ps[k + 1..])|
  }

  lemma Shorter(ps: seq<Packet>, j: nat, k: nat, b: RecvBuffer)
    requires j < k <= |ps| && (b.size != 0 ==> k < |ps|)
    requires b.size != 0 ==> b.size == |ps[j]| == |ps[k]|
    ensures Pending(ps, j, b) > Pending(ps, k, b)
    decreases k - j
  {
    EncodeAllFrom(ps, j);
    EncodeAllFrom(ps, k);
    if k > j + 1 {
      Shorter(ps, j + 1, k, EMPTY);
    } else if k < |ps| {
      EncodeAllFrom(ps, k);
    }
  }

  function Polls(s: Stream, n: nat): Stream {
    if n == 0 then s else Step(Polls(s, n - 1), Check)
  }

  /** s' is s after polls that took it from frame k to frame j. */
  ghost predicate Advanced(s: Stream, s': Stream, k: nat, j: nat) {
    && k <= j <= |s.sent|
    && At(s', j) && s'.transit == [] && s'.sent == s.sent
    && s'.delivered == s.delivered + s.sent[k..j]
  }

  lemma AdvanceNone(s: Stream, k: nat)
    requires At(s, k) && s.transit == []
    ensures Advanced(s, s, k, k)
  {
    assert s.delivered + s.sent[k..k] == s.delivered;
  }

  lemma Advance(s: Stream, before: Stream, k: nat, j: nat) returns (after: Stream)
    requires Advanced(s, before, k, j) && j < |s.sent|
    ensures after == Step(before, Check)
    ensures Advanced(s, after, k, j + 1)
  {
    after := Step(before, Check);
    NextFrame(before, j);
    ExtendSlice(s.delivered, s.sent, k, j);
  }

  lemma {:induction false} PollsAt(s: Stream, k: nat, n: nat) returns (s': Stream)
    requires At(s, k) && s.transit == [] && k + n <= |s.sent|
    ensures s' == Polls(s, n)
    ensures Advanced(s, s', k, k + n)
    decreases n
  {
    hide At;
    hide Step;
    if n == 0 {
      s' := s;
      AdvanceNone(s, k);
    } else {
      var before := PollsAt(s, k, n - 1);
      s' := Advance(s, before, k, k + (n - 1));
    }
  }

  lemma ExtendSlice(d: seq<seq<ubyte>>, ps: seq<seq<ubyte>>, k: nat, j: nat)
    requires k <= j < |ps|
    ensures d + ps[k..j] + [ps[j]] == d + ps[k..j + 1]
  {}

  lemma NextFrame(s: Stream, k: nat)
    requires At(s, k) && s.transit == [] && k < |s.sent|
    ensures var s' := Step(s, Check);
            At(s', k + 1) && s'.transit == [] && s'.sent == s.sent && s'.delivered == s.delivered + [s.sent[k]]
  {
    var k' := CheckAt(s, k);
    var r := Poll(s.buffer, s.readable);
    assert At(Step(s, Check), k');
  }

  /** Once everything sent is readable, each poll delivers exactly the next undelivered frame:
      |sent| - k polls drain the stream, and no fewer do. */
  lemma Drain(events: seq<Event>, n: nat)
    requires Run(events).transit == []
    ensures var s := Run(events);
            exists k: nat :: k <= |s.sent| && At(s, k)
              && (k + n <= |s.sent| ==> Polls(s, n).delivered == s.delivered + s.sent[k..k + n])
              && (k + n == |s.sent| ==> Polls(s, n).readable == [] && Polls(s, n).buffer == EMPTY)
              && (k + n < |s.sent| ==> Polls(s, n).readable != [])
  {
    var s := Run(events);
    var k := RunExact(events);
    assert At(s, k);
    if k + n <= |s.sent| {
      var s' := PollsAt(s, k, n);
      assert s'.readable + s'.transit == s'.readable;
      EncodeAllFrom(s.sent, k + n);
    }
  }

  /** A run on which the deliveries are not the packets sent: one byte of a header arrives,
      the client is polled, and the controller is given a packet nobody sent. */
  lemma PartialHeaderExample(p: Packet)
    requires p != []
    ensures var s := Run([Send(p), Arrive(1), Check]);
            At(s, 0) && s.delivered == [[]] && s.sent == [p] && [] !in s.sent
  {
    var e := [Send(p), Arrive(1), Check];
    assert e[..2] == [Send(p), Arrive(1)] && e[..2][..1] == [Send(p)] && e[..2][..1][..0] == [];
    var s1 := Run([Send(p)]);
    assert [Send(p)][..0] == [];
    assert Run([]) == START;
    assert s1 == Step(START, Send(p));
    assert Run([Send(p), Arrive(1)]) == Step(s1, Arrive(1));
    assert Run(e) == Step(Step(s1, Arrive(1)), Check);
    var k := RunExact(e);
    assert PartialHeaderChecks(e) == 1 by {
      assert [Send(p), Arrive(1)][..1] == [Send(p)];
      assert PartialHeaderChecks([Send(p)]) == 0;
      assert PartialHeaderChecks([Send(p), Arrive(1)]) == 0;
    }
  }
}
