/** The socket interface of the mesh: any number of clients, each with its own socket and
    receive buffer, polled in whatever order the client table is walked. */
module MeshSocketInterface {
  import opened Bytes
  import opened Framing

  type Addr = nat
  type Handle = nat

  datatype Client = Client(buffer: RecvBuffer, handle: Handle)

  /** The state of the listening socket when it is looked at. */
  datatype Listener = Idle | Except | Incoming(addr: Addr, handle: Handle)

  /** Only a server accepts. */
  function Accepted(isServer: bool, listener: Listener): Option<Addr> {
    if isServer && listener.Incoming? then Some(listener.addr) else None
  }

  // ---- The receiving side as a value ----

  datatype Link = Link(buffer: RecvBuffer, readable: seq<ubyte>)

  /** The link of a connection just made. */
  const FRESH := Link(EMPTY, [])

  /** Every client's link, and the packets handed over with the address they came from. */
  datatype Net = Net(links: map<Addr, Link>, delivered: seq<(Addr, seq<ubyte>)>)

  datatype NetEvent =
    | Arrived(addr: Addr, bytes: seq<ubyte>)
    | Look(accepted: Option<Addr>, ready: set<Addr>)

  /** The packets delivered under one address, in order. */
  function Under(log: seq<(Addr, seq<ubyte>)>, a: Addr): seq<seq<ubyte>> {
    if log == [] then []
    else
      var last := log[|log| - 1];
      Under(log[..|log| - 1], a) + if last.0 == a then [last.1] else []
  }

  /** What a poll of the link of address a hands over. */
  function Delivery(n: Net, ready: set<Addr>, a: Addr): seq<seq<ubyte>> {
    if a in n.links && a in ready then Poll(n.links[a].buffer, n.links[a].readable).delivered else []
  }

  function PollLink(l: Link): Link {
    var r := Poll(l.buffer, l.readable);
    Link(r.buffer, r.unread)
  }

  /** n' is n after one poll of each ready link, in some order. */
  ghost predicate Polled(n: Net, ready: set<Addr>, n': Net) {
    && n'.links == (map a | a in n.links :: if a in ready then PollLink(n.links[a]) else n.links[a])
    && n.delivered <= n'.delivered
    && forall a: Addr :: Under(n'.delivered, a) == Under(n.delivered, a) + Delivery(n, ready, a)
  }

  function Accept(n: Net, accepted: Option<Addr>): Net {
    if accepted.Some? then n.(links := n.links[accepted.value := FRESH]) else n
  }

  ghost predicate NetNext(n: Net, e: NetEvent, n': Net) {
    match e
    case Arrived(a, bytes) =>
      && n'.delivered == n.delivered
      && n'.links == if a in n.links then n.links[a := n.links[a].(readable := n.links[a].readable + bytes)]
                     else n.links
    case Look(accepted, ready) => Polled(Accept(n, accepted), ready, n')
  }

  // ---- The interface itself ----

  /** Every client has an open socket and no two addresses share one. */
  ghost predicate Sound(clients: map<Addr, Client>, inbox: map<Handle, seq<ubyte>>) {
    && (forall a | a in clients :: clients[a].handle in inbox)
    && (forall a, b | a in clients && b in clients && a != b :: clients[a].handle != clients[b].handle)
  }

  ghost function Links(clients: map<Addr, Client>, inbox: map<Handle, seq<ubyte>>): map<Addr, Link>
    requires Sound(clients, inbox)
  {
    map a | a in clients :: Link(clients[a].buffer, inbox[clients[a].handle])
  }

  lemma UpdateLink(clients: map<Addr, Client>, inbox: map<Handle, seq<ubyte>>, a: Addr, l: Link)
    requires Sound(clients, inbox) && a in clients
    ensures var h := clients[a].handle;
            var clients', inbox' := clients[a := Client(l.buffer, h)], inbox[h := l.readable];
            Sound(clients', inbox') && Links(clients', inbox') == Links(clients, inbox)[a := l]
  {}

  lemma NewLink(clients: map<Addr, Client>, inbox: map<Handle, seq<ubyte>>, a: Addr, h: Handle)
    requires Sound(clients, inbox) && h !in inbox
    ensures var clients', inbox' := clients[a := Client(EMPTY, h)], inbox[h := []];
            Sound(clients', inbox') && Links(clients', inbox') == Links(clients, inbox)[a := FRESH]
  {}

  lemma FirstLink(a: Addr, h: Handle)
    ensures var clients: map<Addr, Client>, inbox: map<Handle, seq<ubyte>> := map[a := Client(EMPTY, h)], map[h := []];
            Sound(clients, inbox) && Links(clients, inbox) == map[a := FRESH]
  {}

  /** What was written to each socket are the frames of the packets sent over it. */
  ghost predicate Framed(outbox: map<Handle, seq<ubyte>>, sentOver: map<Handle, seq<Packet>>) {
    outbox.Keys == sentOver.Keys && forall h | h in outbox :: outbox[h] == EncodeAll(sentOver[h])
  }

  lemma FrameWritten(outbox: map<Handle, seq<ubyte>>, sentOver: map<Handle, seq<Packet>>, h: Handle, p: Packet)
    requires Framed(outbox, sentOver) && h in outbox
    ensures Framed(outbox[h := outbox[h] + EncodeFrame(p)], sentOver[h := sentOver[h] + [p]])
  {
    hide EncodeAll;
    hide EncodeFrame;
    EncodeAllAppend(sentOver[h], p);
  }

  lemma NothingWritten(outbox: map<Handle, seq<ubyte>>, sentOver: map<Handle, seq<Packet>>, h: Handle)
    requires Framed(outbox, sentOver)
    ensures Framed(outbox[h := []], sentOver[h := []])
  {}

  class MeshSocketInterface {
    const isServer: bool
    var clients: map<Addr, Client>
    /** Per open socket: bytes that can be received, and bytes sent. */
    var inbox: map<Handle, seq<ubyte>>
    var outbox: map<Handle, seq<ubyte>>
    /** The calls made to the controller's packet handler. */
    var delivered: seq<(Addr, seq<ubyte>)>
    /** The packets sent over each open socket since it was opened. */
    ghost var sentOver: map<Handle, seq<Packet>>

    ghost predicate Valid()
      reads this
    {
      Sound(clients, inbox) && inbox.Keys == outbox.Keys && Framed(outbox, sentOver)
    }

    ghost function View(): Net
      reads this
      requires Valid()
    {
      Net(Links(clients, inbox), delivered)
    }

    constructor Server()
      ensures Valid() && isServer && clients == map[] && View() == Net(map[], [])
    {
      isServer := true;
      clients, inbox, outbox, delivered, sentOver := map[], map[], map[], [], map[];
    }

    constructor Connect(serverAddr: Addr, handle: Handle)
      ensures Valid() && !isServer && clients == map[serverAddr := Client(EMPTY, handle)]
      ensures View() == Net(map[serverAddr := FRESH], [])
    {
      isServer := false;
      hide Sound;
      hide Links;
      clients := map[serverAddr := Client(EMPTY, handle)];
      inbox, outbox, delivered, sentOver := map[handle := []], map[handle := []], [], map[handle := []];
      FirstLink(serverAddr, handle);
      new;
      assert inbox.Keys == outbox.Keys;
    }

    /** The one C++ constructor for both: a refused connection is an exception, so there is no
        interface. `reached` is the server's address and the socket, if it answers. */
    static method Open(isServer: bool, reached: Option<(Addr, Handle)>) returns (r: Option<MeshSocketInterface>)
      ensures r.None? <==> !isServer && reached.None?
      ensures r.Some? ==> fresh(r.value) && r.value.Valid() && r.value.isServer == isServer
      ensures r.Some? ==> r.value.View() == Net(if isServer then map[] else map[reached.value.0 := FRESH], [])
    {
      if isServer {
        var server := new MeshSocketInterface.Server();
        return Some(server);
      }
      if reached.None? {
        return None;
      }
      var client := new MeshSocketInterface.Connect(reached.value.0, reached.value.1);
      return Some(client);
    }

    /** Bytes becoming readable on an open socket; the operating system does this. */
    method BecomeReadable(a: Addr, bytes: seq<ubyte>)
      requires Valid() && a in clients
      modifies this`inbox
      ensures Valid() && NetNext(old(View()), Arrived(a, bytes), View())
    {
      var h := clients[a].handle;
      UpdateLink(clients, inbox, a, Link(clients[a].buffer, inbox[h] + bytes));
      assert clients[a := Client(clients[a].buffer, h)] == clients;
      inbox := inbox[h := inbox[h] + bytes];
    }

    /** One pass over the clients. `ready` are the addresses whose socket reports readable data. A
        server that has an incoming connection stores it under the address it comes from, on its
        own socket and without any bytes; every other client stays under its address, on its
        socket, and is polled once if it is ready. Nothing happens if the listener is in an
        exceptional state. */
    method CheckPackets(listener: Listener, ready: set<Addr>)
      requires Valid()
      requires listener.Incoming? ==> listener.handle !in inbox
      modifies this`clients, this`inbox, this`outbox, this`delivered, this`sentOver
      ensures Valid()
      ensures clients.Keys == old(clients.Keys) + if isServer && listener.Incoming? then {listener.addr} else {}
      ensures isServer && listener.Incoming? ==>
                && clients[listener.addr] == Client(EMPTY, listener.handle) && inbox[listener.handle] == []
                && Under(delivered, listener.addr) == Under(old(delivered), listener.addr)
                && outbox == old(outbox)[listener.handle := []]
                && sentOver == old(sentOver)[listener.handle := []]
      ensures !(isServer && listener.Incoming?) ==> outbox == old(outbox) && sentOver == old(sentOver)
      ensures forall a | a in old(clients) && !(isServer && listener.Incoming? && a == listener.addr) ::
                PolledOnce(old(clients), old(inbox), old(delivered), clients, inbox, delivered, a,
                           a in ready && !(isServer && listener.Except?))
      ensures if isServer && listener.Except? then View() == old(View())
              else NetNext(old(View()), Look(Accepted(isServer, listener), ready), View())
    {
      hide Poll;
      hide Links;
      hide Polled;
      hide PolledOnce;
      hide Under;
      hide Framed;
      if isServer {
        if listener.Except? {
          LeftAlone(clients, inbox, delivered);
          return;
        }
        if listener.Incoming? {
          NewLink(clients, inbox, listener.addr, listener.handle);
          NothingWritten(outbox, sentOver, listener.handle);
          clients := clients[listener.addr := Client(EMPTY, listener.handle)];
          inbox := inbox[listener.handle := []];
          outbox := outbox[listener.handle := []];
          sentOver := sentOver[listener.handle := []];
        }
      }
      ghost var start, before, bytes := View(), clients, inbox;
      assert start == Accept(old(View()), Accepted(isServer, listener));
      CheckClients(ready);
      EachPolledOnce(before, bytes, old(delivered), clients, inbox, delivered, ready);
      if isServer && listener.Incoming? {
        NothingPolledYet(before, bytes, old(delivered), clients, inbox, delivered, listener.addr,
                         listener.addr in ready);
      }
      forall a | a in old(clients) && !(isServer && listener.Incoming? && a == listener.addr)
        ensures PolledOnce(old(clients), old(inbox), old(delivered), clients, inbox, delivered, a, a in ready)
      {
        assert before[a] == old(clients)[a] && bytes[before[a].handle] == old(inbox)[before[a].handle];
        SameClient(old(clients), old(inbox), before, bytes, old(delivered), clients, inbox, delivered, a, a in ready);
      }
    }

    /** The loop over the client table; `:|` leaves the order open, as the table does. */
    method CheckClients(ready: set<Addr>)
      requires Valid()
      modifies this`clients, this`inbox, this`delivered
      ensures Valid() && Polled(old(View()), ready, View())
      ensures clients.Keys == old(clients.Keys)
      ensures forall a | a in clients :: clients[a].handle == old(clients)[a].handle
    {
      hide Poll;
      hide Sound;
      hide Links;
      hide Polled;
      hide Framed;
      ghost var start := View();
      var todo := clients.Keys;
      ViewKeys();
      NothingPolled(start, ready - todo);
      while todo != {}
        invariant todo <= clients.Keys == start.links.Keys
        invariant Valid()
        invariant Polled(start, ready - todo, View())
        invariant clients.Keys == old(clients.Keys)
        invariant forall a | a in clients :: clients[a].handle == old(clients)[a].handle
      {
        var a :| a in todo;
        if a in ready {
          CheckOneMore(a, start, ready - todo);
          assert ready - todo + {a} == ready - (todo - {a});
        } else {
          assert ready - todo == ready - (todo - {a});
        }
        todo := todo - {a};
      }
      assert ready - {} == ready;
    }

    method CheckOneMore(a: Addr, ghost start: Net, ghost polled: set<Addr>)
      requires Valid() && a in clients && a !in polled
      requires Polled(start, polled, View()) && start.links.Keys == clients.Keys
      modifies this`clients, this`inbox, this`delivered
      ensures Valid() && Polled(start, polled + {a}, View()) && clients.Keys == old(clients.Keys)
      ensures forall b | b in clients :: clients[b].handle == old(clients)[b].handle
    {
      hide Poll;
      hide Sound;
      hide Links;
      hide Polled;
      hide Framed;
      ghost var n := View();
      ViewKeys();
      UpdateLink(clients, inbox, a, PollLink(n.links[a]));
      CheckClient(a);
      PolledOneMore(start, polled, n, a, View());
    }

    lemma ViewKeys()
      requires Valid()
      ensures forall a | a in clients :: clients[a].handle in inbox
      ensures View().links.Keys == clients.Keys && View().delivered == delivered
      ensures View().links == Links(clients, inbox)
      ensures forall a | a in clients :: View().links[a] == Link(clients[a].buffer, inbox[clients[a].handle])
    {}

    /** The body of the pass for one client whose socket is readable. */
    method CheckClient(a: Addr)
      requires Valid() && a in clients
      modifies this`clients, this`inbox, this`delivered
      ensures var c := old(clients[a]);
              var r := Poll(c.buffer, old(inbox)[c.handle]);
              && clients == old(clients)[a := Client(r.buffer, c.handle)]
              && inbox == old(inbox)[c.handle := r.unread]
              && delivered == old(delivered) + Tagged(a, r.delivered)
    {
      var h := clients[a].handle;
      var available := |inbox[h]|;
      if available > 0 {
        var size := clients[a].buffer.size;
        if size == 0 && available >= 4 {
          available := available - 4;
          size := ReceiveHeader(h);
        }
        ReceiveBody(a, size, available);
      } else {
        assert old(inbox)[h := []] == old(inbox);
        assert old(clients)[a := old(clients)[a]] == old(clients);
      }
    }

    /** The length field of a frame. */
    method ReceiveHeader(h: Handle) returns (size: uint)
      requires h in inbox && |inbox[h]| >= 4
      modifies this`inbox
      ensures size == ReadU32(old(inbox)[h][..4]) && inbox == old(inbox)[h := old(inbox)[h][4..]]
    {
      size := ReadU32(inbox[h][..4]);
      inbox := inbox[h := inbox[h][4..]];
    }

    /** What the frame still lacks, as far as it is there; a complete packet is handed over. */
    method ReceiveBody(a: Addr, size: uint, available: nat)
      requires a in clients && clients[a].handle in inbox && available == |inbox[clients[a].handle]|
      modifies this`clients, this`inbox, this`delivered
      ensures var c := old(clients[a]);
              var r := Receive(c.buffer.data, size, old(inbox)[c.handle]);
              && clients == old(clients)[a := Client(r.buffer, c.handle)]
              && inbox == old(inbox)[c.handle := r.unread]
              && delivered == old(delivered) + Tagged(a, r.delivered)
    {
      hide U64;
      var h, data := clients[a].handle, clients[a].buffer.data;
      var taken := Min(available, U64(size - |data|));
      data := data + inbox[h][..taken];
      inbox := inbox[h := inbox[h][taken..]];
      if size == |data| {
        delivered := delivered + [(a, data)];
        clients := clients[a := Client(EMPTY, h)];
      } else {
        clients := clients[a := Client(RecvBuffer(data, size), h)];
      }
    }

    /** A packet for an unknown address is dropped; otherwise its frame is written to the socket. */
    method SendPacket(a: Addr, packet: Packet)
      requires Valid()
      modifies this`outbox, this`sentOver
      ensures Valid() && View() == old(View())
      ensures a !in clients ==> outbox == old(outbox) && sentOver == old(sentOver)
      ensures a in clients ==>
                var h := clients[a].handle;
                && outbox == old(outbox)[h := old(outbox)[h] + (WriteU32(|packet|) + packet)]
                && sentOver == old(sentOver)[h := old(sentOver)[h] + [packet]]
    {
      if a !in clients {
        return;
      }
      var h := clients[a].handle;
      outbox := outbox[h := outbox[h] + WriteU32(|packet|)];
      outbox := outbox[h := outbox[h] + packet];
      Regroup(old(outbox)[h], WriteU32(|packet|), packet);
      FrameWritten(old(outbox), sentOver, h, packet);
      sentOver := sentOver[h := sentOver[h] + [packet]];
    }
  }

  /** Client a stays under its address and on its socket, and is polled once or left alone. */
  ghost predicate PolledOnce(clients: map<Addr, Client>, inbox: map<Handle, seq<ubyte>>, log: seq<(Addr, seq<ubyte>)>,
                             clients': map<Addr, Client>, inbox': map<Handle, seq<ubyte>>,
                             log': seq<(Addr, seq<ubyte>)>, a: Addr, polled: bool)
    requires a in clients && clients[a].handle in inbox
  {
    var h := clients[a].handle;
    var r := if polled then Poll(clients[a].buffer, inbox[h]) else PollResult(clients[a].buffer, inbox[h], []);
    && a in clients' && clients'[a] == Client(r.buffer, h)
    && h in inbox' && inbox'[h] == r.unread
    && Under(log', a) == Under(log, a) + r.delivered
  }

  lemma PolledAt(clients: map<Addr, Client>, inbox: map<Handle, seq<ubyte>>, log: seq<(Addr, seq<ubyte>)>,
                 clients': map<Addr, Client>, inbox': map<Handle, seq<ubyte>>, log': seq<(Addr, seq<ubyte>)>,
                 ready: set<Addr>, a: Addr)
    requires Sound(clients, inbox) && Sound(clients', inbox') && a in clients && a in clients'
    requires clients'[a].handle == clients[a].handle
    requires Polled(Net(Links(clients, inbox), log), ready, Net(Links(clients', inbox'), log'))
    ensures PolledOnce(clients, inbox, log, clients', inbox', log', a, a in ready)
  {
    hide Poll;
    hide Under;
    var n, n' := Net(Links(clients, inbox), log), Net(Links(clients', inbox'), log');
    assert n'.links[a] == Link(clients'[a].buffer, inbox'[clients'[a].handle]);
    assert n.links[a] == Link(clients[a].buffer, inbox[clients[a].handle]);
    assert Under(n'.delivered, a) == Under(n.delivered, a) + Delivery(n, ready, a);
  }

  lemma EachPolledOnce(clients: map<Addr, Client>, inbox: map<Handle, seq<ubyte>>, log: seq<(Addr, seq<ubyte>)>,
                       clients': map<Addr, Client>, inbox': map<Handle, seq<ubyte>>,
                       log': seq<(Addr, seq<ubyte>)>, ready: set<Addr>)
    requires Sound(clients, inbox) && Sound(clients', inbox') && clients.Keys == clients'.Keys
    requires forall a | a in clients :: clients'[a].handle == clients[a].handle
    requires Polled(Net(Links(clients, inbox), log), ready, Net(Links(clients', inbox'), log'))
    ensures forall a | a in clients :: PolledOnce(clients, inbox, log, clients', inbox', log', a, a in ready)
  {
    hide Polled;
    hide PolledOnce;
    forall a | a in clients ensures PolledOnce(clients, inbox, log, clients', inbox', log', a, a in ready) {
      PolledAt(clients, inbox, log, clients', inbox', log', ready, a);
    }
  }

  /** What is polled once from the same client and bytes comes out the same. */
  lemma SameClient(c0: map<Addr, Client>, i0: map<Handle, seq<ubyte>>, clients: map<Addr, Client>,
                   inbox: map<Handle, seq<ubyte>>, log: seq<(Addr, seq<ubyte>)>, clients': map<Addr, Client>,
                   inbox': map<Handle, seq<ubyte>>, log': seq<(Addr, seq<ubyte>)>, a: Addr, polled: bool)
    requires a in c0 && a in clients && c0[a] == clients[a]
    requires c0[a].handle in i0 && c0[a].handle in inbox && i0[c0[a].handle] == inbox[c0[a].handle]
    requires PolledOnce(clients, inbox, log, clients', inbox', log', a, polled)
    ensures PolledOnce(c0, i0, log, clients', inbox', log', a, polled)
  {}

  lemma LeftAlone(clients: map<Addr, Client>, inbox: map<Handle, seq<ubyte>>, log: seq<(Addr, seq<ubyte>)>)
    requires Sound(clients, inbox)
    ensures forall a | a in clients :: PolledOnce(clients, inbox, log, clients, inbox, log, a, false)
  {}

  /** A poll of a connection without any bytes gives nothing. */
  lemma NothingPolledYet(clients: map<Addr, Client>, inbox: map<Handle, seq<ubyte>>, log: seq<(Addr, seq<ubyte>)>,
                         clients': map<Addr, Client>, inbox': map<Handle, seq<ubyte>>,
                         log': seq<(Addr, seq<ubyte>)>, a: Addr, polled: bool)
    requires a in clients && clients[a].buffer == EMPTY
    requires clients[a].handle in inbox && inbox[clients[a].handle] == []
    requires PolledOnce(clients, inbox, log, clients', inbox', log', a, polled)
    ensures a in clients' && clients'[a] == clients[a]
    ensures clients[a].handle in inbox' && inbox'[clients[a].handle] == [] && Under(log', a) == Under(log, a)
  {}

  function Tagged(a: Addr, ps: seq<seq<ubyte>>): (log: seq<(Addr, seq<ubyte>)>)
    ensures |log| == |ps| && forall i | 0 <= i < |ps| :: log[i] == (a, ps[i])
  {
    seq(|ps|, i requires 0 <= i < |ps| => (a, ps[i]))
  }

  lemma {:induction false} UnderAppend(log: seq<(Addr, seq<ubyte>)>, a: Addr, ps: seq<seq<ubyte>>, b: Addr)
    ensures Under(log + Tagged(a, ps), b) == Under(log, b) + if a == b then ps else []
  {
    if ps == [] {
      assert log + Tagged(a, ps) == log;
    } else {
      var init := ps[..|ps| - 1];
      UnderAppend(log, a, init, b);
      assert (log + Tagged(a, ps))[..|log| + |ps| - 1] == log + Tagged(a, init);
      assert ps == init + [ps[|ps| - 1]];
    }
  }

  lemma NothingPolled(n: Net, ready: set<Addr>)
    requires ready !! n.links.Keys
    ensures Polled(n, ready, n)
  {}

  /** Polling one more link extends the pass, whichever links were polled before. */
  lemma PolledOneMore(n: Net, ready: set<Addr>, n1: Net, a: Addr, n2: Net)
    requires Polled(n, ready, n1) && a in n.links && a !in ready
    requires n2.links == n1.links[a := PollLink(n1.links[a])]
    requires n2.delivered == n1.delivered + Tagged(a, Poll(n1.links[a].buffer, n1.links[a].readable).delivered)
    ensures Polled(n, ready + {a}, n2)
  {
    hide Poll;
    hide Under;
    var d := Poll(n.links[a].buffer, n.links[a].readable).delivered;
    forall b: Addr ensures Under(n2.delivered, b) == Under(n.delivered, b) + Delivery(n, ready + {a}, b) {
      UnderAppend(n1.delivered, a, d, b);
      assert Under(n1.delivered, b) == Under(n.delivered, b) + Delivery(n, ready, b);
    }
  }

  // ---- Non-interference ----

  /** What one address sees of the interface. */
  datatype Local = Local(link: Option<Link>, delivered: seq<seq<ubyte>>)

  datatype LocalEvent = Opened | Got(bytes: seq<ubyte>) | Looked

  function LocalStep(l: Local, e: LocalEvent): Local {
    match e
    case Opened => l.(link := Some(FRESH))
    case Got(bytes) =>
      if l.link.None? then l else l.(link := Some(l.link.value.(readable := l.link.value.readable + bytes)))
    case Looked =>
      if l.link.None? then l
      else Local(Some(PollLink(l.link.value)), l.delivered + Poll(l.link.value.buffer, l.link.value.readable).delivered)
  }

  function LocalRun(l: Local, es: seq<LocalEvent>): Local {
    if es == [] then l else LocalStep(LocalRun(l, es[..|es| - 1]), es[|es| - 1])
  }

  /** The part of a pass or arrival that concerns address a. */
  function ProjectEvent(e: NetEvent, a: Addr): seq<LocalEvent> {
    match e
    case Arrived(b, bytes) => if a == b then [Got(bytes)] else []
    case Look(accepted, ready) =>
      (if accepted == Some(a) then [Opened] else []) + if a in ready then [Looked] else []
  }

  function Project(es: seq<NetEvent>, a: Addr): seq<LocalEvent> {
    if es == [] then [] else Project(es[..|es| - 1], a) + ProjectEvent(es[|es| - 1], a)
  }

  function LocalView(n: Net, a: Addr): Local {
    Local(if a in n.links then Some(n.links[a]) else None, Under(n.delivered, a))
  }

  /** A run of the interface: the states between the events, the first and last included. */
  ghost predicate NetRun(ns: seq<Net>, es: seq<NetEvent>) {
    && |ns| == |es| + 1
    && forall i | 0 <= i < |es| :: NetNext(ns[i], es[i], ns[i + 1])
  }

  lemma {:induction false} LocalRunAppend(l: Local, es: seq<LocalEvent>, fs: seq<LocalEvent>)
    ensures LocalRun(l, es + fs) == LocalRun(LocalRun(l, es), fs)
    decreases |fs|
  {
    hide LocalStep;
    if fs == [] {
      assert es + fs == es;
    } else {
      LocalRunAppend(l, es, fs[..|fs| - 1]);
      assert (es + fs)[..|es + fs| - 1] == es + fs[..|fs| - 1];
    }
  }

  lemma LocalRunOne(l: Local, e: LocalEvent)
    ensures LocalRun(l, [e]) == LocalStep(l, e)
  {
    assert [e][..0] == [];
    assert LocalRun(l, []) == l;
  }

  lemma StepIsLocal(n: Net, e: NetEvent, n': Net, a: Addr)
    requires NetNext(n, e, n')
    ensures LocalView(n', a) == LocalRun(LocalView(n, a), ProjectEvent(e, a))
  {
    var l := LocalView(n, a);
    match e
    case Arrived(b, bytes) =>
      LocalRunOne(l, Got(bytes));
    case Look(accepted, ready) =>
      var m := Accept(n, accepted);
      var connected := if accepted == Some(a) then [Opened] else [];
      var looked := if a in ready then [Looked] else [];
      LocalRunAppend(l, connected, looked);
      LocalRunOne(l, Opened);
      LocalRunOne(LocalView(m, a), Looked);
      assert LocalRun(l, connected) == LocalView(m, a);
      assert Under(n'.delivered, a) == Under(m.delivered, a) + Delivery(m, ready, a);
  }

  /** What happens under one address is decided by that address's own connections, bytes and
      polls: other clients, their traffic and the order of every pass make no difference. */
  lemma {:induction false} NonInterference(ns: seq<Net>, es: seq<NetEvent>, a: Addr)
    requires NetRun(ns, es)
    ensures LocalView(ns[|es|], a) == LocalRun(LocalView(ns[0], a), Project(es, a))
    decreases |es|
  {
    if es != [] {
      var k := |es| - 1;
      NonInterference(ns[..k + 1], es[..k], a);
      StepIsLocal(ns[k], es[k], ns[k + 1], a);
      LocalRunAppend(LocalView(ns[0], a), Project(es[..k], a), ProjectEvent(es[k], a));
    }
  }

  /** The address's share of a stream run: its sender's calls leave no trace here. */
  function Share(events: seq<Framing.Event>): seq<LocalEvent> {
    if events == [] then []
    else
      var before := events[..|events| - 1];
      Share(before) +
      match events[|events| - 1]
      case Send(_) => []
      case Arrive(count) => [Got(Run(before).transit[..Min(count, |Run(before).transit|)])]
      case Check => [Looked]
  }

  /** Over a fresh connection an address goes through the run of its own stream. */
  lemma {:induction false} StreamIsLocal(l: Local, events: seq<Framing.Event>)
    requires l.link == Some(FRESH)
    ensures LocalRun(l, Share(events))
         == Local(Some(Link(Run(events).buffer, Run(events).readable)), l.delivered + Run(events).delivered)
    decreases |events|
  {
    if events != [] {
      hide LocalRun;
      hide Poll;
      var before := events[..|events| - 1];
      var s, l' := Run(before), LocalRun(l, Share(before));
      StreamIsLocal(l, before);
      match events[|events| - 1]
      case Send(_) =>
        assert Share(events) == Share(before);
      case Arrive(count) =>
        var e := Got(s.transit[..Min(count, |s.transit|)]);
        LocalRunAppend(l, Share(before), [e]);
        LocalRunOne(l', e);
      case Check =>
        LocalRunAppend(l, Share(before), [Looked]);
        LocalRunOne(l', Looked);
        Regroup(l.delivered, s.delivered, Poll(s.buffer, s.readable).delivered);
    }
  }

  /** An address that connects over and over: each connection starts a stream of its own. */
  function Shares(streams: seq<seq<Framing.Event>>): seq<LocalEvent> {
    if streams == [] then []
    else Shares(streams[..|streams| - 1]) + ([Opened] + Share(streams[|streams| - 1]))
  }

  function AllDelivered(streams: seq<seq<Framing.Event>>): seq<seq<ubyte>> {
    if streams == [] then []
    else AllDelivered(streams[..|streams| - 1]) + Run(streams[|streams| - 1]).delivered
  }

  lemma {:induction false} StreamsAreLocal(l: Local, streams: seq<seq<Framing.Event>>)
    ensures LocalRun(l, Shares(streams)).delivered == l.delivered + AllDelivered(streams)
    decreases |streams|
  {
    if streams == [] {
      assert LocalRun(l, []) == l;
    } else {
      hide LocalRun;
      hide Share;
      var before, last := streams[..|streams| - 1], streams[|streams| - 1];
      StreamsAreLocal(l, before);
      var l' := LocalRun(l, Shares(before));
      LocalRunAppend(l, Shares(before), [Opened] + Share(last));
      LocalRunAppend(l', [Opened], Share(last));
      LocalRunOne(l', Opened);
      StreamIsLocal(LocalRun(l', [Opened]), last);
      Regroup(l.delivered, AllDelivered(before), Run(last).delivered);
    }
  }

  /** Among any number of clients, from any state of the interface, whatever an address did before
      and however often it connects after that: each connection delivers the packets of its own
      stream, one after the other, and the non-empty ones are a prefix of the non-empty packets
      its peer sent over that connection. A frame cut off by a new connection leaves no trace. */
  lemma DeliveredIsSent(ns: seq<Net>, es: seq<NetEvent>, a: Addr, past: seq<LocalEvent>,
                        streams: seq<seq<Framing.Event>>)
    requires NetRun(ns, es)
    requires Project(es, a) == past + Shares(streams)
    ensures Under(ns[|es|].delivered, a) == LocalRun(LocalView(ns[0], a), past).delivered + AllDelivered(streams)
    ensures forall i | 0 <= i < |streams| ::
              NonEmpty(Run(streams[i]).delivered) <= NonEmpty(Run(streams[i]).sent)
  {
    NonInterference(ns, es, a);
    LocalRunAppend(LocalView(ns[0], a), past, Shares(streams));
    StreamsAreLocal(LocalRun(LocalView(ns[0], a), past), streams);
    forall i | 0 <= i < |streams| ensures NonEmpty(Run(streams[i]).delivered) <= NonEmpty(Run(streams[i]).sent) {
      Exactness(streams[i]);
    }
  }

  /** The same for the connection a client interface starts with. */
  lemma DeliveredToClient(ns: seq<Net>, es: seq<NetEvent>, server: Addr, events: seq<Framing.Event>)
    requires NetRun(ns, es) && ns[0] == Net(map[server := FRESH], [])
    requires Project(es, server) == Share(events)
    ensures Under(ns[|es|].delivered, server) == Run(events).delivered
    ensures NonEmpty(Under(ns[|es|].delivered, server)) <= NonEmpty(Run(events).sent)
  {
    hide LocalRun;
    hide Project;
    hide Share;
    hide NonEmpty;
    NonInterference(ns, es, server);
    StreamIsLocal(LocalView(ns[0], server), events);
    Exactness(events);
  }

  // ---- Two interfaces ----

  /** The bytes that came in over a connection. */
  function Received(ls: seq<LocalEvent>): seq<ubyte> {
    if ls == [] then []
    else
      var last := ls[|ls| - 1];
      Received(ls[..|ls| - 1]) + if last.Got? then last.bytes else []
  }

  lemma {:induction false} SendAll(ps: seq<Packet>) returns (events: seq<Framing.Event>)
    ensures Share(events) == [] && Run(events) == Stream(EMPTY, [], EncodeAll(ps), ps, [])
  {
    if ps == [] {
      events := [];
    } else {
      var init, last := ps[..|ps| - 1], ps[|ps| - 1];
      var before := SendAll(init);
      events := before + [Send(last)];
      assert events[..|before|] == before;
      EncodeAllAppend(init, last);
      assert ps == init + [last];
    }
  }

  /** What comes in is what the peer wrote, as far as it has come: the connection is a stream. */
  lemma {:induction false} StreamOf(ps: seq<Packet>, ls: seq<LocalEvent>) returns (events: seq<Framing.Event>)
    requires Opened !in ls && Received(ls) <= EncodeAll(ps)
    ensures Share(events) == ls && Run(events).sent == ps
    ensures Run(events).transit == EncodeAll(ps)[|Received(ls)|..]
    decreases |ls|
  {
    hide EncodeAll;
    hide Share;
    hide Run;
    if ls == [] {
      events := SendAll(ps);
    } else {
      var init, last := ls[..|ls| - 1], ls[|ls| - 1];
      assert ls == init + [last];
      var before := StreamOf(ps, init);
      if last.Got? {
        PrefixRest(EncodeAll(ps), Received(init), last.bytes);
        MoreBytes(before, last.bytes);
        events := before + [Arrive(|last.bytes|)];
      } else {
        MoreLooks(before);
        events := before + [Check];
        assert Received(ls) == Received(init);
      }
    }
  }

  lemma MoreBytes(events: seq<Framing.Event>, bytes: seq<ubyte>)
    requires |bytes| <= |Run(events).transit| && Run(events).transit[..|bytes|] == bytes
    ensures var es, s := events + [Arrive(|bytes|)], Run(events);
            && Share(es) == Share(events) + [Got(bytes)]
            && Run(es).sent == s.sent && Run(es).transit == s.transit[|bytes|..]
  {
    assert (events + [Arrive(|bytes|)])[..|events|] == events;
  }

  lemma MoreLooks(events: seq<Framing.Event>)
    ensures var es, s := events + [Check], Run(events);
            Share(es) == Share(events) + [Looked] && Run(es).sent == s.sent && Run(es).transit == s.transit
  {
    hide Poll;
    assert (events + [Check])[..|events|] == events;
  }

  lemma PrefixRest(whole: seq<ubyte>, a: seq<ubyte>, b: seq<ubyte>)
    requires a <= whole && a + b <= whole
    ensures |b| <= |whole[|a|..]| && whole[|a|..][..|b|] == b && whole[|a|..][|b|..] == whole[|a + b|..]
  {
    assert whole[..|a + b|] == a + b;
    assert whole[|a|..][..|b|] == whole[..|a + b|][|a|..];
  }

  /** Nothing is buffered and nothing is on the way only when every frame was delivered. */
  lemma AllArrived(events: seq<Framing.Event>)
    requires Run(events).buffer == EMPTY && Run(events).readable == [] && Run(events).transit == []
    ensures NonEmpty(Run(events).delivered) == NonEmpty(Run(events).sent)
  {
    hide Run;
    hide NonEmpty;
    var s := Run(events);
    var k := RunExact(events);
    EncodeAllFrom(s.sent, k);
    assert s.sent[..|s.sent|] == s.sent;
  }

  /** Two interfaces: what one is delivered over a connection is, but for empty packets, a prefix of
      what the other sent over its end, however the connection cuts up the bytes; it is all of it
      once every byte has come in and the link holds nothing. */
  lemma PeerDelivers(ns: seq<Net>, es: seq<NetEvent>, a: Addr, past: seq<LocalEvent>, ls: seq<LocalEvent>,
                     peer: MeshSocketInterface, h: Handle)
    requires NetRun(ns, es)
    requires Project(es, a) == past + ([Opened] + ls) && Opened !in ls
    requires peer.Valid() && h in peer.outbox && Received(ls) <= peer.outbox[h]
    ensures exists d ::
              && Under(ns[|es|].delivered, a) == LocalRun(LocalView(ns[0], a), past).delivered + d
              && NonEmpty(d) <= NonEmpty(peer.sentOver[h])
              && (Received(ls) == peer.outbox[h] && LocalView(ns[|es|], a).link == Some(FRESH) ==>
                    NonEmpty(d) == NonEmpty(peer.sentOver[h]))
  {
    hide Run;
    hide Under;
    hide LocalRun;
    hide EncodeAll;
    hide NonEmpty;
    hide Received;
    hide Sound;
    var ps := peer.sentOver[h];
    var events := StreamOf(ps, ls);
    var l := LocalRun(LocalView(ns[0], a), past);
    NonInterference(ns, es, a);
    LocalRunAppend(LocalView(ns[0], a), past, [Opened] + ls);
    LocalRunAppend(l, [Opened], ls);
    LocalRunOne(l, Opened);
    StreamIsLocal(LocalRun(l, [Opened]), events);
    Exactness(events);
    if Received(ls) == peer.outbox[h] && LocalView(ns[|es|], a).link == Some(FRESH) {
      AllArrived(events);
    }
  }
}
