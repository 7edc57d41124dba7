/** From an action's name at the caller to the handler on the device and back: the registry as the
    first hello left it, the packet the manager sends, and the device as it is by then. */
module EndToEnd {
  import opened Bytes
  import opened Hello
  import opened CallbackDevice
  import opened Addressing
  import opened PhyDeviceManager
  import Registry
  import Subscriptions
  import R = Requests
  import I = IdealRequests
  import S = RequestSoundness

  /** What a device said of itself in a hello; `beyond` is what followed the packet in memory. */
  datatype Greeting = Greeting(deviceClass: nat, name: Short, attribs: seq<Attrib>, actions: seq<DeviceApiAction>,
                               beyond: seq<ubyte>)

  predicate Fits(g: Greeting) {
    |g.attribs| < 0x100 && Announceable(g.actions)
  }

  function Info(phy: nat, port: nat, g: Greeting): LogDeviceInfo
    requires Fits(g)
  {
    Described(phy, Announcement(port, g.deviceClass, g.name, g.attribs, g.actions, g.beyond))
  }

  /** The first hello that the manager heard from this device, whatever it heard later. */
  ghost predicate FirstHeard(manager: PhyDeviceManager, phy: nat, port: nat, g: Greeting)
    requires Fits(g)
    reads manager
  {
    Registry.FirstHello(Subscriptions.Hellos(manager.devices), phy, port) == Some(Info(phy, port, g))
  }

  /** The name is among the actions of the hello, before any empty name. */
  ghost predicate Offered(g: Greeting, name: CString) {
    exists a :: a in Visible(g.actions) && a.name == name
  }

  /** What the manager knows of the names of a device is what the first hello offered. */
  lemma KnownAsOffered(manager: PhyDeviceManager, phy: nat, port: nat, g: Greeting, name: CString)
    requires manager.Valid() && Fits(g) && FirstHeard(manager, phy, port, g)
    ensures var known := manager.knownDevices;
            && (PhyDeviceManager.Unknown(known, phy, port, name) <==> !Offered(g, name))
            && forall id: nat :: PhyDeviceManager.Announced(known, phy, port, name, id)
                                 ==> id < |g.actions| && g.actions[id].name == name
  {
    hide Described;
    hide Visible;
    hide Registry.Run;
    hide Subscriptions.Run;
    var hs := Subscriptions.Hellos(manager.devices);
    Subscriptions.RegistryOfRun(manager.hasDeviceCallback, manager.devices);
    Registry.RegistryIsHistory(manager.hasDeviceCallback, hs, phy, port);
    VisibleIds(phy, port, g.deviceClass, g.name, g.attribs, g.actions, g.beyond, name);
    var actions := Info(phy, port, g).actions;
    assert forall id: nat ::
        PhyDeviceManager.Announced(manager.knownDevices, phy, port, name, id) <==> KnownAs(actions, name, id);
  }

  /** A set by name, for a device that may have added actions since its first hello: the handler
      called is the one registered last under the name by now, with the caller's bytes, if the
      first hello offered the name; a name added after that hello is never found, and nothing is
      sent for it. */
  method SetByName(manager: PhyDeviceManager, dev: LogicalCallbackDevice, phy: nat, port: nat, ghost g: Greeting,
                   name: CString, buffer: seq<ubyte>, wantStatus: bool, from: nat, handle: Invocation -> R.Status)
    returns (call: Option<Invocation>, status: R.Status)
    requires manager.Valid() && dev.Valid()
    requires Fits(g) && FirstHeard(manager, phy, port, g) && g.actions <= dev.apiActions
    modifies manager
    ensures manager.Valid()
    ensures call.Some? <==> Offered(g, name)
    ensures call.None? ==> manager.sent == old(manager.sent)
    ensures call.Some? ==> call.value == Set(call.value.handlers, name, call.value.kind, buffer, from)
    ensures call.Some? ==> RegisteredLast(dev.added, name, call.value.handlers) && status == handle(call.value)
  {
    hide RegisteredLast;
    hide Offered;
    hide Agrees;
    hide Described;
    hide Announceable;
    hide I.Guarded;
    hide R.Run;
    KnownAsOffered(manager, phy, port, g, name);
    var already := |manager.sent|;
    var reqId, n := manager.ExecuteActionAsyncByName(phy, port, name, buffer, wantStatus);
    if |manager.sent| == already {
      return None, R.ActionNotFound;
    }
    var packet := manager.sent[|manager.sent| - 1];
    call, status := dev.OnActionSet(packet.actionId, packet.payload, from, handle);
  }

  /** A get by name and its reply, in the same way: the entry under the request id then holds the
      bytes of the handler registered last under the name, called with the caller's bytes. On a
      guarded history the entry is this very call's. `status` is whatever the reply's status field
      holds, which the device does not set. */
  method GetByName(manager: PhyDeviceManager, dev: LogicalCallbackDevice, phy: nat, port: nat, ghost g: Greeting,
                   name: CString, buffer: seq<ubyte>, from: nat, status: R.Status, answer: Invocation -> seq<ubyte>)
    returns (call: Option<Invocation>, reqId: ubyte, ghost n: nat)
    requires manager.Valid() && dev.Valid()
    requires Fits(g) && FirstHeard(manager, phy, port, g) && g.actions <= dev.apiActions
    modifies manager
    ensures manager.Valid()
    ensures call.Some? <==> Offered(g, name)
    ensures call.None? ==> manager.sent == old(manager.sent) && manager.requests == old(manager.requests)
    ensures call.Some? ==> call.value == Get(call.value.handlers, name, call.value.kind, buffer, from, reqId)
    ensures call.Some? ==> RegisteredLast(dev.added, name, call.value.handlers)
    ensures call.Some? ==>
              && reqId in manager.actionResponses
              && var r := manager.actionResponses[reqId];
              && !r.isWaiting && r.status == Some(status) && r.payload == answer(call.value)
              && (I.Guarded(manager.hasActionCallback, manager.requests) ==>
                    && r.kind == R.Fetch && r.phy == phy && r.port == port
                    && I.Owner(I.IdealRun(manager.hasActionCallback, manager.requests), reqId) == Some(n))
  {
    hide RegisteredLast;
    hide Offered;
    hide Agrees;
    hide Described;
    hide Announceable;
    hide I.Guarded;
    hide R.Run;
    KnownAsOffered(manager, phy, port, g, name);
    var already := |manager.sent|;
    reqId, n := manager.FetchActionAsyncByName(phy, port, name, buffer);
    if |manager.sent| == already {
      return None, reqId, n;
    }
    var packet := manager.sent[|manager.sent| - 1];
    var replies;
    call, replies := dev.OnActionGet(packet.actionId, packet.payload, from, packet.requestId, answer);
    HandleReply(manager, replies[0], phy, port, status, n);
  }

  /** The reply completes the entry of the call it was sent for. */
  method HandleReply(manager: PhyDeviceManager, reply: Reply, phy: nat, port: nat, status: R.Status,
                     ghost n: nat)
    requires manager.Valid()
    requires manager.Issued(n, R.Request(R.Fetch, false, true, phy, port), reply.requestId)
    modifies manager
    ensures manager.Valid() && manager.sent == old(manager.sent)
    ensures reply.requestId in manager.actionResponses
    ensures var r := manager.actionResponses[reply.requestId];
            && !r.isWaiting && r.status == Some(status) && r.payload == reply.payload
            && (I.Guarded(manager.hasActionCallback, manager.requests) ==>
                  && r.kind == R.Fetch && r.phy == phy && r.port == port
                  && I.Owner(I.IdealRun(manager.hasActionCallback, manager.requests), reply.requestId) == Some(n))
  {
    hide R.Run;
    hide I.Guarded;
    var p := ActionResponse(reply.requestId, status, reply.payload);
    R.RunAppend(manager.hasActionCallback, manager.requests, R.Answer(reply.requestId, status, Some(reply.payload), n));
    manager.HandlePacket(phy, p, n);
    if I.Guarded(manager.hasActionCallback, manager.requests) {
      OwnEntryAnswered(manager.hasActionCallback, manager.requests, n);
    }
  }

  /** On a guarded run the entry under the byte of an outstanding call is its own. */
  lemma OwnEntryAnswered(notify: bool, events: seq<R.Event>, n: nat)
    requires I.Guarded(notify, events) && I.Outstanding(R.Run(notify, events).calls, n)
    ensures var m := R.Run(notify, events);
            && R.Id(n) in m.table
            && var r, q := m.table[R.Id(n)], m.calls[n].request;
            && r.kind == q.kind && r.phy == q.phy && r.port == q.port
            && I.Owner(I.IdealRun(notify, events), R.Id(n)) == Some(n)
  {
    hide R.Run;
    hide I.IdealRun;
    hide I.Guarded;
    I.EntryStaysIffOutstanding(notify, events, n);
    I.Refines(notify, events);
    I.MirrorsOwner(R.Run(notify, events), I.IdealRun(notify, events), R.Id(n));
    var i, j := S.LiveHistory(notify, events, n);
  }
}
