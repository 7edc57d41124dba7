/** The device manager itself: the shared tables, the packet handler, and the calls that issue
    requests and wait for their answers while other threads go on. */
module PhyDeviceManager {
  import opened Bytes
  import opened Hello
  import Addressing
  import Registry
  import Subscriptions
  import R = Requests
  import F = FreshRequests
  import I = IdealRequests
  import S = RequestSoundness

  /** The incoming logical packets, by type. */
  datatype Packet =
    | HelloWorld(hello: Hello.HelloWorld)
    | HelloWorldResponse(hello: Hello.HelloWorld)
    | ActionExecuteResult(requestId: ubyte, status: R.Status)
    | ActionResponse(requestId: ubyte, status: R.Status, payload: seq<ubyte>)
    | SubscriptionDone(id: uint)
    | SubscriptionCallback(id: uint, payload: seq<ubyte>)
    | OtherPacket

  /** The outgoing request packets. */
  datatype Outgoing =
    | ActionExecute(phy: nat, port: nat, requestId: ubyte, actionId: nat, wantStatus: bool, payload: seq<ubyte>)
    | ActionFetch(phy: nat, port: nat, requestId: ubyte, actionId: nat, payload: seq<ubyte>)

  /** What a packet does to the request table. */
  function RequestEvents(p: Packet, cause: nat): seq<R.Event> {
    match p
    case ActionExecuteResult(id, status) => [R.Answer(id, status, None, cause)]
    case ActionResponse(id, status, payload) => [R.Answer(id, status, Some(payload), cause)]
    case _ => []
  }

  /** What a packet does to the registry and the subscriptions. */
  function DeviceEvents(src: nat, p: Packet): seq<Subscriptions.Event> {
    match p
    case HelloWorld(hello) => [Subscriptions.Hello(Registry.Heard(src, hello))]
    case HelloWorldResponse(hello) => [Subscriptions.Hello(Registry.Heard(src, hello))]
    case SubscriptionDone(id) => [Subscriptions.Done(id)]
    case SubscriptionCallback(id, payload) => [Subscriptions.Update(id, payload)]
    case _ => []
  }

  /** A step of some thread other than the one that runs call n. */
  predicate Foreign(e: R.Event, n: nat) {
    (e.Insert? || e.Turn?) ==> e.n != n
  }

  lemma {:induction false} ForeignKeeps(notify: bool, es: seq<R.Event>, k: nat, n: nat)
    requires k <= |es| && n < |R.Run(notify, es[..k]).calls|
    requires forall i | k <= i < |es| :: Foreign(es[i], n)
    ensures n < |R.Run(notify, es).calls| && R.Run(notify, es).calls[n] == R.Run(notify, es[..k]).calls[n]
    decreases |es|
  {
    if k == |es| {
      assert es[..k] == es;
    } else {
      var before := es[..|es| - 1];
      assert before[..k] == es[..k];
      ForeignKeeps(notify, before, k, n);
      ForeignKeepsOne(R.Run(notify, before), es[|es| - 1], n);
    }
  }

  lemma ForeignKeepsOne(m: R.Manager, e: R.Event, n: nat)
    requires n < |m.calls| && Foreign(e, n)
    ensures n < |R.Step(m, e).calls| && R.Step(m, e).calls[n] == m.calls[n]
  {}

  class PhyDeviceManager {
    const hasDeviceCallback: bool
    const hasActionCallback: bool

    var knownDevices: Registry.Known
    var subscriptions: map<uint, Subscriptions.Subscription>
    var subscriptionCounter: uint
    var actionResponses: map<ubyte, R.ActionResponse>
    var actionResponsesCounter: ubyte

    /** The calls of the callbacks and the packets sent. */
    var announced: seq<LogDeviceInfo>
    var actionCallbacks: seq<Option<R.ActionResponse>>
    var updates: seq<(Subscriptions.Subscription, seq<ubyte>)>
    var finished: seq<Subscriptions.Subscription>
    var started: seq<Subscriptions.Subscription>
    var sent: seq<Outgoing>

    /** Microseconds; the code reads it modulo 2^64. */
    var clock: nat

    /** Everything that has happened, in the order in which it took effect. */
    ghost var requests: seq<R.Event>
    ghost var devices: seq<Subscriptions.Event>

    /** The tables are what the two histories make of them. */
    ghost predicate Valid()
      reads this
    {
      RequestsValid() && DevicesValid()
    }

    ghost predicate RequestsValid()
      reads this`actionResponses, this`actionResponsesCounter, this`actionCallbacks, this`requests
    {
      var m := R.Run(hasActionCallback, requests);
      && actionResponses == m.table && actionResponsesCounter == m.counter && actionCallbacks == m.callbacks
      && m.notify == hasActionCallback
    }

    ghost predicate DevicesValid()
      reads this`knownDevices, this`announced, this`subscriptions, this`subscriptionCounter, this`started,
            this`updates, this`finished, this`devices
    {
      var s := Subscriptions.Run(hasDeviceCallback, devices);
      && knownDevices == s.registry.known && announced == s.registry.announced
      && s.registry.notify == hasDeviceCallback
      && subscriptions == s.subs && subscriptionCounter == s.counter && started == s.started
      && finished == s.finished && updates == s.delivered
    }

    constructor (deviceCallback: bool, actionCallback: bool)
      ensures Valid() && requests == [] && devices == [] && sent == []
      ensures hasDeviceCallback == deviceCallback && hasActionCallback == actionCallback
    {
      hasDeviceCallback, hasActionCallback := deviceCallback, actionCallback;
      knownDevices, subscriptions, subscriptionCounter := map[], map[], 0;
      actionResponses, actionResponsesCounter := map[], 0;
      announced, actionCallbacks, updates, finished, started, sent, clock := [], [], [], [], [], [], 0;
      requests, devices := [], [];
    }

    // ---- Packets ----

    /** Each type of packet touches its own tables only. An answer, with or without a payload,
        completes the entry under its id, and then the callback is given that entry; a hello is kept
        if it is the first of its device, and then announced; a DONE tells its subscription and
        renews it; a subscription callback gets the payload. Packets for ids that are not in their
        table change nothing. */
    method HandlePacket(src: nat, p: Packet, ghost cause: nat)
      requires Valid()
      modifies this
      ensures Valid() && sent == old(sent) && clock == old(clock)
      ensures actionResponsesCounter == old(actionResponsesCounter)
      ensures subscriptionCounter == old(subscriptionCounter) && subscriptions == old(subscriptions)
      ensures requests == old(requests) + RequestEvents(p, cause)
      ensures devices == old(devices) + DeviceEvents(src, p)
      ensures match p
              case ActionExecuteResult(id, status) =>
                && actionResponses == (if id !in old(actionResponses) then old(actionResponses)
                                       else old(actionResponses)[id := old(actionResponses)[id].(
                                              isWaiting := false, status := Some(status))])
                && actionCallbacks == (if !hasActionCallback || id !in old(actionResponses) then old(actionCallbacks)
                                       else old(actionCallbacks) + [Some(actionResponses[id])])
              case ActionResponse(id, status, payload) =>
                && actionResponses == (if id !in old(actionResponses) then old(actionResponses)
                                       else old(actionResponses)[id := old(actionResponses)[id].(
                                              isWaiting := false, status := Some(status), payload := payload)])
                && actionCallbacks == (if !hasActionCallback || id !in old(actionResponses) then old(actionCallbacks)
                                       else old(actionCallbacks) + [Some(actionResponses[id])])
              case _ => actionResponses == old(actionResponses) && actionCallbacks == old(actionCallbacks)
      ensures if p.HelloWorld? || p.HelloWorldResponse? then
                var port, info := p.hello.srcAddr, Described(src, p.hello);
                && Registry.LookupLog(knownDevices, src, port)
                   == (if Registry.LookupLog(old(knownDevices), src, port).Some?
                       then Registry.LookupLog(old(knownDevices), src, port) else Some(info))
                && (forall phy, port' | phy != src || port' != port ::
                      Registry.LookupLog(knownDevices, phy, port') == Registry.LookupLog(old(knownDevices), phy, port'))
                && announced == (if hasDeviceCallback && Registry.LookupLog(old(knownDevices), src, port).None?
                                 then old(announced) + [info] else old(announced))
              else knownDevices == old(knownDevices) && announced == old(announced)
      ensures if p.SubscriptionDone? && p.id in old(subscriptions) then
                var sub := old(subscriptions)[p.id];
                && finished == (if sub.doneCallback.Some? then old(finished) + [sub] else old(finished))
                && started == (if sub.isRenew then old(started) + [sub] else old(started))
              else finished == old(finished) && started == old(started)
      ensures updates == if p.SubscriptionCallback? && p.id in old(subscriptions)
                         then old(updates) + [(old(subscriptions)[p.id], p.payload)] else old(updates)
    {
      hide RequestsValid;
      hide DevicesValid;
      hide Registry.LookupLog;
      hide Described;
      match p
      case HelloWorld(hello) => HandleHello(src, hello);
      case HelloWorldResponse(hello) => HandleHello(src, hello);
      case ActionExecuteResult(id, status) => HandleAnswer(id, status, None, cause);
      case ActionResponse(id, status, payload) => HandleAnswer(id, status, Some(payload), cause);
      case SubscriptionDone(id) => HandleDone(id);
      case SubscriptionCallback(id, payload) => HandleUpdate(id, payload);
      case OtherPacket =>
    }

    method HandleDone(id: uint)
      requires Valid()
      modifies this`subscriptions, this`started, this`finished, this`devices
      ensures Valid() && devices == old(devices) + [Subscriptions.Done(id)]
      ensures subscriptions == old(subscriptions)
      ensures if id in subscriptions then
                var sub := subscriptions[id];
                && finished == (if sub.doneCallback.Some? then old(finished) + [sub] else old(finished))
                && started == (if sub.isRenew then old(started) + [sub] else old(started))
              else finished == old(finished) && started == old(started)
    {
      hide RequestsValid;
      hide Subscriptions.Run;
      NoteDevices(Subscriptions.Done(id));
      if id in subscriptions {
        Subscriptions.KeysAreIds(hasDeviceCallback, devices);
        if subscriptions[id].doneCallback.Some? {
          finished := finished + [subscriptions[id]];
        }
        if subscriptions[id].isRenew {
          Begin(subscriptions[id]);
        }
      }
      devices := devices + [Subscriptions.Done(id)];
    }

    method HandleUpdate(id: uint, payload: seq<ubyte>)
      requires Valid()
      modifies this`updates, this`devices
      ensures Valid() && devices == old(devices) + [Subscriptions.Update(id, payload)]
      ensures updates == if id in subscriptions then old(updates) + [(subscriptions[id], payload)] else old(updates)
    {
      hide RequestsValid;
      hide Subscriptions.Run;
      NoteDevices(Subscriptions.Update(id, payload));
      if id in subscriptions {
        updates := updates + [(subscriptions[id], payload)];
      }
      devices := devices + [Subscriptions.Update(id, payload)];
    }

    /** One more event of the devices' history. */
    lemma NoteDevices(e: Subscriptions.Event)
      ensures Subscriptions.Run(hasDeviceCallback, devices + [e])
           == Subscriptions.Step(Subscriptions.Run(hasDeviceCallback, devices), e)
    {
      Subscriptions.RunAppend(hasDeviceCallback, devices, e);
    }

    method HandleHello(src: nat, hello: Hello.HelloWorld)
      requires Valid()
      modifies this`knownDevices, this`announced, this`devices
      ensures Valid() && devices == old(devices) + [Subscriptions.Hello(Registry.Heard(src, hello))]
      ensures var port, info := hello.srcAddr, Described(src, hello);
              && Registry.LookupLog(knownDevices, src, port)
                 == (if Registry.LookupLog(old(knownDevices), src, port).Some?
                     then Registry.LookupLog(old(knownDevices), src, port) else Some(info))
              && (forall phy, port' | phy != src || port' != port ::
                    Registry.LookupLog(knownDevices, phy, port') == Registry.LookupLog(old(knownDevices), phy, port'))
              && announced == (if hasDeviceCallback && Registry.LookupLog(old(knownDevices), src, port).None?
                               then old(announced) + [info] else old(announced))
    {
      hide RequestsValid;
      hide Registry.Step;
      hide Registry.LookupLog;
      hide Described;
      hide Subscriptions.Run;
      NoteDevices(Subscriptions.Hello(Registry.Heard(src, hello)));
      Register(src, hello);
      devices := devices + [Subscriptions.Hello(Registry.Heard(src, hello))];
    }

    method Register(src: nat, hello: Hello.HelloWorld)
      modifies this`knownDevices, this`announced
      ensures Registry.State(knownDevices, hasDeviceCallback, announced)
           == Registry.Step(Registry.State(old(knownDevices), hasDeviceCallback, old(announced)),
               Registry.Heard(src, hello))
      ensures var port, info := hello.srcAddr, Described(src, hello);
              && Registry.LookupLog(knownDevices, src, port)
                 == (if Registry.LookupLog(old(knownDevices), src, port).Some?
                     then Registry.LookupLog(old(knownDevices), src, port) else Some(info))
              && (forall phy, port' | phy != src || port' != port ::
                    Registry.LookupLog(knownDevices, phy, port') == Registry.LookupLog(old(knownDevices), phy, port'))
              && announced == (if hasDeviceCallback && Registry.LookupLog(old(knownDevices), src, port).None?
                               then old(announced) + [info] else old(announced))
    {
      hide Described;
      if src !in knownDevices {
        knownDevices := knownDevices[src := map[]];
      }
      var isNewDevice := false;
      var info, _ := ParseHello(src, hello);
      if hello.srcAddr !in knownDevices[src] {
        isNewDevice := true;
        var logs: map<nat, LogDeviceInfo> := knownDevices[src];
        logs := logs[hello.srcAddr := info];
        knownDevices := knownDevices[src := logs];
      }
      if isNewDevice && hasDeviceCallback {
        announced := announced + [info];
      }
    }

    /** An answer to a request: a result carries a status only, a response a payload too. */
    method HandleAnswer(id: ubyte, status: R.Status, payload: Option<seq<ubyte>>, ghost cause: nat)
      requires Valid()
      modifies this`actionResponses, this`actionCallbacks, this`requests
      ensures Valid() && requests == old(requests) + [R.Answer(id, status, payload, cause)]
      ensures if id in old(actionResponses) then
                var r := old(actionResponses)[id];
                var r' := r.(isWaiting := false, status := Some(status),
                             payload := if payload.Some? then payload.value else r.payload);
                && actionResponses == old(actionResponses)[id := r']
                && actionCallbacks == (if hasActionCallback then old(actionCallbacks) + [Some(r')]
                                       else old(actionCallbacks))
              else actionResponses == old(actionResponses) && actionCallbacks == old(actionCallbacks)
    {
      hide DevicesValid;
      hide R.Run;
      R.RunAppend(hasActionCallback, requests, R.Answer(id, status, payload, cause));
      if id in actionResponses {
        var r := actionResponses[id];
        r := r.(status := Some(status));
        if payload.Some? {
          r := r.(payload := payload.value);
        }
        r := r.(isWaiting := false);
        assert r == R.Answered(actionResponses[id], status, payload);
        actionResponses := actionResponses[id := r];
        if hasActionCallback {
          actionCallbacks := actionCallbacks + [Some(r)];
        }
      }
      requests := requests + [R.Answer(id, status, payload, cause)];
    }

    // ---- Lookups ----

    /** A device is known exactly by the first hello heard from it. */
    method LookupLog(phy: nat, port: nat) returns (r: Option<LogDeviceInfo>)
      requires Valid()
      ensures r == Registry.LookupLog(knownDevices, phy, port)
      ensures r == Registry.FirstHello(Subscriptions.Hellos(devices), phy, port)
    {
      Subscriptions.RegistryOfRun(hasDeviceCallback, devices);
      Registry.RegistryIsHistory(hasDeviceCallback, Subscriptions.Hellos(devices), phy, port);
      if phy !in knownDevices || port !in knownDevices[phy] {
        return None;
      }
      return Some(knownDevices[phy][port]);
    }

    /** Some id under which the device announced the name, if the device is known and did. */
    method LookupAction(phy: nat, port: nat, name: CString) returns (r: Option<nat>)
      requires Valid()
      ensures r.Some? ==> Announced(knownDevices, phy, port, name, r.value)
      ensures r.None? ==> Unknown(knownDevices, phy, port, name)
    {
      var dev := LookupLog(phy, port);
      if dev.None? {
        return None;
      }
      r := Addressing.FindAction(dev.value.actions, name);
    }

    // ---- Requests ----

    /** What a waiting thread may find changed: any steps of other threads, and the time. */
    ghost predicate Later(earlier: seq<R.Event>, n: nat)
      reads this
      requires |earlier| <= |requests|
    {
      && requests[..|earlier|] == earlier
      && forall i | |earlier| <= i < |requests| :: Foreign(requests[i], n)
    }

    /** Other threads run: packets are handled, calls issue, poll and return. Nothing is promised
        about which steps these are, except that they are not steps of call n, and that the clock
        moves on (by less than 2^62 microseconds). */
    method Yield(ghost n: nat)
      requires Valid()
      modifies this
      ensures Valid()
      ensures |old(requests)| <= |requests| && Later(old(requests), n)
      ensures old(devices) <= devices && old(sent) <= sent
      ensures old(clock) < clock < old(clock) + 0x4000_0000_0000_0000
    {
      clock := clock + 1;
    }

    /** Draws an id: the counter is read and incremented in one step. */
    method DrawId(request: R.Request) returns (reqId: ubyte, ghost n: nat)
      requires Valid()
      modifies this`actionResponsesCounter, this`requests
      ensures Valid() && requests == old(requests) + [R.Draw(request)]
      ensures n == |R.Run(hasActionCallback, old(requests)).calls|
      ensures var c := R.Run(hasActionCallback, requests).calls;
              |c| == n + 1 && c[n]
                  == R.Call(request, reqId, if R.Tracked(request) then R.Drawn else R.Returned, None, 0)
    {
      hide DevicesValid;
      hide R.Run;
      n := |R.Run(hasActionCallback, requests).calls|;
      R.RunAppend(hasActionCallback, requests, R.Draw(request));
      reqId := actionResponsesCounter;
      actionResponsesCounter := (actionResponsesCounter + 1) % 0x100;
      requests := requests + [R.Draw(request)];
    }

    /** Emplaces the entry of a drawn call, which keeps an entry that is already there. */
    method InsertEntry(ghost n: nat, reqId: ubyte, request: R.Request)
      requires Valid()
      requires var c := R.Run(hasActionCallback, requests).calls;
               n < |c| && c[n] == R.Call(request, reqId, R.Drawn, None, 0) && R.Tracked(request)
      modifies this`actionResponses, this`requests
      ensures Valid() && requests == old(requests) + [R.Insert(n, clock, clock)]
      ensures var c := R.Run(hasActionCallback, requests).calls;
              n < |c| && c[n] == R.Inserted(R.Call(request, reqId, R.Drawn, None, 0), clock)
      ensures reqId in actionResponses
    {
      hide DevicesValid;
      hide R.Run;
      R.RunAppend(hasActionCallback, requests, R.Insert(n, clock, clock));
      if reqId !in actionResponses {
        actionResponses := actionResponses[reqId :=
          R.ActionResponse(true, reqId, request.kind, request.phy, request.port, None, [], clock, 0)];
      }
      requests := requests + [R.Insert(n, clock, clock)];
    }

    /** Issues an execute; without a status wanted no entry is made. Other threads may run
        between the drawing of the id and the insertion of the entry. */
    method ExecuteActionAsync(phy: nat, port: nat, actionId: nat, buffer: seq<ubyte>, wantStatus: bool, blocking: bool)
      returns (reqId: ubyte, ghost n: nat)
      requires Valid()
      modifies this
      ensures Valid() && |old(requests)| <= |requests| && requests[..|old(requests)|] == old(requests)
      ensures n == |R.Run(hasActionCallback, old(requests)).calls|
      ensures Issued(n, R.Request(R.Execute, blocking, wantStatus, phy, port), reqId)
      ensures InsertedSince(old(requests), n, wantStatus)
      ensures Grew(hasActionCallback, old(actionCallbacks), actionCallbacks)
      ensures SentLast(old(sent), sent, ActionExecute(phy, port, reqId, actionId, wantStatus, buffer))
    {
      hide RequestsValid;
      hide DevicesValid;
      var request := R.Request(R.Execute, blocking, wantStatus, phy, port);
      reqId, n := Issue(request);
      sent := sent + [ActionExecute(phy, port, reqId, actionId, wantStatus, buffer)];
    }

    method FetchActionAsync(phy: nat, port: nat, actionId: nat, buffer: seq<ubyte>, blocking: bool)
      returns (reqId: ubyte, ghost n: nat)
      requires Valid()
      modifies this
      ensures Valid() && |old(requests)| <= |requests| && requests[..|old(requests)|] == old(requests)
      ensures n == |R.Run(hasActionCallback, old(requests)).calls|
      ensures Issued(n, R.Request(R.Fetch, blocking, true, phy, port), reqId)
      ensures InsertedSince(old(requests), n, true)
      ensures Grew(hasActionCallback, old(actionCallbacks), actionCallbacks)
      ensures SentLast(old(sent), sent, ActionFetch(phy, port, reqId, actionId, buffer))
    {
      hide RequestsValid;
      hide DevicesValid;
      var request := R.Request(R.Fetch, blocking, true, phy, port);
      reqId, n := Issue(request);
      sent := sent + [ActionFetch(phy, port, reqId, actionId, buffer)];
    }

    /** The packet was sent after what had been sent before, and nothing after it. */
    static ghost predicate SentLast(before: seq<Outgoing>, now: seq<Outgoing>, p: Outgoing) {
      before < now && now[|now| - 1] == p
    }

    /** The packet was sent after what had been sent before. */
    static ghost predicate SentSince(before: seq<Outgoing>, now: seq<Outgoing>, p: Outgoing) {
      before <= now && p in now[|before|..]
    }

    /** Somebody wants an answer: every fetch, and an execute that asks for its status. */
    static predicate Wanted(request: R.Request) {
      request.kind == R.Fetch || request.wantStatus
    }

    /** Call n was inserted after what had happened before exactly if an answer is wanted. */
    ghost predicate InsertedSince(before: seq<R.Event>, n: nat, wanted: bool)
      reads this`requests
    {
      wanted <==> exists i :: |before| <= i < |requests| && requests[i].Insert? && requests[i].n == n
    }

    /** Call n has been issued and has made no turn yet; if an answer is wanted, the table has an
        entry under its byte. */
    ghost predicate Issued(n: nat, request: R.Request, reqId: ubyte)
      reads this
    {
      var c := R.Run(hasActionCallback, requests).calls;
      && n < |c| && c[n].request == request && c[n].id == reqId == R.Id(n) && c[n].result.None?
      && c[n].phase == (if Wanted(request) && request.blocking then R.Polling else R.Returned)
      && (Wanted(request) ==> c[n].start == clock && reqId in actionResponses)
    }

    lemma CallbacksOfRun()
      requires RequestsValid()
      ensures actionCallbacks == R.Run(hasActionCallback, requests).callbacks
    {}

    /** The calls of the callback so far are still in its log, which stays empty if it is not set. */
    lemma Grown(before: seq<R.Event>, callbacks: seq<Option<R.ActionResponse>>)
      requires RequestsValid() && before <= requests && callbacks == R.Run(hasActionCallback, before).callbacks
      ensures Grew(hasActionCallback, callbacks, actionCallbacks)
    {
      hide R.Run;
      assert requests[..|before|] == before;
      R.CallbacksGrow(hasActionCallback, requests, |before|);
      R.CallbacksGrow(hasActionCallback, before, |before|);
    }

    static ghost predicate Grew(callback: bool, before: seq<Option<R.ActionResponse>>,
                                now: seq<Option<R.ActionResponse>>) {
      before <= now && (!callback ==> now == before)
    }

    /** The callback, if it is set, was last given this; without one there is nothing to give. */
    static ghost predicate ReportedLast(callback: bool, before: seq<Option<R.ActionResponse>>,
                                        now: seq<Option<R.ActionResponse>>, result: Option<R.ActionResponse>) {
      if callback then before < now && now[|now| - 1] == result else now == before
    }

    /** Between its drawing and here, call n was inserted at most at the end. */
    lemma InsertedInTime(before: seq<R.Event>, drawn: seq<R.Event>, yielded: seq<R.Event>, n: nat, request: R.Request)
      requires |drawn| == |before| + 1 && drawn[|before|].Draw? && drawn <= yielded <= requests
      requires forall i | |drawn| <= i < |yielded| :: Foreign(yielded[i], n)
      requires if Wanted(request) then |requests| == |yielded| + 1 && requests[|yielded|].Insert?
                                       && requests[|yielded|].n == n
               else requests == yielded
      ensures InsertedSince(before, n, request.kind == R.Fetch || request.wantStatus)
    {
      forall i | |before| <= i < |yielded| ensures !(requests[i].Insert? && requests[i].n == n) {
        assert requests[i] == yielded[i];
        assert i == |before| ==> yielded[i] == drawn[i];
      }
    }

    method Issue(request: R.Request) returns (reqId: ubyte, ghost n: nat)
      requires Valid()
      modifies this
      ensures Valid() && |old(requests)| <= |requests| && requests[..|old(requests)|] == old(requests)
      ensures n == |R.Run(hasActionCallback, old(requests)).calls|
      ensures Issued(n, request, reqId) && old(sent) <= sent
      ensures InsertedSince(old(requests), n, request.kind == R.Fetch || request.wantStatus)
      ensures Grew(hasActionCallback, old(actionCallbacks), actionCallbacks)
    {
      hide DevicesValid;
      hide InsertedSince;
      hide Grew;
      hide R.Step;
      CallbacksOfRun();
      hide RequestsValid;
      reqId, n := DrawId(request);
      ghost var drawn := requests;
      Yield(n);
      ghost var yielded := requests;
      ForeignKeeps(hasActionCallback, requests, |drawn|, n);
      if R.Tracked(request) {
        InsertEntry(n, reqId, request);
      }
      InsertedInTime(old(requests), drawn, yielded, n, request);
      Grown(old(requests), old(actionCallbacks));
      R.RunSound(hasActionCallback, requests);
    }

    /** The waiting loop of a blocking call, whatever other threads do between its turns. */
    method Await(reqId: ubyte, isExecute: bool, ghost n: nat,
        ghost request: R.Request) returns (result: Option<R.ActionResponse>)
      requires Valid() && Issued(n, request, reqId)
      requires Wanted(request) && request.blocking && isExecute == (request.kind == R.Execute)
      modifies this
      ensures Valid() && |old(requests)| <= |requests| && requests[..|old(requests)|] == old(requests)
      ensures var c := R.Run(hasActionCallback, requests).calls;
              n < |c| && c[n].request == request && c[n].phase == R.Returned && c[n].result == result
      ensures old(sent) <= sent
      ensures ReportedLast(hasActionCallback, old(actionCallbacks), actionCallbacks, result)
    {
      hide DevicesValid;
      hide R.Run;
      CallbacksOfRun();
      hide RequestsValid;
      var startTime := clock;
      result := None;
      while Unsettled(result, isExecute) && U64(clock - startTime) < R.RESPONSE_TIMEOUT
        invariant Valid() && |old(requests)| <= |requests| && requests[..|old(requests)|] == old(requests)
        invariant InLoop(n, request, reqId, result, startTime) && old(sent) <= sent
        invariant startTime <= clock < startTime + 0x8000_0000_0000_0000
        decreases startTime + R.RESPONSE_TIMEOUT - clock
      {
        result := Collect(reqId, result, n, request, startTime);
        ghost var turned := requests;
        Yield(n);
        ForeignKeeps(hasActionCallback, requests, |turned|, n);
      }
      Grown(old(requests), old(actionCallbacks));
      Leave(reqId, result, n, request, startTime);
    }

    /** Call n is in the loop with this local state. */
    ghost predicate InLoop(n: nat, request: R.Request, reqId: ubyte, result: Option<R.ActionResponse>, startTime: nat)
      reads this`requests
    {
      var c := R.Run(hasActionCallback, requests).calls;
      n < |c| && c[n] == R.Call(request, reqId, R.Polling, result, startTime)
    }

    /** The body of the loop: copy and erase the entry if it has been answered. */
    method Collect(reqId: ubyte, before: Option<R.ActionResponse>, ghost n: nat, ghost request: R.Request,
        ghost startTime: nat)
      returns (result: Option<R.ActionResponse>)
      requires Valid() && InLoop(n, request, reqId, before, startTime)
      requires Unsettled(before, request.kind == R.Execute) && U64(clock - startTime) < R.RESPONSE_TIMEOUT
      modifies this`actionResponses, this`requests
      ensures Valid() && requests == old(requests) + [R.Turn(n, clock)]
      ensures InLoop(n, request, reqId, result, startTime)
    {
      hide DevicesValid;
      hide R.Run;
      R.RunAppend(hasActionCallback, requests, R.Turn(n, clock));
      result := before;
      if reqId in actionResponses && !actionResponses[reqId].isWaiting {
        result := Some(actionResponses[reqId].(timeReceived := clock));
        actionResponses := actionResponses - {reqId};
      }
      requests := requests + [R.Turn(n, clock)];
    }

    /** After the loop: report what was collected, which may be nothing. */
    method Leave(reqId: ubyte, result: Option<R.ActionResponse>, ghost n: nat, ghost request: R.Request,
        ghost startTime: nat)
      requires Valid() && InLoop(n, request, reqId, result, startTime)
      requires !(Unsettled(result, request.kind == R.Execute) && U64(clock - startTime) < R.RESPONSE_TIMEOUT)
      modifies this`actionCallbacks, this`requests
      ensures Valid() && requests == old(requests) + [R.Turn(n, clock)]
      ensures var c := R.Run(hasActionCallback, requests).calls;
              n < |c| && c[n] == R.Call(request, reqId, R.Returned, result, startTime)
      ensures actionCallbacks == if hasActionCallback then old(actionCallbacks) + [result] else old(actionCallbacks)
    {
      hide DevicesValid;
      hide R.Run;
      R.RunAppend(hasActionCallback, requests, R.Turn(n, clock));
      if hasActionCallback {
        actionCallbacks := actionCallbacks + [result];
      }
      requests := requests + [R.Turn(n, clock)];
    }

    /** An execute waits on while its status is TIMEOUT, a fetch while it has nothing. */
    predicate Unsettled(result: Option<R.ActionResponse>, isExecute: bool) {
      result.None? || (isExecute && result.value.status == Some(R.Timeout))
    }

    /** What is known of the answer r that call n collected. If no live id was reused: it was handled
        under the call's byte, after its insertion and before its collecting turn, which took the
        byte out of the table. On a guarded history the entry is the call's own as well, and the
        answer was sent for this very call if and only if the call it was sent for was still
        outstanding; with an honest network it always was, and r is exactly what it said. */
    ghost predicate AnswerTo(n: nat, r: R.ActionResponse, q: R.Request)
      reads this`requests
    {
      && (F.NoReuse(hasActionCallback, requests) ==>
            exists i, j, k :: F.Completed(hasActionCallback, requests, n, r, i, j, k))
      && (I.Guarded(hasActionCallback, requests) ==>
            exists i, j, k ::
              && S.Fulfilled(hasActionCallback, requests, n, r, q, i, j, k)
              && (requests[j].cause == n
                  <==> S.Reaches(R.Run(hasActionCallback, requests[..j]), requests[j])))
      && (I.Guarded(hasActionCallback, requests) && F.Honest(hasActionCallback, requests) ==>
            exists j :: S.OwnCause(requests, n, r, j))
    }

    lemma Attribute(n: nat)
      requires var c := R.Run(hasActionCallback, requests).calls; n < |c| && c[n].result.Some?
      ensures var c := R.Run(hasActionCallback, requests).calls[n];
              AnswerTo(n, c.result.value, c.request)
    {
      hide R.Run;
      hide F.NoReuse;
      hide F.Completed;
      hide I.Guarded;
      hide F.Honest;
      hide S.OwnCause;
      hide S.Reaches;
      if F.NoReuse(hasActionCallback, requests) {
        var i, j, k := F.CompletedHistory(hasActionCallback, requests, n);
      }
      if I.Guarded(hasActionCallback, requests) {
        S.OwnAnswerIffReaches(hasActionCallback, requests, n);
        if F.Honest(hasActionCallback, requests) {
          S.AnsweredByOwnCause(hasActionCallback, requests, n);
        }
      }
    }

    /** Sends its packet under the byte of call n. Without a wanted status it returns UNKNOWN at
        once; otherwise TIMEOUT or the status of an answer, of which `AnswerTo` says what is known. */
    method ExecuteAction(phy: nat, port: nat, actionId: nat, buffer: seq<ubyte>, wantStatus: bool)
      returns (status: R.Status, ghost n: nat)
      requires Valid()
      modifies this
      ensures Valid() && |old(requests)| <= |requests| && requests[..|old(requests)|] == old(requests)
      ensures n == |R.Run(hasActionCallback, old(requests)).calls|
      ensures SentSince(old(sent), sent, ActionExecute(phy, port, R.Id(n), actionId, wantStatus, buffer))
      ensures InsertedSince(old(requests), n, wantStatus)
      ensures !wantStatus ==>
                var c := R.Run(hasActionCallback, requests).calls;
                status == R.Unknown && n < |c| && c[n].phase == R.Returned && c[n].result.None?
      ensures wantStatus ==> exists result ::
                && ReportedLast(hasActionCallback, old(actionCallbacks), actionCallbacks, result)
                && StatusOf(n, phy, port, result, status)
    {
      hide RequestsValid;
      hide DevicesValid;
      hide AnswerTo;
      var reqId;
      reqId, n := ExecuteActionAsync(phy, port, actionId, buffer, wantStatus, true);
      if !wantStatus {
        return R.Unknown, n;
      }
      ghost var issued := requests;
      var result := Await(reqId, true, n, R.Request(R.Execute, true, true, phy, port));
      assert requests[..|issued|] == issued;
      R.RunSound(hasActionCallback, requests);
      status := if result.Some? && result.value.status.Some? then result.value.status.value else R.Timeout;
      if result.Some? {
        Attribute(n);
      }
      assert StatusOf(n, phy, port, result, status);
    }

    /** The status of call n's result; TIMEOUT if there is none. */
    ghost predicate StatusOf(n: nat, phy: nat, port: nat, result: Option<R.ActionResponse>, status: R.Status)
      reads this`requests
    {
      && (result.None? ==> status == R.Timeout)
      && (result.Some? ==>
            && result.value.status == Some(status)
            && AnswerTo(n, result.value, R.Request(R.Execute, true, true, phy, port)))
    }

    /** Sends its packet under the byte of call n, and returns nothing or an answer, of which the
        same is known. */
    method FetchAction(phy: nat, port: nat, actionId: nat, buffer: seq<ubyte>)
      returns (result: Option<R.ActionResponse>, ghost n: nat)
      requires Valid()
      modifies this
      ensures Valid() && |old(requests)| <= |requests| && requests[..|old(requests)|] == old(requests)
      ensures n == |R.Run(hasActionCallback, old(requests)).calls|
      ensures SentSince(old(sent), sent, ActionFetch(phy, port, R.Id(n), actionId, buffer))
      ensures InsertedSince(old(requests), n, true)
      ensures ReportedLast(hasActionCallback, old(actionCallbacks), actionCallbacks, result)
      ensures result.Some? ==> AnswerTo(n, result.value, R.Request(R.Fetch, true, true, phy, port))
    {
      hide RequestsValid;
      hide DevicesValid;
      hide AnswerTo;
      var reqId;
      reqId, n := FetchActionAsync(phy, port, actionId, buffer, true);
      ghost var issued := requests;
      result := Await(reqId, false, n, R.Request(R.Fetch, true, true, phy, port));
      assert requests[..|issued|] == issued;
      if result.Some? {
        Attribute(n);
      }
    }

    // ---- By name ----

    /** The report of a request that could not be issued. */
    static predicate Refusal(r: R.ActionResponse, reqId: ubyte, phy: nat, port: nat) {
      && r.reqId == reqId && r.status == Some(R.Unknown) && !r.isWaiting
      && r.kind == R.Execute && r.phy == phy && r.port == port
    }

    /** An asynchronous execute of an unknown action uses up an id and reports UNKNOWN itself; one
        of a known action is issued as call n under an id the device announced. */
    method ExecuteActionAsyncByName(phy: nat, port: nat, name: CString, buffer: seq<ubyte>, wantStatus: bool)
      returns (reqId: ubyte, ghost n: nat)
      requires Valid()
      modifies this
      ensures Valid() && |old(requests)| <= |requests| && requests[..|old(requests)|] == old(requests)
      ensures n == |R.Run(hasActionCallback, old(requests)).calls|
      ensures Unknown(old(knownDevices), phy, port, name) ==>
                && requests == old(requests) + [R.Refuse(phy, port, clock)] && sent == old(sent)
                && reqId == old(actionResponsesCounter) && actionResponses == old(actionResponses)
      ensures Unknown(old(knownDevices), phy, port, name) && hasActionCallback ==>
                exists r :: actionCallbacks == old(actionCallbacks) + [Some(r)] && Refusal(r, reqId, phy, port)
      ensures !Unknown(old(knownDevices), phy, port, name) ==>
                && Issued(n, R.Request(R.Execute, false, wantStatus, phy, port), reqId)
                && InsertedSince(old(requests), n, wantStatus)
                && exists id: nat :: Announced(old(knownDevices), phy, port, name, id)
                     && SentLast(old(sent), sent, ActionExecute(phy, port, reqId, id, wantStatus, buffer))
    {
      hide RequestsValid;
      hide DevicesValid;
      var action := LookupAction(phy, port, name);
      if action.None? {
        n := |R.Run(hasActionCallback, requests).calls|;
        reqId := Refuse(phy, port);
      } else {
        reqId, n := ExecuteActionAsync(phy, port, action.value, buffer, wantStatus, false);
      }
    }

    method Refuse(phy: nat, port: nat) returns (reqId: ubyte)
      requires Valid()
      modifies this`actionResponsesCounter, this`actionCallbacks, this`requests
      ensures Valid() && requests == old(requests) + [R.Refuse(phy, port, clock)]
      ensures reqId == old(actionResponsesCounter)
      ensures hasActionCallback ==>
                exists r :: actionCallbacks == old(actionCallbacks) + [Some(r)] && Refusal(r, reqId, phy, port)
    {
      hide DevicesValid;
      hide R.Run;
      R.RunAppend(hasActionCallback, requests, R.Refuse(phy, port, clock));
      reqId := actionResponsesCounter;
      actionResponsesCounter := (actionResponsesCounter + 1) % 0x100;
      if hasActionCallback {
        var r := R.ActionResponse(false, reqId, R.Execute, phy, port, Some(R.Unknown), [], clock, 0);
        actionCallbacks := actionCallbacks + [Some(r)];
      }
      requests := requests + [R.Refuse(phy, port, clock)];
    }

    /** The device known there announced the name under this id. */
    static ghost predicate Announced(known: Registry.Known, phy: nat, port: nat, name: CString, id: nat) {
      var dev := Registry.LookupLog(known, phy, port);
      dev.Some? && Addressing.KnownAs(dev.value.actions, name, id)
    }

    /** No device is known there, or it did not announce the name. */
    static ghost predicate Unknown(known: Registry.Known, phy: nat, port: nat, name: CString) {
      forall id: nat :: !Announced(known, phy, port, name, id)
    }

    /** A blocking execute of an unknown action touches nothing; one of a known action is call n,
        and sends its packet under an id the device announced. */
    method ExecuteActionByName(phy: nat, port: nat, name: CString, buffer: seq<ubyte>, wantStatus: bool)
      returns (status: R.Status, ghost n: nat)
      requires Valid()
      modifies this
      ensures Valid() && |old(requests)| <= |requests| && requests[..|old(requests)|] == old(requests)
      ensures n == |R.Run(hasActionCallback, old(requests)).calls|
      ensures Unknown(old(knownDevices), phy, port, name) ==>
                status == R.ActionNotFound && requests == old(requests) && sent == old(sent)
      ensures !Unknown(old(knownDevices), phy, port, name) ==>
                exists id: nat :: Announced(old(knownDevices), phy, port, name, id)
                  && SentSince(old(sent), sent, ActionExecute(phy, port, R.Id(n), id, wantStatus, buffer))
      ensures !Unknown(old(knownDevices), phy, port, name) ==> InsertedSince(old(requests), n, wantStatus)
      ensures !Unknown(old(knownDevices), phy, port, name) && !wantStatus ==> status == R.Unknown
      ensures !Unknown(old(knownDevices), phy, port, name) && wantStatus ==> exists result ::
                && ReportedLast(hasActionCallback, old(actionCallbacks), actionCallbacks, result)
                && StatusOf(n, phy, port, result, status)
    {
      hide RequestsValid;
      hide DevicesValid;
      hide AnswerTo;
      n := |R.Run(hasActionCallback, requests).calls|;
      var action := LookupAction(phy, port, name);
      if action.None? {
        return R.ActionNotFound, n;
      }
      status, n := ExecuteAction(phy, port, action.value, buffer, wantStatus);
    }

    /** An asynchronous fetch of an unknown action touches nothing and returns 0, which is also
        a real request id; one of a known action is issued as call n. */
    method FetchActionAsyncByName(phy: nat, port: nat, name: CString, buffer: seq<ubyte>)
      returns (reqId: ubyte, ghost n: nat)
      requires Valid()
      modifies this
      ensures Valid() && |old(requests)| <= |requests| && requests[..|old(requests)|] == old(requests)
      ensures n == |R.Run(hasActionCallback, old(requests)).calls|
      ensures Unknown(old(knownDevices), phy, port, name) ==>
                reqId == 0 && requests == old(requests) && sent == old(sent)
      ensures !Unknown(old(knownDevices), phy, port, name) ==>
                && Issued(n, R.Request(R.Fetch, false, true, phy, port), reqId)
                && InsertedSince(old(requests), n, true)
                && exists id: nat :: Announced(old(knownDevices), phy, port, name, id)
                     && SentLast(old(sent), sent, ActionFetch(phy, port, reqId, id, buffer))
    {
      hide RequestsValid;
      hide DevicesValid;
      n := |R.Run(hasActionCallback, requests).calls|;
      var action := LookupAction(phy, port, name);
      if action.None? {
        return 0, n;
      }
      reqId, n := FetchActionAsync(phy, port, action.value, buffer, false);
    }

    /** A fetch of an unknown action touches nothing and returns nothing; one of a known action is
        call n, and sends its packet under an id the device announced. */
    method FetchActionByName(phy: nat, port: nat, name: CString, buffer: seq<ubyte>)
      returns (result: Option<R.ActionResponse>, ghost n: nat)
      requires Valid()
      modifies this
      ensures Valid() && |old(requests)| <= |requests| && requests[..|old(requests)|] == old(requests)
      ensures n == |R.Run(hasActionCallback, old(requests)).calls|
      ensures Unknown(old(knownDevices), phy, port, name) ==>
                result == None && requests == old(requests) && sent == old(sent)
      ensures !Unknown(old(knownDevices), phy, port, name) ==>
                exists id: nat :: Announced(old(knownDevices), phy, port, name, id)
                  && SentSince(old(sent), sent, ActionFetch(phy, port, R.Id(n), id, buffer))
      ensures !Unknown(old(knownDevices), phy, port, name) ==>
                ReportedLast(hasActionCallback, old(actionCallbacks), actionCallbacks, result)
      ensures result.Some? ==> AnswerTo(n, result.value, R.Request(R.Fetch, true, true, phy, port))
    {
      hide RequestsValid;
      hide DevicesValid;
      hide AnswerTo;
      n := |R.Run(hasActionCallback, requests).calls|;
      var action := LookupAction(phy, port, name);
      if action.None? {
        return None, n;
      }
      result, n := FetchAction(phy, port, action.value, buffer);
    }

    // ---- Subscriptions ----

    /** Emplaces the entry, which keeps one that is there, and sends a START packet. */
    method Begin(sub: Subscriptions.Subscription)
      modifies this`subscriptions, this`started
      ensures subscriptions
                == if sub.id in old(subscriptions) then old(subscriptions) else old(subscriptions)[sub.id := sub]
      ensures started == old(started) + [sub]
    {
      if sub.id !in subscriptions {
        subscriptions := subscriptions[sub.id := sub];
      }
      started := started + [sub];
    }

    /** A subscription with ready-made data. `subscribe_action` asserts that it has a device. */
    method SubmitSubscription(sub: Subscriptions.Subscription)
      requires Valid() && Registry.LookupLog(knownDevices, sub.phy, sub.port).Some?
      modifies this`subscriptions, this`started, this`devices
      ensures Valid() && devices == old(devices) + [Subscriptions.Submit(sub)]
      ensures started == old(started) + [sub]
      ensures subscriptions
                == if sub.id in old(subscriptions) then old(subscriptions) else old(subscriptions)[sub.id := sub]
    {
      hide RequestsValid;
      hide Subscriptions.Run;
      NoteDevices(Subscriptions.Submit(sub));
      Begin(sub);
      devices := devices + [Subscriptions.Submit(sub)];
    }

    /** The done callback asked for is not passed on. */
    method SubscribeAction(phy: nat, port: nat, actionId: nat, duration: nat, period: nat, callback: nat,
                           doneCallback: Option<nat>, isRenew: bool)
      requires Valid()
      modifies this`subscriptions, this`subscriptionCounter, this`started, this`devices
      ensures Valid()
      ensures devices == old(devices) + [Subscriptions.Subscribe(phy, port, actionId, duration, period, isRenew,
                                                                 callback, doneCallback)]
      ensures Registry.LookupLog(knownDevices, phy, port).None? ==>
                started == old(started) && subscriptions == old(subscriptions)
      ensures Registry.LookupLog(knownDevices, phy, port).Some? ==>
                var id := old(subscriptionCounter);
                var p := Subscriptions.Subscription(id, phy, port, actionId, duration, period, isRenew, callback, None);
                && started == old(started) + [p]
                && subscriptions == if id in old(subscriptions) then old(subscriptions) else old(subscriptions)[id := p]
    {
      hide RequestsValid;
      hide Subscriptions.Run;
      hide Registry.Step;
      ghost var e := Subscriptions.Subscribe(phy, port, actionId, duration, period, isRenew, callback, doneCallback);
      NoteDevices(e);
      var dev := LookupLog(phy, port);
      var id := subscriptionCounter;
      subscriptionCounter := Subscriptions.Next(subscriptionCounter);
      if dev.Some? {
        Begin(Subscriptions.Subscription(id, phy, port, actionId, duration, period, isRenew, callback, None));
      }
      devices := devices + [e];
    }

    /** A subscription to an unknown action does not even move the counter. */
    method SubscribeActionByName(phy: nat, port: nat, name: CString, duration: nat, period: nat, callback: nat,
                                 doneCallback: Option<nat>, isRenew: bool)
      requires Valid()
      modifies this`subscriptions, this`subscriptionCounter, this`started, this`devices
      ensures Valid()
      ensures Unknown(knownDevices, phy, port, name) ==> devices == old(devices)
      ensures !Unknown(knownDevices, phy, port, name) ==>
                exists id: nat :: Announced(knownDevices, phy, port, name, id)
                  && devices == old(devices) + [Subscriptions.Subscribe(phy, port, id, duration, period, isRenew,
                                                                        callback, doneCallback)]
    {
      hide RequestsValid;
      hide DevicesValid;
      var action := LookupAction(phy, port, name);
      if action.Some? {
        SubscribeAction(phy, port, action.value, duration, period, callback, doneCallback, isRenew);
      }
    }
  }
}
