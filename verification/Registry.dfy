/** The registry of devices, filled by hello packets. */
module Registry {
  import opened Bytes
  import opened Hello

  /** A hello and the physical address it came from. */
  datatype Heard = Heard(phy: nat, hello: HelloWorld)

  type Known = map<nat, map<nat, LogDeviceInfo>>

  /** `announced` are the calls of the new-device callback. */
  datatype State = State(known: Known, notify: bool, announced: seq<LogDeviceInfo>)

  function Step(s: State, h: Heard): State {
    var known := if h.phy in s.known then s.known else s.known[h.phy := map[]];
    var info := Described(h.phy, h.hello);
    var logs := known[h.phy];
    if h.hello.srcAddr in logs then s.(known := known)
    else State(known[h.phy := logs[h.hello.srcAddr := info]], s.notify,
               if s.notify then s.announced + [info] else s.announced)
  }

  function Run(notify: bool, hs: seq<Heard>): State {
    if hs == [] then State(map[], notify, []) else Step(Run(notify, hs[..|hs| - 1]), hs[|hs| - 1])
  }

  function LookupLog(known: Known, phy: nat, port: nat): Option<LogDeviceInfo> {
    if phy in known && port in known[phy] then Some(known[phy][port]) else None
  }

  // ---- The history the registry must agree with ----

  /** The first hello heard from this device. */
  function FirstHello(hs: seq<Heard>, phy: nat, port: nat): Option<LogDeviceInfo> {
    if hs == [] then None
    else if hs[0].phy == phy && hs[0].hello.srcAddr == port then Some(Described(phy, hs[0].hello))
    else FirstHello(hs[1..], phy, port)
  }

  predicate SameDevice(a: Heard, b: Heard) {
    a.phy == b.phy && a.hello.srcAddr == b.hello.srcAddr
  }

  /** Hello i is the first of its device. */
  ghost predicate IsFirst(hs: seq<Heard>, i: int) {
    0 <= i < |hs| && forall j | 0 <= j < i :: !SameDevice(hs[j], hs[i])
  }

  /** The devices in the order in which they were first heard. */
  ghost function FirstSeen(hs: seq<Heard>): seq<LogDeviceInfo> {
    if hs == [] then []
    else
      var last := |hs| - 1;
      FirstSeen(hs[..last]) + if IsFirst(hs, last) then [Described(hs[last].phy, hs[last].hello)] else []
  }

  lemma {:induction false} FirstHelloAppend(hs: seq<Heard>, h: Heard, phy: nat, port: nat)
    ensures FirstHello(hs + [h], phy, port) ==
            if FirstHello(hs, phy, port).Some? then FirstHello(hs, phy, port)
            else if h.phy == phy && h.hello.srcAddr == port then Some(Described(phy, h.hello)) else None
  {
    hide Described;
    if hs == [] {
      assert FirstHello(([h])[1..], phy, port) == None;
    } else {
      FirstHelloAppend(hs[1..], h, phy, port);
      assert (hs + [h])[1..] == hs[1..] + [h];
    }
  }

  lemma {:induction false} FirstHelloIffHeard(hs: seq<Heard>, phy: nat, port: nat)
    ensures FirstHello(hs, phy, port).Some? <==> HeardFrom(hs, phy, port)
  {
    hide Described;
    if hs != [] {
      FirstHelloIffHeard(hs[1..], phy, port);
      if HeardFrom(hs[1..], phy, port) {
        var i :| 0 <= i < |hs[1..]| && hs[1..][i].phy == phy && hs[1..][i].hello.srcAddr == port;
        assert hs[i + 1] == hs[1..][i];
      }
      if HeardFrom(hs, phy, port) {
        var i :| 0 <= i < |hs| && hs[i].phy == phy && hs[i].hello.srcAddr == port;
        assert i > 0 ==> hs[1..][i - 1] == hs[i];
      }
    }
  }

  /** A lookup finds exactly the first hello of the device; later ones change nothing. */
  lemma {:induction false} RegistryIsHistory(notify: bool, hs: seq<Heard>, phy: nat, port: nat)
    ensures LookupLog(Run(notify, hs).known, phy, port) == FirstHello(hs, phy, port)
    ensures FirstHello(hs, phy, port).Some? <==> HeardFrom(hs, phy, port)
    decreases |hs|
  {
    hide Described;
    if hs != [] {
      var before, h := hs[..|hs| - 1], hs[|hs| - 1];
      RegistryIsHistory(notify, before, phy, port);
      FirstHelloAppend(before, h, phy, port);
      assert hs == before + [h];
    }
    FirstHelloIffHeard(hs, phy, port);
  }

  /** A callback that is always set is called once for each device heard from, in the order in
      which they were first heard; one that is not set is never called. */
  lemma {:induction false} AnnouncedOnce(notify: bool, hs: seq<Heard>)
    ensures Run(notify, hs).announced == if notify then FirstSeen(hs) else []
    ensures Run(notify, hs).notify == notify
    decreases |hs|
  {
    hide Described;
    if hs != [] {
      var before, h := hs[..|hs| - 1], hs[|hs| - 1];
      AnnouncedOnce(notify, before);
      RegistryIsHistory(notify, before, h.phy, h.hello.srcAddr);
      assert forall j | 0 <= j < |before| :: hs[j] == before[j];
    }
  }

  /** This device was heard from. */
  ghost predicate HeardFrom(hs: seq<Heard>, phy: nat, port: nat) {
    exists i :: 0 <= i < |hs| && hs[i].phy == phy && hs[i].hello.srcAddr == port
  }

  /** No two announced devices are the same, and each was heard from. */
  lemma {:induction false} FirstSeenDistinct(hs: seq<Heard>)
    ensures forall i, j | 0 <= i < j < |FirstSeen(hs)| ::
              FirstSeen(hs)[i].phy != FirstSeen(hs)[j].phy || FirstSeen(hs)[i].log != FirstSeen(hs)[j].log
    ensures forall i | 0 <= i < |FirstSeen(hs)| :: HeardFrom(hs, FirstSeen(hs)[i].phy, FirstSeen(hs)[i].log)
    decreases |hs|
  {
    if hs != [] {
      hide Attribs;
      hide Actions;
      hide Slice;
      var before, last := hs[..|hs| - 1], |hs| - 1;
      FirstSeenDistinct(before);
      var l := FirstSeen(before);
      forall i | 0 <= i < |l|
        ensures HeardFrom(hs, l[i].phy, l[i].log)
        ensures IsFirst(hs, last) ==> l[i].phy != hs[last].phy || l[i].log != hs[last].hello.srcAddr
      {
        assert HeardFrom(before, l[i].phy, l[i].log);
        var k :| 0 <= k < |before| && before[k].phy == l[i].phy && before[k].hello.srcAddr == l[i].log;
        assert hs[k] == before[k];
        assert IsFirst(hs, last) ==> !SameDevice(hs[k], hs[last]);
      }
      assert HeardFrom(hs, hs[last].phy, hs[last].hello.srcAddr);
    }
  }

  lemma LookupKept(s: State, h: Heard, phy: nat, port: nat)
    requires LookupLog(s.known, phy, port).Some?
    ensures LookupLog(Step(s, h).known, phy, port) == LookupLog(s.known, phy, port)
  {
    hide Described;
  }

  /** What is registered stays as it is, whatever is heard later. */
  lemma {:induction false} NothingOverwritten(notify: bool, hs: seq<Heard>, k: nat, phy: nat, port: nat)
    requires k <= |hs| && LookupLog(Run(notify, hs[..k]).known, phy, port).Some?
    ensures LookupLog(Run(notify, hs).known, phy, port) == LookupLog(Run(notify, hs[..k]).known, phy, port)
    decreases |hs|
  {
    hide Step;
    if k == |hs| {
      assert hs[..k] == hs;
    } else {
      var before := hs[..|hs| - 1];
      assert before[..k] == hs[..k];
      NothingOverwritten(notify, before, k, phy, port);
      LookupKept(Run(notify, before), hs[|hs| - 1], phy, port);
    }
  }
}
