/** From an action's name on one machine to its handler on another: the device announces its
    actions, the manager parses the announcement and looks the name up, and the id it sends is
    dispatched by the device. */
module Addressing {
  import opened Bytes
  import opened Hello
  import opened CallbackDevice
  import R = Requests

  /** The ids under which an action map knows a name. */
  ghost predicate KnownAs(actions: map<nat, DeviceApiAction>, name: CString, id: nat) {
    id in actions && actions[id].name == name
  }

  /** The walk over a device's action map, in an unspecified order. */
  method FindAction(actions: map<nat, DeviceApiAction>, name: CString) returns (r: Option<nat>)
    ensures r.Some? ==> KnownAs(actions, name, r.value)
    ensures r.None? ==> forall id: nat :: !KnownAs(actions, name, id)
  {
    var todo := actions.Keys;
    while todo != {}
      invariant todo <= actions.Keys
      invariant forall id: nat | id in actions && id !in todo :: actions[id].name != name
    {
      var id :| id in todo;
      if actions[id].name == name {
        return Some(id);
      }
      todo := todo - {id};
    }
    return None;
  }

  /** Every action fits in the announcement. */
  predicate Announceable(actions: seq<DeviceApiAction>) {
    && |actions| < 0x100
    && forall a | a in actions :: |a.name| < 0x100
  }

  /** What a device with these actions announces. */
  function Announcement(port: nat, deviceClass: nat, name: Short, attribs: seq<Attrib>, actions: seq<DeviceApiAction>,
                        beyond: seq<ubyte>): HelloWorld
    requires |attribs| < 0x100 && Announceable(actions)
  {
    Announce(port, deviceClass, name, attribs, actions, beyond)
  }

  /** The parsed map knows a name exactly under the positions it has in the device's vector
      before the first empty name. */
  lemma ParsedIds(phy: nat, port: nat, deviceClass: nat, devName: Short, attribs: seq<Attrib>,
                  actions: seq<DeviceApiAction>, beyond: seq<ubyte>, name: CString, id: nat)
    requires |attribs| < 0x100 && Announceable(actions)
    ensures var info := Described(phy, Announcement(port, deviceClass, devName, attribs, actions, beyond));
            KnownAs(info.actions, name, id) <==> id < |Visible(actions)| && actions[id].name == name
  {
    hide Described;
    hide Visible;
    HelloRoundTrip(phy, port, deviceClass, devName, attribs, actions, beyond);
  }

  /** From a name to the handlers, for every device whose action names can be announced and every
      name: the name is found exactly when the device lists it before any empty name, the handler
      called is the one registered last under it, whatever order the tables are walked in, and the
      id is the device's own id for the name whenever the name was listed once. A name first added
      at or beyond the announced count is never found; a device with 256 actions announces none. */
  method InvokeByName(dev: LogicalCallbackDevice, phy: nat, port: nat, deviceClass: nat, devName: Short,
                      attribs: seq<Attrib>, beyond: seq<ubyte>, name: CString, data: seq<ubyte>, addr: nat,
                      handle: Invocation -> R.Status)
    returns (id: Option<nat>, own: nat, call: Option<Invocation>, status: R.Status)
    requires dev.Valid()
    requires |attribs| < 0x100 && Announceable(Listed(dev.apiActions))
    ensures id.Some? <==> exists a :: a in Visible(Listed(dev.apiActions)) && a.name == name
    ensures id.Some? <==> call.Some?
    ensures call.Some? ==> call.value.Set? && call.value.name == name && call.value.data == data
    ensures call.Some? ==> RegisteredLast(dev.added, name, call.value.handlers) && status == handle(call.value)
    ensures (forall a | a in Listed(dev.apiActions) :: a.name != name) ==> id.None?
    ensures (forall a | a in dev.apiActions :: a.name != name) ==> id.None? && own == 254
    ensures id.Some? && Once(Visible(Listed(dev.apiActions)), name) ==> id.value == own
  {
    hide Agrees;
    hide RegisteredLast;
    hide Described;
    hide Announceable;
    var listed := Listed(dev.apiActions);
    var hello := Announcement(port, deviceClass, devName, attribs, listed, beyond);
    var info, _ := ParseHello(phy, hello);
    id := FindAction(info.actions, name);
    own := dev.GetActionId(name + [NUL], |name| + 1);
    VisibleIds(phy, port, deviceClass, devName, attribs, listed, beyond, name);
    forall a: DeviceApiAction ensures Matches(a, name + [NUL], |name| + 1) <==> a.name == name {
      MatchesName(a, name);
    }
    call, status := None, R.ActionNotFound;
    if id.Some? {
      call, status := dev.OnActionSet(id.value, data, addr, handle);
    }
  }

  /** The parsed map knows a name under some id exactly when it is the name of a visible action. */
  lemma VisibleIds(phy: nat, port: nat, deviceClass: nat, devName: Short, attribs: seq<Attrib>,
                   actions: seq<DeviceApiAction>, beyond: seq<ubyte>, name: CString)
    requires |attribs| < 0x100 && Announceable(actions)
    ensures var info := Described(phy, Announcement(port, deviceClass, devName, attribs, actions, beyond));
            && (forall id: nat ::
                  KnownAs(info.actions, name, id) <==> id < |Visible(actions)| && actions[id].name == name)
            && ((exists id: nat :: KnownAs(info.actions, name, id))
                <==> exists a :: a in Visible(actions) && a.name == name)
  {
    hide Described;
    hide Visible;
    var info := Described(phy, Announcement(port, deviceClass, devName, attribs, actions, beyond));
    var v := Visible(actions);
    forall id: nat ensures KnownAs(info.actions, name, id) <==> id < |v| && actions[id].name == name {
      ParsedIds(phy, port, deviceClass, devName, attribs, actions, beyond, name, id);
    }
    if id: nat :| KnownAs(info.actions, name, id) {
      assert v[id] in v && v[id] == actions[id];
    }
    if a :| a in v && a.name == name {
      var id: nat :| id < |v| && v[id] == a;
      assert KnownAs(info.actions, name, id);
    }
  }

  lemma MatchesName(a: DeviceApiAction, name: CString)
    ensures Matches(a, name + [NUL], |name| + 1) <==> a.name == name
  {
    assert (name + [NUL])[..|name| + 1] == name + [NUL];
    assert (name + [NUL])[..|name|] == name && (a.name + [NUL])[..|a.name|] == a.name;
  }

  /** No two positions have the name. */
  ghost predicate Once(actions: seq<DeviceApiAction>, name: CString) {
    forall i, j | 0 <= i < |actions| && 0 <= j < |actions| && actions[i].name == actions[j].name == name :: i == j
  }

  /** The id found is sure to be the device's own id for the name, the least, if and only if the
      name was added once among the announced actions: otherwise the walk may stop at another. */
  lemma SameIdIffOnce(phy: nat, port: nat, deviceClass: nat, devName: Short, attribs: seq<Attrib>,
                      actions: seq<DeviceApiAction>, beyond: seq<ubyte>, name: CString, own: nat)
    requires |attribs| < 0x100 && Announceable(actions)
    requires own < |Visible(actions)| && actions[own].name == name && forall j | 0 <= j < own :: actions[j].name != name
    ensures var info := Described(phy, Announcement(port, deviceClass, devName, attribs, actions, beyond));
            (forall id: nat | KnownAs(info.actions, name, id) :: id == own) <==> Once(Visible(actions), name)
  {
    hide Described;
    hide Visible;
    var info := Described(phy, Announcement(port, deviceClass, devName, attribs, actions, beyond));
    var v := Visible(actions);
    forall id: nat ensures KnownAs(info.actions, name, id) <==> id < |v| && v[id].name == name {
      ParsedIds(phy, port, deviceClass, devName, attribs, actions, beyond, name, id);
    }
    assert KnownAs(info.actions, name, own);
    if forall id: nat | KnownAs(info.actions, name, id) :: id == own {
      forall i: nat, j: nat | i < |v| && j < |v| && v[i].name == name && v[j].name == name ensures i == j {
        assert KnownAs(info.actions, name, i) && KnownAs(info.actions, name, j);
      }
    }
  }

  // ---- Where the name at the caller and the device part ways ----

  /** The second of three actions has an empty name: the device has an id for the third and would
      serve it, but no caller can find it. */
  lemma HiddenActionExample(phy: nat, port: nat, deviceClass: nat, devName: Short, beyond: seq<ubyte>,
                            first: CString, hidden: CString)
    requires 0 < |first| < 0x100 && 0 < |hidden| < 0x100 && first != hidden
    ensures var actions := [DeviceApiAction(first, 1), DeviceApiAction([], 1), DeviceApiAction(hidden, 1)];
            var info := Described(phy, Announcement(port, deviceClass, devName, [], actions, beyond));
            && (exists id: nat :: KnownAs(info.actions, first, id))
            && actions[2].name == hidden && forall id: nat :: !KnownAs(info.actions, hidden, id)
  {
    hide Described;
    var actions := [DeviceApiAction(first, 1), DeviceApiAction([], 1), DeviceApiAction(hidden, 1)];
    hide Visible;
    IsVisible(actions, actions[..1]);
    assert actions[..1][0].name == first && actions[..1][0] in Visible(actions);
    VisibleIds(phy, port, deviceClass, devName, [], actions, beyond, first);
    VisibleIds(phy, port, deviceClass, devName, [], actions, beyond, hidden);
  }

  /** A name added twice: the device's own id for it is 0, and the walk may find 1. */
  lemma AmbiguousIdExample(phy: nat, port: nat, deviceClass: nat, devName: Short, beyond: seq<ubyte>, name: CString)
    requires 0 < |name| < 0x100
    ensures var actions := [DeviceApiAction(name, 1), DeviceApiAction(name, 1)];
            var info := Described(phy, Announcement(port, deviceClass, devName, [], actions, beyond));
            && actions[0].name == name
            && KnownAs(info.actions, name, 1) && !Once(Visible(actions), name)
  {
    hide Described;
    var actions := [DeviceApiAction(name, 1), DeviceApiAction(name, 1)];
    hide Visible;
    IsVisible(actions, actions);
    VisibleIds(phy, port, deviceClass, devName, [], actions, beyond, name);
    assert actions[0].name == actions[1].name;
  }
}
