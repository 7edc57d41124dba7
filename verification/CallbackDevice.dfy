/** A device whose actions are served by registered handlers: a vector of actions, which gives
    ids to names, and a table from names to handlers. */
module CallbackDevice {
  import opened Bytes
  import opened Hello
  import R = Requests

  /** The registered function pointers and their custom data. */
  datatype Handlers = Handlers(getter: nat, setter: nat, data: nat)

  datatype Registration = Registration(action: DeviceApiAction, handlers: Handlers)

  /** A handler call: whose handlers, and everything the handler is given. The size it is given is
      that of the data, and the custom data is kept with the handlers. */
  datatype Invocation =
    | Get(handlers: Handlers, name: CString, kind: ubyte, data: seq<ubyte>, addr: nat, requestId: ubyte)
    | Set(handlers: Handlers, name: CString, kind: ubyte, data: seq<ubyte>, addr: nat)

  /** The answer to a fetch. */
  datatype Reply = Reply(addr: nat, requestId: ubyte, payload: seq<ubyte>)

  /** Registration i is the last under its name. */
  ghost predicate Latest(added: seq<Registration>, i: int) {
    0 <= i < |added| && forall j | i < j < |added| :: added[j].action.name != added[i].action.name
  }

  /** The vector and the table hold exactly what was added: every action in order, and for every
      name that occurs the handlers added last under it. */
  ghost predicate Agrees(actions: seq<DeviceApiAction>, callbacks: map<CString, Handlers>, added: seq<Registration>) {
    && |actions| == |added|
    && (forall i | 0 <= i < |added| :: actions[i] == added[i].action && added[i].action.name in callbacks)
    && (forall name | name in callbacks ::
          exists i :: Latest(added, i) && added[i].action.name == name && callbacks[name] == added[i].handlers)
  }

  /** Something was added under the name, and these are the handlers added last under it. */
  ghost predicate RegisteredLast(added: seq<Registration>, name: CString, handlers: Handlers) {
    && (exists i :: Latest(added, i) && added[i].action.name == name)
    && forall i | Latest(added, i) && added[i].action.name == name :: added[i].handlers == handlers
  }

  /** The name buffer holds this action's name and its terminator in stringLen characters. */
  predicate Matches(a: DeviceApiAction, name: seq<ubyte>, stringLen: int)
    requires stringLen <= |name|
  {
    |a.name| == stringLen - 1 && name[..stringLen] == a.name + [NUL]
  }

  const NO_ACTION := 254

  /** Exactly the name's characters, then NUL, fill the given length. */
  lemma MatchesIff(a: DeviceApiAction, name: seq<ubyte>, stringLen: int)
    requires stringLen <= |name|
    ensures Matches(a, name, stringLen) <==>
            && stringLen == |a.name| + 1 && name[|a.name|] == 0
            && forall i | 0 <= i < |a.name| :: name[i] == a.name[i]
  {
    if stringLen == |a.name| + 1 {
      var own := a.name + [NUL];
      assert forall i | 0 <= i < stringLen :: name[..stringLen][i] == name[i];
      assert own[|a.name|] == 0 && forall i | 0 <= i < |a.name| :: own[i] == a.name[i];
    }
  }

  /** The actions that are announced: their count is given as a byte, so of 256 or more only the
      first |actions| mod 256. */
  function Listed(actions: seq<DeviceApiAction>): (l: seq<DeviceApiAction>)
    ensures l <= actions && |l| < 0x100 && (|actions| - |l|) % 0x100 == 0
  {
    actions[..|actions| % 0x100]
  }

  class LogicalCallbackDevice {
    var apiActions: seq<DeviceApiAction>
    var apiCallbacks: map<CString, Handlers>
    ghost var added: seq<Registration>

    ghost predicate Valid()
      reads this
    {
      Agrees(apiActions, apiCallbacks, added)
    }

    constructor ()
      ensures Valid() && added == []
    {
      apiActions, apiCallbacks, added := [], map[], [];
    }

    method AddAction(action: DeviceApiAction, handlers: Handlers)
      requires Valid()
      modifies this
      ensures Valid() && added == old(added) + [Registration(action, handlers)]
      ensures apiActions == old(apiActions) + [action]
      ensures apiCallbacks == old(apiCallbacks)[action.name := handlers]
    {
      AgreesExtend(apiActions, apiCallbacks, added, Registration(action, handlers));
      apiActions := apiActions + [action];
      apiCallbacks := apiCallbacks[action.name := handlers];
      added := added + [Registration(action, handlers)];
    }

    /** The least id whose action has this name, else 254 (which may also be a real id when
        more than 254 actions exist). */
    method GetActionId(name: seq<ubyte>, stringLen: int) returns (id: nat)
      requires stringLen <= |name|
      ensures (forall j | 0 <= j < |apiActions| :: !Matches(apiActions[j], name, stringLen)) ==> id == 254
      ensures |apiActions| <= 254 ==>
                (id == 254 <==> forall j | 0 <= j < |apiActions| :: !Matches(apiActions[j], name, stringLen))
      ensures (exists j :: 0 <= j < |apiActions| && Matches(apiActions[j], name, stringLen)) ==>
                && id < |apiActions| && Matches(apiActions[id], name, stringLen)
                && forall j | 0 <= j < id :: !Matches(apiActions[j], name, stringLen)
    {
      var i := 0;
      while i < |apiActions|
        invariant 0 <= i <= |apiActions|
        invariant forall j | 0 <= j < i :: !Matches(apiActions[j], name, stringLen)
      {
        var own := apiActions[i].name + [NUL];
        if |apiActions[i].name| == stringLen - 1 {
          var j := 0;
          while j < stringLen && own[j] == name[j]
            invariant 0 <= j <= stringLen
            invariant own[..j] == name[..j]
          {
            j := j + 1;
          }
          if j >= stringLen {
            assert own[..j] == own;
            return i;
          }
          assert own[j] != name[..stringLen][j];
        }
        i := i + 1;
      }
      return NO_ACTION;
    }

    /** A set with this id calls the handler once, with what it was sent, and returns the handler's
        status. The table is walked in an unspecified order; `handle` stands for the handlers. */
    method OnActionSet(actionId: nat, data: seq<ubyte>, addr: nat, handle: Invocation -> R.Status)
      returns (call: Option<Invocation>, status: R.Status)
      requires Valid()
      requires apiActions == [] || actionId < |apiActions|
      ensures apiActions == [] ==> call == None
      ensures status == if call.Some? then handle(call.value) else R.ActionNotFound
      ensures apiActions != [] ==>
                var a := apiActions[actionId];
                && call.Some? && call.value == Set(call.value.handlers, a.name, a.kind, data, addr)
                && RegisteredLast(added, a.name, call.value.handlers)
    {
      assert apiActions != [] ==> apiActions[actionId] == added[actionId].action;
      assert apiActions != [] ==> apiActions[actionId].name in apiCallbacks;
      var todo := apiCallbacks.Keys;
      while todo != {}
        invariant todo <= apiCallbacks.Keys
        invariant forall name | name in apiCallbacks && name !in todo :: name != apiActions[actionId].name
      {
        var name :| name in todo;
        if apiActions[actionId].name == name {
          call := Some(Set(apiCallbacks[name], name, apiActions[actionId].kind, data, addr));
          return call, handle(call.value);
        }
        todo := todo - {name};
      }
      return None, R.ActionNotFound;
    }

    /** A get calls the handler in the same way and sends its bytes back under the request id. */
    method OnActionGet(actionId: nat, data: seq<ubyte>, addr: nat, requestId: ubyte,
                       answer: Invocation -> seq<ubyte>)
      returns (call: Option<Invocation>, sent: seq<Reply>)
      requires Valid()
      requires apiActions == [] || actionId < |apiActions|
      ensures apiActions == [] ==> call == None
      ensures sent == if call.Some? then [Reply(addr, requestId, answer(call.value))] else []
      ensures apiActions != [] ==>
                var a := apiActions[actionId];
                && call.Some? && call.value == Get(call.value.handlers, a.name, a.kind, data, addr, requestId)
                && RegisteredLast(added, a.name, call.value.handlers)
    {
      assert apiActions != [] ==> apiActions[actionId] == added[actionId].action;
      assert apiActions != [] ==> apiActions[actionId].name in apiCallbacks;
      var todo := apiCallbacks.Keys;
      while todo != {}
        invariant todo <= apiCallbacks.Keys
        invariant forall name | name in apiCallbacks && name !in todo :: name != apiActions[actionId].name
      {
        var name :| name in todo;
        if apiActions[actionId].name == name {
          call := Some(Get(apiCallbacks[name], name, apiActions[actionId].kind, data, addr, requestId));
          return call, [Reply(addr, requestId, answer(call.value))];
        }
        todo := todo - {name};
      }
      return None, [];
    }
  }

  /** Adding under a name decides for that name, and for no other. */
  lemma LastAddedCounts(added: seq<Registration>, r: Registration, name: CString, handlers: Handlers)
    ensures RegisteredLast(added + [r], r.action.name, handlers) <==> handlers == r.handlers
    ensures name != r.action.name ==>
              (RegisteredLast(added + [r], name, handlers) <==> RegisteredLast(added, name, handlers))
    ensures !RegisteredLast([], name, handlers)
  {
    var added' := added + [r];
    assert Latest(added', |added|);
    assert forall i | Latest(added', i) && added'[i].action.name == r.action.name :: i == |added|;
    if name != r.action.name {
      forall i | 0 <= i < |added| && added[i].action.name == name ensures Latest(added', i) <==> Latest(added, i) {
        assert forall j | i < j < |added| :: added'[j] == added[j];
        assert added'[|added|] == r && added'[i] == added[i];
      }
    }
  }

  lemma AgreesExtend(actions: seq<DeviceApiAction>, callbacks: map<CString, Handlers>, added: seq<Registration>,
      r: Registration)
    requires Agrees(actions, callbacks, added)
    ensures Agrees(actions + [r.action], callbacks[r.action.name := r.handlers], added + [r])
  {
    var callbacks', added' := callbacks[r.action.name := r.handlers], added + [r];
    forall name | name in callbacks'
      ensures exists i :: Latest(added', i) && added'[i].action.name == name && callbacks'[name] == added'[i].handlers
    {
      if name == r.action.name {
        assert Latest(added', |added|);
      } else {
        var i :| Latest(added, i) && added[i].action.name == name && callbacks[name] == added[i].handlers;
        assert Latest(added', i);
      }
    }
  }
}
