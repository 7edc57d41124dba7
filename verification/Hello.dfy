/** The hello packet: the cursor parser that turns it into a device description, and the
    layout it walks. */
module Hello {
  import opened Bytes

  datatype DeviceApiAction = DeviceApiAction(name: CString, kind: ubyte)

  /** The fixed fields of a hello, and the memory that starts at its variable part. The parser
      trusts the counts, so it may read past the packet; bytes beyond `memory` read as 0, and a
      longer `memory` says what else may lie there. */
  datatype HelloWorld = HelloWorld(srcAddr: nat, deviceClass: nat, nameLen: ubyte,
                                   attribCount: ubyte, actionCount: ubyte, memory: seq<ubyte>)

  datatype LogDeviceInfo = LogDeviceInfo(phy: nat, log: nat, devClass: nat, name: seq<ubyte>,
                                         attribs: map<seq<ubyte>, seq<ubyte>>,
                                         actions: map<nat, DeviceApiAction>)

  type Memory = seq<ubyte>

  function At(m: Memory, pos: nat): ubyte {
    if pos < |m| then m[pos] else 0
  }

  function Slice(m: Memory, pos: nat, len: nat): (s: seq<ubyte>)
    ensures |s| == len && forall i | 0 <= i < len :: s[i] == At(m, pos + i)
  {
    seq<ubyte>(len, i requires 0 <= i < len => At(m, pos + i))
  }

  // ---- What the cursor finds ----

  /** Attribute record: key length, value length, key, value. */
  function AttribKey(m: Memory, pos: nat): seq<ubyte> {
    Slice(m, pos + 2, At(m, pos))
  }

  function AttribValue(m: Memory, pos: nat): seq<ubyte> {
    Slice(m, pos + 2 + At(m, pos), At(m, pos + 1))
  }

  /** The cursor after n attribute records. */
  function AttribPos(m: Memory, start: nat, n: nat): nat {
    if n == 0 then start
    else
      var pos := AttribPos(m, start, n - 1);
      pos + 2 + At(m, pos) + At(m, pos + 1)
  }

  function Attribs(m: Memory, start: nat, n: nat): map<seq<ubyte>, seq<ubyte>> {
    if n == 0 then map[]
    else
      var before, pos := Attribs(m, start, n - 1), AttribPos(m, start, n - 1);
      if AttribKey(m, pos) in before then before else before[AttribKey(m, pos) := AttribValue(m, pos)]
  }

  /** Action record: type, name length, name. */
  function ActionLen(m: Memory, pos: nat): ubyte {
    At(m, pos + 1)
  }

  function ActionAt(m: Memory, pos: nat): DeviceApiAction {
    DeviceApiAction(UntilNul(Slice(m, pos + 2, ActionLen(m, pos))), At(m, pos))
  }

  /** The cursor after n turns of the action loop: a record with an empty name is not left. */
  function ActionPos(m: Memory, start: nat, n: nat): nat {
    if n == 0 then start
    else
      var pos := ActionPos(m, start, n - 1);
      if ActionLen(m, pos) == 0 then pos else pos + 2 + ActionLen(m, pos)
  }

  function Actions(m: Memory, start: nat, n: nat): map<nat, DeviceApiAction> {
    if n == 0 then map[]
    else
      var pos := ActionPos(m, start, n - 1);
      if ActionLen(m, pos) == 0 then Actions(m, start, n - 1)
      else Actions(m, start, n - 1)[n - 1 := ActionAt(m, pos)]
  }

  function AttribEnd(p: HelloWorld): nat {
    AttribPos(p.memory, p.nameLen, p.attribCount)
  }

  function Described(phy: nat, p: HelloWorld): LogDeviceInfo {
    LogDeviceInfo(phy, p.srcAddr, p.deviceClass, Slice(p.memory, 0, p.nameLen),
                  Attribs(p.memory, p.nameLen, p.attribCount),
                  Actions(p.memory, AttribEnd(p), p.actionCount))
  }

  /** The constructor: one cursor, first over the attributes and then over the actions. */
  method ParseHello(phy: nat, p: HelloWorld) returns (info: LogDeviceInfo, cursor: nat)
    ensures info == Described(phy, p)
    ensures cursor == ActionPos(p.memory, AttribEnd(p), p.actionCount)
  {
    var name := Slice(p.memory, 0, p.nameLen);
    var attribs, attribPtr := WalkAttribs(p.memory, p.nameLen, p.attribCount);
    var actions, actionPtr := WalkActions(p.memory, attribPtr, p.actionCount);
    info := LogDeviceInfo(phy, p.srcAddr, p.deviceClass, name, attribs, actions);
    cursor := actionPtr;
  }

  method WalkAttribs(m: Memory, start: nat, count: ubyte)
    returns (attribs: map<seq<ubyte>, seq<ubyte>>, ptr: nat)
    ensures attribs == Attribs(m, start, count)
    ensures ptr == AttribPos(m, start, count)
  {
    attribs := map[];
    ptr := start;
    var i := 0;
    while i < count
      invariant 0 <= i <= count
      invariant ptr == AttribPos(m, start, i)
      invariant attribs == Attribs(m, start, i)
    {
      var keyLen: nat, valueLen: nat := At(m, ptr), At(m, ptr + 1);
      var key := Slice(m, ptr + 2, keyLen);
      var value := Slice(m, ptr + 2 + keyLen, valueLen);
      if key !in attribs {
        attribs := attribs[key := value];
      }
      ptr := ptr + 2 + keyLen + valueLen;
      i := i + 1;
    }
  }

  method WalkActions(m: Memory, start: nat, count: ubyte)
    returns (actions: map<nat, DeviceApiAction>, ptr: nat)
    ensures actions == Actions(m, start, count)
    ensures ptr == ActionPos(m, start, count)
  {
    actions := map[];
    ptr := start;
    var i := 0;
    while i < count
      invariant 0 <= i <= count
      invariant ptr == ActionPos(m, start, i)
      invariant actions == Actions(m, start, i)
    {
      var len: nat := At(m, ptr + 1);
      if len != 0 {
        actions := actions[i := DeviceApiAction(UntilNul(Slice(m, ptr + 2, len)), At(m, ptr))];
        ptr := ptr + 2 + len;
      }
      i := i + 1;
    }
  }

  // ---- The shape of what is parsed, for any bytes ----

  /** The ids are 0..k-1: the loop takes every record up to the first empty name, and that
      record hides all the records after it. */
  ghost predicate ActionsUpTo(m: Memory, start: nat, n: nat, k: nat) {
    && k <= n
    && (forall i: nat :: i in Actions(m, start, n) <==> i < k)
    && (forall i: nat | i < k ::
          ActionLen(m, ActionPos(m, start, i)) != 0 && Actions(m, start, n)[i] == ActionAt(m, ActionPos(m, start, i)))
    && (k < n ==> ActionLen(m, ActionPos(m, start, k)) == 0 && ActionPos(m, start, n) == ActionPos(m, start, k))
  }

  lemma {:induction false} ActionsExtent(m: Memory, start: nat, n: nat) returns (k: nat)
    ensures ActionsUpTo(m, start, n, k)
    decreases n
  {
    if n == 0 {
      k := 0;
    } else {
      k := ActionsExtent(m, start, n - 1);
      k := ExtendByOne(m, start, n, k);
    }
  }

  lemma ExtendByOne(m: Memory, start: nat, n: nat, k: nat) returns (k': nat)
    requires n > 0 && ActionsUpTo(m, start, n - 1, k)
    ensures ActionsUpTo(m, start, n, k')
  {
    hide ActionAt;
    hide ActionLen;
    var pos := ActionPos(m, start, n - 1);
    var before, after := Actions(m, start, n - 1), Actions(m, start, n);
    if ActionLen(m, pos) == 0 {
      assert after == before;
      k' := k;
    } else {
      k' := n;
      assert k == n - 1;
      assert after == before[k := ActionAt(m, pos)];
    }
  }

  lemma ParsedActionsShape(phy: nat, p: HelloWorld)
    ensures exists k: nat :: ActionsUpTo(p.memory, AttribEnd(p), p.actionCount, k)
                         && (forall i: nat :: i in Described(phy, p).actions <==> i < k)
  {
    var k := ActionsExtent(p.memory, AttribEnd(p), p.actionCount);
  }

  /** The record at a position: a type, the length of the name, and the name, of which the
      characters before the first NUL are kept. */
  lemma ActionRecord(m: Memory, pos: nat)
    ensures var a, len := ActionAt(m, pos), At(m, pos + 1);
            && a.kind == At(m, pos) && |a.name| <= len
            && (forall i: nat | i < |a.name| :: a.name[i] == At(m, pos + 2 + i) != 0)
            && (|a.name| < len ==> At(m, pos + 2 + |a.name|) == 0)
  {
    var name := Slice(m, pos + 2, ActionLen(m, pos));
    var a := ActionAt(m, pos);
    forall i: nat | i < |a.name| ensures a.name[i] == At(m, pos + 2 + i) != 0 {
      assert a.name[i] == name[i] && a.name[i] in a.name;
    }
  }

  // ---- The layout, and reading it back ----

  type Short = s: seq<ubyte> | |s| < 0x100

  datatype Attrib = Attrib(key: Short, value: Short)

  /** An action that a hello can carry. */
  type ShortAction = a: DeviceApiAction | |a.name| < 0x100 witness DeviceApiAction([], 0)

  /** The actions before the first empty name. */
  function Visible(l: seq<DeviceApiAction>): (v: seq<DeviceApiAction>)
    ensures v <= l
    ensures forall a | a in v :: a.name != []
    ensures |v| < |l| ==> l[|v|].name == []
  {
    if l == [] || l[0].name == [] then [] else [l[0]] + Visible(l[1..])
  }

  lemma {:induction false} VisibleLast(l: seq<DeviceApiAction>)
    requires l != []
    ensures var init := l[..|l| - 1];
            Visible(l) == if |Visible(init)| == |init| && l[|l| - 1].name != [] then l else Visible(init)
  {
    hide Visible;
    var init := l[..|l| - 1];
    var v := Visible(init);
    IsVisible(l, if |v| == |init| && l[|l| - 1].name != [] then l else v);
  }

  lemma IsVisible(l: seq<DeviceApiAction>, v: seq<DeviceApiAction>)
    requires v <= l && (forall a | a in v :: a.name != []) && (|v| < |l| ==> l[|v|].name == [])
    ensures v == Visible(l)
  {
    hide Visible;
    var u := Visible(l);
    assert forall i | 0 <= i < |u| :: u[i] in u && u[i] == l[i];
    assert forall i | 0 <= i < |v| :: v[i] in v && v[i] == l[i];
    assert |u| == |v|;
  }

  function EncodeAttrib(a: Attrib): (r: seq<ubyte>)
    ensures |r| == 2 + |a.key| + |a.value|
  {
    [|a.key|, |a.value|] + a.key + a.value
  }

  function EncodeAction(a: ShortAction): (r: seq<ubyte>)
    ensures |r| == 2 + |a.name|
  {
    [a.kind, |a.name|] + a.name
  }

  function EncodeAttribs(l: seq<Attrib>): seq<ubyte> {
    if l == [] then [] else EncodeAttribs(l[..|l| - 1]) + EncodeAttrib(l[|l| - 1])
  }

  function EncodeActions(l: seq<ShortAction>): seq<ubyte> {
    if l == [] then [] else EncodeActions(l[..|l| - 1]) + EncodeAction(l[|l| - 1])
  }

  /** A hello with this content; `beyond` is whatever follows the packet in memory. */
  function Announce(src: nat, deviceClass: nat, name: Short, attribs: seq<Attrib>, actions: seq<ShortAction>,
                    beyond: seq<ubyte>): HelloWorld
    requires |attribs| < 0x100 && |actions| < 0x100
  {
    HelloWorld(src, deviceClass, |name|, |attribs|, |actions|,
               name + EncodeAttribs(attribs) + EncodeActions(actions) + beyond)
  }

  /** The first attribute with a key decides. */
  ghost predicate FirstWins(l: seq<Attrib>, m: map<seq<ubyte>, seq<ubyte>>) {
    && (forall i | 0 <= i < |l| :: l[i].key in m)
    && (forall key | key in m :: exists i :: FirstWith(l, key, i) && m[key] == l[i].value)
  }

  ghost predicate FirstWith(l: seq<Attrib>, key: seq<ubyte>, i: int) {
    0 <= i < |l| && l[i].key == key && forall j | 0 <= j < i :: l[j].key != key
  }

  /** The bytes bs lie at pos. */
  ghost predicate Holds(m: Memory, pos: nat, bs: seq<ubyte>) {
    pos + |bs| <= |m| && m[pos..pos + |bs|] == bs
  }

  lemma HoldsPart(m: Memory, pos: nat, a: seq<ubyte>, b: seq<ubyte>)
    requires Holds(m, pos, a + b)
    ensures Holds(m, pos, a) && Holds(m, pos + |a|, b)
  {
    var w := m[pos..pos + |a + b|];
    assert m[pos..pos + |a|] == w[..|a|];
    assert m[pos + |a|..pos + |a| + |b|] == w[|a|..];
  }

  lemma HoldsSlice(m: Memory, pos: nat, bs: seq<ubyte>)
    requires Holds(m, pos, bs)
    ensures Slice(m, pos, |bs|) == bs
    ensures forall i | 0 <= i < |bs| :: At(m, pos + i) == bs[i]
  {
    forall i | 0 <= i < |bs| ensures At(m, pos + i) == bs[i] {
      assert m[pos..pos + |bs|][i] == m[pos + i];
    }
  }

  lemma ReadAttrib(m: Memory, pos: nat, a: Attrib)
    requires Holds(m, pos, EncodeAttrib(a))
    ensures At(m, pos) == |a.key| && At(m, pos + 1) == |a.value|
    ensures AttribKey(m, pos) == a.key && AttribValue(m, pos) == a.value
  {
    var head := [|a.key|, |a.value|];
    HoldsPart(m, pos, head + a.key, a.value);
    HoldsPart(m, pos, head, a.key);
    HoldsSlice(m, pos, head);
    HoldsSlice(m, pos + 2, a.key);
    HoldsSlice(m, pos + 2 + |a.key|, a.value);
    assert At(m, pos + 0) == head[0] && At(m, pos + 1) == head[1];
  }

  lemma ReadAction(m: Memory, pos: nat, a: ShortAction)
    requires Holds(m, pos, EncodeAction(a))
    ensures ActionLen(m, pos) == |a.name| && ActionAt(m, pos) == a
  {
    var head := [a.kind, |a.name|];
    HoldsPart(m, pos, head, a.name);
    HoldsSlice(m, pos, head);
    HoldsSlice(m, pos + 2, a.name);
    assert At(m, pos + 0) == head[0] && At(m, pos + 1) == head[1];
    UntilNulWhole(a.name);
  }

  lemma {:induction false} ReadAttribs(m: Memory, start: nat, l: seq<Attrib>)
    requires Holds(m, start, EncodeAttribs(l))
    ensures AttribPos(m, start, |l|) == start + |EncodeAttribs(l)|
    ensures FirstWins(l, Attribs(m, start, |l|))
    decreases |l|
  {
    if l != [] {
      var init := l[..|l| - 1];
      assert Holds(m, start, EncodeAttribs(init)) by {
        HoldsPart(m, start, EncodeAttribs(init), EncodeAttrib(l[|l| - 1]));
      }
      ReadAttribs(m, start, init);
      ReadLastAttrib(m, start, l);
    }
  }

  lemma ReadLastAttrib(m: Memory, start: nat, l: seq<Attrib>)
    requires l != [] && Holds(m, start, EncodeAttribs(l))
    requires AttribPos(m, start, |l| - 1) == start + |EncodeAttribs(l[..|l| - 1])|
    requires FirstWins(l[..|l| - 1], Attribs(m, start, |l| - 1))
    ensures AttribPos(m, start, |l|) == start + |EncodeAttribs(l)|
    ensures FirstWins(l, Attribs(m, start, |l|))
  {
    hide Holds;
    hide FirstWins;
    hide AttribKey;
    hide AttribValue;
    hide At;
    hide EncodeAttrib;
    var init, last := l[..|l| - 1], l[|l| - 1];
    HoldsPart(m, start, EncodeAttribs(init), EncodeAttrib(last));
    ReadAttrib(m, start + |EncodeAttribs(init)|, last);
    NextAttrib(m, start, |init|, last);
    FirstWinsLast(l, Attribs(m, start, |init|));
  }

  lemma NextAttrib(m: Memory, start: nat, n: nat, a: Attrib)
    requires var pos := AttribPos(m, start, n);
             && At(m, pos) == |a.key| && At(m, pos + 1) == |a.value|
             && AttribKey(m, pos) == a.key && AttribValue(m, pos) == a.value
    ensures AttribPos(m, start, n + 1) == AttribPos(m, start, n) + 2 + |a.key| + |a.value|
    ensures var before := Attribs(m, start, n);
            Attribs(m, start, n + 1) == if a.key in before then before else before[a.key := a.value]
  {
    hide AttribKey;
    hide AttribValue;
  }

  lemma FirstWinsLast(l: seq<Attrib>, m: map<seq<ubyte>, seq<ubyte>>)
    requires l != [] && FirstWins(l[..|l| - 1], m)
    ensures var a := l[|l| - 1];
            FirstWins(l, if a.key in m then m else m[a.key := a.value])
  {
    var init, a := l[..|l| - 1], l[|l| - 1];
    var m' := if a.key in m then m else m[a.key := a.value];
    forall key | key in m' ensures exists i :: FirstWith(l, key, i) && m'[key] == l[i].value {
      if key in m {
        var i :| FirstWith(init, key, i) && m[key] == init[i].value;
        assert FirstWith(l, key, i);
      } else {
        assert FirstWith(l, key, |l| - 1);
      }
    }
    forall i | 0 <= i < |l| ensures l[i].key in m' {
      assert i < |l| - 1 ==> init[i] == l[i];
    }
  }

  /** Action i under id i. */
  function Indexed(l: seq<DeviceApiAction>): map<nat, DeviceApiAction> {
    map i: nat | i < |l| :: l[i]
  }

  lemma IndexedLast(l: seq<DeviceApiAction>)
    requires l != []
    ensures Indexed(l) == Indexed(l[..|l| - 1])[|l| - 1 := l[|l| - 1]]
  {}

  /** After reading l, the map holds its visible actions, and the cursor is at the end of l or
      at an action with an empty name. */
  ghost predicate ReadUpTo(m: Memory, start: nat, l: seq<ShortAction>) {
    && Actions(m, start, |l|) == Indexed(Visible(l))
    && if |Visible(l)| == |l| then ActionPos(m, start, |l|) == start + |EncodeActions(l)|
       else ActionLen(m, ActionPos(m, start, |l|)) == 0
  }

  lemma {:induction false} ReadActions(m: Memory, start: nat, l: seq<ShortAction>)
    requires Holds(m, start, EncodeActions(l))
    ensures ReadUpTo(m, start, l)
    decreases |l|
  {
    if l == [] {
      NothingIndexed(l);
    } else {
      var init := l[..|l| - 1];
      assert Holds(m, start, EncodeActions(init)) by {
        HoldsPart(m, start, EncodeActions(init), EncodeAction(l[|l| - 1]));
      }
      ReadActions(m, start, init);
      ReadLastAction(m, start, l);
    }
  }

  lemma ReadLastAction(m: Memory, start: nat, l: seq<ShortAction>)
    requires l != [] && Holds(m, start, EncodeActions(l)) && ReadUpTo(m, start, l[..|l| - 1])
    ensures ReadUpTo(m, start, l)
  {
    hide *;
    VisibleLast(l);
    if |Visible(l[..|l| - 1])| == |l| - 1 {
      ReadReachable(m, start, l);
    } else {
      ReadHidden(m, start, l);
    }
  }

  lemma ReadReachable(m: Memory, start: nat, l: seq<ShortAction>)
    requires l != [] && Holds(m, start, EncodeActions(l)) && ReadUpTo(m, start, l[..|l| - 1])
    requires |Visible(l[..|l| - 1])| == |l| - 1
    ensures ReadUpTo(m, start, l)
  {
    hide Holds;
    hide Indexed;
    hide Visible;
    hide ActionAt;
    hide ActionLen;
    hide EncodeAction;
    var init, last := l[..|l| - 1], l[|l| - 1];
    VisibleLast(l);
    HoldsPart(m, start, EncodeActions(init), EncodeAction(last));
    ReadAction(m, start + |EncodeActions(init)|, last);
    NextAction(m, start, |init|, last);
    assert Visible(init) == init;
    if last.name != [] {
      IndexedLast(l);
    }
  }

  lemma ReadHidden(m: Memory, start: nat, l: seq<ShortAction>)
    requires l != [] && ReadUpTo(m, start, l[..|l| - 1])
    requires |Visible(l[..|l| - 1])| < |l| - 1
    ensures ReadUpTo(m, start, l)
  {
    hide Indexed;
    hide Visible;
    hide ActionAt;
    hide ActionLen;
    hide EncodeActions;
    VisibleLast(l);
  }

  lemma NothingIndexed(l: seq<DeviceApiAction>)
    requires l == []
    ensures Indexed(l) == map[]
  {}

  lemma NextAction(m: Memory, start: nat, n: nat, a: ShortAction)
    requires var pos := ActionPos(m, start, n);
             ActionLen(m, pos) == |a.name| && ActionAt(m, pos) == a
    ensures a.name != [] ==> ActionPos(m, start, n + 1) == ActionPos(m, start, n) + 2 + |a.name|
    ensures a.name == [] ==> ActionPos(m, start, n + 1) == ActionPos(m, start, n)
    ensures Actions(m, start, n + 1) ==
            if a.name == [] then Actions(m, start, n) else Actions(m, start, n)[n := a]
  {
    hide ActionAt;
    hide ActionLen;
  }

  /** Parsing an announcement gives back the name, the attributes with the first of each key,
      and action i under id i for the actions before the first empty name. When no name is empty
      these are all the actions, and the cursor ends at the end of the announcement. */
  lemma HelloRoundTrip(phy: nat, src: nat, deviceClass: nat, name: Short, attribs: seq<Attrib>,
                       actions: seq<ShortAction>, beyond: seq<ubyte>)
    requires |attribs| < 0x100 && |actions| < 0x100
    ensures var p := Announce(src, deviceClass, name, attribs, actions, beyond);
            var info := Described(phy, p);
            && info.phy == phy && info.log == src && info.devClass == deviceClass && info.name == name
            && FirstWins(attribs, info.attribs)
            && info.actions == Indexed(Visible(actions))
            && (|Visible(actions)| == |actions| ==>
                  ActionPos(p.memory, AttribEnd(p), p.actionCount) == |p.memory| - |beyond|)
  {
    hide EncodeAttribs;
    hide EncodeActions;
    hide FirstWins;
    hide Attribs;
    hide AttribPos;
    hide Actions;
    hide ActionPos;
    hide Indexed;
    hide Visible;
    var p := Announce(src, deviceClass, name, attribs, actions, beyond);
    Layout(name, EncodeAttribs(attribs), EncodeActions(actions), beyond);
    HoldsSlice(p.memory, 0, name);
    ReadAttribs(p.memory, |name|, attribs);
    ReadActions(p.memory, AttribEnd(p), actions);
  }

  lemma Layout(a: seq<ubyte>, b: seq<ubyte>, c: seq<ubyte>, d: seq<ubyte>)
    ensures var m := a + b + c + d;
            Holds(m, 0, a) && Holds(m, |a|, b) && Holds(m, |a| + |b|, c)
  {
    var m := a + b + c + d;
    assert m[0..|m|] == m;
    HoldsPart(m, 0, a + b + c, d);
    HoldsPart(m, 0, a + b, c);
    HoldsPart(m, 0, a, b);
  }
}
