/** The command line: options and positional arguments, in any mixture, into a configuration. */
module ArgParser {
  import opened Bytes
  import opened Decimal

  type short = x: int | -0x8000 <= x < 0x8000

  datatype ComInterface = ComInterface(path: string, baud: i32)

  datatype SocketInterface = SocketInterface(isServer: bool, hostname: string, port: short)

  datatype Config = Config(networkName: string, networkAddr: uint, networkPsk: string,
                           comDevices: seq<ComInterface>, socketInterfaces: seq<SocketInterface>,
                           configPath: string, actionType: string, deviceAddr: uint, devicePort: i32,
                           actionName: string, actionValues: seq<string>, debug: bool)

  const DEFAULT := Config("", 0, "", [], [], "", "", 0, 0, "", [], false)

  /** int to unsigned, and int to short, as the conversions of the language do it. */
  function ToUint(x: int): uint {
    x % 0x1_0000_0000
  }

  function ToShort(x: int): (s: short)
    ensures (s - x) % 0x1_0000 == 0
  {
    (x + 0x8000) % 0x1_0000 - 0x8000
  }

  predicate Dashed(s: string) {
    s != "" && s[0] == '-'
  }

  // ---- What the parser computes ----

  /** Looking ahead past the end gives the empty string. */
  function Arg(args: seq<string>, k: nat): string {
    if k < |args| then args[k] else ""
  }

  function Drop(args: seq<string>, k: nat): seq<string> {
    if k < |args| then args[k..] else []
  }

  lemma DropDrop(args: seq<string>, i: nat, k: nat)
    requires i < |args| && k > 0
    ensures Drop(args, i) != [] && Drop(args, i)[0] == args[i]
    ensures Drop(Drop(args, i), k) == Drop(args, i + k)
    ensures Drop(args, i)[1..] == Drop(args, i + 1)
  {}

  lemma ArgDrop(args: seq<string>, i: nat)
    requires i < |args|
    ensures forall k: nat :: Arg(Drop(args, i), k) == Arg(args, i + k)
  {}

  lemma ArgAt(args: seq<string>, k: nat)
    requires k < |args|
    ensures Arg(args, k) == args[k]
  {}

  /** How many arguments an option takes. */
  function Arity(name: string): nat {
    if name in {"--net", "-n", "--addr", "-a", "--psk", "--config", "-c"} then 1
    else if name == "--com" then 2
    else if name == "--socket" then 3
    else 0
  }

  predicate IsNetworkOption(name: string) {
    name in {"--net", "-n", "--addr", "-a", "--psk"}
  }

  predicate IsInterfaceOption(name: string) {
    name in {"--com", "--socket"}
  }

  lemma NoOptionTwice(name: string)
    ensures !(IsNetworkOption(name) && IsInterfaceOption(name))
  {}

  /** An option of the network at the front; None is an exception. */
  function NetworkOption(args: seq<string>, c: Config): Option<Config> {
    var name := Arg(args, 0);
    if name == "--net" || name == "-n" then Some(c.(networkName := Arg(args, 1)))
    else if name == "--addr" || name == "-a" then
      var v := Stoi(Arg(args, 1));
      if v.None? then None else Some(c.(networkAddr := ToUint(v.value)))
    else Some(c.(networkPsk := Arg(args, 1)))
  }

  /** An option that adds an interface. */
  function InterfaceOption(args: seq<string>, c: Config): Option<Config> {
    if Arg(args, 0) == "--com" then
      var v := Stoi(Arg(args, 2));
      if v.None? then None else Some(c.(comDevices := c.comDevices + [ComInterface(Arg(args, 1), v.value)]))
    else
      var v := Stoi(Arg(args, 3));
      if v.None? then None
      else Some(c.(socketInterfaces := c.socketInterfaces +
                                       [SocketInterface(Arg(args, 1) == "server", Arg(args, 2), ToShort(v.value))]))
  }

  /** Any other option; an unknown one does nothing. */
  function GeneralOption(args: seq<string>, c: Config): Config {
    var name := Arg(args, 0);
    if name == "--config" || name == "-c" then c.(configPath := Arg(args, 1))
    else if name == "--debug" then c.(debug := true)
    else c
  }

  /** The option at the front; None is an exception. */
  function Named(args: seq<string>, c: Config): Option<Config> {
    if IsNetworkOption(Arg(args, 0)) then NetworkOption(args, c)
    else if IsInterfaceOption(Arg(args, 0)) then InterfaceOption(args, c)
    else Some(GeneralOption(args, c))
  }

  /** The positional argument with this number; None is an exception. */
  function Positional(arg: string, relative: nat, c: Config): Option<Config> {
    if relative == 0 then Some(c.(actionType := arg))
    else if relative == 1 then
      var v := Stoi(arg);
      if v.None? then None else Some(c.(deviceAddr := ToUint(v.value)))
    else if relative == 2 then
      var v := Stoi(arg);
      if v.None? then None else Some(c.(devicePort := v.value))
    else if relative == 3 then Some(c.(actionName := arg))
    else Some(c.(actionValues := c.actionValues + [arg]))
  }

  /** An exception leaves the configuration as it was when it was thrown. */
  datatype Outcome = Outcome(config: Config, relative: nat, threw: bool)

  function Parse(args: seq<string>, relative: nat, c: Config): Outcome
    decreases |args|
  {
    if args == [] then Outcome(c, relative, false)
    else if Dashed(args[0]) then
      var next := Named(args, c);
      if next.None? then Outcome(c, relative, true) else Parse(Drop(args, 1 + Arity(args[0])), relative, next.value)
    else
      var next := Positional(args[0], relative, c);
      if next.None? then Outcome(c, relative, true) else Parse(args[1..], relative + 1, next.value)
  }

  lemma ParseNothing(relative: nat, c: Config)
    ensures Parse([], relative, c) == Outcome(c, relative, false)
  {}

  /** One item off the front. */
  lemma ParseFront(args: seq<string>, relative: nat, c: Config)
    requires args != []
    ensures Parse(args, relative, c) ==
            if Dashed(args[0]) then
              var next := Named(args, c);
              if next.None? then Outcome(c, relative, true)
              else Parse(Drop(args, 1 + Arity(args[0])), relative, next.value)
            else
              var next := Positional(args[0], relative, c);
              if next.None? then Outcome(c, relative, true) else Parse(args[1..], relative + 1, next.value)
  {}

  // ---- The parser ----

  class ArgParser {
    var args: seq<string>
    var currentIndex: nat
    var relativeIndex: nat
    var config: Config

    constructor ()
      ensures args == [] && currentIndex == 0 && relativeIndex == 0
    {
      args, currentIndex, relativeIndex, config := [], 0, 0, DEFAULT;
    }

    /** Arguments given to an earlier call are still there and are parsed again. */
    method Process(argv: seq<string>, appConfig: Config) returns (threw: bool)
      modifies this
      ensures args == old(args) + Drop(argv, 1)
      ensures Outcome(config, relativeIndex, threw) == Parse(args, 0, appConfig)
      ensures threw <==> exists l, tail :: BadAfter(args, 0, appConfig, l, tail)
      ensures threw ==> exists l, tail :: BadAfter(args, 0, appConfig, l, tail)
                          && config == RunItems(l, 0, appConfig).config
    {
      hide Parse;
      hide BadAfter;
      hide RunItems;
      config := appConfig;
      CollectArguments(argv);
      currentIndex := 0;
      relativeIndex := 0;
      threw := false;
      ghost var all := args;
      assert Drop(all, 0) == all;
      while currentIndex < |args|
        invariant args == all
        invariant Parse(Drop(all, currentIndex), relativeIndex, config) == Parse(all, 0, appConfig)
        decreases |args| - currentIndex
      {
        threw := ProcessNext();
        if threw {
          ThrowsIffBadNumber(args, 0, appConfig);
          return;
        }
      }
      ParseNothing(relativeIndex, config);
      ThrowsIffBadNumber(args, 0, appConfig);
    }

    /** One turn of the loop takes one option or one positional argument off the front. */
    method ProcessNext() returns (threw: bool)
      requires currentIndex < |args|
      modifies this`currentIndex, this`relativeIndex, this`config
      ensures currentIndex > old(currentIndex)
      ensures Parse(Drop(args, old(currentIndex)), old(relativeIndex), old(config))
           == if threw then Outcome(config, relativeIndex, true)
              else Parse(Drop(args, currentIndex), relativeIndex, config)
    {
      hide Stoi;
      hide Named;
      hide Positional;
      hide Arity;
      hide Dashed;
      hide Parse;
      hide Drop;
      DropDrop(args, currentIndex, 1);
      DropDrop(args, currentIndex, 1 + Arity(args[currentIndex]));
      ParseFront(Drop(args, currentIndex), relativeIndex, config);
      ArgAt(args, currentIndex);
      var arg := Seek();
      if Dashed(arg) {
        threw := ProcessNamedArgument();
      } else {
        threw := ProcessRelativeArgument();
      }
    }

    /** The program's own name is left out. */
    method CollectArguments(argv: seq<string>)
      modifies this`args
      ensures args == old(args) + Drop(argv, 1)
    {
      if |argv| > 1 {
        for i := 1 to |argv|
          invariant args == old(args) + argv[1..i]
        {
          args := args + [argv[i]];
          assert argv[1..i + 1] == argv[1..i] + [argv[i]];
        }
        assert argv[1..|argv|] == argv[1..];
      }
    }

    function Seek(): string
      reads this
    {
      Arg(args, currentIndex)
    }

    method Peek() returns (arg: string)
      modifies this`currentIndex
      ensures arg == Arg(args, old(currentIndex)) && currentIndex == old(currentIndex) + 1
    {
      arg := Seek();
      currentIndex := currentIndex + 1;
    }

    method ProcessNamedArgument() returns (threw: bool)
      requires currentIndex < |args|
      modifies this`currentIndex, this`config
      ensures currentIndex == old(currentIndex) + 1 + Arity(args[old(currentIndex)])
      ensures var next := Named(Drop(args, old(currentIndex)), old(config));
              threw == next.None? && config == if threw then old(config) else next.value
    {
      hide Drop;
      hide Arg;
      hide Arity;
      hide NetworkOption;
      hide InterfaceOption;
      hide GeneralOption;
      ArgDrop(args, currentIndex);
      ArgAt(args, currentIndex);
      var name := Peek();
      NoOptionTwice(name);
      hide IsNetworkOption;
      hide IsInterfaceOption;
      threw := ProcessNetworkOption(name);
      if !threw {
        threw := ProcessInterfaceOption(name);
      }
      if !threw {
        ProcessGeneralOption(name);
      }
    }

    method ProcessNetworkOption(name: string) returns (threw: bool)
      requires 0 < currentIndex <= |args| && args[currentIndex - 1] == name
      modifies this`currentIndex, this`config
      ensures var next := NetworkOption(Drop(args, old(currentIndex) - 1), old(config));
              if IsNetworkOption(name)
              then && threw == next.None? && config == (if threw then old(config) else next.value)
                   && currentIndex == old(currentIndex) + Arity(name)
              else !threw && config == old(config) && currentIndex == old(currentIndex)
    {
      hide Stoi;
      hide ToUint;
      hide Drop;
      ArgDrop(args, currentIndex - 1);
      threw := false;
      if name == "--net" || name == "-n" {
        var value := Peek();
        config := config.(networkName := value);
      }
      if name == "--addr" || name == "-a" {
        var text := Peek();
        var value := Stoi(text);
        if value.None? { return true; }
        config := config.(networkAddr := ToUint(value.value));
      }
      if name == "--psk" {
        var value := Peek();
        config := config.(networkPsk := value);
      }
    }

    method ProcessInterfaceOption(name: string) returns (threw: bool)
      requires 0 < currentIndex
      requires IsInterfaceOption(name) ==> currentIndex <= |args| && args[currentIndex - 1] == name
      modifies this`currentIndex, this`config
      ensures if IsInterfaceOption(name)
              then var next := InterfaceOption(Drop(args, old(currentIndex) - 1), old(config));
                   && threw == next.None? && config == (if threw then old(config) else next.value)
                   && currentIndex == old(currentIndex) + Arity(name)
              else !threw && config == old(config) && currentIndex == old(currentIndex)
    {
      hide Stoi;
      hide ToShort;
      hide Drop;
      if IsInterfaceOption(name) {
        ArgDrop(args, currentIndex - 1);
      }
      threw := false;
      if name == "--com" {
        var path := Peek();
        var text := Peek();
        var value := Stoi(text);
        if value.None? { return true; }
        config := config.(comDevices := config.comDevices + [ComInterface(path, value.value)]);
      }
      if name == "--socket" {
        var kind := Peek();
        var host := Peek();
        var text := Peek();
        var value := Stoi(text);
        if value.None? { return true; }
        config := config.(socketInterfaces := config.socketInterfaces +
                                              [SocketInterface(kind == "server", host, ToShort(value.value))]);
      }
    }

    method ProcessGeneralOption(name: string)
      requires 0 < currentIndex
      requires IsNetworkOption(name) || IsInterfaceOption(name)
               || (currentIndex <= |args| && args[currentIndex - 1] == name)
      modifies this`currentIndex, this`config
      ensures if IsNetworkOption(name) || IsInterfaceOption(name)
              then config == old(config) && currentIndex == old(currentIndex)
              else && config == GeneralOption(Drop(args, old(currentIndex) - 1), old(config))
                   && currentIndex == old(currentIndex) + Arity(name)
    {
      hide Drop;
      if !IsNetworkOption(name) && !IsInterfaceOption(name) {
        ArgDrop(args, currentIndex - 1);
      }
      if name == "--config" || name == "-c" {
        var value := Peek();
        config := config.(configPath := value);
      }
      if name == "--debug" {
        config := config.(debug := true);
      }
    }

    method ProcessRelativeArgument() returns (threw: bool)
      requires currentIndex < |args|
      modifies this`currentIndex, this`relativeIndex, this`config
      ensures currentIndex == old(currentIndex) + 1
      ensures var next := Positional(args[old(currentIndex)], old(relativeIndex), old(config));
              && threw == next.None? && config == (if threw then old(config) else next.value)
              && relativeIndex == old(relativeIndex) + if threw then 0 else 1
    {
      hide Stoi;
      var arg := Peek();
      threw := false;
      if relativeIndex == 0 {
        config := config.(actionType := arg);
      }
      if relativeIndex == 1 {
        var value := Stoi(arg);
        if value.None? { return true; }
        config := config.(deviceAddr := ToUint(value.value));
      }
      if relativeIndex == 2 {
        var value := Stoi(arg);
        if value.None? { return true; }
        config := config.(devicePort := value.value);
      }
      if relativeIndex == 3 {
        config := config.(actionName := arg);
      }
      if relativeIndex >= 4 {
        config := config.(actionValues := config.actionValues + [arg]);
      }
      relativeIndex := relativeIndex + 1;
    }
  }

  // ---- The port of a socket ----

  /** The stored port becomes a 16-bit unsigned number again when the socket is opened. */
  function OpenedPort(s: SocketInterface): nat {
    s.port % 0x1_0000
  }

  /** For every int given as a port: it is what is stored if and only if it fits a short, and it is
      the port opened if and only if it is a port number. */
  lemma SocketPort(kind: string, host: string, n: i32, relative: nat, c: Config)
    ensures exists s: SocketInterface ::
              && Parse(["--socket", kind, host, Print(n)], relative, c)
                 == Outcome(c.(socketInterfaces := c.socketInterfaces + [s]), relative, false)
              && s.isServer == (kind == "server") && s.hostname == host
              && (s.port == n <==> -0x8000 <= n < 0x8000)
              && (OpenedPort(s) == n <==> 0 <= n < 0x1_0000)
  {
    hide Stoi;
    StoiPrint(n);
    var args, s := ["--socket", kind, host, Print(n)], SocketInterface(kind == "server", host, ToShort(n));
    var next := c.(socketInterfaces := c.socketInterfaces + [s]);
    assert Named(args, c) == Some(next);
    ParseNothing(relative, next);
  }

  /** The documented port is stored as a negative number, and opened as documented. */
  lemma DocumentedPort(c: Config)
    ensures var s := SocketInterface(false, "127.0.0.1", -16384);
            && Parse(["--socket", "client", "127.0.0.1", "49152"], 0, c)
               == Outcome(c.(socketInterfaces := c.socketInterfaces + [s]), 0, false)
            && OpenedPort(s) == 49152
  {
    hide Parse;
    PrintDocumented();
    SocketPort("client", "127.0.0.1", 49152, 0, c);
  }

  lemma PrintDocumented()
    ensures Print(49152) == "49152"
  {
    assert PrintNat(4) == "4" && PrintNat(49) == "49" && PrintNat(491) == "491" && PrintNat(4915) == "4915";
  }

  // ---- Command lines as mixtures of blocks ----

  /** An option with all its arguments, or one positional argument. */
  datatype Item = Block(words: seq<string>) | Word(word: string)

  predicate WellFormed(i: Item) {
    if i.Block? then i.words != [] && Dashed(i.words[0]) && |i.words| == 1 + Arity(i.words[0])
    else !Dashed(i.word)
  }

  function Spelled(i: Item): seq<string> {
    if i.Block? then i.words else [i.word]
  }

  function Flatten(l: seq<Item>): seq<string> {
    if l == [] then []
    else Spelled(l[0]) + Flatten(l[1..])
  }

  function Blocks(l: seq<Item>): seq<Item> {
    if l == [] then [] else (if l[0].Block? then [l[0]] else []) + Blocks(l[1..])
  }

  function Words(l: seq<Item>): seq<Item> {
    if l == [] then [] else (if l[0].Word? then [l[0]] else []) + Words(l[1..])
  }

  function RunItem(i: Item, relative: nat, c: Config): Option<Config> {
    if i.Block? then Named(i.words, c) else Positional(i.word, relative, c)
  }

  function After(i: Item, relative: nat): nat {
    if i.Word? then relative + 1 else relative
  }

  function RunItems(l: seq<Item>, relative: nat, c: Config): Outcome {
    if l == [] then Outcome(c, relative, false)
    else
      var next := RunItem(l[0], relative, c);
      if next.None? then Outcome(c, relative, true) else RunItems(l[1..], After(l[0], relative), next.value)
  }

  lemma NamedFront(words: seq<string>, rest: seq<string>, c: Config)
    requires WellFormed(Block(words))
    ensures Named(words + rest, c) == Named(words, c)
    ensures Drop(words + rest, |words|) == rest
  {
    hide Stoi;
    assert forall k: nat | k < |words| :: Arg(words + rest, k) == Arg(words, k);
  }

  /** A command line that starts with these items parses them first. */
  lemma {:induction false} ParsePrefix(l: seq<Item>, tail: seq<string>, relative: nat, c: Config)
    requires forall i | i in l :: WellFormed(i)
    ensures var o := RunItems(l, relative, c);
            Parse(Flatten(l) + tail, relative, c) == if o.threw then o else Parse(tail, o.relative, o.config)
    decreases |l|
  {
    hide Named;
    hide Positional;
    hide Parse;
    hide RunItems;
    if l == [] {
      RunNothing(relative, c);
      assert Flatten(l) + tail == tail;
    } else {
      var rest := Flatten(l[1..]) + tail;
      var next := RunItem(l[0], relative, c);
      assert l[0] in l && l == [l[0]] + l[1..];
      assert Flatten(l) + tail == Spelled(l[0]) + rest;
      FrontItem(l[0], l[1..], relative, c);
      ParseItem(l[0], rest, relative, c);
      if next.Some? {
        ParsePrefix(l[1..], tail, After(l[0], relative), next.value);
      }
    }
  }

  lemma ParseItem(i: Item, rest: seq<string>, relative: nat, c: Config)
    requires WellFormed(i)
    ensures var next := RunItem(i, relative, c);
            Parse(Spelled(i) + rest, relative, c)
            == if next.None? then Outcome(c, relative, true) else Parse(rest, After(i, relative), next.value)
  {
    hide Named;
    hide Positional;
    hide Parse;
    ParseFront(Spelled(i) + rest, relative, c);
    if i.Block? {
      NamedFront(i.words, rest, c);
    } else {
      assert ([i.word] + rest)[1..] == rest;
    }
  }

  lemma ParseFlatten(l: seq<Item>, relative: nat, c: Config)
    requires forall i | i in l :: WellFormed(i)
    ensures Parse(Flatten(l), relative, c) == RunItems(l, relative, c)
  {
    hide Parse;
    ParsePrefix(l, [], relative, c);
    assert Flatten(l) + [] == Flatten(l);
    ParseNothing(RunItems(l, relative, c).relative, RunItems(l, relative, c).config);
  }

  // ---- Exceptions ----

  /** The argument at the front is an option or a positional argument that takes a number, and the
      text in the number's place, empty past the end, cannot be read as one. */
  predicate BadNumber(args: seq<string>, relative: nat)
    requires args != []
  {
    || ((args[0] == "--addr" || args[0] == "-a") && Stoi(Arg(args, 1)).None?)
    || (args[0] == "--com" && Stoi(Arg(args, 2)).None?)
    || (args[0] == "--socket" && Stoi(Arg(args, 3)).None?)
    || (!Dashed(args[0]) && (relative == 1 || relative == 2) && Stoi(args[0]).None?)
  }

  lemma ThrowsAtFront(args: seq<string>, relative: nat, c: Config)
    requires args != []
    ensures BadNumber(args, relative) <==>
            if Dashed(args[0]) then Named(args, c).None? else Positional(args[0], relative, c).None?
  {
    hide Stoi;
  }

  /** After these items, which are parsed without an exception, comes a bad number. */
  ghost predicate BadAfter(args: seq<string>, relative: nat, c: Config, l: seq<Item>, tail: seq<string>) {
    && args == Flatten(l) + tail && (forall i | i in l :: WellFormed(i))
    && !RunItems(l, relative, c).threw
    && tail != [] && BadNumber(tail, RunItems(l, relative, c).relative)
  }

  /** A bad number throws, and the configuration is the one reached before it. */
  lemma ThrowsAt(args: seq<string>, relative: nat, c: Config, l: seq<Item>, tail: seq<string>)
    requires BadAfter(args, relative, c, l, tail)
    ensures var o := RunItems(l, relative, c);
            Parse(args, relative, c) == Outcome(o.config, o.relative, true)
  {
    hide Named;
    hide Positional;
    hide BadNumber;
    hide Parse;
    var o := RunItems(l, relative, c);
    ParsePrefix(l, tail, relative, c);
    ThrowsAtFront(tail, o.relative, o.config);
    ParseFront(tail, o.relative, o.config);
  }

  /** Whatever throws is a bad number after complete items. */
  lemma {:induction false} ThrowHistory(args: seq<string>, relative: nat, c: Config)
    returns (l: seq<Item>, tail: seq<string>)
    requires Parse(args, relative, c).threw
    ensures BadAfter(args, relative, c, l, tail)
    decreases |args|
  {
    hide Named;
    hide Positional;
    hide BadNumber;
    hide RunItems;
    hide Flatten;
    hide Arity;
    RunNothing(relative, c);
    ThrowsAtFront(args, relative, c);
    if BadNumber(args, relative) {
      l, tail := [], args;
      FlattenNothing();
    } else {
      var first := if Dashed(args[0]) then Block(FrontBlock(args)) else Word(args[0]);
      var rest := if Dashed(args[0]) then Drop(args, 1 + Arity(args[0])) else args[1..];
      assert first.Block? ==> 1 + Arity(args[0]) <= |args|;
      assert args == Spelled(first) + rest && WellFormed(first);
      if first.Block? {
        NamedFront(first.words, rest, c);
      }
      var next := RunItem(first, relative, c).value;
      l, tail := ThrowHistory(rest, After(first, relative), next);
      BadLater(first, rest, relative, c, next, l, tail);
      l := [first] + l;
    }
  }

  function FrontBlock(args: seq<string>): seq<string>
    requires args != []
  {
    if 1 + Arity(args[0]) <= |args| then args[..1 + Arity(args[0])] else args
  }

  lemma FlattenNothing()
    ensures Flatten([]) == []
  {}

  lemma BadLater(first: Item, rest: seq<string>, relative: nat, c: Config, next: Config, l: seq<Item>,
                 tail: seq<string>)
    requires WellFormed(first) && RunItem(first, relative, c) == Some(next)
    requires BadAfter(rest, After(first, relative), next, l, tail)
    ensures BadAfter(Spelled(first) + rest, relative, c, [first] + l, tail)
  {
    hide RunItem;
    hide RunItems;
    hide BadNumber;
    FrontItem(first, l, relative, c);
    assert ([first] + l)[1..] == l;
    assert Spelled(first) + (Flatten(l) + tail) == Flatten([first] + l) + tail;
  }

  /** A command line throws if and only if a bad number comes after complete items. */
  lemma ThrowsIffBadNumber(args: seq<string>, relative: nat, c: Config)
    ensures Parse(args, relative, c).threw <==> exists l, tail :: BadAfter(args, relative, c, l, tail)
    ensures Parse(args, relative, c).threw ==>
              exists l, tail :: BadAfter(args, relative, c, l, tail)
                && Parse(args, relative, c).config == RunItems(l, relative, c).config
  {
    hide Parse;
    hide BadAfter;
    if Parse(args, relative, c).threw {
      var l, tail := ThrowHistory(args, relative, c);
      ThrowsAt(args, relative, c, l, tail);
    }
    if l, tail :| BadAfter(args, relative, c, l, tail) {
      ThrowsAt(args, relative, c, l, tail);
    }
  }

  // ---- Unknown options and missing arguments ----

  /** An option that is not known is skipped, with nothing after it. */
  lemma UnknownOption(name: string, rest: seq<string>, relative: nat, c: Config)
    requires name != "" && name[0] == '-'
    requires name != "--net" && name != "-n" && name != "--addr" && name != "-a" && name != "--psk"
    requires name != "--com" && name != "--socket" && name != "--config" && name != "-c" && name != "--debug"
    ensures Parse([name] + rest, relative, c) == Parse(rest, relative, c)
  {
    hide Parse;
    ParseFront([name] + rest, relative, c);
    assert Drop([name] + rest, 1) == rest;
  }

  /** An option at the end without its text takes the empty one. */
  lemma MissingText(relative: nat, c: Config)
    ensures Parse(["--net"], relative, c) == Parse(["-n"], relative, c)
         == Outcome(c.(networkName := ""), relative, false)
    ensures Parse(["--psk"], relative, c) == Outcome(c.(networkPsk := ""), relative, false)
    ensures Parse(["--config"], relative, c) == Parse(["-c"], relative, c)
         == Outcome(c.(configPath := ""), relative, false)
  {
    hide Parse;
    ParseFront(["--net"], relative, c);
    ParseFront(["-n"], relative, c);
    ParseFront(["--psk"], relative, c);
    ParseFront(["--config"], relative, c);
    ParseFront(["-c"], relative, c);
    ParseNothing(relative, c.(networkName := ""));
    ParseNothing(relative, c.(networkPsk := ""));
    ParseNothing(relative, c.(configPath := ""));
  }

  /** One without its number throws. */
  lemma MissingNumber(path: string, kind: string, host: string, relative: nat, c: Config)
    ensures Parse(["--addr"], relative, c) == Parse(["-a"], relative, c)
         == Parse(["--com", path], relative, c) == Parse(["--socket", kind, host], relative, c)
         == Outcome(c, relative, true)
  {
    hide Parse;
    StoiReads("", "", "", "");
    ParseFront(["--addr"], relative, c);
    ParseFront(["-a"], relative, c);
    ParseFront(["--com", path], relative, c);
    ParseFront(["--socket", kind, host], relative, c);
  }

  // ---- Interleaving ----

  /** Option fields from a, positional fields from b. */
  function Merge(a: Config, b: Config): Config {
    a.(actionType := b.actionType, deviceAddr := b.deviceAddr, devicePort := b.devicePort,
       actionName := b.actionName, actionValues := b.actionValues)
  }

  lemma NamedMerges(words: seq<string>, a: Config, b: Config)
    ensures Named(words, Merge(a, b)) ==
            if Named(words, a).None? then None else Some(Merge(Named(words, a).value, b))
  {
    hide Stoi;
  }

  lemma PositionalMerges(word: string, relative: nat, a: Config, b: Config)
    ensures Positional(word, relative, Merge(a, b)) ==
            if Positional(word, relative, b).None? then None else Some(Merge(a, Positional(word, relative, b).value))
  {
    hide Stoi;
  }

  /** A mixture does to the option fields what its options do alone, and to the positional fields
      what its positional arguments do alone, and throws exactly when one of these does. */
  lemma {:induction false} MixtureSplits(l: seq<Item>, relative: nat, a: Config, b: Config)
    ensures var o, p := RunItems(Blocks(l), relative, a), RunItems(Words(l), relative, b);
            var m := RunItems(l, relative, Merge(a, b));
            && m.threw == (o.threw || p.threw)
            && (!m.threw ==> m.config == Merge(o.config, p.config) && m.relative == p.relative)
    decreases |l|
  {
    hide Named;
    hide Positional;
    hide Merge;
    hide RunItems;
    hide Blocks;
    hide Words;
    if l == [] {
      NothingToSplit(relative, a, b);
    } else {
      var first, rest := l[0], l[1..];
      SplitFront(first, rest);
      assert l == [first] + rest;
      match first {
        case Block(words) =>
          NamedMerges(words, a, b);
          FrontItem(first, rest, relative, Merge(a, b));
          FrontItem(first, Blocks(rest), relative, a);
          if Named(words, a).Some? {
            MixtureSplits(rest, relative, Named(words, a).value, b);
          }
        case Word(word) =>
          PositionalMerges(word, relative, a, b);
          FrontItem(first, rest, relative, Merge(a, b));
          FrontItem(first, Words(rest), relative, b);
          OnlyBlocks(rest);
          BlocksIgnorePosition(Blocks(rest), relative, relative + 1, a);
          if Positional(word, relative, b).Some? {
            MixtureSplits(rest, relative + 1, a, Positional(word, relative, b).value);
          }
      }
    }
  }

  lemma NothingToSplit(relative: nat, a: Config, b: Config)
    ensures Blocks([]) == Words([]) == []
    ensures RunItems([], relative, a) == Outcome(a, relative, false)
    ensures RunItems([], relative, b) == Outcome(b, relative, false)
    ensures RunItems([], relative, Merge(a, b)) == Outcome(Merge(a, b), relative, false)
  {}

  lemma SplitFront(i: Item, rest: seq<Item>)
    ensures Blocks([i] + rest) == if i.Block? then [i] + Blocks(rest) else Blocks(rest)
    ensures Words([i] + rest) == if i.Word? then [i] + Words(rest) else Words(rest)
  {
    assert ([i] + rest)[1..] == rest;
  }

  lemma FrontItem(i: Item, rest: seq<Item>, relative: nat, c: Config)
    ensures var next := RunItem(i, relative, c);
            RunItems([i] + rest, relative, c)
            == if next.None? then Outcome(c, relative, true) else RunItems(rest, After(i, relative), next.value)
  {
    hide RunItem;
    assert ([i] + rest)[1..] == rest;
  }

  lemma {:induction false} OnlyBlocks(l: seq<Item>)
    ensures forall i | i in Blocks(l) :: i.Block?
    decreases |l|
  {
    if l != [] {
      OnlyBlocks(l[1..]);
    }
  }

  lemma {:induction false} BlocksIgnorePosition(l: seq<Item>, r1: nat, r2: nat, c: Config)
    requires forall i | i in l :: i.Block?
    ensures RunItems(l, r1, c).threw == RunItems(l, r2, c).threw
    ensures RunItems(l, r1, c).config == RunItems(l, r2, c).config
    decreases |l|
  {
    hide Named;
    if l != [] {
      assert l[0] in l;
      if Named(l[0].words, c).Some? {
        BlocksIgnorePosition(l[1..], r1, r2, Named(l[0].words, c).value);
      }
    }
  }

  /** Any two mixtures of the same options and the same positional arguments, each in its own
      order, parse to the same configuration, or both throw. */
  lemma InterleavingIndependence(l1: seq<Item>, l2: seq<Item>, c: Config)
    requires forall i | i in l1 :: WellFormed(i)
    requires forall i | i in l2 :: WellFormed(i)
    requires Blocks(l1) == Blocks(l2) && Words(l1) == Words(l2)
    ensures var o1, o2 := Parse(Flatten(l1), 0, c), Parse(Flatten(l2), 0, c);
            o1.threw == o2.threw && (!o1.threw ==> o1.config == o2.config)
  {
    ParseFlatten(l1, 0, c);
    ParseFlatten(l2, 0, c);
    assert Merge(c, c) == c;
    MixtureSplits(l1, 0, c, c);
    MixtureSplits(l2, 0, c, c);
  }

  // ---- Printing ----

  /** What no command line can produce: a positional string that looks like an option. */
  predicate Representable(c: Config) {
    !Dashed(c.actionType) && !Dashed(c.actionName) && forall v | v in c.actionValues :: !Dashed(v)
  }

  /** A number as a positional argument: a space in front keeps a minus sign from being taken
      for an option. */
  function PrintWord(x: int): string {
    if x < 0 then " " + Print(x) else Print(x)
  }

  /** The int that converts to this unsigned value. */
  function AsInt(u: uint): i32 {
    if u < 0x8000_0000 then u else u - 0x1_0000_0000
  }

  function ComItems(l: seq<ComInterface>): seq<Item> {
    if l == [] then [] else [Block(["--com", l[0].path, Print(l[0].baud)])] + ComItems(l[1..])
  }

  function SocketItems(l: seq<SocketInterface>): seq<Item> {
    if l == [] then []
    else [Block(["--socket", if l[0].isServer then "server" else "client", l[0].hostname, Print(l[0].port)])]
         + SocketItems(l[1..])
  }

  function ValueItems(l: seq<string>): seq<Item> {
    if l == [] then [] else [Word(l[0])] + ValueItems(l[1..])
  }

  /** With the long names of the options or with the short ones. */
  function NetworkItems(c: Config, brief: bool): seq<Item> {
    [Block([if brief then "-n" else "--net", c.networkName]),
     Block([if brief then "-a" else "--addr", Print(AsInt(c.networkAddr))]),
     Block(["--psk", c.networkPsk]),
     Block([if brief then "-c" else "--config", c.configPath])] + if c.debug then [Block(["--debug"])] else []
  }

  function TargetItems(c: Config): seq<Item> {
    [Word(c.actionType), Word(PrintWord(AsInt(c.deviceAddr))), Word(PrintWord(c.devicePort)), Word(c.actionName)]
  }

  function PrintItems(c: Config, brief: bool): seq<Item> {
    NetworkItems(c, brief)
    + (ComItems(c.comDevices)
       + (SocketItems(c.socketInterfaces) + (TargetItems(c) + ValueItems(c.actionValues))))
  }

  function PrintArgs(c: Config, brief: bool): seq<string> {
    Flatten(PrintItems(c, brief))
  }

  lemma {:induction false} RunAppend(l1: seq<Item>, l2: seq<Item>, relative: nat, c: Config)
    ensures var o := RunItems(l1, relative, c);
            RunItems(l1 + l2, relative, c) == if o.threw then o else RunItems(l2, o.relative, o.config)
    decreases |l1|
  {
    hide Named;
    hide Positional;
    if l1 == [] {
      assert l1 + l2 == l2;
    } else {
      assert (l1 + l2)[1..] == l1[1..] + l2;
      var next := match l1[0] case Block(words) => Named(words, c) case Word(word) => Positional(word, relative, c);
      if next.Some? {
        RunAppend(l1[1..], l2, relative + if l1[0].Word? then 1 else 0, next.value);
      }
    }
  }

  lemma NamedCom(com: ComInterface, c: Config)
    ensures Named(["--com", com.path, Print(com.baud)], c) == Some(c.(comDevices := c.comDevices + [com]))
  {
    hide Stoi;
    StoiPrint(com.baud);
  }

  lemma NamedSocket(s: SocketInterface, c: Config)
    ensures Named(["--socket", if s.isServer then "server" else "client", s.hostname, Print(s.port)], c)
         == Some(c.(socketInterfaces := c.socketInterfaces + [s]))
  {
    hide Stoi;
    StoiPrint(s.port);
  }

  lemma {:induction false} RunComs(l: seq<ComInterface>, relative: nat, c: Config)
    ensures RunItems(ComItems(l), relative, c) == Outcome(c.(comDevices := c.comDevices + l), relative, false)
    decreases |l|
  {
    hide Named;
    hide Print;
    hide RunItems;
    if l == [] {
      RunNothing(relative, c);
      assert c.comDevices + l == c.comDevices;
    } else {
      var next := c.(comDevices := c.comDevices + [l[0]]);
      NamedCom(l[0], c);
      RunOne(Block(["--com", l[0].path, Print(l[0].baud)]), ComItems(l[1..]), relative, c, next);
      RunComs(l[1..], relative, next);
      assert c.comDevices + [l[0]] + l[1..] == c.comDevices + l;
    }
  }

  lemma {:induction false} RunSockets(l: seq<SocketInterface>, relative: nat, c: Config)
    ensures RunItems(SocketItems(l), relative, c)
              == Outcome(c.(socketInterfaces := c.socketInterfaces + l), relative, false)
    decreases |l|
  {
    hide Named;
    hide Print;
    hide RunItems;
    if l == [] {
      RunNothing(relative, c);
      assert c.socketInterfaces + l == c.socketInterfaces;
    } else {
      var next := c.(socketInterfaces := c.socketInterfaces + [l[0]]);
      NamedSocket(l[0], c);
      RunOne(Block(["--socket", if l[0].isServer then "server" else "client", l[0].hostname, Print(l[0].port)]),
             SocketItems(l[1..]), relative, c, next);
      RunSockets(l[1..], relative, next);
      assert c.socketInterfaces + [l[0]] + l[1..] == c.socketInterfaces + l;
    }
  }

  lemma {:induction false} RunValues(l: seq<string>, relative: nat, c: Config)
    requires relative >= 4
    ensures RunItems(ValueItems(l), relative, c)
              == Outcome(c.(actionValues := c.actionValues + l), relative + |l|, false)
    decreases |l|
  {
    hide RunItems;
    hide Stoi;
    if l == [] {
      RunNothing(relative, c);
      assert c.actionValues + l == c.actionValues;
    } else {
      var next := c.(actionValues := c.actionValues + [l[0]]);
      RunOne(Word(l[0]), ValueItems(l[1..]), relative, c, next);
      RunValues(l[1..], relative + 1, next);
      assert c.actionValues + [l[0]] + l[1..] == c.actionValues + l;
    }
  }

  lemma RunOne(i: Item, rest: seq<Item>, relative: nat, c: Config, c': Config)
    requires RunItem(i, relative, c) == Some(c')
    ensures RunItems([i] + rest, relative, c) == RunItems(rest, After(i, relative), c')
  {
    hide RunItem;
    hide RunItems;
    FrontItem(i, rest, relative, c);
  }

  lemma RunNetwork(c: Config, brief: bool)
    ensures RunItems(NetworkItems(c, brief), 0, DEFAULT)
         == Outcome(Config(c.networkName, c.networkAddr, c.networkPsk, [], [], c.configPath, "", 0, 0, "", [],
             c.debug), 0, false)
  {
    hide Stoi;
    hide Print;
    hide RunItems;
    StoiPrint(AsInt(c.networkAddr));
    var i1 := Block([if brief then "-n" else "--net", c.networkName]);
    var i2 := Block([if brief then "-a" else "--addr", Print(AsInt(c.networkAddr))]);
    var i3 := Block(["--psk", c.networkPsk]);
    var i4 := Block([if brief then "-c" else "--config", c.configPath]);
    var i5 := Block(["--debug"]);
    var d0 := DEFAULT;
    var d1 := d0.(networkName := c.networkName);
    var d2 := d1.(networkAddr := c.networkAddr);
    var d3 := d2.(networkPsk := c.networkPsk);
    var d4 := d3.(configPath := c.configPath);
    var l5: seq<Item> := if c.debug then [i5] else [];
    RunOne(i1, [i2] + ([i3] + ([i4] + l5)), 0, d0, d1);
    RunOne(i2, [i3] + ([i4] + l5), 0, d1, d2);
    RunOne(i3, [i4] + l5, 0, d2, d3);
    RunOne(i4, l5, 0, d3, d4);
    assert NetworkItems(c, brief) == [i1] + ([i2] + ([i3] + ([i4] + l5)));
    RunNothing(0, d4);
    if c.debug {
      RunOne(i5, [], 0, d4, d4.(debug := true));
      assert [i5] + [] == [i5];
      RunNothing(0, d4.(debug := true));
    }
  }

  lemma RunNothing(relative: nat, c: Config)
    ensures RunItems([], relative, c) == Outcome(c, relative, false)
  {}

  lemma RunTarget(c: Config, d: Config)
    ensures RunItems(TargetItems(c), 0, d)
         == Outcome(d.(actionType := c.actionType, deviceAddr := c.deviceAddr, devicePort := c.devicePort,
             actionName := c.actionName), 4, false)
  {
    hide Stoi;
    hide RunItems;
    StoiPrint(AsInt(c.deviceAddr));
    StoiPrint(c.devicePort);
    var i1, i2 := Word(c.actionType), Word(PrintWord(AsInt(c.deviceAddr)));
    var i3, i4 := Word(PrintWord(c.devicePort)), Word(c.actionName);
    var d1 := d.(actionType := c.actionType);
    var d2 := d1.(deviceAddr := c.deviceAddr);
    var d3 := d2.(devicePort := c.devicePort);
    var d4 := d3.(actionName := c.actionName);
    RunOne(i1, [i2] + ([i3] + ([i4] + [])), 0, d, d1);
    RunOne(i2, [i3] + ([i4] + []), 1, d1, d2);
    RunOne(i3, [i4] + [], 2, d2, d3);
    RunOne(i4, [], 3, d3, d4);
    RunNothing(4, d4);
    assert TargetItems(c) == [i1] + ([i2] + ([i3] + ([i4] + [])));
  }

  lemma RunPrinted(c: Config, brief: bool)
    ensures RunItems(PrintItems(c, brief), 0, DEFAULT) == Outcome(c, 4 + |c.actionValues|, false)
  {
    hide RunItems;
    hide NetworkItems;
    hide TargetItems;
    hide ComItems;
    hide SocketItems;
    hide ValueItems;
    var n, m, s, t, v := NetworkItems(c, brief), ComItems(c.comDevices), SocketItems(c.socketInterfaces),
        TargetItems(c), ValueItems(c.actionValues);
    RunNetwork(c, brief);
    var d1 := RunItems(n, 0, DEFAULT).config;
    RunComs(c.comDevices, 0, d1);
    var d2 := RunItems(m, 0, d1).config;
    RunSockets(c.socketInterfaces, 0, d2);
    var d3 := RunItems(s, 0, d2).config;
    RunTarget(c, d3);
    var d4 := RunItems(t, 0, d3).config;
    RunValues(c.actionValues, 4, d4);
    RunAppend(n, m + (s + (t + v)), 0, DEFAULT);
    RunAppend(m, s + (t + v), 0, d1);
    RunAppend(s, t + v, 0, d2);
    RunAppend(t, v, 0, d3);
    assert [] + c.comDevices == c.comDevices && [] + c.socketInterfaces == c.socketInterfaces
        && [] + c.actionValues == c.actionValues;
  }

  predicate AllWellFormed(l: seq<Item>) {
    forall i | i in l :: WellFormed(i)
  }

  lemma AllOfBoth(l1: seq<Item>, l2: seq<Item>)
    requires AllWellFormed(l1) && AllWellFormed(l2)
    ensures AllWellFormed(l1 + l2)
  {}

  lemma PrintedWellFormed(c: Config, brief: bool)
    requires Representable(c)
    ensures AllWellFormed(PrintItems(c, brief))
  {
    hide AllWellFormed;
    hide NetworkItems;
    hide TargetItems;
    var n, m, s, t, v := NetworkItems(c, brief), ComItems(c.comDevices), SocketItems(c.socketInterfaces),
      TargetItems(c), ValueItems(c.actionValues);
    NetworkWellFormed(c, brief);
    ComsWellFormed(c.comDevices);
    SocketsWellFormed(c.socketInterfaces);
    TargetWellFormed(c);
    ValuesWellFormed(c.actionValues);
    AllOfBoth(t, v);
    AllOfBoth(s, t + v);
    AllOfBoth(m, s + (t + v));
    AllOfBoth(n, m + (s + (t + v)));
  }

  lemma NetworkWellFormed(c: Config, brief: bool)
    ensures AllWellFormed(NetworkItems(c, brief))
  {
    hide Print;
  }

  lemma TargetWellFormed(c: Config)
    requires Representable(c)
    ensures AllWellFormed(TargetItems(c))
  {
    hide PrintWord;
    NotDashed(AsInt(c.deviceAddr));
    NotDashed(c.devicePort);
  }

  lemma NotDashed(x: int)
    ensures !Dashed(PrintWord(x))
  {
    assert x >= 0 ==> Print(x)[0] in PrintNat(x);
  }

  lemma {:induction false} ComsWellFormed(l: seq<ComInterface>)
    ensures AllWellFormed(ComItems(l))
    decreases |l|
  {
    hide Print;
    if l != [] {
      ComsWellFormed(l[1..]);
    }
  }

  lemma {:induction false} SocketsWellFormed(l: seq<SocketInterface>)
    ensures AllWellFormed(SocketItems(l))
    decreases |l|
  {
    hide Print;
    if l != [] {
      SocketsWellFormed(l[1..]);
    }
  }

  lemma {:induction false} ValuesWellFormed(l: seq<string>)
    requires forall v | v in l :: !Dashed(v)
    ensures AllWellFormed(ValueItems(l))
    decreases |l|
  {
    if l != [] {
      ValuesWellFormed(l[1..]);
    }
  }

  /** Parsing what was printed, with either spelling of the options, gives back the configuration. */
  lemma CommandLineRoundTrip(c: Config, brief: bool)
    requires Representable(c)
    ensures Parse(PrintArgs(c, brief), 0, DEFAULT) == Outcome(c, 4 + |c.actionValues|, false)
  {
    PrintedWellFormed(c, brief);
    ParseFlatten(PrintItems(c, brief), 0, DEFAULT);
    RunPrinted(c, brief);
  }

  lemma {:induction false} ParsedIsRepresentable(args: seq<string>, relative: nat, c: Config)
    requires Representable(c)
    ensures Representable(Parse(args, relative, c).config)
    decreases |args|
  {
    hide Stoi;
    if args != [] {
      if Dashed(args[0]) {
        if Named(args, c).Some? {
          ParsedIsRepresentable(Drop(args, 1 + Arity(args[0])), relative, Named(args, c).value);
        }
      } else if Positional(args[0], relative, c).Some? {
        ParsedIsRepresentable(args[1..], relative + 1, Positional(args[0], relative, c).value);
      }
    }
  }

  /** A configuration can be given on some command line if and only if none of its positional
      strings looks like an option. */
  lemma ReachableIffRepresentable(c: Config)
    ensures Representable(c) <==> exists args :: Parse(args, 0, DEFAULT).config == c && !Parse(args, 0, DEFAULT).threw
  {
    if Representable(c) {
      CommandLineRoundTrip(c, false);
    }
    if args :| Parse(args, 0, DEFAULT).config == c && !Parse(args, 0, DEFAULT).threw {
      ParsedIsRepresentable(args, 0, DEFAULT);
    }
  }
}
