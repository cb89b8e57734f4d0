/** The friendly command-line tool starts the transfer tool through the shell. What it asks for is
    what the transfer tool's own argument parser understands. */
module Cli {
  import opened Basics
  import opened Shell

  // ----- The transfer tool's side: parse_args -----

  datatype FileOptions = FileOptions(
    send: bool, receive: bool, autoDiscover: bool, advertise: bool,
    host: string, port: nat, discoveryPort: nat, parallel: nat,
    file: string, outputDir: string, remoteName: string)

  const DEFAULT_PORT: nat := 47790
  const DEFAULT_DISCOVERY_PORT: nat := 47789

  function Defaults(): FileOptions {
    FileOptions(false, false, false, true, "0.0.0.0", DEFAULT_PORT, DEFAULT_DISCOVERY_PORT, 1, "", ".", "")
  }

  datatype ArgumentError =
    | MissingValue | BadNumber | BadPort | ZeroParallel | UnknownArgument | HelpRequested
    | NotOneMode | SendWithoutFile | AutoWithoutSend | PortsExceedRange

  /** std::stoul: its value, below 2^64, or None where it throws. */
  type Stoul = string -> Option<U64>

  function ParsePort(stoul: Stoul, value: string): Result<nat, ArgumentError> {
    match stoul(value)
    case None => Err(BadNumber)
    case Some(n) => if n == 0 || n > MAX_PORT then Err(BadPort) else Ok(n)
  }

  /** The number of streams, cut to 32 bits. */
  function ParseParallel(stoul: Stoul, value: string): Result<nat, ArgumentError> {
    match stoul(value)
    case None => Err(BadNumber)
    case Some(n) => if n % U32_MODULUS == 0 then Err(ZeroParallel) else Ok(n % U32_MODULUS)
  }

  predicate TakesValue(flag: string) {
    flag in ["--host", "--port", "--discovery-port", "--parallel", "--file", "--output-dir", "--out", "--name"]
  }

  /** An option without a value. */
  function Switch(o: FileOptions, flag: string): Result<FileOptions, ArgumentError> {
    if flag == "--send" then Ok(o.(send := true, host := "127.0.0.1"))
    else if flag == "--receive" then Ok(o.(receive := true, host := "0.0.0.0"))
    else if flag == "--auto" then Ok(o.(autoDiscover := true, host := ""))
    else if flag == "--no-advertise" then Ok(o.(advertise := false))
    else if flag == "--help" || flag == "-h" then Err(HelpRequested)
    else Err(UnknownArgument)
  }

  /** An option with its value. */
  function Assign(stoul: Stoul, o: FileOptions, flag: string, value: string): Result<FileOptions, ArgumentError>
    requires TakesValue(flag)
  {
    if flag == "--host" then Ok(o.(host := value))
    else if flag == "--port" then
      (match ParsePort(stoul, value) case Err(e) => Err(e) case Ok(n) => Ok(o.(port := n)))
    else if flag == "--discovery-port" then
      (match ParsePort(stoul, value) case Err(e) => Err(e) case Ok(n) => Ok(o.(discoveryPort := n)))
    else if flag == "--parallel" then
      (match ParseParallel(stoul, value) case Err(e) => Err(e) case Ok(n) => Ok(o.(parallel := n)))
    else if flag == "--file" then Ok(o.(file := value))
    else if flag == "--name" then Ok(o.(remoteName := value))
    else Ok(o.(outputDir := value))
  }

  function ParseFrom(stoul: Stoul, o: FileOptions, args: seq<string>): Result<FileOptions, ArgumentError>
    decreases |args|
  {
    if args == [] then Ok(o)
    else if TakesValue(args[0]) then
      if |args| == 1 then Err(MissingValue)
      else
        (match Assign(stoul, o, args[0], args[1])
         case Err(e) => Err(e)
         case Ok(o') => ParseFrom(stoul, o', args[2..]))
    else
      (match Switch(o, args[0])
       case Err(e) => Err(e)
       case Ok(o') => ParseFrom(stoul, o', args[1..]))
  }

  /** The checks after the loop. */
  function Check(o: FileOptions): Result<FileOptions, ArgumentError> {
    if o.send == o.receive then Err(NotOneMode)
    else if o.send && o.file == "" then Err(SendWithoutFile)
    else if o.receive && o.autoDiscover then Err(AutoWithoutSend)
    else if o.port + o.parallel - 1 > MAX_PORT then Err(PortsExceedRange)
    else Ok(o)
  }

  function Parsed(stoul: Stoul, args: seq<string>): Result<FileOptions, ArgumentError> {
    match ParseFrom(stoul, Defaults(), args)
    case Err(e) => Err(e)
    case Ok(o) => Check(o)
  }

  method ParseArgs(stoul: Stoul, args: seq<string>) returns (result: Result<FileOptions, ArgumentError>)
    ensures result == Parsed(stoul, args)
  {
    var options, index := Defaults(), 0;
    while index < |args|
      invariant index <= |args|
      invariant ParseFrom(stoul, Defaults(), args) == ParseFrom(stoul, options, args[index..])
    {
      var rest := args[index..];
      var arg := args[index];
      var step;
      if TakesValue(arg) {
        if index + 1 >= |args| {
          return Err(MissingValue);
        }
        index := index + 1;
        step := Assign(stoul, options, arg, args[index]);
        assert rest[2..] == args[index + 1..] && rest[1] == args[index];
      } else {
        step := Switch(options, arg);
        assert rest[1..] == args[index + 1..];
      }
      if step.Err? {
        return Err(step.error);
      }
      options := step.value;
      index := index + 1;
    }
    return Check(options);
  }

  // ----- The friendly tool's side: run_send and run_receive -----

  datatype SendOptions = SendOptions(
    file: string, host: string, port: string, parallel: string, discoveryPort: string, remoteName: string)

  datatype ReceiveOptions = ReceiveOptions(
    host: string, port: string, outputDir: string, parallel: string, discoveryPort: string, advertise: bool)

  function SendArguments(o: SendOptions): seq<string> {
    ["--send", "--file", o.file, "--discovery-port", o.discoveryPort]
    + (if o.host == "" then ["--auto"] else ["--host", o.host, "--port", o.port, "--parallel", o.parallel])
    + if o.remoteName == "" then [] else ["--name", o.remoteName]
  }

  method RunSend(o: SendOptions, tool: string) returns (command: string)
    ensures command == CommandLine([tool] + SendArguments(o))
  {
    var args := ["--send", "--file", o.file, "--discovery-port", o.discoveryPort];
    if o.host == "" {
      args := args + ["--auto"];
    } else {
      args := args + ["--host"] + [o.host] + ["--port"] + [o.port] + ["--parallel"] + [o.parallel];
    }
    if o.remoteName != "" {
      args := args + ["--name"] + [o.remoteName];
    }
    assert args == SendArguments(o);
    command := RunCommand(tool, args);
  }

  function ReceiveArguments(o: ReceiveOptions): seq<string> {
    ["--receive", "--host", o.host, "--port", o.port, "--output-dir", o.outputDir, "--parallel", o.parallel,
     "--discovery-port", o.discoveryPort]
    + if o.advertise then [] else ["--no-advertise"]
  }

  method RunReceive(o: ReceiveOptions, tool: string) returns (command: string)
    ensures command == CommandLine([tool] + ReceiveArguments(o))
  {
    var args := ["--receive", "--host", o.host, "--port", o.port, "--output-dir", o.outputDir, "--parallel", o.parallel,
                 "--discovery-port", o.discoveryPort];
    if !o.advertise {
      args := args + ["--no-advertise"];
    }
    assert args == ReceiveArguments(o);
    command := RunCommand(tool, args);
  }

  // ----- What arrives -----

  /** What the user of `send` wants: a file to a host on given ports, or to whoever is found. Numbers
      the transfer tool cannot take are reported in the order discovery port, port, streams. */
  function SendIntent(stoul: Stoul, o: SendOptions): Result<FileOptions, ArgumentError> {
    match ParsePort(stoul, o.discoveryPort)
    case Err(e) => Err(e)
    case Ok(discovery) =>
      if o.host == "" then
        Ok(FileOptions(true, false, true, true, "", DEFAULT_PORT, discovery, 1, o.file, ".", o.remoteName))
      else
        match ParsePort(stoul, o.port)
        case Err(e) => Err(e)
        case Ok(port) =>
          match ParseParallel(stoul, o.parallel)
          case Err(e) => Err(e)
          case Ok(parallel) =>
            if port + parallel - 1 > MAX_PORT then Err(PortsExceedRange)
            else Ok(FileOptions(true, false, false, true, o.host, port, discovery, parallel, o.file, ".", o.remoteName))
  }

  function ReceiveIntent(stoul: Stoul, o: ReceiveOptions): Result<FileOptions, ArgumentError> {
    match ParsePort(stoul, o.port)
    case Err(e) => Err(e)
    case Ok(port) =>
      match ParseParallel(stoul, o.parallel)
      case Err(e) => Err(e)
      case Ok(parallel) =>
        match ParsePort(stoul, o.discoveryPort)
        case Err(e) => Err(e)
        case Ok(discovery) =>
          if port + parallel - 1 > MAX_PORT then Err(PortsExceedRange)
          else Ok(FileOptions(false, true, false, o.advertise, o.host, port, discovery, parallel, "", o.outputDir, ""))
  }

  function Then(stoul: Stoul, step: Result<FileOptions, ArgumentError>, rest: seq<string>): Result<FileOptions,
                ArgumentError> {
    match step
    case Err(e) => Err(e)
    case Ok(o) => ParseFrom(stoul, o, rest)
  }

  lemma {:induction false} StepValue(stoul: Stoul, o: FileOptions, flag: string, value: string, rest: seq<string>)
    requires TakesValue(flag)
    ensures ParseFrom(stoul, o, [flag, value] + rest) == Then(stoul, Assign(stoul, o, flag, value), rest)
  {
    hide Assign, TakesValue;
    assert ([flag, value] + rest)[2..] == rest;
  }

  lemma {:induction false} StepSwitch(stoul: Stoul, o: FileOptions, flag: string, rest: seq<string>)
    requires !TakesValue(flag)
    ensures ParseFrom(stoul, o, [flag] + rest) == Then(stoul, Switch(o, flag), rest)
  {
    hide Switch, TakesValue;
    assert ([flag] + rest)[1..] == rest;
  }

  /** Which names take values. */
  lemma {:induction false} Flags()
    ensures TakesValue("--host") && TakesValue("--port") && TakesValue("--discovery-port") && TakesValue("--parallel")
    ensures TakesValue("--file") && TakesValue("--output-dir") && TakesValue("--out") && TakesValue("--name")
    ensures !TakesValue("--send") && !TakesValue("--receive") && !TakesValue("--auto") && !TakesValue("--no-advertise")
  {
  }

  // ----- What the parser makes of argument lists -----

  /** Arguments that are understood leave the rest to be read from where they lead. */
  lemma {:induction false} ParseAppend(stoul: Stoul, o: FileOptions, a: seq<string>, b: seq<string>)
    requires ParseFrom(stoul, o, a).Ok?
    ensures ParseFrom(stoul, o, a + b) == ParseFrom(stoul, ParseFrom(stoul, o, a).value, b)
    decreases |a|
  {
    hide Assign, Switch, TakesValue;
    if a == [] {
      assert a + b == b;
    } else if TakesValue(a[0]) {
      ParseAppend(stoul, Assign(stoul, o, a[0], a[1]).value, a[2..], b);
      assert (a + b)[2..] == a[2..] + b;
    } else {
      ParseAppend(stoul, Switch(o, a[0]).value, a[1..], b);
      assert (a + b)[1..] == a[1..] + b;
    }
  }

  /** Behind any understood arguments, both spellings of the output directory set it. */
  lemma {:induction false} OutputDirectoryIsSet(stoul: Stoul, a: seq<string>, directory: string)
    requires ParseFrom(stoul, Defaults(), a).Ok?
    ensures ParseFrom(stoul, Defaults(), a + ["--out", directory]) ==
            Ok(ParseFrom(stoul, Defaults(), a).value.(outputDir := directory))
    ensures ParseFrom(stoul, Defaults(), a + ["--output-dir", directory]) ==
            ParseFrom(stoul, Defaults(), a + ["--out", directory])
  {
    hide ParseFrom, TakesValue;
    var o := ParseFrom(stoul, Defaults(), a).value;
    Flags();
    ParseAppend(stoul, Defaults(), a, ["--out", directory]);
    ParseAppend(stoul, Defaults(), a, ["--output-dir", directory]);
    assert ["--out", directory] + [] == ["--out", directory];
    assert ["--output-dir", directory] + [] == ["--output-dir", directory];
    StepValue(stoul, o, "--out", directory, []);
    StepValue(stoul, o, "--output-dir", directory, []);
    NothingToParse(stoul, o.(outputDir := directory));
  }

  lemma {:induction false} NothingToParse(stoul: Stoul, o: FileOptions)
    ensures ParseFrom(stoul, o, []) == Ok(o)
  {
  }

  /** Behind any understood arguments, a port is taken if it is a number from 1 to 65535, and refused
      otherwise, whatever follows. */
  lemma {:induction false} PortIsChecked(stoul: Stoul, a: seq<string>, value: string, rest: seq<string>)
    requires ParseFrom(stoul, Defaults(), a).Ok?
    ensures var o, args := ParseFrom(stoul, Defaults(), a).value, a + (["--port", value] + rest);
            match stoul(value)
            case None => Parsed(stoul, args) == Err(BadNumber)
            case Some(n) =>
              if 1 <= n <= 65535 then ParseFrom(stoul, Defaults(), args) == ParseFrom(stoul, o.(port := n), rest)
              else Parsed(stoul, args) == Err(BadPort)
    ensures var o, args := ParseFrom(stoul, Defaults(), a).value, a + (["--discovery-port", value] + rest);
            match stoul(value)
            case None => Parsed(stoul, args) == Err(BadNumber)
            case Some(n) =>
              if 1 <= n <= 65535 then
                ParseFrom(stoul, Defaults(), args) == ParseFrom(stoul, o.(discoveryPort := n), rest)
              else Parsed(stoul, args) == Err(BadPort)
  {
    hide ParseFrom, TakesValue;
    var o := ParseFrom(stoul, Defaults(), a).value;
    Flags();
    ParseAppend(stoul, Defaults(), a, ["--port", value] + rest);
    ParseAppend(stoul, Defaults(), a, ["--discovery-port", value] + rest);
    StepValue(stoul, o, "--port", value, rest);
    StepValue(stoul, o, "--discovery-port", value, rest);
  }

  /** A number of streams is cut to 32 bits and must not be zero then. */
  lemma {:induction false} ParallelIsChecked(stoul: Stoul, a: seq<string>, value: string, rest: seq<string>)
    requires ParseFrom(stoul, Defaults(), a).Ok?
    ensures var o, args := ParseFrom(stoul, Defaults(), a).value, a + (["--parallel", value] + rest);
            match stoul(value)
            case None => Parsed(stoul, args) == Err(BadNumber)
            case Some(n) =>
              var low := n % 0x1_0000_0000;
              if low >= 1 then ParseFrom(stoul, Defaults(), args) == ParseFrom(stoul, o.(parallel := low), rest)
              else Parsed(stoul, args) == Err(ZeroParallel)
  {
    hide ParseFrom, TakesValue;
    Flags();
    ParseAppend(stoul, Defaults(), a, ["--parallel", value] + rest);
    StepValue(stoul, ParseFrom(stoul, Defaults(), a).value, "--parallel", value, rest);
  }

  /** No option takes back a mode or the automatic discovery, and none but its own sets a mode, the
      discovery or the file. */
  lemma {:induction false} Kept(stoul: Stoul, o: FileOptions, args: seq<string>)
    requires ParseFrom(stoul, o, args).Ok?
    ensures var o' := ParseFrom(stoul, o, args).value;
            && (o.send ==> o'.send) && (o.receive ==> o'.receive) && (o.autoDiscover ==> o'.autoDiscover)
            && ("--send" !in args ==> o'.send == o.send)
            && ("--receive" !in args ==> o'.receive == o.receive)
            && ("--auto" !in args ==> o'.autoDiscover == o.autoDiscover)
            && ("--file" !in args ==> o'.file == o.file)
    decreases |args|
  {
    if args != [] {
      var value := TakesValue(args[0]);
      var o1 := if value then Assign(stoul, o, args[0], args[1]).value else Switch(o, args[0]).value;
      var rest := if value then args[2..] else args[1..];
      Kept(stoul, o1, rest);
      KeptByOne(stoul, o, args);
      hide Assign, Switch, TakesValue;
      assert forall arg | arg in rest :: arg in args;
      assert args[0] in args;
    }
  }

  lemma {:induction false} KeptByOne(stoul: Stoul, o: FileOptions, args: seq<string>)
    requires args != [] && ParseFrom(stoul, o, args).Ok?
    ensures var o' := if TakesValue(args[0]) then Assign(stoul, o, args[0], args[1]).value
                      else Switch(o, args[0]).value;
            && (o.send ==> o'.send) && (o.receive ==> o'.receive) && (o.autoDiscover ==> o'.autoDiscover)
            && (args[0] != "--send" ==> o'.send == o.send)
            && (args[0] != "--receive" ==> o'.receive == o.receive)
            && (args[0] != "--auto" ==> o'.autoDiscover == o.autoDiscover)
            && (args[0] != "--file" ==> o'.file == o.file)
  {
    hide TakesValue, Assign, Switch;
    if TakesValue(args[0]) {
      KeptByAssign(stoul, o, args[0], args[1]);
    } else {
      KeptBySwitch(o, args[0]);
    }
  }

  lemma {:induction false} KeptByAssign(stoul: Stoul, o: FileOptions, flag: string, value: string)
    requires TakesValue(flag) && Assign(stoul, o, flag, value).Ok?
    ensures var o' := Assign(stoul, o, flag, value).value;
            && o'.send == o.send && o'.receive == o.receive && o'.autoDiscover == o.autoDiscover
            && (flag != "--file" ==> o'.file == o.file)
  {
    hide TakesValue, ParsePort, ParseParallel;
  }

  lemma {:induction false} KeptBySwitch(o: FileOptions, flag: string)
    requires Switch(o, flag).Ok?
    ensures var o' := Switch(o, flag).value;
            && (o.send ==> o'.send) && (o.receive ==> o'.receive) && (o.autoDiscover ==> o'.autoDiscover)
            && (flag != "--send" ==> o'.send == o.send) && (flag != "--receive" ==> o'.receive == o.receive)
            && (flag != "--auto" ==> o'.autoDiscover == o.autoDiscover) && o'.file == o.file
  {
  }

  /** Without a mode, or with both, any understood arguments are refused; a sender without a file is; and
      a receiver that is to find someone is, whatever else is said. */
  lemma {:induction false} RefusedCombinations(stoul: Stoul, rest: seq<string>)
    ensures ParseFrom(stoul, Defaults(), rest).Ok? && "--send" !in rest && "--receive" !in rest ==>
              Parsed(stoul, rest) == Err(NotOneMode)
    ensures var args := ["--send", "--receive"] + rest;
            ParseFrom(stoul, Defaults(), args).Ok? ==> Parsed(stoul, args) == Err(NotOneMode)
    ensures var args := ["--send"] + rest;
            ParseFrom(stoul, Defaults(), args).Ok? && "--receive" !in rest && "--file" !in rest ==>
              Parsed(stoul, args) == Err(SendWithoutFile)
    ensures var args := ["--receive", "--auto"] + rest;
            ParseFrom(stoul, Defaults(), args).Ok? && "--send" !in rest ==>
              Parsed(stoul, args) == Err(AutoWithoutSend)
  {
    hide ParseFrom, TakesValue;
    Flags();
    var sending := Defaults().(send := true, host := "127.0.0.1");
    var receiving := Defaults().(receive := true, host := "0.0.0.0");
    if ParseFrom(stoul, Defaults(), rest).Ok? {
      Kept(stoul, Defaults(), rest);
    }
    assert ["--send", "--receive"] + rest == ["--send"] + (["--receive"] + rest);
    StepSwitch(stoul, Defaults(), "--send", ["--receive"] + rest);
    StepSwitch(stoul, sending, "--receive", rest);
    KeptIfOk(stoul, sending.(receive := true, host := "0.0.0.0"), rest);
    StepSwitch(stoul, Defaults(), "--send", rest);
    KeptIfOk(stoul, sending, rest);
    assert ["--receive", "--auto"] + rest == ["--receive"] + (["--auto"] + rest);
    StepSwitch(stoul, Defaults(), "--receive", ["--auto"] + rest);
    StepSwitch(stoul, receiving, "--auto", rest);
    KeptIfOk(stoul, receiving.(autoDiscover := true, host := ""), rest);
  }

  lemma {:induction false} KeptIfOk(stoul: Stoul, o: FileOptions, args: seq<string>)
    ensures ParseFrom(stoul, o, args).Ok? ==>
              var o' := ParseFrom(stoul, o, args).value;
              && (o.send ==> o'.send) && (o.receive ==> o'.receive) && (o.autoDiscover ==> o'.autoDiscover)
              && ("--send" !in args ==> o'.send == o.send)
              && ("--receive" !in args ==> o'.receive == o.receive)
              && ("--file" !in args ==> o'.file == o.file)
  {
    hide ParseFrom;
    if ParseFrom(stoul, o, args).Ok? {
      Kept(stoul, o, args);
    }
  }

  /** Exactly what is accepted of understood arguments: one mode; with it a file to send, or no one to
      find; and streams whose ports end at 65535. */
  lemma {:induction false} AcceptedExactly(stoul: Stoul, args: seq<string>)
    requires ParseFrom(stoul, Defaults(), args).Ok?
    ensures var o := ParseFrom(stoul, Defaults(), args).value;
            Parsed(stoul, args) == Ok(o) <==>
            && ((o.send && !o.receive && o.file != "") || (o.receive && !o.send && !o.autoDiscover))
            && o.port + o.parallel <= 65536
  {
    hide ParseFrom;
  }

  /** Behind any understood arguments: an option whose value is missing, a request for help, and an
      argument that is no option. */
  lemma {:induction false} StrangeArguments(stoul: Stoul, a: seq<string>, arg: string, rest: seq<string>)
    requires ParseFrom(stoul, Defaults(), a).Ok?
    ensures arg in {"--host", "--port", "--discovery-port", "--parallel", "--file", "--output-dir", "--out",
                    "--name"} ==>
              Parsed(stoul, a + [arg]) == Err(MissingValue)
    ensures arg in {"--help", "-h"} ==> Parsed(stoul, a + ([arg] + rest)) == Err(HelpRequested)
    ensures arg !in {"--host", "--port", "--discovery-port", "--parallel", "--file", "--output-dir", "--out", "--name",
                     "--help", "-h", "--send", "--receive", "--auto", "--no-advertise"} ==>
              Parsed(stoul, a + ([arg] + rest)) == Err(UnknownArgument)
  {
    var o := ParseFrom(stoul, Defaults(), a).value;
    ParseAppend(stoul, Defaults(), a, [arg]);
    ParseAppend(stoul, Defaults(), a, [arg] + rest);
    if TakesValue(arg) {
      assert ParseFrom(stoul, o, [arg]) == Err(MissingValue);
    } else {
      StepSwitch(stoul, o, arg, rest);
    }
    hide ParseFrom;
  }

  /** The optional name at the end of the send arguments. */
  lemma {:induction false} ParseName(stoul: Stoul, o: FileOptions, name: string)
    ensures ParseFrom(stoul, o, if name == "" then [] else ["--name", name]) ==
            Ok(if name == "" then o else o.(remoteName := name))
  {
    if name != "" {
      assert ["--name", name] == ["--name", name] + [];
      StepValue(stoul, o, "--name", name, []);
    }
  }

  lemma {:induction false} ParseTarget(stoul: Stoul, o: FileOptions, s: SendOptions, rest: seq<string>)
    requires s.host != ""
    ensures ParseFrom(stoul, o, ["--host", s.host, "--port", s.port, "--parallel", s.parallel] + rest) ==
            match ParsePort(stoul, s.port)
            case Err(e) => Err(e)
            case Ok(port) =>
              match ParseParallel(stoul, s.parallel)
              case Err(e) => Err(e)
              case Ok(parallel) => ParseFrom(stoul, o.(host := s.host, port := port, parallel := parallel), rest)
  {
    hide ParsePort, ParseParallel, ParseFrom, TakesValue;
    Flags();
    var last := ["--parallel", s.parallel] + rest;
    var middle := ["--port", s.port] + last;
    assert ["--host", s.host, "--port", s.port, "--parallel", s.parallel] + rest == ["--host", s.host] + middle;
    var o1 := o.(host := s.host);
    StepValue(stoul, o, "--host", s.host, middle);
    StepValue(stoul, o1, "--port", s.port, last);
    if ParsePort(stoul, s.port).Ok? {
      StepValue(stoul, o1.(port := ParsePort(stoul, s.port).value), "--parallel", s.parallel, rest);
    }
  }

  /** The transfer tool's parser turns the arguments of `send` into exactly what its user wants. */
  lemma {:induction false} SendArgumentsParse(stoul: Stoul, s: SendOptions)
    requires s.file != ""
    ensures Parsed(stoul, SendArguments(s)) == SendIntent(stoul, s)
  {
    hide ParsePort, ParseParallel, ParseFrom, TakesValue;
    Flags();
    var named := if s.remoteName == "" then [] else ["--name", s.remoteName];
    var target := if s.host == "" then ["--auto"] else ["--host", s.host, "--port", s.port, "--parallel", s.parallel];
    var discovery := ["--discovery-port", s.discoveryPort] + (target + named);
    assert SendArguments(s) == ["--send"] + (["--file", s.file] + discovery);
    var o1 := Defaults().(send := true, host := "127.0.0.1");
    var o2 := o1.(file := s.file);
    StepSwitch(stoul, Defaults(), "--send", ["--file", s.file] + discovery);
    StepValue(stoul, o1, "--file", s.file, discovery);
    StepValue(stoul, o2, "--discovery-port", s.discoveryPort, target + named);
    if ParsePort(stoul, s.discoveryPort).Ok? {
      SendTargetParses(stoul, o2.(discoveryPort := ParsePort(stoul, s.discoveryPort).value), s, target, named);
    }
  }

  lemma {:induction false} SendTargetParses(stoul: Stoul, o: FileOptions, s: SendOptions, target: seq<string>,
                                            named: seq<string>)
    requires target == if s.host == "" then ["--auto"]
                       else ["--host", s.host, "--port", s.port, "--parallel", s.parallel]
    requires named == if s.remoteName == "" then [] else ["--name", s.remoteName]
    requires o.remoteName == ""
    ensures ParseFrom(stoul, o, target + named) ==
            if s.host == "" then Ok(o.(autoDiscover := true, host := "", remoteName := s.remoteName))
            else
              match ParsePort(stoul, s.port)
              case Err(e) => Err(e)
              case Ok(port) =>
                match ParseParallel(stoul, s.parallel)
                case Err(e) => Err(e)
                case Ok(parallel) =>
                  Ok(o.(host := s.host, port := port, parallel := parallel, remoteName := s.remoteName))
  {
    hide ParsePort, ParseParallel, ParseFrom, TakesValue;
    Flags();
    if s.host == "" {
      StepSwitch(stoul, o, "--auto", named);
      ParseName(stoul, o.(autoDiscover := true, host := ""), s.remoteName);
    } else {
      ParseTarget(stoul, o, s, named);
      if ParsePort(stoul, s.port).Ok? && ParseParallel(stoul, s.parallel).Ok? {
        ParseName(stoul, o.(host := s.host, port := ParsePort(stoul, s.port).value,
                            parallel := ParseParallel(stoul, s.parallel).value), s.remoteName);
      }
    }
  }

  /** The same for `receive`. */
  lemma {:induction false} ReceiveArgumentsParse(stoul: Stoul, r: ReceiveOptions)
    ensures Parsed(stoul, ReceiveArguments(r)) == ReceiveIntent(stoul, r)
  {
    hide ParsePort, ParseParallel, TakesValue, ParseFrom;
    Flags();
    var tail := if r.advertise then [] else ["--no-advertise"];
    var a5 := ["--discovery-port", r.discoveryPort] + tail;
    var a4 := ["--parallel", r.parallel] + a5;
    var a3 := ["--output-dir", r.outputDir] + a4;
    var a2 := ["--port", r.port] + a3;
    var a1 := ["--host", r.host] + a2;
    assert ReceiveArguments(r) == ["--receive"] + a1;
    var o1 := Defaults().(receive := true, host := "0.0.0.0");
    StepSwitch(stoul, Defaults(), "--receive", a1);
    StepValue(stoul, o1, "--host", r.host, a2);
    var o2 := o1.(host := r.host);
    StepValue(stoul, o2, "--port", r.port, a3);
    if ParsePort(stoul, r.port).Ok? {
      var o3 := o2.(port := ParsePort(stoul, r.port).value);
      StepValue(stoul, o3, "--output-dir", r.outputDir, a4);
      var o4 := o3.(outputDir := r.outputDir);
      StepValue(stoul, o4, "--parallel", r.parallel, a5);
      if ParseParallel(stoul, r.parallel).Ok? {
        var o5 := o4.(parallel := ParseParallel(stoul, r.parallel).value);
        StepValue(stoul, o5, "--discovery-port", r.discoveryPort, tail);
        if ParsePort(stoul, r.discoveryPort).Ok? {
          ParseAdvertise(stoul, o5.(discoveryPort := ParsePort(stoul, r.discoveryPort).value), r.advertise);
        }
      }
    }
  }

  lemma {:induction false} ParseAdvertise(stoul: Stoul, o: FileOptions, advertise: bool)
    ensures ParseFrom(stoul, o, if advertise then [] else ["--no-advertise"]) ==
            Ok(if advertise then o else o.(advertise := false))
  {
    if !advertise {
      assert ["--no-advertise"] == ["--no-advertise"] + [];
      StepSwitch(stoul, o, "--no-advertise", []);
    }
  }

  /** From one tool to the other, through the shell: if nothing contains a NUL, the transfer tool
      starts with exactly the arguments it was meant to get, and parses them to what the user of
      `send` wants. */
  lemma {:induction false} SendReachesTheTool(stoul: Stoul, s: SendOptions, tool: string)
    requires s.file != ""
    requires forall a | a in [tool] + SendArguments(s) :: !HasNul(a)
    ensures var words := ShellWords(CString(CommandLine([tool] + SendArguments(s))));
            words.Some? && words.value != [] && words.value[0] == tool
            && Parsed(stoul, words.value[1..]) == SendIntent(stoul, s)
  {
    hide Parsed, SendIntent, SendArguments, CommandLine, HasNul;
    SendArgumentsParse(stoul, s);
    ShellInverse([tool] + SendArguments(s));
    assert ([tool] + SendArguments(s))[1..] == SendArguments(s);
  }

  lemma {:induction false} ReceiveReachesTheTool(stoul: Stoul, r: ReceiveOptions, tool: string)
    requires forall a | a in [tool] + ReceiveArguments(r) :: !HasNul(a)
    ensures var words := ShellWords(CString(CommandLine([tool] + ReceiveArguments(r))));
            words.Some? && words.value != [] && words.value[0] == tool
            && Parsed(stoul, words.value[1..]) == ReceiveIntent(stoul, r)
  {
    hide Parsed, ReceiveIntent, ReceiveArguments, CommandLine, HasNul;
    ReceiveArgumentsParse(stoul, r);
    ShellInverse([tool] + ReceiveArguments(r));
    assert ([tool] + ReceiveArguments(r))[1..] == ReceiveArguments(r);
  }
}
