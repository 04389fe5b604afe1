/**
 * The client's decisions (client/client.c): option handling, the
 * required-argument check, request formatting with its length limit, the
 * response header check and what is printed for a reply.
 */
module Client {
  import opened Wrappers
  import opened CStrings

  /** RESPONSE_HEADER_LEN: a status digit and ':'. */
  const RESPONSE_HEADER_LEN: nat := 2

  const MAX_PORT: int := 65535

  /** is_valid_response: at least two characters, a '0' or '1', then ':'. */
  function IsValidResponse(resp: string): (ok: bool)
    ensures ok <==> |resp| >= 2 && (resp[0] == '0' || resp[0] == '1') && resp[1] == ':'
  {
    if |CString(resp)| < RESPONSE_HEADER_LEN then false
    else if resp[0] != '0' && resp[0] != '1' then false
    else if resp[1] != ':' then false
    else true
  }

  /** The outcome of snprintf(request_data, BUFFER_SIZE, "%s:%s", user, command) and its length check. */
  datatype FormattedRequest = CommandTooLong(size: nat) | RequestBytes(data: CStr)

  /** The request the client sends; rejected when snprintf reports 1024 characters or more. */
  function FormatRequest(user: CStr, command: CStr): (r: FormattedRequest)
    ensures r.CommandTooLong? <==> |user| + 1 + |command| >= BUFFER_SIZE
    ensures r.CommandTooLong? ==> r.size == |user| + 1 + |command|
    ensures r.RequestBytes? ==> r.data == user + ":" + command && |r.data| < BUFFER_SIZE
  {
    var full := user + ":" + command;
    var requestSize := |full|;  // snprintf's return value: the untruncated length
    if requestSize >= BUFFER_SIZE then CommandTooLong(requestSize)
    else RequestBytes(Snprintf(full, BUFFER_SIZE))
  }

  /** A decoded reply: status_code = server_reply[0] - '0' and command_output = server_reply + 2. */
  datatype Decoded = Decoded(status: int, output: CStr)

  /** Decoding the NUL-terminated reply buffer; None when is_valid_response refuses it. */
  function DecodeReply(reply: string): (d: Option<Decoded>)
    ensures d.None? <==> !IsValidResponse(reply)
    ensures d.Some? ==> (d.value.status == 0 <==> reply[0] == '0')
    ensures d.Some? ==> (d.value.status == 1 <==> reply[0] == '1')
    ensures d.Some? ==> CString(reply) == [reply[0], ':'] + d.value.output
  {
    if !IsValidResponse(reply) then None
    else
      var text := CString(reply);
      SliceIsCStr(text, 2, |text|);
      Some(Decoded(reply[0] as int - '0' as int, text[2..]))
  }

  /** What the client writes to standard output and standard error, and its exit code. */
  datatype Report = Report(stdout: string, stderr: string, exitCode: int)

  /**
   * What the client prints for the reply it received: an invalid reply is
   * echoed with exit code 1; status 0 prints the output to standard output,
   * any other status prints "Error: " and the output to standard error.
   */
  function ReplyReport(reply: string): (r: Report)
    ensures !IsValidResponse(reply) ==>
      r == Report("Invalid server response format: " + CString(reply) + "\n", "", 1)
    ensures IsValidResponse(reply) && reply[0] == '0' ==>
      r == Report(CString(reply)[2..] + "\n", "", 0)
    ensures IsValidResponse(reply) && reply[0] == '1' ==>
      r == Report("", "Error: " + CString(reply)[2..] + "\n", 0)
  {
    match DecodeReply(reply)
    case None => Report("Invalid server response format: " + CString(reply) + "\n", "", 1)
    case Some(d) =>
      if d.status == 0 then Report(d.output + "\n", "", 0)
      else Report("", "Error: " + d.output + "\n", 0)
  }

  /** A NUL-free reply with status '1' is printed as "Error: " and its payload on standard error, exit code 0. */
  lemma ErrorReplyReport(reply: CStr)
    requires |reply| >= 2 && reply[0] == '1' && reply[1] == ':'
    ensures ReplyReport(reply) == Report("", "Error: " + reply[2..] + "\n", 0)
  {
    CStringOfCStr(reply);
  }

  /** A NUL-free reply with status '0' is printed as its payload on standard output, exit code 0. */
  lemma SuccessReplyReport(reply: CStr)
    requires |reply| >= 2 && reply[0] == '0' && reply[1] == ':'
    ensures ReplyReport(reply) == Report(reply[2..] + "\n", "", 0)
  {
    CStringOfCStr(reply);
  }

  /** One option as getopt_long reports it; the port carries the value atoi gave its argument. */
  datatype ClientOption =
    | CommandOpt(command: CStr)  // -c, --command
    | HostOpt(host: CStr)        // -h, --host
    | PortOpt(port: int)         // -p, --port
    | StreamOpt                  // -s, --stream
    | DgramOpt                   // -d, --dgram
    | HelpOpt                    // --help
    | UnknownOpt                 // anything getopt_long does not recognise

  /** The variables the option loop updates: user_command, server_address, server_port, use_tcp. */
  datatype Settings = Settings(command: Option<CStr>, host: Option<CStr>, port: int, useStream: bool)

  const DEFAULT_SETTINGS: Settings := Settings(None, None, 0, true)

  /** Either the client exits before connecting, or it goes on with these settings. */
  datatype Setup =
    | Exit(code: int, error: string, usage: bool)  // exit code, what the client itself writes to standard error, whether the help text is shown
    | Ready(command: CStr, host: CStr, port: int, useStream: bool)

  datatype Step = Continue(settings: Settings) | Stop(setup: Setup)

  const INVALID_PORT: string := "Invalid port number\n"
  const MISSING_ARGUMENTS: string := "Error: Missing required arguments\n"

  /** Whether an option makes the loop exit: --help, an unknown option, or a port outside 1..65535. */
  predicate ExitsLoop(opt: ClientOption)
  {
    opt.HelpOpt? || opt.UnknownOpt? || (opt.PortOpt? && !(0 < opt.port <= MAX_PORT))
  }

  /**
   * One turn of the switch in the getopt_long loop: it exits exactly on the
   * options that exit, and otherwise updates only the variable its option names.
   */
  function ApplyOption(s: Settings, opt: ClientOption): (step: Step)
    ensures step.Stop? <==> ExitsLoop(opt)
    ensures step.Stop? ==> step.setup.Exit?
    ensures step.Continue? && !opt.CommandOpt? ==> step.settings.command == s.command
    ensures step.Continue? && !opt.HostOpt? ==> step.settings.host == s.host
    ensures step.Continue? && !opt.PortOpt? ==> step.settings.port == s.port
    ensures step.Continue? && !opt.StreamOpt? && !opt.DgramOpt? ==> step.settings.useStream == s.useStream
    ensures step.Continue? && opt.CommandOpt? ==> step.settings.command == Some(opt.command)
    ensures step.Continue? && opt.HostOpt? ==> step.settings.host == Some(opt.host)
    ensures step.Continue? && opt.PortOpt? ==> step.settings.port == opt.port
    ensures step.Continue? && (opt.StreamOpt? || opt.DgramOpt?) ==> step.settings.useStream == opt.StreamOpt?
  {
    match opt
    case CommandOpt(c) => Continue(s.(command := Some(c)))
    case HostOpt(h) => Continue(s.(host := Some(h)))
    case PortOpt(p) => if p <= 0 || p > MAX_PORT then Stop(Exit(1, INVALID_PORT, false)) else Continue(s.(port := p))
    case StreamOpt => Continue(s.(useStream := true))
    case DgramOpt => Continue(s.(useStream := false))
    case HelpOpt => Stop(Exit(0, "", true))
    case UnknownOpt => Stop(Exit(1, "", true))
  }

  /** The whole getopt_long loop, in option order, stopping at the first option that exits. */
  function ApplyOptions(s: Settings, opts: seq<ClientOption>): (step: Step)
    ensures step.Stop? ==> step.setup.Exit?
    decreases |opts|
  {
    if opts == [] then Continue(s)
    else match ApplyOption(s, opts[0])
      case Stop(e) => Stop(e)
      case Continue(next) => ApplyOptions(next, opts[1..])
  }

  /** The check after the loop: command, host and a non-zero port are all required. */
  function CheckRequired(s: Settings): (setup: Setup)
    ensures setup.Ready? <==> s.command.Some? && s.host.Some? && s.port != 0
    ensures setup.Exit? ==> setup == Exit(1, MISSING_ARGUMENTS, true)
    ensures setup.Ready? ==>
      && Some(setup.command) == s.command && Some(setup.host) == s.host
      && setup.port == s.port && setup.useStream == s.useStream
  {
    if s.command.None? || s.host.None? || s.port == 0 then Exit(1, MISSING_ARGUMENTS, true)
    else Ready(s.command.value, s.host.value, s.port, s.useStream)
  }

  /** The setup the client reaches from its options; one that goes on has a port in 1..65535. */
  function Configure(opts: seq<ClientOption>): (setup: Setup)
    ensures setup.Ready? ==> 0 < setup.port <= MAX_PORT
  {
    ApplyOptionsInvariant(DEFAULT_SETTINGS, opts);
    match ApplyOptions(DEFAULT_SETTINGS, opts)
    case Stop(e) => e
    case Continue(s) => CheckRequired(s)
  }

  /** The option loop of main and the required-argument check after it. */
  method ParseOptions(opts: seq<ClientOption>) returns (setup: Setup)
    ensures setup == Configure(opts)
  {
    var userCommand: Option<CStr> := None;
    var serverAddress: Option<CStr> := None;
    var serverPort := 0;
    var useTcp := true;
    var i := 0;
    while i < |opts|
      invariant 0 <= i <= |opts|
      invariant ApplyOptions(DEFAULT_SETTINGS, opts)
        == ApplyOptions(Settings(userCommand, serverAddress, serverPort, useTcp), opts[i..])
    {
      assert opts[i..][1..] == opts[i + 1..];
      match opts[i] {
        case CommandOpt(c) => userCommand := Some(c);
        case HostOpt(h) => serverAddress := Some(h);
        case PortOpt(p) =>
          if p <= 0 || p > MAX_PORT {
            return Exit(1, INVALID_PORT, false);
          }
          serverPort := p;
        case StreamOpt => useTcp := true;
        case DgramOpt => useTcp := false;
        case HelpOpt => return Exit(0, "", true);
        case UnknownOpt => return Exit(1, "", true);
      }
      i := i + 1;
    }
    if userCommand.None? || serverAddress.None? || serverPort == 0 {
      return Exit(1, MISSING_ARGUMENTS, true);
    }
    setup := Ready(userCommand.value, serverAddress.value, serverPort, useTcp);
  }

  /** The transport the last -s or -d selects; stream when neither is given. */
  function LastTransport(opts: seq<ClientOption>, useStream: bool): bool
    decreases |opts|
  {
    if opts == [] then useStream
    else LastTransport(opts[1..], if opts[0].StreamOpt? then true else if opts[0].DgramOpt? then false else useStream)
  }

  /** The command of the last -c option; current when there is none. */
  function LastCommand(opts: seq<ClientOption>, current: Option<CStr>): Option<CStr>
    decreases |opts|
  {
    if opts == [] then current
    else LastCommand(opts[1..], if opts[0].CommandOpt? then Some(opts[0].command) else current)
  }

  /** The host of the last -h option; current when there is none. */
  function LastHost(opts: seq<ClientOption>, current: Option<CStr>): Option<CStr>
    decreases |opts|
  {
    if opts == [] then current
    else LastHost(opts[1..], if opts[0].HostOpt? then Some(opts[0].host) else current)
  }

  /** The value of the last -p option; current when there is none. */
  function LastPort(opts: seq<ClientOption>, current: int): int
    decreases |opts|
  {
    if opts == [] then current
    else LastPort(opts[1..], if opts[0].PortOpt? then opts[0].port else current)
  }

  /**
   * The option loop stops only by exiting, keeps the port at 0 or within
   * 1..65535, and leaves the command, host, port and transport of the last
   * option of each kind.
   */
  lemma {:induction false} ApplyOptionsInvariant(s: Settings, opts: seq<ClientOption>)
    requires s.port == 0 || 0 < s.port <= MAX_PORT
    ensures ApplyOptions(s, opts).Stop? ==> ApplyOptions(s, opts).setup.Exit?
    ensures ApplyOptions(s, opts).Continue? ==>
      var t := ApplyOptions(s, opts).settings;
      && (t.port == 0 || 0 < t.port <= MAX_PORT)
      && t.useStream == LastTransport(opts, s.useStream)
      && t.command == LastCommand(opts, s.command)
      && t.host == LastHost(opts, s.host)
      && t.port == LastPort(opts, s.port)
    decreases |opts|
  {
    if opts != [] {
      match ApplyOption(s, opts[0])
      case Stop(_) =>
      case Continue(next) => ApplyOptionsInvariant(next, opts[1..]);
    }
  }

  /**
   * A client that goes ahead has a port in 1..65535, uses the command, host
   * and port of the last -c, -h and -p options, and the transport of the
   * last -s/-d option, stream by default.
   */
  lemma ReadySetup(opts: seq<ClientOption>)
    requires Configure(opts).Ready?
    ensures 0 < Configure(opts).port <= MAX_PORT
    ensures Configure(opts).useStream == LastTransport(opts, true)
    ensures LastCommand(opts, None) == Some(Configure(opts).command)
    ensures LastHost(opts, None) == Some(Configure(opts).host)
    ensures LastPort(opts, 0) == Configure(opts).port
  {
    ApplyOptionsInvariant(DEFAULT_SETTINGS, opts);
    assert ApplyOptions(DEFAULT_SETTINGS, opts).Continue?;
  }

  /** A port option is accepted exactly when its value is in 1..65535. */
  lemma PortAcceptedIffInRange(s: Settings, p: int)
    ensures ApplyOption(s, PortOpt(p)).Continue? <==> 0 < p <= MAX_PORT
    ensures ApplyOption(s, PortOpt(p)).Stop? ==> ApplyOption(s, PortOpt(p)).setup == Exit(1, INVALID_PORT, false)
  {
  }

  /** The option loop never sets a command unless a -c option was given. */
  lemma {:induction false} CommandComesFromOption(s: Settings, opts: seq<ClientOption>)
    requires s.command.None?
    requires forall i :: 0 <= i < |opts| ==> !opts[i].CommandOpt?
    ensures ApplyOptions(s, opts).Continue? ==> ApplyOptions(s, opts).settings.command.None?
    decreases |opts|
  {
    if opts != [] {
      match ApplyOption(s, opts[0])
      case Stop(_) =>
      case Continue(next) => CommandComesFromOption(next, opts[1..]);
    }
  }

  /** Without -c the client never connects: it exits with the missing-arguments error, or earlier. */
  lemma MissingCommandExits(opts: seq<ClientOption>)
    requires forall i :: 0 <= i < |opts| ==> !opts[i].CommandOpt?
    ensures Configure(opts).Exit?
    ensures ApplyOptions(DEFAULT_SETTINGS, opts).Continue? ==> Configure(opts) == Exit(1, MISSING_ARGUMENTS, true)
  {
    CommandComesFromOption(DEFAULT_SETTINGS, opts);
    ApplyOptionsInvariant(DEFAULT_SETTINGS, opts);
  }

  /** The option loop runs to its end exactly when none of the options exits. */
  lemma {:induction false} ContinueIffNoExit(s: Settings, opts: seq<ClientOption>)
    ensures ApplyOptions(s, opts).Continue? <==> forall i :: 0 <= i < |opts| ==> !ExitsLoop(opts[i])
    decreases |opts|
  {
    if opts != [] {
      match ApplyOption(s, opts[0])
      case Stop(_) =>
      case Continue(next) =>
        ContinueIffNoExit(next, opts[1..]);
        assert forall i :: 0 < i < |opts| ==> opts[i] == opts[1..][i - 1];
    }
  }

  /** The first option that exits decides how the client exits, whatever comes after it. */
  lemma {:induction false} FirstExitDecides(s: Settings, opts: seq<ClientOption>, i: nat)
    requires i < |opts| && ExitsLoop(opts[i])
    requires forall j :: 0 <= j < i ==> !ExitsLoop(opts[j])
    ensures ApplyOptions(s, opts) == Stop(ApplyOption(s, opts[i]).setup)
    decreases i
  {
    if i > 0 {
      var next := ApplyOption(s, opts[0]).settings;
      assert forall j :: 0 <= j < i - 1 ==> opts[1..][j] == opts[j + 1];
      FirstExitDecides(next, opts[1..], i - 1);
      assert opts[1..][i - 1] == opts[i];
    }
  }

  /** An out-of-range -p reached by the loop makes the client exit 1 with "Invalid port number". */
  lemma InvalidPortExits(opts: seq<ClientOption>, i: nat)
    requires i < |opts| && opts[i].PortOpt? && !(0 < opts[i].port <= MAX_PORT)
    requires forall j :: 0 <= j < i ==> !ExitsLoop(opts[j])
    ensures Configure(opts) == Exit(1, INVALID_PORT, false)
  {
    FirstExitDecides(DEFAULT_SETTINGS, opts, i);
  }

  /**
   * The client goes on exactly when no option exits and a -c, a -h and a
   * non-zero -p were given, the last of each kind counting.
   */
  lemma ConfigureReadyIff(opts: seq<ClientOption>)
    ensures Configure(opts).Ready? <==>
      && (forall i :: 0 <= i < |opts| ==> !ExitsLoop(opts[i]))
      && LastCommand(opts, None).Some? && LastHost(opts, None).Some? && LastPort(opts, 0) != 0
  {
    ContinueIffNoExit(DEFAULT_SETTINGS, opts);
    ApplyOptionsInvariant(DEFAULT_SETTINGS, opts);
  }

  /** The option loop never sets a host unless a -h option was given. */
  lemma {:induction false} HostComesFromOption(s: Settings, opts: seq<ClientOption>)
    requires s.host.None?
    requires forall i :: 0 <= i < |opts| ==> !opts[i].HostOpt?
    ensures ApplyOptions(s, opts).Continue? ==> ApplyOptions(s, opts).settings.host.None?
    decreases |opts|
  {
    if opts != [] {
      match ApplyOption(s, opts[0])
      case Stop(_) =>
      case Continue(next) => HostComesFromOption(next, opts[1..]);
    }
  }

  /** Without -h the client never connects: it exits with the missing-arguments error, or earlier. */
  lemma MissingHostExits(opts: seq<ClientOption>)
    requires forall i :: 0 <= i < |opts| ==> !opts[i].HostOpt?
    ensures Configure(opts).Exit?
    ensures ApplyOptions(DEFAULT_SETTINGS, opts).Continue? ==> Configure(opts) == Exit(1, MISSING_ARGUMENTS, true)
  {
    HostComesFromOption(DEFAULT_SETTINGS, opts);
  }

  /** The option loop leaves the port at 0 unless a -p option was given. */
  lemma {:induction false} PortComesFromOption(s: Settings, opts: seq<ClientOption>)
    requires s.port == 0
    requires forall i :: 0 <= i < |opts| ==> !opts[i].PortOpt?
    ensures ApplyOptions(s, opts).Continue? ==> ApplyOptions(s, opts).settings.port == 0
    decreases |opts|
  {
    if opts != [] {
      match ApplyOption(s, opts[0])
      case Stop(_) =>
      case Continue(next) => PortComesFromOption(next, opts[1..]);
    }
  }

  /** Without -p the client never connects: it exits with the missing-arguments error, or earlier. */
  lemma MissingPortExits(opts: seq<ClientOption>)
    requires forall i :: 0 <= i < |opts| ==> !opts[i].PortOpt?
    ensures Configure(opts).Exit?
    ensures ApplyOptions(DEFAULT_SETTINGS, opts).Continue? ==> Configure(opts) == Exit(1, MISSING_ARGUMENTS, true)
  {
    PortComesFromOption(DEFAULT_SETTINGS, opts);
  }
}
