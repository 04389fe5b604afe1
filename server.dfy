/**
 * One iteration of the server's main loop between the receive and the send
 * (server/server.c:138-191 for stream sockets; 196-246 repeats it verbatim
 * for datagram sockets), and the shell string of run_system_command.
 */
module Server {
  import opened Wrappers
  import opened CStrings
  import opened AllowList
  import opened RequestParser
  import opened ResponseFrame

  /**
   * The capture file names. mkstemp rejects these templates (they do not end
   * in XXXXXX) and leaves them unchanged, so these literal names are used.
   */
  const STDOUT_FILE: CStr := "/tmp/myRPC_XXXXXX.stdout"
  const STDERR_FILE: CStr := "/tmp/myRPC_XXXXXX.stderr"

  /** Longest command whose redirections survive the 1023-character limit: 1023 - 53. */
  const LONGEST_REDIRECTED_COMMAND: nat := 970

  /**
   * The string run_system_command passes to system():
   * snprintf(full_cmd, BUFFER_SIZE, "%s >%s 2>%s", cmd, out, err).
   */
  function ShellCommand(cmd: CStr, out: CStr, err: CStr): (full: CStr)
    ensures |full| == Min(|cmd| + |out| + |err| + 5, BUFFER_SIZE - 1)
    ensures full <= cmd + " >" + out + " 2>" + err
  {
    Snprintf(cmd + " >" + out + " 2>" + err, BUFFER_SIZE)
  }

  /** A command of at most 970 characters is run with both redirections intact. */
  lemma ShellCommandRedirects(cmd: CStr)
    requires |cmd| <= LONGEST_REDIRECTED_COMMAND
    ensures ShellCommand(cmd, STDOUT_FILE, STDERR_FILE) == cmd + " >" + STDOUT_FILE + " 2>" + STDERR_FILE
  {
  }

  /** A command of 1023 characters or more is cut to its first 1023 and loses both redirections. */
  lemma LongCommandLosesRedirections(cmd: CStr)
    requires |cmd| >= BUFFER_SIZE - 1
    ensures ShellCommand(cmd, STDOUT_FILE, STDERR_FILE) == cmd[..BUFFER_SIZE - 1]
  {
    var full := cmd + " >" + STDOUT_FILE + " 2>" + STDERR_FILE;
    assert full[..BUFFER_SIZE - 1] == cmd[..BUFFER_SIZE - 1];
  }

  /** The undefined behaviour the C code reaches on some requests. */
  datatype Fault =
    | ReceiveOverflow  // bytes_received == BUFFER_SIZE: data_buffer[BUFFER_SIZE] is written
    | NullUser         // no user token: strcmp (:53) or the %s of :185 gets NULL
    | NullCommand      // allowed user but no command token: the %s of :65 gets NULL

  /** What one loop iteration does with one received request. */
  datatype Outcome =
    | NoReply                             // recv returned 0: nothing is sent
    | Undefined(fault: Fault)             // the C code has no defined behaviour
    | Reply(frame: CStr, shell: Option<CStr>)  // the frame sent, and the string given to system() if any

  /**
   * What happens to a received request once it is parsed and the allow-list
   * has been consulted (admitted), given what the stdout capture file holds
   * after the command ran.
   */
  function Answer(request: Request, admitted: bool, capture: Capture): (outcome: Outcome)
    ensures outcome.Reply? ==>
      && 2 <= |outcome.frame| <= BUFFER_SIZE - 1
      && (outcome.frame[0] == '0' || outcome.frame[0] == '1') && outcome.frame[1] == ':'
  {
    if request.user.None? then Undefined(NullUser)
    else if !admitted then Reply(RejectFrame(request.user.value), None)
    else if request.command.None? then Undefined(NullCommand)
    else
      var shell := ShellCommand(request.command.value, STDOUT_FILE, STDERR_FILE);
      match capture
      case Unreadable => Reply(READ_ERROR_FRAME, Some(shell))
      case Readable(stdout) => Reply(OutputFrame(stdout), Some(shell))
  }

  /**
   * The outcome of one request, given the received bytes, the allow-list
   * file's contents (None: it cannot be opened) and what the stdout capture
   * file holds after the command ran.
   */
  function Respond(received: string, allowList: Option<string>, capture: Capture): (outcome: Outcome)
    ensures outcome.Reply? ==>
      && 2 <= |outcome.frame| <= BUFFER_SIZE - 1
      && (outcome.frame[0] == '0' || outcome.frame[0] == '1') && outcome.frame[1] == ':'
  {
    if |received| == 0 then NoReply
    else if |received| >= BUFFER_SIZE then Undefined(ReceiveOverflow)
    else
      var request := Tokenize(CString(received));
      Answer(request, request.user.Some? && Permitted(allowList, request.user.value), capture)
  }

  /**
   * Handling one received request: parse it, check the allow-list, and either
   * reject it or run the command and frame its output. The exit status of the
   * command is an input because the code reads it; it has no effect on the
   * outcome.
   */
  method HandleRequest(received: string, allowList: Option<string>, exitStatus: int, capture: Capture)
    returns (outcome: Outcome)
    requires |received| <= BUFFER_SIZE  // recv and recvfrom are given BUFFER_SIZE
    ensures outcome == Respond(received, allowList, capture)
  {
    if |received| == 0 {
      return NoReply;
    }
    if |received| == BUFFER_SIZE {
      return Undefined(ReceiveOverflow);
    }
    var request := ParseRequest(received);
    if request.user.None? {
      return Undefined(NullUser);
    }
    var user := request.user.value;
    var granted, _ := CheckUserPermission(allowList, user);
    if !granted {
      return Reply(RejectFrame(user), None);
    }
    if request.command.None? {
      return Undefined(NullCommand);
    }
    var shell := ShellCommand(request.command.value, STDOUT_FILE, STDERR_FILE);
    var frame: CStr;
    match capture {
      case Unreadable =>
        frame := READ_ERROR_FRAME;
      case Readable(stdout) =>
        var response := new char[BUFFER_SIZE];
        frame := WriteOutputFrame(response, exitStatus, stdout);
    }
    outcome := Reply(frame, Some(shell));
  }

  /**
   * The shell is only ever given the command of a request whose user the
   * allow-list admits, and then that command with its redirections.
   */
  lemma ShellOnlyForPermittedUser(received: string, allowList: Option<string>, capture: Capture)
    requires Respond(received, allowList, capture).Reply?
    requires Respond(received, allowList, capture).shell.Some?
    ensures var request := Tokenize(CString(received));
      && request.user.Some? && Permitted(allowList, request.user.value)
      && request.command.Some?
      && Respond(received, allowList, capture).shell.value
         == ShellCommand(request.command.value, STDOUT_FILE, STDERR_FILE)
  {
  }

  /** A user the allow-list does not admit gets "1:User '<user>' is not allowed" and nothing runs. */
  lemma RejectedUserGetsRejectFrame(received: string, allowList: Option<string>, capture: Capture)
    requires 0 < |received| < BUFFER_SIZE
    requires Tokenize(CString(received)).user.Some?
    requires !Permitted(allowList, Tokenize(CString(received)).user.value)
    ensures Respond(received, allowList, capture).Reply?
    ensures Respond(received, allowList, capture).shell.None?
    ensures Respond(received, allowList, capture).frame == RejectFrame(Tokenize(CString(received)).user.value)
  {
  }

  /** With the allow-list file missing, every well-formed request is rejected and nothing runs. */
  lemma MissingAllowListRejectsAll(received: string, capture: Capture)
    requires 0 < |received| < BUFFER_SIZE
    requires Tokenize(CString(received)).user.Some?
    ensures Respond(received, None, capture).Reply?
    ensures Respond(received, None, capture).shell.None?
    ensures Respond(received, None, capture).frame[..2] == "1:"
  {
    RejectFrameNamesUser(Tokenize(CString(received)).user.value);
  }

  /**
   * Once the command has run and its stdout file is readable, the frame is
   * "0:" plus the first bytes of the output: the exit status is overwritten
   * and never reaches the client.
   */
  lemma ReadableOutputAlwaysSucceeds(received: string, allowList: Option<string>, stdout: string)
    requires Respond(received, allowList, Readable(stdout)).Reply?
    requires Respond(received, allowList, Readable(stdout)).shell.Some?
    ensures Respond(received, allowList, Readable(stdout)).frame[..2] == "0:"
    ensures Respond(received, allowList, Readable(stdout)).frame == OutputFrame(stdout)
  {
    var payload := CString(stdout[..Min(|stdout|, PAYLOAD_CAPACITY)]);
    assert OutputFrame(stdout) == "0:" + payload;
    assert ("0:" + payload)[..2] == "0:";
  }

  /** If the stdout file cannot be opened after the command ran, the frame is the fixed read-error message. */
  lemma UnreadableOutputReportsError(received: string, allowList: Option<string>)
    requires Respond(received, allowList, Unreadable).Reply?
    requires Respond(received, allowList, Unreadable).shell.Some?
    ensures Respond(received, allowList, Unreadable).frame == "1:Error reading command output"
  {
  }
  /**
   * A request without ':' has no defined run of the shell: an empty one has
   * no user; otherwise its whole text is taken as the user and there is no
   * command, so a user the allow-list does not admit is rejected, and for an
   * admitted one the NULL command reaches the undefined snprintf of :65
   * before system() is called.
   */
  lemma RequestWithoutColonHasNoDefinedRun(received: string, allowList: Option<string>, capture: Capture)
    requires 0 < |received| < BUFFER_SIZE
    requires ':' !in CString(received)
    ensures Respond(received, allowList, capture).Reply? ==> Respond(received, allowList, capture).shell.None?
    ensures CString(received) == [] ==> Respond(received, allowList, capture) == Undefined(NullUser)
    ensures CString(received) != [] && Permitted(allowList, CString(received)) ==>
      Respond(received, allowList, capture) == Undefined(NullCommand)
    ensures CString(received) != [] && !Permitted(allowList, CString(received)) ==>
      Respond(received, allowList, capture) == Reply(RejectFrame(CString(received)), None)
  {
    var text := CString(received);
    StrspnIs(text, {':'}, 0);
    TokenizeUser(text);
    TokenizeCommand(text);
    if text != [] {
      var u := Tokenize(text).user.value;
      assert |u| == |text|;
      assert text[..|u|] == text;
    }
  }
}
