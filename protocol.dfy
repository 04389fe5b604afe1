/**
 * Properties that join the client (client/client.c) and the server
 * (server/server.c) through the wire format "<user>:<command>" and
 * "<digit>:<payload>".
 */
module Protocol {
  import opened Wrappers
  import opened CStrings
  import opened AllowList
  import opened RequestParser
  import opened ResponseFrame
  import opened Server
  import opened Client

  /**
   * A request the client accepts to send is shorter than the server's buffer,
   * so the server's terminator write stays in bounds, and the server parses
   * it back into the client's user and the command without its leading
   * spaces (no command at all when the command is empty).
   */
  lemma RequestRoundTrip(user: CStr, command: CStr)
    requires 0 < |user| && ':' !in user  // a login name never contains ':'
    requires FormatRequest(user, command).RequestBytes?
    ensures 0 < |FormatRequest(user, command).data| < BUFFER_SIZE
    ensures Tokenize(CString(FormatRequest(user, command).data)).user == Some(user)
    ensures Tokenize(CString(FormatRequest(user, command).data)).command
            == if command == [] then None else Some(StripSpaces(command))
  {
    var data := FormatRequest(user, command).data;
    CStringOfCStr(data);
    TokenizeUserAndCommand(user, command);
  }

  /** A frame with a '0' or '1' and ':' in front is accepted and decodes into that digit and the rest. */
  lemma HeaderDecodes(frame: CStr)
    requires |frame| >= 2 && (frame[0] == '0' || frame[0] == '1') && frame[1] == ':'
    ensures IsValidResponse(frame)
    ensures DecodeReply(frame).Some?
    ensures DecodeReply(frame).value.output == frame[2..]
    ensures DecodeReply(frame).value.status == (if frame[0] == '0' then 0 else 1)
  {
    CStringOfCStr(frame);
  }

  /**
   * Every frame the server sends passes the client's is_valid_response, fits
   * the client's BUFFER_SIZE - 1 byte read, and decodes into the status digit
   * and the payload after the header.
   */
  lemma EveryFrameIsAccepted(received: string, allowList: Option<string>, capture: Capture)
    requires Respond(received, allowList, capture).Reply?
    ensures var frame := Respond(received, allowList, capture).frame;
      && IsValidResponse(frame)
      && |frame| <= BUFFER_SIZE - 1
      && DecodeReply(frame).Some?
      && DecodeReply(frame).value.output == frame[2..]
      && DecodeReply(frame).value.status == (if frame[0] == '0' then 0 else 1)
  {
    HeaderDecodes(Respond(received, allowList, capture).frame);
  }

  /**
   * End to end for an admitted user whose command's output can be read back:
   * the client prints the first min(len, 1021) output bytes, cut at any NUL,
   * on standard output and exits 0, whatever the command's exit status.
   */
  lemma AdmittedUserSeesOutput(user: CStr, command: CStr, allowList: Option<string>, stdout: string)
    requires 0 < |user| && ':' !in user
    requires command != [] && FormatRequest(user, command).RequestBytes?
    requires Permitted(allowList, user)
    ensures var outcome := Respond(FormatRequest(user, command).data, allowList, Readable(stdout));
      && outcome.Reply?
      && outcome.shell == Some(ShellCommand(StripSpaces(command), STDOUT_FILE, STDERR_FILE))
      && ReplyReport(outcome.frame)
         == Report(CString(stdout[..Min(|stdout|, PAYLOAD_CAPACITY)]) + "\n", "", 0)
  {
    var data := FormatRequest(user, command).data;
    RequestRoundTrip(user, command);
    CStringOfCStr(data);
    var frame := OutputFrame(stdout);
    OutputFrameContents(stdout);
    CStringOfCStr(frame);
  }

  /**
   * End to end for a user the allow-list does not admit: nothing runs, and
   * the client prints "Error: User '<user>' is not allowed" on standard error.
   */
  lemma RejectedUserSeesError(user: CStr, command: CStr, allowList: Option<string>, capture: Capture)
    requires 0 < |user| && ':' !in user
    requires FormatRequest(user, command).RequestBytes?
    requires !Permitted(allowList, user)
    ensures var outcome := Respond(FormatRequest(user, command).data, allowList, capture);
      && outcome.Reply? && outcome.shell.None?
      && ReplyReport(outcome.frame) == Report("", "Error: " + RejectFrame(user)[2..] + "\n", 0)
    ensures |user| <= BUFFER_SIZE - 25 ==>
      ReplyReport(Respond(FormatRequest(user, command).data, allowList, capture).frame)
      == Report("", "Error: User '" + user + "' is not allowed\n", 0)
  {
    var data := FormatRequest(user, command).data;
    RequestRoundTrip(user, command);
    CStringOfCStr(data);
    RejectedUserGetsRejectFrame(data, allowList, capture);
    RejectReport(user);
  }

  /** The client's report for the server's rejection frame. */
  lemma RejectReport(user: CStr)
    ensures ReplyReport(RejectFrame(user)) == Report("", "Error: " + RejectFrame(user)[2..] + "\n", 0)
    ensures |user| <= BUFFER_SIZE - 25 ==>
      ReplyReport(RejectFrame(user)) == Report("", "Error: User '" + user + "' is not allowed\n", 0)
  {
    ErrorReplyReport(RejectFrame(user));
    if |user| <= BUFFER_SIZE - 25 {
      RejectMessage(user);
    }
  }

  /** The text after the "1:" header of a rejection for a user of at most 999 characters. */
  lemma RejectMessage(user: CStr)
    requires |user| <= BUFFER_SIZE - 25
    ensures RejectFrame(user)[2..] == "User '" + user + "' is not allowed"
  {
    RejectFrameNamesUser(user);
    assert ("1:User '" + user + "' is not allowed")[2..] == "User '" + user + "' is not allowed";
  }
}
