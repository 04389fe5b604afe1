/**
 * The frames the server builds in server_response (server/server.c:154-187,
 * repeated at 211-244): the command output frame written byte by byte, the
 * read-error frame and the rejection frame.
 */
module ResponseFrame {
  import opened CStrings

  /** fread(server_response + 2, 1, BUFFER_SIZE - 3, ...) reads at most this many output bytes. */
  const PAYLOAD_CAPACITY: nat := BUFFER_SIZE - 3

  /** strcpy(server_response, ...) when the stdout file cannot be opened. */
  const READ_ERROR_FRAME: CStr := "1:Error reading command output"

  /** What fopen/fread find in the command's stdout file. */
  datatype Capture = Unreadable | Readable(stdout: string)

  /**
   * The frame sent for a readable stdout file: "0:" and the bytes fread
   * stored, up to the first NUL among them, since send uses strlen.
   */
  function OutputFrame(stdout: string): (frame: CStr)
    ensures 2 <= |frame| <= BUFFER_SIZE - 1
    ensures frame[0] == '0' && frame[1] == ':'
  {
    "0:" + CString(stdout[..Min(|stdout|, PAYLOAD_CAPACITY)])
  }

  /** The frame snprintf(server_response, BUFFER_SIZE, "1:User '%s' is not allowed", user) leaves. */
  function RejectFrame(user: CStr): (frame: CStr)
    ensures 2 <= |frame| <= BUFFER_SIZE - 1
    ensures frame[0] == '1' && frame[1] == ':'
    ensures frame <= "1:User '" + user + "' is not allowed"
  {
    var full := "1:User '" + user + "' is not allowed";
    assert full[0] == '1' && full[1] == ':';
    Snprintf(full, BUFFER_SIZE)
  }

  /** A buffer laid out as WriteOutputFrame leaves it reads back as OutputFrame. */
  lemma FrameInBuffer(buf: string, stdout: string)
    requires Min(|stdout|, PAYLOAD_CAPACITY) + 2 < |buf|
    requires buf[0] == '0' && buf[1] == ':'
    requires forall j :: 0 <= j < Min(|stdout|, PAYLOAD_CAPACITY) ==> buf[j + 2] == stdout[j]
    requires buf[Min(|stdout|, PAYLOAD_CAPACITY) + 2] == NUL
    ensures CString(buf) == OutputFrame(stdout)
  {
    var n := Min(|stdout|, PAYLOAD_CAPACITY);
    var header: CStr := "0:";
    var tail := buf[2..];
    assert buf == header + tail;
    CStringAfterPrefix(header, tail);
    CStringBeforeTerminator(tail, n);
    assert tail[..n] == stdout[..n];
  }

  /**
   * Building the frame in server_response after the command ran: the status
   * byte is first set from the exit status, the output is copied in after the
   * header, then the header is written again as "0:" and the terminator is
   * placed after the bytes read. The frame is what strlen then sees.
   */
  method WriteOutputFrame(resp: array<char>, exitStatus: int, stdout: string) returns (frame: CStr)
    requires resp.Length == BUFFER_SIZE
    modifies resp
    ensures resp[0] == '0' && resp[1] == ':'
    ensures forall j :: 0 <= j < Min(|stdout|, PAYLOAD_CAPACITY) ==> resp[j + 2] == stdout[j]
    ensures resp[Min(|stdout|, PAYLOAD_CAPACITY) + 2] == NUL
    ensures forall j :: Min(|stdout|, PAYLOAD_CAPACITY) + 3 <= j < BUFFER_SIZE ==> resp[j] == old(resp[j])
    ensures frame == CString(resp[..])
    ensures frame == OutputFrame(stdout)
  {
    resp[0] := if exitStatus == 0 then '0' else '1';
    resp[1] := ':';
    var bytesRead := Min(|stdout|, PAYLOAD_CAPACITY);
    var i := 0;
    while i < bytesRead
      invariant 0 <= i <= bytesRead
      invariant forall j :: 0 <= j < i ==> resp[j + 2] == stdout[j]
      invariant forall j :: bytesRead + 3 <= j < BUFFER_SIZE ==> resp[j] == old(resp[j])
    {
      resp[i + 2] := stdout[i];
      i := i + 1;
    }
    resp[0] := '0';
    resp[1] := ':';
    resp[bytesRead + 2] := NUL;
    frame := CString(resp[..]);
    FrameInBuffer(resp[..], stdout);
  }

  /**
   * A readable stdout file always gives a "0:" frame, whatever the exit
   * status, whose payload is the first min(len, 1021) output bytes cut at
   * the first NUL among them.
   */
  lemma OutputFrameContents(stdout: string)
    ensures var frame, n := OutputFrame(stdout), Min(|stdout|, PAYLOAD_CAPACITY);
      && frame[0] == '0' && frame[1] == ':'
      && frame[2..] <= stdout[..n]
      && (NUL !in stdout[..n] ==> frame[2..] == stdout[..n])
      && (|frame| - 2 < n ==> stdout[|frame| - 2] == NUL)
  {
    var n := Min(|stdout|, PAYLOAD_CAPACITY);
    var payload := CString(stdout[..n]);
    assert OutputFrame(stdout)[2..] == payload;
  }

  /** A user name of at most 999 characters appears whole in the rejection frame; longer ones are cut to fit 1023 characters. */
  lemma RejectFrameNamesUser(user: CStr)
    ensures var frame := RejectFrame(user);
      && frame[..2] == "1:"
      && (|user| <= BUFFER_SIZE - 25 ==> frame == "1:User '" + user + "' is not allowed")
      && (|user| > BUFFER_SIZE - 25 ==> |frame| == BUFFER_SIZE - 1)
  {
    var full := "1:User '" + user + "' is not allowed";
    assert |full| == |user| + 24;
    assert full[..2] == "1:";
  }
}
