# myRPC: a Dafny model of the request path

myRPC is a small remote command service. The client sends `<user>:<command>` over a stream
or datagram socket. The server checks the user against an allow-list file, runs the command
through the shell with its standard output and standard error sent to capture files, and
answers with one frame `<digit>:<payload>`. The client checks the frame's header and prints
the payload.

This project models the per-request logic between the socket calls on both sides and proves
properties about it:

- `cstrings.dfy` (`CStrings`): the C string primitives the code relies on. These are the NUL
  terminator (`CStr` is a string with no NUL), `strspn`, `strcspn` and `snprintf` truncation.
- `allow_list.dfy` (`AllowList`): `check_user_permission`. The file's contents are an input
  (`None` when `fopen` fails), consumed chunk by chunk as `fgets` with a 256-byte buffer does.
  The method keeps the C loop, with its `continue` and `break`.
- `request_parser.dfy` (`RequestParser`): `strtok(data_buffer, ":")`, `strtok(NULL, "")` and
  the loop that skips leading spaces on the command.
- `response_frame.dfy` (`ResponseFrame`): the frames the server builds. The output frame is
  written into a 1024-character array, in the code's order of writes.
- `server.dfy` (`Server`): the shell string of `run_system_command`, and one iteration of the
  main loop from the received bytes to the frame sent. C undefined behaviour is an explicit
  outcome: `Undefined(ReceiveOverflow | NullUser | NullCommand)`.
- `client.dfy` (`Client`): `is_valid_response`, the request format and its length check, what
  the client prints for a reply, and the option loop with the required-argument check.
- `protocol.dfy` (`Protocol`): properties that join the client and the server. A request
  round-trips through the parser, every server frame passes the client's check, and the
  admitted and rejected paths are proved end to end.

The stream branch (server/server.c:138-191) and the datagram branch (196-246) differ only in
their socket calls, in the two `mysyslog` calls before the send (:189-190) and in the `close`
(:192). Their parse and framing (147-187 and 204-244) are the same. One `Server.HandleRequest`
models both, so both build the same frame from the same received bytes.

Inputs instead of effects:

- the allow-list file's contents;
- the bytes one `recv` returns;
- the command's exit status;
- what the stdout capture file holds after the command ran (`Capture`);
- the options as `getopt_long` reports them, with the port already converted by `atoi`;
- the client's user name as `getpwuid` gives it.

### Behaviour of the code worth knowing

- **Exit status.** Line server/server.c:165 tests the command's exit status and writes `'1'`
  for a non-zero one. Line :171 then overwrites it with `'0'` whenever the stdout file can be
  opened. So a command that fails but whose output can be read is reported with `'0'`
  (`Server.ReadableOutputAlwaysSucceeds`). The only `'1'` frames are the read-error frame
  (:177) and the rejection (:185).
- **Request without `:`.** The whole text is the user and the command is NULL. A user the
  allow-list does not admit is rejected as usual. For an admitted user, :164 passes the NULL
  command to the `%s` of :65, which is undefined behaviour, and `system()` at :66 is given
  whatever that produced (`Server.RequestWithoutColonHasNoDefinedRun`).
- **Empty or all-`:` request.** `strtok` returns NULL for the user. `strcmp` at :53 or the
  `%s` at :185 then receives NULL, which is undefined behaviour (`Fault.NullUser`).
- **NUL in the output.** The frame is sent with `strlen` (:191), so a NUL among the bytes read
  cuts the payload short (`ResponseFrame.OutputFrameContents`).
- **Capture file names.** Lines :161-162 call `mkstemp` to make the capture file names unique.
  The templates do not end in `XXXXXX`, so `mkstemp` fails and leaves them unchanged. The
  literal names `/tmp/myRPC_XXXXXX.stdout` and `.stderr` are therefore used for every request
  (`Server.STDOUT_FILE`, `Server.STDERR_FILE`).

## Model

| member | source | states |
|---|---|---|
| CStrings.Strspn | server/server.c:147 | the leading run `strtok` skips: within bounds, and stops at the end or at a character outside the set |
| CStrings.StrspnSpans | server/server.c:147 | every character of that leading run is in the set |
| CStrings.Strcspn | server/server.c:48 | `strcspn`: stops at the end or at the first character of the reject set |
| CStrings.StrcspnSpans | server/server.c:48 | no character before that point is in the reject set |
| CStrings.CString | server/server.c:143 | the string C reads from a buffer is the prefix before its first NUL, or the whole buffer |
| CStrings.Snprintf | server/server.c:65 | `snprintf` into a buffer of `size` keeps exactly the first min(len, size-1) characters |
| AllowList.ScanLine | server/server.c:47 | one `fgets` call stops at end of file, at the 255-character limit, or just after a newline, and passes no earlier newline |
| AllowList.Fgets | server/server.c:47 | `fgets` returns NULL exactly at end of file; otherwise a chunk of 1 to 255 characters, and less is left unread |
| AllowList.FgetsSplits | server/server.c:47 | the chunk followed by what is left unread is the text before the call |
| AllowList.ChunksStep | server/server.c:47 | each call to `fgets` peels the next chunk off the file |
| AllowList.Chunks | server/server.c:47 | the chunks successive `fgets` calls return: none exactly for an empty file, never more than its characters; `ChunksConcat` and `ChunksShape` fix them completely |
| AllowList.LineOf | server/server.c:48 | the line compared is the chunk cut at its first newline (or at a NUL read from the file) and holds no newline |
| AllowList.Grants | server/server.c:48-53 | a granting chunk's line is a non-empty prefix of the chunk, not starting with '#', with no newline or NUL, and equal to the user; `SingleLineFile` gives both directions for one line |
| AllowList.Permitted | server/server.c:36-61 | the decision: never for a missing file, and only for a non-empty user without a leading '#', newline or NUL; `CheckUserPermission` is proved to compute it |
| AllowList.CheckUserPermission | server/server.c:36-61 | grants iff some chunk grants (`Permitted`); a missing file reads nothing; stops at the first granting chunk, with no granting chunk before it; otherwise reads every chunk |
| AllowList.PeelChunk | server/server.c:47-57 | each loop step reads the next chunk of the file, in order |
| AllowList.ChunksConcat | server/server.c:44-47 | the chunks concatenate back to the whole file: nothing is lost or reordered |
| AllowList.ChunksShape | server/server.c:44-47 | every chunk holds 1 to 255 characters and a newline only at its end; every chunk but the last that is shorter than 255 ends in a newline |
| AllowList.MissingFileDeniesEveryone | server/server.c:37-42 | an allow-list file that cannot be opened admits nobody |
| AllowList.CommentOrBlankNeverGrants | server/server.c:50-51 | the empty user and users starting with '#' are never admitted, whatever the file holds |
| AllowList.SingleLineFile | server/server.c:47-56 | a one-line file admits exactly the user equal to its line, by exact comparison, unless the line is blank or a comment |
| AllowList.LongLineTailGrants | server/server.c:44-53 | a line over 255 characters is split into chunks, and its tail alone admits the user it spells |
| RequestParser.Strtok | server/server.c:147-148 | an empty string has no token; no token leaves no rest; a token is non-empty and fits with the rest in the string, with room for the consumed delimiter when a rest is left; `StrtokShape` gives the full characterisation |
| RequestParser.StrtokShape | server/server.c:147 | `strtok`: no token iff only delimiters are left; otherwise the token is the non-empty delimiter-free run after them, and exactly one delimiter after it is consumed |
| RequestParser.StrtokNoDelimiters | server/server.c:148 | `strtok(NULL, "")` returns all remaining text, or NULL when none is left |
| RequestParser.StripSpaces | server/server.c:150-151 | removes exactly the leading spaces: the result is a suffix, everything dropped is ' ', and the result does not start with ' ' |
| RequestParser.CommandOf | server/server.c:148-152 | no command iff nothing follows the first token; otherwise that text without its leading spaces |
| RequestParser.ParseRequest | server/server.c:143-152 | the parse of the buffer's C string, with the space-skipping loop, equals `Tokenize` of that string |
| RequestParser.Tokenize | server/server.c:147-152 | an empty text has no user; no user means no command; user and command fit in the text with room for the ':' between them; `TokenizeUser` and `TokenizeCommand` fix both fields |
| RequestParser.TokenizeUser | server/server.c:147 | the user is None iff the text is all ':'; otherwise it is the maximal non-empty ':'-free run after the leading ':'s |
| RequestParser.FirstStepRest | server/server.c:147-148 | what the first `strtok` leaves starts right after the one ':' that ends the user, and is empty iff nothing follows |
| RequestParser.TokenizeCommand | server/server.c:147-152 | no user gives no command; otherwise there is a command iff text follows the ':' after the user, and it is that text with leading spaces stripped, inner ':' kept |
| RequestParser.TokenizeUserAndCommand | server/server.c:147-152 | `user:command` with a non-empty ':'-free user parses to that user, and to the stripped command or None for an empty command |
| RequestParser.SecondColonKept | server/server.c:147-148 | only one ':' is consumed: `user::rest` has command `:rest` |
| ResponseFrame.OutputFrame | server/server.c:170-173 | an output frame starts with "0:" and is 2 to 1023 characters long |
| ResponseFrame.RejectFrame | server/server.c:185 | a rejection frame starts with "1:", is 2 to 1023 characters long, and is a prefix of "1:User '<user>' is not allowed" |
| ResponseFrame.FrameInBuffer | server/server.c:170-173 | a buffer holding "0:", the bytes read and a terminator reads back as `OutputFrame` |
| ResponseFrame.WriteOutputFrame | server/server.c:165-173 | the array holds "0:", the first min(len, 1021) output bytes and a NUL, whatever the exit status; the rest of the array is unchanged; the frame is its C string |
| ResponseFrame.OutputFrameContents | server/server.c:170-173 | the payload is a prefix of the first min(len, 1021) output bytes: all of them if none is NUL, otherwise up to a NUL |
| ResponseFrame.RejectFrameNamesUser | server/server.c:185 | the rejection starts with "1:"; a user of at most 999 characters appears whole; a longer one yields exactly 1023 characters |
| Server.ShellCommand | server/server.c:63-65 | the shell string is a prefix of `cmd >out 2>err` of length min(len, 1023) |
| Server.ShellCommandRedirects | server/server.c:159-164 | a command of at most 970 characters keeps both redirections to the capture files |
| Server.LongCommandLosesRedirections | server/server.c:63-65 | a command of 1023 or more characters is cut to its first 1023 characters and loses both redirections |
| Server.Answer | server/server.c:156-187 | every frame sent has a '0' or '1' status, then ':', and is 2 to 1023 characters long |
| Server.Respond | server/server.c:138-191 | the same frame bounds hold for one whole iteration, from the received bytes |
| Server.HandleRequest | server/server.c:138-191 | the imperative handler (parse, allow-list loop, array frame) yields exactly `Respond`, whatever the exit status, for both socket kinds |
| Server.ShellOnlyForPermittedUser | server/server.c:156-164 | the shell runs only for a parsed user the allow-list admits, and only on that request's own command with its redirections |
| Server.RejectedUserGetsRejectFrame | server/server.c:184-187 | a parsed user the allow-list does not admit gets the rejection frame for that user, and nothing runs |
| Server.MissingAllowListRejectsAll | server/server.c:37-42 | with no allow-list file, every request with a user is rejected with a "1:" frame, and nothing runs |
| Server.ReadableOutputAlwaysSucceeds | server/server.c:165-173 | once the command ran and its stdout is readable, the frame is "0:" plus the output frame: the exit status never reaches the client |
| Server.UnreadableOutputReportsError | server/server.c:176-178 | an unreadable stdout file gives exactly "1:Error reading command output" |
| Server.RequestWithoutColonHasNoDefinedRun | server/server.c:147-164 | a request without ':' gets no outcome with a shell string: an empty one has no user (undefined); otherwise the whole text is the user, which is rejected if not admitted; an admitted one reaches the undefined `snprintf` of a NULL command before `system()` |
| Client.IsValidResponse | client/client.c:26-40 | true iff the C string has length at least 2, starts with '0' or '1', and has ':' second |
| Client.FormatRequest | client/client.c:107-114 | rejected iff len(user) + 1 + len(command) >= 1024, with that size; otherwise exactly `user:command`, shorter than 1024 |
| Client.DecodeReply | client/client.c:171-180 | no decoding iff the header check fails; the status is 0 or 1 as the first character is '0' or '1'; the C string is that digit, ':', and the output |
| Client.ReplyReport | client/client.c:171-186 | an invalid reply is echoed to standard output with exit 1; "0:" prints the payload to standard output and "1:" prints "Error: " and the payload to standard error, both with exit 0 |
| Client.ErrorReplyReport | client/client.c:182-186 | a NUL-free "1:" reply prints "Error: " and its payload on standard error, exit 0 |
| Client.SuccessReplyReport | client/client.c:182-183 | a NUL-free "0:" reply prints its payload on standard output, exit 0 |
| Client.ApplyOption | client/client.c:60-86 | one turn of the switch exits exactly on --help, an unknown option or a port outside 1..65535, always with an `Exit`; otherwise -c, -h and -p store their value, -s and -d set the transport to stream or datagram, and every other variable is unchanged |
| Client.ApplyOptions | client/client.c:59-87 | the loop stops only with an `Exit`; `ContinueIffNoExit`, `FirstExitDecides` and `ApplyOptionsInvariant` say when and with what settings |
| Client.CheckRequired | client/client.c:89-96 | goes on iff command, host and a non-zero port are set, with exactly those values and the transport; otherwise exit 1 with the missing-arguments error and the help text |
| Client.Configure | client/client.c:59-96 | a setup that goes on has a port in 1..65535; `ConfigureReadyIff` and `ReadySetup` characterise it |
| Client.ParseOptions | client/client.c:59-96 | the imperative option loop and required-argument check reach exactly the setup `Configure` gives |
| Client.ApplyOptionsInvariant | client/client.c:59-87 | the loop stops only with an `Exit`; it keeps the port at 0 or in 1..65535; the command, host, port and transport it leaves are those of the last -c, -h, -p and -s/-d options |
| Client.ReadySetup | client/client.c:59-96 | a client that goes on has a port in 1..65535, the command, host and port of the last -c, -h and -p options, and the last -s/-d transport, stream by default |
| Client.ContinueIffNoExit | client/client.c:59-87 | the option loop runs to its end iff none of the options exits |
| Client.FirstExitDecides | client/client.c:59-87 | the first option that exits decides how the client exits, whatever follows it |
| Client.InvalidPortExits | client/client.c:67-73 | an out-of-range -p that the loop reaches makes the client exit 1 with "Invalid port number" |
| Client.ConfigureReadyIff | client/client.c:59-96 | the client goes on iff no option exits and the last -c, -h and -p give a command, a host and a non-zero port |
| Client.PortAcceptedIffInRange | client/client.c:67-73 | a port option is accepted iff its value is in 1..65535; otherwise the client exits 1 with "Invalid port number" |
| Client.CommandComesFromOption | client/client.c:59-87 | the option loop sets no command unless a -c option is given |
| Client.MissingCommandExits | client/client.c:89-96 | without -c the client never connects; once the loop finishes, it exits 1 with the missing-arguments error and the help text |
| Client.HostComesFromOption | client/client.c:59-87 | the option loop sets no host unless a -h option is given |
| Client.MissingHostExits | client/client.c:89-96 | without -h the client never connects; once the loop finishes, it exits 1 with the missing-arguments error and the help text |
| Client.PortComesFromOption | client/client.c:59-87 | the option loop leaves the port at 0 unless a -p option is given |
| Client.MissingPortExits | client/client.c:89-96 | without -p the client never connects; once the loop finishes, it exits 1 with the missing-arguments error and the help text |
| Protocol.RequestRoundTrip | client/client.c:107-114 | a request the client sends is shorter than 1024, and the server parses it back into the same user and the command without leading spaces (None if the command is empty) |
| Protocol.HeaderDecodes | client/client.c:171-180 | a NUL-free frame with a '0'/'1' and ':' header passes the check and decodes into that digit and the rest |
| Protocol.EveryFrameIsAccepted | client/client.c:160-180 | every server frame passes `is_valid_response`, fits the client's 1023-byte read, and decodes into its digit and payload |
| Protocol.AdmittedUserSeesOutput | server/server.c:156-173 | an admitted user's command runs without its leading spaces; the client prints the first min(len, 1021) output bytes, cut at any NUL, with exit 0, whatever the exit status |
| Protocol.RejectedUserSeesError | server/server.c:184-187 | for a user not admitted, nothing runs, and the client prints "Error: User '<user>' is not allowed" (truncated for long names) on standard error |
| Protocol.RejectReport | client/client.c:182-186 | the client prints the rejection frame as "Error: " and its payload on standard error; the exact message for users of at most 999 characters |
| Protocol.RejectMessage | server/server.c:185 | the rejection payload for a user of at most 999 characters is exactly "User '<user>' is not allowed" |

## Left out

- Sockets are not modelled: `socket`, `setsockopt`, `bind`, `listen`, `accept`, `connect`, `send`, `recv`, `sendto`, `recvfrom`. This is network I/O. The model starts from the bytes one receive returns and ends with the frame sent.
  - One receive is taken as the whole request, as the server does; partial reads are not reassembled. Likewise the client's one `recv`/`recvfrom` of at most 1023 bytes (client/client.c:160, 200) is taken as the whole frame, which `Client.ReplyReport` and `Protocol.EveryFrameIsAccepted` rely on.
  - A receive error on the client is not modelled.
- `run_as_daemon`, the signal handler and the `shutdown_flag` loop are not modelled; they are process control.
- `system` and `WEXITSTATUS` are not modelled; they run a foreign program. The exit status is an input that the frame, as proved, does not depend on.
- `mkstemp`, `fopen`, `fread`, `fclose` and `remove` on the capture files are not modelled; they are file I/O.
  - The stdout file's contents are an input. The stderr file is never read back.
  - `fread` is taken to read the whole file up to its 1021-byte limit in one call.
- mysyslog is left out: each `mysyslog` call writes only to a log file, so it is a no-op here. `perror` and `fprintf` diagnostics that go only to a terminal are left out too.
- `parse_config` is left out: the server's port and socket type come from it, it is not part of this model, and they only choose which socket is opened.
- `getopt_long`, `atoi`, `getpwuid` and `inet_pton` are library calls, so their results are inputs.
  - The failure of `getpwuid` (client/client.c:98-104) and an invalid address (:132-138) are not modelled.
  - A request that is too long yields `FormatRequest`'s `CommandTooLong`; its message text is not modelled.
- The diagnostics `getopt_long` prints itself, for an unknown option or an option missing its argument, are not modelled. `Setup.Exit`'s `error` field holds only what the client itself writes to standard error, so it is empty for `UnknownOpt`.
- The text of `display_help` is not modelled; `Setup.Exit` records only whether it is shown.
- The client's `free` calls are left out; memory management has no observable effect here.
