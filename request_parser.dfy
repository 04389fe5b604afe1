/**
 * The request parse in the server's main loop (server/server.c:147-152,
 * repeated at 204-209): strtok(data_buffer, ":") takes the user,
 * strtok(NULL, "") takes the rest as the command, and leading spaces are
 * skipped on the command.
 */
module RequestParser {
  import opened Wrappers
  import opened CStrings

  /** What one strtok call returns, and the text it leaves for the next strtok(NULL, ...) call. */
  datatype TokenStep = TokenStep(token: Option<CStr>, rest: CStr)

  /**
   * strtok(s, delims): skip leading delimiters; at end of string there is no
   * token (NULL); otherwise the token runs up to the next delimiter, which is
   * consumed, or to the end of the string.
   */
  function Strtok(s: CStr, delims: set<char>): (r: TokenStep)
    ensures s == [] ==> r.token.None?
    ensures r.token.None? ==> r.rest == []
    ensures r.token.Some? ==> 0 < |r.token.value| && |r.token.value| + |r.rest| <= |s|
    ensures r.rest != [] ==> |r.token.value| + |r.rest| < |s|
  {
    var k := Strspn(s, delims);
    if k == |s| then TokenStep(None, [])
    else
      var e := CSpanEnd(s, delims, k);
      SliceIsCStr(s, k, e);
      if e == |s| then TokenStep(Some(s[k..e]), [])
      else
        SliceIsCStr(s, e + 1, |s|);
        TokenStep(Some(s[k..e]), s[e + 1..])
  }

  /**
   * The shape of a strtok step: the token is the non-empty run of
   * non-delimiters after the skipped delimiters, and the rest starts after the
   * one delimiter that ends it.
   */
  lemma StrtokShape(s: CStr, delims: set<char>)
    ensures var k, r := Strspn(s, delims), Strtok(s, delims);
      && (r.token.None? <==> k == |s|)
      && (r.token.None? ==> r.rest == [])
      && (r.token.Some? ==>
           var t := r.token.value;
           && 0 < |t| && k + |t| <= |s| && s[k..k + |t|] == t
           && (forall i :: 0 <= i < |t| ==> t[i] !in delims)
           && (if k + |t| == |s| then r.rest == [] else s[k + |t|] in delims && r.rest == s[k + |t| + 1..]))
  {
    var k := Strspn(s, delims);
    if k < |s| {
      var e := CSpanEnd(s, delims, k);
      CSpanEndSpans(s, delims, k);
      assert forall i :: 0 <= i < e - k ==> s[k..e][i] == s[k + i];
    }
  }

  /** With no delimiters, as in strtok(NULL, ""), the token is the whole remaining text. */
  lemma StrtokNoDelimiters(s: CStr)
    ensures Strtok(s, {}) == if s == [] then TokenStep(None, []) else TokenStep(Some(s), [])
  {
    assert Strspn(s, {}) == 0;
    if s != [] {
      assert CSpanEnd(s, {}, 0) == |s|;
      assert s[0..|s|] == s;
    }
  }

  /** Skipping leading spaces: what `while (*client_cmd == ' ') client_cmd++;` leaves. */
  function StripSpaces(s: CStr): (r: CStr)
    ensures |r| <= |s| && r == s[|s| - |r|..]
    ensures forall i :: 0 <= i < |s| - |r| ==> s[i] == ' '
    ensures r == [] || r[0] != ' '
  {
    var n := Strspn(s, {' '});
    StrspnSpans(s, {' '});
    SliceIsCStr(s, n, |s|);
    s[n..]
  }

  /** The user and command the server takes from one request (None: strtok returned NULL). */
  datatype Request = Request(user: Option<CStr>, command: Option<CStr>)

  /**
   * The command the server takes from what the first strtok call left:
   * strtok(NULL, "") returns all of it, or NULL when nothing is left, and the
   * leading spaces are then skipped.
   */
  function CommandOf(rest: CStr): (command: Option<CStr>)
    ensures command.None? <==> rest == []
    ensures command.Some? ==> command.value == StripSpaces(rest)
  {
    var second := Strtok(rest, {});
    StrtokNoDelimiters(rest);
    if second.token.Some? then Some(StripSpaces(second.token.value)) else None
  }

  /** The parse of the request text, call by call as the server makes them. */
  function Tokenize(text: CStr): (r: Request)
    ensures text == [] ==> r.user.None?
    ensures r.user.None? ==> r.command.None?
    ensures r.user.Some? ==> 0 < |r.user.value| <= |text|
    ensures r.command.Some? ==> |r.user.value| + |r.command.value| < |text|
  {
    var first := Strtok(text, {':'});
    Request(first.token, CommandOf(first.rest))
  }

  /**
   * Parsing the received buffer: the text is what precedes the first NUL
   * (the terminator written at bytes_received, or an earlier NUL among the
   * bytes), and the command pointer is advanced over leading spaces.
   */
  method ParseRequest(buffer: string) returns (request: Request)
    ensures request == Tokenize(CString(buffer))
  {
    var text := CString(buffer);
    var first := Strtok(text, {':'});
    var second := Strtok(first.rest, {});
    var command: Option<CStr> := None;
    if second.token.Some? {
      var cmd := second.token.value;
      var i := 0;
      while i < |cmd| && cmd[i] == ' '
        invariant 0 <= i <= |cmd|
        invariant forall j :: 0 <= j < i ==> cmd[j] == ' '
      {
        i := i + 1;
      }
      StrspnIs(cmd, {' '}, i);
      assert cmd[i..] == StripSpaces(cmd);
      command := Some(cmd[i..]);
    }
    request := Request(first.token, command);
  }

  /**
   * The user: leading ':' characters are skipped, the user is None exactly
   * when nothing else is left, and otherwise it is the maximal non-empty run
   * of non-':' characters after them.
   */
  lemma TokenizeUser(text: CStr)
    ensures var k, r := Strspn(text, {':'}), Tokenize(text);
      && (r.user.None? <==> forall i :: 0 <= i < |text| ==> text[i] == ':')
      && (r.user.Some? ==>
           var u := r.user.value;
           && 0 < |u| && ':' !in u && k + |u| <= |text| && text[k..k + |u|] == u
           && (k + |u| == |text| || text[k + |u|] == ':'))
  {
    StrtokShape(text, {':'});
    StrspnSpans(text, {':'});
    var k := Strspn(text, {':'});
    if k < |text| {
      assert text[k] != ':';
    }
  }

  /** Where the rest left by the first strtok step starts: after the one ':' that ends the user. */
  lemma FirstStepRest(text: CStr)
    requires Strtok(text, {':'}).token.Some?
    ensures var after := Strspn(text, {':'}) + |Strtok(text, {':'}).token.value| + 1;
      && (Strtok(text, {':'}).rest == [] <==> after >= |text|)
      && (after < |text| ==> Strtok(text, {':'}).rest == text[after..])
  {
    StrtokShape(text, {':'});
  }

  /**
   * The command: exactly one ':' is consumed after the user, and the command
   * is everything after it, embedded ':' kept, with only leading spaces
   * removed; it is None when nothing follows that ':'.
   */
  lemma TokenizeCommand(text: CStr)
    ensures Tokenize(text).user.None? ==> Tokenize(text).command.None?
    ensures var r := Tokenize(text);
      r.user.Some? ==>
      var after := Strspn(text, {':'}) + |r.user.value| + 1;
      && (r.command.Some? <==> after < |text|)
      && (r.command.Some? ==> r.command.value == StripSpaces(text[after..]))
  {
    var first := Strtok(text, {':'});
    if first.token.Some? {
      FirstStepRest(text);
      assert Tokenize(text).user == first.token;
      var after := Strspn(text, {':'}) + |first.token.value| + 1;
      if after < |text| {
        assert Tokenize(text).command == Some(StripSpaces(first.rest));
      } else {
        assert first.rest == [];
      }
    }
  }

  /**
   * A user without ':' followed by ':' parses back into that user, and into
   * the command with its leading spaces stripped, or no command when nothing
   * follows the ':'.
   */
  lemma {:induction false} TokenizeUserAndCommand(user: CStr, command: CStr)
    requires 0 < |user| && ':' !in user
    ensures Tokenize(user + ":" + command).user == Some(user)
    ensures Tokenize(user + ":" + command).command == if command == [] then None else Some(StripSpaces(command))
  {
    var text := user + ":" + command;
    assert text[..|user|] == user && text[|user|] == ':' && text[|user| + 1..] == command;
    assert Strspn(text, {':'}) == 0 by {
      assert text[0] == user[0];
    }
    TokenizeUser(text);
    TokenizeCommand(text);
    var r := Tokenize(text);
    assert r.user.Some? by {
      assert text[0] != ':';
    }
    var u := r.user.value;
    assert |u| == |user|;
    assert u == text[0..|user|];
    assert text[0..|user|] == text[..|user|];
  }

  /**
   * Only the first ':' after the user is consumed: in user + "::" + rest the
   * command keeps the second ':' ("a::x" gives command ":x").
   */
  lemma {:induction false} SecondColonKept(user: CStr, rest: CStr)
    requires 0 < |user| && ':' !in user
    ensures Tokenize(user + "::" + rest).user == Some(user)
    ensures Tokenize(user + "::" + rest).command == Some(":" + rest)
  {
    var cmd: CStr := ":" + rest;
    assert Strspn(cmd, {' '}) == 0 by {
      assert cmd[0] == ':';
    }
    assert StripSpaces(cmd) == cmd;
    var text := user + "::" + rest;
    assert user + ":" + cmd == text;
    TokenizeUserAndCommand(user, cmd);
  }
}
