/**
 * check_user_permission (server/server.c:36-61): the allow-list file is read
 * with fgets into a 256-byte buffer, each chunk is cut at its first newline,
 * blank and '#' chunks are skipped, and the first chunk equal to the user
 * grants permission.
 */
module AllowList {
  import opened Wrappers
  import opened CStrings

  /** fgets(config_line, sizeof(config_line), f) with a 256-byte buffer stores at most 255 characters. */
  const LINE_CAPACITY: nat := 255

  /**
   * How many characters one fgets call takes from the front of s when it may
   * store at most limit: it stops at end of file, at the limit, or just after
   * a newline, whichever comes first.
   */
  function ScanLine(s: string, limit: nat): (n: nat)
    ensures n <= |s| && n <= limit
    ensures s != [] && limit > 0 ==> n > 0
    ensures forall i :: 0 <= i < n - 1 ==> s[i] != '\n'
    ensures n == |s| || n == limit || (n > 0 && s[n - 1] == '\n')
  {
    if s == [] || limit == 0 then 0
    else if s[0] == '\n' then 1
    else 1 + ScanLine(s[1..], limit - 1)
  }

  /**
   * One fgets call on the unread rest of the file: None (NULL) at end of
   * file, otherwise the chunk it stores and what is left unread.
   */
  function Fgets(rest: string): (r: Option<(string, string)>)
    ensures r.None? <==> rest == []
    ensures r.Some? ==> 0 < |r.value.0| <= LINE_CAPACITY && |r.value.1| < |rest|
  {
    if rest == [] then None
    else
      var n := ScanLine(rest, LINE_CAPACITY);
      Some((rest[..n], rest[n..]))
  }

  /** fgets splits the unread text into the chunk it stores and what it leaves unread. */
  lemma FgetsSplits(rest: string)
    requires rest != []
    ensures Fgets(rest).value.0 + Fgets(rest).value.1 == rest
  {
    var n := ScanLine(rest, LINE_CAPACITY);
    assert rest[..n] + rest[n..] == rest;
  }

  /** The chunks successive fgets calls return, in order, until end of file. */
  function Chunks(s: string): (cs: seq<string>)
    ensures cs == [] <==> s == []
    ensures |cs| <= |s|
    decreases |s|
  {
    match Fgets(s)
    case None => []
    case Some((chunk, rest)) => [chunk] + Chunks(rest)
  }

  /** One fgets call peels the first chunk off the file. */
  lemma ChunksStep(s: string)
    requires s != []
    ensures Chunks(s) == [Fgets(s).value.0] + Chunks(Fgets(s).value.1)
  {
  }

  function Concat(cs: seq<string>): string
  {
    if cs == [] then [] else cs[0] + Concat(cs[1..])
  }

  /**
   * The C string left in config_line after
   * config_line[strcspn(config_line, "\n")] = '\0': the chunk up to its first
   * newline, or up to a NUL read from the file, which ends it as well.
   */
  function LineOf(chunk: string): (line: CStr)
    ensures line <= chunk && '\n' !in line
    ensures |line| == |chunk| || chunk[|line|] == '\n' || chunk[|line|] == NUL
  {
    var n := Strcspn(chunk, {'\n', NUL});
    StrcspnSpans(chunk, {'\n', NUL});
    assert forall i :: 0 <= i < n ==> chunk[..n][i] == chunk[i];
    chunk[..n]
  }

  /** Whether one chunk admits user: its line is neither a comment nor blank, and equals user exactly. */
  predicate Grants(chunk: string, user: string): (g: bool)
    ensures g ==> user <= chunk && user != [] && user[0] != '#' && '\n' !in user && NUL !in user
  {
    var line := LineOf(chunk);
    !((|line| > 0 && line[0] == '#') || |line| == 0) && line == user
  }

  /** The decision check_user_permission reaches on the file's contents (None: fopen failed). */
  predicate Permitted(contents: Option<string>, user: string): (p: bool)
    ensures contents.None? ==> !p
    ensures p ==> user != [] && user[0] != '#' && '\n' !in user && NUL !in user
  {
    contents.Some? &&
    exists i :: 0 <= i < |Chunks(contents.value)| && Grants(Chunks(contents.value)[i], user)
  }

  /**
   * The fgets loop of check_user_permission. linesRead is the number of fgets
   * calls that returned a chunk: the loop stops at the first granting chunk
   * and otherwise reads the whole file.
   */
  method CheckUserPermission(contents: Option<string>, user: CStr) returns (granted: bool, linesRead: nat)
    ensures granted <==> Permitted(contents, user)
    ensures contents.None? ==> !granted && linesRead == 0
    ensures contents.Some? ==> linesRead <= |Chunks(contents.value)|
    ensures contents.Some? && !granted ==> linesRead == |Chunks(contents.value)|
    ensures granted ==> 0 < linesRead && Grants(Chunks(contents.value)[linesRead - 1], user)
    ensures granted ==> forall j :: 0 <= j < linesRead - 1 ==> !Grants(Chunks(contents.value)[j], user)
  {
    if contents.None? {
      // fopen failed: the file is never read and nobody is allowed
      return false, 0;
    }
    ghost var all := Chunks(contents.value);
    var rest := contents.value;
    granted, linesRead := false, 0;
    // fgets returns NULL exactly when nothing is left to read
    while rest != []
      invariant linesRead <= |all| && Chunks(rest) == all[linesRead..]
      invariant !granted
      invariant forall j :: 0 <= j < linesRead ==> !Grants(all[j], user)
      decreases |rest|
    {
      var chunk, remaining := Fgets(rest).value.0, Fgets(rest).value.1;
      PeelChunk(all, linesRead, rest);
      rest, linesRead := remaining, linesRead + 1;
      var line := LineOf(chunk);
      if (|line| > 0 && line[0] == '#') || |line| == 0 {
        continue;
      }
      if line == user {
        granted := true;
        break;
      }
    }
    if granted {
      PermittedAt(contents.value, user, linesRead - 1);
    } else {
      NotPermitted(contents.value, user);
    }
  }

  /** One loop step: the chunk fgets returns next is the next chunk of the file. */
  lemma PeelChunk(all: seq<string>, i: nat, rest: string)
    requires rest != [] && i <= |all| && Chunks(rest) == all[i..]
    ensures i < |all| && all[i] == Fgets(rest).value.0 && Chunks(Fgets(rest).value.1) == all[i + 1..]
  {
    ChunksStep(rest);
    var tail := all[i..];
    assert tail[0] == all[i];
    assert tail[1..] == all[i + 1..];
  }

  /** A granting chunk anywhere in the file admits the user. */
  lemma PermittedAt(contents: string, user: string, i: nat)
    requires i < |Chunks(contents)| && Grants(Chunks(contents)[i], user)
    ensures Permitted(Some(contents), user)
  {
  }

  /** Without a granting chunk the user is not admitted. */
  lemma NotPermitted(contents: string, user: string)
    requires forall j :: 0 <= j < |Chunks(contents)| ==> !Grants(Chunks(contents)[j], user)
    ensures !Permitted(Some(contents), user)
  {
  }

  /** The fgets chunks concatenate back to the whole file: nothing is dropped or reordered. */
  lemma {:induction false} ChunksConcat(s: string)
    ensures Concat(Chunks(s)) == s
    decreases |s|
  {
    if s != [] {
      ChunksStep(s);
      var chunk, rest := Fgets(s).value.0, Fgets(s).value.1;
      FgetsSplits(s);
      ChunksConcat(rest);
      assert Chunks(s)[1..] == Chunks(rest);
    }
  }

  /**
   * The shape of one fgets chunk: it holds 1 to 255 characters, a newline
   * only as its last character, and, unless it is the last chunk of the file,
   * it ends with a newline whenever it is shorter than 255 characters.
   */
  predicate ChunkShaped(chunk: string, last: bool)
  {
    && 0 < |chunk| <= LINE_CAPACITY
    && (forall j :: 0 <= j < |chunk| - 1 ==> chunk[j] != '\n')
    && (!last && |chunk| < LINE_CAPACITY ==> chunk[|chunk| - 1] == '\n')
  }

  /** The first chunk fgets takes is shaped; it is the last one when nothing is left after it. */
  lemma FirstChunkShaped(s: string)
    requires s != []
    ensures ChunkShaped(Fgets(s).value.0, Fgets(s).value.1 == [])
  {
    var n := ScanLine(s, LINE_CAPACITY);
    assert Fgets(s).value.0 == s[..n];
  }

  /** Every chunk fgets returns is shaped, and only the final one may lack its newline. */
  lemma {:induction false} ChunksShape(s: string)
    ensures forall i :: 0 <= i < |Chunks(s)| ==> ChunkShaped(Chunks(s)[i], i == |Chunks(s)| - 1)
    decreases |s|
  {
    if s != [] {
      ChunksStep(s);
      var chunk, rest := Fgets(s).value.0, Fgets(s).value.1;
      FirstChunkShaped(s);
      ChunksShape(rest);
      var c, cr := Chunks(s), Chunks(rest);
      assert c[0] == chunk;
      assert forall i :: 0 < i < |c| ==> c[i] == cr[i - 1];
      assert rest == [] <==> |c| == 1;
    }
  }

  /** With the allow-list file missing, nobody is allowed. */
  lemma MissingFileDeniesEveryone(user: string)
    ensures !Permitted(None, user)
  {
  }

  /** Comment and blank chunks are skipped, so an empty user or one that starts with '#' is never allowed. */
  lemma CommentOrBlankNeverGrants(contents: Option<string>, user: string)
    requires user == [] || user[0] == '#'
    ensures !Permitted(contents, user)
  {
  }

  /**
   * A one-line file admits exactly the user its line spells, compared
   * character by character (so case-sensitively), unless the line is blank
   * or a comment.
   */
  lemma SingleLineFile(line: string, user: string)
    requires |line| < LINE_CAPACITY && '\n' !in line && NUL !in line
    ensures Permitted(Some(line + "\n"), user) <==> (line == user && line != [] && line[0] != '#')
  {
    var s := line + "\n";
    assert s[|line|] == '\n';
    assert ScanLine(s, LINE_CAPACITY) == |s|;
    assert s[..|s|] == s && s[|s|..] == [];
    assert Fgets(s) == Some((s, []));
    assert Chunks(s) == [s];
    StrcspnIs(s, {'\n', NUL}, |line|);
    assert LineOf(s) == line;
    assert Permitted(Some(s), user) <==> Grants(Chunks(s)[0], user);
  }

  /**
   * A line longer than 255 characters is read as several chunks, and its
   * tail is compared on its own: a 255-character head followed by a user name
   * admits that user.
   */
  lemma LongLineTailGrants(head: string, user: CStr)
    requires |head| == LINE_CAPACITY && '\n' !in head
    requires 0 < |user| < LINE_CAPACITY && user[0] != '#' && '\n' !in user
    ensures Permitted(Some(head + user + "\n"), user)
  {
    var s := head + user + "\n";
    var tail := user + "\n";
    assert forall i :: 0 <= i < LINE_CAPACITY ==> s[i] == head[i];
    assert ScanLine(s, LINE_CAPACITY) == LINE_CAPACITY;
    assert s[..LINE_CAPACITY] == head && s[LINE_CAPACITY..] == tail;
    assert Chunks(s) == [head] + Chunks(tail);
    assert tail[|user|] == '\n';
    assert ScanLine(tail, LINE_CAPACITY) == |tail|;
    assert tail[..|tail|] == tail && tail[|tail|..] == [];
    assert Fgets(tail) == Some((tail, []));
    assert Chunks(tail) == [tail];
    StrcspnIs(tail, {'\n', NUL}, |user|);
    assert LineOf(tail) == user;
    assert Grants(Chunks(s)[1], user);
  }
}
