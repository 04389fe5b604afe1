/**
 * The C string primitives both programs rely on: the NUL terminator,
 * strspn, strcspn and the truncation snprintf performs.
 */
module CStrings {

  /** Size of every fixed buffer on both sides of the protocol (BUFFER_SIZE). */
  const BUFFER_SIZE: nat := 1024

  const NUL: char := '\0'

  /** A value that C holds as a NUL-terminated string: it cannot contain NUL. */
  type CStr = s: string | NUL !in s

  function Min(a: int, b: int): int
  {
    if a <= b then a else b
  }

  /**
   * Where a run of characters in accept that starts at index i ends: the
   * first index from i on that holds a character outside accept, or |s|.
   */
  function SpanEnd(s: string, accept: set<char>, i: nat): (n: nat)
    requires i <= |s|
    ensures i <= n <= |s|
    ensures n == |s| || s[n] !in accept
    decreases |s| - i
  {
    if i == |s| || s[i] !in accept then i else SpanEnd(s, accept, i + 1)
  }

  /** Every character SpanEnd passes over is in accept. */
  lemma {:induction false} SpanEndSpans(s: string, accept: set<char>, i: nat)
    requires i <= |s|
    ensures forall j :: i <= j < SpanEnd(s, accept, i) ==> s[j] in accept
    decreases |s| - i
  {
    if i < |s| && s[i] in accept {
      SpanEndSpans(s, accept, i + 1);
    }
  }

  /**
   * Where a run of characters outside reject that starts at index i ends:
   * the first index from i on that holds a character of reject, or |s|.
   */
  function CSpanEnd(s: string, reject: set<char>, i: nat): (n: nat)
    requires i <= |s|
    ensures i <= n <= |s|
    ensures n == |s| || s[n] in reject
    decreases |s| - i
  {
    if i == |s| || s[i] in reject then i else CSpanEnd(s, reject, i + 1)
  }

  /** No character CSpanEnd passes over is in reject. */
  lemma {:induction false} CSpanEndSpans(s: string, reject: set<char>, i: nat)
    requires i <= |s|
    ensures forall j :: i <= j < CSpanEnd(s, reject, i) ==> s[j] !in reject
    decreases |s| - i
  {
    if i < |s| && s[i] !in reject {
      CSpanEndSpans(s, reject, i + 1);
    }
  }

  /** strspn: the length of the longest prefix of s made only of characters in accept. */
  function Strspn(s: string, accept: set<char>): (n: nat)
    ensures n <= |s|
    ensures n == |s| || s[n] !in accept
  {
    SpanEnd(s, accept, 0)
  }

  /** The prefix strspn counts is made of characters in accept. */
  lemma StrspnSpans(s: string, accept: set<char>)
    ensures forall i :: 0 <= i < Strspn(s, accept) ==> s[i] in accept
  {
    SpanEndSpans(s, accept, 0);
  }

  /** strcspn: the length of the longest prefix of s holding no character of reject. */
  function Strcspn(s: string, reject: set<char>): (n: nat)
    ensures n <= |s|
    ensures n == |s| || s[n] in reject
  {
    CSpanEnd(s, reject, 0)
  }

  /** The prefix strcspn counts holds no character of reject. */
  lemma StrcspnSpans(s: string, reject: set<char>)
    ensures forall i :: 0 <= i < Strcspn(s, reject) ==> s[i] !in reject
  {
    CSpanEndSpans(s, reject, 0);
  }

  /** The string C sees in a buffer: the characters before the first NUL. */
  function CString(buf: string): (s: CStr)
    ensures s <= buf
    ensures |s| == |buf| || buf[|s|] == NUL
  {
    var n := Strcspn(buf, {NUL});
    StrcspnSpans(buf, {NUL});
    assert forall i :: 0 <= i < n ==> buf[..n][i] != NUL;
    buf[..n]
  }

  /**
   * What snprintf(buf, size, ...) leaves in buf when the fully formatted
   * text is s: the first size - 1 characters at most.
   */
  function Snprintf(s: CStr, size: nat): (r: CStr)
    requires size > 0
    ensures |r| == Min(|s|, size - 1)
    ensures r <= s
  {
    if |s| < size then s
    else
      assert forall i :: 0 <= i < size - 1 ==> s[..size - 1][i] == s[i];
      s[..size - 1]
  }

  /** A prefix of exactly i characters of accept, ended by the end of s or a character outside accept, is what strspn counts. */
  lemma StrspnIs(s: string, accept: set<char>, i: nat)
    requires i <= |s| && (forall j :: 0 <= j < i ==> s[j] in accept)
    requires i == |s| || s[i] !in accept
    ensures Strspn(s, accept) == i
  {
    StrspnSpans(s, accept);
  }

  /** A prefix of exactly i characters outside reject, ended by the end of s or a character of reject, is what strcspn counts. */
  lemma StrcspnIs(s: string, reject: set<char>, i: nat)
    requires i <= |s| && (forall j :: 0 <= j < i ==> s[j] !in reject)
    requires i == |s| || s[i] in reject
    ensures Strcspn(s, reject) == i
  {
    StrcspnSpans(s, reject);
  }

  /** Every slice of a C string is a C string. */
  lemma SliceIsCStr(s: CStr, i: nat, j: nat)
    requires i <= j <= |s|
    ensures NUL !in s[i..j]
  {
    assert forall k :: 0 <= k < j - i ==> s[i..j][k] == s[i + k];
  }

  /** A buffer that already holds a C string is read back unchanged. */
  lemma CStringOfCStr(s: CStr)
    ensures CString(s) == s
  {
  }

  /** A NUL at index k ends the string no later than k. */
  lemma CStringBeforeTerminator(buf: string, k: nat)
    requires k < |buf| && buf[k] == NUL
    ensures CString(buf) == CString(buf[..k])
  {
  }

  /** NUL-free characters in front of a buffer are part of the string read from it. */
  lemma CStringAfterPrefix(a: CStr, b: string)
    ensures CString(a + b) == a + CString(b)
  {
    var ab := a + b;
    assert forall i :: 0 <= i < |a| ==> ab[i] == a[i] && ab[i] != NUL;
    assert forall i :: 0 <= i < |b| ==> ab[|a| + i] == b[i];
  }
}
