/**
 * NUL-terminated character strings as the queue sees them: the length helper
 * `string_len` and the bounded copy of a removed element into the caller's
 * output buffer.
 */
module CString {
  import opened Wrappers

  /** A string's contents as stored in a queue element: characters without the terminator. */
  type Text = s: seq<char> | '\0' !in s

  /** The number of values of C's `size_t` on the 64-bit targets the course uses. */
  const SizeTRange: nat := 0x1_0000_0000_0000_0000

  /**
   * What a C reader sees when it reads `s` as a string: every character
   * before the first NUL (or all of `s` if there is none).
   */
  function Content(s: seq<char>): (t: Text)
    ensures |t| <= |s|
  {
    if s == [] || s[0] == '\0' then [] else [s[0]] + Content(s[1..])
  }

  /** A C string stores its text followed by one terminator. */
  function Terminated(t: Text): (s: seq<char>)
    ensures |s| == |t| + 1 && s[|t|] == '\0'
  {
    t + ['\0']
  }

  /** The content of a string is exactly the prefix before its first NUL. */
  lemma {:induction false} ContentBeforeFirstNul(s: seq<char>, k: nat)
    requires k < |s| && s[k] == '\0'
    requires forall i :: 0 <= i < k ==> s[i] != '\0'
    ensures Content(s) == s[..k]
  {
    if k > 0 {
      ContentBeforeFirstNul(s[1..], k - 1);
      assert s[..k] == [s[0]] + s[1..][..k - 1];
    }
  }

  /** Reading back a stored text written with its terminator gives the text again. */
  lemma TerminatedRoundTrip(t: Text)
    ensures Content(Terminated(t)) == t
  {
    ContentBeforeFirstNul(Terminated(t), |t|);
  }

  /**
   * `string_len`: scans for the terminator and returns its index plus one,
   * which is the number of bytes a copy of the string (text and NUL) needs.
   */
  method StringLen(s: seq<char>) returns (n: nat)
    requires '\0' in s
    ensures 1 <= n <= |s| && s[n - 1] == '\0'
    ensures forall i :: 0 <= i < n - 1 ==> s[i] != '\0'
    ensures n == |Content(s)| + 1 && s[..n] == Terminated(Content(s))
  {
    var len := 0;
    while s[len] != '\0'
      invariant len < |s| && '\0' in s[len..]
      invariant forall i :: 0 <= i < len ==> s[i] != '\0'
      decreases |s| - len
    {
      assert s[len..] == [s[len]] + s[len + 1..];
      len := len + 1;
    }
    ContentBeforeFirstNul(s, len);
    n := len + 1;
  }

  /**
   * The copy loop of `q_remove_head`: writes at most `bufsize - 1` characters
   * of `v` into `buf`, then a terminator, and touches nothing else.
   */
  method CopyOut(v: Text, buf: seq<char>, bufsize: nat) returns (out: seq<char>)
    requires 1 <= bufsize <= |buf|
    ensures |out| == |buf|
    ensures Content(out) == v[..Min(|v|, bufsize - 1)]
    ensures |v| < bufsize ==> Content(out) == v
    ensures out[Min(|v|, bufsize - 1)] == '\0'
    ensures forall i :: Min(|v|, bufsize - 1) < i < |buf| ==> out[i] == buf[i]
  {
    var src := Terminated(v);
    var idx := 0;
    out := buf;
    while src[idx] != '\0' && idx < bufsize - 1
      invariant idx <= |v| && idx <= bufsize - 1
      invariant |out| == |buf|
      invariant forall i :: 0 <= i < idx ==> out[i] == v[i]
      invariant forall i :: idx <= i < |buf| ==> out[i] == buf[i]
      decreases |v| - idx
    {
      out := out[idx := src[idx]];
      idx := idx + 1;
    }
    assert idx == Min(|v|, bufsize - 1);
    out := out[idx := '\0'];
    ContentBeforeFirstNul(out, idx);
    assert out[..idx] == v[..idx];
  }

  /** `bufsize - 1` evaluated in `size_t`, which wraps around below zero. */
  function SizeTPred(x: nat): (r: nat)
    requires x < SizeTRange
    ensures r < SizeTRange
    ensures x == 0 ==> r == SizeTRange - 1
    ensures x > 0 ==> r + 1 == x
  {
    (x + SizeTRange - 1) % SizeTRange
  }

  /**
   * The copy loop of `q_remove_head` as `queue.c` has it, with the bound
   * `bufsize - 1` computed in `size_t`; returns the index at which the
   * terminator is written. For a zero-sized buffer the bound wraps, the
   * copy is limited only by the string, and the terminator lands outside
   * the buffer.
   */
  method TerminatorIndexAsWritten(v: Text, bufsize: nat) returns (idx: nat)
    requires bufsize < SizeTRange && |v| < SizeTRange
    ensures bufsize >= 1 ==> idx == Min(|v|, bufsize - 1) && idx < bufsize
    ensures bufsize == 0 ==> idx == |v|
  {
    var src := Terminated(v);
    var bound := SizeTPred(bufsize);
    idx := 0;
    while src[idx] != '\0' && idx < bound
      invariant idx <= |v| && idx <= bound
      decreases |v| - idx
    {
      idx := idx + 1;
    }
  }
}
