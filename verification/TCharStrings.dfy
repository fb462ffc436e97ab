/**
 * The bounded string copies of WndLib.cpp, `TCharStringCopy` and
 * `TCharStringAppend`.  A buffer of `bufferSize` TCHARs receives a
 * NUL-terminated string; the copy stops one short of the end so that the
 * terminator always fits, and reports whether the whole source went in.
 *
 * A string is the sequence of its code units without the terminator; what a
 * copy writes is returned as the units stored from the start of the buffer,
 * terminator included.
 */
module TCharStrings {

  /** Code units that can stand inside a NUL-terminated string. */
  predicate IsText(u: seq<int>)
  {
    forall k :: 0 <= k < |u| ==> u[k] != 0
  }

  /** What `lstrlen` and every reader of the buffer sees: the units before the first NUL. */
  function Text(buffer: seq<int>): (t: seq<int>)
    ensures IsText(t) && t <= buffer
    ensures |t| < |buffer| ==> buffer[|t|] == 0
  {
    if |buffer| == 0 || buffer[0] == 0 then []
    else [buffer[0]] + Text(buffer[1..])
  }

  /** A string followed by its terminator reads back as that string. */
  lemma {:induction false} TextOfTerminated(u: seq<int>, rest: seq<int>)
    requires IsText(u)
    ensures Text(u + [0] + rest) == u
    decreases |u|
  {
    if |u| > 0 {
      assert (u + [0] + rest)[1..] == u[1..] + [0] + rest;
      TextOfTerminated(u[1..], rest);
    } else {
      assert (u + [0] + rest)[0] == 0;
    }
  }

  /** A string without a NUL reads back whole. */
  lemma {:induction false} TextOfText(u: seq<int>)
    requires IsText(u)
    ensures Text(u) == u
    decreases |u|
  {
    if |u| > 0 {
      TextOfText(u[1..]);
    }
  }

  function Min(a: int, b: int): int { if a <= b then a else b }

  /**
   * `TCharStringCopy(buffer, bufferSize, src)`.  An empty buffer receives
   * nothing and the copy fails.  Otherwise at most `bufferSize - 1` units are
   * copied and a terminator written after them; the copy succeeds exactly
   * when the whole source fitted, and then the buffer reads back as `src`.
   */
  method Copy(bufferSize: nat, src: seq<int>) returns (ok: bool, written: seq<int>)
    requires IsText(src)
    ensures bufferSize == 0 ==> !ok && written == []
    ensures bufferSize > 0 ==> ok == (|src| < bufferSize)
    ensures bufferSize > 0 ==> |written| <= bufferSize && Text(written) == src[..Min(|src|, bufferSize - 1)]
    ensures bufferSize > 0 ==> written == Text(written) + [0]
    ensures ok <==> bufferSize > 0 && Text(written) == src
  {
    if bufferSize == 0 {
      return false, [];
    }
    var terminator := bufferSize - 1;
    var i := 0;
    written := [];
    while i < |src|
      invariant i <= |src| && i <= terminator
      invariant written == src[..i]
    {
      if i == terminator {
        written := written + [0];
        TextOfTerminated(src[..i], []);
        return false, written;
      }
      written := written + [src[i]];
      i := i + 1;
    }
    written := written + [0];
    assert src[..i] == src;
    TextOfTerminated(src, []);
    ok := true;
  }

  /**
   * `TCharStringAppend(buffer, bufferSize, src)` on a buffer that holds
   * `existing`.  When `existing` already fills the buffer nothing is written
   * and the append fails; otherwise `src` is copied after it into the space
   * left.  The result is the buffer's new contents from its start.
   */
  method Append(existing: seq<int>, bufferSize: nat, src: seq<int>) returns (ok: bool, buffer: seq<int>)
    requires IsText(existing) && IsText(src)
    ensures |existing| >= bufferSize ==> !ok && buffer == existing
    ensures ok <==> |existing| + |src| < bufferSize
    ensures |existing| < bufferSize ==> |buffer| <= bufferSize && Text(buffer) <= existing + src && existing <= Text(buffer)
    ensures ok ==> Text(buffer) == existing + src
  {
    var length := |existing|;
    if length >= bufferSize {
      return false, existing;
    }
    var tail;
    ok, tail := Copy(bufferSize - length, src);
    buffer := existing + tail;
    var copied := Text(tail);
    assert tail == copied + [0];
    assert buffer == (existing + copied) + [0] + [];
    assert IsText(existing + copied);
    TextOfTerminated(existing + copied, []);
    assert copied <= src;
  }
}
