/** C strings in a fixed character array: the `strnlen` bound the firmware
    uses to turn its receive buffer into a command (src/main.cpp:129). */
module CString {

  /** The C string terminator. */
  const NUL: char := '\0'

  /** strnlen: the number of characters before the first NUL of `s`, looking at
      no more than `maxLen` of them. */
  function StrNLen(s: seq<char>, maxLen: nat): (n: nat)
    ensures n <= maxLen && n <= |s|
    ensures forall i :: 0 <= i < n ==> s[i] != NUL
    ensures n < maxLen && n < |s| ==> s[n] == NUL
  {
    if maxLen == 0 || |s| == 0 || s[0] == NUL then 0 else 1 + StrNLen(s[1..], maxLen - 1)
  }

  /** The three properties of StrNLen determine it. */
  lemma StrNLenUnique(s: seq<char>, maxLen: nat, n: nat)
    requires n <= maxLen && n <= |s|
    requires forall i :: 0 <= i < n ==> s[i] != NUL
    requires n < maxLen && n < |s| ==> s[n] == NUL
    ensures n == StrNLen(s, maxLen)
  {
  }

  /** A NUL-free prefix is always counted whole, and the count goes on into
      whatever follows it. */
  lemma {:induction false} StrNLenAfterNulFree(p: seq<char>, rest: seq<char>, maxLen: nat)
    requires NUL !in p && |p| <= maxLen
    ensures StrNLen(p + rest, maxLen) == |p| + StrNLen(rest, maxLen - |p|)
  {
    if p == [] {
      assert p + rest == rest;
    } else {
      assert (p + rest)[0] == p[0] != NUL;
      assert (p + rest)[1..] == p[1..] + rest;
      StrNLenAfterNulFree(p[1..], rest, maxLen - 1);
    }
  }

  /** When the count stops inside `p`, what follows `p` is never looked at. */
  lemma StrNLenStopsInside(p: seq<char>, rest: seq<char>, maxLen: nat)
    requires StrNLen(p, maxLen) < |p|
    ensures StrNLen(p + rest, maxLen) == StrNLen(p, maxLen)
  {
    var n := StrNLen(p, maxLen);
    forall i | 0 <= i < n ensures (p + rest)[i] != NUL {
      assert (p + rest)[i] == p[i];
    }
    StrNLenUnique(p + rest, maxLen, n);
  }

  /** The library's strnlen over a character array. */
  method ScanLength(a: array<char>, maxLen: nat) returns (n: nat)
    ensures n == StrNLen(a[..], maxLen)
  {
    n := 0;
    while n < maxLen && n < a.Length && a[n] != NUL
      invariant n <= maxLen && n <= a.Length
      invariant forall i :: 0 <= i < n ==> a[i] != NUL
    {
      n := n + 1;
    }
    StrNLenUnique(a[..], maxLen, n);
  }
}
