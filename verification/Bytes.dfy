/** Machine bytes, and the few numbers and facts that the modules share. */
module Bytes {

  type Byte = b: int | 0 <= b < 256

  const NUL: Byte := 0
  const NEWLINE: Byte := 10
  const RETURN: Byte := 13
  const SPACE: Byte := 32

  const TWO_32 := 0x1_0000_0000
  const TERMINALS := 3

  /** A C string's contents: no terminator inside. */
  predicate NulFree(s: seq<Byte>) {
    forall i :: 0 <= i < |s| ==> s[i] != NUL
  }

  /** The bytes of a text. */
  function Text(s: string): (r: seq<Byte>)
    requires forall i :: 0 <= i < |s| ==> s[i] < 256 as char
    ensures |r| == |s| && forall i :: 0 <= i < |s| ==> r[i] == s[i] as int
  {
    seq(|s|, i requires 0 <= i < |s| => s[i] as int)
  }

  function Min(a: int, b: int): int {
    if a <= b then a else b
  }

  function Max(a: int, b: int): int {
    if a >= b then a else b
  }

  /** A C string of n characters at index `at`. */
  predicate StringAt(s: seq<Byte>, at: int, n: int) {
    0 <= at && 0 <= n && at + n < |s| && s[at + n] == NUL && forall k :: at <= k < at + n ==> s[k] != NUL
  }

  /** The part of s before its first NUL. */
  function UpToNul(s: seq<Byte>): (r: seq<Byte>)
    ensures NulFree(r) && |r| <= |s| && r == s[..|r|]
    ensures |r| < |s| ==> s[|r|] == NUL
  {
    if s == [] || s[0] == NUL then [] else [s[0]] + UpToNul(s[1..])
  }

  lemma {:induction false} UpToNulUnique(s: seq<Byte>, n: nat)
    requires n <= |s| && NulFree(s[..n]) && (n < |s| ==> s[n] == NUL)
    ensures UpToNul(s) == s[..n]
  {
    var r := UpToNul(s);
    assert forall i :: 0 <= i < n ==> s[..n][i] == s[i];
    assert forall i :: 0 <= i < |r| ==> r[i] == s[i];
  }
}
