/** Words and lines, as the kernel and the user-space emulator both cut them from a command. */
module CommandLine {
  import opened Bytes

  function Line(s: seq<Byte>): (r: seq<Byte>)
    ensures |r| <= |s| && r == s[..|r|] && NEWLINE !in r && (|r| < |s| ==> s[|r|] == NEWLINE)
  {
    if s == [] || s[0] == NEWLINE then [] else [s[0]] + Line(s[1..])
  }

  function Spaces(s: seq<Byte>): (n: nat)
    ensures n <= |s| && (forall i :: 0 <= i < n ==> s[i] == SPACE) && (n < |s| ==> s[n] != SPACE)
  {
    if s == [] || s[0] != SPACE then 0 else 1 + Spaces(s[1..])
  }

  predicate Ends(b: Byte) {
    b == SPACE || b == NEWLINE
  }

  function FirstWord(s: seq<Byte>): (r: seq<Byte>)
    ensures |r| <= |s| && r == s[..|r|] && (forall i :: 0 <= i < |r| ==> !Ends(s[i])) && (|r| < |s| ==> Ends(s[|r|]))
  {
    if s == [] || Ends(s[0]) then [] else [s[0]] + FirstWord(s[1..])
  }

  lemma {:induction false} FirstWordUnique(s: seq<Byte>, n: nat)
    requires n <= |s| && (forall i :: 0 <= i < n ==> !Ends(s[i])) && (n < |s| ==> Ends(s[n]))
    ensures FirstWord(s) == s[..n]
  {
    if n > 0 {
      FirstWordUnique(s[1..], n - 1);
      assert s[1..][..n - 1] == s[1..n];
    }
  }
}
