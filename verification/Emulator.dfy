/** The user-space emulator's command lines: ece391_execute cuts them into arguments, ece391_getargs joins them
  * again. */
module Emulator {
  import opened Bytes
  import opened CommandLine

  const MAX_COMMAND := 1023
  const BUF_SIZE := 1026
  const MAX_ARGS := 1024
  const NULL := -1
  const DOT: Byte := 46
  const SLASH: Byte := 47

  // ---------------------------------------------------------------- what the arguments of a command are

  /** The words left once the program's name and the character that ended it are gone. A newline ends them, unless it
    * ends a word. */
  function Args(s: seq<Byte>): (r: seq<seq<Byte>>)
    decreases |s|
  {
    var t := s[Spaces(s)..];
    if t == [] || t[0] == NEWLINE then []
    else [FirstWord(t)] + (if |FirstWord(t)| < |t| then Args(t[|FirstWord(t)| + 1..]) else [])
  }

  function After(s: seq<Byte>): seq<Byte> {
    if |FirstWord(s)| < |s| then s[|FirstWord(s)| + 1..] else []
  }

  /** argv: the program under the current directory, then the arguments. */
  function Argv(command: seq<Byte>): (r: seq<seq<Byte>>)
    ensures |r| >= 1
  {
    [[DOT, SLASH] + FirstWord(command)] + Args(After(command))
  }

  /** The words with one space between each two. */
  function Join(words: seq<seq<Byte>>): seq<Byte> {
    if words == [] then [] else if |words| == 1 then words[0] else words[0] + [SPACE] + Join(words[1..])
  }

  predicate IsWord(w: seq<Byte>) {
    w != [] && forall i :: 0 <= i < |w| ==> !Ends(w[i])
  }

  predicate AreWords(words: seq<seq<Byte>>) {
    forall i :: 0 <= i < |words| ==> IsWord(words[i])
  }

  /** The first word, and the rest. */
  lemma ArgsFirst(s: seq<Byte>)
    ensures var t := s[Spaces(s)..];
            if t == [] || t[0] == NEWLINE then Args(s) == [] && (t != [] ==> FirstWord(t) == [])
            else IsWord(FirstWord(t)) && Args(s) == [FirstWord(t)] + Args(After(t)) && |After(t)| < |s|
  {
  }

  lemma {:induction false} ArgsAreWords(s: seq<Byte>)
    ensures AreWords(Args(s))
    decreases |s|
  {
    hide Args, IsWord, After, FirstWord, Spaces;
    ArgsFirst(s);
    var t := s[Spaces(s)..];
    if t != [] && t[0] != NEWLINE {
      ArgsAreWords(After(t));
    }
  }

  lemma WordThen(w: seq<Byte>, rest: seq<Byte>)
    requires IsWord(w) && (rest == [] || Ends(rest[0]))
    ensures Spaces(w + rest) == 0 && FirstWord(w + rest) == w
  {
    var s := w + rest;
    assert forall i :: 0 <= i < |w| ==> s[i] == w[i];
    FirstWordUnique(s, |w|);
  }

  /** Cutting a joined list gives the list back. */
  lemma {:induction false} CutJoined(words: seq<seq<Byte>>)
    requires AreWords(words)
    ensures Args(Join(words)) == words
    decreases |words|
  {
    hide FirstWord;
    if |words| == 1 {
      WordThen(words[0], []);
      assert words[0] + [] == words[0];
    } else if |words| > 1 {
      var w, rest := words[0], Join(words[1..]);
      CutJoined(words[1..]);
      assert Join(words) == w + ([SPACE] + rest);
      CutFirst(w, rest);
    }
  }

  lemma CutFirst(w: seq<Byte>, rest: seq<Byte>)
    requires IsWord(w)
    ensures Args(w + ([SPACE] + rest)) == [w] + Args(rest)
  {
    hide FirstWord, Args;
    var s := w + ([SPACE] + rest);
    WordThen(w, [SPACE] + rest);
    assert s[0..] == s && s[|w| + 1..] == rest;
    ArgsFirst(s);
    assert s[0] == w[0];
  }

  /** The program's name and arguments, typed with a blank between each two, are its argv. */
  lemma ArgvOfTyped(name: seq<Byte>, words: seq<seq<Byte>>)
    requires IsWord(name) && AreWords(words)
    ensures Argv(if words == [] then name else name + [32] + Join(words)) == [Text("./") + name] + words
  {
    hide FirstWord, Args, Spaces;
    assert Text("./") == [DOT, SLASH];
    CutJoined(words);
    if words == [] {
      WordThen(name, []);
      assert name + [] == name;
    } else {
      var rest := Join(words);
      assert name + [32] + rest == name + ([SPACE] + rest);
      WordThen(name, [SPACE] + rest);
      assert (name + ([SPACE] + rest))[|name| + 1..] == rest;
    }
  }

  /** A newline right after a word only ends the word; any other ends the command. */
  lemma Newlines(word: seq<Byte>, n: nat, rest: seq<Byte>)
    requires IsWord(word)
    ensures Args(word + ([10] + rest)) == [word] + Args(rest)
    ensures Args(seq(n, i => 32) + ([10] + rest)) == []
  {
    hide FirstWord, Args;
    var s := word + ([10] + rest);
    WordThen(word, [10] + rest);
    assert s[0..] == s && s[|word| + 1..] == rest;
    ArgsFirst(s);
    assert s[0] == word[0];
    var t: seq<Byte> := seq(n, i => 32) + ([10] + rest);
    assert t[n] == 10 && forall i :: 0 <= i < n ==> t[i] == SPACE;
    assert Spaces(t) == n;
    ArgsFirst(t);
  }

  /** There is one blank between each two words of a joined list, and nothing else is added. */
  lemma {:induction false} JoinLength(words: seq<seq<Byte>>)
    ensures |Join(words)| == |Concat(words)| + if words == [] then 0 else |words| - 1
    ensures NonSpaces(Join(words)) == NonSpaces(Concat(words))
  {
    hide NonSpaces;
    if |words| == 1 {
      ConcatFirst(words[0], []);
      assert words[0] + [] == words[0];
    } else if words != [] {
      JoinLength(words[1..]);
      NonSpacesSplit(words[0], Concat(words[1..]));
      NonSpacesSplit(words[0], [SPACE] + Join(words[1..]));
      NonSpacesFirst(SPACE, Join(words[1..]));
      assert Join(words) == words[0] + ([SPACE] + Join(words[1..]));
    }
  }

  /** So cutting, joining and cutting again changes nothing. */
  lemma CutAgain(command: seq<Byte>)
    ensures Args(Join(Args(After(command)))) == Args(After(command))
  {
    ArgsAreWords(After(command));
    CutJoined(Args(After(command)));
  }

  function Concat(words: seq<seq<Byte>>): seq<Byte> {
    if words == [] then [] else words[0] + Concat(words[1..])
  }

  function NonSpaces(s: seq<Byte>): seq<Byte> {
    if s == [] then [] else (if s[0] == SPACE then [] else [s[0]]) + NonSpaces(s[1..])
  }

  lemma NonSpacesFirst(c: Byte, s: seq<Byte>)
    ensures NonSpaces([c] + s) == (if c == SPACE then [] else [c]) + NonSpaces(s) && NonSpaces([]) == []
  {
    assert ([c] + s)[1..] == s;
  }

  lemma {:induction false} NonSpacesSplit(a: seq<Byte>, b: seq<Byte>)
    ensures NonSpaces(a + b) == NonSpaces(a) + NonSpaces(b)
    decreases |a|
  {
    hide NonSpaces;
    NonSpacesFirst(SPACE, []);
    if a == [] {
      assert a + b == b;
    } else {
      NonSpacesSplit(a[1..], b);
      NonSpacesFirst(a[0], a[1..]);
      NonSpacesFirst(a[0], a[1..] + b);
      assert a == [a[0]] + a[1..] && a + b == [a[0]] + (a[1..] + b);
    }
  }

  lemma {:induction false} AllSpaces(s: seq<Byte>)
    requires forall i :: 0 <= i < |s| ==> s[i] == SPACE
    ensures NonSpaces(s) == []
  {
    if s != [] {
      AllSpaces(s[1..]);
    }
  }

  lemma {:induction false} NoSpaces(s: seq<Byte>)
    requires forall i :: 0 <= i < |s| ==> s[i] != SPACE
    ensures NonSpaces(s) == s
  {
    if s != [] {
      NoSpaces(s[1..]);
    }
  }

  /** Nothing but spaces is lost from a command without newlines. */
  lemma {:induction false} NothingLost(s: seq<Byte>)
    requires NEWLINE !in s
    ensures Concat(Args(s)) == NonSpaces(s)
    decreases |s|
  {
    hide Concat, NonSpaces, FirstWord, Args, IsWord;
    var n := Spaces(s);
    var t := s[n..];
    SpacesLost(s, n);
    ArgsFirst(s);
    if t == [] {
      ConcatFirst([], []);
    } else {
      assert t[0] == s[n];
      WordKept(t, |FirstWord(t)|);
      NoArgs();
      if |FirstWord(t)| < |t| {
        NothingLost(After(t));
      }
      ConcatFirst(FirstWord(t), Args(After(t)));
    }
  }

  lemma NoArgs()
    ensures Args([]) == []
  {
  }

  lemma ConcatFirst(w: seq<Byte>, words: seq<seq<Byte>>)
    ensures Concat([w] + words) == w + Concat(words) && Concat([]) == [] && NonSpaces([]) == []
  {
    assert ([w] + words)[1..] == words;
  }

  lemma SpacesLost(s: seq<Byte>, n: nat)
    requires n == Spaces(s)
    ensures NonSpaces(s) == NonSpaces(s[n..])
  {
    assert s == s[..n] + s[n..];
    AllSpaces(s[..n]);
    NonSpacesSplit(s[..n], s[n..]);
  }

  lemma WordKept(t: seq<Byte>, k: nat)
    requires k == |FirstWord(t)| && NEWLINE !in t
    ensures NonSpaces(t) == if k < |t| then FirstWord(t) + NonSpaces(t[k + 1..]) else FirstWord(t)
  {
    var w := FirstWord(t);
    assert forall i :: 0 <= i < k ==> w[i] == t[i];
    hide FirstWord, NonSpaces;
    NoSpaces(w);
    assert t == w + t[k..];
    NonSpacesSplit(w, t[k..]);
    if k < |t| {
      assert t[k] in t;
      assert t[k..][1..] == t[k + 1..];
      SpaceLost(t[k..]);
    } else {
      assert t[k..] == [];
      AllSpaces(t[k..]);
    }
  }

  lemma SpaceLost(s: seq<Byte>)
    requires s != [] && s[0] == SPACE
    ensures NonSpaces(s) == NonSpaces(s[1..])
  {
  }

  // ---------------------------------------------------------------- cutting in place

  /** The C string at index p. */
  predicate Holds(s: seq<Byte>, p: int, w: seq<Byte>) {
    0 <= p && p + |w| < |s| && s[p..p + |w|] == w && s[p + |w|] == NUL
  }

  /** The rest of the command, from index `scan` to the terminator. */
  predicate Unread(s: seq<Byte>, scan: int, rest: seq<Byte>) {
    Holds(s, scan, rest) && NulFree(rest)
  }

  method SkipSpaces(buf: array<Byte>, scan: int, ghost rest: seq<Byte>) returns (r: int)
    requires Unread(buf[..], scan, rest)
    ensures r == scan + Spaces(rest) && Unread(buf[..], r, rest[Spaces(rest)..])
  {
    r := scan;
    assert forall i :: 0 <= i < |rest| ==> rest[i] == buf[scan + i];
    while buf[r] == SPACE
      invariant scan <= r <= scan + Spaces(rest)
      decreases scan + Spaces(rest) - r
    {
      r := r + 1;
    }
  }

  method SkipWord(buf: array<Byte>, scan: int, ghost rest: seq<Byte>) returns (r: int)
    requires Unread(buf[..], scan, rest)
    ensures r == scan + |FirstWord(rest)|
  {
    r := scan;
    assert forall i :: 0 <= i < |rest| ==> rest[i] == buf[scan + i];
    while buf[r] != NUL && buf[r] != SPACE && buf[r] != NEWLINE
      invariant scan <= r <= scan + |FirstWord(rest)|
      decreases scan + |FirstWord(rest)| - r
    {
      r := r + 1;
    }
  }

  /** The end of a word: terminate it, if the command does not end there, and step past. */
  method EndWord(buf: array<Byte>, scan: int, ghost from: int, ghost rest: seq<Byte>) returns (r: int)
    requires 0 <= from && Unread(buf[..], from, rest) && scan == from + |FirstWord(rest)|
    modifies buf
    ensures Holds(buf[..], from, FirstWord(rest)) && buf[..] == old(buf[..])[scan := NUL]
    ensures r == if |FirstWord(rest)| < |rest| then scan + 1 else scan
    ensures Unread(buf[..], r, if |FirstWord(rest)| < |rest| then rest[|FirstWord(rest)| + 1..] else [])
  {
    hide Holds, Unread, FirstWord;
    WordEnded(buf[..], from, rest);
    ghost var was := buf[..];
    r := scan;
    if buf[scan] != NUL {
      buf[scan] := NUL;
      r := scan + 1;
    }
    assert buf[..] == was[scan := NUL];
  }

  lemma WordEnded(s: seq<Byte>, from: int, rest: seq<Byte>)
    requires 0 <= from && Unread(s, from, rest)
    ensures var n := |FirstWord(rest)|;
            && n <= |rest| && from + |rest| < |s| && (s[from + n] == NUL <==> n == |rest|)
            && Holds(s[from + n := NUL], from, FirstWord(rest))
            && Unread(s[from + n := NUL], if n < |rest| then from + n + 1 else from + n,
                      if n < |rest| then rest[n + 1..] else [])
  {
    var n := |FirstWord(rest)|;
    hide FirstWord;
    var t := s[from + n := NUL];
    assert t[from..from + n] == s[from..from + |rest|][..n];
    if n < |rest| {
      assert s[from + n] == s[from..from + |rest|][n] == rest[n];
      assert t[from + n + 1..from + |rest|] == s[from..from + |rest|][n + 1..];
    }
  }

  /** Each pointer leads to its word, all of them before `scan`. */
  predicate Placed(s: seq<Byte>, at: seq<int>, words: seq<seq<Byte>>, scan: int) {
    |at| == |words| && forall k :: 0 <= k < |at| ==> Holds(s, at[k], words[k]) && at[k] + |words[k]| <= scan
  }

  lemma PlacedStays(s: seq<Byte>, at: seq<int>, words: seq<seq<Byte>>, scan: int, j: int)
    requires Placed(s, at, words, scan) && 0 <= j < |s| && scan <= j
    ensures Placed(s, at, words, j) && Placed(s[j := NUL], at, words, j)
  {
    forall k | 0 <= k < |at|
      ensures Holds(s[j := NUL], at[k], words[k])
    {
      var p, n := at[k], |words[k]|;
      assert s[j := NUL][p..p + n] == s[p..p + n];
    }
  }

  lemma UnreadFirst(s: seq<Byte>, scan: int, rest: seq<Byte>)
    requires Unread(s, scan, rest)
    ensures 0 <= scan && scan + |rest| < |s| && (if rest == [] then s[scan] == NUL else s[scan] == rest[0] != NUL)
    ensures rest == [] || rest[0] == NEWLINE ==> Holds(s[scan := NUL], scan, [])
  {
    if rest != [] {
      assert s[scan..scan + |rest|][0] == s[scan];
    }
  }

  lemma PlacedMore(s: seq<Byte>, at: seq<int>, words: seq<seq<Byte>>, scan: int, p: int, w: seq<Byte>, scan': int)
    requires Placed(s, at, words, scan) && Holds(s, p, w) && p + |w| <= scan' && scan <= scan'
    ensures Placed(s, at + [p], words + [w], scan')
  {
    hide Holds;
  }

  /** One argument: its pointer, its end, its terminator. */
  method CutArg(buf: array<Byte>, args: array<int>, n: int, scan: int, ghost rest: seq<Byte>,
      ghost words: seq<seq<Byte>>)
      returns (next: int)
    requires buf.Length == BUF_SIZE && args.Length == MAX_ARGS && 0 <= n < MAX_ARGS
    requires Unread(buf[..], scan, rest) && Placed(buf[..], args[..n], words, scan) && IsWord(FirstWord(rest))
    modifies buf, args
    ensures Placed(buf[..], args[..n + 1], words + [FirstWord(rest)], next)
    ensures Unread(buf[..], next, After(rest)) && scan < next && next + |After(rest)| == scan + |rest|
  {
    hide Placed, Unread, Holds, IsWord;
    UnreadFirst(buf[..], scan, rest);
    args[n] := scan;
    assert args[..n + 1] == old(args[..n]) + [scan];
    var end := SkipWord(buf, scan, rest);
    PlacedStays(buf[..], args[..n], words, scan, end);
    next := EndWord(buf, end, scan, rest);
    assert |FirstWord(rest)| > 0 by {
      WordLength(FirstWord(rest));
    }
    PlacedMore(buf[..], args[..n], words, end, scan, FirstWord(rest), next);
  }

  lemma WordLength(w: seq<Byte>)
    requires IsWord(w)
    ensures |w| > 0
  {
  }

  /** The loop that cuts off the arguments: pointers from index n of args on, from the command's unread rest. */
  method CutArgs(buf: array<Byte>, args: array<int>, n: int, scan: int, ghost rest: seq<Byte>,
      ghost words: seq<seq<Byte>>)
      returns (argc: int, end: int)
    requires buf.Length == BUF_SIZE && args.Length == MAX_ARGS && 0 < n <= scan - 2
    requires scan + |rest| <= MAX_COMMAND + 2
    requires Unread(buf[..], scan, rest) && Placed(buf[..], args[..n], words, scan) && |words| == n
    modifies buf, args
    ensures argc == n + |Args(rest)| < MAX_ARGS
    ensures Placed(buf[..], args[..argc], words + Args(rest), end)
  {
    hide Placed, Unread, Holds, Args, FirstWord, Spaces, IsWord, After;
    argc, end := n, scan;
    ghost var todo, done := rest, words;
    while true
      invariant 0 < argc <= end - 2 && end + |todo| <= MAX_COMMAND + 2
      invariant Unread(buf[..], end, todo) && Placed(buf[..], args[..argc], done, end)
      invariant done + Args(todo) == words + Args(rest) && |done| == argc
      decreases |todo|
    {
      ghost var t := todo[Spaces(todo)..];
      ghost var from := end;
      end := SkipSpaces(buf, end, todo);
      UnreadFirst(buf[..], end, t);
      PlacedStays(buf[..], args[..argc], done, from, end);
      ArgsFirst(todo);
      if buf[end] == NUL || buf[end] == NEWLINE {
        ghost var was := buf[..];
        buf[end] := NUL;
        assert buf[..] == was[end := NUL];
        assert done + [] == done;
        break;
      }
      end := CutArg(buf, args, argc, end, t, done);
      argc := argc + 1;
      done := done + [FirstWord(t)];
      todo := After(t);
    }
  }

  /** What the tokeniser makes of a command. */
  method Tokenise(command: seq<Byte>) returns (ok: bool, buf: array<Byte>, args: array<int>, argc: int)
    requires NulFree(command)
    ensures ok <==> |command| <= 1023
    ensures ok ==> argc == |Argv(command)| < args.Length && args[argc] == NULL
    ensures ok ==> forall k :: 0 <= k < argc ==> Holds(buf[..], args[k], Argv(command)[k])
  {
    hide Placed, Unread, Holds, Args, FirstWord, After;
    buf := new Byte[BUF_SIZE](i => NUL);
    args := new int[MAX_ARGS](i => NULL);
    if MAX_COMMAND < |command| {
      return false, buf, args, 0;
    }
    var scan := CopyCommand(buf, command);
    argc := 1;
    var next := EndName(buf, scan, args, command);
    if next != scan {
      AfterLength(command);
      argc, scan := CutArgs(buf, args, argc, next, After(command), [[DOT, SLASH] + FirstWord(command)]);
    } else {
      NoMore(command);
    }
    EachPlaced(buf[..], args[..argc], Argv(command), scan);
    args[argc] := NULL;
    ok := true;
  }

  lemma EachPlaced(s: seq<Byte>, at: seq<int>, words: seq<seq<Byte>>, scan: int)
    requires Placed(s, at, words, scan)
    ensures |at| == |words| && forall k :: 0 <= k < |at| ==> Holds(s, at[k], words[k])
  {
  }

  lemma AfterLength(command: seq<Byte>)
    requires |FirstWord(command)| < |command|
    ensures |After(command)| == |command| - |FirstWord(command)| - 1
  {
  }

  lemma NoMore(command: seq<Byte>)
    requires |FirstWord(command)| == |command|
    ensures After(command) == [] && Argv(command) == [[DOT, SLASH] + FirstWord(command)]
  {
  }

  /** The program's name: args[0], and its terminator. */
  method EndName(buf: array<Byte>, scan: int, args: array<int>, ghost command: seq<Byte>) returns (next: int)
    requires buf.Length == BUF_SIZE && args.Length == MAX_ARGS && |command| <= MAX_COMMAND
    requires scan == 2 + |FirstWord(command)| && Unread(buf[..], 2, command) && buf[0] == DOT && buf[1] == SLASH
    modifies buf, args
    ensures next == if |FirstWord(command)| < |command| then scan + 1 else scan
    ensures Unread(buf[..], next, After(command))
    ensures Placed(buf[..], args[..1], [[DOT, SLASH] + FirstWord(command)], next)
  {
    hide Unread, FirstWord;
    args[0] := 0;
    next := EndWord(buf, scan, 2, command);
    assert buf[0..scan] == [DOT, SLASH] + buf[2..scan];
  }

  method CopyCommand(buf: array<Byte>, command: seq<Byte>) returns (scan: int)
    requires buf.Length == BUF_SIZE && |command| <= MAX_COMMAND && NulFree(command)
    modifies buf
    ensures scan == 2 + |FirstWord(command)| && Unread(buf[..], 2, command) && buf[0] == DOT && buf[1] == SLASH
  {
    buf[0] := DOT;
    buf[1] := SLASH;
    var i := 0;
    while i < |command|
      invariant 0 <= i <= |command| && buf[0] == DOT && buf[1] == SLASH && buf[2..2 + i] == command[..i]
    {
      buf[2 + i] := command[i];
      i := i + 1;
    }
    buf[2 + i] := NUL;
    scan := SkipWord(buf, 2, command);
  }

  // ---------------------------------------------------------------- joining

  function Tail(argv: seq<seq<Byte>>): seq<seq<Byte>> {
    if argv == [] then [] else argv[1..]
  }

  /** What is written before word i. */
  function Lead(words: seq<seq<Byte>>, i: nat): seq<Byte>
    requires i <= |words|
  {
    if i == 0 then [] else Join(words[..i]) + [SPACE]
  }

  lemma {:induction false} JoinSnoc(words: seq<seq<Byte>>, w: seq<Byte>)
    ensures Join(words + [w]) == if words == [] then w else Join(words) + [SPACE] + w
  {
    if |words| > 0 {
      JoinSnoc(words[1..], w);
      assert (words + [w])[1..] == words[1..] + [w];
    }
  }

  lemma JoinStep(words: seq<seq<Byte>>, i: nat)
    requires i < |words|
    ensures Join(words[..i + 1]) == Lead(words, i) + words[i] && Lead(words, i + 1) == Join(words[..i + 1]) + [SPACE]
  {
    JoinSnoc(words[..i], words[i]);
    assert words[..i + 1] == words[..i] + [words[i]];
  }

  lemma {:induction false} PrefixShorter(words: seq<seq<Byte>>, i: nat, j: nat)
    requires 1 <= i <= j <= |words|
    ensures |Join(words[..i])| + j - i <= |Join(words[..j])|
    decreases j - i
  {
    hide Join;
    if i < j {
      PrefixShorter(words, i, j - 1);
      JoinStep(words, j - 1);
    }
  }

  /** The first words joined fill nbytes exactly. */
  ghost predicate Spills(words: seq<seq<Byte>>, nbytes: int) {
    exists i :: 1 <= i <= |words| && |Join(words[..i])| == nbytes
  }

  /** The first i words joined are shorter than nbytes, and so are fewer of them. */
  ghost predicate Under(words: seq<seq<Byte>>, i: int, nbytes: int) {
    forall j :: 1 <= j <= i && j <= |words| ==> |Join(words[..j])| < nbytes
  }

  lemma SpillsHere(words: seq<seq<Byte>>, i: nat, nbytes: int)
    requires 1 <= i <= |words| && |Join(words[..i])| == nbytes
    ensures Spills(words, nbytes) && |Join(words)| >= nbytes
  {
    PrefixShorter(words, i, |words|);
    assert words[..|words|] == words;
  }

  lemma TooLong(words: seq<seq<Byte>>, i: nat, nbytes: int)
    requires 1 <= i <= |words| && |Join(words[..i])| > nbytes && Under(words, i - 1, nbytes)
    ensures !Spills(words, nbytes) && |Join(words)| >= nbytes
  {
    hide Join;
    forall j | 1 <= j <= |words|
      ensures |Join(words[..j])| != nbytes
    {
      if i <= j {
        PrefixShorter(words, i, j);
      }
    }
    PrefixShorter(words, i, |words|);
    assert words[..|words|] == words;
  }

  lemma UnderMore(words: seq<seq<Byte>>, i: nat, nbytes: int)
    requires i < |words| && Under(words, i, nbytes) && |Join(words[..i + 1])| < nbytes
    ensures Under(words, i + 1, nbytes)
  {
  }

  /** A call that succeeds has written nothing past its buffer. */
  lemma SpillsOnlyInFailure(words: seq<seq<Byte>>, nbytes: int)
    ensures |Join(words)| < nbytes ==> !Spills(words, nbytes)
  {
    if i :| 1 <= i <= |words| && |Join(words[..i])| == nbytes {
      SpillsHere(words, i, nbytes);
    }
  }

  /** An input that does: one argument of three characters, for a buffer of three. */
  lemma AbcSpills()
    ensures Spills(Tail([[112], [97, 98, 99]]), 3)
  {
    var words: seq<seq<Byte>> := Tail([[112], [97, 98, 99]]);
    assert words[..1] == [[97, 98, 99]];
    assert |Join(words[..1])| == 3;
  }

  lemma JoinStart(argv: seq<seq<Byte>>, nbytes: int)
    ensures |Tail(argv)| == if argv == [] then 0 else |argv| - 1
    ensures forall i :: 1 <= i < |argv| ==> argv[i] == Tail(argv)[i - 1]
    ensures Join([]) == [] && Lead(Tail(argv), 0) == [] && Under(Tail(argv), 0, nbytes)
    ensures Tail(argv) == [] ==> !Spills(Tail(argv), nbytes)
  {
  }

  predicate Built(s: seq<Byte>, done: seq<Byte>) {
    |done| <= |s| && s[..|done|] == done
  }

  /** Nothing from index `from` on has changed. */
  predicate Kept(was: seq<Byte>, now: seq<Byte>, from: int) {
    |was| == |now| && forall k :: 0 <= k < |was| && from <= k ==> now[k] == was[k]
  }

  lemma KeptThen(a: seq<Byte>, b: seq<Byte>, c: seq<Byte>, from: int, to: int)
    requires Kept(a, b, from) && Kept(b, c, to) && from <= to
    ensures Kept(a, c, to)
  {
  }

  /** strcpy after what has been written. */
  method Strcpy(buf: array<Byte>, at: int, src: seq<Byte>, ghost done: seq<Byte>)
    requires at == |done| && at + |src| < buf.Length && Built(buf[..], done)
    modifies buf
    ensures Built(buf[..], done + src) && buf[at + |src|] == NUL && Kept(old(buf[..]), buf[..], at + |src| + 1)
  {
    var i := 0;
    while i < |src|
      invariant 0 <= i <= |src| && buf[..at + i] == done + src[..i]
      invariant forall k :: at + i <= k < buf.Length ==> buf[k] == old(buf[k])
    {
      buf[at + i] := src[i];
      i := i + 1;
    }
    buf[at + i] := NUL;
  }

  method PutSpace(buf: array<Byte>, at: int, ghost done: seq<Byte>)
    requires at == |done| && at < buf.Length && Built(buf[..], done)
    modifies buf
    ensures Built(buf[..], done + [SPACE]) && Kept(old(buf[..]), buf[..], at + 1)
  {
    buf[at] := SPACE;
  }

  method Terminate(buf: array<Byte>, at: int, ghost w: seq<Byte>)
    requires at == |w| < buf.Length && Built(buf[..], w)
    modifies buf
    ensures Holds(buf[..], 0, w) && Kept(old(buf[..]), buf[..], at + 1)
  {
    buf[at] := NUL;
    assert buf[..][0..at] == w;
  }

  /** ece391_getargs. An argument that exactly fills what is left has its terminator written one byte past the
    * caller's nbytes before the call fails, and nothing else is ever written there: the array is the caller's memory,
    * which need reach past nbytes in that case only. */
  method GetArgs(argv: seq<seq<Byte>>, buf: array<Byte>, nbytes: int) returns (r: int)
    requires nbytes <= buf.Length && (Spills(Tail(argv), nbytes) ==> nbytes < buf.Length)
    modifies buf
    ensures r == if |Join(Tail(argv))| < nbytes then 0 else -1
    ensures r == 0 ==> Holds(buf[..], 0, Join(Tail(argv))) && Kept(old(buf[..]), buf[..], |Join(Tail(argv))| + 1)
    ensures if Spills(Tail(argv), nbytes) then
              0 <= nbytes && buf[nbytes] == NUL && Kept(old(buf[..]), buf[..], nbytes + 1)
            else Kept(old(buf[..]), buf[..], nbytes)
  {
    hide Join, Holds, Tail, Built, Kept, Spills, Under, Lead;
    var argc := |argv|;
    var idx, at, left := 1, 0, nbytes;
    ghost var words, done := Tail(argv), [];
    JoinStart(argv, nbytes);
    BuildStart(buf[..]);
    while idx < argc
      invariant 1 <= idx && 0 <= at == |done| <= buf.Length && at + left == nbytes
      invariant idx > 1 ==> idx < argc && left >= 0
      invariant idx <= |words| + 1 && done == Lead(words, idx - 1) && Under(words, idx - 1, nbytes)
      invariant Built(buf[..], done) && Kept(old(buf[..]), buf[..], at)
    {
      ghost var i := idx - 1;
      JoinStep(words, i);
      var len := |argv[idx]|;
      if len > left {
        TooLong(words, idx, nbytes);
        KeptMore(old(buf[..]), buf[..], at, nbytes);
        return -1;
      }
      if at + len == nbytes {
        SpillsHere(words, idx, nbytes);
      } else {
        UnderMore(words, i, nbytes);
      }
      ghost var before := buf[..];
      Strcpy(buf, at, argv[idx], done);
      KeptThen(old(buf[..]), before, buf[..], at, at + len + 1);
      done := done + argv[idx];
      at := at + len;
      left := left - len;
      idx := idx + 1;
      if idx >= argc {
        break;
      }
      if left < 1 {
        return -1;
      }
      before := buf[..];
      PutSpace(buf, at, done);
      KeptThen(old(buf[..]), before, buf[..], at + 1, at + 1);
      done := done + [SPACE];
      at := at + 1;
      left := left - 1;
    }
    assert words[..|words|] == words;
    if left < 1 {
      if idx == 1 {
        KeptMore(old(buf[..]), buf[..], 0, nbytes);
      }
      return -1;
    }
    KeptMore(old(buf[..]), buf[..], if idx == 1 then 0 else at + 1, at + 1);
    SpillsOnlyInFailure(words, nbytes);
    ghost var before := buf[..];
    Terminate(buf, at, done);
    KeptThen(old(buf[..]), before, buf[..], at + 1, at + 1);
    KeptMore(old(buf[..]), buf[..], at + 1, nbytes);
    return 0;
  }

  lemma BuildStart(s: seq<Byte>)
    ensures Built(s, []) && Kept(s, s, 0)
  {
  }

  lemma KeptMore(was: seq<Byte>, now: seq<Byte>, from: int, to: int)
    requires Kept(was, now, from) && (from <= to || from <= 0)
    ensures Kept(was, now, to)
  {
  }
}
