/** What execute does with a command line before it makes a process: the name, the arguments, the file checks. */
module Loader {
  import opened Bytes
  import opened CommandLine
  import opened FileSystem
  import opened Directory

  const MAX_COMMAND := 128             // room for a command, and for the arguments execute copies
  const BEHIND := 2
  const HEADER_SIZE := 40
  const ENTRY_POINT := 24
  const MAGIC: seq<Byte> := [0x7F, 0x45, 0x4C, 0x46]

  // ---------------------------------------------------------------- command lines

  /** The name as typed, and as execute's 128-byte buffer keeps it. */
  function TypedName(command: seq<Byte>): seq<Byte> {
    FirstWord(command[Spaces(command)..])
  }

  function ProgramName(command: seq<Byte>): (r: seq<Byte>)
    ensures r <= TypedName(command) && |r| == Min(|TypedName(command)|, 127)
  {
    if |TypedName(command)| < MAX_COMMAND then TypedName(command) else TypedName(command)[..MAX_COMMAND - 1]
  }

  /** The arguments execute keeps: the line from one past the length of the name. */
  function KeptArgs(command: seq<Byte>): (r: seq<Byte>)
    ensures |r| <= |Line(command)|
  {
    var from := |ProgramName(command)| + 1;
    if from < |Line(command)| then Line(command)[from..] else []
  }

  /** The arguments as typed: what follows the name and the character that ended it. */
  function TypedArgs(command: seq<Byte>): seq<Byte> {
    var from := Spaces(command) + |TypedName(command)| + 1;
    if from < |Line(command)| then Line(command)[from..] else []
  }

  /** The name is counted from 0, not from where it starts, so spaces in front of it spoil the arguments. */
  lemma KeptArgsAreTyped(command: seq<Byte>)
    requires |command| <= MAX_COMMAND
    ensures KeptArgs(command) == TypedArgs(command) <==>
              Spaces(command) == 0 || |Line(command)| <= |TypedName(command)| + 1
  {
  }

  /** Blanks, a word, a blank and the rest: the word is the program and the rest its arguments. */
  lemma CommandIs(n: nat, word: seq<Byte>, args: seq<Byte>)
    requires word != [] && |word| <= 127 && NEWLINE !in args
    requires forall i :: 0 <= i < |word| ==> word[i] != 10 && word[i] != 32
    ensures var command: seq<Byte> := seq(n, i => 32) + word + [32] + args;
            ProgramName(command) == word && TypedArgs(command) == args
  {
    hide Spaces, FirstWord, Line;
    var command, rest: seq<Byte> := seq(n, i => 32) + word + [32] + args, word + [32] + args;
    assert command == seq(n, i => 32) + rest;
    Blanks(n, rest);
    assert command[n..] == rest;
    WordFirst(word, args);
    LineWhole(command);
    assert command[n + |word| + 1..] == args;
  }

  lemma Blanks(n: nat, rest: seq<Byte>)
    requires rest != [] && rest[0] != SPACE
    ensures Spaces(seq(n, i => 32) + rest) == n
  {
    var s: seq<Byte> := seq(n, i => 32) + rest;
    assert forall i :: 0 <= i < n ==> s[i] == SPACE;
    assert s[n] == rest[0] && |s| == n + |rest|;
  }

  lemma WordFirst(word: seq<Byte>, args: seq<Byte>)
    requires forall i :: 0 <= i < |word| ==> word[i] != 10 && word[i] != 32
    ensures FirstWord(word + [32] + args) == word
  {
    var s := word + [32] + args;
    assert s[..|word|] == word;
    FirstWordUnique(s, |word|);
  }

  /** " cat a" runs cat with the argument " a". */
  lemma SpaceCat()
    ensures var command: seq<Byte> := [SPACE, 99, 97, 116, SPACE, 97];
            KeptArgs(command) == [SPACE, 97] && TypedArgs(command) == [97]
  {
    var command: seq<Byte> := [SPACE, 99, 97, 116, SPACE, 97];
    assert Spaces(command) == 1;
    assert command[1..] == [99, 97, 116, SPACE, 97];
    FirstWordUnique(command[1..], 3);
    LineWhole(command);
  }

  lemma {:induction false} LineWhole(s: seq<Byte>)
    requires NEWLINE !in s
    ensures Line(s) == s
  {
    if s != [] {
      LineWhole(s[1..]);
    }
  }

  /** What is left in the two bytes behind the argument array: the terminator is stored one past the line's end. */
  function Behind(command: seq<Byte>, was: seq<Byte>): (now: seq<Byte>)
    requires |was| == BEHIND && |command| <= MAX_COMMAND
    ensures |now| == BEHIND
  {
    var last := |Line(command)| + 1;
    if last < MAX_COMMAND then was else was[last - MAX_COMMAND := NUL]
  }

  /** Every store stays in the array if and only if the line has at most 126 characters. */
  lemma StoresInside(command: seq<Byte>)
    requires |command| <= MAX_COMMAND
    ensures (forall was :: |was| == BEHIND ==> Behind(command, was) == was) <==> |Line(command)| <= 126
  {
    var ones: seq<Byte> := [1, 1];
    if |Line(command)| > MAX_COMMAND - 2 {
      assert Behind(command, ones)[|Line(command)| + 1 - MAX_COMMAND] == NUL;
    }
  }

  /** 127 characters, as many as a terminal takes in a line: the byte behind the array is cleared. */
  lemma FullLineSpills()
    ensures var command: seq<Byte> := seq(127, i => 97);
            NulFree(command) && Behind(command, [1, 1]) == [NUL, 1]
  {
    LineWhole(seq(MAX_COMMAND - 1, i => 97));
  }

  /** Copying the line, and parsing the name out of it. The array is followed by two bytes of something else. */
  method Parse(command: seq<Byte>, behind: seq<Byte>) returns (name: seq<Byte>, argArr: array<Byte>, argSize: int)
    requires NulFree(command) && |command| <= MAX_COMMAND && |behind| == BEHIND
    ensures name == ProgramName(command) && argSize == |Line(command)|
    ensures fresh(argArr) && argArr.Length == MAX_COMMAND + BEHIND && argArr[..argSize] == Line(command)
    ensures forall i :: argSize <= i < MAX_COMMAND ==> argArr[i] == NUL
    ensures argArr[MAX_COMMAND..] == Behind(command, behind)
  {
    argArr := new Byte[MAX_COMMAND + BEHIND](i => if i == MAX_COMMAND + 1 then behind[1] else behind[0]);
    ClearArgs(argArr);
    argSize := CopyLine(command, argArr);
    LineCopied(command, argArr[..], behind);
    name := ParseName(command);
  }

  /** The elements after the copying are the line, its terminators and what is behind them. */
  lemma LineCopied(command: seq<Byte>, s: seq<Byte>, behind: seq<Byte>)
    requires |command| <= MAX_COMMAND && |behind| == BEHIND && |s| == MAX_COMMAND + BEHIND
    requires forall i :: 0 <= i < |Line(command)| ==> s[i] == command[i]
    requires forall i :: MAX_COMMAND <= i < |s| ==>
               s[i] == if i == |Line(command)| + 1 then NUL else behind[i - MAX_COMMAND]
    ensures s[..|Line(command)|] == Line(command) && s[MAX_COMMAND..] == Behind(command, behind)
  {
  }

  method CopyLine(command: seq<Byte>, argArr: array<Byte>) returns (argSize: int)
    requires |command| <= MAX_COMMAND && argArr.Length == MAX_COMMAND + BEHIND
    requires forall i :: 0 <= i < MAX_COMMAND ==> argArr[i] == NUL
    modifies argArr
    ensures argSize == |Line(command)|
    ensures forall i :: 0 <= i < argSize ==> argArr[i] == command[i]
    ensures forall i :: argSize <= i < MAX_COMMAND ==> argArr[i] == NUL
    ensures forall i :: MAX_COMMAND <= i < argArr.Length ==>
              argArr[i] == if i == argSize + 1 then NUL else old(argArr[i])
  {
    argSize := 0;
    while argSize < |command| && command[argSize] != NEWLINE
      invariant 0 <= argSize <= |Line(command)|
      invariant forall i :: 0 <= i < argSize ==> argArr[i] == command[i]
      invariant forall i :: argSize <= i < MAX_COMMAND ==> argArr[i] == NUL
      invariant forall i :: MAX_COMMAND <= i < argArr.Length ==> argArr[i] == old(argArr[i])
    {
      argArr[argSize] := command[argSize];
      argSize := argSize + 1;
    }
    argArr[argSize + 1] := NUL;
  }

  method ClearArgs(argArr: array<Byte>)
    requires argArr.Length == MAX_COMMAND + BEHIND
    modifies argArr
    ensures forall i :: 0 <= i < MAX_COMMAND ==> argArr[i] == NUL
    ensures forall i :: MAX_COMMAND <= i < argArr.Length ==> argArr[i] == old(argArr[i])
  {
    var i := 0;
    while i < MAX_COMMAND
      invariant 0 <= i <= MAX_COMMAND && forall k :: 0 <= k < i ==> argArr[k] == NUL
      invariant forall k :: MAX_COMMAND <= k < argArr.Length ==> argArr[k] == old(argArr[k])
    {
      argArr[i] := NUL;
      i := i + 1;
    }
  }

  method SkipSpaces(command: seq<Byte>) returns (i: nat)
    ensures i == Spaces(command)
  {
    i := 0;
    while i < |command| && command[i] == SPACE
      invariant 0 <= i <= Spaces(command)
    {
      i := i + 1;
    }
  }

  method ParseName(command: seq<Byte>) returns (name: seq<Byte>)
    requires |command| <= MAX_COMMAND
    ensures name == ProgramName(command)
  {
    var i := SkipSpaces(command);
    hide Spaces, FirstWord;
    ghost var start := i;
    name := [];
    while i < |command| && !Ends(command[i])
      invariant start <= i <= |command| && name == command[start..i]
      invariant forall k :: start <= k < i ==> !Ends(command[k])
    {
      name := name + [command[i]];
      i := i + 1;
    }
    FirstWordUnique(command[start..], i - start);
    if |name| == MAX_COMMAND {
      name := name[..MAX_COMMAND - 1];
    }
  }

  // ---------------------------------------------------------------- arguments

  /** Where the kept arguments are in the copy. */
  lemma CopiedArgs(c: Copied, command: seq<Byte>)
    requires NulFree(command) && CopyOf(c, command)
    ensures var args := KeptArgs(command);
            && NulFree(args) && 0 < c.argIdx && |args| < MAX_COMMAND && c.argSize <= |c.argArr|
            && (if c.argIdx < c.argSize then args == c.argArr[c.argIdx..c.argSize] else args == [])
  {
    NulFreeName(command);
    assert c.argArr[..c.argSize] == Line(command);
    if c.argIdx < c.argSize {
      assert c.argArr[..c.argSize][c.argIdx..] == c.argArr[c.argIdx..c.argSize];
    }
  }

  /** set_up_fdsandargs, the arguments: into a process's cleared 128-byte array. */
  method SetUpArgs(c: Copied, ghost command: seq<Byte>) returns (kept: array<Byte>)
    requires NulFree(command) && CopyOf(c, command)
    ensures fresh(kept) && kept.Length == MAX_COMMAND && UpToNul(kept[..]) == KeptArgs(command)
  {
    hide KeptArgs, Line, ProgramName, CopyOf, UpToNul, FirstWord, Spaces;
    ghost var args := KeptArgs(command);
    CopiedArgs(c, command);
    kept := new Byte[MAX_COMMAND](i => NUL);
    var i, j := 0, c.argIdx;
    while j < c.argSize && c.argArr[j] != NUL
      invariant 0 <= i <= |args| < MAX_COMMAND && j == c.argIdx + i
      invariant forall k :: 0 <= k < i ==> kept[k] == args[k]
      invariant forall k :: i <= k < MAX_COMMAND ==> kept[k] == NUL
      decreases c.argSize - j
    {
      kept[i] := c.argArr[j];
      i := i + 1;
      j := j + 1;
    }
    KeptIs(kept[..], args);
  }

  lemma KeptIs(kept: seq<Byte>, args: seq<Byte>)
    requires |args| < |kept| && NulFree(args) && kept[|args|] == NUL
    requires forall k :: 0 <= k < |args| ==> kept[k] == args[k]
    ensures UpToNul(kept) == args
  {
    assert kept[..|args|] == args;
    UpToNulUnique(kept, |args|);
  }

  /** getargs: it asks for room for the whole command line, not only for the arguments. */
  method GetArgs(kept: array<Byte>, argSize: int, buf: array<Byte>, nbytes: int) returns (r: int)
    requires kept.Length == MAX_COMMAND && kept != buf && 0 <= argSize && nbytes <= buf.Length
    requires |UpToNul(kept[..])| <= Min(argSize, MAX_COMMAND - 1)
    modifies buf
    ensures r == if 0 <= nbytes && argSize < nbytes then 0 else -1
    ensures r == 0 ==> var args := UpToNul(kept[..]);
                       |args| <= nbytes && buf[..|args|] == args && (forall i :: |args| <= i < nbytes ==> buf[i] == NUL)
    ensures forall i :: 0 <= i < buf.Length && (r == -1 || nbytes <= i) ==> buf[i] == old(buf[i])
  {
    if nbytes < 0 || nbytes - 1 < argSize {
      return -1;
    }
    ghost var args := UpToNul(kept[..]);
    var i := 0;
    while kept[i] != NUL && i < nbytes
      invariant 0 <= i <= |args| && buf[..i] == args[..i]
      invariant forall k :: i <= k < buf.Length ==> buf[k] == old(buf[k])
      decreases nbytes - i
    {
      buf[i] := kept[i];
      i := i + 1;
    }
    while i < nbytes
      invariant |args| <= i <= nbytes && buf[..|args|] == args
      invariant forall k :: |args| <= k < i ==> buf[k] == NUL
      invariant forall k :: i <= k < buf.Length ==> buf[k] == old(buf[k])
    {
      buf[i] := NUL;
      i := i + 1;
    }
    return 0;
  }

  // ---------------------------------------------------------------- the file

  /** The entry a command names can be read safely. */
  predicate SoundTarget(img: seq<Byte>, command: seq<Byte>)
    requires WellFormed(img)
  {
    var d := ByName(img, ProgramName(command));
    d.Found? ==> 0 <= d.entry.inode && (d.entry.inode <= NUM_INODES ==> ValidInode(img, d.entry.inode))
  }

  /** The command is short enough and names a file of at least 40 bytes that starts with the ELF magic number. */
  predicate Loadable(img: seq<Byte>, command: seq<Byte>)
    requires WellFormed(img) && SoundTarget(img, command)
  {
    var d := ByName(img, ProgramName(command));
    |command| <= MAX_COMMAND && d.Found? && d.entry.inode <= NUM_INODES &&
    var f := Contents(img, d.entry.inode);
    |f| >= HEADER_SIZE && f[..4] == MAGIC
  }

  /** A program laid on the disk can be run if it has an ELF header's 40 bytes and its first four. */
  lemma DiskLoads(img: seq<Byte>, command: seq<Byte>)
    requires WellFormed(img)
    ensures forall file :: OnDisk(img, ProgramName(command), file) ==>
              var d := ByName(img, ProgramName(command));
              && SoundTarget(img, command) && d.Found? && 0 <= d.entry.inode && ValidInode(img, d.entry.inode)
              && Contents(img, d.entry.inode) == file
              && (Loadable(img, command) <==>
                    |command| <= 128 && |file| >= 40 && file[..4] == [0x7F, 0x45, 0x4C, 0x46])
  {
    hide OnDisk, ByName, Contents, ProgramName, WellFormed;
    forall file | OnDisk(img, ProgramName(command), file)
      ensures var d := ByName(img, ProgramName(command));
              && SoundTarget(img, command) && d.Found? && 0 <= d.entry.inode && ValidInode(img, d.entry.inode)
              && Contents(img, d.entry.inode) == file
              && (Loadable(img, command) <==>
                    |command| <= 128 && |file| >= 40 && file[..4] == [0x7F, 0x45, 0x4C, 0x46])
    {
      OnDiskIsFound(img, ProgramName(command), file);
    }
  }

  /** A command line copied and measured, ready for the arguments to be taken from it. */
  datatype Copied = Copied(argArr: seq<Byte>, argSize: int, argIdx: int)

  /** The arguments in the copy are the kept arguments of the command. */
  predicate CopyOf(c: Copied, command: seq<Byte>) {
    && |c.argArr| == MAX_COMMAND && 0 <= c.argSize == |Line(command)| <= MAX_COMMAND
    && c.argIdx == |ProgramName(command)| + 1 && c.argArr[..c.argSize] == Line(command)
  }

  /** execute, up to the choice of a process number. */
  method Load(img: seq<Byte>, command: seq<Byte>, behind: seq<Byte>)
      returns (ok: bool, copy: Copied, eip: seq<Byte>, behind': seq<Byte>)
    requires WellFormed(img) && WellTyped(img) && SoundTarget(img, command) && NulFree(command) && |behind| == BEHIND
    ensures ok <==> Loadable(img, command)
    ensures ok ==> CopyOf(copy, command)
    ensures ok ==> eip == Contents(img, ByName(img, ProgramName(command)).entry.inode)[24..28]
    ensures forall file :: OnDisk(img, ProgramName(command), file) ==>
              && (ok <==> |command| <= 128 && |file| >= 40 && file[..4] == [0x7F, 0x45, 0x4C, 0x46])
              && (ok ==> eip == file[24..28])
    ensures behind' == if |command| <= MAX_COMMAND then Behind(command, behind) else behind
  {
    hide OnDisk, Contents, ByName, ProgramName, Line, WellFormed, WellTyped;
    DiskLoads(img, command);
    ok, eip, copy, behind' := false, [], Copied([], 0, 0), behind;
    if |command| > MAX_COMMAND {
      return;
    }
    var name, argArr, argSize := Parse(command, behind);
    behind' := argArr[MAX_COMMAND..];
    NulFreeName(command);
    var d := ReadDentryByName(img, name);
    if d == NotFound {
      return;
    }
    ok, eip := CheckFile(img, d.entry.inode);
    copy := Copied(argArr[..MAX_COMMAND], argSize, |name| + 1);
  }

  lemma NulFreeName(command: seq<Byte>)
    requires NulFree(command)
    ensures NulFree(ProgramName(command)) && NulFree(KeptArgs(command))
  {
    hide Line, FirstWord, Spaces;
    var n, from := Spaces(command), |ProgramName(command)| + 1;
    assert forall i :: 0 <= i < |ProgramName(command)| ==> ProgramName(command)[i] == command[n + i];
    assert forall i :: 0 <= i < |KeptArgs(command)| ==> KeptArgs(command)[i] == command[from + i];
  }

  method CheckFile(img: seq<Byte>, inode: int) returns (ok: bool, eip: seq<Byte>)
    requires WellFormed(img) && 0 <= inode && (inode <= NUM_INODES ==> ValidInode(img, inode))
    ensures ok <==> inode <= 64 && |Contents(img, inode)| >= 40
                    && Contents(img, inode)[..4] == [0x7F, 'E' as int, 'L' as int, 'F' as int]
    ensures ok ==> eip == Contents(img, inode)[24..28]
  {
    hide WellFormed, Contents;
    var header := new Byte[HEADER_SIZE];
    var count := ReadData(img, inode, 0, header, 0, HEADER_SIZE);
    if count != HEADER_SIZE {
      return false, [];
    }
    assert header[..] == Contents(img, inode)[..HEADER_SIZE];
    assert header[..4] == Contents(img, inode)[..4];
    if header[0] != 0x7F || header[1] != 0x45 || header[2] != 0x4C || header[3] != 0x46 {
      return false, [];
    }
    assert header[..4] == MAGIC;
    var entry := new Byte[4];
    count := ReadData(img, inode, ENTRY_POINT, entry, 0, 4);
    assert entry[..] == Contents(img, inode)[ENTRY_POINT..ENTRY_POINT + 4];
    return true, entry[..];
  }
}
