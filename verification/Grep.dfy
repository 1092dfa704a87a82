/** grep's do_one_file: a search through a 1024-byte buffer that carries an unfinished last line over to the next
  * read. */
module Grep {
  import opened Bytes
  import opened FileSystem
  import opened Descriptors
  import opened Directory
  import opened Lines

  // ---------------------------------------------------------------- the string functions it uses

  /** The buffer from `from` to a terminator at `end`. */
  ghost predicate Terminated(data: seq<Byte>, from: int, end: int) {
    0 <= from <= end < |data| && data[end] == NUL
  }

  /** ece391_strcpy within one buffer, downwards. */
  method StrcpyDown(data: array<Byte>, from: int, ghost end: int)
    requires StringAt(data[..], from, end - from)
    modifies data
    ensures data[..end - from] == old(data[from..end]) && data[end - from] == NUL
    ensures forall k :: end - from < k < data.Length ==> data[k] == old(data[k])
  {
    var i := 0;
    while data[from + i] != NUL
      invariant 0 <= i <= end - from
      invariant forall k :: 0 <= k < i ==> data[k] == old(data[from + k])
      invariant forall k :: i <= k < data.Length ==> data[k] == old(data[k])
      decreases end - from - i
    {
      data[i] := data[from + i];
      i := i + 1;
    }
    data[i] := NUL;
  }

  /** ece391_fdputs: what it writes. */
  method Fdputs(data: array<Byte>, from: int, ghost end: int) returns (text: seq<Byte>)
    requires Terminated(data[..], from, end)
    ensures text == UpToNul(data[from..end])
  {
    var len := 0;
    while data[from + len] != NUL
      invariant 0 <= len <= end - from
      invariant forall k :: from <= k < from + len ==> data[k] != NUL
      decreases end - from - len
    {
      len := len + 1;
    }
    assert data[from..end][..len] == data[from..from + len];
    UpToNulUnique(data[from..end], len);
    return data[from..from + len];
  }

  /** ece391_strncmp of a string in the buffer with all of a pattern. */
  method Strncmp(data: array<Byte>, at: int, s: seq<Byte>, ghost end: int) returns (r: int)
    requires Terminated(data[..], at, end) && NulFree(s)
    ensures r == 0 <==> OccursAt(data[at..end], s, 0)
  {
    if s == [] {
      return 0;
    }
    var n := |s|;
    var i := 0;
    while data[at + i] == s[i]
      invariant 0 <= i < |s| && n == |s| - i && at + i <= end
      invariant forall k :: 0 <= k < i ==> data[at + k] == s[k]
      decreases |s| - i
    {
      n := n - 1;
      if data[at + i] == NUL || n == 0 {
        assert data[at..end][0..|s|] == s;
        return 0;
      }
      i := i + 1;
    }
    assert at + |s| <= end ==> data[at..end][0..|s|][i] != s[i];
    var a: int, b: int := data[at + i], s[i];
    return a - b;
  }

  // ---------------------------------------------------------------- the search

  /** A line with a NUL in it is searched to its end but printed only up to the NUL. */
  lemma PrintedWhole(fname: seq<Byte>, s: seq<Byte>, line: seq<Byte>)
    requires Hit(line, s)
    ensures Record(fname, s, line) == fname + [':' as int] + line + [NEWLINE] <==> NulFree(line)
  {
    CutLine(line);
    assert |Record(fname, s, line)| == |fname| + |UpToNul(line)| + 2;
  }

  /** "a", NUL, "b" matches "b" and is printed as "a". */
  lemma NulLine(fname: seq<Byte>)
    ensures Hit([97, NUL, 98], [98]) && Record(fname, [98], [97, NUL, 98]) == fname + [':' as int, 97, NEWLINE]
  {
    var line: seq<Byte> := [97, NUL, 98];
    assert OccursAt(line, [98], 2);
    UpToNulUnique(line, 1);
  }

  /** The check loop over one line. */
  method SearchLine(data: array<Byte>, start: int, end: int, s: seq<Byte>, fname: seq<Byte>) returns (out: seq<Byte>)
    requires Terminated(data[..], start, end) && NulFree(s)
    ensures out == Record(fname, s, data[start..end])
  {
    hide Hit, OccursAt;
    out := [];
    var check := start;
    ghost var text := data[start..end];
    while check < end
      invariant start <= check <= end
      invariant forall i :: 0 <= i < check - start ==> !OccursAt(text, s, i) || s == []
    {
      assert text[check - start] == data[check];
      if s != [] && s[0] == data[check] {
        var c := Strncmp(data, check, s, end);
        SuffixOccurs(text, s, check - start);
        assert text[check - start..] == data[check..end];
        if c == 0 {
          Found(text, s, check - start);
          var line := Fdputs(data, start, end);
          return fname + [':' as int] + line + [NEWLINE];
        }
      }
      StartsThere(text, s, check - start);
      check := check + 1;
    }
    NotFoundAnywhere(text, s);
  }

  lemma Found(line: seq<Byte>, s: seq<Byte>, i: int)
    requires 0 <= i <= |line| && s != [] && OccursAt(line, s, i)
    ensures Hit(line, s)
  {
  }

  lemma NotFoundAnywhere(line: seq<Byte>, s: seq<Byte>)
    requires forall i :: 0 <= i < |line| ==> !OccursAt(line, s, i) || s == []
    ensures !Hit(line, s)
  {
  }

  lemma StartsThere(line: seq<Byte>, s: seq<Byte>, i: int)
    requires 0 <= i < |line| && (s == [] || s[0] != line[i] || !OccursAt(line, s, i))
    ensures !OccursAt(line, s, i) || s == []
  {
    if s != [] && i + |s| <= |line| {
      assert line[i..i + |s|][0] == line[i];
    }
  }

  lemma SuffixOccurs(line: seq<Byte>, s: seq<Byte>, i: int)
    requires 0 <= i <= |line|
    ensures OccursAt(line[i..], s, 0) <==> OccursAt(line, s, i)
  {
    if i + |s| <= |line| {
      assert line[i..][0..|s|] == line[i..i + |s|];
    }
  }

  /** The scan for the end of the line. */
  method LineEnd(data: array<Byte>, start: int, last: int) returns (end: int)
    requires 0 <= start <= last < data.Length
    ensures start <= end <= last
    ensures end == start + FirstNewline(data[start..last])
  {
    end := start;
    while end < last && data[end] != NEWLINE
      invariant start <= end <= last
      invariant forall k :: start <= k < end ==> data[k] != NEWLINE
    {
      end := end + 1;
    }
    FirstNewlineUnique(data[start..last], end - start);
  }

  /** What the buffered start b of the rest f of the file says about f's first piece. */
  lemma BufferedPiece(f: seq<Byte>, n: int)
    requires 0 <= n <= |f| && n <= BUFSIZE
    ensures var e := FirstNewline(f[..n]);
            e < n ==> PieceLength(f) == e && PieceUses(f) == e + 1
    ensures FirstNewline(f[..n]) == n && (n == |f| || n == BUFSIZE) ==> PieceLength(f) == n && PieceUses(f) == n
  {
    var e := FirstNewline(f[..n]);
    assert forall i :: 0 <= i < e ==> f[..n][i] == f[i];
    if e < n || n == |f| {
      FirstNewlineUnique(f, e);
    }
  }

  /** Between reads: the buffer holds the last `last` bytes read. */
  ghost predicate Carried(data: seq<Byte>, last: int, file: seq<Byte>, pos: int) {
    && |data| == BUFSIZE + 1 && data[BUFSIZE] != NEWLINE
    && 0 <= last <= BUFSIZE && last <= pos <= |file|
    && data[..last] == file[pos - last..pos]
  }

  /** During a scan: the buffer from lineStart up to last is the start of f, all that is still to be searched. */
  ghost predicate Buffered(data: seq<Byte>, lineStart: int, last: int, f: seq<Byte>) {
    && |data| == BUFSIZE + 1 && data[BUFSIZE] != NEWLINE
    && 0 <= lineStart <= last <= BUFSIZE && last - lineStart <= |f|
    && data[lineStart..last] == f[..last - lineStart]
  }

  lemma BufferedLine(data: seq<Byte>, lineStart: int, lineEnd: int, last: int, f: seq<Byte>)
    requires Buffered(data, lineStart, last, f) && lineEnd == lineStart + FirstNewline(data[lineStart..last])
    requires lineEnd < last || last - lineStart == |f| || last - lineStart == BUFSIZE
    ensures |data| == BUFSIZE + 1 && data[BUFSIZE] != NEWLINE && 0 <= lineStart <= lineEnd <= BUFSIZE
    ensures PieceLength(f) <= |f| && data[lineStart..lineEnd] == f[..PieceLength(f)]
    ensures PieceUses(f) == if lineEnd < last then lineEnd - lineStart + 1 else last - lineStart
  {
    BufferedPiece(f, last - lineStart);
    var n := lineEnd - lineStart;
    hide PieceUses, PieceLength, FirstNewline;
    assert data[lineStart..lineEnd] == data[lineStart..last][..n];
    assert f[..last - lineStart][..n] == f[..n];
  }

  lemma BufferedRest(data: seq<Byte>, lineStart: int, lineEnd: int, last: int, f: seq<Byte>)
    requires Buffered(data, lineStart, last, f) && lineStart <= lineEnd <= last
    ensures lineEnd < last ==> Buffered(data[lineEnd := NUL], lineEnd + 1, last, f[lineEnd + 1 - lineStart..])
  {
    if lineEnd < last {
      var n := lineEnd + 1 - lineStart;
      assert data[lineEnd := NUL][lineEnd + 1..last] == data[lineStart..last][n..];
      assert f[n..][..last - lineEnd - 1] == f[..last - lineStart][n..];
    }
  }

  /** Ending the line with a NUL and searching it: the next piece of f. */
  method SearchPiece(data: array<Byte>, lineStart: int, lineEnd: int, last: int, s: seq<Byte>, fname: seq<Byte>,
                     ghost f: seq<Byte>) returns (out: seq<Byte>)
    requires Buffered(data[..], lineStart, last, f) && NulFree(s)
    requires lineEnd == lineStart + FirstNewline(data[lineStart..last])
    requires lineEnd < last || last - lineStart == |f| || last - lineStart == BUFSIZE
    modifies data
    ensures out == Record(fname, s, f[..PieceLength(f)])
    ensures PieceUses(f) == if lineEnd < last then lineEnd - lineStart + 1 else last - lineStart
    ensures lineEnd < last ==> Buffered(data[..], lineEnd + 1, last, f[PieceUses(f)..])
    ensures data.Length == BUFSIZE + 1 && data[BUFSIZE] != NEWLINE
  {
    hide Record, Buffered, PieceLength, PieceUses, FirstNewline;
    BufferedLine(data[..], lineStart, lineEnd, last, f);
    ghost var was := data[..];
    data[lineEnd] := NUL;
    assert data[..] == was[lineEnd := NUL];
    BufferedRest(was, lineStart, lineEnd, last, f);
    assert data[lineStart..lineEnd] == was[lineStart..lineEnd];
    out := SearchLine(data, lineStart, lineEnd, s, fname);
  }

  lemma ScanStarts(data: seq<Byte>, last: int, file: seq<Byte>, pos: int)
    requires Carried(data, last, file, pos)
    ensures 0 <= last <= pos <= |file| && Buffered(data, 0, last, file[pos - last..])
  {
  }

  lemma ScanCarries(data: seq<Byte>, last: int, file: seq<Byte>, pos: int)
    requires |data| == BUFSIZE + 1 && data[BUFSIZE] != NEWLINE && 0 <= last <= BUFSIZE && last <= pos <= |file|
    requires data[..last] == file[pos - last..][..last]
    ensures Carried(data, last, file, pos)
  {
  }

  lemma BufferedSizes(data: seq<Byte>, lineStart: int, last: int, f: seq<Byte>)
    requires Buffered(data, lineStart, last, f)
    ensures |data| == BUFSIZE + 1 && data[BUFSIZE] != NEWLINE && 0 <= lineStart <= last <= BUFSIZE
        && last - lineStart <= |f|
  {
  }

  lemma BufferedText(data: seq<Byte>, lineStart: int, last: int, f: seq<Byte>)
    requires 0 < lineStart && Buffered(data, lineStart, last, f)
    ensures last <= BUFSIZE == |data| - 1 && last - lineStart <= |f| && data[lineStart..last] == f[..last - lineStart]
    ensures AfterCarry(data, lineStart, last)[BUFSIZE] != NEWLINE
  {
  }

  lemma DropTwice(file: seq<Byte>, a: nat, n: nat)
    requires a <= |file| && n <= |file| - a
    ensures file[a..][n..] == file[a + n..]
  {
  }

  /** Where the last finished line of b ends, or 0. */
  function LastEnd(b: seq<Byte>): (e: nat)
    ensures e <= |b| && (e > 0 ==> b[e - 1] == NEWLINE) && forall i :: e <= i < |b| ==> b[i] != NEWLINE
  {
    if b == [] then 0 else if b[|b| - 1] == NEWLINE then |b| else LastEnd(b[..|b| - 1])
  }

  lemma LastEndUnique(b: seq<Byte>, e: nat)
    requires e <= |b| && (e > 0 ==> b[e - 1] == NEWLINE) && forall i :: e <= i < |b| ==> b[i] != NEWLINE
    ensures LastEnd(b) == e
  {
  }

  /** Every unfinished line that is carried over to the next read has no NUL: it is copied as a C string. Read by read,
    * f is the carried part and what follows it. */
  ghost predicate CarriesClean(f: seq<Byte>)
    decreases |f|
  {
    f != [] ==>
      var b := f[..Min(BUFSIZE, |f|)];
      var e := LastEnd(b);
      (e > 0 ==> NulFree(b[e..])) && CarriesClean(f[if e == 0 then |b| else e..])
  }

  lemma {:induction false} NulFreeCarries(f: seq<Byte>)
    requires NulFree(f)
    ensures CarriesClean(f)
    decreases |f|
  {
    if f != [] {
      var b := f[..Min(BUFSIZE, |f|)];
      var e := LastEnd(b);
      NulFreeCarries(f[if e == 0 then |b| else e..]);
    }
  }

  lemma CarryClean(f: seq<Byte>, n: nat, e: nat)
    requires CarriesClean(f) && f != [] && n == Min(BUFSIZE, |f|) && e <= n
    requires (e > 0 ==> f[e - 1] == NEWLINE) && forall i :: e <= i < n ==> f[i] != NEWLINE
    ensures if e == 0 then CarriesClean(f[n..]) else NulFree(f[..n][e..]) && CarriesClean(f[e..])
  {
    LastEndUnique(f[..n], e);
  }

  /** The inner loop: search every finished line in the buffer, then move the unfinished one to the front. */
  method ScanBuffer(data: array<Byte>, last0: int, cnt: int, s: seq<Byte>, fname: seq<Byte>,
                    ghost file: seq<Byte>, ghost pos: int) returns (last: int, out: seq<Byte>)
    requires NulFree(s) && Carried(data[..], last0, file, pos)
    requires (last0 < BUFSIZE ==> pos == |file|) && (cnt == 0 ==> pos == |file|)
    requires 0 <= last0 <= pos <= |file| && CarriesClean(file[pos - last0..])
    modifies data
    ensures Carried(data[..], last, file, pos) && 0 <= last <= pos && last < BUFSIZE && (cnt == 0 ==> last == 0)
    ensures CarriesClean(file[pos - last..])
    ensures Report(fname, s, file[pos - last0..]) == out + Report(fname, s, file[pos - last..])
  {
    hide Report, FirstNewline, Buffered, Carried, CarriesClean, NulFree;
    last, out := last0, [];
    var lineStart := 0;
    ScanStarts(data[..], last, file, pos);
    ghost var all := file[pos - last..];
    assert all[0..] == all;
    while true
      invariant 0 <= lineStart <= last == last0 && (lineStart == last ==> last == 0)
      invariant Buffered(data[..], lineStart, last, all[lineStart..])
      invariant lineStart > 0 ==> all[lineStart - 1] == NEWLINE
      invariant Report(fname, s, all) == out + Report(fname, s, all[lineStart..])
      decreases last - lineStart
    {
      BufferedSizes(data[..], lineStart, last, all[lineStart..]);
      var lineEnd := LineEnd(data, lineStart, last);
      EndOfLine(data[..], lineStart, lineEnd, last, all);
      if data[lineEnd] != NEWLINE && cnt != 0 && lineStart != 0 {
        CarryRest(data, lineStart, lineEnd, last, all, file, pos);
        last := last - lineStart;
        break;
      }
      ScanEnds(file, pos, last, cnt, lineStart, lineEnd);
      out := SearchNext(data, lineStart, lineEnd, last, s, fname, all, out);
      lineStart := lineEnd + 1;
      if lineStart >= last {
        DropTwice(file, pos - last0, last);
        last := 0;
        ScanCarries(data[..], 0, file, pos);
        break;
      }
    }
  }

  /** A search, in terms of what has been printed and what is left. */
  method SearchNext(data: array<Byte>, lineStart: int, lineEnd: int, last: int, s: seq<Byte>, fname: seq<Byte>,
                    ghost all: seq<Byte>, before: seq<Byte>) returns (out: seq<Byte>)
    requires 0 <= lineStart <= last <= |all| && NulFree(s) && Buffered(data[..], lineStart, last, all[lineStart..])
    requires lineEnd == lineStart + FirstNewline(data[lineStart..last])
    requires lineEnd < last || last == |all| || last - lineStart == BUFSIZE
    requires Report(fname, s, all) == before + Report(fname, s, all[lineStart..])
    modifies data
    ensures Report(fname, s, all) == out + Report(fname, s, all[Min(lineEnd + 1, last)..])
    ensures lineEnd < last ==> Buffered(data[..], lineEnd + 1, last, all[lineEnd + 1..])
    ensures data.Length == BUFSIZE + 1 && data[BUFSIZE] != NEWLINE
  {
    hide Report, Record, PieceLength, PieceUses, FirstNewline, Buffered, NulFree;
    ghost var f := all[lineStart..];
    var found := SearchPiece(data, lineStart, lineEnd, last, s, fname, f);
    ReportMore(fname, s, all, before, f);
    DropTwice(all, lineStart, PieceUses(f));
    out := before + found;
  }

  lemma ReportMore(fname: seq<Byte>, s: seq<Byte>, all: seq<Byte>, out: seq<Byte>, f: seq<Byte>)
    requires Report(fname, s, all) == out + Report(fname, s, f)
    ensures Report(fname, s, all) == (out + Record(fname, s, f[..PieceLength(f)])) + Report(fname, s, f[PieceUses(f)..])
  {
    hide Report, Record, PieceLength, PieceUses;
    ReportStep(fname, s, f);
  }

  /** Where the scan for the end of a line stops, in terms of the file. */
  lemma EndOfLine(data: seq<Byte>, lineStart: int, lineEnd: int, last: int, all: seq<Byte>)
    requires 0 <= lineStart <= last <= |all| && Buffered(data, lineStart, last, all[lineStart..])
    requires lineEnd == lineStart + FirstNewline(data[lineStart..last])
    ensures lineStart <= lineEnd <= last && lineEnd < |data|
    ensures if lineEnd < last then data[lineEnd] == NEWLINE && all[lineEnd] == NEWLINE
            else forall i :: lineStart <= i < last ==> all[i] != NEWLINE
    ensures last == BUFSIZE && lineEnd == last ==> data[lineEnd] != NEWLINE
  {
    var text := data[lineStart..last];
    assert forall i :: lineStart <= i < last ==> text[i - lineStart] == data[i] == all[i];
  }

  /** When the buffer has been used up, what follows carries as cleanly. */
  lemma ScanEnds(file: seq<Byte>, pos: int, last: int, cnt: int, lineStart: int, lineEnd: int)
    requires 0 <= last <= pos <= |file| && CarriesClean(file[pos - last..]) && last <= BUFSIZE
    requires (last < BUFSIZE ==> pos == |file|) && (cnt == 0 ==> pos == |file|)
    requires 0 <= lineStart <= lineEnd <= last
    requires var all := file[pos - last..];
             if lineEnd < last then all[lineEnd] == NEWLINE else forall i :: lineStart <= i < last ==> all[i] != NEWLINE
    requires lineEnd == last == BUFSIZE && cnt != 0 ==> lineStart == 0
    ensures lineEnd + 1 >= last ==> CarriesClean(file[pos - last..][last..])
  {
    var all := file[pos - last..];
    if lineEnd + 1 >= last && pos < |file| {
      CarryClean(all, last, if lineEnd < last then last else 0);
      assert all[..last][last..] == [];
    }
  }

  /** The carry, in terms of the file. */
  method CarryRest(data: array<Byte>, lineStart: int, lineEnd: int, last: int, ghost all: seq<Byte>,
                   ghost file: seq<Byte>, ghost pos: int)
    requires 0 < lineStart <= lineEnd == last <= BUFSIZE && last <= pos <= |file| && (last < BUFSIZE ==> pos == |file|)
    requires all == file[pos - last..] && CarriesClean(all) && Buffered(data[..], lineStart, last, all[lineStart..])
    requires all[lineStart - 1] == NEWLINE && forall i :: lineStart <= i < last ==> all[i] != NEWLINE
    modifies data
    ensures Carried(data[..], last - lineStart, file, pos)
    ensures file[pos - (last - lineStart)..] == all[lineStart..] && CarriesClean(all[lineStart..])
  {
    hide Buffered, CarriesClean, NulFree, AfterCarry, UpToNul;
    CarryClean(all, last, lineStart);
    assert all[..last][lineStart..] == all[lineStart..][..last - lineStart];
    BufferedText(data[..], lineStart, last, all[lineStart..]);
    CarryKeepsNulFree(data[..], lineStart, lineEnd);
    CarryOver(data, lineStart, lineEnd);
    DropTwice(file, pos - last, lineStart);
    ScanCarries(data[..], last - lineStart, file, pos);
  }

  /** The buffer after a carry: the unfinished line as a C string, and behind it what lay there. */
  function AfterCarry(data: seq<Byte>, from: int, end: int): (r: seq<Byte>)
    requires 0 < from <= end < |data|
    ensures |r| == |data|
  {
    var d, n := data[end := NUL], |UpToNul(data[from..end])|;
    d[from..from + n] + [NUL] + d[n + 1..]
  }

  /** The carry keeps the unfinished line if and only if whatever follows its first NUL is what lay there already. */
  lemma CarryKeeps(data: seq<Byte>, from: int, end: int)
    requires 0 < from <= end < |data|
    ensures AfterCarry(data, from, end)[..end - from] == data[from..end] <==>
              forall k :: |UpToNul(data[from..end])| < k < end - from ==> data[k] == data[from..end][k]
  {
    hide AfterCarry, UpToNul;
    var text := data[from..end];
    var r := AfterCarry(data, from, end)[..end - from];
    forall k | 0 <= k < end - from
      ensures r[k] == if k <= |UpToNul(text)| then text[k] else data[k]
    {
      CarriedByte(data, from, end, k);
    }
  }

  lemma CarriedByte(data: seq<Byte>, from: int, end: int, k: int)
    requires 0 < from <= end < |data| && 0 <= k < end - from
    ensures AfterCarry(data, from, end)[k] == if k <= |UpToNul(data[from..end])| then data[from..end][k] else data[k]
  {
    var text := data[from..end];
    assert text[k] == data[from + k];
  }

  lemma CarryKeepsNulFree(data: seq<Byte>, from: int, end: int)
    requires 0 < from <= end < |data| && NulFree(data[from..end])
    ensures AfterCarry(data, from, end)[..end - from] == data[from..end]
  {
    CutLine(data[from..end]);
    CarryKeeps(data, from, end);
  }

  /** After the line "x", an unfinished "a", NUL, "b" is carried over as "a", NUL, "a". */
  lemma CarrySpoils()
    ensures AfterCarry([120, NUL, 97, NUL, 98, 0], 2, 5)[..3] == [97, NUL, 97]
  {
    var data: seq<Byte> := [120, NUL, 97, NUL, 98, 0];
    assert data[2..5] == [97, NUL, 98];
    UpToNulUnique(data[2..5], 1);
  }

  /** Moving the unfinished line down to the start of the buffer. */
  method CarryOver(data: array<Byte>, lineStart: int, lineEnd: int)
    requires 0 < lineStart <= lineEnd < data.Length
    modifies data
    ensures data[..] == AfterCarry(old(data[..]), lineStart, lineEnd)
  {
    hide AfterCarry, UpToNul;
    ghost var was, n := data[..], |UpToNul(data[lineStart..lineEnd])|;
    data[lineEnd] := NUL;
    CarriedString(was, lineStart, lineEnd);
    assert data[..] == was[lineEnd := NUL];
    StrcpyDown(data, lineStart, lineStart + n);
    CarryDone(was, data[..], lineStart, lineEnd);
  }

  /** What the copy takes: the line up to its first NUL. */
  lemma CarriedString(data: seq<Byte>, from: int, end: int)
    requires 0 < from <= end < |data|
    ensures StringAt(data[end := NUL], from, |UpToNul(data[from..end])|) && |UpToNul(data[from..end])| <= end - from
  {
    var text := data[from..end];
    var n := |UpToNul(text)|;
    assert forall k :: from <= k < from + n ==> UpToNul(text)[k - from] == text[k - from] == data[k];
    assert n < |text| ==> text[n] == data[from + n];
  }

  lemma CarryDone(was: seq<Byte>, now: seq<Byte>, from: int, end: int)
    requires 0 < from <= end < |was| == |now|
    requires var d, n := was[end := NUL], |UpToNul(was[from..end])|;
             && now[..n] == d[from..from + n] && now[n] == NUL && forall k :: n < k < |d| ==> now[k] == d[k]
    ensures now == AfterCarry(was, from, end)
  {
    hide UpToNul;
    var d, n := was[end := NUL], |UpToNul(was[from..end])|;
    assert now[n + 1..] == d[n + 1..];
    assert now == now[..n] + [now[n]] + now[n + 1..];
  }

  /** What an open for grep needs: a regular file, with no NUL where the copying of carried lines would stop. */
  ghost predicate Searchable(img: seq<Byte>, o: OpenResult)
    requires SoundDirectory(img) && SoundTable(img, o.fds)
  {
    0 <= o.fd < FD_COUNT && o.fds[o.fd].table == FileTable && CarriesClean(Contents(img, o.fds[o.fd].inode))
  }

  /** do_one_file. `data` is the stack buffer, whatever it held; only its last byte is ever tested unset. */
  method DoOneFile(p: Process, s: seq<Byte>, fname: seq<Byte>, data: array<Byte>) returns (status: int, out: seq<Byte>)
    requires p.Valid() && NulFree(s) && NulFree(fname)
    requires data.Length == BUFSIZE + 1 && data[BUFSIZE] != NEWLINE
    requires var o := AfterOpen(p.img, p.fds[..], fname);
             o.fd != -1 ==> SoundTable(p.img, o.fds) && Searchable(p.img, o)
    modifies p.fds, data
    ensures p.Valid()
    ensures var o := AfterOpen(p.img, old(p.fds[..]), fname);
            if o.fd == -1 then status == -1 && out == Text("file open failed\n") && p.fds[..] == old(p.fds[..])
            else status == 0 && p.fds[..] == old(p.fds[..])[o.fd := CLOSED]
                 && SoundTable(p.img, o.fds) && Searchable(p.img, o)
                 && var f := Contents(p.img, o.fds[o.fd].inode);
                    out == Report(fname, s, f) &&
                    (NoLongHit(f, s) ==> out == Print(fname, Cut(Matching(LinesOf(f), s)))) &&
                    (NoLongHit(f, s) && (forall l :: l in Matching(LinesOf(f), s) ==> NulFree(l)) ==>
                       out == Print(fname, Matching(LinesOf(f), s)))
    ensures forall file :: OnDisk(p.img, fname, file) && old(HasFree(p.fds[..])) ==>
              status == 0 && out == Report(fname, s, file)
  {
    hide Report, Contents, ByName, Matching, PiecesOf, LinesOf, NoLongHit, Print, Cut, CarriesClean, OnDisk, HasFree;
    forall file | OnDisk(p.img, fname, file) && HasFree(p.fds[..])
      ensures var o := AfterOpen(p.img, p.fds[..], fname);
              o.fd != -1 && ValidInode(p.img, o.fds[o.fd].inode) && Contents(p.img, o.fds[o.fd].inode) == file
    {
      FileIsOpened(p.img, p.fds[..], fname, file);
    }
    OpenIsSound(p.img, p.fds[..], fname);
    ghost var o := AfterOpen(p.img, p.fds[..], fname);
    var fd := p.Open(fname);
    if fd == -1 {
      return -1, Text("file open failed\n");
    }
    out := SearchOpenFile(p, fd, s, fname, data);
    var c := p.Close(fd);
    if c == -1 {
      assert false;  // the source's close failure: never reached
    }
    ReportOfLines(fname, s, Contents(p.img, o.fds[o.fd].inode));
    return 0, out;
  }

  lemma ReportOfLines(fname: seq<Byte>, s: seq<Byte>, f: seq<Byte>)
    ensures NoLongHit(f, s) ==> Report(fname, s, f) == Print(fname, Cut(Matching(LinesOf(f), s)))
    ensures NoLongHit(f, s) && (forall l :: l in Matching(LinesOf(f), s) ==> NulFree(l)) ==>
              Report(fname, s, f) == Print(fname, Matching(LinesOf(f), s))
  {
    StreamingIsWholeFile(f, s);
    CutWhole(Matching(LinesOf(f), s));
  }

  lemma CarriedStart(data: seq<Byte>, file: seq<Byte>)
    requires |data| == BUFSIZE + 1 && data[BUFSIZE] != NEWLINE
    ensures Carried(data, 0, file, 0)
  {
  }

  /** One read into the free part of the buffer: short only at the end of the file. */
  method FillBuffer(p: Process, fd: int, data: array<Byte>, last: int, ghost file: seq<Byte>,
      ghost pos: int) returns (cnt: int)
    requires p.Valid() && FD_START <= fd < FD_COUNT && p.fds[fd].inUse && p.fds[fd].table == FileTable
    requires file == Contents(p.img, p.fds[fd].inode) && pos == p.fds[fd].pos
    requires last < BUFSIZE && Carried(data[..], last, file, pos)
    modifies p.fds, data
    ensures p.Valid() && p.fds[..] == old(p.fds[..])[fd := old(p.fds[fd]).(pos := pos + cnt)]
    ensures 0 <= cnt && pos + cnt <= |file| && (last + cnt < BUFSIZE ==> pos + cnt == |file|)
    ensures cnt == 0 ==> pos == |file|
    ensures last + cnt <= BUFSIZE && Carried(data[..], last + cnt, file, pos + cnt)
  {
    hide Contents, ByName, Filled, WellFormed, ValidInode;
    ghost var was := data[..];
    cnt := p.Read(fd, data, last, BUFSIZE - last);
    CarriedMore(was, data[..], last, cnt, file, pos);
  }

  lemma CarriedMore(was: seq<Byte>, now: seq<Byte>, last: int, cnt: int, file: seq<Byte>, pos: int)
    requires Carried(was, last, file, pos) && 0 <= cnt && last + cnt <= BUFSIZE && pos + cnt <= |file|
    requires |now| == |was| && if cnt > 0 then Filled(file, pos, was, now, last, cnt) else now == was
    ensures Carried(now, last + cnt, file, pos + cnt)
  {
    assert file[pos - last..pos] + file[pos..pos + cnt] == file[pos - last..pos + cnt];
    assert now[..last + cnt] == was[..last] + file[pos..pos + cnt];
  }

  /** The read loop of do_one_file. */
  method SearchOpenFile(p: Process, fd: int, s: seq<Byte>, fname: seq<Byte>, data: array<Byte>) returns (out: seq<Byte>)
    requires p.Valid() && FD_START <= fd < FD_COUNT && p.fds[fd].inUse && p.fds[fd].table == FileTable
    requires p.fds[fd].pos == 0 && CarriesClean(Contents(p.img, p.fds[fd].inode))
    requires NulFree(s) && data.Length == BUFSIZE + 1 && data[BUFSIZE] != NEWLINE
    modifies p.fds, data
    ensures p.Valid() && out == Report(fname, s, old(Contents(p.img, p.fds[fd].inode)))
    ensures p.fds[..] == old(p.fds[..])[fd := p.fds[fd]] && p.fds[fd].(pos := 0) == old(p.fds[fd])
  {
    hide Report, Contents, Carried, ByName, CarriesClean;
    ghost var file := Contents(p.img, p.fds[fd].inode);
    ghost var d := p.fds[fd];
    hide SoundDirectory, SoundTable;
    ghost var pos := 0;
    var last := 0;
    out := [];
    assert Carried(data[..], last, file, pos) by {
      CarriedStart(data[..], file);
    }
    assert file[0..] == file;
    while true
      invariant p.Valid() && p.fds[fd] == d.(pos := pos)
      invariant forall i :: 0 <= i < FD_COUNT && i != fd ==> p.fds[i] == old(p.fds[i])
      invariant 0 <= last < BUFSIZE && Carried(data[..], last, file, pos) && 0 <= last <= pos <= |file|
      invariant CarriesClean(file[pos - last..])
      invariant Report(fname, s, file) == out + Report(fname, s, file[pos - last..])
      decreases |file| - pos
    {
      var cnt := FillBuffer(p, fd, data, last, file, pos);
      pos := pos + cnt;
      last := last + cnt;
      var found;
      last, found := ScanBuffer(data, last, cnt, s, fname, file, pos);
      out := out + found;
      if cnt == 0 {
        NothingLeft(fname, s, file);
        break;
      }
    }
  }

  lemma NothingLeft(fname: seq<Byte>, s: seq<Byte>, file: seq<Byte>)
    ensures Report(fname, s, file[|file|..]) == []
  {
    assert file[|file|..] == [];
  }
}
