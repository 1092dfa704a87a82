/** What grep is for: the lines of a file that contain a pattern. And what its 1024-byte buffer makes of lines
  * that do not fit. */
module Lines {
  import opened Bytes

  const BUFSIZE := 1024

  /** Index of the first newline, or the length. */
  function FirstNewline(f: seq<Byte>): (e: nat)
    ensures e <= |f|
    ensures e < |f| ==> f[e] == NEWLINE
    ensures forall i :: 0 <= i < e ==> f[i] != NEWLINE
  {
    if f == [] || f[0] == NEWLINE then 0 else 1 + FirstNewline(f[1..])
  }

  lemma FirstNewlineUnique(f: seq<Byte>, e: nat)
    requires e <= |f| && (e < |f| ==> f[e] == NEWLINE) && forall i :: 0 <= i < e ==> f[i] != NEWLINE
    ensures FirstNewline(f) == e
  {
    assert FirstNewline(f) >= e;
  }

  /** The lines of a file, without their newlines. */
  function LinesOf(f: seq<Byte>): seq<seq<Byte>> {
    if f == [] then [] else
    var e := FirstNewline(f);
    [f[..e]] + LinesOf(f[Min(e + 1, |f|)..])
  }

  /** The lines each followed by a newline. */
  function Rejoined(lines: seq<seq<Byte>>): seq<Byte> {
    if lines == [] then [] else lines[0] + [10] + Rejoined(lines[1..])
  }

  /** The lines hold no newline, and followed by one each they are the file, whether it ends in a newline or not. */
  lemma {:induction false} LinesRejoined(f: seq<Byte>)
    ensures forall l :: l in LinesOf(f) ==> 10 !in l
    ensures Rejoined(LinesOf(f)) == if f == [] || f[|f| - 1] == 10 then f else f + [10]
    decreases |f|
  {
    hide FirstNewline, LinesOf, Rejoined;
    LinesStep(f);
    RejoinedStep([], []);
    if f != [] {
      var e := FirstNewline(f);
      var rest := f[Min(e + 1, |f|)..];
      LinesRejoined(rest);
      FirstLineEnds(f, e);
      RejoinedStep(f[..e], LinesOf(rest));
      assert rest != [] ==> rest[|rest| - 1] == f[|f| - 1];
    }
  }

  lemma LinesStep(f: seq<Byte>)
    ensures f == [] ==> LinesOf(f) == []
    ensures f != [] ==> LinesOf(f) == [f[..FirstNewline(f)]] + LinesOf(f[Min(FirstNewline(f) + 1, |f|)..])
  {
    hide FirstNewline;
    if f != [] {
      var e := FirstNewline(f);
      var lines := LinesOf(f[Min(e + 1, |f|)..]);
      assert LinesOf(f) == [f[..e]] + lines;
    }
  }

  lemma RejoinedStep(l: seq<Byte>, lines: seq<seq<Byte>>)
    ensures Rejoined([l] + lines) == l + [10] + Rejoined(lines) && Rejoined([]) == []
    ensures forall k :: k in [l] + lines <==> k == l || k in lines
  {
    assert ([l] + lines)[1..] == lines;
  }

  lemma FirstLineEnds(f: seq<Byte>, e: nat)
    requires f != [] && e == FirstNewline(f)
    ensures 10 !in f[..e] && (e == |f| ==> f[..e] == f && f[|f| - 1] != 10)
    ensures e < |f| ==> f == f[..e] + [10] + f[e + 1..] && (f[e + 1..] == [] ==> f[|f| - 1] == 10)
  {
    hide FirstNewline;
    if e < |f| {
      Around(f, e);
    }
    assert forall i :: 0 <= i < e ==> f[..e][i] == f[i];
  }

  lemma Around(f: seq<Byte>, e: nat)
    requires e < |f|
    ensures f == f[..e] + [f[e]] + f[e + 1..]
  {
  }

  /** How much of f the next stretch the buffer can search takes, and how much it uses up. */
  function PieceLength(f: seq<Byte>): nat {
    Min(FirstNewline(f), BUFSIZE)
  }

  function PieceUses(f: seq<Byte>): (n: nat)
    ensures n <= |f| && (f != [] ==> n > 0)
  {
    var e := FirstNewline(f);
    if e < BUFSIZE then Min(e + 1, |f|) else BUFSIZE
  }

  /** The lines of f, except that one longer than the buffer comes in buffer-sized pieces. */
  function PiecesOf(f: seq<Byte>): seq<seq<Byte>> {
    if f == [] then [] else [f[..PieceLength(f)]] + PiecesOf(f[PieceUses(f)..])
  }

  predicate OccursAt(line: seq<Byte>, s: seq<Byte>, i: int) {
    0 <= i && i + |s| <= |line| && line[i..i + |s|] == s
  }

  predicate Contains(line: seq<Byte>, s: seq<Byte>) {
    exists i :: 0 <= i <= |line| && OccursAt(line, s, i)
  }

  /** A match: the empty pattern matches nothing. */
  predicate Hit(line: seq<Byte>, s: seq<Byte>) {
    s != [] && Contains(line, s)
  }

  /** That is, the line is the pattern with something before it and something after. */
  lemma HitIs(line: seq<Byte>, s: seq<Byte>)
    ensures Hit(line, s) <==> s != [] && exists a, b :: line == a + s + b
  {
    if Hit(line, s) {
      var i :| 0 <= i <= |line| && OccursAt(line, s, i);
      assert line == line[..i] + s + line[i + |s|..];
    }
    if s != [] && exists a, b :: line == a + s + b {
      var a, b :| line == a + s + b;
      assert line[|a|..|a| + |s|] == s;
      assert OccursAt(line, s, |a|);
    }
  }

  function Matching(lines: seq<seq<Byte>>, s: seq<Byte>): seq<seq<Byte>> {
    if lines == [] then [] else
    (if Hit(lines[0], s) then [lines[0]] else []) + Matching(lines[1..], s)
  }

  lemma {:induction false} MatchingMember(lines: seq<seq<Byte>>, s: seq<Byte>, l: seq<Byte>)
    ensures l in Matching(lines, s) <==> l in lines && Hit(l, s)
  {
    hide Hit;
    if lines != [] {
      MatchingMember(lines[1..], s, l);
    }
  }

  lemma {:induction false} MatchingConcat(a: seq<seq<Byte>>, b: seq<seq<Byte>>, s: seq<Byte>)
    ensures Matching(a + b, s) == Matching(a, s) + Matching(b, s)
  {
    hide Hit;
    if a == [] {
      assert a + b == b;
    } else {
      MatchingConcat(a[1..], b, s);
      assert (a + b)[1..] == a[1..] + b && (a + b)[0] == a[0];
    }
  }

  /** Each match on a line of its own, after the file's name and a colon. */
  function Print(fname: seq<Byte>, lines: seq<seq<Byte>>): seq<Byte> {
    if lines == [] then [] else fname + [':' as int] + lines[0] + [NEWLINE] + Print(fname, lines[1..])
  }

  /** Lines as C strings: each up to its first NUL. */
  function Cut(lines: seq<seq<Byte>>): seq<seq<Byte>> {
    if lines == [] then [] else [UpToNul(lines[0])] + Cut(lines[1..])
  }

  lemma {:induction false} CutWhole(lines: seq<seq<Byte>>)
    ensures Cut(lines) == lines <==> forall l :: l in lines ==> NulFree(l)
  {
    if lines != [] {
      CutWhole(lines[1..]);
      CutLine(lines[0]);
      assert forall l :: l in lines <==> l == lines[0] || l in lines[1..];
      var c := Cut(lines);
      assert c[0] == UpToNul(lines[0]) && c[1..] == Cut(lines[1..]);
      assert c == lines <==> c[0] == lines[0] && c[1..] == lines[1..] by {
        assert lines == [lines[0]] + lines[1..] && c == [c[0]] + c[1..];
      }
    }
  }

  lemma CutLine(l: seq<Byte>)
    ensures UpToNul(l) == l <==> NulFree(l)
  {
    if NulFree(l) {
      assert l[..|l|] == l;
      UpToNulUnique(l, |l|);
    }
  }

  /** What grep prints for f, by pieces. */
  function Report(fname: seq<Byte>, s: seq<Byte>, f: seq<Byte>): seq<Byte> {
    Print(fname, Cut(Matching(PiecesOf(f), s)))
  }

  function Record(fname: seq<Byte>, s: seq<Byte>, piece: seq<Byte>): seq<Byte> {
    if Hit(piece, s) then fname + [':' as int] + UpToNul(piece) + [NEWLINE] else []
  }

  lemma ReportStep(fname: seq<Byte>, s: seq<Byte>, f: seq<Byte>)
    ensures Report(fname, s, f) == Record(fname, s, f[..PieceLength(f)]) + Report(fname, s, f[PieceUses(f)..])
  {
    hide Hit, UpToNul;
    EmptyNeverHits(s);
    if f != [] {
      var rest := PiecesOf(f[PieceUses(f)..]);
      var piece := f[..PieceLength(f)];
      assert PiecesOf(f)[0] == piece && PiecesOf(f)[1..] == rest;
      var m := Matching(PiecesOf(f), s);
      if Hit(piece, s) {
        assert m[0] == piece && m[1..] == Matching(rest, s);
        assert Cut(m)[0] == UpToNul(piece) && Cut(m)[1..] == Cut(Matching(rest, s));
      } else {
        assert m == Matching(rest, s);
      }
    }
  }

  // ---------------------------------------------------------------- pieces against lines

  /** The condition: no line too long for the buffer contains the pattern. */
  predicate NoLongHit(f: seq<Byte>, s: seq<Byte>) {
    forall l :: l in LinesOf(f) && |l| > BUFSIZE ==> !Hit(l, s)
  }

  lemma {:induction false} PiecesFit(f: seq<Byte>, p: seq<Byte>)
    requires p in PiecesOf(f)
    ensures |p| <= BUFSIZE
    decreases |f|
  {
    if p != f[..PieceLength(f)] {
      PiecesFit(f[PieceUses(f)..], p);
    }
  }

  /** A pattern in part of a line is in the line. */
  lemma PartHit(l: seq<Byte>, a: nat, b: nat, s: seq<Byte>)
    requires a <= b <= |l|
    ensures Hit(l[a..b], s) ==> Hit(l, s)
  {
    if Hit(l[a..b], s) {
      var i :| 0 <= i <= b - a && OccursAt(l[a..b], s, i);
      var n := a + i;
      assert n + |s| <= b;
      assert forall k :: n <= k < n + |s| ==> l[a..b][k - a] == l[k];
      assert l[a..b][i..i + |s|] == l[n..n + |s|];
      assert OccursAt(l, s, a + i);
    }
  }

  /** A line gives the same matches by pieces: itself if it fits, otherwise none. */
  lemma {:induction false} LineByPieces(f: seq<Byte>, s: seq<Byte>)
    requires f != [] && (FirstNewline(f) > BUFSIZE ==> !Hit(f[..FirstNewline(f)], s))
    ensures var e := FirstNewline(f);
            Matching(PiecesOf(f), s) == Matching([f[..e]], s) + Matching(PiecesOf(f[Min(e + 1, |f|)..]), s)
    decreases |f|
  {
    hide Hit, Matching, PiecesOf, FirstNewline;
    var e := FirstNewline(f);
    var rest := f[PieceUses(f)..];
    FirstPiece(f, s);
    if e >= BUFSIZE {
      SplitLine(f, e, BUFSIZE);
      FirstNewlineUnique(rest, e - BUFSIZE);
      EmptyNeverHits(s);
      if e > BUFSIZE {
        PartHit(f[..e], BUFSIZE, e, s);
        PartHit(f[..e], 0, BUFSIZE, s);
        OneLine(f[..e], s);
        OneLine(f[..BUFSIZE], s);
      }
      if rest != [] {
        OneLine(rest[..e - BUFSIZE], s);
        LineByPieces(rest, s);
      }
    }
  }

  /** A line cut after n characters. */
  lemma SplitLine(f: seq<Byte>, e: nat, n: nat)
    requires n <= e <= |f|
    ensures f[..n] == f[..e][0..n] && f[n..][..e - n] == f[..e][n..e]
    ensures f[n..][Min(e - n + 1, |f| - n)..] == f[Min(e + 1, |f|)..]
    ensures f[n..] == [] ==> f[Min(e + 1, |f|)..] == []
  {
  }

  lemma FirstPiece(f: seq<Byte>, s: seq<Byte>)
    requires f != []
    ensures Matching(PiecesOf(f), s) == Matching([f[..PieceLength(f)]], s) + Matching(PiecesOf(f[PieceUses(f)..]), s)
  {
    MatchingConcat([f[..PieceLength(f)]], PiecesOf(f[PieceUses(f)..]), s);
  }

  lemma OneLine(l: seq<Byte>, s: seq<Byte>)
    ensures Matching([l], s) == if Hit(l, s) then [l] else []
  {
    hide Hit;
    assert Matching([], s) == [];
    assert [l][1..] == [];
  }

  lemma EmptyNeverHits(s: seq<Byte>)
    ensures !Hit([], s)
  {
  }

  lemma {:induction false} PiecesMatchLines(f: seq<Byte>, s: seq<Byte>)
    requires NoLongHit(f, s)
    ensures Matching(PiecesOf(f), s) == Matching(LinesOf(f), s)
    decreases |f|
  {
    hide Hit, Matching, PiecesOf, LinesOf, NoLongHit;
    FirstLine(f, s);
    if f != [] {
      var e := FirstNewline(f);
      var rest := f[Min(e + 1, |f|)..];
      LineByPieces(f, s);
      PiecesMatchLines(rest, s);
      MatchingConcat([f[..e]], LinesOf(rest), s);
    }
  }

  lemma FirstLine(f: seq<Byte>, s: seq<Byte>)
    requires NoLongHit(f, s)
    ensures f == [] ==> PiecesOf(f) == LinesOf(f)
    ensures f != [] ==> var e := FirstNewline(f);
                        var rest := f[Min(e + 1, |f|)..];
                        && LinesOf(f) == [f[..e]] + LinesOf(rest) && NoLongHit(rest, s)
                        && (e > BUFSIZE ==> !Hit(f[..e], s))
  {
    hide Hit, LinesOf, FirstNewline;
    LinesStep(f);
    if f == [] {
      assert PiecesOf(f) == [];
    } else {
      var e := FirstNewline(f);
      var rest := f[Min(e + 1, |f|)..];
      var lines := LinesOf(rest);
      hide PiecesOf;
      assert f[..e] in LinesOf(f);
      assert forall l :: l in lines ==> l in LinesOf(f);
    }
  }

  /** Searching piece by piece finds exactly the matching lines if and only if no line longer than the buffer
    * contains the pattern. */
  lemma StreamingIsWholeFile(f: seq<Byte>, s: seq<Byte>)
    ensures Matching(PiecesOf(f), s) == Matching(LinesOf(f), s) <==> NoLongHit(f, s)
  {
    if NoLongHit(f, s) {
      PiecesMatchLines(f, s);
    } else {
      var l :| l in LinesOf(f) && |l| > BUFSIZE && Hit(l, s);
      MatchingMember(LinesOf(f), s, l);
      MatchingMember(PiecesOf(f), s, l);
      if l in PiecesOf(f) {
        PiecesFit(f, l);
      }
    }
  }

  /** A line of 1025 characters: its last character is searched as a line of its own. */
  lemma LongLineSplit()
    ensures var f: seq<Byte> := seq(BUFSIZE + 1, i => 97);
            |f| == 1025 && LinesOf(f) == [f] && Matching(PiecesOf(f), [97]) != Matching(LinesOf(f), [97])
  {
    var f: seq<Byte> := seq(BUFSIZE + 1, i => 97);
    FirstNewlineUnique(f, |f|);
    assert f[..|f|] == f && f[|f|..] == [];
    assert LinesOf(f) == [f] + LinesOf([]);
    assert OccursAt(f, [97], 0);
    assert f in LinesOf(f) && Hit(f, [97]);
    StreamingIsWholeFile(f, [97]);
  }
}
