/** The screen as a window on an unbounded sheet of 80-column paper.
  * `text` is everything before the cursor, laid out; `top` is the first paper row the window shows. */
module Paper {
  import opened Bytes
  import opened Console

  datatype Sheet = Sheet(text: seq<Byte>, top: nat) {
    predicate Valid() {
      COLS * top <= |text| && |text| / COLS - top < ROWS
    }
  }

  const EMPTY := Sheet([], 0)

  function Spaces(n: nat): (r: seq<Byte>)
    ensures |r| == n && forall i :: 0 <= i < n ==> r[i] == SPACE
  {
    seq(n, i => SPACE)
  }

  /** A newline fills the rest of the row with blanks. */
  function Advance(text: seq<Byte>, c: Byte): seq<Byte> {
    if IsNewline(c) then text + Spaces(COLS - |text| % COLS) else text + [c]
  }

  function Write(p: Sheet, c: Byte): (r: Sheet)
    requires p.Valid()
    ensures r.Valid()
  {
    var text := Advance(p.text, c);
    Sheet(text, Max(p.top, |text| / COLS - (ROWS - 1)))
  }

  /** Rubbing out never moves the window back up. */
  function RubOut(p: Sheet): (r: Sheet)
    requires p.Valid()
    ensures r.Valid()
  {
    if |p.text| == COLS * p.top then p else p.(text := p.text[..|p.text| - 1])
  }

  function PaperCell(p: Sheet, i: nat): Byte {
    if COLS * p.top + i < |p.text| then p.text[COLS * p.top + i] else SPACE
  }

  /** The screen shows exactly the window: the text rows from `top`, blanks after the cursor. */
  ghost predicate Shows(s: Screen, p: Sheet) {
    && s.Valid() && p.Valid()
    && s.pos == |p.text| - COLS * p.top
    && forall i :: 0 <= i < CELLS ==> s.Cell(i) == PaperCell(p, i)
  }

  /** Scrolling when the cursor leaves the page moves the window down one row. */
  lemma SettleShows(frame: seq<Byte>, pos: int, p: Sheet)
    requires |frame| == FRAME_SIZE && 0 <= pos == |p.text| - COLS * p.top <= CELLS
    requires forall i :: 0 <= i < CELLS ==> frame[2 * i] == PaperCell(p, i)
    ensures Shows(Settle(frame, pos), Sheet(p.text, Max(p.top, |p.text| / COLS - (ROWS - 1))))
  {
    var r := Settle(frame, pos);
    var q := Sheet(p.text, Max(p.top, |p.text| / COLS - (ROWS - 1)));
    if pos == CELLS {
      assert q.top == p.top + 1;
      forall i | 0 <= i < CELLS
        ensures r.Cell(i) == PaperCell(q, i)
      {
        if i < CELLS - COLS {
          assert frame[2 * (i + COLS)] == PaperCell(p, i + COLS);
        }
      }
    } else {
      assert q.top == p.top;
    }
  }

  lemma PutShows(s: Screen, p: Sheet, c: Byte)
    requires Shows(s, p)
    ensures Shows(Put(s, c), Write(p, c))
  {
    hide Settle;
    var q := Sheet(Advance(p.text, c), p.top);
    var frame := if IsNewline(c) then s.frame else SetCell(s.frame, s.pos, c);
    var pos := if IsNewline(c) then (s.pos / COLS + 1) * COLS else s.pos + 1;
    forall i | 0 <= i < CELLS
      ensures frame[2 * i] == PaperCell(q, i)
    {
      assert s.Cell(i) == PaperCell(p, i);
    }
    SettleShows(frame, pos, q);
  }

  lemma EraseShows(s: Screen, p: Sheet)
    requires Shows(s, p)
    ensures Shows(Erase(s), RubOut(p))
  {
    var r := Erase(s);
    var q := RubOut(p);
    forall i | 0 <= i < CELLS
      ensures r.Cell(i) == PaperCell(q, i)
    {
      assert s.Cell(i) == PaperCell(p, i);
    }
  }

  lemma WipeShows(s: Screen)
    requires s.Valid()
    ensures Shows(Wipe(s), EMPTY)
  {
  }

  function PutAll(s: Screen, cs: seq<Byte>): (r: Screen)
    requires s.Valid()
    ensures r.Valid()
  {
    if cs == [] then s else Put(PutAll(s, cs[..|cs| - 1]), cs[|cs| - 1])
  }

  /** The whole string laid out on unbounded paper. */
  function Layout(cs: seq<Byte>): seq<Byte> {
    if cs == [] then [] else Advance(Layout(cs[..|cs| - 1]), cs[|cs| - 1])
  }

  /** After any string at all, a cleared screen shows the bottom 25 rows of its layout. */
  lemma {:induction false} ScreenIsBottomOfLayout(s: Screen, cs: seq<Byte>)
    requires s.Valid()
    ensures var text := Layout(cs);
            Shows(PutAll(Wipe(s), cs), Sheet(text, Max(0, |text| / COLS - (ROWS - 1))))
  {
    if cs == [] {
      WipeShows(s);
    } else {
      var cs' := cs[..|cs| - 1];
      ScreenIsBottomOfLayout(s, cs');
      var text := Layout(cs');
      PutShows(PutAll(Wipe(s), cs'), Sheet(text, Max(0, |text| / COLS - (ROWS - 1))), cs[|cs| - 1]);
    }
  }
}
