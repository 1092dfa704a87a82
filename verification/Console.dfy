/** What one stand-alone 80x25 text terminal shows: the meaning that putc, handlebackspace and clear are proved against.
  * A frame is the 4096-byte page the terminal owns, two bytes a cell; the cursor is the index of its cell. */
module Console {
  import opened Bytes

  const COLS := 80
  const ROWS := 25
  const CELLS := 2000
  const FRAME_SIZE := 4096
  const ATTRIB: Byte := 7

  datatype Screen = Screen(frame: seq<Byte>, pos: int) {
    predicate Valid() {
      |frame| == FRAME_SIZE && 0 <= pos < CELLS
    }

    function Cell(i: int): Byte
      requires Valid() && 0 <= i < CELLS
    {
      frame[2 * i]
    }
  }

  predicate IsNewline(c: Byte) {
    c == NEWLINE || c == RETURN
  }

  function SetCell(frame: seq<Byte>, i: int, c: Byte): (r: seq<Byte>)
    requires |frame| == FRAME_SIZE && 0 <= i < CELLS
    ensures |r| == FRAME_SIZE
  {
    frame[2 * i := c][2 * i + 1 := ATTRIB]
  }

  /** Every row moves up one; the bottom row becomes blank. */
  function ScrolledByte(frame: seq<Byte>, k: int): Byte
    requires |frame| == FRAME_SIZE && 0 <= k < FRAME_SIZE
  {
    if k >= 2 * CELLS then frame[k]
    else if k % 2 == 1 then ATTRIB
    else if k < 2 * (CELLS - COLS) then frame[k + 2 * COLS]
    else SPACE
  }

  function ScrollUp(frame: seq<Byte>): (r: seq<Byte>)
    requires |frame| == FRAME_SIZE
    ensures |r| == FRAME_SIZE
  {
    seq(FRAME_SIZE, k requires 0 <= k < FRAME_SIZE => ScrolledByte(frame, k))
  }

  function BlankByte(frame: seq<Byte>, k: int): Byte
    requires |frame| == FRAME_SIZE && 0 <= k < FRAME_SIZE
  {
    if k >= 2 * CELLS then frame[k] else if k % 2 == 1 then ATTRIB else SPACE
  }

  function Blank(frame: seq<Byte>): (r: seq<Byte>)
    requires |frame| == FRAME_SIZE
    ensures |r| == FRAME_SIZE
  {
    seq(FRAME_SIZE, k requires 0 <= k < FRAME_SIZE => BlankByte(frame, k))
  }

  /** Moving the cursor to cell `pos` of the page; one past the last cell means the page scrolls. */
  function Settle(frame: seq<Byte>, pos: int): (r: Screen)
    requires |frame| == FRAME_SIZE && 0 <= pos <= CELLS
    ensures r.Valid()
  {
    if pos == CELLS then Screen(ScrollUp(frame), CELLS - COLS) else Screen(frame, pos)
  }

  function Put(s: Screen, c: Byte): (r: Screen)
    requires s.Valid()
    ensures r.Valid()
  {
    if IsNewline(c) then Settle(s.frame, (s.pos / COLS + 1) * COLS)
    else Settle(SetCell(s.frame, s.pos, c), s.pos + 1)
  }

  function Erase(s: Screen): (r: Screen)
    requires s.Valid()
    ensures r.Valid()
  {
    var p := if s.pos == 0 then 0 else s.pos - 1;
    Screen(SetCell(s.frame, p, SPACE), p)
  }

  function Wipe(s: Screen): (r: Screen)
    requires s.Valid()
    ensures r.Valid()
  {
    Screen(Blank(s.frame), 0)
  }

  // ---------------------------------------------------------------- by rows and columns

  /** A character is drawn light grey at the cursor, which moves right, on to the next row, or with the page up one row;
    * a newline only moves it. */
  lemma PutAt(s: Screen, row: nat, col: nat, c: Byte)
    requires s.Valid() && row < 25 && col < 80 && s.pos == 80 * row + col
    ensures var drawn := if c == 10 || c == 13 then s.frame else s.frame[2 * s.pos := c][2 * s.pos + 1 := 7];
            var below := if c == 10 || c == 13 then 80 * (row + 1) else s.pos + 1;
            Put(s, c) == if below < 2000 then Screen(drawn, below) else Screen(ScrollUp(drawn), 80 * 24)
  {
  }

  /** Rubbing out blanks the cell before the cursor, which moves there. */
  lemma EraseAt(s: Screen)
    requires s.Valid()
    ensures var p := if s.pos == 0 then 0 else s.pos - 1;
            Erase(s) == Screen(s.frame[2 * p := 32][2 * p + 1 := 7], p)
  {
  }

  /** Scrolling moves each row up one and blanks the last; clearing blanks them all. */
  lemma ScrolledCell(frame: seq<Byte>, row: nat, col: nat)
    requires |frame| == 4096 && row < 25 && col < 80
    ensures ScrollUp(frame)[2 * (80 * row + col)] == if row < 24 then frame[2 * (80 * (row + 1) + col)] else 32
    ensures ScrollUp(frame)[2 * (80 * row + col) + 1] == 7
    ensures Blank(frame)[2 * (80 * row + col)] == 32 && Blank(frame)[2 * (80 * row + col) + 1] == 7
    ensures ScrollUp(frame)[4000..] == frame[4000..] && Blank(frame)[4000..] == frame[4000..]
  {
    assert forall k :: 4000 <= k < 4096 ==> ScrollUp(frame)[k] == frame[k] && Blank(frame)[k] == frame[k];
  }

  /** Every cell is light grey on black. */
  ghost predicate Grey(s: Screen)
    requires s.Valid()
  {
    forall i :: 0 <= i < 2000 ==> s.frame[2 * i + 1] == 7
  }
}
