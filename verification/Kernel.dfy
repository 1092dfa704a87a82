/** The terminal multiplexer as the kernel runs it: four page frames of text memory, one page-table entry that decides
  * which frame virtual 0xB8000 reaches, per-terminal records, and one static line buffer shared by all terminals. */
module Kernel {
  import opened Bytes
  import opened Console
  import opened Terminal
  import opened System
  import Keyboard

  const VIDEO := 0xB8000
  const T1_BUFFER := 0xB9000
  const T2_BUFFER := 0xBA000
  const T3_BUFFER := 0xBB000
  const END_OF_BUFFERS := 0xBC000
  const FIRST_CURRENT := 2
  const FIRST_VISIBLE := 0

  class Multiplexer {
    const phys: array<Byte>          // physical memory from VIDEO up to END_OF_BUFFERS
    var pte: int                     // frame behind virtual VIDEO
    var visible: int
    var current: int
    // terminal_t, one entry a terminal: cursor, saved line buffer and how much of it counts
    var screenX: seq<int>
    var screenY: seq<int>
    var lb: seq<seq<Byte>>
    var noc: seq<int>
    // the keyboard driver's static buffer and modifier flags
    const linebuffer: array<Byte>
    var keys: Keyboard.Modifiers
    // lines entered and not yet read
    var terminalbuffer: seq<seq<Byte>>
    var flags: seq<bool>
    var numberofchars: seq<int>

    ghost predicate Displays()
      reads this`visible, this`screenX, this`screenY
    {
      && phys.Length == END_OF_BUFFERS - VIDEO && linebuffer.Length == LINE_SIZE && phys != linebuffer
      && 0 <= visible < TERMINALS
      && |screenX| == |screenY| == TERMINALS
    }

    ghost predicate Shape()
      reads this`pte, this`visible, this`current, this`screenX, this`screenY
    {
      Displays() && VIDEO <= pte <= T3_BUFFER && 0 <= current < TERMINALS
    }

    ghost predicate Buffers()
      reads this`lb, this`noc, this`terminalbuffer, this`flags, this`numberofchars
    {
      && |lb| == |noc| == |terminalbuffer| == |flags| == |numberofchars| == TERMINALS
      && (forall t :: 0 <= t < TERMINALS ==> |lb[t]| == LINE_SIZE && 0 <= noc[t] < LINE_SIZE)
      && (forall t :: 0 <= t < TERMINALS ==> |terminalbuffer[t]| == LINE_SIZE && 0 <= numberofchars[t] < LINE_SIZE)
    }

    ghost predicate Cursors()
      reads this`screenX, this`screenY
    {
      && |screenX| == |screenY| == TERMINALS
      && forall t :: 0 <= t < TERMINALS ==> 0 <= screenX[t] < COLS && 0 <= screenY[t] < ROWS
    }

    ghost predicate WellFormed()
      reads this
    {
      Shape() && Cursors() && Buffers()
    }

    /** Between handlers the mapping reaches the scheduled terminal: real video when it is also the visible one. */
    ghost predicate Valid()
      reads this
    {
      WellFormed() && pte == VIDEO + Home(current)
    }

    /** Offset in phys of the frame that holds terminal t's screen. */
    ghost function Home(t: int): int
      reads this`visible
    {
      if t == visible then 0 else BufferOf(t)
    }

    /** Index in phys behind a virtual address: only the page at VIDEO is remapped. */
    function Index(va: int): int
      reads this`pte
    {
      (if va < VIDEO + FRAME_SIZE then pte + (va - VIDEO) else va) - VIDEO
    }

    ghost function FrameAt(offset: int): (f: seq<Byte>)
      reads phys
      requires 0 <= offset && offset + FRAME_SIZE <= phys.Length
      ensures |f| == FRAME_SIZE
    {
      phys[offset..offset + FRAME_SIZE]
    }

    /** The mapped frame seen with terminal t's cursor. */
    ghost function Mapped(t: int): (s: Screen)
      reads this`pte, this`visible, this`current, this`screenX, this`screenY, phys
      requires Shape() && 0 <= t < TERMINALS
      ensures Cursors() ==> s.Valid()
    {
      Screen(FrameAt(pte - VIDEO), COLS * screenY[t] + screenX[t])
    }

    /** Terminal t's logical screen: real video while it is visible, its own buffer otherwise. */
    ghost function ScreenView(t: int): (s: Screen)
      reads this`visible, this`screenX, this`screenY, phys
      requires Displays() && 0 <= t < TERMINALS
      ensures Cursors() ==> s.Valid()
    {
      Screen(FrameAt(Home(t)), COLS * screenY[t] + screenX[t])
    }

    ghost function LineView(t: int): (l: seq<Byte>)
      reads this`lb, this`noc, this`terminalbuffer, this`flags, this`numberofchars
      requires Buffers() && 0 <= t < TERMINALS
      ensures |l| < LINE_SIZE
    {
      lb[t][..noc[t]]
    }

    ghost function EnteredView(t: int): (e: Entered)
      reads this`lb, this`noc, this`terminalbuffer, this`flags, this`numberofchars
      requires Buffers() && 0 <= t < TERMINALS
      ensures e.Line? ==> |e.text| < LINE_SIZE
    {
      if flags[t] then Line(terminalbuffer[t][..numberofchars[t]]) else Nothing
    }

    ghost function TermView(t: int): (r: Term)
      reads this`visible, this`screenX, this`screenY, phys
      reads this`lb, this`noc, this`terminalbuffer, this`flags, this`numberofchars
      requires Displays() && Buffers() && 0 <= t < TERMINALS
      ensures Cursors() ==> r.Valid()
    {
      Term(ScreenView(t), LineView(t), EnteredView(t))
    }

    ghost function View(): (m: Multi)
      reads this, phys
      requires Shape() && Buffers()
      ensures WellFormed() ==> m.Valid()
    {
      Multi(Control(current, visible, keys), [TermView(0), TermView(1), TermView(2)])
    }

    /** What the user sees is the frame at 0xB8000, the terminal on display; the others wait in the frames behind it. */
    lemma WhereScreensAre(t: int)
      requires WellFormed() && 0 <= t < 3
      ensures View().terms[t].screen.frame ==
                if t == visible then phys[..0x1000] else phys[0x1000 * (t + 1)..0x1000 * (t + 2)]
      ensures View().terms[t].screen.pos == 80 * screenY[t] + screenX[t]
    {
    }

    // -------------------------------------------------------------- boot

    /** init_global_scheduler's tables: terminal 0 on display, terminal 2 nominally scheduled, nothing typed. */
    constructor InitGlobalScheduler(memory: array<Byte>)
      requires memory.Length == END_OF_BUFFERS - VIDEO
      ensures WellFormed() && phys == memory && fresh(linebuffer) && pte == VIDEO
      ensures Control(current, visible, keys) == Control(2, 0, Keyboard.Modifiers(false, false, false, false, false))
      ensures forall t :: 0 <= t < TERMINALS ==> screenX[t] == screenY[t] == 0
      ensures forall t :: 0 <= t < TERMINALS ==> LineView(t) == [] && EnteredView(t) == Nothing
    {
      phys := memory;
      pte := VIDEO;
      linebuffer := new Byte[LINE_SIZE];
      screenX, screenY := [0, 0, 0], [0, 0, 0];
      lb := EmptyLines();
      noc := [0, 0, 0];
      terminalbuffer := EmptyLines();
      flags := [false, false, false];
      numberofchars := [0, 0, 0];
      keys := Keyboard.Modifiers(false, false, false, false, false);
      visible := FIRST_VISIBLE;
      current := FIRST_CURRENT;
    }

    static function EmptyLines(): (r: seq<seq<Byte>>)
      ensures |r| == TERMINALS && forall t :: 0 <= t < TERMINALS ==> |r[t]| == LINE_SIZE
    {
      seq(TERMINALS, t => seq(LINE_SIZE, i => NUL))
    }

    // -------------------------------------------------------------- paging

    method SetWriteToVideomem()
      modifies this`pte
      ensures pte == 0xB8000
    {
      pte := VIDEO;
    }

    method SetWriteToBuffer(buffer: int)
      modifies this`pte
      ensures pte == if 0 <= buffer < 3 then 0xB9000 + 0x1000 * buffer else 0xB9000
    {
      match buffer {
        case 0 => pte := T1_BUFFER;
        case 1 => pte := T2_BUFFER;
        case 2 => pte := T3_BUFFER;
        case _ => pte := T1_BUFFER;
      }
    }

    // -------------------------------------------------------------- the screen, through the mapping

    /** Only the mapped frame differs from `was`. */
    ghost predicate SameOutside(was: seq<Byte>)
      reads this`pte, phys
    {
      var b := pte - VIDEO;
      && 0 <= b <= b + FRAME_SIZE <= phys.Length == |was|
      && phys[..b] == was[..b] && phys[b + FRAME_SIZE..] == was[b + FRAME_SIZE..]
    }

    /** The first n cells of the mapped frame have been scrolled, the rest are untouched. */
    static ghost predicate Shifted(was: seq<Byte>, now: seq<Byte>, b: int, n: int)
      requires |was| == FRAME_SIZE && 0 <= b && b + FRAME_SIZE <= |now|
    {
      forall k :: b <= k < b + FRAME_SIZE ==> now[k] == if k - b < 2 * n then ScrolledByte(was, k - b) else was[k - b]
    }

    /** The pixel loop of scroll and scroll_modified. */
    method ShiftRows()
      requires Shape()
      modifies phys
      ensures FrameAt(pte - VIDEO) == ScrollUp(old(FrameAt(pte - VIDEO)))
      ensures SameOutside(old(phys[..]))
    {
      ghost var was := FrameAt(pte - VIDEO);
      var y := 0;
      while y < ROWS
        invariant 0 <= y <= ROWS
        invariant Shifted(was, phys[..], pte - VIDEO, COLS * y)
        invariant SameOutside(old(phys[..]))
      {
        var x := 0;
        while x < COLS
          invariant 0 <= x <= COLS
          invariant Shifted(was, phys[..], pte - VIDEO, COLS * y + x)
          invariant SameOutside(old(phys[..]))
        {
          ShiftCell(y, x, was);
          x := x + 1;
        }
        y := y + 1;
      }
      assert FrameAt(pte - VIDEO) == ScrollUp(was);
    }

    /** One step of that loop: the cell takes the character of the cell below it, or a blank on the last row. */
    method ShiftCell(y: int, x: int, ghost was: seq<Byte>)
      requires Shape() && |was| == FRAME_SIZE
      requires 0 <= y < ROWS && 0 <= x < COLS
      requires Shifted(was, phys[..], pte - VIDEO, COLS * y + x)
      modifies phys
      ensures Shifted(was, phys[..], pte - VIDEO, COLS * y + x + 1)
      ensures SameOutside(old(phys[..]))
    {
      hide ScrolledByte, Shifted;
      var i := COLS * y + x;
      var j := COLS * (y + 1) + x;
      var v := SPACE;
      if y != ROWS - 1 {
        v := phys[Index(VIDEO + 2 * j)];
      }
      ShiftStep(was, phys[..], pte - VIDEO, i, v);
      phys[Index(VIDEO + 2 * i)] := v;
      phys[Index(VIDEO + 2 * i + 1)] := ATTRIB;
      CellStored(old(phys[..]), phys[..], pte - VIDEO, i, v);
    }

    /** Storing one cell of the page at b. */
    static lemma CellStored(was: seq<Byte>, now: seq<Byte>, b: int, i: int, c: Byte)
      requires |was| == |now| && 0 <= b && b + FRAME_SIZE <= |now| && 0 <= i < CELLS
      requires now == was[b + 2 * i := c][b + 2 * i + 1 := ATTRIB]
      ensures now[..b] == was[..b] && now[b + FRAME_SIZE..] == was[b + FRAME_SIZE..]
      ensures now[b..b + FRAME_SIZE] == SetCell(was[b..b + FRAME_SIZE], i, c)
    {
    }

    static lemma ShiftStep(was: seq<Byte>, now: seq<Byte>, b: int, i: int, v: Byte)
      requires |was| == FRAME_SIZE && 0 <= b && b + FRAME_SIZE <= |now| && 0 <= i < CELLS
      requires Shifted(was, now, b, i)
      requires v == if i < CELLS - COLS then now[b + 2 * (i + COLS)] else SPACE
      ensures Shifted(was, now[b + 2 * i := v][b + 2 * i + 1 := ATTRIB], b, i + 1)
    {
      assert i < CELLS - COLS ==> v == was[2 * (i + COLS)];
    }

    method StoreCell(i: int, c: Byte)
      requires Shape() && 0 <= i < CELLS
      modifies phys
      ensures FrameAt(pte - VIDEO) == SetCell(old(FrameAt(pte - VIDEO)), i, c)
      ensures SameOutside(old(phys[..]))
    {
      phys[Index(VIDEO + 2 * i)] := c;
      phys[Index(VIDEO + 2 * i + 1)] := ATTRIB;
    }

    /** scroll (t visible) and scroll_modified (t scheduled): the same text over two sets of cursor accessors. */
    method ScrollAt(t: int)
      requires Shape() && 0 <= t < TERMINALS
      modifies this`screenX, this`screenY, phys
      ensures FrameAt(pte - VIDEO) == ScrollUp(old(FrameAt(pte - VIDEO)))
      ensures SameOutside(old(phys[..]))
      ensures screenX == old(screenX)[t := 0] && screenY == old(screenY)[t := ROWS - 1]
    {
      ShiftRows();
      screenY := screenY[t := ROWS - 1];
      screenX := screenX[t := 0];
    }

    /** putc writes at the visible terminal's cursor. */
    method Putc(c: Byte)
      requires Shape() && Cursors()
      modifies this`screenX, this`screenY, phys
      ensures Shape() && Cursors()
      ensures Mapped(visible) == Put(old(Mapped(visible)), c)
      ensures SameOutside(old(phys[..])) && OtherCursorsKept(visible, old(screenX), old(screenY))
    {
      PutAt(visible, c);
    }

    /** putc_modified writes at the scheduled terminal's cursor. */
    method PutcModified(c: Byte)
      requires Shape() && Cursors()
      modifies this`screenX, this`screenY, phys
      ensures Shape() && Cursors()
      ensures Mapped(current) == Put(old(Mapped(current)), c)
      ensures SameOutside(old(phys[..])) && OtherCursorsKept(current, old(screenX), old(screenY))
    {
      PutAt(current, c);
    }

    /** The common text of the two: a character through the mapping, at terminal t's cursor. */
    method PutAt(t: int, c: Byte)
      requires Shape() && Cursors() && 0 <= t < TERMINALS
      modifies this`screenX, this`screenY, phys
      ensures Shape() && Cursors()
      ensures Mapped(t) == Put(old(Mapped(t)), c)
      ensures SameOutside(old(phys[..])) && OtherCursorsKept(t, old(screenX), old(screenY))
    {
      hide FrameAt, ScrollUp, SetCell, Put;
      if c == NEWLINE || c == RETURN {
        NewlineLanding(Mapped(t).frame, screenX[t], screenY[t], c);
        NewLine(t);
      } else {
        GlyphLanding(Mapped(t).frame, screenX[t], screenY[t], c);
        StoreCell(COLS * screenY[t] + screenX[t], c);
        NextColumn(t);
      }
    }

    method NewLine(t: int)
      requires Shape() && Cursors() && 0 <= t < TERMINALS
      modifies this`screenX, this`screenY, phys
      ensures FrameAt(pte - VIDEO) == var f := old(FrameAt(pte - VIDEO));
                if old(screenY[t]) == ROWS - 1 then ScrollUp(f) else f
      ensures screenX == old(screenX)[t := 0]
      ensures screenY == old(screenY)[t := NextRow(COLS, old(screenY[t]))]
      ensures SameOutside(old(phys[..]))
    {
      hide FrameAt, ScrollUp;
      screenY := screenY[t := screenY[t] + 1];
      if !(screenY[t] < ROWS) {
        ScrollAt(t);
      }
      screenX := screenX[t := 0];
    }

    /** The cursor arithmetic after a character is stored. */
    method NextColumn(t: int)
      requires Shape() && Cursors() && 0 <= t < TERMINALS
      modifies this`screenX, this`screenY, phys
      ensures FrameAt(pte - VIDEO) == var f := old(FrameAt(pte - VIDEO));
                if old(screenX[t] == COLS - 1 && screenY[t] == ROWS - 1) then ScrollUp(f) else f
      ensures screenX == old(screenX)[t := if old(screenX[t]) == COLS - 1 then 0 else old(screenX[t]) + 1]
      ensures screenY == old(screenY)[t := NextRow(old(screenX[t]), old(screenY[t]))]
      ensures SameOutside(old(phys[..]))
    {
      hide FrameAt, ScrollUp;
      screenX := screenX[t := screenX[t] + 1];
      if !(screenX[t] < COLS) {
        screenY := screenY[t := screenY[t] + 1];
        if !(screenY[t] < ROWS) {
          ScrollAt(t);
        } else {
          screenX := screenX[t := 0];
        }
      } else {
        screenX := screenX[t := screenX[t] % COLS];
      }
      if !(screenY[t] < ROWS) {
        assert false;  // the source scrolls again here: never reached
      } else {
        screenY := screenY[t := (screenY[t] + screenX[t] / COLS) % ROWS];
      }
    }

    static ghost function NextRow(x: int, y: int): int {
      if x < COLS - 1 || y == ROWS - 1 then y else y + 1
    }

    /** Where Put leaves the cursor, by rows and columns. */
    static lemma NewlineLanding(frame: seq<Byte>, x: int, y: int, c: Byte)
      requires |frame| == FRAME_SIZE && 0 <= x < COLS && 0 <= y < ROWS && IsNewline(c)
      ensures Put(Screen(frame, COLS * y + x), c) ==
              Screen(if y == ROWS - 1 then ScrollUp(frame) else frame, COLS * NextRow(COLS, y))
    {
      assert (COLS * y + x) / COLS == y;
    }

    static lemma GlyphLanding(frame: seq<Byte>, x: int, y: int, c: Byte)
      requires |frame| == FRAME_SIZE && 0 <= x < COLS && 0 <= y < ROWS && !IsNewline(c)
      ensures Put(Screen(frame, COLS * y + x), c) ==
              var f := SetCell(frame, COLS * y + x, c);
              Screen(if x == COLS - 1 && y == ROWS - 1 then ScrollUp(f) else f,
                     COLS * NextRow(x, y) + if x == COLS - 1 then 0 else x + 1)
    {
    }

    ghost predicate OtherCursorsKept(t: int, xs: seq<int>, ys: seq<int>)
      reads this`screenX, this`screenY
    {
      && 0 <= t < |xs| == |screenX| && screenX == xs[t := screenX[t]]
      && 0 <= t < |ys| == |screenY| && screenY == ys[t := screenY[t]]
    }

    method HandleBackspace()
      requires Shape() && Cursors()
      modifies this`screenX, this`screenY, phys
      ensures Shape() && Cursors()
      ensures Mapped(visible) == Erase(old(Mapped(visible)))
      ensures SameOutside(old(phys[..])) && OtherCursorsKept(visible, old(screenX), old(screenY))
    {
      hide FrameAt, SetCell;
      CursorBack();
      StoreCell(COLS * screenY[visible] + screenX[visible], SPACE);
    }

    /** handlebackspace, the cursor: back one cell, and nowhere from the first. */
    method CursorBack()
      requires Shape() && Cursors()
      modifies this`screenX, this`screenY
      ensures Shape() && Cursors() && OtherCursorsKept(visible, old(screenX), old(screenY))
      ensures COLS * screenY[visible] + screenX[visible] ==
                Max(0, old(COLS * screenY[visible] + screenX[visible]) - 1)
    {
      if screenX[visible] - 1 < 0 {
        if screenY[visible] != 0 {
          screenY := screenY[visible := screenY[visible] - 1];
          screenX := screenX[visible := COLS - 1];
        }
      } else {
        screenX := screenX[visible := screenX[visible] - 1];
      }
    }

    method Clear()
      requires Shape()
      modifies phys
      ensures FrameAt(pte - VIDEO) == Blank(old(FrameAt(pte - VIDEO)))
      ensures SameOutside(old(phys[..]))
    {
      ghost var was := FrameAt(pte - VIDEO);
      var i := 0;
      while i < ROWS * COLS
        invariant 0 <= i <= ROWS * COLS
        invariant Cleared(was, i)
        invariant SameOutside(old(phys[..]))
      {
        ClearCell(i, was);
        i := i + 1;
      }
      assert FrameAt(pte - VIDEO) == Blank(was);
    }

    ghost predicate Cleared(was: seq<Byte>, n: int)
      reads this, phys
      requires Shape() && |was| == FRAME_SIZE
    {
      forall k :: pte - VIDEO <= k < pte - VIDEO + FRAME_SIZE ==>
        phys[k] == if k - (pte - VIDEO) < 2 * n then BlankByte(was, k - (pte - VIDEO)) else was[k - (pte - VIDEO)]
    }

    method ClearCell(i: int, ghost was: seq<Byte>)
      requires Shape() && |was| == FRAME_SIZE && 0 <= i < CELLS && Cleared(was, i)
      modifies phys
      ensures Cleared(was, i + 1) && SameOutside(old(phys[..]))
    {
      ghost var b := pte - VIDEO;
      phys[Index(VIDEO + 2 * i)] := SPACE;
      phys[Index(VIDEO + 2 * i + 1)] := ATTRIB;
      assert phys[b + 2 * i] == BlankByte(was, 2 * i) && phys[b + 2 * i + 1] == BlankByte(was, 2 * i + 1);
      assert forall k :: 0 <= k < phys.Length && k != b + 2 * i && k != b + 2 * i + 1 ==> phys[k] == old(phys[k]);
    }

    /** A change confined to terminal t's frame and cursor is invisible from every other terminal. */
    twostate lemma OneScreenChanged(t: int)
      requires old(Shape()) && Shape() && 0 <= t < TERMINALS
      requires old(visible) == visible && old(pte) == pte == VIDEO + Home(t)
      requires SameOutside(old(phys[..])) && OtherCursorsKept(t, old(screenX), old(screenY))
      ensures ScreenView(t) == Mapped(t)
      ensures old(ScreenView(t)) == old(Mapped(t))
      ensures forall u :: 0 <= u < TERMINALS && u != t ==> ScreenView(u) == old(ScreenView(u))
    {
      forall u | 0 <= u < TERMINALS && u != t
        ensures ScreenView(u) == old(ScreenView(u))
      {
        PageKept(old(phys[..]), phys[..], Home(t), Home(u));
      }
    }

    static lemma PageKept(was: seq<Byte>, now: seq<Byte>, d: int, s: int)
      requires |was| == |now| && 0 <= d <= d + FRAME_SIZE <= |was| && 0 <= s <= s + FRAME_SIZE <= |was|
      requires now[..d] == was[..d] && now[d + FRAME_SIZE..] == was[d + FRAME_SIZE..]
      requires s + FRAME_SIZE <= d || d + FRAME_SIZE <= s
      ensures now[s..s + FRAME_SIZE] == was[s..s + FRAME_SIZE]
    {
      forall k | s <= k < s + FRAME_SIZE
        ensures now[k] == was[k]
      {
        if s + FRAME_SIZE <= d {
          assert now[k] == now[..d][k];
        } else {
          assert now[k] == now[d + FRAME_SIZE..][k - (d + FRAME_SIZE)];
        }
      }
    }

    // -------------------------------------------------------------- switching

    /** memcpy of one page between virtual addresses. */
    method CopyPage(to: int, from: int)
      requires Shape() && IsPage(to) && IsPage(from) && IsPage(pte) && Index(to) != Index(from)
      modifies phys
      ensures FrameAt(Index(to)) == old(FrameAt(Index(from)))
      ensures phys[..Index(to)] == old(phys[..Index(to)])
      ensures phys[Index(to) + FRAME_SIZE..] == old(phys[Index(to) + FRAME_SIZE..])
    {
      hide IsPage;
      ghost var was := phys[..];
      ghost var d, s := Index(to), Index(from);
      PagesApart(to, from);
      var k := 0;
      while k < FRAME_SIZE
        invariant 0 <= k <= FRAME_SIZE
        invariant forall j :: 0 <= j < phys.Length && !(d <= j < d + k) ==> phys[j] == was[j]
        invariant forall j :: d <= j < d + k ==> phys[j] == was[j - d + s]
      {
        IndexMoves(to, k);
        IndexMoves(from, k);
        phys[Index(to + k)] := phys[Index(from + k)];
        k := k + 1;
      }
      PageCopied(was, phys[..], d, s);
    }

    lemma PagesApart(to: int, from: int)
      requires IsPage(to) && IsPage(from) && IsPage(pte) && Index(to) != Index(from)
      ensures 0 <= Index(to) <= 3 * FRAME_SIZE && 0 <= Index(from) <= 3 * FRAME_SIZE
      ensures Index(to) + FRAME_SIZE <= Index(from) || Index(from) + FRAME_SIZE <= Index(to)
    {
    }

    lemma IndexMoves(page: int, k: int)
      requires IsPage(page) && 0 <= k < FRAME_SIZE
      ensures Index(page + k) == Index(page) + k
    {
    }

    static lemma PageCopied(was: seq<Byte>, now: seq<Byte>, d: int, s: int)
      requires |was| == |now| && 0 <= d <= d + FRAME_SIZE <= |was| && 0 <= s <= s + FRAME_SIZE <= |was|
      requires forall j :: 0 <= j < |now| && !(d <= j < d + FRAME_SIZE) ==> now[j] == was[j]
      requires forall j :: d <= j < d + FRAME_SIZE ==> now[j] == was[j - d + s]
      ensures now[d..d + FRAME_SIZE] == was[s..s + FRAME_SIZE]
      ensures now[..d] == was[..d] && now[d + FRAME_SIZE..] == was[d + FRAME_SIZE..]
    {
    }

    /** What happens to the terminals, whoever is visible: only t changes, by op. */
    twostate predicate Applied(t: int, op: Op)
      requires old(WellFormed()) && WellFormed() && 0 <= t < TERMINALS
      reads this, phys
    {
      forall u :: 0 <= u < TERMINALS ==>
        TermView(u) == if u == t then Apply(old(TermView(u)), op) else old(TermView(u))
    }

    twostate predicate Untouched()
      requires old(WellFormed()) && WellFormed()
      reads this, phys
    {
      forall u :: 0 <= u < TERMINALS ==> TermView(u) == old(TermView(u))
    }

    /** After saving the visible frame and loading the next one, each terminal's home holds what its old home held. */
    static lemma FramesSwapped(p0: seq<Byte>, p1: seq<Byte>, p2: seq<Byte>, prev: int, next: int)
      requires |p0| == |p1| == |p2| == END_OF_BUFFERS - VIDEO
      requires 0 <= prev < TERMINALS && 0 <= next < TERMINALS && prev != next
      requires var d := BufferOf(prev);
               p1[d..d + FRAME_SIZE] == p0[..FRAME_SIZE] && p1[..d] == p0[..d]
                   && p1[d + FRAME_SIZE..] == p0[d + FRAME_SIZE..]
      requires var s := BufferOf(next);
               p2[..FRAME_SIZE] == p1[s..s + FRAME_SIZE] && p2[FRAME_SIZE..] == p1[FRAME_SIZE..]
      ensures forall u :: 0 <= u < TERMINALS ==>
                var h0 := if u == prev then 0 else BufferOf(u);
                var h2 := if u == next then 0 else BufferOf(u);
                p2[h2..h2 + FRAME_SIZE] == p0[h0..h0 + FRAME_SIZE]
    {
      forall u | 0 <= u < TERMINALS
        ensures var h0 := if u == prev then 0 else BufferOf(u);
                var h2 := if u == next then 0 else BufferOf(u);
                p2[h2..h2 + FRAME_SIZE] == p0[h0..h0 + FRAME_SIZE]
      {
        if u != prev {
          PageKept(p0, p1, BufferOf(prev), BufferOf(u));
        }
        if u != next {
          PageKept(p1, p2, 0, BufferOf(u));
        }
      }
    }

    static ghost function BufferOf(t: int): int {
      FRAME_SIZE * (t + 1)
    }

    method SwitchTerminals(next: int)
      requires WellFormed() && pte == VIDEO && 0 <= next < TERMINALS
      modifies this`visible, this`pte, phys
      ensures WellFormed() && visible == next
      ensures Untouched()
      ensures pte == if next == old(visible) || next == current then VIDEO else VIDEO + Home(current)
    {
      hide FrameAt;
      var prev := visible;
      if next == prev {
        return;
      }
      visible := next;
      SetWriteToVideomem();
      SwapFrames(prev, next);
      if current != visible {
        SetWriteToBuffer(current);
      }
      assert forall u :: 0 <= u < TERMINALS ==> ScreenView(u) == old(ScreenView(u));
    }

    /** The two page copies of switch_terminals. */
    method SwapFrames(prev: int, next: int)
      requires Shape() && pte == VIDEO && 0 <= prev < TERMINALS && 0 <= next < TERMINALS && prev != next
      modifies phys
      ensures forall u :: 0 <= u < TERMINALS ==>
                FrameAt(if u == next then 0 else BufferOf(u)) == old(FrameAt(if u == prev then 0 else BufferOf(u)))
    {
      CopyPage(T1_BUFFER + FRAME_SIZE * prev, VIDEO);
      label saved:
      CopyPage(VIDEO, T1_BUFFER + FRAME_SIZE * next);
      FramesSwapped(old(phys[..]), old@saved(phys[..]), phys[..], prev, next);
    }

    // -------------------------------------------------------------- the keyboard driver

    /** Inside check_input: real video is mapped and the static buffer holds the visible terminal's line. */
    ghost predicate Editing(n: int)
      reads this, linebuffer
    {
      WellFormed() && pte == VIDEO && n == noc[visible] && linebuffer[..n] == LineView(visible)
    }

    method SetLineBuffer()
      requires Shape() && Buffers()
      modifies linebuffer
      ensures linebuffer[..noc[visible]] == LineView(visible)
    {
      forall i | 0 <= i < noc[visible] {
        linebuffer[i] := lb[visible][i];
      }
    }

    method SetGlobalBuffer(numberofchars: int)
      requires Shape() && Buffers() && 0 <= numberofchars < LINE_SIZE
      modifies this`noc, this`lb
      ensures Buffers()
      ensures LineView(visible) == linebuffer[..numberofchars]
      ensures forall u :: 0 <= u < TERMINALS && u != visible ==> LineView(u) == old(LineView(u))
      ensures forall u :: 0 <= u < TERMINALS ==> EnteredView(u) == old(EnteredView(u))
      ensures noc[visible] == numberofchars
    {
      noc := noc[visible := numberofchars];
      lb := lb[visible := linebuffer[..numberofchars] + lb[visible][numberofchars..]];
      assert lb[visible][..numberofchars] == linebuffer[..numberofchars];
    }

    /** Each of the three places that accept a character. */
    method Accept(c: Byte, n: int)
      requires Editing(n) && n != LINE_SIZE - 1
      modifies this`screenX, this`screenY, this`noc, this`lb, phys, linebuffer
      ensures WellFormed() && Applied(visible, Type(c))
    {
      hide FrameAt, Put;
      linebuffer[n] := c;
      Putc(c);
      OneScreenChanged(visible);
      SetGlobalBuffer(n + 1);
      assert linebuffer[..n + 1] == old(linebuffer[..n]) + [c];
    }

    method Backspace(n: int)
      requires Editing(n)
      modifies this`screenX, this`screenY, this`noc, this`lb, phys, linebuffer
      ensures WellFormed() && Applied(visible, RubOut)
    {
      hide FrameAt, Erase;
      if n != 0 {
        HandleBackspace();
        OneScreenChanged(visible);
        linebuffer[n] := NUL;
        SetGlobalBuffer(n - 1);
        assert linebuffer[..n - 1] == old(linebuffer[..n])[..n - 1];
      }
    }

    /** set_terminal_buffer: the line goes to the visible terminal's own buffer, not to a common one. */
    method SetTerminalBuffer(nchars: int)
      requires Shape() && Buffers() && 0 <= nchars < LINE_SIZE
      modifies this`terminalbuffer, this`numberofchars, this`flags
      ensures Buffers()
      ensures EnteredView(visible) == Line(linebuffer[..nchars])
      ensures forall u :: 0 <= u < TERMINALS && u != visible ==> EnteredView(u) == old(EnteredView(u))
      ensures forall u :: 0 <= u < TERMINALS ==> LineView(u) == old(LineView(u))
    {
      var row: seq<Byte> := seq(LINE_SIZE, i => NUL);
      var i := 0;
      while i < nchars
        invariant 0 <= i <= nchars && |row| == LINE_SIZE
        invariant row[..i] == linebuffer[..i]
      {
        row := row[i := linebuffer[i]];
        i := i + 1;
      }
      row := row[nchars := NEWLINE];
      terminalbuffer := terminalbuffer[visible := row];
      numberofchars := numberofchars[visible := nchars];
      flags := flags[visible := true];
      assert row[..nchars] == linebuffer[..nchars];
    }

    method EnterLine(n: int)
      requires Editing(n)
      modifies this`screenX, this`screenY, this`noc, this`lb, phys, linebuffer
      modifies this`terminalbuffer, this`numberofchars, this`flags
      ensures WellFormed() && Applied(visible, Enter)
    {
      hide FrameAt, Put, Cursors;
      Putc(NEWLINE);
      OneScreenChanged(visible);
      SubmitLine(n);
    }

    method SubmitLine(n: int)
      requires Shape() && Buffers() && n == noc[visible] && linebuffer[..n] == LineView(visible)
      modifies this`noc, this`lb, this`terminalbuffer, this`numberofchars, this`flags, linebuffer
      ensures Buffers() && LineView(visible) == [] && EnteredView(visible) == Line(old(LineView(visible)))
      ensures forall u :: 0 <= u < TERMINALS && u != visible ==>
                LineView(u) == old(LineView(u)) && EnteredView(u) == old(EnteredView(u))
    {
      linebuffer[n] := NEWLINE;
      assert linebuffer[..n] == old(linebuffer[..n]);
      SetTerminalBuffer(n);
      ResetLineBuffer();
      SetGlobalBuffer(0);
    }

    method ClearVisible(n: int)
      requires Editing(n)
      modifies this`screenX, this`screenY, this`noc, this`lb, phys, linebuffer
      ensures WellFormed() && Applied(visible, ClearScreen)
    {
      hide FrameAt, Wipe;
      ClearAndHome();
      OneScreenChanged(visible);
      ResetLineBuffer();
      SetGlobalBuffer(0);
    }

    /** clear, then setposition(0, 0). */
    method ClearAndHome()
      requires Shape() && Cursors()
      modifies this`screenX, this`screenY, phys
      ensures Shape() && Cursors()
      ensures Mapped(visible) == Wipe(old(Mapped(visible)))
      ensures SameOutside(old(phys[..])) && OtherCursorsKept(visible, old(screenX), old(screenY))
    {
      hide FrameAt, Blank;
      Clear();
      screenX := screenX[visible := 0];
      screenY := screenY[visible := 0];
    }

    method ResetLineBuffer()
      modifies linebuffer
      ensures forall i :: 0 <= i < linebuffer.Length ==> linebuffer[i] == NUL
    {
      forall i | 0 <= i < linebuffer.Length {
        linebuffer[i] := NUL;
      }
    }

    /** The shift branch's choice of character; a key it does not know leaves `temp` as it was. */
    method ShiftCharacter(c: char, junk: Byte) returns (temp: Byte)
      ensures temp == if c in Keyboard.SHIFTED then Keyboard.SHIFTED[c] as int else junk
    {
      temp := junk;
      if '1' <= c <= '9' {
        ShiftedDigit(c);
        var x := c as int - '0' as int;
        temp := SHIFTED_DIGITS[x];
      } else {
        match c
        case '-' => temp := '_' as int;
        case '=' => temp := '+' as int;
        case '[' => temp := '{' as int;
        case ']' => temp := '}' as int;
        case '`' => temp := '~' as int;
        case '\\' => temp := '|' as int;
        case ';' => temp := ':' as int;
        case '\'' => temp := '\"' as int;
        case ',' => temp := '<' as int;
        case '.' => temp := '>' as int;
        case '/' => temp := '?' as int;
        case '0' => temp := ')' as int;
        case _ =>
      }
    }

    static lemma ShiftedDigit(c: char)
      requires '1' <= c <= '9'
      ensures c in Keyboard.SHIFTED && Keyboard.SHIFTED[c] as int == SHIFTED_DIGITS[c as int - '0' as int]
    {
    }

    /** Terminal contents and display after a key with this effect. */
    twostate predicate HasEffect(effect: Keyboard.Effect)
      requires old(WellFormed()) && WellFormed()
      reads this, phys
    {
      match effect
      case NoEffect => visible == old(visible) && Untouched()
      case Show(t) => visible == t && Untouched()
      case Edit(op) => visible == old(visible) && Applied(visible, op)
    }

    /** Every key but the modifiers, backspace and enter. */
    method OtherKey(a: Byte, junk: Byte, n0: int)
      requires Editing(n0) && !Keyboard.IsModifier(a) && a != Keyboard.BACKSPACE && a != Keyboard.ENTER
      modifies this`visible, this`pte, this`screenX, this`screenY, this`noc, this`lb, phys, linebuffer
      ensures WellFormed() && HasEffect(Keyboard.Decode(keys, a, junk))
      ensures current == visible ==> pte == VIDEO
    {
      hide TermView, Apply, Keyboard.KeyChar, Keyboard.Typed;
      var n := n0;
      if Keyboard.F1 <= a <= Keyboard.F3 {
        Keyboard.FunctionKeysTypeNothing(keys, a, junk);
      }
      if keys.alt {
        if a == Keyboard.F2 {
          SwitchTerminals(1);
        } else if a == Keyboard.F3 {
          SwitchTerminals(2);
        } else if a == Keyboard.F1 {
          SwitchTerminals(0);
        }
        n := noc[visible];
      }
      TypeKey(Keyboard.KeyChar(a), junk, n);
    }

    /** A full line takes no more characters. */
    lemma FullLine()
      requires WellFormed()
      ensures noc[visible] == LINE_SIZE - 1 ==>
                forall c :: Apply(TermView(visible), Type(c)) == TermView(visible)
    {
    }

    method TypeKey(c: char, junk: Byte, n: int)
      requires Editing(n) || c == '\0'
      requires WellFormed() && c as int < 128
      modifies this`screenX, this`screenY, this`noc, this`lb, phys, linebuffer
      ensures WellFormed() && HasEffect(Keyboard.Typed(keys, c, junk))
    {
      hide TermView, Apply, Cursors, Buffers;
      if c != '\0' {
        FullLine();
      }
      if (keys.caps || keys.leftShift || keys.rightShift) && 'a' <= c <= 'z' {
        var temp: char;
        if keys.caps && (keys.leftShift || keys.rightShift) {
          temp := c;
        } else {
          temp := (c as int - 32) as char;
        }
        if temp == 'L' && keys.control {
          ClearVisible(n);
        } else if n != LINE_SIZE - 1 {
          Accept(temp as int, n);
        }
      } else if keys.leftShift || keys.rightShift {
        if c != '\0' && n != LINE_SIZE - 1 {
          var temp := ShiftCharacter(c, junk);
          Accept(temp, n);
        }
      } else if c != '\0' && n != LINE_SIZE - 1 {
        Accept(c as int, n);
      }
    }

    /** The modifier cases of check_input's switch. */
    method ModifierKey(a: Byte)
      requires Keyboard.IsModifier(a)
      modifies this`keys
      ensures keys == Keyboard.Press(old(keys), a)
    {
      match a {
        case 0x2A => keys := keys.(leftShift := true);
        case 0xAA => keys := keys.(leftShift := false);
        case 0x36 => keys := keys.(rightShift := true);
        case 0xB6 => keys := keys.(rightShift := false);
        case 0x1D => keys := keys.(control := true);
        case 0x9D => keys := keys.(control := false);
        case 0x38 => keys := keys.(alt := true);
        case 0xB8 => keys := keys.(alt := false);
        case _ => keys := keys.(caps := !keys.caps);
      }
    }

    /** check_input's switch. */
    method HandleKey(a: Byte, junk: Byte, n: int)
      requires Editing(n)
      modifies this, phys, linebuffer
      ensures WellFormed() && HasEffect(Keyboard.Decode(old(keys), a, junk))
      ensures keys == Keyboard.Press(old(keys), a) && current == old(current)
      ensures current == visible ==> pte == VIDEO
    {
      hide TermView, Keyboard.Decode, Keyboard.Press, Keyboard.IsModifier, Apply, FrameAt, Cursors, Buffers;
      Keyboard.SpecialKeys(keys, a, junk);
      if Keyboard.IsModifier(a) {
        ModifierKey(a);
      } else if a == Keyboard.BACKSPACE {
        Backspace(n);
      } else if a == Keyboard.ENTER {
        EnterLine(n);
      } else {
        OtherKey(a, junk, n);
      }
    }

    /** check_input: one keyboard interrupt. The table has no entry for scancode 255. */
    method CheckInput(a: Byte, junk: Byte)
      requires WellFormed() && a != 255
      modifies this, phys, linebuffer
      ensures Valid()
      ensures View() == Step(old(View()), Key(a, junk))
    {
      hide TermView, Keyboard.Decode, Keyboard.Press, Apply, FrameAt, Step, Cursors;
      var n := noc[visible];
      SetLineBuffer();
      SetWriteToVideomem();
      HandleKey(a, junk, n);
      if current != visible {
        SetWriteToBuffer(current);
      }
      KeyStep(old(View()), View(), a, junk);
    }

    // -------------------------------------------------------------- the scheduler and the terminal driver

    /** The display half of scheduler_next. */
    method SchedulerNext()
      requires WellFormed()
      modifies this`current, this`pte
      ensures Valid()
      ensures View() == Step(old(View()), Tick)
      ensures current == (old(current) + 1) % 3
      ensures pte == if current == visible then 0xB8000 else 0xB9000 + 0x1000 * current
    {
      hide TermView, Step;
      current := (current + 1) % TERMINALS;
      if current == visible {
        SetWriteToVideomem();
      } else {
        SetWriteToBuffer(current);
      }
      TickStep(old(View()), View());
    }

    /** One character of terminal_write. */
    method EmitCharacter(c: Byte)
      requires Valid()
      modifies this`screenX, this`screenY, phys
      ensures Valid()
      ensures View() == Step(old(View()), Emit(c))
    {
      hide FrameAt, Put, Step;
      PutcModified(c);
      OneScreenChanged(current);
      assert Applied(current, Output(c));
      ProgramStep(old(View()), View(), Emit(c), Output(c));
    }

    method TerminalWrite(buf: array<Byte>, nbytes: int) returns (r: int)
      requires Valid() && nbytes <= buf.Length && buf != phys
      modifies this`screenX, this`screenY, phys
      ensures Valid() && r == 0
      ensures var text := if nbytes < 0 then [] else buf[..nbytes];
              View() == System.Run(old(View()), Emits(text))
    {
      hide TermView, Step;
      var i := 0;
      while i < nbytes
        invariant 0 <= i && (i <= nbytes || nbytes < 0 == i)
        invariant Valid() && View() == System.Run(old(View()), Emits(buf[..i]))
      {
        EmitCharacter(buf[i]);
        EmitsSnoc(buf[..i], buf[i]);
        assert buf[..i + 1] == buf[..i] + [buf[i]];
        i := i + 1;
      }
      return 0;
    }

    /** terminal_read once a line is there; it spins until then. The line is copied whatever nbytes says. */
    method TerminalRead(buffer: array<Byte>, nbytes: int) returns (r: int)
      requires Valid() && flags[current]
      requires buffer != phys && 0 <= nbytes <= buffer.Length && numberofchars[current] < buffer.Length
      modifies this`terminalbuffer, this`numberofchars, this`flags, buffer
      ensures Valid()
      ensures View() == Step(old(View()), Receive)
      ensures var text := old(EnteredView(current)).text;
              r == |text| + 1 && buffer[..r] == text + [10]
      ensures forall k :: r <= k < buffer.Length ==> buffer[k] == if k < nbytes then NUL else old(buffer[k])
    {
      hide TermView, Step;
      CopyLine(buffer, nbytes);
      r := numberofchars[current] + 1;
      FetchLine();
    }

    /** The line is gone once it is read. */
    method FetchLine()
      requires Valid()
      modifies this`terminalbuffer, this`numberofchars, this`flags
      ensures Valid() && View() == Step(old(View()), Receive)
    {
      hide FrameAt, ScreenView, Step;
      ForgetEntered();
      assert Applied(current, Fetch);
      ProgramStep(old(View()), View(), Receive, Fetch);
    }

    method ForgetEntered()
      requires Shape() && Buffers()
      modifies this`terminalbuffer, this`numberofchars, this`flags
      ensures Buffers() && EnteredView(current) == Nothing
      ensures forall u :: 0 <= u < TERMINALS ==> LineView(u) == old(LineView(u))
      ensures forall u :: 0 <= u < TERMINALS && u != current ==> EnteredView(u) == old(EnteredView(u))
    {
      terminalbuffer := terminalbuffer[current := seq(LINE_SIZE, k => NUL)];
      numberofchars := numberofchars[current := 0];
      flags := flags[current := false];
    }

    /** The copying part of terminal_read. */
    method CopyLine(buffer: array<Byte>, nbytes: int)
      requires Valid() && flags[current]
      requires buffer != phys && 0 <= nbytes <= buffer.Length && numberofchars[current] < buffer.Length
      modifies buffer
      ensures var text := EnteredView(current).text;
              buffer[..|text| + 1] == text + [NEWLINE]
      ensures forall k :: numberofchars[current] < k < buffer.Length ==>
                buffer[k] == if k < nbytes then NUL else old(buffer[k])
    {
      ghost var text := EnteredView(current).text;
      forall k | 0 <= k < nbytes {
        buffer[k] := NUL;
      }
      var i := 0;
      while i < numberofchars[current]
        invariant 0 <= i <= numberofchars[current]
        invariant buffer[..i] == text[..i]
        invariant forall k :: i <= k < buffer.Length ==> buffer[k] == if k < nbytes then NUL else old(buffer[k])
      {
        buffer[i] := terminalbuffer[current][i];
        i := i + 1;
      }
      buffer[i] := NEWLINE;
    }

    lemma NoLineToFetch()
      requires WellFormed() && !flags[current]
      ensures View().terms[current].entered == Nothing
    {
    }

    method Dispatch(e: Event)
      requires Valid() && (e.Key? ==> e.scancode != 255)
      modifies this, phys, linebuffer
      ensures Valid() && View() == Step(old(View()), e)
    {
      hide TermView, Step;
      match e {
        case Tick => SchedulerNext();
        case Key(a, junk) => CheckInput(a, junk);
        case Emit(c) => EmitCharacter(c);
        case Receive =>
          if flags[current] {
            var buffer := new Byte[LINE_SIZE];
            var _ := TerminalRead(buffer, LINE_SIZE);
          } else {
            NoLineToFetch();
            NothingToFetch(View());
          }
      }
    }

    /** A tick or a key, in the state boot leaves or any other. */
    method FirstEvent(e: Event)
      requires WellFormed() && (e.Tick? || (e.Key? && e.scancode != 255))
      modifies this, phys, linebuffer
      ensures Valid() && View() == Step(old(View()), e)
    {
      hide TermView, Step;
      match e
      case Tick => SchedulerNext();
      case Key(a, junk) => CheckInput(a, junk);
    }

    /** Any run at all of the multiplexed kernel is a run of three independent terminals. */
    method Run(events: seq<Event>)
      requires Valid() && forall e :: e in events && e.Key? ==> e.scancode != 255
      modifies this, phys, linebuffer
      ensures Valid() && View() == System.Run(old(View()), events)
    {
      hide TermView, Step;
      var i := 0;
      while i < |events|
        invariant 0 <= i <= |events|
        invariant Valid() && View() == System.Run(old(View()), events[..i])
      {
        Dispatch(events[i]);
        assert events[..i + 1][..i] == events[..i];
        i := i + 1;
      }
      assert events[..|events|] == events;
    }
  }

  /** What boot leaves: cursors home, no lines, the first terminal on the screen and the last nominally scheduled, each
    * frame as memory was. */
  predicate Booted(m: Multi, memory: seq<Byte>)
    requires m.Valid() && |memory| == END_OF_BUFFERS - VIDEO
  {
    && m.control == Control(2, 0, Keyboard.Modifiers(false, false, false, false, false))
    && forall t :: 0 <= t < TERMINALS ==>
         var at := if t == 0 then 0 else T1_BUFFER - VIDEO + FRAME_SIZE * t;
         m.terms[t] == Term(Screen(memory[at..at + FRAME_SIZE], 0), [], Nothing)
  }

  /** Boot, then a first tick or key, then any events at all: a run of three independent terminals. */
  method RunFromBoot(memory: array<Byte>, first: Event, events: seq<Event>) returns (k: Multiplexer, ghost start: Multi)
    requires memory.Length == END_OF_BUFFERS - VIDEO && (first.Tick? || (first.Key? && first.scancode != 255))
    requires forall e :: e in events && e.Key? ==> e.scancode != 255
    modifies memory
    ensures fresh(k) && k.phys == memory && k.Valid()
    ensures start.Valid() && Booted(start, old(memory[..])) && k.View() == System.Run(start, [first] + events)
  {
    hide Step, Booted, System.Run;
    k := Boot(memory);
    start := k.View();
    k.FirstEvent(first);
    k.Run(events);
    RunCons(start, first, events);
  }

  method Boot(memory: array<Byte>) returns (k: Multiplexer)
    requires memory.Length == END_OF_BUFFERS - VIDEO
    ensures fresh(k) && fresh(k.linebuffer) && k.phys == memory && k.WellFormed() && Booted(k.View(), memory[..])
  {
    k := new Multiplexer.InitGlobalScheduler(memory);
  }

  /** shiftarray, as bytes: what shift makes of the keys 0 to 9, of which the source consults 1 to 9. */
  const SHIFTED_DIGITS: seq<Byte> := [126, 33, 64, 35, 36, 37, 94, 38, 42, 40]

  predicate IsPage(a: int) {
    a == VIDEO || a == T1_BUFFER || a == T2_BUFFER || a == T3_BUFFER
  }
}
