/** What the blinking characters leave on the screen: two bytes a cell, each operation's writes, and when every entry
  * shows the character its status calls for. */
module BlinkScreen {
  import opened Bytes
  import opened Blink

  /** A tick's effect on the screen for one entry: its new character, if it changes over. */
  function Paint(screen: seq<Byte>, e: Entry): (r: seq<Byte>)
    requires e.location < SCREEN_CELLS && |screen| >= 2 * SCREEN_CELLS
    ensures |r| == |screen|
  {
    if Signed((e.countdown - 1) % WORD) > 0 then screen
    else screen[2 * e.location := if e.status == 1 then e.offChar else e.onChar]
  }

  function PaintAll(screen: seq<Byte>, l: seq<Entry>): (r: seq<Byte>)
    requires ValidList(l) && |screen| >= 2 * SCREEN_CELLS
    ensures |r| == |screen|
  {
    if l == [] then screen else Paint(PaintAll(screen, l[..|l| - 1]), l[|l| - 1])
  }

  /** What an operation makes of the screen. */
  function ScreenAfter(screen: seq<Byte>, l: seq<Entry>, op: Op): (r: seq<Byte>)
    requires ValidList(l) && |screen| >= 2 * SCREEN_CELLS
    ensures |r| == |screen|
  {
    match op
    case AddOp(e) =>
      if e.location >= SCREEN_CELLS || |l| == SCREEN_CELLS then screen else screen[2 * e.location := e.onChar]
    case RemoveOp(_) => screen
    case SyncOp(from, to) =>
      if Has(l, from) && Has(l, to) then screen[2 * First(l, to).location := First(l, to).offChar] else screen
    case TickOp => PaintAll(screen, l)
  }

  function ScreenAfterAll(screen: seq<Byte>, l: seq<Entry>, ops: seq<Op>): (r: seq<Byte>)
    requires ValidList(l) && |screen| >= 2 * SCREEN_CELLS && forall op :: op in ops && op.AddOp? ==> op.e.location != 0
    ensures |r| == |screen|
  {
    if ops == [] then screen else
    var n := |ops| - 1;
    ScreenAfter(ScreenAfterAll(screen, l, ops[..n]), ApplyAll(l, ops[..n]), ops[n])
  }

  // ---------------------------------------------------------------- what the user should see

  /** The character an entry's status calls for. */
  function Char(e: Entry): Byte {
    if e.status == 1 then e.onChar else e.offChar
  }

  ghost predicate Apart(l: seq<Entry>) {
    forall i, j :: 0 <= i < j < |l| ==> l[i].location != l[j].location
  }

  /** No two entries share a cell, and each shows its character. */
  ghost predicate Drawn(screen: seq<Byte>, l: seq<Entry>) {
    && |screen| >= 2 * SCREEN_CELLS && ValidList(l) && Apart(l)
    && forall k :: 0 <= k < |l| ==> screen[2 * l[k].location] == Char(l[k])
  }

  /** A tick changes over the cells whose entries' time is up, and no others. */
  lemma {:induction false} PaintedCell(screen: seq<Byte>, l: seq<Entry>, i: int)
    requires ValidList(l) && Apart(l) && |screen| >= 2 * SCREEN_CELLS && 0 <= i < |screen|
    ensures forall k :: 0 <= k < |l| && i == 2 * l[k].location ==> PaintAll(screen, l)[i] == Paint(screen, l[k])[i]
    ensures (forall k :: 0 <= k < |l| ==> i != 2 * l[k].location) ==> PaintAll(screen, l)[i] == screen[i]
  {
    if l != [] {
      var n := |l| - 1;
      PaintedCell(screen, l[..n], i);
      var before := PaintAll(screen, l[..n]);
      hide PaintAll;
      assert forall k :: 0 <= k < n ==> l[..n][k] == l[k];
      assert PaintAll(screen, l) == Paint(before, l[n]) by {
        PaintAllSnoc(screen, l);
      }
    }
  }

  lemma PaintAllSnoc(screen: seq<Byte>, l: seq<Entry>)
    requires ValidList(l) && l != [] && |screen| >= 2 * SCREEN_CELLS
    ensures PaintAll(screen, l) == Paint(PaintAll(screen, l[..|l| - 1]), l[|l| - 1])
  {
  }

  /** One entry, changing over: the character painted is the one its new status calls for. */
  lemma PaintIsChar(screen: seq<Byte>, e: Entry)
    requires e.status <= 1 && e.location < SCREEN_CELLS && |screen| >= 2 * SCREEN_CELLS
    requires screen[2 * e.location] == Char(e)
    ensures Paint(screen, e)[2 * e.location] == Char(Tick(e))
  {
  }

  lemma TickDrawn(screen: seq<Byte>, l: seq<Entry>)
    requires Drawn(screen, l)
    ensures Drawn(PaintAll(screen, l), TickAll(l))
  {
    hide PaintAll, Paint, Tick, Char;
    var r, t := PaintAll(screen, l), TickAll(l);
    forall k | 0 <= k < |l|
      ensures r[2 * t[k].location] == Char(t[k])
    {
      PaintedCell(screen, l, 2 * l[k].location);
      PaintIsChar(screen, l[k]);
    }
  }

  lemma RemoveDrawn(screen: seq<Byte>, l: seq<Entry>, location: int)
    requires Drawn(screen, l)
    ensures Drawn(screen, Apply(l, RemoveOp(location)))
  {
    hide Char;
    var r, i := Apply(l, RemoveOp(location)), FindIndex(l, location);
    if Has(l, location) {
      assert forall k :: 0 <= k < |r| ==> r[k] == if k < i then l[k] else l[k + 1];
    }
  }

  /** An add keeps the picture if and only if it fails or its cell is nobody else's. */
  lemma AddDrawn(screen: seq<Byte>, l: seq<Entry>, e: Entry)
    requires Drawn(screen, l) && e.location != 0
    ensures Drawn(ScreenAfter(screen, l, AddOp(e)), Apply(l, AddOp(e))) <==>
              e.location >= SCREEN_CELLS || |l| == SCREEN_CELLS || !Has(l, e.location)
  {
    var r := Apply(l, AddOp(e));
    if e.location < SCREEN_CELLS && |l| != SCREEN_CELLS {
      assert forall k :: 0 < k < |r| ==> r[k] == l[k - 1];
      if Has(l, e.location) {
        var i := FindIndex(l, e.location);
        assert r[0].location == r[i + 1].location;
      }
    }
  }

  /** A sync keeps it if and only if the entry copied from is off, or the entry copied to has the same character for
    * both: the character drawn is the off one always. */
  lemma SyncDrawn(screen: seq<Byte>, l: seq<Entry>, from: int, to: int)
    requires Drawn(screen, l)
    ensures Drawn(ScreenAfter(screen, l, SyncOp(from, to)), Apply(l, SyncOp(from, to))) <==>
              (Has(l, from) && Has(l, to) ==> First(l, from).status == 0 || First(l, to).onChar == First(l, to).offChar)
  {
    if Has(l, from) && Has(l, to) {
      assert First(l, from) in l;
      RedrawnAt(screen, l, FindIndex(l, to), Copied(First(l, from), First(l, to)), First(l, to).offChar);
    }
  }

  /** One entry replaced by another in its cell, and a character drawn there. */
  lemma RedrawnAt(screen: seq<Byte>, l: seq<Entry>, j: int, e: Entry, c: Byte)
    requires Drawn(screen, l) && 0 <= j < |l| && e.location == l[j].location && e.status <= 1
    ensures Drawn(screen[2 * e.location := c], l[j := e]) <==> c == Char(e)
  {
    hide Char;
    var s, r := screen[2 * e.location := c], l[j := e];
    assert s[2 * r[j].location] == c;
    assert forall k :: 0 <= k < |l| && k != j ==> r[k] == l[k] && l[k].location != l[j].location;
  }

  /** An operation that keeps the picture: something a caller can tell from the list. */
  predicate Draws(l: seq<Entry>, op: Op) {
    match op
    case AddOp(e) => e.location >= SCREEN_CELLS || |l| == SCREEN_CELLS || !Has(l, e.location)
    case RemoveOp(_) => true
    case SyncOp(from, to) =>
      Has(l, from) && Has(l, to) ==> First(l, from).status == 0 || First(l, to).onChar == First(l, to).offChar
    case TickOp => true
  }

  lemma StepDrawn(screen: seq<Byte>, l: seq<Entry>, op: Op)
    requires Drawn(screen, l) && (op.AddOp? ==> op.e.location != 0)
    ensures Drawn(ScreenAfter(screen, l, op), Apply(l, op)) <==> Draws(l, op)
  {
    match op
    case AddOp(e) => AddDrawn(screen, l, e);
    case RemoveOp(location) => RemoveDrawn(screen, l, location);
    case SyncOp(from, to) => SyncDrawn(screen, l, from, to);
    case TickOp => TickDrawn(screen, l);
  }

  /** Every operation of the run keeps the picture. */
  predicate AllDraw(l: seq<Entry>, ops: seq<Op>)
    requires ValidList(l) && forall op :: op in ops && op.AddOp? ==> op.e.location != 0
  {
    ops != [] ==> var n := |ops| - 1; AllDraw(l, ops[..n]) && Draws(ApplyAll(l, ops[..n]), ops[n])
  }

  /** Over every such run each entry shows the character its status calls for. */
  lemma {:induction false} RunDrawn(screen: seq<Byte>, l: seq<Entry>, ops: seq<Op>)
    requires Drawn(screen, l) && forall op :: op in ops && op.AddOp? ==> op.e.location != 0
    requires AllDraw(l, ops)
    ensures Drawn(ScreenAfterAll(screen, l, ops), ApplyAll(l, ops))
  {
    hide Apart, Char, Draws, ScreenAfter, Apply;
    if ops != [] {
      var n := |ops| - 1;
      RunDrawn(screen, l, ops[..n]);
      StepDrawn(ScreenAfterAll(screen, l, ops[..n]), ApplyAll(l, ops[..n]), ops[n]);
    }
  }

  /** Two entries that are on: syncing the second with the first draws its off character, and it is still on. */
  lemma SyncMisdraws(screen: seq<Byte>)
    requires |screen| == 2 * SCREEN_CELLS && screen[2] == 65 && screen[4] == 67
    ensures var l := [Entry(1, 65, 66, 10, 10, 5, 1), Entry(2, 67, 68, 10, 10, 9, 1)];
            && Drawn(screen, l) && !Drawn(ScreenAfter(screen, l, SyncOp(1, 2)), Apply(l, SyncOp(1, 2)))
            && ScreenAfter(screen, l, SyncOp(1, 2))[4] == 68 && First(Apply(l, SyncOp(1, 2)), 2).status == 1
  {
    var l := [Entry(1, 65, 66, 10, 10, 5, 1), Entry(2, 67, 68, 10, 10, 9, 1)];
    FindUnique(l, 1, 0);
    FindUnique(l, 2, 1);
    SyncDrawn(screen, l, 1, 2);
    FindUnique(Apply(l, SyncOp(1, 2)), 2, 1);
  }
}
