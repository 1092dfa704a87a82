/** One stand-alone terminal: a screen, the line being edited, and the last line entered but not yet read. */
module Terminal {
  import opened Bytes
  import opened Console
  import Paper

  /** One byte of every line buffer is reserved for the newline. */
  const LINE_SIZE := 128

  datatype Entered = Nothing | Line(text: seq<Byte>)

  datatype Term = Term(screen: Screen, line: seq<Byte>, entered: Entered) {
    predicate Valid() {
      screen.Valid() && |line| < LINE_SIZE && (entered.Line? ==> |entered.text| < LINE_SIZE)
    }
  }

  /** Everything that can happen to a terminal: program output, the four kinds of editing, and a program's read. */
  datatype Op = Output(c: Byte) | Type(c: Byte) | RubOut | Enter | ClearScreen | Fetch

  function Apply(t: Term, op: Op): (r: Term)
    requires t.Valid()
    ensures r.Valid()
  {
    match op
    case Output(c) => t.(screen := Put(t.screen, c))
    case Type(c) =>
      if |t.line| == LINE_SIZE - 1 then t else t.(screen := Put(t.screen, c), line := t.line + [c])
    case RubOut =>
      if t.line == [] then t else t.(screen := Erase(t.screen), line := t.line[..|t.line| - 1])
    case Enter => Term(Put(t.screen, NEWLINE), [], Line(t.line))
    case ClearScreen => t.(screen := Wipe(t.screen), line := [])
    case Fetch => t.(entered := Nothing)
  }

  function ApplyAll(t: Term, ops: seq<Op>): (r: Term)
    requires t.Valid()
    ensures r.Valid()
  {
    if ops == [] then t else Apply(ApplyAll(t, ops[..|ops| - 1]), ops[|ops| - 1])
  }

  lemma ApplyOne(t: Term, op: Op)
    requires t.Valid()
    ensures ApplyAll(t, [op]) == Apply(t, op) && ApplyAll(t, []) == t
  {
    assert [op][..0] == [];
  }

  // ---------------------------------------------------------------- the line discipline

  /** The edited text of a history of keys, read off the history alone: no screen, no buffer. */
  function Edited(ops: seq<Op>): seq<Byte> {
    if ops == [] then [] else
    var before := Edited(ops[..|ops| - 1]);
    match ops[|ops| - 1]
    case Type(c) => if |before| < LINE_SIZE - 1 then before + [c] else before
    case RubOut => if before == [] then [] else before[..|before| - 1]
    case Enter => []
    case ClearScreen => []
    case Output(_) => before
    case Fetch => before
  }

  /** The text of the last line entered since the last read, again from the history alone. */
  function LastEntered(ops: seq<Op>): Entered {
    if ops == [] then Nothing else
    match ops[|ops| - 1]
    case Enter => Line(Edited(ops[..|ops| - 1]))
    case Fetch => Nothing
    case _ => LastEntered(ops[..|ops| - 1])
  }

  lemma {:induction false} LineIsEditedText(t: Term, ops: seq<Op>)
    requires t.Valid() && t.line == [] && t.entered == Nothing
    ensures ApplyAll(t, ops).line == Edited(ops)
    ensures ApplyAll(t, ops).entered == LastEntered(ops)
  {
    if ops != [] {
      LineIsEditedText(t, ops[..|ops| - 1]);
    }
  }

  function Typing(text: seq<Byte>): (ops: seq<Op>)
    ensures |ops| == |text|
  {
    seq(|text|, i requires 0 <= i < |text| => Type(text[i]))
  }

  /** What is typed after an Enter or a clearing is the line, up to 127 characters; what is typed beyond them is lost.
    * What a program can read is the line there was at the Enter. */
  lemma {:induction false} TypedIsLine(ops: seq<Op>, begin: Op, text: seq<Byte>)
    requires begin == Enter || begin == ClearScreen
    ensures Edited(ops + [begin] + Typing(text)) == text[..Min(127, |text|)]
    ensures LastEntered(ops + [begin] + Typing(text)) == if begin == Enter then Line(Edited(ops)) else LastEntered(ops)
  {
    var all := ops + [begin] + Typing(text);
    if text == [] {
      assert all == ops + [begin] && all[..|all| - 1] == ops;
    } else {
      var n := |text| - 1;
      TypedIsLine(ops, begin, text[..n]);
      assert all[..|all| - 1] == ops + [begin] + Typing(text[..n]);
    }
  }

  /** With nothing typed there is nothing to rub out: what a program printed stays on the screen. */
  lemma PrintedIsSafe(t: Term, ops: seq<Op>)
    requires t.Valid() && t.line == [] && t.entered == Nothing && Edited(ops) == []
    ensures ApplyAll(t, ops + [RubOut]) == ApplyAll(t, ops)
  {
    LineIsEditedText(t, ops);
    assert (ops + [RubOut])[..|ops|] == ops;
  }

  /** Typing a character and rubbing it out leaves the line as it was, unless there was no room for it. */
  lemma TypedAndRubbedOut(ops: seq<Op>, c: Byte)
    ensures Edited(ops + [Type(c), RubOut]) == Edited(ops) <==> |Edited(ops)| != 127
    ensures LastEntered(ops + [Type(c), RubOut]) == LastEntered(ops)
  {
    EditedLength(ops);
    var all := ops + [Type(c), RubOut];
    assert all[..|all| - 1] == ops + [Type(c)];
    assert (ops + [Type(c)])[..|ops|] == ops;
  }

  lemma {:induction false} EditedLength(ops: seq<Op>)
    ensures |Edited(ops)| <= 127
  {
    if ops != [] {
      EditedLength(ops[..|ops| - 1]);
    }
  }

  /** Keys and reads never depend on what programs print. */
  function WithoutOutput(ops: seq<Op>): seq<Op> {
    if ops == [] then [] else
    var rest := WithoutOutput(ops[..|ops| - 1]);
    if ops[|ops| - 1].Output? then rest else rest + [ops[|ops| - 1]]
  }

  lemma {:induction false} OutputNeverReachesTheLine(ops: seq<Op>)
    ensures Edited(ops) == Edited(WithoutOutput(ops))
    ensures LastEntered(ops) == LastEntered(WithoutOutput(ops))
  {
    if ops != [] {
      OutputNeverReachesTheLine(ops[..|ops| - 1]);
      var rest := WithoutOutput(ops[..|ops| - 1]);
      assert (rest + [ops[|ops| - 1]])[..|rest|] == rest;
    }
  }

  // ---------------------------------------------------------------- the screen under the line

  /** How many of the line's characters were typed since the screen was last written by anything else. */
  function Shown(t: Term, shown: nat, op: Op): nat
    requires t.Valid()
  {
    match op
    case Output(_) => 0
    case Type(c) => if |t.line| == LINE_SIZE - 1 then shown else if IsNewline(c) then 0 else shown + 1
    case RubOut => if t.line == [] || shown == 0 then shown else shown - 1
    case Enter => 0
    case ClearScreen => 0
    case Fetch => shown
  }

  function ShownAfter(t: Term, ops: seq<Op>): nat
    requires t.Valid()
  {
    if ops == [] then 0
    else Shown(ApplyAll(t, ops[..|ops| - 1]), ShownAfter(t, ops[..|ops| - 1]), ops[|ops| - 1])
  }

  /** The cells just before the cursor spell the last `shown` characters of the line. */
  ghost predicate Spells(t: Term, shown: nat) {
    && t.Valid()
    && shown <= |t.line| && shown <= t.screen.pos
    && forall i :: t.screen.pos - shown <= i < t.screen.pos ==>
         t.screen.Cell(i) == t.line[|t.line| - (t.screen.pos - i)]
  }

  lemma ApplySpells(t: Term, shown: nat, op: Op)
    requires Spells(t, shown)
    ensures Spells(Apply(t, op), Shown(t, shown, op))
  {
    var r := Apply(t, op);
    var n := Shown(t, shown, op);
    forall i | r.screen.pos - n <= i < r.screen.pos
      ensures r.screen.Cell(i) == r.line[|r.line| - (r.screen.pos - i)]
    {
      if n == shown + 1 && t.screen.pos == CELLS - 1 {
        assert i + COLS < t.screen.pos ==> r.screen.Cell(i) == t.screen.Cell(i + COLS);
      } else if i < t.screen.pos {
        assert r.screen.Cell(i) == t.screen.Cell(i);
      }
    }
  }

  /** Over every history: what backspace would erase is on the screen, just before the cursor. */
  lemma {:induction false} LineIsOnScreen(t: Term, ops: seq<Op>)
    requires t.Valid()
    ensures Spells(ApplyAll(t, ops), ShownAfter(t, ops))
  {
    if ops != [] {
      LineIsOnScreen(t, ops[..|ops| - 1]);
      ApplySpells(ApplyAll(t, ops[..|ops| - 1]), ShownAfter(t, ops[..|ops| - 1]), ops[|ops| - 1]);
    }
  }

  /** No program output and no typed newline since the line was begun. */
  ghost predicate Undisturbed(t: Term, ops: seq<Op>)
    requires t.Valid()
  {
    ops != [] ==>
      var before := ops[..|ops| - 1];
      && Undisturbed(t, before)
      && match ops[|ops| - 1]
         case Output(_) => ApplyAll(t, before).line == []
         case Type(c) => !IsNewline(c)
         case _ => true
  }

  /** When programs print only while nothing is typed, the whole line is on the screen. */
  lemma {:induction false} UndisturbedLineIsOnScreen(t: Term, ops: seq<Op>)
    requires t.Valid() && t.line == [] && Undisturbed(t, ops)
    ensures Spells(ApplyAll(t, ops), |ApplyAll(t, ops).line|)
  {
    LineIsOnScreen(t, ops);
    WholeLineIsShown(t, ops);
  }

  lemma {:induction false} WholeLineIsShown(t: Term, ops: seq<Op>)
    requires t.Valid() && t.line == [] && Undisturbed(t, ops)
    ensures ShownAfter(t, ops) == |ApplyAll(t, ops).line|
  {
    if ops != [] {
      WholeLineIsShown(t, ops[..|ops| - 1]);
    }
  }

  /** Once it has been cleared, a screen is light grey on black for ever. */
  lemma {:induction false} OnceCleared(t: Term, ops: seq<Op>)
    requires t.Valid() && (Grey(t.screen) || ClearScreen in ops)
    ensures Grey(ApplyAll(t, ops).screen)
  {
    if ops != [] {
      var n := |ops| - 1;
      if Grey(t.screen) || ClearScreen in ops[..n] {
        OnceCleared(t, ops[..n]);
      }
      GreyStep(ApplyAll(t, ops[..n]), ops[n]);
    }
  }

  lemma GreyStep(t: Term, op: Op)
    requires t.Valid() && (Grey(t.screen) || op == ClearScreen)
    ensures Grey(Apply(t, op).screen)
  {
  }

  // ---------------------------------------------------------------- the terminal on paper

  function OnPaper(t: Term, p: Paper.Sheet, op: Op): (r: Paper.Sheet)
    requires t.Valid() && p.Valid()
    ensures r.Valid()
  {
    match op
    case Output(c) => Paper.Write(p, c)
    case Type(c) => if |t.line| == LINE_SIZE - 1 then p else Paper.Write(p, c)
    case RubOut => if t.line == [] then p else Paper.RubOut(p)
    case Enter => Paper.Write(p, NEWLINE)
    case ClearScreen => Paper.EMPTY
    case Fetch => p
  }

  function PaperAfter(t: Term, p: Paper.Sheet, ops: seq<Op>): (r: Paper.Sheet)
    requires t.Valid() && p.Valid()
    ensures r.Valid()
  {
    if ops == [] then p
    else OnPaper(ApplyAll(t, ops[..|ops| - 1]), PaperAfter(t, p, ops[..|ops| - 1]), ops[|ops| - 1])
  }

  /** Once a terminal shows a sheet, it goes on showing it through output, editing, wrapping and scrolling. */
  lemma {:induction false} TerminalIsPaper(t: Term, p: Paper.Sheet, ops: seq<Op>)
    requires t.Valid() && Paper.Shows(t.screen, p)
    ensures Paper.Shows(ApplyAll(t, ops).screen, PaperAfter(t, p, ops))
  {
    if ops != [] {
      var before := ops[..|ops| - 1];
      TerminalIsPaper(t, p, before);
      var b := ApplyAll(t, before);
      var q := PaperAfter(t, p, before);
      match ops[|ops| - 1]
      case Output(c) => Paper.PutShows(b.screen, q, c);
      case Type(c) => Paper.PutShows(b.screen, q, c);
      case RubOut => Paper.EraseShows(b.screen, q);
      case Enter => Paper.PutShows(b.screen, q, NEWLINE);
      case ClearScreen => Paper.WipeShows(b.screen);
      case Fetch =>
    }
  }
}
