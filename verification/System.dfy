/** Three independent terminals: what the multiplexed kernel is meant to look like from outside. */
module System {
  import opened Bytes
  import opened Terminal
  import opened Console
  import Keyboard
  import Paper

  datatype Event = Tick | Key(scancode: Byte, junk: Byte) | Emit(c: Byte) | Receive

  /** Who is scheduled, who is on display, which modifier keys are down: all that decides where an event goes. */
  datatype Control = Control(current: nat, visible: nat, keys: Keyboard.Modifiers) {
    predicate Valid() {
      current < TERMINALS && visible < TERMINALS
    }
  }

  datatype Multi = Multi(control: Control, terms: seq<Term>) {
    predicate Valid() {
      control.Valid() && |terms| == TERMINALS && forall t :: 0 <= t < TERMINALS ==> terms[t].Valid()
    }
  }

  function NextTerminal(t: nat): (r: nat)
    requires t < TERMINALS
    ensures r == if t == 2 then 0 else t + 1
  {
    (t + 1) % TERMINALS
  }

  function Steer(k: Control, e: Event): (r: Control)
    requires k.Valid()
    ensures r.Valid()
  {
    match e
    case Tick => k.(current := NextTerminal(k.current))
    case Key(a, junk) =>
      var effect := Keyboard.Decode(k.keys, a, junk);
      k.(keys := Keyboard.Press(k.keys, a),
         visible := if effect.Show? && effect.terminal < TERMINALS then effect.terminal else k.visible)
    case Emit(_) => k
    case Receive => k
  }

  /** The operations an event means for terminal t: keys go to the visible one, program events to the scheduled one. */
  function Delivered(k: Control, e: Event, t: nat): seq<Op> {
    match e
    case Tick => []
    case Key(a, junk) =>
      var effect := Keyboard.Decode(k.keys, a, junk);
      if effect.Edit? && t == k.visible then [effect.op] else []
    case Emit(c) => if t == k.current then [Output(c)] else []
    case Receive => if t == k.current then [Fetch] else []
  }

  function Step(m: Multi, e: Event): (r: Multi)
    requires m.Valid()
    ensures r.Valid()
  {
    Multi(Steer(m.control, e),
          seq(TERMINALS, t requires 0 <= t < TERMINALS => ApplyAll(m.terms[t], Delivered(m.control, e, t))))
  }

  /** A key step, by the effect of the key. */
  lemma KeyStep(m: Multi, r: Multi, a: Byte, junk: Byte)
    requires m.Valid() && |r.terms| == TERMINALS
    requires r.control.current == m.control.current && r.control.keys == Keyboard.Press(m.control.keys, a)
    requires match Keyboard.Decode(m.control.keys, a, junk)
             case NoEffect => r.control.visible == m.control.visible && r.terms == m.terms
             case Show(t) => t < TERMINALS && r.control.visible == t && r.terms == m.terms
             case Edit(op) =>
               && r.control.visible == m.control.visible
               && r.terms == m.terms[m.control.visible := Apply(m.terms[m.control.visible], op)]
    ensures r == Step(m, Key(a, junk))
  {
    var s := Step(m, Key(a, junk));
    forall t | 0 <= t < TERMINALS
      ensures s.terms[t] == r.terms[t]
    {
      var effect := Keyboard.Decode(m.control.keys, a, junk);
      if effect.Edit? && t == m.control.visible {
        ApplyOne(m.terms[t], effect.op);
      }
    }
  }

  lemma TickStep(m: Multi, r: Multi)
    requires m.Valid() && r == m.(control := m.control.(current := NextTerminal(m.control.current)))
    ensures r == Step(m, Tick)
  {
    assert Step(m, Tick).terms == m.terms;
  }

  lemma ProgramStep(m: Multi, r: Multi, e: Event, op: Op)
    requires m.Valid() && ((e == Receive && op == Fetch) || (e.Emit? && op == Output(e.c)))
    requires var t := m.control.current;
             r == m.(terms := m.terms[t := Apply(m.terms[t], op)])
    ensures r == Step(m, e)
  {
    var t := m.control.current;
    ApplyOne(m.terms[t], op);
    assert Step(m, e).terms == m.terms[t := Apply(m.terms[t], op)];
  }

  function Run(m: Multi, events: seq<Event>): (r: Multi)
    requires m.Valid()
    ensures r.Valid()
  {
    if events == [] then m else Step(Run(m, events[..|events| - 1]), events[|events| - 1])
  }

  function SteerAll(k: Control, events: seq<Event>): (r: Control)
    requires k.Valid()
    ensures r.Valid()
  {
    if events == [] then k else Steer(SteerAll(k, events[..|events| - 1]), events[|events| - 1])
  }

  /** Terminal t's own history: computed from the schedule and the keys, never from any terminal's contents. */
  function History(k: Control, events: seq<Event>, t: nat): seq<Op>
    requires k.Valid()
  {
    if events == [] then []
    else History(k, events[..|events| - 1], t)
         + Delivered(SteerAll(k, events[..|events| - 1]), events[|events| - 1], t)
  }

  lemma {:induction false} ApplyAllConcat(t: Term, a: seq<Op>, b: seq<Op>)
    requires t.Valid()
    ensures ApplyAll(t, a + b) == ApplyAll(ApplyAll(t, a), b)
  {
    if b == [] {
      assert a + b == a;
    } else {
      ApplyAllConcat(t, a, b[..|b| - 1]);
      assert (a + b)[..|a + b| - 1] == a + b[..|b| - 1];
    }
  }

  /** Over every interleaving, each terminal is what a stand-alone terminal fed its own history would be. */
  lemma {:induction false} TerminalsAreIndependent(m: Multi, events: seq<Event>, t: nat)
    requires m.Valid() && t < TERMINALS
    ensures Run(m, events).control == SteerAll(m.control, events)
    ensures Run(m, events).terms[t] == ApplyAll(m.terms[t], History(m.control, events, t))
  {
    if events != [] {
      var before := events[..|events| - 1];
      TerminalsAreIndependent(m, before, t);
      ApplyAllConcat(m.terms[t], History(m.control, before, t),
                     Delivered(SteerAll(m.control, before), events[|events| - 1], t));
    }
  }

  /** Whatever the other terminals and the user do, terminal t goes on showing its own sheet of paper. */
  lemma EachTerminalShowsItsOwnPaper(m: Multi, events: seq<Event>, t: nat, p: Paper.Sheet)
    requires m.Valid() && t < TERMINALS && Paper.Shows(m.terms[t].screen, p)
    ensures Paper.Shows(Run(m, events).terms[t].screen, PaperAfter(m.terms[t], p, History(m.control, events, t)))
  {
    TerminalsAreIndependent(m, events, t);
    TerminalIsPaper(m.terms[t], p, History(m.control, events, t));
  }

  /** A terminal's line is the edited text of the keys it received while visible, and a read by its program
    * finds the line last entered there. */
  lemma EachLineIsItsOwnKeys(m: Multi, events: seq<Event>, t: nat)
    requires m.Valid() && t < TERMINALS && m.terms[t].line == [] && m.terms[t].entered == Nothing
    ensures Run(m, events).terms[t].line == Edited(History(m.control, events, t))
    ensures Run(m, events).terms[t].entered == LastEntered(History(m.control, events, t))
  {
    TerminalsAreIndependent(m, events, t);
    LineIsEditedText(m.terms[t], History(m.control, events, t));
  }

  /** Nothing in one terminal can be told from another: only the schedule and t's own start matter. */
  lemma {:induction false} NoLeak(m: Multi, n: Multi, events: seq<Event>, t: nat)
    requires m.Valid() && n.Valid() && t < TERMINALS
    requires m.control == n.control && m.terms[t] == n.terms[t]
    ensures Run(m, events).terms[t] == Run(n, events).terms[t]
  {
    TerminalsAreIndependent(m, events, t);
    TerminalsAreIndependent(n, events, t);
  }

  lemma {:induction false} RunCons(m: Multi, e: Event, events: seq<Event>)
    requires m.Valid()
    ensures Run(m, [e] + events) == Run(Step(m, e), events)
  {
    hide Step;
    if events == [] {
      assert [e] + events == [e] && [e][..0] == [];
    } else {
      var n := |events| - 1;
      RunCons(m, e, events[..n]);
      assert ([e] + events)[..n + 1] == [e] + events[..n];
    }
  }

  /** A read with no line entered leaves everything as it is. */
  lemma NothingToFetch(m: Multi)
    requires m.Valid() && m.terms[m.control.current].entered == Nothing
    ensures Step(m, Receive) == m
  {
    ApplyOne(m.terms[m.control.current], Fetch);
    assert forall t :: 0 <= t < TERMINALS ==> Step(m, Receive).terms[t] == m.terms[t];
  }

  /** A string printed by the scheduled program, as events. */
  function Emits(text: seq<Byte>): (r: seq<Event>)
    ensures |r| == |text|
  {
    seq(|text|, i requires 0 <= i < |text| => Emit(text[i]))
  }

  lemma EmitsSnoc(text: seq<Byte>, c: Byte)
    ensures Emits(text + [c]) == Emits(text) + [Emit(c)]
    ensures Emits(text + [c])[..|text|] == Emits(text)
  {
  }

  /** Printing is the scheduled terminal's putc, character by character, and nothing else. */
  lemma {:induction false} PrintingIsPutAll(m: Multi, text: seq<Byte>)
    requires m.Valid()
    ensures var t := m.control.current;
            Run(m, Emits(text)) == m.(terms := m.terms[t := m.terms[t].(screen := Paper.PutAll(m.terms[t].screen,
                text))])
  {
    var t := m.control.current;
    if text == [] {
      assert m.terms[t].(screen := m.terms[t].screen) == m.terms[t];
    } else {
      var n := |text| - 1;
      PrintingIsPutAll(m, text[..n]);
      EmitsSnoc(text[..n], text[n]);
      assert text[..n] + [text[n]] == text;
      var before := Run(m, Emits(text[..n]));
      ApplyOne(before.terms[t], Output(text[n]));
      forall u | 0 <= u < TERMINALS
        ensures Step(before, Emit(text[n])).terms[u] == if u == t then Apply(before.terms[u], Output(text[n]))
            else before.terms[u]
      {
      }
    }
  }

  // ---------------------------------------------------------------- the schedule and the display

  function TicksIn(events: seq<Event>): nat {
    if events == [] then 0 else TicksIn(events[..|events| - 1]) + if events[|events| - 1] == Tick then 1 else 0
  }

  /** Whatever else happens, the terminals are scheduled in turn. */
  lemma {:induction false} ScheduleRotates(m: Multi, events: seq<Event>)
    requires m.Valid()
    ensures Run(m, events).control.current == (m.control.current + TicksIn(events)) % 3
  {
    hide Step;
    if events != [] {
      ScheduleRotates(m, events[..|events| - 1]);
      NextTurn(Run(m, events[..|events| - 1]), events[|events| - 1]);
    }
  }

  lemma NextTurn(m: Multi, e: Event)
    requires m.Valid()
    ensures Step(m, e).control.current == if e == Tick then (m.control.current + 1) % 3 else m.control.current
  {
  }

  /** So among any three consecutive ticks each terminal has its turn. */
  lemma EveryoneHasATurn(m: Multi, a: seq<Event>, b: seq<Event>, c: seq<Event>, t: nat)
    requires m.Valid() && TicksIn(a) == TicksIn(b) == TicksIn(c) == 1 && t < 3
    ensures var k, l := Run(m, a), Run(Run(m, a), b);
            t == k.control.current || t == l.control.current || t == Run(l, c).control.current
  {
    hide Run, TicksIn;
    var k, l := Run(m, a), Run(Run(m, a), b);
    ScheduleRotates(m, a);
    ScheduleRotates(k, b);
    ScheduleRotates(l, c);
    InTurn(m.control.current, t);
  }

  lemma InTurn(x: nat, t: nat)
    requires x < 3 && t < 3
    ensures t == (x + 1) % 3 || t == ((x + 1) % 3 + 1) % 3 || t == (((x + 1) % 3 + 1) % 3 + 1) % 3
  {
  }

  /** The scancodes among the events. */
  function Scancodes(events: seq<Event>): seq<Byte> {
    if events == [] then [] else
    Scancodes(events[..|events| - 1]) + if events[|events| - 1].Key? then [events[|events| - 1].scancode] else []
  }

  /** Which modifiers are in force depends on the keys alone. */
  lemma {:induction false} ModifiersFollowKeys(m: Multi, events: seq<Event>)
    requires m.Valid()
    ensures Run(m, events).control.keys == Keyboard.PressAll(m.control.keys, Scancodes(events))
  {
    if events != [] {
      ModifiersFollowKeys(m, events[..|events| - 1]);
      var before := Scancodes(events[..|events| - 1]);
      if events[|events| - 1].Key? {
        Keyboard.PressedAfter(m.control.keys, before, events[|events| - 1].scancode);
      } else {
        assert before + [] == before;
      }
    }
  }

  /** Alt with F1 to F3 chooses the terminal on display, and nothing else does. */
  lemma DisplayFollowsKeys(m: Multi, e: Event)
    requires m.Valid()
    ensures Step(m, e).control.visible ==
              if e.Key? && m.control.keys.alt && 0x3B <= e.scancode <= 0x3D then e.scancode - 0x3B
              else m.control.visible
  {
    hide Keyboard.Decode;
    if e.Key? {
      Keyboard.SwitchingKeys(m.control.keys, e.scancode, e.junk);
    }
  }

  /** Keys reach the terminal on display, programs their own, and nothing changes any other. */
  lemma OnlyAddressedChanges(m: Multi, e: Event, t: nat)
    requires m.Valid() && t < 3
    ensures Step(m, e).terms[t] != m.terms[t] ==>
              if e.Key? then t == m.control.visible else t == m.control.current && (e.Emit? || e.Receive?)
  {
  }

  /** A line is read once: the read takes it from its terminal and changes nothing else. */
  lemma ReadOnce(m: Multi)
    requires m.Valid()
    ensures var t := m.control.current;
            Step(m, Receive) == m.(terms := m.terms[t := m.terms[t].(entered := Nothing)])
  {
    ProgramStep(m, m.(terms := m.terms[m.control.current := Apply(m.terms[m.control.current], Fetch)]), Receive, Fetch);
  }

  /** A key that types c adds it to the line on display, and to that screen; the 128th is refused. */
  lemma TypingIsSeen(m: Multi, a: Byte, c: Byte, junk: Byte)
    requires m.Valid() && Keyboard.Decode(m.control.keys, a, junk) == Keyboard.Edit(Type(c))
    ensures var t := m.control.visible;
            var was, now := m.terms[t], Step(m, Key(a, junk)).terms[t];
            now == if |was.line| == 127 then was else was.(line := was.line + [c], screen := Put(was.screen, c))
  {
    ApplyOne(m.terms[m.control.visible], Type(c));
  }
}
