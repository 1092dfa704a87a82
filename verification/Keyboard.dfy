/** What each scancode means, given the modifier keys held: a table and a pairing of shifted characters. */
module Keyboard {
  import opened Bytes
  import opened Terminal

  const LEFT_SHIFT: Byte := 0x2A
  const LEFT_SHIFT_RELEASED: Byte := 0xAA
  const RIGHT_SHIFT: Byte := 0x36
  const RIGHT_SHIFT_RELEASED: Byte := 0xB6
  const CAPS_LOCK: Byte := 0x3A
  const LEFT_CONTROL: Byte := 0x1D
  const LEFT_CONTROL_RELEASED: Byte := 0x9D
  const BACKSPACE: Byte := 0x0E
  const ENTER: Byte := 0x1C
  const ALT: Byte := 0x38
  const ALT_RELEASED: Byte := 0xB8
  const F1: Byte := 0x3B
  const F2: Byte := 0x3C
  const F3: Byte := 0x3D

  datatype Modifiers = Modifiers(caps: bool, leftShift: bool, rightShift: bool, control: bool, alt: bool) {
    predicate Shift() {
      leftShift || rightShift
    }
  }

  /** The unshifted character on each key; '\0' on keys that have none. */
  function KeyChar(scancode: Byte): (c: char)
    ensures c as int < 128
    ensures c == '\n' ==> scancode == ENTER
    ensures c != '\r'
  {
    match scancode
    case 0 => ' ' case 2 => '1' case 3 => '2' case 4 => '3' case 5 => '4' case 6 => '5' case 7 => '6' case 8 => '7'
    case 9 => '8' case 10 => '9' case 11 => '0' case 12 => '-' case 13 => '=' case 14 => 'b' case 15 => 't'
    case 16 => 'q' case 17 => 'w' case 18 => 'e' case 19 => 'r' case 20 => 't' case 21 => 'y' case 22 => 'u'
    case 23 => 'i' case 24 => 'o' case 25 => 'p' case 26 => '[' case 27 => ']' case 28 => '\n' case 29 => '0'
    case 30 => 'a' case 31 => 's' case 32 => 'd' case 33 => 'f' case 34 => 'g' case 35 => 'h' case 36 => 'j'
    case 37 => 'k' case 38 => 'l' case 39 => ';' case 40 => '\'' case 41 => '`' case 42 => 's' case 43 => '\\'
    case 44 => 'z' case 45 => 'x' case 46 => 'c' case 47 => 'v' case 48 => 'b' case 49 => 'n' case 50 => 'm'
    case 51 => ',' case 52 => '.' case 53 => '/' case 54 => 'r' case 57 => ' '
    case _ => '\0'
  }

  predicate IsLetter(c: char) {
    'a' <= c <= 'z'
  }

  function Upper(c: char): (u: char)
    requires IsLetter(c)
    ensures 'A' <= u <= 'Z'
  {
    (c as int - 32) as char
  }

  /** What the shift key turns each non-letter into. */
  const SHIFTED: map<char, char> := map[
    '1' := '!', '2' := '@', '3' := '#', '4' := '$', '5' := '%', '6' := '^', '7' := '&', '8' := '*', '9' := '(',
    '0' := ')', '-' := '_', '=' := '+', '[' := '{', ']' := '}', '`' := '~', '\\' := '|', ';' := ':', '\'' := '\"',
    ',' := '<', '.' := '>', '/' := '?']

  datatype Effect = NoEffect | Show(terminal: nat) | Edit(op: Op)

  function Press(m: Modifiers, scancode: Byte): Modifiers {
    if scancode == LEFT_SHIFT then m.(leftShift := true)
    else if scancode == LEFT_SHIFT_RELEASED then m.(leftShift := false)
    else if scancode == RIGHT_SHIFT then m.(rightShift := true)
    else if scancode == RIGHT_SHIFT_RELEASED then m.(rightShift := false)
    else if scancode == LEFT_CONTROL then m.(control := true)
    else if scancode == LEFT_CONTROL_RELEASED then m.(control := false)
    else if scancode == ALT then m.(alt := true)
    else if scancode == ALT_RELEASED then m.(alt := false)
    else if scancode == CAPS_LOCK then m.(caps := !m.caps)
    else m
  }

  predicate IsModifier(scancode: Byte) {
    scancode in {LEFT_SHIFT, LEFT_SHIFT_RELEASED, RIGHT_SHIFT, RIGHT_SHIFT_RELEASED, LEFT_CONTROL,
                 LEFT_CONTROL_RELEASED, ALT, ALT_RELEASED, CAPS_LOCK}
  }

  /** The meaning of a key's character, '\0' for none. Shift with a key that has no shifted character leaves
    * the source's local variable unassigned, so it types whatever byte `junk` was there. */
  function Typed(m: Modifiers, c: char, junk: Byte): Effect
    requires c as int < 128
  {
    if c == '\0' then NoEffect
    else if IsLetter(c) then
      if m.caps == m.Shift() then Edit(Type(c as int))
      else if m.control && c == 'l' then Edit(ClearScreen)
      else Edit(Type(Upper(c) as int))
    else if m.Shift() then Edit(Type(if c in SHIFTED then SHIFTED[c] as int else junk))
    else Edit(Type(c as int))
  }

  /** The meaning of a key. */
  function Decode(m: Modifiers, scancode: Byte, junk: Byte): Effect {
    if IsModifier(scancode) then NoEffect
    else if scancode == BACKSPACE then Edit(RubOut)
    else if scancode == ENTER then Edit(Enter)
    else if m.alt && F1 <= scancode <= F3 then Show(scancode - F1)
    else Typed(m, KeyChar(scancode), junk)
  }

  /** What keeps a switch from typing into the terminal it leaves: the function keys have no character. */
  lemma FunctionKeysTypeNothing(m: Modifiers, scancode: Byte, junk: Byte)
    requires F1 <= scancode <= F3
    ensures KeyChar(scancode) == '\0' && Typed(m, KeyChar(scancode), junk) == NoEffect
  {
  }

  lemma SpecialKeys(m: Modifiers, scancode: Byte, junk: Byte)
    ensures IsModifier(scancode) ==> Decode(m, scancode, junk) == NoEffect
    ensures !IsModifier(scancode) ==> Press(m, scancode) == m
    ensures !IsModifier(BACKSPACE) && !IsModifier(ENTER)
    ensures Decode(m, BACKSPACE, junk) == Edit(RubOut) && Decode(m, ENTER, junk) == Edit(Enter)
  {
  }

  // ---------------------------------------------------------------- what the keys are

  const NONE := Modifiers(false, false, false, false, false)

  /** What a key types with nothing held, and with one shift key. */
  ghost predicate Types(a: Byte, plain: char, shifted: char) {
    plain < 128 as char && shifted < 128 as char &&
    forall junk: Byte ::
      && Decode(NONE, a, junk) == Edit(Type(plain as int))
      && Decode(NONE.(leftShift := true), a, junk) == Edit(Type(shifted as int))
      && Decode(NONE.(rightShift := true), a, junk) == Edit(Type(shifted as int))
  }

  lemma NumberRow(i: nat)
    requires i < 12
    ensures Types(2 + i, "1234567890-="[i], "!@#$%^&*()_+"[i])
  {
    assert KeyChar(2 + i) == "1234567890-="[i];
    hide KeyChar;
  }

  lemma TopRow(i: nat)
    requires i < 12
    ensures Types(16 + i, "qwertyuiop[]"[i], "QWERTYUIOP{}"[i])
  {
    assert KeyChar(16 + i) == "qwertyuiop[]"[i];
    hide KeyChar;
  }

  lemma MiddleRow(i: nat)
    requires i < 12
    ensures Types(30 + i, "asdfghjkl;'`"[i], "ASDFGHJKL:\"~"[i])
  {
    assert KeyChar(30 + i) == "asdfghjkl;'`"[i];
    hide KeyChar;
  }

  lemma BottomRow(i: nat)
    requires i < 11
    ensures Types(43 + i, "\\zxcvbnm,./"[i], "|ZXCVBNM<>?"[i])
  {
    assert KeyChar(43 + i) == "\\zxcvbnm,./"[i];
    hide KeyChar;
  }

  /** The tabulator is a t, the space bar and scancode 0 are blanks, and no key behind them types anything. */
  lemma OtherKeys(a: Byte, m: Modifiers, junk: Byte)
    ensures Types(15, 't', 'T')
    ensures a == 0 || a == 57 ==> Decode(m, a, junk) == Edit(Type(if m.leftShift || m.rightShift then junk else 32))
    ensures a == 1 || a == 55 || a > 57 ==> !Decode(m, a, junk).Edit?
    ensures Decode(m, 0x0E, junk) == Edit(RubOut) && Decode(m, 0x1C, junk) == Edit(Enter)
  {
  }

  predicate IsLetterKey(a: Byte) {
    a == 15 || 16 <= a <= 25 || 30 <= a <= 38 || 44 <= a <= 50
  }

  /** A letter key types its capital if and only if exactly one of caps lock and shift is in force. */
  lemma LetterKeys(m: Modifiers, a: Byte, junk: Byte)
    requires IsLetterKey(a) && !(a == 38 && m.control)
    ensures 97 <= KeyChar(a) as int <= 122
    ensures var capital := m.caps != (m.leftShift || m.rightShift);
            Decode(m, a, junk) == Edit(Type(KeyChar(a) as int - if capital then 32 else 0))
  {
    assert IsLetter(KeyChar(a)) && (KeyChar(a) == 'l' ==> a == 38);
    hide KeyChar;
  }

  /** The screen is cleared by the L key with control and exactly one of caps lock and shift, and by nothing else. */
  lemma ClearingKey(m: Modifiers, a: Byte, junk: Byte)
    ensures Decode(m, a, junk) == Edit(ClearScreen) <==>
              a == 38 && m.control && m.caps != (m.leftShift || m.rightShift)
  {
    assert KeyChar(a) == 'l' <==> a == 38;
    hide KeyChar;
  }

  /** Alt with F1, F2 or F3 shows the first, second or third terminal, and nothing else shows one. */
  lemma SwitchingKeys(m: Modifiers, a: Byte, junk: Byte)
    ensures Decode(m, a, junk).Show? <==> m.alt && 0x3B <= a <= 0x3D
    ensures Decode(m, a, junk).Show? ==> Decode(m, a, junk).terminal == a - 0x3B
  {
    hide KeyChar;
  }

  // ---------------------------------------------------------------- what is held

  function PressAll(m: Modifiers, history: seq<Byte>): Modifiers {
    if history == [] then m else Press(PressAll(m, history[..|history| - 1]), history[|history| - 1])
  }

  lemma PressedAfter(m: Modifiers, history: seq<Byte>, a: Byte)
    ensures PressAll(m, history + [a]) == Press(PressAll(m, history), a)
  {
    assert (history + [a])[..|history|] == history;
  }

  /** The key was pressed and has not been let go since, or was held at the start and never let go. */
  predicate Held(was: bool, history: seq<Byte>, down: Byte, up: Byte) {
    || (was && up !in history)
    || exists i :: 0 <= i < |history| && history[i] == down && up !in history[i + 1..]
  }

  lemma HeldStep(was: bool, history: seq<Byte>, a: Byte, down: Byte, up: Byte)
    requires down != up
    ensures Held(was, history + [a], down, up) <==> a == down || (a != up && Held(was, history, down, up))
  {
    var h := history + [a];
    if a == down {
      assert h[|history|] == down && h[|history| + 1..] == [];
    } else if Held(was, h, down, up) {
      HeldBefore(was, history, a, down, up);
    } else if a != up && Held(was, history, down, up) {
      HeldStill(was, history, a, down, up);
      assert false;
    }
  }

  lemma HeldBefore(was: bool, history: seq<Byte>, a: Byte, down: Byte, up: Byte)
    requires Held(was, history + [a], down, up) && a != down
    ensures a != up && Held(was, history, down, up)
  {
    var h := history + [a];
    assert h[|history|] == a;
    if !(was && up !in h) {
      var i :| 0 <= i < |h| && h[i] == down && up !in h[i + 1..];
      assert h[i + 1..] == history[i + 1..] + [a];
    }
  }

  lemma HeldStill(was: bool, history: seq<Byte>, a: Byte, down: Byte, up: Byte)
    requires Held(was, history, down, up) && a != up
    ensures Held(was, history + [a], down, up)
  {
    var h := history + [a];
    if !(was && up !in history) {
      var i :| 0 <= i < |history| && history[i] == down && up !in history[i + 1..];
      assert h[i] == down && h[i + 1..] == history[i + 1..] + [a];
    }
  }

  /** Over any history of scancodes each modifier is in force exactly while its key is held, and caps lock after an odd
    * number of presses. */
  lemma {:induction false} HeldModifiers(m: Modifiers, history: seq<Byte>)
    ensures var r := PressAll(m, history);
            && (r.leftShift <==> Held(m.leftShift, history, 0x2A, 0xAA))
            && (r.rightShift <==> Held(m.rightShift, history, 0x36, 0xB6))
            && (r.control <==> Held(m.control, history, 0x1D, 0x9D))
            && (r.alt <==> Held(m.alt, history, 0x38, 0xB8))
            && (r.caps <==> m.caps == (multiset(history)[0x3A] % 2 == 0))
  {
    hide Held, Press;
    if history == [] {
      NothingHeld(m);
    } else {
      var n := |history| - 1;
      var before, a := history[..n], history[n];
      HeldModifiers(m, before);
      assert history == before + [a];
      Pressed(PressAll(m, before), a);
      CountStep(before, a);
      HeldStep(m.leftShift, before, a, 0x2A, 0xAA);
      HeldStep(m.rightShift, before, a, 0x36, 0xB6);
      HeldStep(m.control, before, a, 0x1D, 0x9D);
      HeldStep(m.alt, before, a, 0x38, 0xB8);
    }
  }

  lemma Pressed(m: Modifiers, a: Byte)
    ensures var r := Press(m, a);
            && (r.leftShift <==> a == 0x2A || (a != 0xAA && m.leftShift))
            && (r.rightShift <==> a == 0x36 || (a != 0xB6 && m.rightShift))
            && (r.control <==> a == 0x1D || (a != 0x9D && m.control))
            && (r.alt <==> a == 0x38 || (a != 0xB8 && m.alt))
            && (r.caps <==> m.caps != (a == 0x3A))
  {
  }

  lemma CountStep(history: seq<Byte>, a: Byte)
    ensures var n := multiset(history)[0x3A];
            (multiset(history + [a])[0x3A] % 2 == 0) <==> (n % 2 == 0) == (a != 0x3A)
  {
  }

  lemma NothingHeld(m: Modifiers)
    ensures forall was, down, up :: Held(was, [], down, up) == was
  {
  }
}
