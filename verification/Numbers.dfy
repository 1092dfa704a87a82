/** Printing numbers: itoa with its in-place reversal, and printf's %#x and %d on top of it. */
module Numbers {
  import opened Bytes

  const MINUS: Byte := 45
  const ZERO: Byte := 48

  type Radix = r: int | 2 <= r <= 36 witness 10

  // ---------------------------------------------------------------- numerals

  /** The source's lookup table: the digits, then the capital letters. */
  function DigitChar(d: int): Byte
    requires 0 <= d < 36
  {
    if d < 10 then 48 + d else 55 + d
  }

  function DigitValue(c: Byte): int {
    if 48 <= c <= 57 then c - 48 else if 65 <= c <= 90 then c - 55 else -1
  }

  /** The table, spelled out: a digit is printed as what it is read as. */
  lemma DigitsAre(d: int)
    requires 0 <= d < 36
    ensures DigitChar(d) == "0123456789ABCDEFGHIJKLMNOPQRSTUVWXYZ"[d] as int && DigitValue(DigitChar(d)) == d
  {
  }

  predicate IsNumeral(s: seq<Byte>, radix: Radix) {
    forall i :: 0 <= i < |s| ==> 0 <= DigitValue(s[i]) < radix
  }

  /** What a reader takes a string of digits to mean. */
  function Value(s: seq<Byte>, radix: Radix): int {
    if s == [] then 0 else radix * Value(s[..|s| - 1], radix) + DigitValue(s[|s| - 1])
  }

  function Div(v: nat, radix: Radix): (q: nat)
    ensures v > 0 ==> q < v
  {
    v / radix
  }

  function Mod(v: nat, radix: Radix): (m: nat)
    ensures m < radix
  {
    v % radix
  }

  lemma DivMod(v: nat, radix: Radix)
    ensures v == radix * Div(v, radix) + Mod(v, radix)
    ensures Div(v, radix) == 0 ==> Mod(v, radix) == v
  {
  }

  /** The digits of a positive number, none for 0. */
  function Digits(v: nat, radix: Radix): (s: seq<Byte>)
    ensures IsNumeral(s, radix)
    ensures s == [] <==> v == 0
  {
    if v == 0 then [] else Digits(Div(v, radix), radix) + [DigitChar(Mod(v, radix))]
  }

  /** What itoa prints. */
  function Numeral(v: nat, radix: Radix): (s: seq<Byte>)
    ensures s != [] && IsNumeral(s, radix)
  {
    if v == 0 then [ZERO] else Digits(v, radix)
  }

  lemma ValueSnoc(high: seq<Byte>, c: Byte, radix: Radix)
    ensures Value(high + [c], radix) == radix * Value(high, radix) + DigitValue(c)
  {
    assert (high + [c])[..|high|] == high;
  }

  lemma DigitsStep(v: nat, radix: Radix)
    requires v > 0
    ensures Digits(v, radix) == Digits(Div(v, radix), radix) + [DigitChar(Mod(v, radix))]
    ensures v == radix * Div(v, radix) + Mod(v, radix) && DigitValue(DigitChar(Mod(v, radix))) == Mod(v, radix)
    ensures Digits(Div(v, radix), radix) == [] ==> Mod(v, radix) == v && DigitChar(Mod(v, radix)) != ZERO
  {
    DivMod(v, radix);
    hide Div, Mod;
  }

  /** Reading back what was printed gives the number, and nothing printed has a needless leading zero. */
  lemma {:induction false} ReadsBack(v: nat, radix: Radix)
    ensures Value(Numeral(v, radix), radix) == v
    ensures v != 0 ==> Numeral(v, radix)[0] != ZERO
  {
    hide Digits, DigitValue, DigitChar, Div, Mod, Value;
    ValueSnoc([], ZERO, radix);
    assert [] + [ZERO] == [ZERO];
    ZeroDigit(radix);
    if v != 0 {
      var high, q := Digits(Div(v, radix), radix), Div(v, radix);
      DigitsStep(v, radix);
      ValueSnoc(high, DigitChar(Mod(v, radix)), radix);
      if high != [] {
        ReadsBack(q, radix);
      }
      assert Value(high, radix) == q;
    }
  }

  lemma ZeroDigit(radix: Radix)
    ensures DigitValue(ZERO) == 0 && Value([], radix) == 0 && radix * Value([], radix) == 0
  {
  }

  lemma {:induction false} ValueBounds(s: seq<Byte>, radix: Radix)
    requires IsNumeral(s, radix)
    ensures Value(s, radix) >= 0
    ensures s != [] && s[0] != ZERO ==> Value(s, radix) > 0
  {
    if s != [] {
      var high := s[..|s| - 1];
      ValueBounds(high, radix);
      assert |s| > 1 ==> high[0] == s[0];
      Scaled(radix, Value(high, radix));
    }
  }

  lemma Scaled(radix: Radix, v: nat)
    ensures radix * v >= v
  {
  }

  lemma DivideBack(radix: Radix, high: nat, d: int)
    requires 0 <= d < radix
    ensures Div(radix * high + d, radix) == high && Mod(radix * high + d, radix) == d
  {
    var v := radix * high + d;
    var q := v / radix - high;
    assert v == radix * (v / radix) + v % radix;
    assert radix * q == radix * (v / radix) - radix * high;
    if q >= 1 {
      Grows(radix, 1, q);
    } else if q <= -1 {
      Grows(radix, q, -1);
    }
  }

  /** And it is the only such numeral: any digits that read as v and do not start with 0 are the ones printed. */
  lemma {:induction false} OnlyNumeral(s: seq<Byte>, radix: Radix)
    requires IsNumeral(s, radix) && s != [] && (s[0] != ZERO || |s| == 1)
    ensures Value(s, radix) >= 0 && Numeral(Value(s, radix), radix) == s
    decreases |s|
  {
    var high, d := s[..|s| - 1], DigitValue(s[|s| - 1]);
    ValueBounds(high, radix);
    DivideBack(radix, Value(high, radix), d);
    ValueBounds(s, radix);
    assert DigitChar(d) == s[|s| - 1];
    if high == [] {
      assert s == [s[0]];
    } else {
      assert high[0] == s[0];
      OnlyNumeral(high, radix);
      assert s == high + [s[|s| - 1]];
    }
  }

  function Power(radix: Radix, n: nat): (p: int)
    ensures p >= 1
  {
    if n == 0 then 1 else radix * Power(radix, n - 1)
  }

  /** The first digit of a numeral weighs the most: as many powers as there are digits behind it. */
  lemma {:induction false} FirstDigitWeighs(c: Byte, s: seq<Byte>, radix: Radix)
    ensures Value([c] + s, radix) == DigitValue(c) * Power(radix, |s|) + Value(s, radix)
  {
    hide DigitValue;
    if s == [] {
      ValueSnoc([], c, radix);
      assert [] + [c] == [c] && [c] + s == [c];
      assert Value([], radix) == 0;
      NoPower(DigitValue(c), radix);
    } else {
      var n := |s| - 1;
      FirstDigitWeighs(c, s[..n], radix);
      assert [c] + s == ([c] + s[..n]) + [s[n]];
      ValueSnoc([c] + s[..n], s[n], radix);
      MorePower(DigitValue(c), radix, n, Value(s[..n], radix));
    }
  }

  lemma NoPower(d: int, radix: Radix)
    ensures d * Power(radix, 0) == d && radix * 0 == 0
  {
  }

  lemma MorePower(d: int, radix: Radix, n: nat, v: int)
    ensures radix * (d * Power(radix, n) + v) == d * Power(radix, n + 1) + radix * v
  {
    var p := Power(radix, n);
    assert d * (radix * p) == radix * (d * p);
  }

  lemma {:induction false} DigitCount(v: nat, radix: Radix, n: nat)
    requires v < Power(radix, n)
    ensures |Digits(v, radix)| <= n
  {
    if v != 0 {
      DivMod(v, radix);
      hide Div, Mod;
      if Div(v, radix) >= Power(radix, n - 1) {
        Grows(radix, Power(radix, n - 1), Div(v, radix));
        assert false;
      }
      DigitCount(Div(v, radix), radix, n - 1);
    }
  }

  lemma Grows(radix: Radix, a: int, b: int)
    requires a <= b
    ensures radix * a <= radix * b
  {
  }

  // ---------------------------------------------------------------- strings in place

  function Reversed(s: seq<Byte>): (r: seq<Byte>)
    ensures |r| == |s|
  {
    seq(|s|, i requires 0 <= i < |s| => s[|s| - 1 - i])
  }

  lemma ReversedSnoc(s: seq<Byte>, x: Byte)
    ensures Reversed(s + [x]) == [x] + Reversed(s)
  {
  }

  method Strlen(buf: array<Byte>, at: int, ghost n: int) returns (len: int)
    requires StringAt(buf[..], at, n)
    ensures len == n
  {
    len := 0;
    while buf[at + len] != NUL
      invariant 0 <= len <= n
      decreases n - len
    {
      len := len + 1;
    }
  }

  method Strrev(buf: array<Byte>, at: int, ghost n: int)
    requires StringAt(buf[..], at, n)
    modifies buf
    ensures buf[..] == old(buf[..at]) + Reversed(old(buf[at..at + n])) + old(buf[at + n..])
  {
    ghost var was := buf[..];
    var beg := 0;
    var len := Strlen(buf, at, n);
    var end := len - 1;
    while beg < end
      invariant 0 <= beg <= n && end == n - 1 - beg && beg <= end + 2
      invariant forall k :: 0 <= k < buf.Length && (k < at || at + n <= k || at + beg <= k <= at + end) ==>
                  buf[k] == was[k]
      invariant forall k :: at <= k < at + n && !(at + beg <= k <= at + end) ==> buf[k] == was[2 * at + n - 1 - k]
    {
      var tmp := buf[at + end];
      buf[at + end] := buf[at + beg];
      buf[at + beg] := tmp;
      beg := beg + 1;
      end := end - 1;
    }
    ReversedAt(was, buf[..], at, n);
  }

  lemma ReversedAt(was: seq<Byte>, now: seq<Byte>, at: int, n: int)
    requires 0 <= at && 0 <= n && at + n <= |was| == |now|
    requires forall k :: 0 <= k < |was| && (k < at || at + n <= k) ==> now[k] == was[k]
    requires forall k :: at <= k < at + n ==> now[k] == was[2 * at + n - 1 - k]
    ensures now == was[..at] + Reversed(was[at..at + n]) + was[at + n..]
  {
    var want := was[..at] + Reversed(was[at..at + n]) + was[at + n..];
    forall k | 0 <= k < |now|
      ensures now[k] == want[k]
    {
      if at <= k < at + n {
        assert want[k] == Reversed(was[at..at + n])[k - at];
      }
    }
  }

  // ---------------------------------------------------------------- itoa and printf

  /** itoa, into buf from index `at`. */
  method Itoa(value: int, buf: array<Byte>, at: int, radix: Radix)
    requires 0 <= value < TWO_32 && 0 <= at && at + |Numeral(value, radix)| < buf.Length
    modifies buf
    ensures var n := |Numeral(value, radix)|;
            && buf[at..at + n] == Numeral(value, radix) && StringAt(buf[..], at, n)
            && forall k :: 0 <= k < buf.Length && (k < at || at + n < k) ==> buf[k] == old(buf[k])
  {
    if value == 0 {
      buf[at] := ZERO;
      buf[at + 1] := NUL;
      return;
    }
    hide Digits, Reversed, DigitChar, StringAt, Div, Mod;
    var p := at;
    var rest := value;
    NoDigits(radix);
    assert buf[at..p] == [];
    while rest > 0
      invariant 0 <= rest && at <= p == at + |Digits(value, radix)| - |Digits(rest, radix)| < buf.Length
      invariant Digits(value, radix) == Digits(rest, radix) + Reversed(buf[at..p])
      invariant forall k :: 0 <= k < buf.Length && (k < at || p <= k) ==> buf[k] == old(buf[k])
    {
      MoveDigit(Digits(value, radix), rest, buf[at..p], radix);
      buf[p] := DigitChar(Mod(rest, radix));
      assert buf[at..p + 1] == buf[at..p] + [buf[p]];
      p := p + 1;
      rest := Div(rest, radix);
    }
    FinishItoa(buf, at, p, value, radix);
  }

  /** The end of itoa: terminate and reverse. */
  method FinishItoa(buf: array<Byte>, at: int, p: int, ghost value: int, ghost radix: Radix)
    requires value > 0 && 0 <= at <= p < buf.Length && Numeral(value, radix) == Reversed(buf[at..p])
    modifies buf
    ensures var n := |Numeral(value, radix)|;
            && buf[at..at + n] == Numeral(value, radix) && StringAt(buf[..], at, n)
            && forall k :: 0 <= k < buf.Length && (k < at || at + n < k) ==> buf[k] == old(buf[k])
  {
    hide Digits, Numeral, Reversed;
    ghost var digits, was := buf[at..p], buf[..];
    NumeralReversed(digits, value, radix);
    assert forall k :: at <= k < p ==> buf[k] == digits[k - at];
    buf[p] := NUL;
    assert buf[at..p] == digits;
    ghost var mid := buf[..];
    Strrev(buf, at, p - at);
    Replaced(mid, buf[..], at, Numeral(value, radix));
  }

  /** A middle part replaced by digits of the same length. */
  lemma Replaced(was: seq<Byte>, now: seq<Byte>, at: int, s: seq<Byte>)
    requires 0 <= at && at + |s| < |was| && was[at + |s|] == NUL && now == was[..at] + s + was[at + |s|..]
    requires forall i :: 0 <= i < |s| ==> s[i] != NUL
    ensures now[at..at + |s|] == s && StringAt(now, at, |s|)
    ensures forall k :: 0 <= k < |was| && (k < at || at + |s| <= k) ==> now[k] == was[k]
  {
    assert forall k :: at <= k < at + |s| ==> now[k] == s[k - at];
  }

  lemma MoveDigit(all: seq<Byte>, rest: nat, done: seq<Byte>, radix: Radix)
    requires rest > 0 && all == Digits(rest, radix) + Reversed(done)
    ensures all == Digits(Div(rest, radix), radix) + Reversed(done + [DigitChar(Mod(rest, radix))])
    ensures |Digits(rest, radix)| == |Digits(Div(rest, radix), radix)| + 1
  {
    hide Digits, Reversed, DigitChar, Div, Mod;
    DigitsStep(rest, radix);
    ReversedSnoc(done, DigitChar(Mod(rest, radix)));
  }

  lemma NoDigits(radix: Radix)
    ensures Digits(0, radix) == [] && Reversed([]) == []
  {
  }

  lemma NumeralReversed(s: seq<Byte>, v: nat, radix: Radix)
    requires v > 0 && Numeral(v, radix) == Reversed(s)
    ensures forall i :: 0 <= i < |s| ==> s[i] != NUL
  {
    forall i | 0 <= i < |s|
      ensures s[i] != NUL
    {
      assert s[i] == Numeral(v, radix)[|s| - 1 - i];
    }
  }

  /** printf's %#x: always eight hexadecimal digits, of the same value. */
  method PrintHex(value: int) returns (out: seq<Byte>)
    requires 0 <= value < TWO_32
    ensures |out| == 8 && IsNumeral(out, 16) && Value(out, 16) == value
  {
    hide Value, Numeral, DigitValue;
    var buf := new Byte[64];
    ghost var numeral := Numeral(value, 16);
    HexFits(value);
    Itoa(value, buf, 8, 16);
    var start := Strlen(buf, 8, |numeral|);
    var i := start;
    while i < 8
      invariant start <= i <= 8 && buf[8..8 + start] == numeral
      invariant forall k :: start <= k < i ==> buf[k] == ZERO
    {
      buf[i] := ZERO;
      i := i + 1;
    }
    out := buf[start..8 + start];
    ReadsBack(value, 16);
    Padded(out, numeral, 8 - start);
  }

  lemma HexFits(value: int)
    requires 0 <= value < TWO_32
    ensures |Numeral(value, 16)| <= 8
  {
    assert Power(16, 2) == 256;
    assert Power(16, 4) == 0x1_0000;
    assert Power(16, 6) == 0x100_0000;
    assert Power(16, 8) == TWO_32;
    DigitCount(value, 16, 8);
  }

  lemma {:induction false} Padded(s: seq<Byte>, digits: seq<Byte>, zeros: nat)
    requires |s| == zeros + |digits| && s[zeros..] == digits && IsNumeral(digits, 16)
    requires forall k :: 0 <= k < zeros ==> s[k] == ZERO
    ensures IsNumeral(s, 16) && Value(s, 16) == Value(digits, 16)
    decreases |s|
  {
    assert forall k :: zeros <= k < |s| ==> s[k] == digits[k - zeros];
    if s != [] {
      var high := s[..|s| - 1];
      if digits == [] {
        Padded(high, [], zeros - 1);
      } else {
        Padded(high, digits[..|digits| - 1], zeros);
      }
    }
  }

  /** The number a string with an optional sign stands for. */
  function SignedValue(s: seq<Byte>): int {
    if s != [] && s[0] == MINUS then -Value(s[1..], 10) else Value(s, 10)
  }

  /** printf's %d, for every 32-bit value: negating the least one overflows back to its own bits. */
  method PrintSigned(value: int) returns (out: seq<Byte>)
    requires -0x8000_0000 <= value < 0x8000_0000
    ensures SignedValue(out) == value
    ensures out == if value < 0 then ['-' as int] + Numeral(-value, 10) else Numeral(value, 10)
  {
    hide Value, Numeral, DigitValue, SignedValue, StringAt;
    var buf := new Byte[36];
    if value < 0 {
      buf[0] := MINUS;
      var magnitude := (-value) % TWO_32;
      Signed(magnitude);
      Itoa(magnitude, buf, 1, 10);
      var len := Strlen(buf, 1, |Numeral(magnitude, 10)|);
      out := buf[..1 + len];
      assert out == [MINUS] + Numeral(magnitude, 10);
    } else {
      Signed(value);
      Itoa(value, buf, 0, 10);
      var len := Strlen(buf, 0, |Numeral(value, 10)|);
      out := buf[..len];
      assert out == Numeral(value, 10);
    }
  }

  lemma Signed(v: int)
    requires 0 <= v < TWO_32
    ensures SignedValue(Numeral(v, 10)) == v && SignedValue([MINUS] + Numeral(v, 10)) == -v && |Numeral(v, 10)| <= 10
  {
    ReadsBack(v, 10);
    DecimalFits(v);
    var s := Numeral(v, 10);
    assert 0 <= DigitValue(s[0]);
    assert ([MINUS] + s)[1..] == s;
  }

  lemma DecimalFits(value: int)
    requires 0 <= value < TWO_32
    ensures |Numeral(value, 10)| <= 10
  {
    assert Power(10, 2) == 100;
    assert Power(10, 4) == 10_000;
    assert Power(10, 6) == 1_000_000;
    assert Power(10, 8) == 100_000_000;
    assert Power(10, 10) == 10_000_000_000;
    DigitCount(value, 10, 10);
  }
}
