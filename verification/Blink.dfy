/** The blinking characters as a list: what add, remove, sync and the clock tick do, and how an entry blinks over
  * time. */
module Blink {
  import opened Bytes

  const SCREEN_CELLS := 2000
  const WORD := 0x1_0000

  type Word16 = w: int | 0 <= w < WORD

  datatype Entry = Entry(location: Word16, onChar: Byte, offChar: Byte, onLength: Word16, offLength: Word16,
                         countdown: Word16, status: Word16)

  /** A 16-bit word read as signed. */
  function Signed(w: Word16): int {
    if w < 0x8000 then w else w - WORD
  }

  /** One tick of one entry: count down, and at zero or below change over. */
  function Tick(e: Entry): (r: Entry)
    requires e.status <= 1
    ensures r.status <= 1 && r.location == e.location
  {
    var left := (e.countdown - 1) % WORD;
    if Signed(left) > 0 then e.(countdown := left)
    else if e.status == 1 then e.(countdown := e.offLength, status := 0)
    else e.(countdown := e.onLength, status := 1)
  }

  function Ticks(e: Entry, n: nat): (r: Entry)
    requires e.status <= 1
    ensures r.status <= 1 && r.location == e.location
  {
    if n == 0 then e else Tick(Ticks(e, n - 1))
  }

  // ---------------------------------------------------------------- the phase law

  /** How many ticks a length lasts. Zero and lengths past 32768 look expired at once to the signed test. */
  function Lasts(length: Word16): (n: nat)
    ensures n >= 1
  {
    if 1 <= length <= 0x8000 then length else 1
  }

  lemma ModUnique(x: int, q: int, r: int, p: int)
    requires 0 <= r < p && x == q * p + r
    ensures x % p == r && x / p == q
  {
    var d := x / p - q;
    assert d * p == (x / p) * p - q * p;
    assert x == (x / p) * p + x % p;
    if d >= 1 {
      AtLeastOnce(d, p);
    } else if d <= -1 {
      AtLeastOnce(-d, p);
    }
  }

  lemma AtLeastOnce(d: int, p: int)
    requires d >= 1 && p >= 0
    ensures d * p >= p && (-d) * p == -(d * p)
  {
    assert d * p == p + (d - 1) * p;
  }

  lemma ModNext(n: nat, p: nat)
    requires p > 0
    ensures (n + 1) % p == if n % p + 1 == p then 0 else n % p + 1
  {
    var q, r := n / p, n % p;
    assert n == q * p + r;
    if r + 1 == p {
      assert (q + 1) * p == q * p + p;
      ModUnique(n + 1, q + 1, 0, p);
    } else {
      ModUnique(n + 1, q, r + 1, p);
    }
  }

  /** An entry as add leaves it. */
  predicate JustAdded(e: Entry) {
    e.status == 1 && e.countdown == e.onLength
  }

  /** The entry r ticks into its period: on during the first part, off during the second, and the countdown is
    * what remains of the part. */
  function InPeriod(e: Entry, r: nat): Entry
    requires r < Lasts(e.onLength) + Lasts(e.offLength)
  {
    var on := Lasts(e.onLength);
    if r < on then e.(status := 1, countdown := e.onLength - r)
    else e.(status := 0, countdown := e.offLength - (r - on))
  }

  lemma TickInPeriod(e: Entry, r: nat)
    requires r < Lasts(e.onLength) + Lasts(e.offLength)
    ensures var p := Lasts(e.onLength) + Lasts(e.offLength);
            Tick(InPeriod(e, r)) == InPeriod(e, if r + 1 == p then 0 else r + 1)
  {
    var c: int := InPeriod(e, r).countdown;
    assert (c - 1) % WORD == if c == 0 then WORD - 1 else c - 1;
  }

  lemma PeriodStarts(e: Entry)
    requires JustAdded(e)
    ensures InPeriod(e, 0) == e
  {
  }

  /** For all lengths: n ticks after it was added an entry is on exactly during the first part of its period. */
  lemma {:induction false} PhaseLaw(e: Entry, n: nat)
    requires JustAdded(e)
    ensures Ticks(e, n) == InPeriod(e, n % (Lasts(e.onLength) + Lasts(e.offLength)))
  {
    hide Tick, InPeriod, Lasts;
    var p := Lasts(e.onLength) + Lasts(e.offLength);
    if n == 0 {
      PeriodStarts(e);
      ModUnique(0, 0, 0, p);
    } else {
      PhaseLaw(e, n - 1);
      ModNext(n - 1, p);
      TickInPeriod(e, (n - 1) % p);
    }
  }

  // ---------------------------------------------------------------- the list

  function FindIndex(l: seq<Entry>, location: int): (i: nat)
    ensures i <= |l|
    ensures i < |l| ==> l[i].location == location
    ensures forall k :: 0 <= k < i ==> l[k].location != location
  {
    if l == [] || l[0].location == location then 0 else 1 + FindIndex(l[1..], location)
  }

  predicate Has(l: seq<Entry>, location: int) {
    FindIndex(l, location) < |l|
  }

  /** The entry a location names: the most recently added one there. */
  function First(l: seq<Entry>, location: int): (e: Entry)
    requires Has(l, location)
    ensures e in l && e.location == location
  {
    l[FindIndex(l, location)]
  }

  predicate ValidList(l: seq<Entry>) {
    forall k :: 0 <= k < |l| ==> 1 <= l[k].location < SCREEN_CELLS && l[k].status <= 1
  }

  datatype Op = AddOp(e: Entry) | RemoveOp(location: int) | SyncOp(from: int, to: int) | TickOp

  /** The second entry takes lengths, countdown and status from the first. */
  function Copied(from: Entry, to: Entry): Entry {
    to.(onLength := from.onLength, offLength := from.offLength, countdown := from.countdown, status := from.status)
  }

  function TickAll(l: seq<Entry>): (r: seq<Entry>)
    requires ValidList(l)
    ensures |r| == |l| && forall k :: 0 <= k < |l| ==> r[k] == Tick(l[k])
  {
    if l == [] then [] else [Tick(l[0])] + TickAll(l[1..])
  }

  /** What an operation makes of the list; one that fails leaves it alone. */
  function Apply(l: seq<Entry>, op: Op): (r: seq<Entry>)
    requires ValidList(l) && (op.AddOp? ==> op.e.location != 0)
    ensures ValidList(r)
  {
    match op
    case AddOp(e) =>
      if e.location >= SCREEN_CELLS || |l| == SCREEN_CELLS then l
      else [e.(status := 1, countdown := e.onLength)] + l
    case RemoveOp(loc) =>
      if Has(l, loc) then l[..FindIndex(l, loc)] + l[FindIndex(l, loc) + 1..] else l
    case SyncOp(from, to) =>
      if Has(l, from) && Has(l, to) then l[FindIndex(l, to) := Copied(First(l, from), First(l, to))] else l
    case TickOp => TickAll(l)
  }

  function ApplyAll(l: seq<Entry>, ops: seq<Op>): (r: seq<Entry>)
    requires ValidList(l) && forall op :: op in ops && op.AddOp? ==> op.e.location != 0
    ensures ValidList(r)
  {
    if ops == [] then l else Apply(ApplyAll(l, ops[..|ops| - 1]), ops[|ops| - 1])
  }

  /** An operation that adds nothing at a location, removes nothing there, and copies nothing onto it. */
  predicate Spares(op: Op, location: int) {
    match op
    case AddOp(e) => e.location != location
    case RemoveOp(loc) => loc != location
    case SyncOp(_, to) => to != location
    case TickOp => true
  }

  function TickCount(ops: seq<Op>): nat {
    if ops == [] then 0
    else TickCount(ops[..|ops| - 1]) + if ops[|ops| - 1].TickOp? then 1 else 0
  }

  lemma FindUnique(l: seq<Entry>, location: int, i: nat)
    requires i < |l| && l[i].location == location && forall k :: 0 <= k < i ==> l[k].location != location
    ensures FindIndex(l, location) == i
  {
    assert FindIndex(l, location) >= i;
  }

  lemma RemoveSpares(l: seq<Entry>, loc: int, location: int)
    requires ValidList(l) && Has(l, location) && loc != location
    ensures Has(Apply(l, RemoveOp(loc)), location)
    ensures First(Apply(l, RemoveOp(loc)), location) == First(l, location)
  {
    var i, j := FindIndex(l, location), FindIndex(l, loc);
    var r := Apply(l, RemoveOp(loc));
    if Has(l, loc) {
      assert forall k :: 0 <= k < |r| ==> r[k] == if k < j then l[k] else l[k + 1];
      FindUnique(r, location, if j < i then i - 1 else i);
    }
  }

  lemma StepSpares(l: seq<Entry>, op: Op, location: int)
    requires ValidList(l) && (op.AddOp? ==> op.e.location != 0) && Has(l, location) && Spares(op, location)
    ensures Has(Apply(l, op), location)
    ensures First(Apply(l, op), location) == if op.TickOp? then Tick(First(l, location)) else First(l, location)
  {
    hide Tick, Copied;
    var i := FindIndex(l, location);
    match op
    case AddOp(e) =>
      if Apply(l, op) != l {
        FindUnique(Apply(l, op), location, i + 1);
      }
    case RemoveOp(loc) => RemoveSpares(l, loc, location);
    case SyncOp(from, to) =>
      if Has(l, from) && Has(l, to) {
        CopiedPlace(First(l, from), First(l, to));
        FindUnique(Apply(l, op), location, i);
      }
    case TickOp => FindUnique(Apply(l, op), location, i);
  }

  lemma CopiedPlace(from: Entry, to: Entry)
    ensures Copied(from, to).location == to.location
  {
  }

  /** Over any run that spares it, an entry just counts its own ticks. */
  lemma {:induction false} RunSpares(l: seq<Entry>, ops: seq<Op>, location: int)
    requires ValidList(l) && Has(l, location)
    requires forall op :: op in ops ==> Spares(op, location) && (op.AddOp? ==> op.e.location != 0)
    ensures Has(ApplyAll(l, ops), location)
    ensures First(ApplyAll(l, ops), location) == Ticks(First(l, location), TickCount(ops))
  {
    hide Tick, Apply, First, Spares;
    if ops != [] {
      RunSpares(l, ops[..|ops| - 1], location);
      StepSpares(ApplyAll(l, ops[..|ops| - 1]), ops[|ops| - 1], location);
    }
  }

  /** The phase law over whole runs: whatever is added, removed or synchronised elsewhere meanwhile. */
  lemma BlinkingOverRuns(l: seq<Entry>, e: Entry, ops: seq<Op>)
    requires ValidList(l) && 1 <= e.location < SCREEN_CELLS && |l| < SCREEN_CELLS
    requires forall op :: op in ops ==> Spares(op, e.location) && (op.AddOp? ==> op.e.location != 0)
    ensures var r := ApplyAll(Apply(l, AddOp(e)), ops);
            var on, off := Lasts(e.onLength), Lasts(e.offLength);
            var k := TickCount(ops) % (on + off);
            && Has(r, e.location)
            && First(r, e.location) == InPeriod(e.(status := 1, countdown := e.onLength), k)
            && on == (if 1 <= e.onLength <= 32768 then e.onLength else 1)
            && off == (if 1 <= e.offLength <= 32768 then e.offLength else 1)
            && First(r, e.location) == e.(status := if k < on then 1 else 0,
                                          countdown := if k < on then e.onLength - k else e.offLength - (k - on))
  {
    hide Tick, Spares;
    var l' := Apply(l, AddOp(e));
    FindUnique(l', e.location, 0);
    RunSpares(l', ops, e.location);
    PhaseLaw(l'[0], TickCount(ops));
  }

  /** Removing takes away the entry added last at a location, and nothing else. */
  lemma AddedAndRemoved(l: seq<Entry>, e: Entry)
    requires ValidList(l) && 1 <= e.location < 2000 && |l| < 2000
    ensures Apply(Apply(l, AddOp(e)), RemoveOp(e.location)) == l
  {
    FindUnique(Apply(l, AddOp(e)), e.location, 0);
  }

  /** Two entries blink alike. */
  predicate InStep(a: Entry, b: Entry) {
    a.onLength == b.onLength && a.offLength == b.offLength && a.countdown == b.countdown && a.status == b.status
  }

  lemma {:induction false} TicksInStep(a: Entry, b: Entry, n: nat)
    requires a.status <= 1 && InStep(a, b)
    ensures InStep(Ticks(a, n), Ticks(b, n))
  {
    if n > 0 {
      TicksInStep(a, b, n - 1);
    }
  }

  /** After a sync the two entries blink alike for ever, until one is replaced, removed or synchronised again. */
  lemma SyncLasts(l: seq<Entry>, from: int, to: int, ops: seq<Op>)
    requires ValidList(l) && Has(l, from) && Has(l, to)
    requires forall op :: op in ops ==> Spares(op, from) && Spares(op, to) && (op.AddOp? ==> op.e.location != 0)
    ensures var r := ApplyAll(Apply(l, SyncOp(from, to)), ops);
            Has(r, from) && Has(r, to) && InStep(First(r, from), First(r, to))
  {
    var l' := Apply(l, SyncOp(from, to));
    var i, j := FindIndex(l, from), FindIndex(l, to);
    FindUnique(l', to, j);
    FindUnique(l', from, i);
    RunSpares(l', ops, from);
    RunSpares(l', ops, to);
    TicksInStep(First(l', from), First(l', to), TickCount(ops));
  }
}
