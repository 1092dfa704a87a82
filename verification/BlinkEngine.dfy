/** The blink engine as it runs: a linked list threaded through a fixed pool of 2000 slots, a slot being free when its
  * location is 0, and a text screen two bytes a cell. */
module BlinkEngine {
  import opened Bytes
  import opened Blink
  import opened BlinkScreen

  const NULL := -1

  datatype Slot = Slot(entry: Entry, next: int)

  const FREE := Slot(Entry(0, 0, 0, 0, 0, 0, 0), NULL)

  // ---------------------------------------------------------------- the shape of the pool

  predicate Distinct(order: seq<int>) {
    forall i, j :: 0 <= i < j < |order| ==> order[i] != order[j]
  }

  function Link(order: seq<int>, k: int): int
    requires 0 <= k <= |order|
  {
    if k < |order| then order[k] else NULL
  }

  /** From head the list visits exactly `order`, each slot once, and those are exactly the slots in use. */
  ghost predicate Integrity(slots: seq<Slot>, head: int, order: seq<int>) {
    && |slots| == SCREEN_CELLS
    && head == Link(order, 0) && Distinct(order)
    && (forall k :: 0 <= k < |order| ==> 0 <= order[k] < SCREEN_CELLS)
    && (forall k {:trigger Link(order, k)} :: 0 < k <= |order| ==> slots[order[k - 1]].next == Link(order, k))
    && (forall i :: 0 <= i < SCREEN_CELLS ==> (slots[i].entry.location != 0 <==> i in order))
  }

  function Entries(slots: seq<Slot>, order: seq<int>): (l: seq<Entry>)
    requires forall k :: 0 <= k < |order| ==> 0 <= order[k] < |slots|
    ensures |l| == |order|
  {
    seq(|order|, k requires 0 <= k < |order| => slots[order[k]].entry)
  }

  lemma {:induction false} DistinctCard(order: seq<int>)
    requires Distinct(order)
    ensures |set x | x in order| == |order|
  {
    if order != [] {
      var n := |order| - 1;
      DistinctCard(order[..n]);
      assert (set x | x in order) == (set x | x in order[..n]) + {order[n]};
    }
  }

  function Below(n: nat): (r: set<int>)
    ensures |r| == n && forall i :: i in r <==> 0 <= i < n
  {
    if n == 0 then {} else Below(n - 1) + {n - 1}
  }

  lemma SubsetSameCard(a: set<int>, b: set<int>)
    requires a <= b
    ensures |a| <= |b| && (|a| == |b| ==> a == b)
  {
    assert |b - a| == |b| - |a|;
  }

  /** Distinct numbers below n: at most n of them, and n only if all. */
  lemma PigeonHole(order: seq<int>, n: nat)
    requires Distinct(order) && forall k :: 0 <= k < |order| ==> 0 <= order[k] < n
    ensures |order| <= n && (|order| == n <==> forall i :: 0 <= i < n ==> i in order)
  {
    DistinctCard(order);
    var live := set x | x in order;
    assert live <= Below(n);
    SubsetSameCard(live, Below(n));
    if |order| == n {
      forall i | 0 <= i < n
        ensures i in order
      {
        assert i in Below(n);
      }
    }
    if forall i :: 0 <= i < n ==> i in order {
      assert Below(n) <= live;
      SubsetSameCard(Below(n), live);
    }
  }

  /** The pool is full exactly when the list has 2000 entries. */
  lemma FullPool(slots: seq<Slot>, head: int, order: seq<int>)
    requires Integrity(slots, head, order)
    ensures |order| <= SCREEN_CELLS
    ensures |order| == SCREEN_CELLS <==> forall i :: 0 <= i < SCREEN_CELLS ==> slots[i].entry.location != 0
  {
    PigeonHole(order, SCREEN_CELLS);
  }

  ghost predicate Sound(slots: seq<Slot>, head: int) {
    exists order :: Integrity(slots, head, order)
  }

  lemma Front(slots: seq<Slot>, head: int, order: seq<int>)
    requires Integrity(slots, head, order) && head != NULL
    ensures 0 <= head < |slots| && slots[head].entry.location != 0 && slots[head].next != head
  {
    assert order[0] in order;
    assert slots[order[0]].next == Link(order, 1);
  }

  /** Location 0 marks a free slot, so a list through one is never sound again. */
  lemma ZeroLocationBreaks(slots: seq<Slot>, head: int)
    requires |slots| == SCREEN_CELLS && 0 <= head < SCREEN_CELLS && slots[head].entry.location == 0
    ensures !Sound(slots, head)
  {
    forall order | Integrity(slots, head, order)
      ensures false
    {
      Front(slots, head, order);
    }
  }

  predicate FirstFree(slots: seq<Slot>, p: int) {
    0 <= p < |slots| && slots[p].entry.location == 0 && forall i :: 0 <= i < p ==> slots[i].entry.location != 0
  }

  /** Worse: the next add, whatever its location, is given that same slot and links it to itself, so every later
    * walk along the list that does not stop there goes round for ever. */
  lemma ZeroLocationCycles(slots: seq<Slot>, head: int, p: int, zero: Entry, e: Entry)
    requires |slots| == SCREEN_CELLS && FirstFree(slots, p) && zero.location == 0
    ensures var s := slots[p := Slot(zero, head)];
            forall q: int :: FirstFree(s, q) ==>
              q == p && s[q := Slot(e, p)][p].next == p && !Sound(s[q := Slot(e, p)], p)
  {
    var s: seq<Slot> := slots[p := Slot(zero, head)];
    assert FirstFree(s, p);
    forall q: int | FirstFree(s, q)
      ensures q == p && s[q := Slot(e, p)][p].next == p && !Sound(s[q := Slot(e, p)], p)
    {
      assert !(p < q) && !(q < p);
      SelfLink(s[q := Slot(e, p)], p);
    }
  }

  lemma SelfLink(slots: seq<Slot>, p: int)
    requires 0 <= p < |slots| && slots[p].next == p
    ensures !Sound(slots, p)
  {
    forall order | Integrity(slots, p, order)
      ensures false
    {
      Front(slots, p, order);
    }
  }

  // ---------------------------------------------------------------- the engine

  class Engine {
    const slots: array<Slot>
    const screen: array<Byte>
    var head: int
    ghost var order: seq<int>

    ghost predicate Valid()
      reads this, slots
    {
      && screen.Length >= 2 * SCREEN_CELLS
      && Integrity(slots[..], head, order)
      && ValidList(List())
    }

    ghost function List(): (l: seq<Entry>)
      reads this, slots
      requires Integrity(slots[..], head, order)
      ensures |l| == |order|
    {
      Entries(slots[..], order)
    }

    constructor (screen: array<Byte>)
      requires screen.Length >= 2 * SCREEN_CELLS
      ensures Valid() && List() == [] && this.screen == screen && fresh(slots)
    {
      this.screen := screen;
      slots := new Slot[SCREEN_CELLS](i => FREE);
      head := NULL;
      order := [];
    }

    method Poke(offset: int, c: Byte)
      requires 0 <= offset < screen.Length
      modifies screen
      ensures screen[..] == old(screen[..])[offset := c]
    {
      screen[offset] := c;
    }

    /** mp1_find_helper. */
    method FindHelper(location: Word16) returns (p: int)
      requires Valid()
      ensures p == Link(order, FindIndex(List(), location))
    {
      p := head;
      ghost var k := 0;
      while p != NULL
        invariant 0 <= k <= |order| && p == Link(order, k)
        invariant forall j :: 0 <= j < k ==> List()[j].location != location
        decreases |order| - k
      {
        if slots[p].entry.location == location {
          FindUnique(List(), location, k);
          return;
        }
        p := slots[p].next;
        k := k + 1;
      }
      assert FindIndex(List(), location) >= |order|;
    }

    /** mp1_malloc: the first free slot. */
    method Malloc() returns (p: int)
      requires slots.Length == SCREEN_CELLS
      ensures if forall i :: 0 <= i < SCREEN_CELLS ==> slots[i].entry.location != 0 then p == NULL
              else FirstFree(slots[..], p)
    {
      var i := 0;
      while i < SCREEN_CELLS
        invariant 0 <= i <= SCREEN_CELLS
        invariant forall j :: 0 <= j < i ==> slots[j].entry.location != 0
      {
        if slots[i].entry.location == 0 {
          return i;
        }
        i := i + 1;
      }
      return NULL;
    }

    /** mp1_ioctl_add. */
    method Add(user: Entry) returns (r: int)
      requires Valid()
      modifies this, slots, screen
      ensures r == if user.location >= 2000 || |old(order)| == 2000 then -1 else 0
      ensures user.location != 0 ==> Valid() && List() == Apply(old(List()), AddOp(user))
      ensures r == -1 ==> slots[..] == old(slots[..]) && screen[..] == old(screen[..])
      ensures r == 0 ==> screen[..] == old(screen[..])[2 * user.location := user.onChar]
      ensures r == 0 && user.location == 0 ==> !Sound(slots[..], head)
    {
      FullPool(slots[..], head, order);
      if user.location >= SCREEN_CELLS {
        return -1;
      }
      var e := user.(status := 1);
      e := e.(countdown := e.onLength);
      var p := Malloc();
      if p == NULL {
        return -1;
      }
      InsertKeeps(slots[..], head, order, p, e);
      slots[p] := Slot(e, head);
      head := p;
      order := [p] + order;
      Poke(2 * e.location, e.onChar);
      if user.location == 0 {
        ZeroLocationBreaks(slots[..], head);
      }
      return 0;
    }

    /** mp1_ioctl_remove. */
    method Remove(location: Word16) returns (r: int)
      requires Valid()
      modifies this, slots
      ensures Valid() && List() == Apply(old(List()), RemoveOp(location))
      ensures r == if Has(old(List()), location) then 0 else -1
      ensures slots[..] == if r == -1 then old(slots[..])
                           else Unlinked(old(slots[..]), old(order), FindIndex(old(List()), location))
    {
      hide Integrity, Entries, ValidList, FindIndex, Unlinked, Apply;
      var p := FindHelper(location);
      ghost var k := FindIndex(List(), location);
      RemoveFound(List(), location);
      FoundSlot(slots[..], head, order, k);
      if p == NULL {
        return -1;
      }
      RemoveKeeps(slots[..], head, order, k);
      Unlink(p, k);
      return 0;
    }

    /** The splice and the mp1_free. */
    method Unlink(p: int, ghost k: int)
      requires Valid() && 0 <= k < |order| && p == order[k]
      requires Integrity(Unlinked(slots[..], order, k), if k == 0 then slots[..][p].next else head, Without(order, k))
      requires ValidList(Without(List(), k))
      requires Entries(Unlinked(slots[..], order, k), Without(order, k)) == Without(List(), k)
      modifies this, slots
      ensures Valid() && List() == Without(old(List()), k) && slots[..] == Unlinked(old(slots[..]), old(order), k)
    {
      var before := FindPrevious(p, k);
      hide Integrity, Entries, ValidList, Without, Link;
      FoundSlot(slots[..], head, order, k);
      ghost var was := slots[..];
      var next := slots[p].next;
      if before == NULL {
        head := next;
      } else {
        slots[before] := slots[before].(next := next);
      }
      ghost var cut := slots[..];
      assert cut == if before == NULL then was else was[before := was[before].(next := next)];
      slots[p] := FREE;
      assert slots[..] == cut[p := FREE];
      assert slots[..] == Unlinked(was, order, k);
      order := Without(order, k);
    }

    /** remove_find_prev: the slot whose link is p, or NULL if it is the head. */
    method FindPrevious(p: int, ghost k: int) returns (before: int)
      requires Valid() && 0 <= k < |order| && p == order[k]
      ensures before == if k == 0 then NULL else order[k - 1]
    {
      before := NULL;
      ghost var j := 0;
      while (if before == NULL then head else slots[before].next) != p
        invariant 0 <= j <= k && before == if j == 0 then NULL else order[j - 1]
        invariant Link(order, j) == if before == NULL then head else slots[before].next
        decreases k - j
      {
        before := if before == NULL then head else slots[before].next;
        j := j + 1;
      }
    }

    /** mp1_ioctl_sync: the second entry takes the first one's timing. The conditional move after the status test
      * never moves, so the off character is drawn whatever the status. */
    method Sync(from: Word16, to: Word16) returns (r: int)
      requires Valid()
      modifies slots, screen
      ensures Valid() && List() == Apply(old(List()), SyncOp(from, to))
      ensures r == if Has(old(List()), from) && Has(old(List()), to) then 0 else -1
      ensures screen[..] == ScreenAfter(old(screen[..]), old(List()), SyncOp(from, to))
    {
      hide Integrity, Entries, ValidList, FindIndex, Apply, Link, ScreenAfter;
      ghost var l := List();
      var p := FindHelper(from);
      ghost var i := FindIndex(l, from);
      FoundSlot(slots[..], head, order, i);
      SyncFound(screen[..], l, from, to);
      if p == NULL {
        return -1;
      }
      var q := FindHelper(to);
      ghost var k := FindIndex(l, to);
      FoundSlot(slots[..], head, order, k);
      if q == NULL {
        return -1;
      }
      CopyTiming(p, q, i, k);
      return 0;
    }

    /** The copying and the drawing. */
    method CopyTiming(p: int, q: int, ghost i: int, ghost k: int)
      requires Valid() && 0 <= i < |order| && 0 <= k < |order| && p == order[i] && q == order[k]
      requires 0 <= p < slots.Length && 0 <= q < slots.Length
      modifies slots, screen
      ensures Valid() && List() == old(List())[k := Copied(old(List())[i], old(List())[k])]
      ensures 1 <= old(List())[k].location < SCREEN_CELLS
      ensures screen[..] == old(screen[..])[2 * old(List())[k].location := old(List())[k].offChar]
    {
      hide Integrity;
      assert slots[p].entry == List()[i] && slots[q].entry == List()[k];
      var e := slots[q].entry.(onLength := slots[p].entry.onLength);
      e := e.(offLength := slots[p].entry.offLength);
      e := e.(countdown := slots[p].entry.countdown);
      e := e.(status := slots[p].entry.status);
      UpdateKeeps(slots[..], head, order, k, e);
      slots[q] := Slot(e, slots[q].next);
      Poke(2 * e.location, e.offChar);
    }

    /** mp1_rtc_tasklet. */
    method RtcTasklet()
      requires Valid()
      modifies slots, screen
      ensures Valid() && List() == Apply(old(List()), TickOp)
      ensures screen[..] == PaintAll(old(screen[..]), old(List()))
      ensures Drawn(old(screen[..]), old(List())) ==> Drawn(screen[..], List())
    {
      hide Integrity, Entries, ValidList, Tick, TickAll, Paint, Link, Drawn;
      ghost var l := List();
      var p := head;
      ghost var k := 0;
      FoundSlot(slots[..], head, order, 0);
      assert l == Entries(slots[..], order);
      TickNone(screen[..], l);
      while p != NULL
        invariant 0 <= k <= |order| == |l| && p == Link(order, k)
        invariant ValidList(l[..k]) && Valid() && List() == TickedTo(l, k)
        invariant screen[..] == PaintAll(old(screen[..]), l[..k])
        decreases |order| - k
      {
        FoundSlot(slots[..], head, order, k);
        TickNext(old(screen[..]), l, k);
        TickEntry(p, k);
        NextSlot(slots[..], head, order, k);
        p := slots[p].next;
        k := k + 1;
      }
      FoundSlot(slots[..], head, order, k);
      assert l[..k] == l;
      if Drawn(old(screen[..]), l) {
        TickDrawn(old(screen[..]), l);
      }
    }

    /** The body of the tasklet's loop. */
    method TickEntry(p: int, ghost k: int)
      requires Valid() && 0 <= k < |order| && p == order[k] && 0 <= p < slots.Length
      modifies slots, screen
      ensures Valid() && old(List())[k].status <= 1 && List() == old(List())[k := Tick(old(List()[k]))]
      ensures screen[..] == Paint(old(screen[..]), old(List()[k]))
    {
      hide Integrity, Tick;
      var e := slots[p].entry;
      assert e == List()[k];
      UpdateKeeps(slots[..], head, order, k, Tick(e));
      var left := (e.countdown - 1) % WORD;
      TickByCases(e);
      if Signed(left) > 0 {
        e := e.(countdown := left);
      } else {
        var length: Word16;
        if e.status % 2 == 1 {
          Poke(2 * e.location, e.offChar);
          length := e.offLength;
        } else {
          Poke(2 * e.location, e.onChar);
          length := e.onLength;
        }
        e := e.(countdown := length, status := 1 - e.status);
      }
      slots[p] := Slot(e, slots[p].next);
    }

    /** Whichever of the four it is. */
    method Dispatch(op: Op)
      requires Valid() && Callable(op)
      modifies this, slots, screen
      ensures Valid() && List() == Apply(old(List()), op)
      ensures screen[..] == ScreenAfter(old(screen[..]), old(List()), op)
    {
      hide Integrity, Entries, ValidList, Apply, PaintAll, FindIndex, Unlinked;
      match op
      case AddOp(e) =>
        var r := Add(e);
      case RemoveOp(location) =>
        var r := Remove(location);
      case SyncOp(from, to) =>
        var r := Sync(from, to);
      case TickOp =>
        RtcTasklet();
    }

    /** Any run of the engine is a run of the list, with the screen it draws; and each entry goes on showing what its
      * status calls for if every operation draws what it should. */
    method Run(ops: seq<Op>)
      requires Valid() && AllCallable(ops)
      modifies this, slots, screen
      ensures Valid() && List() == ApplyAll(old(List()), ops)
      ensures screen[..] == ScreenAfterAll(old(screen[..]), old(List()), ops)
      ensures Drawn(old(screen[..]), old(List())) && AllDraw(old(List()), ops) ==> Drawn(screen[..], List())
    {
      hide Integrity, Entries, Apply, ScreenAfter, Drawn, AllDraw;
      ghost var s, l := screen[..], List();
      var i := 0;
      assert ops[..0] == [];
      while i < |ops|
        invariant 0 <= i <= |ops| && Valid() && ValidList(l) && AllCallable(ops[..i])
        invariant List() == ApplyAll(l, ops[..i]) && screen[..] == ScreenAfterAll(s, l, ops[..i])
      {
        Dispatch(ops[i]);
        assert ops[..i + 1][..i] == ops[..i];
        i := i + 1;
      }
      assert ops[..i] == ops;
      if Drawn(s, l) && AllDraw(l, ops) {
        RunDrawn(s, l, ops);
      }
    }
  }

  /** Locations are 16-bit words, and 0 is not one to add. */
  predicate Callable(op: Op) {
    match op
    case AddOp(e) => e.location != 0
    case RemoveOp(location) => 0 <= location < WORD
    case SyncOp(from, to) => 0 <= from < WORD && 0 <= to < WORD
    case TickOp => true
  }

  predicate AllCallable(ops: seq<Op>)
    ensures AllCallable(ops) ==> forall op :: op in ops && op.AddOp? ==> op.e.location != 0
  {
    forall op :: op in ops ==> Callable(op)
  }

  lemma TickByCases(e: Entry)
    requires e.status <= 1
    ensures var left := (e.countdown - 1) % WORD;
            Tick(e) == if Signed(left) > 0 then e.(countdown := left)
                       else e.(countdown := if e.status % 2 == 1 then e.offLength else e.onLength,
                               status := 1 - e.status)
  {
  }

  lemma NextSlot(slots: seq<Slot>, head: int, order: seq<int>, k: int)
    requires Integrity(slots, head, order) && 0 <= k < |order|
    ensures 0 <= order[k] < |slots| && slots[order[k]].next == Link(order, k + 1)
  {
  }

  /** The list with its first k entries ticked. */
  ghost function TickedTo(l: seq<Entry>, k: int): (r: seq<Entry>)
    requires ValidList(l) && 0 <= k <= |l|
    ensures |r| == |l|
  {
    seq(|l|, i requires 0 <= i < |l| => if i < k then Tick(l[i]) else l[i])
  }

  lemma TickNone(screen: seq<Byte>, l: seq<Entry>)
    requires ValidList(l) && |screen| >= 2 * SCREEN_CELLS
    ensures ValidList(l[..0]) && TickedTo(l, 0) == l && TickedTo(l, |l|) == TickAll(l)
        && PaintAll(screen, l[..0]) == screen
  {
    hide Tick, Paint;
  }

  lemma TickNext(screen: seq<Byte>, l: seq<Entry>, k: int)
    requires ValidList(l) && |screen| >= 2 * SCREEN_CELLS && 0 <= k < |l|
    ensures TickedTo(l, k)[k] == l[k] && l[k].status <= 1 && TickedTo(l, k)[k := Tick(l[k])] == TickedTo(l, k + 1)
    ensures ValidList(l[..k]) && ValidList(l[..k + 1]) && l[k].location < SCREEN_CELLS
    ensures PaintAll(screen, l[..k + 1]) == Paint(PaintAll(screen, l[..k]), l[k])
  {
    hide Tick, Paint;
    assert l[..k + 1][..k] == l[..k];
  }

  /** Changing an entry's timing in place keeps the list sound. */
  lemma UpdateKeeps(slots: seq<Slot>, head: int, order: seq<int>, k: int, e: Entry)
    requires Integrity(slots, head, order) && 0 <= k < |order| && e.location == slots[order[k]].entry.location
    ensures var s := slots[order[k] := Slot(e, slots[order[k]].next)];
            Integrity(s, head, order) && Entries(s, order) == Entries(slots, order)[k := e]
  {
    var s := slots[order[k] := Slot(e, slots[order[k]].next)];
    forall j | 0 <= j < |order|
      ensures Entries(s, order)[j] == Entries(slots, order)[k := e][j]
    {
      assert j != k ==> order[j] != order[k];
    }
  }

  /** The pool once the k-th entry is unlinked and its slot freed. */
  function Unlinked(slots: seq<Slot>, order: seq<int>, k: int): (r: seq<Slot>)
    requires 0 <= k < |order| && forall j :: 0 <= j < |order| ==> 0 <= order[j] < |slots|
    ensures |r| == |slots|
  {
    var p := order[k];
    var s := if k == 0 then slots else slots[order[k - 1] := slots[order[k - 1]].(next := slots[p].next)];
    s[p := FREE]
  }

  /** Where the two searches end, and what a sync then makes of list and screen. */
  lemma SyncFound(screen: seq<Byte>, l: seq<Entry>, from: int, to: int)
    requires ValidList(l) && |screen| >= 2 * SCREEN_CELLS
    ensures var i, k := FindIndex(l, from), FindIndex(l, to);
            && (Has(l, from) <==> i < |l|) && (Has(l, to) <==> k < |l|)
            && (if i < |l| && k < |l| then
                  && Apply(l, SyncOp(from, to)) == l[k := Copied(l[i], l[k])] && l[k].location < SCREEN_CELLS
                  && ScreenAfter(screen, l, SyncOp(from, to)) == screen[2 * l[k].location := l[k].offChar]
                else
                  Apply(l, SyncOp(from, to)) == l && ScreenAfter(screen, l, SyncOp(from, to)) == screen)
  {
  }

  /** Where a search ends, and what removal then leaves. */
  lemma RemoveFound(l: seq<Entry>, location: int)
    requires ValidList(l)
    ensures var k := FindIndex(l, location);
            if k == |l| then !Has(l, location) && Apply(l, RemoveOp(location)) == l
            else Has(l, location) && Apply(l, RemoveOp(location)) == Without(l, k) && ValidList(Without(l, k))
  {
  }

  /** Every place on the list is a slot, and the first is the head. */
  lemma FoundSlot(slots: seq<Slot>, head: int, order: seq<int>, k: int)
    requires Integrity(slots, head, order) && 0 <= k <= |order|
    ensures |slots| == SCREEN_CELLS && forall j :: 0 <= j < |order| ==> 0 <= order[j] < |slots|
    ensures head == Link(order, 0) && (Link(order, k) == NULL <==> k == |order|)
    ensures k < |order| ==> Link(order, k) == order[k] && 0 <= order[k] < SCREEN_CELLS
    ensures k > 0 ==> 0 <= order[k - 1] < SCREEN_CELLS
  {
  }

  function Without<T>(l: seq<T>, k: int): (r: seq<T>)
    requires 0 <= k < |l|
    ensures |r| == |l| - 1
    ensures forall j :: 0 <= j < |r| ==> r[j] == if j < k then l[j] else l[j + 1]
  {
    l[..k] + l[k + 1..]
  }

  /** Unlinking the k-th entry and freeing its slot keeps the list sound. */
  lemma RemoveKeeps(slots: seq<Slot>, head: int, order: seq<int>, k: int)
    requires Integrity(slots, head, order) && 0 <= k < |order|
    ensures Integrity(Unlinked(slots, order, k), if k == 0 then slots[order[k]].next else head, Without(order, k))
    ensures Entries(Unlinked(slots, order, k), Without(order, k)) == Without(Entries(slots, order), k)
  {
    hide Unlinked, Without, Distinct, Link, Entries;
    var o, f := Without(order, k), Unlinked(slots, order, k);
    RemoveEntries(slots, order, k);
    LinkWithout(order, k, -1);
    RemoveMembers(order, k);
    forall j | 0 <= j < |o|
      ensures 0 <= o[j] < |f| && f[o[j]].next == Link(o, j + 1)
    {
      RemoveLink(slots, order, k, j);
    }
    forall i | 0 <= i < SCREEN_CELLS
      ensures f[i].entry.location != 0 <==> i in o
    {
      UnlinkedAt(slots, order, k, i);
    }
  }

  lemma RemoveEntries(slots: seq<Slot>, order: seq<int>, k: int)
    requires Distinct(order) && 0 <= k < |order|
    requires forall j :: 0 <= j < |order| ==> 0 <= order[j] < |slots|
    requires forall j :: 0 <= j < |order| ==> slots[order[j]].next == Link(order, j + 1)
    ensures var o, f := Without(order, k), Unlinked(slots, order, k);
            |o| == |order| - 1 && |f| == |slots| && (forall j :: 0 <= j < |o| ==> 0 <= o[j] < |f|) &&
            Entries(f, o) == Without(Entries(slots, order), k)
  {
    hide Unlinked, Distinct, Link;
    var o, f := Without(order, k), Unlinked(slots, order, k);
    forall j | 0 <= j < |o|
      ensures 0 <= o[j] < |f| && f[o[j]].entry == slots[o[j]].entry
    {
      RemoveLink(slots, order, k, j);
    }
    hide Without;
    assert forall j :: 0 <= j < |o| ==> Entries(f, o)[j] == Entries(slots, order)[if j < k then j else j + 1];
  }

  lemma DistinctAt(order: seq<int>, a: int, b: int)
    requires Distinct(order) && 0 <= a < |order| && 0 <= b < |order| && a != b
    ensures order[a] != order[b]
  {
  }

  /** What follows each place once the k-th is taken out. */
  lemma LinkWithout(order: seq<int>, k: int, j: int)
    requires 0 <= k < |order| && -1 <= j < |order| - 1
    ensures Link(Without(order, k), j + 1) == Link(order, if j < k - 1 then j + 1 else j + 2)
  {
  }

  lemma RemoveLink(slots: seq<Slot>, order: seq<int>, k: int, j: int)
    requires Distinct(order) && 0 <= k < |order| && 0 <= j < |order| - 1
    requires forall j :: 0 <= j < |order| ==> 0 <= order[j] < |slots|
    requires forall j :: 0 <= j < |order| ==> slots[order[j]].next == Link(order, j + 1)
    ensures var o, f := Without(order, k), Unlinked(slots, order, k);
            0 <= o[j] < |f| && f[o[j]].next == Link(o, j + 1) && f[o[j]].entry == slots[o[j]].entry
  {
    hide Unlinked, Distinct, Link;
    var o := Without(order, k);
    var at := if j < k then j else j + 1;
    assert o[j] == order[at];
    LinkWithout(order, k, j);
    UnlinkedAt(slots, order, k, order[at]);
    DistinctAt(order, at, k);
    if k > 0 && at != k - 1 {
      DistinctAt(order, at, k - 1);
    }
    assert slots[order[at]].next == Link(order, at + 1);
    assert slots[order[k]].next == Link(order, k + 1);
  }

  lemma UnlinkedAt(slots: seq<Slot>, order: seq<int>, k: int, i: int)
    requires 0 <= k < |order| && 0 <= i < |slots| && forall j :: 0 <= j < |order| ==> 0 <= order[j] < |slots|
    ensures var p := order[k];
            Unlinked(slots, order, k)[i] ==
            if i == p then FREE
            else if k > 0 && i == order[k - 1] then slots[i].(next := slots[p].next) else slots[i]
  {
  }

  lemma RemoveMembers(order: seq<int>, k: int)
    requires Distinct(order) && 0 <= k < |order|
    ensures var o := Without(order, k);
            Distinct(o) && order[k] !in o && forall i :: i in order <==> i == order[k] || i in o
  {
    var o := Without(order, k);
    hide Without;
    forall i | i in order && i != order[k]
      ensures i in o
    {
      var j :| 0 <= j < |order| && order[j] == i;
      assert o[if j < k then j else j - 1] == i;
    }
    forall i | i in o
      ensures i in order && i != order[k]
    {
      var j :| 0 <= j < |o| && o[j] == i;
      assert order[if j < k then j else j + 1] == i;
    }
  }

  /** Putting a live entry in a free slot at the front keeps the list sound. */
  lemma InsertKeeps(slots: seq<Slot>, head: int, order: seq<int>, p: int, e: Entry)
    requires Integrity(slots, head, order) && 0 <= p < SCREEN_CELLS && slots[p].entry.location == 0
    ensures e.location != 0 ==>
              var s := slots[p := Slot(e, head)];
              Integrity(s, p, [p] + order) && Entries(s, [p] + order) == [e] + Entries(slots, order)
  {
    hide Link, Distinct, Entries;
    if e.location != 0 {
      var s := slots[p := Slot(e, head)];
      var o := [p] + order;
      InsertMembers(slots, order, p);
      FrontLink(p, order);
      InsertLinks(slots, head, order, p, e);
      InsertEntries(slots, head, order, p, e);
      forall i | 0 <= i < SCREEN_CELLS
        ensures s[i].entry.location != 0 <==> i in o
      {
        assert i != p ==> s[i] == slots[i];
      }
    }
  }

  lemma InsertEntries(slots: seq<Slot>, head: int, order: seq<int>, p: int, e: Entry)
    requires 0 <= p < |slots| && p !in order && forall k :: 0 <= k < |order| ==> 0 <= order[k] < |slots|
    ensures forall k :: 0 <= k < |order| + 1 ==> 0 <= ([p] + order)[k] < |slots|
    ensures Entries(slots[p := Slot(e, head)], [p] + order) == [e] + Entries(slots, order)
  {
    var s, o := slots[p := Slot(e, head)], [p] + order;
    forall k | 0 <= k < |o|
      ensures Entries(s, o)[k] == ([e] + Entries(slots, order))[k]
    {
      assert k > 0 ==> o[k] == order[k - 1] && o[k] in order;
    }
  }

  lemma FrontLink(p: int, order: seq<int>)
    ensures Link([p] + order, 0) == p
    ensures forall k :: 0 < k <= |order| + 1 ==> Link([p] + order, k) == Link(order, k - 1)
  {
  }

  lemma InsertLinks(slots: seq<Slot>, head: int, order: seq<int>, p: int, e: Entry)
    requires |slots| == SCREEN_CELLS && 0 <= p < SCREEN_CELLS && p !in order && head == Link(order, 0)
    requires forall k :: 0 <= k < |order| ==> 0 <= order[k] < SCREEN_CELLS && slots[order[k]].next == Link(order, k + 1)
    ensures var s, o := slots[p := Slot(e, head)], [p] + order;
            forall k :: 0 <= k < |o| ==> 0 <= o[k] < SCREEN_CELLS && s[o[k]].next == Link(o, k + 1)
  {
    hide Link;
    var s, o := slots[p := Slot(e, head)], [p] + order;
    FrontLink(p, order);
    forall k | 0 <= k < |o|
      ensures 0 <= o[k] < SCREEN_CELLS && s[o[k]].next == Link(o, k + 1)
    {
      if k > 0 {
        assert o[k] == order[k - 1] && o[k] in order;
      }
    }
  }

  lemma InsertMembers(slots: seq<Slot>, order: seq<int>, p: int)
    requires |slots| == SCREEN_CELLS && 0 <= p < SCREEN_CELLS && slots[p].entry.location == 0 && Distinct(order)
    requires forall i :: 0 <= i < SCREEN_CELLS ==> (slots[i].entry.location != 0 <==> i in order)
    ensures p !in order && Distinct([p] + order)
    ensures forall i :: i in [p] + order <==> i == p || i in order
  {
    var o := [p] + order;
    forall i, j | 0 <= i < j < |o|
      ensures o[i] != o[j]
    {
      assert o[j] == order[j - 1] && o[j] in order;
    }
  }
}
