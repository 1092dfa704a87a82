/** The processes as the user sees them: three chains, one a terminal, each process the child of the one before. */
module Forest {
  import opened Bytes

  const MAX_PID := 6

  datatype Regs = Regs(esp: int, ebp: int)

  /** A process, and the registers its parent had when it executed it. */
  datatype Proc = Proc(pid: int, saved: Regs)

  /** An empty chain is a terminal that has not started. `suspended` is where each terminal was last interrupted. */
  datatype State = State(chains: seq<seq<Proc>>, suspended: seq<Regs>, current: int)

  type Forest = f: State | Wide(f) witness State([[], [], []], [Regs(0, 0), Regs(0, 0), Regs(0, 0)], 2)

  /** What can happen, with the registers of the code it happens to. */
  datatype Event = Tick(regs: Regs) | Execute(loadable: bool, regs: Regs) | Halt(regs: Regs)

  predicate InChain(c: seq<Proc>, p: int) {
    exists i :: 0 <= i < |c| && c[i].pid == p
  }

  predicate Wide(f: State) {
    |f.chains| == TERMINALS && |f.suspended| == TERMINALS && 0 <= f.current < TERMINALS
  }

  predicate Live(f: Forest, p: int)
  {
    exists t :: 0 <= t < TERMINALS && InChain(f.chains[t], p)
  }

  function Chain(f: Forest): seq<Proc>
  {
    f.chains[f.current]
  }

  function Last(c: seq<Proc>): Proc
    requires c != []
  {
    c[|c| - 1]
  }

  /** The smallest free process number from p up, or 0. */
  function FreeFrom(f: Forest, p: int): (r: int)
    requires 1 <= p <= MAX_PID + 1
    ensures r == 0 || p <= r <= MAX_PID
    ensures r != 0 ==> !Live(f, r)
    ensures forall q :: p <= q < (if r == 0 then MAX_PID + 1 else r) ==> Live(f, q)
    decreases MAX_PID + 1 - p
  {
    if p == MAX_PID + 1 then 0 else if Live(f, p) then FreeFrom(f, p + 1) else p
  }

  // ---------------------------------------------------------------- steps

  function With(f: Forest, c: seq<Proc>): (g: Forest)
    ensures g.current == f.current && g.suspended == f.suspended && Chain(g) == c
    ensures forall t :: 0 <= t < TERMINALS && t != f.current ==> g.chains[t] == f.chains[t]
  {
    f.(chains := f.chains[f.current := c])
  }

  function AfterExecute(f: Forest, loadable: bool, regs: Regs): (g: Forest)
    ensures g.current == f.current
  {
    var p := FreeFrom(f, 1);
    if !loadable || p == 0 then f else With(f, Chain(f) + [Proc(p, regs)])
  }

  /** A base shell that halts is executed again in its place. */
  function AfterHalt(f: Forest, regs: Regs): (g: Forest)
    requires Chain(f) != []
    ensures g.current == f.current
  {
    var rest := With(f, Chain(f)[..|Chain(f)| - 1]);
    if Chain(rest) == [] then AfterExecute(rest, true, regs) else rest
  }

  /** The next terminal resumes, or starts its shell. */
  function AfterTick(f: Forest, regs: Regs): (g: Forest)
  {
    var g: Forest := f.(suspended := f.suspended[f.current := regs], current := (f.current + 1) % TERMINALS);
    if Chain(g) == [] then AfterExecute(g, true, regs) else g
  }

  predicate Enabled(f: Forest, e: Event)
  {
    match e
    case Tick(_) => true
    case Execute(_, _) => Booted(f)
    case Halt(_) => Chain(f) != []
  }

  function Step(f: Forest, e: Event): (g: Forest)
    requires Enabled(f, e)
  {
    match e
    case Tick(regs) => AfterTick(f, regs)
    case Execute(loadable, regs) => AfterExecute(f, loadable, regs)
    case Halt(regs) => AfterHalt(f, regs)
  }

  predicate Runs(f: Forest, es: seq<Event>)
    decreases |es|, 0
  {
    es != [] ==> Runs(f, es[..|es| - 1]) && Enabled(Run(f, es[..|es| - 1]), es[|es| - 1])
  }

  function Run(f: Forest, es: seq<Event>): (g: Forest)
    requires Runs(f, es)
    decreases |es|, 1
  {
    if es == [] then f else Step(Run(f, es[..|es| - 1]), es[|es| - 1])
  }

  // ---------------------------------------------------------------- what holds of every run

  predicate Distinct(c: seq<Proc>) {
    forall i, j :: 0 <= i < j < |c| ==> c[i].pid != c[j].pid
  }

  /** Every process number names one process of one chain. */
  ghost predicate Shape(f: Forest) {
    && (forall t :: 0 <= t < TERMINALS ==> Distinct(f.chains[t]))
    && (forall t, i :: 0 <= t < TERMINALS && 0 <= i < |f.chains[t]| ==> 1 <= f.chains[t][i].pid <= MAX_PID)
    && (forall t, u, p :: 0 <= t < u < TERMINALS && InChain(f.chains[t], p) ==> !InChain(f.chains[u], p))
  }

  /** Terminal t's chain starts with process t + 1, and only base shells have the numbers 1 to 3. */
  ghost predicate Rooted(c: seq<Proc>, t: int) {
    forall i :: 0 <= i < |c| ==> if i == 0 then c[i].pid == t + 1 else c[i].pid > TERMINALS
  }

  predicate Booted(f: Forest)
  {
    forall t :: 0 <= t < TERMINALS ==> f.chains[t] != []
  }

  /** The first k terminals have started, with nothing but their shells, and the k-th is current. */
  predicate Booting(f: Forest, k: int)
  {
    0 <= k < TERMINALS && f.current == (k + 2) % TERMINALS &&
    forall t :: 0 <= t < TERMINALS ==> |f.chains[t]| == if t < k then 1 else 0
  }

  ghost predicate Sound(f: Forest) {
    && Shape(f)
    && (forall t :: 0 <= t < TERMINALS ==> Rooted(f.chains[t], t))
    && (Booted(f) || Booting(f, 0) || Booting(f, 1) || Booting(f, 2))
  }

  function Boot(regs: seq<Regs>): (f: Forest)
    requires |regs| == TERMINALS
  {
    State([[], [], []], regs, 2)
  }

  lemma BootIsSound(regs: seq<Regs>)
    requires |regs| == TERMINALS
    ensures Sound(Boot(regs))
  {
    assert Booting(Boot(regs), 0);
  }

  lemma RootsAreLive(f: Forest, t: int)
    requires Sound(f) && 0 <= t < TERMINALS
    ensures Live(f, t + 1) <==> f.chains[t] != []
  {
    if f.chains[t] != [] {
      assert f.chains[t][0].pid == t + 1;
      assert InChain(f.chains[t], t + 1);
    } else if Live(f, t + 1) {
      var u :| 0 <= u < TERMINALS && InChain(f.chains[u], t + 1);
      assert false;
    }
  }

  /** The number the next execute gets: above 3 once the shells are up, and the next shell's before that. */
  lemma NextPid(f: Forest)
    requires Sound(f)
    ensures Booted(f) ==> FreeFrom(f, 1) == 0 || FreeFrom(f, 1) > TERMINALS
    ensures forall k :: Booting(f, k) ==> FreeFrom(f, 1) == k + 1
  {
    hide Live, Shape;
    RootsAreLive(f, 0);
    RootsAreLive(f, 1);
    RootsAreLive(f, 2);
  }

  lemma PushKeepsShape(f: Forest, p: int, regs: Regs)
    requires Shape(f) && 1 <= p <= MAX_PID && !Live(f, p)
    ensures Shape(With(f, Chain(f) + [Proc(p, regs)]))
  {
    var c := Chain(f) + [Proc(p, regs)];
    PushMembers(Chain(f), Proc(p, regs));
    assert !InChain(Chain(f), p);
    assert Distinct(c);
  }

  lemma PushMembers(c: seq<Proc>, p: Proc)
    ensures forall q :: InChain(c + [p], q) <==> InChain(c, q) || q == p.pid
    ensures Distinct(c) && !InChain(c, p.pid) ==> Distinct(c + [p])
  {
    var d := c + [p];
    assert d[|c|] == p;
    forall q | InChain(d, q)
      ensures InChain(c, q) || q == p.pid
    {
      var i :| 0 <= i < |d| && d[i].pid == q;
      if i < |c| {
        assert c[i].pid == q;
      }
    }
    forall q | InChain(c, q)
      ensures InChain(d, q)
    {
      var i :| 0 <= i < |c| && c[i].pid == q;
      assert d[i].pid == q;
    }
  }

  lemma PopMembers(c: seq<Proc>)
    requires c != [] && Distinct(c)
    ensures forall q :: InChain(c[..|c| - 1], q) <==> InChain(c, q) && q != Last(c).pid
    ensures Distinct(c[..|c| - 1])
  {
    var d := c[..|c| - 1];
    forall q | InChain(d, q)
      ensures InChain(c, q) && q != Last(c).pid
    {
      var i :| 0 <= i < |d| && d[i].pid == q;
      assert c[i].pid == q;
    }
    forall q | InChain(c, q) && q != Last(c).pid
      ensures InChain(d, q)
    {
      var i :| 0 <= i < |c| && c[i].pid == q;
      assert d[i].pid == q;
    }
  }

  lemma PopKeepsShape(f: Forest)
    requires Shape(f) && Chain(f) != []
    ensures Shape(With(f, Chain(f)[..|Chain(f)| - 1]))
  {
    PopMembers(Chain(f));
  }

  /** An execute keeps the forest sound exactly when it fails or every shell is already up. */
  lemma ExecuteSound(f: Forest, loadable: bool, regs: Regs)
    requires Sound(f) && Chain(f) != []
    ensures Sound(AfterExecute(f, loadable, regs)) <==> Booted(f) || !loadable
  {
    hide Shape, Live;
    var g, p := AfterExecute(f, loadable, regs), FreeFrom(f, 1);
    NextPid(f);
    if loadable && p != 0 {
      PushKeepsShape(f, p, regs);
      var c := Chain(g);
      assert c[|c| - 1].pid == p;
      if Booted(f) {
        assert forall i :: 0 <= i < |c| - 1 ==> c[i] == Chain(f)[i];
        assert Rooted(c, f.current);
      } else {
        assert |c| == 2 && c[1].pid <= TERMINALS;
        assert !Rooted(c, f.current);
      }
    }
  }

  lemma EarlierShellsUp(f: Forest, t: int)
    requires Sound(f) && Chain(f) != [] && 0 <= t < f.current
    ensures f.chains[t] != []
  {
  }

  lemma OnlyHere(f: Forest, p: int)
    requires Sound(f) && InChain(Chain(f), p)
    ensures !Live(With(f, []), p)
  {
  }

  /** A base shell that halts is back at once under its own number. */
  lemma BaseShellReturns(f: Forest, regs: Regs)
    requires Sound(f) && |Chain(f)| == 1
    ensures AfterHalt(f, regs) == With(f, [Proc(f.current + 1, regs)]) && FreeFrom(With(f, []), 1) == f.current + 1
  {
    hide Shape, Booting, Booted;
    var rest, p := With(f, []), f.current + 1;
    assert Chain(f)[..0] == [];
    assert Chain(f)[0].pid == p;
    forall q | 1 <= q < p
      ensures Live(rest, q)
    {
      EarlierShellsUp(f, q - 1);
      assert f.chains[q - 1][0].pid == q;
      assert InChain(rest.chains[q - 1], q);
    }
    assert InChain(Chain(f), p);
    OnlyHere(f, p);
    FreeIs(rest, p);
    WithTwice(f, [], [Proc(p, regs)]);
    assert [] + [Proc(p, regs)] == [Proc(p, regs)];
  }

  lemma WithTwice(f: Forest, c: seq<Proc>, d: seq<Proc>)
    ensures With(With(f, c), d) == With(f, d)
  {
  }

  lemma FreeIs(f: Forest, p: int)
    requires 1 <= p <= MAX_PID && !Live(f, p) && forall q :: 1 <= q < p ==> Live(f, q)
    ensures FreeFrom(f, 1) == p
  {
    var r := FreeFrom(f, 1);
    assert r != 0 && !(r < p) && !(p < r);
  }

  lemma HaltSound(f: Forest, regs: Regs)
    requires Sound(f) && Chain(f) != []
    ensures Sound(AfterHalt(f, regs))
  {
    hide Shape, Live;
    var g, c := AfterHalt(f, regs), Chain(f);
    PopKeepsShape(f);
    if |c| == 1 {
      BaseShellReturns(f, regs);
      assert c[..0] == [];
      OnlyHere(f, f.current + 1);
      PushKeepsShape(With(f, []), f.current + 1, regs);
      WithTwice(f, [], [Proc(f.current + 1, regs)]);
      assert [] + [Proc(f.current + 1, regs)] == [Proc(f.current + 1, regs)];
    } else {
      assert Booted(f);
      assert Rooted(Chain(g), f.current);
    }
  }

  lemma TickSound(f: Forest, regs: Regs)
    requires Sound(f)
    ensures Sound(AfterTick(f, regs))
  {
    hide Live, InChain, Distinct;
    var g: Forest := f.(suspended := f.suspended[f.current := regs], current := (f.current + 1) % TERMINALS);
    assert Shape(g);
    hide Shape;
    if Chain(g) == [] {
      var p := FreeFrom(g, 1);
      SameLive(f, g, 1);
      NextPid(f);
      PushKeepsShape(g, p, regs);
    }
  }

  lemma SameLive(f: Forest, g: Forest, p: int)
    requires f.chains == g.chains && 1 <= p <= MAX_PID + 1
    ensures FreeFrom(f, p) == FreeFrom(g, p)
    decreases MAX_PID + 1 - p
  {
    if p <= MAX_PID {
      SameLive(f, g, p + 1);
    }
  }

  lemma StepSound(f: Forest, e: Event)
    requires Sound(f) && Enabled(f, e)
    ensures Sound(Step(f, e))
  {
    hide Sound;
    match e
    case Tick(regs) => TickSound(f, regs);
    case Execute(loadable, regs) => ExecuteBooted(f, loadable, regs);
    case Halt(regs) => HaltSound(f, regs);
  }

  lemma ExecuteBooted(f: Forest, loadable: bool, regs: Regs)
    requires Sound(f) && Booted(f)
    ensures Sound(AfterExecute(f, loadable, regs))
  {
    ExecuteSound(f, loadable, regs);
  }

  /** From boot on, every process number names one process of one chain, and terminal t's chain starts with t + 1. */
  lemma {:induction false} RunSound(f: Forest, es: seq<Event>)
    requires Sound(f) && Runs(f, es)
    ensures Sound(Run(f, es))
    decreases |es|
  {
    hide Sound, Step;
    if es != [] {
      RunSound(f, es[..|es| - 1]);
      StepSound(Run(f, es[..|es| - 1]), es[|es| - 1]);
    }
  }

  /** So in every run of the kernel. */
  lemma BootRunSound(regs: seq<Regs>, es: seq<Event>)
    requires |regs| == TERMINALS && Runs(Boot(regs), es)
    ensures Sound(Run(Boot(regs), es))
  {
    BootIsSound(regs);
    RunSound(Boot(regs), es);
  }

  // ---------------------------------------------------------------- whose turn it is, and how many there are

  function TicksIn(es: seq<Event>): nat {
    if es == [] then 0 else TicksIn(es[..|es| - 1]) + if es[|es| - 1].Tick? then 1 else 0
  }

  /** Whatever else happens, the terminals are scheduled in turn. */
  lemma {:induction false} TurnsRotate(f: Forest, es: seq<Event>)
    requires Runs(f, es)
    ensures Run(f, es).current == (f.current + TicksIn(es)) % 3
    decreases |es|
  {
    hide Step;
    if es != [] {
      TurnsRotate(f, es[..|es| - 1]);
      TurnStep(Run(f, es[..|es| - 1]), es[|es| - 1]);
    }
  }

  lemma TurnStep(f: Forest, e: Event)
    requires Enabled(f, e)
    ensures Step(f, e).current == if e.Tick? then (f.current + 1) % 3 else f.current
  {
    hide FreeFrom;
  }

  function Pids(c: seq<Proc>): (r: set<int>)
    ensures forall p :: p in r <==> InChain(c, p)
  {
    set i | 0 <= i < |c| :: c[i].pid
  }

  lemma {:induction false} PidCount(c: seq<Proc>)
    requires Distinct(c)
    ensures |Pids(c)| == |c|
  {
    if c != [] {
      PidCount(c[..|c| - 1]);
      PopMembers(c);
      assert InChain(c, Last(c).pid);
      assert Pids(c) == Pids(c[..|c| - 1]) + {Last(c).pid};
    }
  }

  function AllPids(f: Forest): (r: set<int>)
    ensures forall p :: p in r <==> Live(f, p)
  {
    Pids(f.chains[0]) + Pids(f.chains[1]) + Pids(f.chains[2])
  }

  lemma AllCount(f: Forest)
    requires Shape(f)
    ensures |AllPids(f)| == |f.chains[0]| + |f.chains[1]| + |f.chains[2]|
  {
    PidCount(f.chains[0]);
    PidCount(f.chains[1]);
    PidCount(f.chains[2]);
    hide InChain, Distinct;
    Disjoint(Pids(f.chains[0]), Pids(f.chains[1]), Pids(f.chains[2]));
  }

  lemma Disjoint(a: set<int>, b: set<int>, c: set<int>)
    requires a !! b && a !! c && b !! c
    ensures |a + b + c| == |a| + |b| + |c|
  {
    assert a + b !! c;
  }

  lemma LivePids(f: Forest, p: int)
    requires Shape(f) && Live(f, p)
    ensures 1 <= p <= 6
  {
  }

  /** No number is free if and only if six processes live: there are never more. */
  lemma AtMostSix(f: Forest)
    requires Sound(f)
    ensures |f.chains[0]| + |f.chains[1]| + |f.chains[2]| <= 6
    ensures FreeFrom(f, 1) == 0 <==> |f.chains[0]| + |f.chains[1]| + |f.chains[2]| == 6
  {
    hide Rooted, Booted, Booting, Shape, Live, AllPids;
    AllCount(f);
    var all := {1, 2, 3, 4, 5, 6};
    forall p | p in AllPids(f)
      ensures p in all
    {
      LivePids(f, p);
    }
    Within(AllPids(f), all);
    assert FreeFrom(f, 1) != 0 ==> FreeFrom(f, 1) in all && FreeFrom(f, 1) !in AllPids(f);
  }

  lemma Within(s: set<int>, all: set<int>)
    requires s <= all
    ensures |s| <= |all| && (|s| == |all| <==> s == all)
  {
    assert all == s + (all - s) && s !! all - s;
  }

  // ---------------------------------------------------------------- last in, first out

  /** Throughout the run terminal t has more than d processes. */
  predicate StaysAbove(f: Forest, es: seq<Event>, t: int, d: int)
    requires Runs(f, es) && 0 <= t < TERMINALS
    decreases |es|
  {
    |Run(f, es).chains[t]| > d && (es != [] ==> StaysAbove(f, es[..|es| - 1], t, d))
  }

  /** One step changes nothing of a chain but its top, and only that of the terminal it happens in. */
  lemma StepKeepsBottom(f: Forest, e: Event, t: int, d: nat)
    requires Sound(f) && Enabled(f, e) && 0 <= t < TERMINALS && d > 0
    requires |f.chains[t]| > d && |Step(f, e).chains[t]| > d
    ensures Step(f, e).chains[t][..d + 1] == f.chains[t][..d + 1]
  {
    hide Sound, FreeFrom;
  }

  lemma {:induction false} RunKeepsBottom(f: Forest, es: seq<Event>, t: int, d: nat)
    requires Sound(f) && Runs(f, es) && 0 <= t < TERMINALS && d > 0 && StaysAbove(f, es, t, d)
    ensures |Run(f, es).chains[t]| > d && |f.chains[t]| > d
    ensures Run(f, es).chains[t][..d + 1] == f.chains[t][..d + 1]
    decreases |es|
  {
    hide Sound, Step;
    if es != [] {
      var start := es[..|es| - 1];
      RunKeepsBottom(f, start, t, d);
      RunSound(f, start);
      StepKeepsBottom(Run(f, start), es[|es| - 1], t, d);
    }
  }

  /** Whatever the child starts, and whatever any other terminal does or whenever it is scheduled, halting the child
    * goes back to its parent, with the very registers the parent had when it executed it. */
  lemma HaltRestoresParent(f: Forest, regs: Regs, es: seq<Event>, last: Regs)
    requires Sound(f) && Booted(f) && FreeFrom(f, 1) != 0
    requires Runs(AfterExecute(f, true, regs), es)
    requires StaysAbove(AfterExecute(f, true, regs), es, f.current, |Chain(f)|)
    requires var g := Run(AfterExecute(f, true, regs), es);
             g.current == f.current && |Chain(g)| == |Chain(f)| + 1
    ensures var g := Run(AfterExecute(f, true, regs), es);
            Last(Chain(g)).saved == regs && Chain(AfterHalt(g, last)) == Chain(f)
  {
    hide Sound, FreeFrom;
    var h := AfterExecute(f, true, regs);
    var g, d := Run(h, es), |Chain(f)|;
    ExecuteBooted(f, true, regs);
    RunKeepsBottom(h, es, f.current, d);
    assert Chain(g)[..d + 1] == Chain(g);
    assert Chain(h)[..d + 1] == Chain(h);
    assert Chain(h)[..d] == Chain(f);
  }

  /** In every state the run ends an event in, another terminal is current. */
  predicate StaysAway(f: Forest, es: seq<Event>, t: int)
    requires Runs(f, es)
    decreases |es|
  {
    Run(f, es).current != t && (es != [] ==> StaysAway(f, es[..|es| - 1], t))
  }

  lemma {:induction false} AwayKeeps(f: Forest, es: seq<Event>, t: int)
    requires Sound(f) && Runs(f, es) && 0 <= t < TERMINALS && f.chains[t] != [] && StaysAway(f, es, t)
    ensures Run(f, es).chains[t] == f.chains[t] && Run(f, es).suspended[t] == f.suspended[t]
    decreases |es|
  {
    hide Sound, FreeFrom;
    if es != [] {
      var start := es[..|es| - 1];
      AwayKeeps(f, start, t);
      AwayStep(Run(f, start), es[|es| - 1], t);
    }
  }

  lemma AwayStep(f: Forest, e: Event, t: int)
    requires Enabled(f, e) && 0 <= t < TERMINALS && f.current != t && Step(f, e).current != t
    ensures Step(f, e).chains[t] == f.chains[t] && Step(f, e).suspended[t] == f.suspended[t]
  {
  }

  /** A terminal interrupted by the clock comes back with its processes as they were and the registers it had. */
  lemma TickResumes(f: Forest, regs: Regs, es: seq<Event>, last: Regs)
    requires Sound(f) && Chain(f) != []
    requires Runs(AfterTick(f, regs), es) && StaysAway(AfterTick(f, regs), es, f.current)
    requires (Run(AfterTick(f, regs), es).current + 1) % TERMINALS == f.current
    ensures var g := AfterTick(Run(AfterTick(f, regs), es), last);
            g.current == f.current && Chain(g) == Chain(f) && g.suspended[g.current] == regs
  {
    hide Sound, Run, Runs, StaysAway, AfterTick;
    TickSound(f, regs);
    TickLeaves(f, regs);
    AwayKeeps(AfterTick(f, regs), es, f.current);
    TickReaches(Run(AfterTick(f, regs), es), last);
  }

  lemma TickLeaves(f: Forest, regs: Regs)
    ensures AfterTick(f, regs).chains[f.current] == Chain(f) && AfterTick(f, regs).suspended[f.current] == regs
  {
  }

  lemma TickReaches(f: Forest, regs: Regs)
    requires f.chains[(f.current + 1) % TERMINALS] != []
    ensures var g := AfterTick(f, regs);
            && g.current == (f.current + 1) % TERMINALS && Chain(g) == f.chains[g.current]
            && g.suspended[g.current] == f.suspended[g.current]
  {
  }

  // ---------------------------------------------------------------- what goes wrong earlier

  /** The chains hold exactly the numbers 1 to n. */
  ghost predicate Takes(f: Forest, n: int) {
    forall p :: Live(f, p) <==> 1 <= p <= n
  }

  lemma TakesNext(f: Forest, n: int, regs: Regs)
    requires Takes(f, n) && 0 <= n < MAX_PID
    ensures FreeFrom(f, 1) == n + 1 && AfterExecute(f, true, regs) == With(f, Chain(f) + [Proc(n + 1, regs)])
    ensures Takes(AfterExecute(f, true, regs), n + 1)
  {
    FreeIs(f, n + 1);
    var g := AfterExecute(f, true, regs);
    PushMembers(Chain(f), Proc(n + 1, regs));
    forall p
      ensures Live(g, p) <==> Live(f, p) || p == n + 1
    {
      if Live(f, p) {
        var t :| 0 <= t < TERMINALS && InChain(f.chains[t], p);
        assert InChain(g.chains[t], p);
      }
      assert InChain(g.chains[g.current], n + 1);
    }
  }

  lemma TakesTick(f: Forest, n: int, regs: Regs)
    requires Takes(f, n) && 0 <= n < MAX_PID && f.chains[(f.current + 1) % TERMINALS] == []
    ensures Takes(AfterTick(f, regs), n + 1) && Chain(AfterTick(f, regs)) == [Proc(n + 1, regs)]
    ensures AfterTick(f, regs).current == (f.current + 1) % TERMINALS
    ensures forall t :: 0 <= t < TERMINALS && t != (f.current + 1) % TERMINALS ==>
              AfterTick(f, regs).chains[t] == f.chains[t]
  {
    var g: Forest := f.(suspended := f.suspended[f.current := regs], current := (f.current + 1) % TERMINALS);
    hide InChain, FreeFrom, With;
    assert forall p :: Live(g, p) <==> Live(f, p);
    TakesNext(g, n, regs);
    assert [] + [Proc(n + 1, regs)] == [Proc(n + 1, regs)];
  }

  /** An execute before all three shells are up takes a number meant for a shell: here the second terminal's shell
    * gets 3 and the third terminal's 4. */
  lemma EarlyExecute(regs: seq<Regs>, r: Regs)
    requires |regs| == TERMINALS
    ensures var f := AfterTick(AfterExecute(AfterTick(Boot(regs), r), true, r), r);
            var g := AfterTick(f, r);
            f.chains[1] == [Proc(3, r)] && g.chains[2] == [Proc(4, r)] && !Sound(f) && !Sound(g)
  {
    hide Shape, AfterTick, AfterExecute, FreeFrom;
    var start := Boot(regs);
    assert Takes(start, 0);
    hide Takes;
    TakesTick(start, 0, r);
    var one := AfterTick(start, r);
    TakesNext(one, 1, r);
    var two := AfterExecute(one, true, r);
    TakesTick(two, 2, r);
    TakesTick(AfterTick(two, r), 3, r);
    Misrooted(AfterTick(two, r), 1);
    Misrooted(AfterTick(AfterTick(two, r), r), 2);
  }

  lemma Misrooted(f: Forest, t: int)
    requires 0 <= t < TERMINALS && f.chains[t] != [] && f.chains[t][0].pid != t + 1
    ensures !Sound(f)
  {
    assert !Rooted(f.chains[t], t);
  }
}
