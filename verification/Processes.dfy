/** Processes as the kernel keeps them: process control blocks at the bottom of 8 KB kernel stacks, one user page a
  * process, and a terminal table that says which process is where. The forest of chains is what it all stands for. */
module Processes {
  import opened Bytes
  import opened FileSystem
  import opened Directory
  import opened CommandLine
  import opened Loader
  import opened Forest

  const END_KMEM := 0x80_0000
  const STACK_SIZE := 0x2000           // kernel stack and control block together
  const USER_START := 0x80_0000
  const PROCESS_SIZE := 0x40_0000
  const UMEM_BITS := 0x87

  const NO_REGS := [Regs(0, 0), Regs(0, 0), Regs(0, 0)]
  const SHELL: seq<Byte> := Text("shell")

  // ---------------------------------------------------------------- addresses

  function StackTop(pid: int): int {
    END_KMEM - pid * STACK_SIZE
  }

  function PcbAddress(pid: int): int {
    END_KMEM - (pid + 1) * STACK_SIZE
  }

  function UserPage(pid: int): int {
    USER_START + PROCESS_SIZE * (pid - 1) + UMEM_BITS
  }

  /** The physical memory a page directory entry maps. */
  function PageBase(entry: int): int {
    entry / PROCESS_SIZE * PROCESS_SIZE
  }

  /** get_pcb_address: a stack address masked with 0xFFE000, bits 13 to 23. */
  function PcbOf(address: int): int {
    address / STACK_SIZE % 0x800 * STACK_SIZE
  }

  /** The division that finds a process number from the address of a control block, in 32 bits. */
  function PidOf(pcb: int): int {
    (END_KMEM - pcb) % 0x1_0000_0000 / STACK_SIZE - 1
  }

  /** An address on the kernel stack with that top, above the control block's 8 KB boundary. */
  predicate OnStack(address: int, top: int) {
    top - STACK_SIZE <= address < top
  }

  lemma MaskIsArithmetic(x: bv32)
    ensures x & 0xFFE000 == x / 0x2000 % 0x800 * 0x2000
  {
  }

  /** It keeps the eleven bits from the thirteenth on. */
  lemma MaskKeepsMiddle(high: nat, middle: nat, low: nat)
    requires middle < 0x800 && low < 0x2000
    ensures PcbOf(0x100_0000 * high + 0x2000 * middle + low) == 0x2000 * middle
  {
    assert (0x100_0000 * high + 0x2000 * middle + low) / 0x2000 == 0x800 * high + middle;
  }

  lemma OrIsSum(pid: bv32)
    requires pid < 6
    ensures (0x80_0000 + 0x40_0000 * pid) | 0x87 == 0x80_0000 + 0x40_0000 * pid + 0x87
    ensures UserPage(pid as int + 1) == ((0x80_0000 + 0x40_0000 * pid) | 0x87) as int
  {
    var entry := (0x80_0000 + 0x40_0000 * pid) | 0x87;
    if pid == 0 {
      assert entry == 0x80_0087;
    } else if pid == 1 {
      assert entry == 0xC0_0087;
    } else if pid == 2 {
      assert entry == 0x100_0087;
    } else if pid == 3 {
      assert entry == 0x140_0087;
    } else if pid == 4 {
      assert entry == 0x180_0087;
    } else {
      assert pid == 5 && entry == 0x1C0_0087;
    }
  }

  /** The entry maps the process's own 4 MB from 8 MB up, and says that they are present, writable, the user's, and one
    * page. */
  lemma EntryBits(pid: int)
    requires 1 <= pid <= 6
    ensures UserPage(pid) / 0x1000 * 0x1000 == PageBase(UserPage(pid)) == 0x80_0000 + 0x40_0000 * (pid - 1)
    ensures UserPage(pid) % 0x1000 == 0x87 && UserPage(pid) < 0x1_0000_0000
  {
    assert UserPage(pid) == 0x1000 * (0x800 + 0x400 * (pid - 1)) + 0x87;
    assert UserPage(pid) == 0x40_0000 * (2 + (pid - 1)) + 0x87;
  }

  /** From any address on a process's kernel stack the mask finds its control block, and from that its number. */
  lemma StackFindsProcess(address: int, pid: int)
    requires 1 <= pid <= MAX_PID && OnStack(address, StackTop(pid))
    ensures PcbOf(address) == PcbAddress(pid) && PidOf(PcbAddress(pid)) == pid
    ensures PcbAddress(pid) == 0x80_0000 - 0x2000 * (pid + 1) <= address < 0x80_0000 - 0x2000 * pid
  {
    assert address / STACK_SIZE == 1024 - (pid + 1);
  }

  /** Different processes share no kernel stack and no user page, and no user page meets the kernel's memory. */
  lemma ProcessesAreApart(p: int, q: int)
    requires 1 <= p < q <= MAX_PID
    ensures forall a :: !(OnStack(a, StackTop(p)) && OnStack(a, StackTop(q)))
    ensures PageBase(UserPage(p)) + PROCESS_SIZE <= PageBase(UserPage(q))
    ensures END_KMEM <= PageBase(UserPage(p)) && StackTop(p) < END_KMEM
  {
    assert UserPage(p) / PROCESS_SIZE == p + 1 && UserPage(q) / PROCESS_SIZE == q + 1;
  }

  /** Every saved register set points into the kernel stack of the process it was saved for. */
  ghost predicate Placed(f: Forest) {
    && (forall t :: 0 <= t < TERMINALS ==> ChainPlaced(f.chains[t]))
    && (forall t :: 0 <= t < TERMINALS && t != f.current && f.chains[t] != [] ==>
          OnStack(f.suspended[t].esp, StackTop(Last(f.chains[t]).pid)))
  }

  ghost predicate ChainPlaced(c: seq<Proc>) {
    forall i :: 0 < i < |c| ==> OnStack(c[i].saved.esp, StackTop(c[i - 1].pid))
  }

  /** The code an event happens to runs on the stack the task state segment names: its own. */
  predicate OnOwnStack(f: Forest, e: Event) {
    Chain(f) != [] ==> OnStack(e.regs.esp, StackTop(Last(Chain(f)).pid))
  }

  lemma StepPlaced(f: Forest, e: Event)
    requires Sound(f) && Placed(f) && Enabled(f, e) && OnOwnStack(f, e)
    ensures Placed(Step(f, e))
  {
    hide Sound, Placed;
    match e
    case Tick(r) => TickPlaced(f, r);
    case Execute(loadable, r) => ExecutePlaced(f, loadable, r);
    case Halt(r) => HaltPlaced(f, r);
  }

  lemma WithPlaced(f: Forest, c: seq<Proc>)
    requires Placed(f) && ChainPlaced(c)
    ensures Placed(With(f, c))
  {
    hide OnStack, StackTop, ChainPlaced;
  }

  lemma PushPlaced(c: seq<Proc>, p: Proc)
    requires ChainPlaced(c) && (c != [] ==> OnStack(p.saved.esp, StackTop(Last(c).pid)))
    ensures ChainPlaced(c + [p])
  {
    hide OnStack, StackTop;
    var d := c + [p];
    forall i | 0 < i < |d|
      ensures OnStack(d[i].saved.esp, StackTop(d[i - 1].pid))
    {
      if i < |c| {
        assert d[i] == c[i] && d[i - 1] == c[i - 1];
      }
    }
  }

  lemma ExecutePlaced(f: Forest, loadable: bool, r: Regs)
    requires Placed(f) && (Chain(f) != [] ==> OnStack(r.esp, StackTop(Last(Chain(f)).pid)))
    ensures Placed(AfterExecute(f, loadable, r))
  {
    hide OnStack, StackTop, FreeFrom, ChainPlaced, With;
    var p := FreeFrom(f, 1);
    ChainIsPlaced(f);
    PushPlaced(Chain(f), Proc(p, r));
    WithPlaced(f, Chain(f) + [Proc(p, r)]);
  }

  lemma ChainIsPlaced(f: Forest)
    requires Placed(f)
    ensures ChainPlaced(Chain(f))
  {
    hide ChainPlaced, OnStack;
  }

  lemma HaltPlaced(f: Forest, r: Regs)
    requires Placed(f) && Chain(f) != []
    ensures Placed(AfterHalt(f, r))
  {
    hide OnStack, StackTop, AfterExecute, With;
    var c := Chain(f);
    var d := c[..|c| - 1];
    ChainIsPlaced(f);
    assert ChainPlaced(d);
    WithPlaced(f, d);
    hide Placed, ChainPlaced;
    if d == [] {
      ExecutePlaced(With(f, d), true, r);
    }
  }

  lemma TickPlaced(f: Forest, r: Regs)
    requires Placed(f) && (Chain(f) != [] ==> OnStack(r.esp, StackTop(Last(Chain(f)).pid)))
    ensures Placed(AfterTick(f, r))
  {
    hide OnStack, StackTop, AfterExecute, ChainPlaced;
    var g: Forest := f.(suspended := f.suspended[f.current := r], current := (f.current + 1) % TERMINALS);
    assert Placed(g);
    if Chain(g) == [] {
      ExecutePlaced(g, true, r);
    }
  }

  predicate RunsOnOwnStacks(f: Forest, es: seq<Event>)
    requires Runs(f, es)
    decreases |es|
  {
    es != [] ==> RunsOnOwnStacks(f, es[..|es| - 1]) && OnOwnStack(Run(f, es[..|es| - 1]), es[|es| - 1])
  }

  /** From boot on, whatever stack pointer is restored lies on the kernel stack of the process it is restored for. */
  lemma {:induction false} RunPlaced(f: Forest, es: seq<Event>)
    requires Sound(f) && Placed(f) && Runs(f, es) && RunsOnOwnStacks(f, es)
    ensures Placed(Run(f, es))
    decreases |es|
  {
    hide Sound, Placed, Step, OnOwnStack;
    if es != [] {
      RunPlaced(f, es[..|es| - 1]);
      RunSound(f, es[..|es| - 1]);
      StepPlaced(Run(f, es[..|es| - 1]), es[|es| - 1]);
    }
  }

  lemma BootRunPlaced(regs: seq<Regs>, es: seq<Event>)
    requires |regs| == TERMINALS && Runs(Boot(regs), es) && RunsOnOwnStacks(Boot(regs), es)
    ensures Placed(Run(Boot(regs), es))
  {
    BootIsSound(regs);
    BootIsPlaced(regs);
    RunPlaced(Boot(regs), es);
  }

  // ---------------------------------------------------------------- tables

  datatype Pcb = Pcb(parent: int, processId: int, parentEsp: int, parentEbp: int, parentProcessId: int, status: int,
                     argSize: int, args: seq<Byte>)

  datatype Terminal = Terminal(pid: int, regs: Regs)

  function FirstFree(running: seq<bool>, i: int): (p: int)
    requires |running| == MAX_PID && 0 <= i <= MAX_PID
    ensures p == 0 || i < p <= MAX_PID
    decreases MAX_PID - i
  {
    if i == MAX_PID then 0 else if !running[i] then i + 1 else FirstFree(running, i + 1)
  }

  /** The control block execute writes for a process, its parent found from the stack it runs on. */
  function NewBlock(was: Pcb, pid: int, r: Regs): (b: Pcb)
    ensures pid > TERMINALS ==> b.parent == PcbOf(r.esp) && b.parentProcessId == PidOf(PcbOf(r.esp))
    ensures pid <= TERMINALS ==> b.parent == 0
    ensures b.processId == pid && b.parentEsp == r.esp && b.parentEbp == r.ebp
  {
    var b := was.(processId := pid, parentEsp := r.esp, parentEbp := r.ebp);
    if pid > TERMINALS then b.(parent := PcbOf(r.esp), parentProcessId := PidOf(PcbOf(r.esp))) else b.(parent := 0)
  }

  function PidIn(f: Forest, t: int): int
    requires 0 <= t < TERMINALS
  {
    if f.chains[t] == [] then t + 1 else Last(f.chains[t]).pid
  }

  /** A control block records the process it is for, and for any but a base shell who executed it and from where. */
  predicate BlockFor(b: Pcb, c: seq<Proc>, i: int)
    requires 0 <= i < |c|
  {
    && b.processId == c[i].pid
    && (c[i].pid <= TERMINALS ==> b.parent == 0)
    && (c[i].pid > TERMINALS && i > 0 ==>
          b.parentProcessId == c[i - 1].pid && b.parent == PcbAddress(c[i - 1].pid)
          && Regs(b.parentEsp, b.parentEbp) == c[i].saved)
  }

  ghost predicate BlocksFor(pcbs: seq<Pcb>, c: seq<Proc>) {
    |pcbs| == MAX_PID &&
    forall i :: 0 <= i < |c| ==> 1 <= c[i].pid <= MAX_PID && BlockFor(pcbs[c[i].pid - 1], c, i)
  }

  ghost predicate RunningAre(running: seq<bool>, f: Forest) {
    |running| == MAX_PID && forall p :: 1 <= p <= MAX_PID ==> (running[p - 1] <==> Live(f, p))
  }

  ghost predicate OnAre(isOn: seq<bool>, f: Forest) {
    |isOn| == TERMINALS && forall t :: 0 <= t < TERMINALS ==> (isOn[t] <==> f.chains[t] != [])
  }

  ghost predicate TerminalsAre(terminals: seq<Terminal>, f: Forest) {
    && |terminals| == TERMINALS
    && (forall t :: 0 <= t < TERMINALS ==> terminals[t].pid == PidIn(f, t))
    && (forall t :: 0 <= t < TERMINALS && t != f.current && f.chains[t] != [] ==> terminals[t].regs == f.suspended[t])
  }

  ghost predicate BlocksAre(pcbs: seq<Pcb>, f: Forest) {
    forall t :: 0 <= t < TERMINALS ==> BlocksFor(pcbs, f.chains[t])
  }

  lemma {:induction false} FirstFreeIs(running: seq<bool>, f: Forest, i: int)
    requires RunningAre(running, f) && 0 <= i <= MAX_PID
    ensures FirstFree(running, i) == FreeFrom(f, i + 1)
    decreases MAX_PID - i
  {
    hide Live;
    if i < MAX_PID {
      FirstFreeIs(running, f, i + 1);
    }
  }

  /** A free process's control block can be rewritten without touching any chain. */
  lemma OtherBlocks(pcbs: seq<Pcb>, c: seq<Proc>, p: int, b: Pcb)
    requires BlocksFor(pcbs, c) && 1 <= p <= MAX_PID && !InChain(c, p)
    ensures BlocksFor(pcbs[p - 1 := b], c)
  {
  }

  lemma PushBlocks(pcbs: seq<Pcb>, c: seq<Proc>, p: Proc)
    requires BlocksFor(pcbs, c) && 1 <= p.pid <= MAX_PID && BlockFor(pcbs[p.pid - 1], c + [p], |c|)
    ensures BlocksFor(pcbs, c + [p])
  {
    var d := c + [p];
    assert forall i :: 0 <= i < |c| ==> d[i] == c[i];
  }

  lemma PushRunning(running: seq<bool>, f: Forest, p: Proc)
    requires RunningAre(running, f) && 1 <= p.pid <= MAX_PID
    ensures RunningAre(running[p.pid - 1 := true], With(f, Chain(f) + [p]))
  {
    var g := With(f, Chain(f) + [p]);
    PushMembers(Chain(f), p);
    forall q | 1 <= q <= MAX_PID
      ensures Live(g, q) <==> Live(f, q) || q == p.pid
    {
      if Live(f, q) {
        var t :| 0 <= t < TERMINALS && InChain(f.chains[t], q);
        assert InChain(g.chains[t], q);
      }
      assert InChain(Chain(g), p.pid);
    }
  }

  lemma PopRunning(running: seq<bool>, f: Forest)
    requires RunningAre(running, f) && Shape(f) && Chain(f) != []
    ensures 1 <= Last(Chain(f)).pid <= MAX_PID
    ensures RunningAre(running[Last(Chain(f)).pid - 1 := false], With(f, Chain(f)[..|Chain(f)| - 1]))
  {
    var p := Last(Chain(f)).pid;
    var g := With(f, Chain(f)[..|Chain(f)| - 1]);
    PopMembers(Chain(f));
    assert InChain(Chain(f), p);
    forall q | 1 <= q <= MAX_PID
      ensures Live(g, q) <==> Live(f, q) && q != p
    {
      if Live(f, q) && q != p {
        var t :| 0 <= t < TERMINALS && InChain(f.chains[t], q);
        assert InChain(g.chains[t], q);
      }
    }
  }

  /** The tables after a start stand for the forest after an execute. */
  lemma StartBlocks(pcbs: seq<Pcb>, f: Forest, p: int, r: Regs, b: Pcb)
    requires BlocksAre(pcbs, f) && 1 <= p <= MAX_PID && !Live(f, p) && |pcbs| == MAX_PID
    requires p > TERMINALS && Chain(f) != [] ==>
               1 <= Last(Chain(f)).pid <= MAX_PID && OnStack(r.esp, StackTop(Last(Chain(f)).pid))
    requires b.processId == p && b.parent == NewBlock(b, p, r).parent && Regs(b.parentEsp, b.parentEbp) == r
    requires b.parentProcessId == NewBlock(b, p, r).parentProcessId
    ensures BlocksAre(pcbs[p - 1 := b], With(f, Chain(f) + [Proc(p, r)]))
  {
    hide PcbOf, PidOf, PcbAddress, OnStack, StackTop, BlockFor;
    var g, c := With(f, Chain(f) + [Proc(p, r)]), Chain(f);
    forall t | 0 <= t < TERMINALS
      ensures BlocksFor(pcbs[p - 1 := b], f.chains[t])
    {
      OtherBlocks(pcbs, f.chains[t], p, b);
    }
    StartedBlock(c, p, r, b);
    PushBlocks(pcbs[p - 1 := b], c, Proc(p, r));
  }

  lemma StartedBlock(c: seq<Proc>, p: int, r: Regs, b: Pcb)
    requires p > TERMINALS && c != [] ==> 1 <= Last(c).pid <= MAX_PID && OnStack(r.esp, StackTop(Last(c).pid))
    requires b.processId == p && b.parent == NewBlock(b, p, r).parent && Regs(b.parentEsp, b.parentEbp) == r
    requires b.parentProcessId == NewBlock(b, p, r).parentProcessId
    ensures BlockFor(b, c + [Proc(p, r)], |c|)
  {
    if p > TERMINALS && c != [] {
      StackFindsProcess(r.esp, Last(c).pid);
    }
  }

  lemma StartTerminals(terminals: seq<Terminal>, isOn: seq<bool>, f: Forest, p: int, r: Regs)
    requires TerminalsAre(terminals, f) && |isOn| == TERMINALS && isOn[f.current]
    requires forall t :: 0 <= t < TERMINALS && t != f.current ==> (isOn[t] <==> f.chains[t] != [])
    ensures var g := With(f, Chain(f) + [Proc(p, r)]);
            OnAre(isOn, g) && TerminalsAre(terminals[f.current := terminals[f.current].(pid := p)], g)
  {
  }

  /** The four tables at one moment. */
  datatype Tables = Tables(running: seq<bool>, pcbs: seq<Pcb>, terminals: seq<Terminal>, isOn: seq<bool>)

  /** The tables stand for the forest. */
  ghost predicate Stand(k: Tables, f: Forest) {
    Shape(f) && RunningAre(k.running, f) && BlocksAre(k.pcbs, f) && TerminalsAre(k.terminals, f) && OnAre(k.isOn, f)
  }

  /** They do but for a current terminal that is on and may have no process yet. */
  ghost predicate Ready(k: Tables, f: Forest) {
    && Shape(f) && RunningAre(k.running, f) && BlocksAre(k.pcbs, f) && TerminalsAre(k.terminals, f)
    && |k.isOn| == TERMINALS && k.isOn[f.current]
    && forall t :: 0 <= t < TERMINALS && t != f.current ==> (k.isOn[t] <==> f.chains[t] != [])
  }

  lemma StandIsReady(k: Tables, f: Forest)
    requires Stand(k, f) && Chain(f) != []
    ensures Ready(k, f) && 1 <= Last(Chain(f)).pid <= MAX_PID
  {
  }

  /** The tables after a process is started. */
  function Begun(k: Tables, current: int, pid: int, b: Pcb): Tables
    requires |k.running| == |k.pcbs| == MAX_PID && |k.terminals| == TERMINALS
    requires 0 <= current < TERMINALS && 1 <= pid <= MAX_PID
  {
    k.(running := k.running[pid - 1 := true], pcbs := k.pcbs[pid - 1 := b],
       terminals := k.terminals[current := k.terminals[current].(pid := pid)])
  }

  lemma ReadySlots(k: Tables, f: Forest)
    requires Ready(k, f)
    ensures |k.running| == MAX_PID && FirstFree(k.running, 0) == FreeFrom(f, 1)
  {
    FirstFreeIs(k.running, f, 0);
  }

  lemma StartKeeps(k: Tables, f: Forest, p: int, r: Regs, b: Pcb, command: seq<Byte>)
    requires Ready(k, f) && |k.pcbs| == MAX_PID
    requires p == FreeFrom(f, 1) != 0 && Started(k.pcbs[p - 1], b, p, r, command)
    requires Chain(f) != [] ==> OnStack(r.esp, StackTop(Last(Chain(f)).pid))
    ensures |k.running| == MAX_PID && |k.terminals| == TERMINALS
        && Stand(Begun(k, f.current, p, b), AfterExecute(f, true, r))
    ensures Chain(AfterExecute(f, true, r)) != [] && Last(Chain(AfterExecute(f, true, r))).pid == p
  {
    hide RunningAre, BlocksAre, TerminalsAre, OnAre, OnStack, StackTop, PcbOf, PidOf, Live, Shape, UpToNul, KeptArgs,
      Line;
    if Chain(f) != [] {
      LastPid(f);
    }
    StartBlocks(k.pcbs, f, p, r, b);
    StartTerminals(k.terminals, k.isOn, f, p, r);
    PushRunning(k.running, f, Proc(p, r));
    PushKeepsShape(f, p, r);
    TableSizes(k, f);
  }

  lemma TableSizes(k: Tables, f: Forest)
    requires RunningAre(k.running, f) && TerminalsAre(k.terminals, f)
    ensures |k.running| == MAX_PID && |k.terminals| == TERMINALS
  {
  }

  lemma LastPid(f: Forest)
    requires Shape(f) && Chain(f) != []
    ensures 1 <= Last(Chain(f)).pid <= MAX_PID
  {
  }

  /** What the kernel reads when the top process halts. */
  lemma HaltFacts(k: Tables, f: Forest, r: Regs)
    requires Sound(f) && Chain(f) != [] && Stand(k, f) && OnStack(r.esp, StackTop(Last(Chain(f)).pid))
    ensures |k.pcbs| == MAX_PID && 1 <= Last(Chain(f)).pid <= MAX_PID && PidOf(PcbOf(r.esp)) == Last(Chain(f)).pid
    ensures k.pcbs[Last(Chain(f)).pid - 1].processId == Last(Chain(f)).pid
    ensures Last(Chain(f)).pid <= TERMINALS <==> |Chain(f)| == 1
  {
    var c := Chain(f);
    assert BlocksFor(k.pcbs, c) && BlockFor(k.pcbs[c[|c| - 1].pid - 1], c, |c| - 1);
    assert Rooted(c, f.current);
    StackFindsProcess(r.esp, Last(c).pid);
  }

  /** What the block of a process that is not a base shell says of its parent. */
  lemma UnwindFacts(k: Tables, f: Forest)
    requires Sound(f) && |Chain(f)| > 1 && Stand(k, f)
    ensures var c := Chain(f);
            var id, q := Last(c).pid, c[|c| - 2].pid;
            && TERMINALS < id <= MAX_PID && 1 <= q <= MAX_PID && q != id && |k.pcbs| == MAX_PID
            && k.pcbs[id - 1].parentProcessId == q && PidOf(k.pcbs[id - 1].parent) == q
            && Regs(k.pcbs[id - 1].parentEsp, k.pcbs[id - 1].parentEbp) == Last(c).saved
  {
    var c := Chain(f);
    assert BlocksFor(k.pcbs, c) && BlockFor(k.pcbs[c[|c| - 1].pid - 1], c, |c| - 1);
    assert Rooted(c, f.current) && Distinct(c);
    var q := c[|c| - 2].pid;
    StackFindsProcess(PcbAddress(q), q);
  }

  /** The tables after the top process returns to its parent q. */
  function Unwound(k: Tables, current: int, pid: int, q: int, status: int): Tables
    requires |k.running| == |k.pcbs| == MAX_PID && |k.terminals| == TERMINALS
    requires 0 <= current < TERMINALS && 1 <= pid <= MAX_PID && 1 <= q <= MAX_PID
  {
    k.(running := k.running[pid - 1 := false], pcbs := k.pcbs[q - 1 := k.pcbs[q - 1].(status := status)],
       terminals := k.terminals[current := k.terminals[current].(pid := q)])
  }

  lemma UnwindKeeps(k: Tables, f: Forest, q: int, status: int)
    requires Stand(k, f) && |k.pcbs| == MAX_PID && |Chain(f)| > 1 && q == Chain(f)[|Chain(f)| - 2].pid
    ensures 1 <= q <= MAX_PID && 1 <= Last(Chain(f)).pid <= MAX_PID && |k.running| == MAX_PID
        && |k.terminals| == TERMINALS
    ensures Stand(Unwound(k, f.current, Last(Chain(f)).pid, q, status), With(f, Chain(f)[..|Chain(f)| - 1]))
  {
    hide Live, RunningAre, BlocksAre;
    var c := Chain(f);
    assert 1 <= c[|c| - 2].pid <= MAX_PID;
    PopRunning(k.running, f);
    hide Shape;
    PopKeepsShape(f);
    UnwindBlocks(k.pcbs, f, q, status);
    TableSizes(k, f);
  }

  lemma UnwindBlocks(pcbs: seq<Pcb>, f: Forest, q: int, status: int)
    requires BlocksAre(pcbs, f) && Chain(f) != [] && 1 <= q <= MAX_PID
    ensures BlocksAre(pcbs[q - 1 := pcbs[q - 1].(status := status)], With(f, Chain(f)[..|Chain(f)| - 1]))
  {
    hide PcbAddress;
    var p, g := pcbs[q - 1 := pcbs[q - 1].(status := status)], With(f, Chain(f)[..|Chain(f)| - 1]);
    forall t | 0 <= t < TERMINALS
      ensures BlocksFor(p, g.chains[t])
    {
      assert BlocksFor(pcbs, f.chains[t]);
      forall i | 0 <= i < |g.chains[t]|
        ensures 1 <= g.chains[t][i].pid <= MAX_PID && BlockFor(p[g.chains[t][i].pid - 1], g.chains[t], i)
      {
        assert BlockFor(pcbs[f.chains[t][i].pid - 1], f.chains[t], i);
      }
    }
  }

  /** The tables once a base shell is marked as not running. */
  lemma ShellOff(k: Tables, f: Forest, r: Regs)
    requires Stand(k, f) && Sound(f) && |Chain(f)| == 1
    ensures |k.running| == MAX_PID && 1 <= Last(Chain(f)).pid <= MAX_PID
    ensures Ready(k.(running := k.running[Last(Chain(f)).pid - 1 := false]), With(f, []))
    ensures FreeFrom(With(f, []), 1) == f.current + 1 && AfterExecute(With(f, []), true, r) == AfterHalt(f, r)
    ensures Chain(AfterHalt(f, r)) == [Proc(f.current + 1, r)]
  {
    hide Live, RunningAre, BlocksAre, Shape;
    assert Chain(f)[..0] == [];
    assert Rooted(Chain(f), f.current);
    PopRunning(k.running, f);
    PopKeepsShape(f);
    BaseShellReturns(f, r);
    ShellOffBlocks(k.pcbs, f);
    TableSizes(k, f);
  }

  lemma ShellOffBlocks(pcbs: seq<Pcb>, f: Forest)
    requires BlocksAre(pcbs, f) && Chain(f) != []
    ensures BlocksAre(pcbs, With(f, []))
  {
    hide BlockFor;
    assert BlocksFor(pcbs, Chain(f));
  }

  /** The forest once the clock has moved on, before the next terminal's process or shell. */
  function Moved(f: Forest, r: Regs): Forest {
    f.(suspended := f.suspended[f.current := r], current := (f.current + 1) % TERMINALS)
  }

  /** The tables after save_esp_ebp and the move to the next terminal. */
  lemma MoveOn(k: Tables, f: Forest, r: Regs)
    requires Stand(k, f)
    ensures |k.terminals| == |k.isOn| == TERMINALS
    ensures var g := Moved(f, r);
            && Stand(k.(terminals := k.terminals[f.current := k.terminals[f.current].(regs := r)]), g)
            && (k.isOn[g.current] <==> Chain(g) != [])
            && (Chain(g) != [] ==>
                  && 1 <= Last(Chain(g)).pid <= MAX_PID && k.terminals[g.current].pid == Last(Chain(g)).pid
                  && k.terminals[g.current].regs == f.suspended[g.current] && g.current != f.current)
  {
    hide BlocksFor;
    assert forall p :: Live(f, p) <==> Live(Moved(f, r), p);
  }

  lemma ShellStarts(f: Forest, r: Regs)
    requires Sound(f) || FreeFrom(f, 1) != 0
    requires Chain(Moved(f, r)) == []
    ensures FreeFrom(Moved(f, r), 1) != 0
  {
    if Sound(f) {
      NextPid(f);
    }
    SameLive(f, Moved(f, r), 1);
  }

  lemma TurnOn(k: Tables, f: Forest)
    requires Stand(k, f)
    ensures |k.isOn| == TERMINALS && Ready(k.(isOn := k.isOn[f.current := true]), f)
  {
  }

  // ---------------------------------------------------------------- runs

  /** What reaches the kernel, with the registers of the code it interrupts or is called by. */
  datatype Call = Interrupt(r: Regs) | Exec(command: seq<Byte>, r: Regs) | Exit(r: Regs, status: Byte)

  predicate Sane(img: seq<Byte>, c: Call)
    requires WellFormed(img)
  {
    c.Exec? ==> NulFree(c.command) && SoundTarget(img, c.command)
  }

  function Meant(img: seq<Byte>, c: Call): Event
    requires WellFormed(img) && Sane(img, c)
  {
    match c
    case Interrupt(r) => Tick(r)
    case Exec(command, r) => Event.Execute(Loadable(img, command), r)
    case Exit(r, _) => Halt(r)
  }

  ghost predicate AllSane(img: seq<Byte>, calls: seq<Call>)
    requires WellFormed(img)
  {
    forall i :: 0 <= i < |calls| ==> Sane(img, calls[i])
  }

  ghost function MeantAll(img: seq<Byte>, calls: seq<Call>): (es: seq<Event>)
    requires WellFormed(img) && AllSane(img, calls)
    ensures |es| == |calls| && forall i :: 0 <= i < |calls| ==> es[i] == Meant(img, calls[i])
  {
    seq(|calls|, i requires 0 <= i < |calls| => Meant(img, calls[i]))
  }

  lemma {:induction false} RunsPrefix(f: Forest, es: seq<Event>, i: nat)
    requires Runs(f, es) && RunsOnOwnStacks(f, es) && i <= |es|
    ensures Runs(f, es[..i]) && RunsOnOwnStacks(f, es[..i])
    ensures i < |es| ==> Enabled(Run(f, es[..i]), es[i]) && OnOwnStack(Run(f, es[..i]), es[i])
    ensures i < |es| ==> Runs(f, es[..i + 1]) && Run(f, es[..i + 1]) == Step(Run(f, es[..i]), es[i])
    decreases |es|
  {
    hide Enabled, OnOwnStack, Step;
    if i == |es| {
      assert es[..i] == es;
    } else {
      var n := |es| - 1;
      if i < n {
        RunsPrefix(f, es[..n], i);
        assert es[..n][..i] == es[..i] && es[..n][..i + 1] == es[..i + 1];
      } else {
        assert es[..i + 1] == es;
      }
    }
  }

  // ---------------------------------------------------------------- status fields

  function StatusOf(pcbs: seq<Pcb>): (st: seq<int>)
    ensures |st| == |pcbs|
  {
    seq(|pcbs|, i requires 0 <= i < |pcbs| => pcbs[i].status)
  }

  /** Only the halt of a process that is not a base shell changes one: its parent's. */
  function StatusAfter(f: Forest, st: seq<int>, c: Call): (r: seq<int>)
    requires |st| == MAX_PID
    ensures |r| == MAX_PID
  {
    if c.Exit? && |Chain(f)| > 1 && 1 <= Chain(f)[|Chain(f)| - 2].pid <= MAX_PID then
      st[Chain(f)[|Chain(f)| - 2].pid - 1 := c.status as int]
    else st
  }

  ghost function StatusesAfter(f: Forest, st: seq<int>, calls: seq<Call>, es: seq<Event>): (r: seq<int>)
    requires |st| == MAX_PID && |es| == |calls| && Runs(f, es)
    ensures |r| == MAX_PID
    decreases |calls|
  {
    if calls == [] then st else
    var n := |calls| - 1;
    StatusAfter(Run(f, es[..n]), StatusesAfter(f, st, calls[..n], es[..n]), calls[n])
  }

  /** The status the last halt in terminal t passed on that left d + 1 processes there, or `none`. */
  ghost function LastPassed(f: Forest, calls: seq<Call>, es: seq<Event>, t: int, d: int, none: int): int
    requires |es| == |calls| && Runs(f, es)
    decreases |calls|
  {
    if calls == [] then none else
    var n := |calls| - 1;
    var g := Run(f, es[..n]);
    if calls[n].Exit? && g.current == t && |Chain(g)| == d + 2 then calls[n].status as int
    else LastPassed(f, calls[..n], es[..n], t, d, none)
  }

  /** While a process lives, its status field is what its last child to halt passed on, or what it was at first. */
  lemma {:induction false} StatusIsLastPassed(f: Forest, st: seq<int>, calls: seq<Call>, es: seq<Event>, t: int, d: nat)
    requires Sound(f) && |st| == MAX_PID && |es| == |calls| && Runs(f, es) && 0 <= t < TERMINALS && d > 0
    requires StaysAbove(f, es, t, d)
    ensures |f.chains[t]| > d && 1 <= f.chains[t][d].pid <= MAX_PID
    ensures StatusesAfter(f, st, calls, es)[f.chains[t][d].pid - 1]
            == LastPassed(f, calls, es, t, d, st[f.chains[t][d].pid - 1])
    decreases |calls|
  {
    hide Sound, StatusAfter, Step;
    RunKeepsBottom(f, es, t, d);
    PidInRange(f, t, d);
    if calls != [] {
      var n := |calls| - 1;
      var g := Run(f, es[..n]);
      StatusIsLastPassed(f, st, calls[..n], es[..n], t, d);
      RunKeepsBottom(f, es[..n], t, d);
      RunSound(f, es[..n]);
      assert g.chains[t][d] == g.chains[t][..d + 1][d] == f.chains[t][..d + 1][d];
      StatusStep(g, StatusesAfter(f, st, calls[..n], es[..n]), calls[n], t, d);
    }
  }

  lemma PidInRange(f: Forest, t: int, i: int)
    requires Sound(f) && 0 <= t < TERMINALS && 0 <= i < |f.chains[t]|
    ensures 1 <= f.chains[t][i].pid <= MAX_PID
  {
  }

  lemma StatusStep(f: Forest, st: seq<int>, c: Call, t: int, d: int)
    requires Sound(f) && |st| == MAX_PID && 0 <= t < TERMINALS && 0 <= d < |f.chains[t]|
    requires 1 <= f.chains[t][d].pid <= MAX_PID
    ensures var p := f.chains[t][d].pid;
            StatusAfter(f, st, c)[p - 1] ==
            if c.Exit? && f.current == t && |Chain(f)| == d + 2 then c.status as int else st[p - 1]
  {
    if c.Exit? && |Chain(f)| > 1 {
      var i := |Chain(f)| - 2;
      PidInRange(f, f.current, i);
      OnePlace(f, t, d, f.current, i);
    }
  }

  /** A process number is in one place only. */
  lemma OnePlace(f: Forest, t: int, i: int, u: int, j: int)
    requires Shape(f) && 0 <= t < TERMINALS && 0 <= u < TERMINALS
    requires 0 <= i < |f.chains[t]| && 0 <= j < |f.chains[u]|
    ensures f.chains[t][i].pid == f.chains[u][j].pid <==> t == u && i == j
  {
    assert InChain(f.chains[t], f.chains[t][i].pid) && InChain(f.chains[u], f.chains[u][j].pid);
  }

  lemma StatusesNext(f: Forest, st: seq<int>, calls: seq<Call>, es: seq<Event>, i: nat)
    requires |st| == MAX_PID && i < |es| == |calls| && Runs(f, es[..i]) && Runs(f, es[..i + 1])
    ensures StatusesAfter(f, st, calls[..i + 1], es[..i + 1])
            == StatusAfter(Run(f, es[..i]), StatusesAfter(f, st, calls[..i], es[..i]), calls[i])
    ensures StatusesAfter(f, st, [], []) == st
  {
    hide StatusAfter;
    assert calls[..i + 1][..i] == calls[..i] && es[..i + 1][..i] == es[..i];
  }

  lemma StartedStatus(pcbs: seq<Pcb>, p: int, b: Pcb, r: Regs, command: seq<Byte>)
    requires |pcbs| == MAX_PID && 1 <= p <= MAX_PID && Started(pcbs[p - 1], b, p, r, command)
    ensures StatusOf(pcbs[p - 1 := b]) == StatusOf(pcbs)
  {
  }

  // ---------------------------------------------------------------- the kernel's tables

  class ProcessTable {
    const img: seq<Byte>
    const running: array<bool>
    const pcbs: array<Pcb>
    const terminals: array<Terminal>
    const isOn: array<bool>
    var current: int
    var page: int
    var esp0: int
    var regs: Regs                     // what restoreparent last put in esp and ebp
    ghost var forest: Forest

    ghost predicate Sized()
      reads this
    {
      && running.Length == pcbs.Length == MAX_PID && terminals.Length == isOn.Length == TERMINALS && running != isOn
      && 0 <= current < TERMINALS
    }

    /** The filesystem holds a shell. */
    ghost predicate Bootable()
    {
      WellFormed(img) && WellTyped(img) && SoundTarget(img, SHELL) && Loadable(img, SHELL)
    }

    ghost function Now(): Tables
      reads running, pcbs, terminals, isOn
    {
      Tables(running[..], pcbs[..], terminals[..], isOn[..])
    }

    ghost function Statuses(): (st: seq<int>)
      reads pcbs
      ensures |st| == pcbs.Length
    {
      StatusOf(pcbs[..])
    }

    /** The page directory entry and the stack the processor will use are the current process's. */
    ghost predicate Installed(pid: int)
      reads this
    {
      page == UserPage(pid) && esp0 == StackTop(pid)
    }

    /** So the entry maps that process's 4 MB, for the user to write, and interrupts start at the top of its stack. */
    lemma InstalledIs(pid: int)
      requires 1 <= pid <= 6 && Installed(pid)
      ensures page / 0x1000 * 0x1000 == 0x80_0000 + 0x40_0000 * (pid - 1) && page % 0x1000 == 0x87
      ensures esp0 == 0x80_0000 - 0x2000 * pid
    {
      EntryBits(pid);
    }

    ghost predicate Valid()
      reads this, running, pcbs, terminals, isOn
    {
      && Sized() && Bootable() && forest.current == current && Stand(Now(), forest)
      && (Chain(forest) != [] ==> Installed(Last(Chain(forest)).pid))
    }

    /** init_global_scheduler, the table part. */
    constructor (img: seq<Byte>)
      requires WellFormed(img) && WellTyped(img) && SoundTarget(img, SHELL) && Loadable(img, SHELL)
      ensures Valid() && this.img == img && page == UserPage(1) && forest == Boot(NO_REGS)
      ensures fresh(running) && fresh(pcbs) && fresh(terminals) && fresh(isOn)
    {
      hide WellFormed, WellTyped, SoundTarget, Loadable, Stand;
      this.img := img;
      running := new bool[MAX_PID](i => false);
      pcbs := new Pcb[MAX_PID];
      terminals := new Terminal[TERMINALS](i => Terminal(i + 1, Regs(0, 0)));
      isOn := new bool[TERMINALS](i => false);
      page := UserPage(1);
      current := 2;
      forest := Boot(NO_REGS);
      new;
      BootStands(Now());
    }

    /** paging_change_process. */
    method ChangeProcess(pid: int)
      modifies this`page
      ensures page == if 1 <= pid <= MAX_PID then UserPage(pid) else old(page)
      ensures 1 <= pid <= 6 ==> page / 0x1000 * 0x1000 == 0x80_0000 + 0x40_0000 * (pid - 1) && page % 0x1000 == 0x87
      ensures !(1 <= pid <= 6) ==> page == old(page)
    {
      if 1 <= pid <= 6 {
        EntryBits(pid);
      }
      if pid - 1 < 0 || pid - 1 > 5 {
        return;
      }
      page := UserPage(pid);
    }

    /** set_pid. */
    method SetPid(pid: int)
      requires Sized()
      modifies terminals
      ensures Now().terminals == old(Now()).terminals[current := old(Now()).terminals[current].(pid := pid)]
    {
      terminals[current] := terminals[current].(pid := pid);
    }

    /** The search for a free process number. */
    method TakeSlot() returns (pid: int)
      requires Sized()
      modifies running
      ensures pid == FirstFree(old(running[..]), 0)
      ensures running[..] == if pid == 0 then old(running[..]) else old(running[..])[pid - 1 := true]
    {
      var i := 0;
      while i < MAX_PID
        invariant 0 <= i <= MAX_PID && FirstFree(old(running[..]), 0) == FirstFree(old(running[..]), i)
        invariant running[..] == old(running[..])
      {
        if !running[i] {
          running[i] := true;
          return i + 1;
        }
        i := i + 1;
      }
      return 0;
    }

    /** execute, once the checks have passed. */
    method StartProcess(r: Regs, copy: Copied, ghost command: seq<Byte>) returns (pid: int)
      requires Sized() && NulFree(command) && CopyOf(copy, command)
      modifies this`page, this`esp0, running, pcbs, terminals
      ensures pid == FirstFree(old(running[..]), 0)
      ensures pid == 0 ==> Now() == old(Now()) && page == old(page) && esp0 == old(esp0)
      ensures pid != 0 ==> Installed(pid) && Started(old(pcbs[..])[pid - 1], pcbs[pid - 1], pid, r, command)
                           && Now() == Begun(old(Now()), current, pid, pcbs[pid - 1])
      ensures Statuses() == old(Statuses())
    {
      hide CopyOf, FirstFree, Started;
      pid := TakeSlot();
      if pid == 0 {
        return;
      }
      SetPid(pid);
      ChangeProcess(pid);
      WriteBlock(pid, r, copy, command);
      StartedStatus(old(pcbs[..]), pid, pcbs[pid - 1], r, command);
      esp0 := StackTop(pid);
    }

    /** Setting up the new process's control block. The registers saved in it are those of execute's caller. */
    method WriteBlock(pid: int, r: Regs, copy: Copied, ghost command: seq<Byte>)
      requires pcbs.Length == MAX_PID && 1 <= pid <= MAX_PID && NulFree(command) && CopyOf(copy, command)
      modifies pcbs
      ensures Started(old(pcbs[..])[pid - 1], pcbs[pid - 1], pid, r, command)
      ensures pcbs[..] == old(pcbs[..])[pid - 1 := pcbs[pid - 1]]
    {
      hide CopyOf, PcbOf, PidOf;
      var b := pcbs[pid - 1];
      if pid > TERMINALS {
        var parentPcb := PcbOf(r.esp);
        var parentPid := PidOf(parentPcb);
        b := b.(parent := parentPcb);
        b := b.(parentProcessId := parentPid);
      } else {
        b := b.(parent := 0);
      }
      b := b.(processId := pid);
      assert copy.argSize == |Line(command)| by {
        CopySize(copy, command);
      }
      var kept := SetUpArgs(copy, command);
      b := b.(argSize := copy.argSize, args := kept[..]);
      b := b.(parentEsp := r.esp, parentEbp := r.ebp);
      pcbs[pid - 1] := b;
    }

    /** execute: -1 is the source's failure, which changes nothing; a success does not return to its caller. */
    method Execute(command: seq<Byte>, r: Regs, ghost f: Forest) returns (pid: int, eip: seq<Byte>)
      requires Sized() && Bootable() && f.current == current && Ready(Now(), f)
      requires NulFree(command) && SoundTarget(img, command)
      requires Chain(f) != [] ==> OnStack(r.esp, StackTop(Last(Chain(f)).pid))
      modifies this`page, this`esp0, running, pcbs, terminals
      ensures pid == if Loadable(img, command) && FreeFrom(f, 1) != 0 then FreeFrom(f, 1) else -1
      ensures pid == -1 ==> Now() == old(Now()) && page == old(page) && esp0 == old(esp0)
      ensures Statuses() == old(Statuses())
      ensures pid != -1 ==>
                && Stand(Now(), AfterExecute(f, true, r)) && Installed(pid) && Chain(AfterExecute(f, true, r)) != []
                && Last(Chain(AfterExecute(f, true, r))).pid == pid
      ensures pid != -1 ==>
                && 1 <= pid <= MAX_PID
                && pcbs[pid - 1].argSize == |Line(command)| && UpToNul(pcbs[pid - 1].args) == KeptArgs(command)
                && eip == Contents(img, ByName(img, ProgramName(command)).entry.inode)[ENTRY_POINT..ENTRY_POINT + 4]
    {
      hide WellFormed, WellTyped, SoundTarget, Loadable, Ready, Stand, CopyOf, FirstFree, FreeFrom, StackTop, OnStack,
        AfterExecute, Installed, Begun, Contents, UpToNul, KeptArgs, Line, ByName, ProgramName, NulFree;
      ReadySlots(Now(), f);
      var b0: Byte, b1: Byte := *, *;    // whatever execute's frame holds behind its argument array
      var ok, copy, entry, behind := Load(img, command, [b0, b1]);
      if !ok {
        return -1, [];
      }
      pid := StartProcess(r, copy, command);
      if pid == 0 {
        return -1, [];
      }
      eip := entry;
      StartKeeps(old(Now()), f, pid, r, pcbs[pid - 1], command);
    }

    /** The execute system call, made by the process on top of the current terminal's chain. */
    method ExecuteCall(command: seq<Byte>, r: Regs) returns (pid: int, eip: seq<Byte>)
      requires Valid() && NulFree(command) && SoundTarget(img, command)
      requires Chain(forest) != [] && OnStack(r.esp, esp0)
      modifies this`page, this`esp0, this`forest, running, pcbs, terminals
      ensures Valid() && forest == AfterExecute(old(forest), Loadable(img, command), r)
      ensures pid == if Loadable(img, command) && FreeFrom(old(forest), 1) != 0 then FreeFrom(old(forest), 1) else -1
      ensures pid == -1 ==> Now() == old(Now()) && forest == old(forest) && page == old(page) && esp0 == old(esp0)
      ensures Statuses() == old(Statuses())
    {
      hide WellFormed, WellTyped, SoundTarget, Loadable, Ready, Stand, FreeFrom, Contents, UpToNul, KeptArgs, ByName,
        ProgramName, NulFree, StackTop, UserPage;
      StandIsReady(Now(), forest);
      pid, eip := Execute(command, r, forest);
      forest := AfterExecute(forest, Loadable(img, command), r);
    }

    /** halt, by the process on top of the current terminal's chain. `delivered` is what the parent's execute call
      * returns: a field of the child's own control block, which halt does not set. */
    method HaltCall(r: Regs, status: Byte) returns (delivered: int)
      requires Valid() && Sound(forest) && Chain(forest) != [] && OnStack(r.esp, esp0)
      modifies this`page, this`esp0, this`regs, this`forest, running, pcbs, terminals
      ensures Valid() && forest == AfterHalt(old(forest), r)
      ensures |Chain(old(forest))| > 1 ==>
                && regs == Last(Chain(old(forest))).saved
                && delivered == old(pcbs[Last(Chain(forest)).pid - 1].status)
                && pcbs[Last(Chain(forest)).pid - 1].status == status
      ensures |Chain(old(forest))| > 1 ==> delivered == old(Statuses())[Last(Chain(old(forest))).pid - 1]
      ensures Statuses() == StatusAfter(old(forest), old(Statuses()), Exit(r, status))
    {
      hide WellFormed, WellTyped, SoundTarget, Loadable, Stand, Ready, FreeFrom, StackTop, PcbOf, PidOf, UserPage,
          Sound;
      HaltFacts(Now(), forest, r);
      var id := pcbs[PidOf(PcbOf(r.esp)) - 1].processId;
      delivered := 0;
      if id <= TERMINALS {
        RestartShell(id, r);
      } else {
        delivered := Unwind(id, status);
      }
    }

    /** halt, in a base shell. */
    method RestartShell(id: int, r: Regs)
      requires Valid() && Sound(forest) && |Chain(forest)| == 1 && id == Last(Chain(forest)).pid
      modifies this`page, this`esp0, this`forest, running, pcbs, terminals
      ensures Valid() && forest == AfterHalt(old(forest), r) && Statuses() == old(Statuses())
    {
      hide WellFormed, WellTyped, SoundTarget, Loadable, Stand, Ready, FreeFrom, StackTop, UserPage, Sound,
          AfterExecute,
        AfterHalt, Contents, UpToNul, KeptArgs, ByName, ProgramName;
      ShellOff(Now(), forest, r);
      running[id - 1] := false;
      var pid, eip := Execute(SHELL, r, With(forest, []));
      forest := AfterHalt(forest, r);
    }

    /** halt, in any other process: back to the parent. */
    method Unwind(id: int, status: Byte) returns (delivered: int)
      requires Valid() && Sound(forest) && |Chain(forest)| > 1 && id == Last(Chain(forest)).pid
      modifies this`page, this`esp0, this`regs, this`forest, running, pcbs, terminals
      ensures Valid() && forest == With(old(forest), Chain(old(forest))[..|Chain(old(forest))| - 1])
      ensures regs == Last(Chain(old(forest))).saved
      ensures delivered == old(pcbs[Last(Chain(forest)).pid - 1].status)
      ensures delivered == old(Statuses())[Last(Chain(old(forest))).pid - 1]
      ensures pcbs[Last(Chain(forest)).pid - 1].status == status
      ensures Statuses() == StatusAfter(old(forest), old(Statuses()), Exit(regs, status))
    {
      hide WellFormed, WellTyped, SoundTarget, Loadable, Stand, StackTop, PidOf, PcbAddress, UserPage, Sound;
      UnwindFacts(Now(), forest);
      var b := pcbs[id - 1];
      UnwindKeeps(Now(), forest, b.parentProcessId, status);
      running[id - 1] := false;
      var parentId := b.parentProcessId;
      pcbs[PidOf(b.parent) - 1] := pcbs[PidOf(b.parent) - 1].(status := status);
      SetPid(parentId);
      ChangeProcess(parentId);
      esp0 := StackTop(parentId);
      regs := Regs(b.parentEsp, b.parentEbp);
      forest := With(forest, Chain(forest)[..|Chain(forest)| - 1]);
      return pcbs[id - 1].status;
    }

    /** save_esp_ebp. */
    method SaveRegs(r: Regs)
      requires Sized()
      modifies terminals
      ensures terminals[..] == old(terminals[..])[current := old(terminals[..])[current].(regs := r)]
    {
      terminals[current] := terminals[current].(regs := r);
    }

    /** scheduler_next: the clock, interrupting whatever runs. */
    method SchedulerNext(r: Regs)
      requires Valid() && (Chain(forest) != [] ==> OnStack(r.esp, esp0))
      requires Sound(forest) || FreeFrom(forest, 1) != 0
      modifies this, running, pcbs, terminals, isOn
      ensures Valid() && forest == AfterTick(old(forest), r) && Statuses() == old(Statuses())
      ensures old(forest).chains[current] != [] ==> regs == old(forest).suspended[current]
    {
      hide WellFormed, WellTyped, SoundTarget, Loadable, Stand, FreeFrom, StackTop, UserPage, Sound;
      ghost var g := Moved(forest, r);
      MoveOn(Now(), forest, r);
      SaveRegs(r);
      current := (current + 1) % TERMINALS;
      var pid := terminals[current].pid;
      if !isOn[current] {
        ShellStarts(forest, r);
        StartShell(r, g);
      } else {
        ChangeProcess(pid);
        esp0 := StackTop(pid);
        regs := terminals[current].regs;
        forest := g;
      }
    }

    /** The first time a terminal is scheduled. */
    method StartShell(r: Regs, ghost g: Forest)
      requires Sized() && Bootable() && g.current == current && Chain(g) == [] && FreeFrom(g, 1) != 0 && Stand(Now(), g)
      modifies this`page, this`esp0, this`forest, running, pcbs, terminals, isOn
      ensures Valid() && forest == AfterExecute(g, true, r) && Statuses() == old(Statuses())
    {
      hide WellFormed, WellTyped, SoundTarget, Loadable, Stand, Ready, FreeFrom, StackTop, UserPage, AfterExecute,
        Contents, UpToNul, KeptArgs, ByName, ProgramName, StatusOf;
      TurnOn(Now(), g);
      isOn[current] := true;
      var p, eip := Execute(SHELL, r, g);
      forest := AfterExecute(g, true, r);
    }

    /** Whichever of the three it is. */
    method Dispatch(c: Call)
      requires Valid() && Sound(forest) && Placed(forest) && Sane(img, c)
      requires Enabled(forest, Meant(img, c)) && OnOwnStack(forest, Meant(img, c))
      modifies this, running, pcbs, terminals, isOn
      ensures Valid() && Sound(forest) && Placed(forest) && forest == Step(old(forest), Meant(img, c))
      ensures Statuses() == StatusAfter(old(forest), old(Statuses()), c)
    {
      hide WellFormed, WellTyped, SoundTarget, Loadable, Stand, FreeFrom, UserPage, Sound, Placed, StackTop, AfterTick,
        AfterExecute, AfterHalt;
      StepSound(forest, Meant(img, c));
      StepPlaced(forest, Meant(img, c));
      match c
      case Interrupt(r) =>
        SchedulerNext(r);
      case Exec(command, r) =>
        ShellsRun(forest);
        var pid, eip := ExecuteCall(command, r);
      case Exit(r, status) =>
        var delivered := HaltCall(r, status);
    }

    /** Any run the kernel's guards allow is a run of the forest, and keeps the tables and addresses in step with it. */
    method RunCalls(calls: seq<Call>)
      requires Valid() && Sound(forest) && Placed(forest) && AllSane(img, calls)
      requires Runs(forest, MeantAll(img, calls)) && RunsOnOwnStacks(forest, MeantAll(img, calls))
      modifies this, running, pcbs, terminals, isOn
      ensures Valid() && Sound(forest) && Placed(forest) && forest == Run(old(forest), MeantAll(img, calls))
      ensures Statuses() == StatusesAfter(old(forest), old(Statuses()), calls, MeantAll(img, calls))
    {
      hide WellFormed, WellTyped, SoundTarget, Loadable, Contents, ByName, Stand, Sound, Placed, Step, Run, Runs,
        RunsOnOwnStacks, Meant, Enabled, OnOwnStack, Installed, StatusAfter, StatusOf;
      ghost var es := MeantAll(img, calls);
      RunNothing(forest);
      assert es[..0] == [];
      var i := 0;
      while i < |calls|
        invariant 0 <= i <= |calls| && Valid() && Sound(forest) && Placed(forest)
        invariant Runs(old(forest), es[..i]) && forest == Run(old(forest), es[..i])
        invariant Statuses() == StatusesAfter(old(forest), old(Statuses()), calls[..i], es[..i])
      {
        RunsPrefix(old(forest), es, i);
        StatusesNext(old(forest), old(Statuses()), calls, es, i);
        Dispatch(calls[i]);
        i := i + 1;
      }
      assert es[..i] == es && calls[..i] == calls;
    }

    /** A child's life, on the tables: after the execute that starts it, any run in which it lives, and its halt, the
      * parent has its registers, its page and its kernel stack back. */
    method LifeOfChild(command: seq<Byte>, r: Regs, calls: seq<Call>, last: Regs, status: Byte) returns (delivered: int)
      requires Valid() && Sound(forest) && Placed(forest) && Booted(forest) && OnStack(r.esp, esp0)
      requires NulFree(command) && SoundTarget(img, command) && Loadable(img, command) && FreeFrom(forest, 1) != 0
      requires AllSane(img, calls)
      requires var f, es := AfterExecute(forest, true, r), MeantAll(img, calls);
               && Runs(f, es) && RunsOnOwnStacks(f, es) && StaysAbove(f, es, forest.current, |Chain(forest)|)
               && Run(f, es).current == forest.current && |Chain(Run(f, es))| == |Chain(forest)| + 1
               && OnOwnStack(Run(f, es), Halt(last))
      modifies this, running, pcbs, terminals, isOn
      ensures Valid() && Sound(forest) && current == old(current) && Chain(forest) == old(Chain(forest))
      ensures regs == r && page == old(page) && esp0 == old(esp0)
      ensures var f := old(AfterExecute(forest, true, r));
              delivered == LastPassed(f, calls, MeantAll(img, calls), old(current), old(|Chain(forest)|),
                                      old(Statuses())[Last(Chain(f)).pid - 1])
    {
      hide WellFormed, WellTyped, SoundTarget, Loadable, Stand, FreeFrom, UserPage, Sound, Placed, StackTop, Run, Runs,
        RunsOnOwnStacks, AfterExecute, AfterHalt, OnStack, StaysAbove, Shape;
      ghost var f, es := forest, MeantAll(img, calls);
      HaltRestoresParent(f, r, es, last);
      ChildStarts(f, r);
      ShellsRun(f);
      StatusIsLastPassed(AfterExecute(f, true, r), Statuses(), calls, es, current, |Chain(f)|);
      ChildOnTop(f, r, es);
      var pid, eip := ExecuteCall(command, r);
      RunCalls(calls);
      HaltSound(forest, last);
      delivered := HaltCall(last, status);
    }
  }

  /** Boot, and any run the kernel's guards allow. */
  method RunFromBoot(img: seq<Byte>, calls: seq<Call>) returns (p: ProcessTable)
    requires WellFormed(img) && WellTyped(img) && AllSane(img, calls)
    requires SoundTarget(img, Text("shell")) && Loadable(img, Text("shell"))
    requires Runs(Boot(NO_REGS), MeantAll(img, calls)) && RunsOnOwnStacks(Boot(NO_REGS), MeantAll(img, calls))
    ensures fresh(p) && p.img == img && p.Valid() && Sound(p.forest) && Placed(p.forest)
    ensures p.forest == Run(Boot(NO_REGS), MeantAll(img, calls))
    ensures Chain(p.forest) != [] ==>
              var pid := Last(Chain(p.forest)).pid;
              && 1 <= pid <= 6 && p.esp0 == 0x80_0000 - 0x2000 * pid
              && p.page / 0x1000 * 0x1000 == 0x80_0000 + 0x40_0000 * (pid - 1) && p.page % 0x1000 == 0x87
  {
    hide WellTyped, SoundTarget, Loadable, Sound, Placed, Stand, Run, Runs, RunsOnOwnStacks;
    p := new ProcessTable(img);
    BootIsSound(NO_REGS);
    BootIsPlaced(NO_REGS);
    p.RunCalls(calls);
    if Chain(p.forest) != [] {
      PidInRange(p.forest, p.current, |Chain(p.forest)| - 1);
      p.InstalledIs(Last(Chain(p.forest)).pid);
    }
  }

  lemma BootIsPlaced(regs: seq<Regs>)
    requires |regs| == TERMINALS
    ensures Placed(Boot(regs))
  {
  }

  lemma ShellsRun(f: Forest)
    ensures Booted(f) ==> Chain(f) != []
  {
  }

  /** The process that ends the run on top is the one the execute started. */
  lemma ChildOnTop(f: Forest, r: Regs, es: seq<Event>)
    requires Sound(f) && Booted(f) && FreeFrom(f, 1) != 0 && Runs(AfterExecute(f, true, r), es)
    requires StaysAbove(AfterExecute(f, true, r), es, f.current, |Chain(f)|)
    requires var g := Run(AfterExecute(f, true, r), es);
             g.current == f.current && |Chain(g)| == |Chain(f)| + 1
    ensures var h, d := AfterExecute(f, true, r), |Chain(f)|;
            |Chain(h)| == d + 1 && Last(Chain(Run(h, es))).pid == Chain(h)[d].pid == Last(Chain(h)).pid
  {
    hide Sound, FreeFrom;
    var h, d := AfterExecute(f, true, r), |Chain(f)|;
    ExecuteBooted(f, true, r);
    RunKeepsBottom(h, es, f.current, d);
    assert Chain(Run(h, es))[..d + 1][d] == Chain(h)[..d + 1][d];
  }

  lemma ChildStarts(f: Forest, r: Regs)
    requires Sound(f) && Booted(f) && Placed(f) && FreeFrom(f, 1) != 0
    requires OnStack(r.esp, StackTop(Last(Chain(f)).pid))
    ensures Sound(AfterExecute(f, true, r)) && Placed(AfterExecute(f, true, r))
  {
    ExecuteBooted(f, true, r);
    StepPlaced(f, Event.Execute(true, r));
  }

  lemma RunNothing(f: Forest)
    ensures Runs(f, []) && Run(f, []) == f
  {
  }

  lemma BootStands(k: Tables)
    requires k.running == seq(MAX_PID, i => false) && k.isOn == seq(TERMINALS, i => false) && |k.pcbs| == MAX_PID
    requires |k.terminals| == TERMINALS && forall t :: 0 <= t < TERMINALS ==> k.terminals[t].pid == t + 1
    ensures Stand(k, Boot(NO_REGS))
  {
  }

  lemma CopySize(copy: Copied, command: seq<Byte>)
    requires CopyOf(copy, command)
    ensures copy.argSize == |Line(command)|
  {
  }

  /** What execute writes in a control block. */
  predicate Started(was: Pcb, b: Pcb, pid: int, r: Regs, command: seq<Byte>) {
    && b.(argSize := was.argSize, args := was.args) == NewBlock(was, pid, r)
    && b.argSize == |Line(command)| && UpToNul(b.args) == KeptArgs(command)
  }
}
