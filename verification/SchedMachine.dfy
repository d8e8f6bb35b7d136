/**
 * The scheduler under preemption: sched_init and sched_create_task statement by statement, a timer
 * interrupt possible between any two of them, and the stacks in memory.
 */
module SchedMachine {
  import opened Bytes
  import opened SchedModel
  import opened Pmm

  // ---------- memory and frames ----------

  const FRAME_SIZE := 272
  const ENTRY_AT := 248
  const STATUS_AT := 256

  type Memory = nat -> byte
  type Frame = s: seq<byte> | |s| == FRAME_SIZE witness seq(FRAME_SIZE, i => 0)
  type Word = s: seq<byte> | |s| == 8 witness seq(8, i => 0)
  const BLANK_FRAME: Frame := seq(FRAME_SIZE, i => 0)

  type Frames = s: seq<Frame> | |s| == MAX_TASKS witness seq<Frame>(MAX_TASKS, i => BLANK_FRAME)

  function Zeros(n: nat): (s: seq<byte>)
    ensures |s| == n && forall i :: 0 <= i < n ==> s[i] == 0
  {
    seq(n, i => 0)
  }

  /** EL1h with interrupts enabled. */
  const STATUS: Word := [5, 0, 0, 0, 0, 0, 0, 0]

  /** The context a task starts with: all registers zero but the program counter and the processor state. */
  function FirstFrame(entry: Word): Frame {
    Zeros(ENTRY_AT) + entry + STATUS + Zeros(8)
  }

  /**
   * In bytes, as `struct exception_context` lays them out: 31 registers of zero, the entry point at 248, and at
   * 256 a processor state whose low four bits select EL1h, in AArch64 state, with none of the interrupt masks
   * D, A, I and F, bits 9 to 6.
   */
  lemma FirstFrameInBytes(entry: Word)
    ensures var f := FirstFrame(entry); var low: int := f[256]; var high: int := f[257]; var spsr := low + 256 * high;
      && |f| == 272 && f[248..256] == entry
      && (forall i :: 0 <= i < 248 || 258 <= i < 272 ==> f[i] == 0)
      && spsr % 16 == 5 && spsr / 16 % 2 == 0 && spsr / 64 % 16 == 0
  {
    var f := FirstFrame(entry);
    assert f[256] == STATUS[0] && f[257] == STATUS[1];
    assert forall i :: 258 <= i < 264 ==> f[i] == STATUS[i - 256];
  }

  function Read(mem: Memory, a: nat, n: nat): (s: seq<byte>)
    ensures |s| == n && forall i :: 0 <= i < n ==> s[i] == mem(a + i)
  {
    seq(n, i requires 0 <= i < n => mem(a + i))
  }

  function Write(mem: Memory, a: nat, s: seq<byte>): Memory {
    (x: nat) => if a <= x < a + |s| then s[x - a] else mem(x)
  }

  /** pmm_alloc_page clears the page it returns. */
  function ZeroPage(mem: Memory, page: nat): Memory {
    Write(mem, AddressOf(page), Zeros(PAGE_SIZE))
  }

  lemma ReadWritten(mem: Memory, a: nat, s: seq<byte>)
    ensures Read(Write(mem, a, s), a, |s|) == s
  {
  }

  /** A store inside a range replaces that part of what the range shows. */
  lemma ReadPatched(mem: Memory, a: nat, n: nat, at: nat, s: seq<byte>)
    requires at + |s| <= n
    ensures Read(Write(mem, a + at, s), a, n) == Read(mem, a, n)[..at] + s + Read(mem, a, n)[at + |s|..]
  {
  }

  lemma ReadSame(mem: Memory, mem': Memory, a: nat, n: nat)
    requires forall x :: a <= x < a + n ==> mem'(x) == mem(x)
    ensures Read(mem', a, n) == Read(mem, a, n)
  {
  }

  /** Where the first frame lies in a task's page. */
  function Top(page: nat): nat { AddressOf(page) + PAGE_SIZE - FRAME_SIZE }

  // ---------- states ----------

  /** The statement that comes next: in sched_init, between calls, or in sched_create_task. */
  datatype Phase =
    | ClearState(i: nat)
    | ClearId(i: nat)
    | RunTask0
    | DropStack0
    | Start
    | Idle
    | Search(i: nat)
    | Reserve(slot: Slot)
    | KeepStack(slot: Slot, page: nat)
    | ClearFrame(slot: Slot, page: nat)
    | PutEntry(slot: Slot, page: nat)
    | PutStatus(slot: Slot, page: nat)
    | PutContext(slot: Slot, page: nat)
    | Publish(slot: Slot, page: nat)

  predicate Booting(p: Phase) {
    p.ClearState? || p.ClearId? || p.RunTask0? || p.DropStack0? || p.Start?
  }

  /** A page was allocated for a task that is not ready yet. */
  predicate Building(p: Phase) {
    p.KeepStack? || p.ClearFrame? || p.PutEntry? || p.PutStatus? || p.PutContext? || p.Publish?
  }

  /**
   * `held` is the page allocator with the pages handed out; `due` records for every task the context it
   * has to be resumed with: the one saved when it was last preempted, or its first one.
   */
  datatype Machine = Machine(s: Sched, mem: Memory, held: Held, kernel: nat, phase: Phase,
                             creator: Slot, entry: Word, due: Frames)

  function Runner(m: Machine): Slot {
    if 0 <= m.s.current < MAX_TASKS then m.s.current else 0
  }

  predicate Exists(m: Machine, t: Slot) {
    !m.s.tasks[t].status.Free?
  }

  /** Task 0 runs on the boot stack in the kernel's pages, every other task on a page of its own. */
  ghost predicate Owns(m: Machine, t: Slot, a: nat) {
    if t == 0 then a < AddressOf(m.kernel)
    else m.s.tasks[t].stack <= a < m.s.tasks[t].stack + PAGE_SIZE
  }

  predicate Fits(m: Machine, t: Slot, a: nat) {
    if t == 0 then a + FRAME_SIZE <= AddressOf(m.kernel)
    else m.s.tasks[t].stack <= a && a + FRAME_SIZE <= m.s.tasks[t].stack + PAGE_SIZE
  }

  ghost predicate InPage(page: nat, a: nat) {
    AddressOf(page) <= a < AddressOf(page) + PAGE_SIZE
  }

  /** Memory the running code has to leave alone: other tasks' stacks and the stack being set up. */
  ghost predicate Foreign(m: Machine, a: nat) {
    || (exists t: Slot :: t != Runner(m) && Exists(m, t) && Owns(m, t, a))
    || (Building(m.phase) && InPage(m.phase.page, a))
  }

  // ---------- steps ----------

  datatype Step =
    | Begin(entry: Word)
    | Code
    | Tick(at: nat, frame: Frame, resumed: nat)
    | Work
    | Call(call: Pmm.Step)

  function SetTask(m: Machine, t: Slot, task: Task, phase: Phase): Machine {
    m.(s := m.s.(tasks := m.s.tasks[t := task]), phase := phase)
  }

  /** One statement of sched_init. */
  ghost predicate BootCode(m: Machine, m': Machine) {
    match m.phase
    case ClearState(i) => i < MAX_TASKS && m' == SetTask(m, i, m.s.tasks[i].(status := Free), ClearId(i))
    case ClearId(i) =>
      && i < MAX_TASKS
      && m' == SetTask(m, i, m.s.tasks[i].(id := i), if i + 1 < MAX_TASKS then ClearState(i + 1) else RunTask0)
    case RunTask0 => m' == SetTask(m, 0, m.s.tasks[0].(status := Running), DropStack0)
    case DropStack0 => m' == SetTask(m, 0, m.s.tasks[0].(stack := 0), Start)
    case Start => m' == m.(s := m.s.(current := 0), phase := Idle)
    case _ => false
  }

  /** One statement of sched_create_task. */
  ghost predicate CreateCode(m: Machine, m': Machine) {
    match m.phase
    case Search(i) =>
      if i >= MAX_TASKS then m' == m.(phase := Idle)
      else m' == m.(phase := if m.s.tasks[i].status.Free? then Reserve(i) else Search(i + 1))
    case Reserve(slot) =>
      if m'.phase.KeepStack? then
        Moves(m.held, Got(m'.phase.page), m'.held)
        && m' == m.(held := m'.held, mem := ZeroPage(m.mem, m'.phase.page), phase := KeepStack(slot, m'.phase.page))
      else Moves(m.held, Failed, m'.held) && m' == m.(held := m'.held, phase := Idle)
    case KeepStack(slot, page) =>
      m' == SetTask(m, slot, m.s.tasks[slot].(stack := AddressOf(page)), ClearFrame(slot, page))
    case ClearFrame(slot, page) =>
      m' == m.(mem := Write(m.mem, Top(page), Zeros(FRAME_SIZE)), phase := PutEntry(slot, page))
    case PutEntry(slot, page) =>
      m' == m.(mem := Write(m.mem, Top(page) + ENTRY_AT, m.entry), phase := PutStatus(slot, page))
    case PutStatus(slot, page) =>
      m' == m.(mem := Write(m.mem, Top(page) + STATUS_AT, STATUS), phase := PutContext(slot, page))
    case PutContext(slot, page) => m' == SetTask(m, slot, m.s.tasks[slot].(ctx := Top(page)), Publish(slot, page))
    case Publish(slot, page) =>
      m' == SetTask(m, slot, m.s.tasks[slot].(status := Ready), Idle).(due := m.due[slot := FirstFrame(m.entry)])
    case _ => false
  }

  /** The timer: the running task's registers go to its stack, and sched_switch picks what to resume. */
  ghost predicate Ticks(m: Machine, at: nat, frame: Frame, resumed: nat, m': Machine) {
    && Fits(m, Runner(m), at)
    && -1 <= m.s.current < MAX_TASKS && -1 <= m'.s.current < MAX_TASKS && Switched(m.s, at, m'.s, resumed)
    && m' == m.(s := m'.s, mem := Write(m.mem, at, frame),
                due := if m.s.current == -1 then m.due else m.due[m.s.current := frame])
  }

  ghost predicate Next(m: Machine, step: Step, m': Machine) {
    match step
    case Begin(entry) => m.phase.Idle? && m' == m.(phase := Search(1), creator := Runner(m), entry := entry)
    case Code => if Booting(m.phase) then BootCode(m, m') else Runner(m) == m.creator && CreateCode(m, m')
    case Tick(at, frame, resumed) => Ticks(m, at, frame, resumed, m')
    case Work => m' == m.(mem := m'.mem) && forall a :: Foreign(m, a) ==> m'.mem(a) == m.mem(a)
    case Call(call) =>
      && (m.phase.Idle? || (!Booting(m.phase) && Runner(m) != m.creator))
      && Moves(m.held, call, m'.held)
      && (call.Freed? ==> !IsStack(m, call.page) && !(Building(m.phase) && call.page == m.phase.page))
      && m' == m.(held := m'.held, mem := if call.Got? then ZeroPage(m.mem, call.page) else m.mem)
  }

  ghost predicate IsStack(m: Machine, page: nat) {
    exists t: Slot :: t > 0 && Exists(m, t) && m.s.tasks[t].stack == AddressOf(page)
  }

  // ---------- the invariant ----------

  /** How many slots sched_init has freed. */
  function Cleared(p: Phase): nat {
    match p
    case ClearState(i) => i
    case ClearId(i) => i + 1
    case _ => MAX_TASKS
  }

  function BootStatus(p: Phase, t: Slot): Status {
    if t == 0 && (p.DropStack0? || p.Start?) then Running else Free
  }

  ghost predicate BootOk(m: Machine) {
    && m.s.current == -1
    && (m.phase.ClearState? || m.phase.ClearId? ==> m.phase.i < MAX_TASKS)
    && (forall t: Slot :: t < Cleared(m.phase) ==> m.s.tasks[t].status == BootStatus(m.phase, t))
  }

  ghost predicate HasPage(m: Machine, t: Slot) {
    && m.s.tasks[t].stack == AddressOf(PageIndex(m.s.tasks[t].stack))
    && PageIndex(m.s.tasks[t].stack) in m.held.out
  }

  /** A task that is not running has its whole context on its own stack. */
  ghost predicate Suspended(m: Machine, t: Slot) {
    Fits(m, t, m.s.tasks[t].ctx) && Read(m.mem, m.s.tasks[t].ctx, FRAME_SIZE) == m.due[t]
  }

  ghost predicate StacksOk(m: Machine) {
    && (forall t: Slot :: t > 0 && Exists(m, t) ==> HasPage(m, t))
    && forall t: Slot, u: Slot :: 0 < t < u && Exists(m, t) && Exists(m, u) ==> m.s.tasks[t].stack != m.s.tasks[u].stack
  }

  ghost predicate ContextsOk(m: Machine) {
    forall t: Slot :: t != m.s.current && Exists(m, t) ==> Suspended(m, t)
  }

  /** How far the first frame of a task under construction has come. */
  ghost predicate FrameSoFar(m: Machine) {
    match m.phase
    case PutEntry(_, page) => Read(m.mem, Top(page), FRAME_SIZE) == Zeros(FRAME_SIZE)
    case PutStatus(_, page) => Read(m.mem, Top(page), FRAME_SIZE) == Zeros(ENTRY_AT) + m.entry + Zeros(16)
    case PutContext(_, page) => Read(m.mem, Top(page), FRAME_SIZE) == FirstFrame(m.entry)
    case Publish(slot, page) =>
      Read(m.mem, Top(page), FRAME_SIZE) == FirstFrame(m.entry) && m.s.tasks[slot].ctx == Top(page)
    case _ => true
  }

  ghost predicate BuildOk(m: Machine) {
    && (m.phase.Search? ==> m.phase.i >= 1 && forall t: Slot :: 0 < t < m.phase.i ==> Exists(m, t))
    && (m.phase.Reserve? || Building(m.phase) ==> m.phase.slot > 0 && !Exists(m, m.phase.slot))
    && (Building(m.phase) ==> m.phase.page in m.held.out && !IsStack(m, m.phase.page))
    && (Building(m.phase) && !m.phase.KeepStack? ==> m.s.tasks[m.phase.slot].stack == AddressOf(m.phase.page))
    && FrameSoFar(m)
  }

  ghost predicate MachineOk(m: Machine) {
    && Balanced(m.kernel, m.held)
    && if Booting(m.phase) then BootOk(m)
       else SchedOk(m.s) && StacksOk(m) && ContextsOk(m) && BuildOk(m)
  }

  // ---------- regions of memory ----------

  lemma PagesApart(p: nat, q: nat, a: nat)
    requires InPage(p, a) && InPage(q, a)
    ensures p == q
  {
    BlocksApart(p, a - AddressOf(p), q, a - AddressOf(q), PAGE_SIZE);
  }

  lemma KernelApart(k: nat, p: nat, a: nat)
    requires a < AddressOf(k) && InPage(p, a)
    ensures p < k
  {
  }

  /** No address lies on two stacks. */
  lemma StacksApart(m: Machine, t: Slot, u: Slot, a: nat)
    requires Balanced(m.kernel, m.held) && StacksOk(m) && Exists(m, t) && Exists(m, u) && t < u
    ensures !(Owns(m, t, a) && Owns(m, u, a))
  {
    var q := PageIndex(m.s.tasks[u].stack);
    assert HasPage(m, u);
    assert q !in Below(m.kernel);
    if Owns(m, t, a) && Owns(m, u, a) {
      assert InPage(q, a);
      if t == 0 {
        KernelApart(m.kernel, q, a);
      } else {
        assert HasPage(m, t);
        PagesApart(PageIndex(m.s.tasks[t].stack), q, a);
      }
    }
  }

  /** A page that callers hold, but no task, is on no task's stack. */
  lemma PageApart(m: Machine, t: Slot, page: nat, a: nat)
    requires Balanced(m.kernel, m.held) && StacksOk(m) && Exists(m, t)
    requires page in m.held.out || page in FreePages(m)
    requires !IsStack(m, page)
    ensures !(Owns(m, t, a) && InPage(page, a))
  {
    assert page !in Below(m.kernel);
    if Owns(m, t, a) && InPage(page, a) {
      if t == 0 {
        KernelApart(m.kernel, page, a);
      } else {
        assert HasPage(m, t);
        PagesApart(PageIndex(m.s.tasks[t].stack), page, a);
      }
    }
  }

  ghost function FreePages(m: Machine): set<nat> {
    Below(TOTAL_PAGES) - m.held.pm.used
  }

  ghost predicate SameTasks(m: Machine, m': Machine) {
    && m'.s.current == m.s.current && m'.kernel == m.kernel && m'.due == m.due
    && forall t: Slot :: (Exists(m', t) <==> Exists(m, t)) && (Exists(m, t) ==> m'.s.tasks[t] == m.s.tasks[t])
  }

  /** Contexts survive whatever leaves the stacks of the suspended tasks alone. */
  lemma ContextsKept(m: Machine, m': Machine)
    requires ContextsOk(m) && SameTasks(m, m')
    requires forall t: Slot, a: nat :: t != m.s.current && Exists(m, t) && Owns(m, t, a) ==> m'.mem(a) == m.mem(a)
    ensures ContextsOk(m')
  {
    forall t: Slot | t != m.s.current && Exists(m, t)
      ensures Suspended(m', t)
    {
      assert Suspended(m, t);
      var c := m.s.tasks[t].ctx;
      assert forall x :: c <= x < c + FRAME_SIZE ==> Owns(m, t, x);
      ReadSame(m.mem, m'.mem, c, FRAME_SIZE);
    }
  }

  lemma StacksKept(m: Machine, m': Machine)
    requires StacksOk(m) && SameTasks(m, m')
    requires forall t: Slot :: t > 0 && Exists(m, t) ==> PageIndex(m.s.tasks[t].stack) in m'.held.out
    ensures StacksOk(m')
  {
    forall t: Slot | t > 0 && Exists(m, t)
      ensures HasPage(m', t)
    {
      assert HasPage(m, t);
    }
  }

  lemma StillNoStack(m: Machine, m': Machine, page: nat)
    requires SameTasks(m, m') && !IsStack(m, page)
    ensures !IsStack(m', page)
  {
    forall t: Slot | t > 0 && Exists(m', t)
      ensures m'.s.tasks[t].stack != AddressOf(page)
    {
      assert Exists(m, t);
    }
  }

  /** The frame under construction survives whatever leaves its page alone. */
  lemma FrameKept(m: Machine, m': Machine)
    requires FrameSoFar(m) && m'.phase == m.phase && m'.entry == m.entry
    requires Building(m.phase) ==> m'.s.tasks[m.phase.slot] == m.s.tasks[m.phase.slot]
    requires forall a: nat :: Building(m.phase) && InPage(m.phase.page, a) ==> m'.mem(a) == m.mem(a)
    ensures FrameSoFar(m')
  {
    if Building(m.phase) {
      ReadSame(m.mem, m'.mem, Top(m.phase.page), FRAME_SIZE);
    }
  }

  // ---------- every step keeps the invariant ----------

  lemma BootKeeps(m: Machine, m': Machine)
    requires MachineOk(m) && Booting(m.phase) && BootCode(m, m')
    ensures MachineOk(m')
  {
  }

  /** A step that touches neither tasks nor memory. */
  lemma QuietKeeps(m: Machine, m': Machine)
    requires MachineOk(m) && !Booting(m.phase) && m'.s == m.s && m'.mem == m.mem && m'.kernel == m.kernel
    requires m'.due == m.due && m'.held.out == m.held.out
    ensures StacksOk(m') && ContextsOk(m') && SchedOk(m'.s)
  {
    StacksKept(m, m');
    ContextsKept(m, m');
  }

  lemma SearchKeeps(m: Machine, m': Machine)
    requires MachineOk(m) && m.phase.Search? && CreateCode(m, m')
    ensures MachineOk(m')
  {
    hide ContextsOk, StacksOk, SchedOk;
    QuietKeeps(m, m');
    assert forall t: Slot :: Exists(m', t) <==> Exists(m, t);
  }

  lemma SchedKept(m: Machine, m': Machine)
    requires SchedOk(m.s) && SameTasks(m, m')
    ensures SchedOk(m'.s)
  {
    forall t: Slot
      ensures m'.s.tasks[t].status.Running? <==> t == m'.s.current
    {
      assert Exists(m', t) <==> Exists(m, t);
    }
  }

  /** The page under construction is on no stack. */
  lemma BuildIsPrivate(m: Machine, t: Slot, a: nat)
    requires MachineOk(m) && Building(m.phase) && Exists(m, t) && Owns(m, t, a)
    ensures !InPage(m.phase.page, a)
  {
    hide FrameSoFar, IsStack, InPage, Owns, Exists, SchedOk, StacksOk, ContextsOk, Balanced;
    PageApart(m, t, m.phase.page, a);
  }

  /** A store into the page under construction changes no task's context. */
  lemma StoreKeeps(m: Machine, m': Machine)
    requires MachineOk(m) && Building(m.phase) && SameTasks(m, m') && m'.held == m.held
    requires forall a :: !InPage(m.phase.page, a) ==> m'.mem(a) == m.mem(a)
    ensures StacksOk(m') && ContextsOk(m') && SchedOk(m'.s) && Balanced(m'.kernel, m'.held)
  {
    hide FrameSoFar, IsStack, InPage, Owns, SchedOk, ContextsOk, Balanced;
    StacksKept(m, m');
    forall t: Slot, a: nat | t != m.s.current && Exists(m, t) && Owns(m, t, a)
      ensures m'.mem(a) == m.mem(a)
    {
      BuildIsPrivate(m, t, a);
    }
    ContextsKept(m, m');
    SchedKept(m, m');
  }

  lemma BuildKeeps(m: Machine, m': Machine)
    requires MachineOk(m) && Building(m.phase) && !m.phase.Publish? && CreateCode(m, m')
    ensures MachineOk(m')
  {
    var slot, page := m.phase.slot, m.phase.page;
    assert SameTasks(m, m');
    assert forall a :: !InPage(page, a) ==> m'.mem(a) == m.mem(a);
    StoreKeeps(m, m');
    StillNoStack(m, m', page);
    FrameGrows(m, m');
  }

  /** The stores of sched_create_task put the first frame together. */
  lemma FrameGrows(m: Machine, m': Machine)
    requires Building(m.phase) && !m.phase.Publish? && FrameSoFar(m) && CreateCode(m, m')
    ensures FrameSoFar(m')
  {
    var top := Top(m.phase.page);
    match m.phase
    case KeepStack(_, _) =>
    case ClearFrame(_, _) => ReadWritten(m.mem, top, Zeros(FRAME_SIZE));
    case PutEntry(_, _) =>
      ReadPatched(m.mem, top, FRAME_SIZE, ENTRY_AT, m.entry);
    case PutStatus(_, _) =>
      ReadPatched(m.mem, top, FRAME_SIZE, STATUS_AT, STATUS);
      var shown := Zeros(ENTRY_AT) + m.entry + Zeros(16);
      assert shown[..STATUS_AT] == Zeros(ENTRY_AT) + m.entry && shown[STATUS_AT + 8..] == Zeros(8);
    case PutContext(_, _) =>
  }

  lemma ReserveGotKeeps(m: Machine, m': Machine)
    requires MachineOk(m) && m.phase.Reserve? && CreateCode(m, m') && m'.phase.KeepStack?
    ensures MachineOk(m')
  {
    var page := m'.phase.page;
    GotKeeps(m, m', page);
    StillNoStack(m, m', page);
    assert Exists(m', m.phase.slot) <==> Exists(m, m.phase.slot);
  }

  lemma ReserveFailedKeeps(m: Machine, m': Machine)
    requires MachineOk(m) && m.phase.Reserve? && CreateCode(m, m') && !m'.phase.KeepStack?
    ensures MachineOk(m')
  {
    MoveKeepsBalance(m.kernel, m.held, Failed, m'.held);
    QuietKeeps(m, m');
  }

  /** An allocation takes a page that is on no stack, so clearing it changes no context. */
  lemma GotKeeps(m: Machine, m': Machine, page: nat)
    requires MachineOk(m) && !Booting(m.phase) && SameTasks(m, m') && m'.s == m.s
    requires Moves(m.held, Got(page), m'.held) && m'.mem == ZeroPage(m.mem, page)
    ensures Balanced(m'.kernel, m'.held) && StacksOk(m') && ContextsOk(m') && SchedOk(m'.s)
    ensures page in m'.held.out && !IsStack(m, page)
    ensures Building(m.phase) ==> page != m.phase.page
  {
    MoveKeepsBalance(m.kernel, m.held, Got(page), m'.held);
    NoStack(m, page);
    StacksKept(m, m');
    forall t: Slot, a: nat | t != m.s.current && Exists(m, t) && Owns(m, t, a)
      ensures m'.mem(a) == m.mem(a)
    {
      PageApart(m, t, page, a);
    }
    ContextsKept(m, m');
  }

  /** A page nobody holds is nobody's stack. */
  lemma NoStack(m: Machine, page: nat)
    requires StacksOk(m) && page !in m.held.out
    ensures !IsStack(m, page)
  {
    forall t: Slot | t > 0 && Exists(m, t)
      ensures m.s.tasks[t].stack != AddressOf(page)
    {
      assert HasPage(m, t);
    }
  }

  lemma PublishKeeps(m: Machine, m': Machine)
    requires MachineOk(m) && m.phase.Publish? && CreateCode(m, m')
    ensures MachineOk(m')
  {
    var slot, page := m.phase.slot, m.phase.page;
    assert forall t: Slot :: t != slot ==> m'.s.tasks[t] == m.s.tasks[t] && m'.due[t] == m.due[t];
    assert PageIndex(AddressOf(page)) == page;
    forall t: Slot | t > 0 && Exists(m', t)
      ensures HasPage(m', t)
    {
      assert t != slot ==> HasPage(m, t);
    }
    forall t: Slot, u: Slot | 0 < t < u && Exists(m', t) && Exists(m', u)
      ensures m'.s.tasks[t].stack != m'.s.tasks[u].stack
    {
      assert t != slot ==> Exists(m, t);
      assert u != slot ==> Exists(m, u);
    }
    forall t: Slot | t != m'.s.current && Exists(m', t)
      ensures Suspended(m', t)
    {
      assert t != slot ==> Suspended(m, t);
    }
  }

  lemma CreateKeeps(m: Machine, m': Machine)
    requires MachineOk(m) && !Booting(m.phase) && CreateCode(m, m')
    ensures MachineOk(m')
  {
    if m.phase.Search? {
      SearchKeeps(m, m');
    } else if m.phase.Reserve? {
      if m'.phase.KeepStack? {
        ReserveGotKeeps(m, m');
      } else {
        ReserveFailedKeeps(m, m');
      }
    } else if m.phase.Publish? {
      PublishKeeps(m, m');
    } else {
      BuildKeeps(m, m');
    }
  }

  /** What a running task does to memory reaches neither the suspended contexts nor the page under construction. */
  lemma WorkKeeps(m: Machine, m': Machine)
    requires MachineOk(m) && Next(m, Work, m')
    ensures MachineOk(m')
  {
    if !Booting(m.phase) {
      StacksKept(m, m');
      forall t: Slot, a: nat | t != m.s.current && Exists(m, t) && Owns(m, t, a)
        ensures m'.mem(a) == m.mem(a)
      {
        assert Foreign(m, a);
      }
      ContextsKept(m, m');
      forall a: nat | Building(m.phase) && InPage(m.phase.page, a)
        ensures m'.mem(a) == m.mem(a)
      {
        assert Foreign(m, a);
      }
      FrameKept(m, m');
    }
  }

  /** Other code's calls of the page allocator. */
  lemma CallKeeps(m: Machine, call: Pmm.Step, m': Machine)
    requires MachineOk(m) && Next(m, Call(call), m')
    ensures MachineOk(m')
  {
    if call.Got? {
      CallGotKeeps(m, call, m');
    } else {
      PagesKept(m, call, m');
      StacksKept(m, m');
      ContextsKept(m, m');
      FrameKept(m, m');
      SameBuild(m, m');
    }
  }

  lemma FrameKeptByGot(m: Machine, m': Machine, page: nat)
    requires FrameSoFar(m) && m'.s == m.s && m'.phase == m.phase && m'.entry == m.entry
    requires m'.mem == ZeroPage(m.mem, page)
    requires Building(m.phase) ==> page != m.phase.page
    ensures FrameSoFar(m')
  {
    hide FrameSoFar;
    forall a: nat | Building(m.phase) && InPage(m.phase.page, a)
      ensures m'.mem(a) == m.mem(a)
    {
      if InPage(page, a) {
        PagesApart(page, m.phase.page, a);
      }
    }
    FrameKept(m, m');
  }

  lemma CallGotKeeps(m: Machine, call: Pmm.Step, m': Machine)
    requires MachineOk(m) && Next(m, Call(call), m') && call.Got?
    ensures MachineOk(m')
  {
    hide SchedOk, FrameSoFar, ContextsOk, StacksOk, ZeroPage, Balanced, BootOk, IsStack;
    GotKeeps(m, m', call.page);
    FrameKeptByGot(m, m', call.page);
    SameBuild(m, m');
  }

  lemma PagesKept(m: Machine, call: Pmm.Step, m': Machine)
    requires MachineOk(m) && !Booting(m.phase) && Next(m, Call(call), m') && !call.Got?
    ensures forall t: Slot :: t > 0 && Exists(m, t) ==> PageIndex(m.s.tasks[t].stack) in m'.held.out
    ensures Balanced(m'.kernel, m'.held)
  {
    MoveKeepsBalance(m.kernel, m.held, call, m'.held);
    forall t: Slot | t > 0 && Exists(m, t)
      ensures PageIndex(m.s.tasks[t].stack) in m'.held.out
    {
      assert HasPage(m, t);
    }
  }

  /** The creation in progress does not notice steps that change neither tasks nor its own page. */
  lemma SameBuild(m: Machine, m': Machine)
    requires BuildOk(m) && m'.s == m.s && m'.phase == m.phase && FrameSoFar(m')
    requires Building(m.phase) ==> m.phase.page in m'.held.out
    ensures BuildOk(m')
  {
    assert forall t: Slot :: Exists(m', t) <==> Exists(m, t);
    assert Building(m.phase) ==> (IsStack(m', m.phase.page) <==> IsStack(m, m.phase.page));
  }

  // ---------- the timer ----------

  /** The interrupted task's own stack is no other task's and not the page under construction. */
  lemma SavingIsPrivate(m: Machine, at: nat, a: nat, t: Slot)
    requires MachineOk(m) && !Booting(m.phase) && Fits(m, m.s.current, at) && at <= a < at + FRAME_SIZE
    ensures t != m.s.current && Exists(m, t) ==> !Owns(m, t, a)
    ensures Building(m.phase) ==> !InPage(m.phase.page, a)
  {
    var c: Slot := m.s.current;
    assert Owns(m, c, a);
    assert Exists(m, c);
    if t != c && Exists(m, t) {
      if t < c {
        StacksApart(m, t, c, a);
      } else {
        StacksApart(m, c, t, a);
      }
    }
    if Building(m.phase) {
      PageApart(m, c, m.phase.page, a);
    }
  }

  /** After the registers are saved every existing task, the interrupted one too, has its context on its stack. */
  ghost predicate AllSuspended(m: Machine, at: nat, frame: Frame, mem': Memory, t: Slot)
    requires 0 <= m.s.current < MAX_TASKS
  {
    var c := if t == m.s.current then at else m.s.tasks[t].ctx;
    Fits(m, t, c) && Read(mem', c, FRAME_SIZE) == m.due[m.s.current := frame][t]
  }

  lemma SavingSuspends(m: Machine, at: nat, frame: Frame, t: Slot)
    requires MachineOk(m) && !Booting(m.phase) && Fits(m, m.s.current, at) && Exists(m, t)
    ensures AllSuspended(m, at, frame, Write(m.mem, at, frame), t)
  {
    if t == m.s.current {
      ReadWritten(m.mem, at, frame);
    } else {
      assert Suspended(m, t);
      var c := m.s.tasks[t].ctx;
      forall x | c <= x < c + FRAME_SIZE
        ensures Write(m.mem, at, frame)(x) == m.mem(x)
      {
        assert Owns(m, t, x);
        if at <= x < at + FRAME_SIZE {
          SavingIsPrivate(m, at, x, t);
        }
      }
      ReadSame(m.mem, Write(m.mem, at, frame), c, FRAME_SIZE);
    }
  }

  /** What sched_switch does to the slots. */
  lemma SwitchedSlot(s: Sched, ctx: nat, s': Sched, r: nat, t: Slot)
    requires SchedOk(s) && -1 <= s'.current < MAX_TASKS && Switched(s, ctx, s', r)
    ensures s'.tasks[t].stack == s.tasks[t].stack
    ensures s'.tasks[t].ctx == if t == s.current then ctx else s.tasks[t].ctx
    ensures s'.tasks[t].status.Free? <==> s.tasks[t].status.Free?
  {
    SwitchKeeps(s, ctx, s', r);
    assert Park(s.tasks, s.current, ctx)[s.current].status.Ready?;
  }

  lemma TickKeeps(m: Machine, at: nat, frame: Frame, resumed: nat, m': Machine)
    requires MachineOk(m) && !Booting(m.phase) && Ticks(m, at, frame, resumed, m')
    ensures MachineOk(m')
    ensures Fits(m', m'.s.current, resumed) && Read(m'.mem, resumed, FRAME_SIZE) == m'.due[m'.s.current]
  {
    SwitchKeeps(m.s, at, m'.s, resumed);
    forall t: Slot
      ensures m'.s.tasks[t].stack == m.s.tasks[t].stack && (Exists(m', t) <==> Exists(m, t))
      ensures t > 0 && Exists(m, t) ==> HasPage(m', t)
      ensures Exists(m, t) ==> Suspended(m', t)
    {
      SwitchedSlot(m.s, at, m'.s, resumed, t);
      if Exists(m, t) {
        assert t > 0 ==> HasPage(m, t);
        SavingSuspends(m, at, frame, t);
      }
    }
    assert Suspended(m', m'.s.current);
    TickKeepsBuild(m, at, frame, resumed, m');
  }

  lemma TickKeepsBuild(m: Machine, at: nat, frame: Frame, resumed: nat, m': Machine)
    requires MachineOk(m) && !Booting(m.phase) && Ticks(m, at, frame, resumed, m')
    requires forall t: Slot :: m'.s.tasks[t].stack == m.s.tasks[t].stack && (Exists(m', t) <==> Exists(m, t))
    ensures BuildOk(m')
  {
    assert forall page: nat :: IsStack(m', page) ==> IsStack(m, page);
    if Building(m.phase) {
      SwitchedSlot(m.s, at, m'.s, resumed, m.phase.slot);
      forall a: nat | InPage(m.phase.page, a)
        ensures m'.mem(a) == m.mem(a)
      {
        if at <= a < at + FRAME_SIZE {
          SavingIsPrivate(m, at, a, 0);
        }
      }
      ReadSame(m.mem, m'.mem, Top(m.phase.page), FRAME_SIZE);
    }
  }

  // ---------- runs ----------

  ghost predicate IsRun(steps: seq<Step>, states: seq<Machine>) {
    && |states| == |steps| + 1
    && states[0].phase == ClearState(0) && states[0].s.current == -1 && Balanced(states[0].kernel, states[0].held)
    && forall i {:trigger StepAt(steps, states, i)} :: 0 <= i < |steps| ==> StepAt(steps, states, i)
  }

  ghost predicate StepAt(steps: seq<Step>, states: seq<Machine>, i: nat)
    requires i < |steps| && |states| == |steps| + 1
  {
    Next(states[i], steps[i], states[i + 1])
  }

  lemma StepKeeps(m: Machine, step: Step, m': Machine)
    requires MachineOk(m) && Next(m, step, m')
    ensures MachineOk(m') && (!Booting(m.phase) ==> !Booting(m'.phase))
  {
    match step
    case Begin(_) => QuietKeeps(m, m');
    case Code => if Booting(m.phase) { BootKeeps(m, m'); } else { CreateKeeps(m, m'); }
    case Tick(at, frame, resumed) => if !Booting(m.phase) { TickKeeps(m, at, frame, resumed, m'); }
    case Work => WorkKeeps(m, m');
    case Call(call) => CallKeeps(m, call, m');
  }

  lemma StepKeepsAt(steps: seq<Step>, states: seq<Machine>, i: nat)
    requires i < |steps| && |states| == |steps| + 1 && StepAt(steps, states, i) && MachineOk(states[i])
    ensures MachineOk(states[i + 1])
  {
    StepKeeps(states[i], steps[i], states[i + 1]);
  }

  /** The invariant holds after any interleaving of the statements with timer interrupts and other code. */
  lemma {:induction false} RunKeeps(steps: seq<Step>, states: seq<Machine>, n: nat)
    requires IsRun(steps, states) && n < |states|
    ensures MachineOk(states[n])
  {
    if n > 0 {
      RunKeeps(steps, states, n - 1);
      StepKeepsAt(steps, states, n - 1);
    }
  }

  /** The context a task has to be resumed with, as the steps so far determine it. */
  ghost function Expected(steps: seq<Step>, states: seq<Machine>, n: nat, t: Slot): Option<Frame>
    requires n < |states| == |steps| + 1
  {
    if n == 0 then None
    else
      var before := states[n - 1];
      match steps[n - 1]
      case Tick(_, frame, _) => if before.s.current == t then Some(frame) else Expected(steps, states, n - 1, t)
      case Code =>
        if before.phase.Publish? && before.phase.slot == t then Some(FirstFrame(before.entry))
        else Expected(steps, states, n - 1, t)
      case _ => Expected(steps, states, n - 1, t)
  }

  predicate SavesOrStarts(m: Machine, step: Step, t: Slot) {
    (step.Tick? && m.s.current == t) || (step.Code? && m.phase.Publish? && m.phase.slot == t)
  }

  predicate Waiting(m: Machine, t: Slot) {
    !Booting(m.phase) && Exists(m, t) && t != m.s.current
  }

  /** Only saving or starting a task sets the context it is to be resumed with, or makes it wait. */
  ghost predicate DueFollows(m: Machine, step: Step, m': Machine, t: Slot) {
    if SavesOrStarts(m, step, t) then m'.due[t] == if step.Tick? then step.frame else FirstFrame(m.entry)
    else m'.due[t] == m.due[t] && (Waiting(m', t) ==> Waiting(m, t))
  }

  lemma DueStep(m: Machine, step: Step, m': Machine, t: Slot)
    requires MachineOk(m) && Next(m, step, m')
    ensures DueFollows(m, step, m', t)
  {
    if step.Tick? {
      if m.s.current >= 0 {
        SwitchedSlot(m.s, step.at, m'.s, step.resumed, t);
      }
    } else if step.Code? {
      DueCode(m, m', t);
    }
  }

  lemma DueCode(m: Machine, m': Machine, t: Slot)
    requires MachineOk(m) && Next(m, Code, m')
    ensures DueFollows(m, Code, m', t)
  {
    hide StacksOk, ContextsOk, FrameSoFar, Balanced, Read, Write, ZeroPage, FirstFrame;
  }

  lemma DueStepAt(steps: seq<Step>, states: seq<Machine>, n: nat, t: Slot)
    requires IsRun(steps, states) && n < |steps|
    ensures DueFollows(states[n], steps[n], states[n + 1], t)
  {
    RunKeeps(steps, states, n);
    assert StepAt(steps, states, n);
    DueStep(states[n], steps[n], states[n + 1], t);
  }

  lemma {:induction false} DueIsExpected(steps: seq<Step>, states: seq<Machine>, n: nat, t: Slot)
    requires IsRun(steps, states) && n < |states|
    ensures Expected(steps, states, n, t).Some? ==> states[n].due[t] == Expected(steps, states, n, t).value
    ensures Waiting(states[n], t) ==> Expected(steps, states, n, t).Some?
  {
    if n > 0 {
      DueIsExpected(steps, states, n - 1, t);
      DueStepAt(steps, states, n - 1, t);
    }
  }

  /**
   * Context fidelity: whatever ran in between, the frame a timer interrupt returns to lies on the
   * dispatched task's stack and is the one saved when that task was last preempted, or its first one.
   */
  lemma ContextFidelity(steps: seq<Step>, states: seq<Machine>, n: nat)
    requires IsRun(steps, states) && n < |steps| && steps[n].Tick?
    ensures states[n].s.current == -1 ==>
      steps[n].resumed == steps[n].at && Read(states[n + 1].mem, steps[n].resumed, FRAME_SIZE) == steps[n].frame
    ensures states[n].s.current >= 0 ==>
      var m := states[n + 1];
      && 0 <= m.s.current < MAX_TASKS && Fits(m, m.s.current, steps[n].resumed)
      && Expected(steps, states, n + 1, m.s.current) == Some(Read(m.mem, steps[n].resumed, FRAME_SIZE))
  {
    var m, m' := states[n], states[n + 1];
    RunKeeps(steps, states, n);
    assert StepAt(steps, states, n);
    if Booting(m.phase) {
      ReadWritten(m.mem, steps[n].at, steps[n].frame);
    } else {
      TickKeeps(m, steps[n].at, steps[n].frame, steps[n].resumed, m');
      TickDispatchesLive(m, steps[n], m');
      DispatchedExpected(steps, states, n);
    }
  }

  lemma DispatchedExpected(steps: seq<Step>, states: seq<Machine>, n: nat)
    requires IsRun(steps, states) && n < |steps| && steps[n].Tick? && !Booting(states[n].phase)
    requires MachineOk(states[n]) && 0 <= states[n + 1].s.current < MAX_TASKS
    requires states[n + 1].s.current in Live(states[n].s.tasks)
    ensures Expected(steps, states, n + 1, states[n + 1].s.current) == Some(states[n + 1].due[states[n + 1].s.current])
  {
    hide MachineOk, StepAt, Next;
    var t: Slot := states[n + 1].s.current;
    DueIsExpected(steps, states, n, t);
    DueIsExpected(steps, states, n + 1, t);
    assert Exists(states[n], t);
  }

  /** A task under construction is neither running nor ready, so no interrupt dispatches it. */
  lemma HalfBuiltNeverRuns(steps: seq<Step>, states: seq<Machine>, n: nat)
    requires IsRun(steps, states) && n < |states| && (states[n].phase.Reserve? || Building(states[n].phase))
    ensures states[n].s.tasks[states[n].phase.slot].status.Free? && states[n].s.current != states[n].phase.slot
    ensures n < |steps| && steps[n].Tick? ==> states[n + 1].s.current != states[n].phase.slot
  {
    RunKeeps(steps, states, n);
    if n < |steps| && steps[n].Tick? {
      assert StepAt(steps, states, n);
      TickDispatchesLive(states[n], steps[n], states[n + 1]);
    }
  }

  lemma TickDispatchesLive(m: Machine, step: Step, m': Machine)
    requires MachineOk(m) && !Booting(m.phase) && Next(m, step, m') && step.Tick?
    ensures 0 <= m'.s.current < MAX_TASKS && m'.s.current in Live(m.s.tasks)
  {
    SwitchKeeps(m.s, step.at, m'.s, step.resumed);
  }

  /** Once sched_init is over, exactly one task is running, and it is the current one. */
  lemma OneRunning(steps: seq<Step>, states: seq<Machine>, n: nat)
    requires IsRun(steps, states) && n < |states| && states[n].s.current != -1
    ensures 0 <= states[n].s.current < MAX_TASKS
    ensures forall t: Slot :: states[n].s.tasks[t].status.Running? <==> t == states[n].s.current
  {
    RunKeeps(steps, states, n);
  }

  // ---------- page ownership ----------

  /** Every task but task 0 has a page of its own, outside the kernel, with its waiting context inside it. */
  lemma PageOwnership(steps: seq<Step>, states: seq<Machine>, n: nat, t: Slot)
    requires IsRun(steps, states) && n < |states| && !Booting(states[n].phase) && t > 0 && Exists(states[n], t)
    ensures (var m := states[n]; var page := PageIndex(m.s.tasks[t].stack);
      && m.s.tasks[t].stack == AddressOf(page) && m.kernel <= page < TOTAL_PAGES && page in m.held.out
      && (forall u: Slot :: u > 0 && u != t && Exists(m, u) ==> m.s.tasks[u].stack != m.s.tasks[t].stack)
      && (Building(m.phase) ==> m.phase.page != page)
      && (t != m.s.current ==>
          AddressOf(page) <= m.s.tasks[t].ctx && m.s.tasks[t].ctx + FRAME_SIZE <= AddressOf(page + 1)))
  {
    var m := states[n];
    RunKeeps(steps, states, n);
    assert HasPage(m, t);
    assert PageIndex(m.s.tasks[t].stack) !in Below(m.kernel);
    assert t != m.s.current ==> Suspended(m, t);
    forall u: Slot | u > 0 && u != t && Exists(m, u)
      ensures m.s.tasks[u].stack != m.s.tasks[t].stack
    {
      if u < t {
      }
    }
  }

  /** A creation takes exactly one page when it goes through, and none when it fails; no other statement does. */
  ghost predicate OnePageEach(m: Machine, m': Machine) {
    && (if m.phase.Reserve? && Building(m'.phase) then
          m'.phase.page !in m.held.out && m'.held.out == m.held.out + {m'.phase.page}
        else m'.held == m.held)
    && (m.phase.Search? && m'.phase.Idle? ==> forall t: Slot :: t > 0 ==> Exists(m, t))
    && (m.phase.Reserve? && m'.phase.Idle? ==> m.held.pm.freePages == 0)
  }

  lemma SearchTakesNone(m: Machine, m': Machine)
    requires m.phase.Search? && BuildOk(m) && CreateCode(m, m')
    ensures OnePageEach(m, m')
  {
    hide FrameSoFar, IsStack, Moves, Write, ZeroPage, SetTask;
  }

  lemma ReserveTakesOne(m: Machine, m': Machine)
    requires m.phase.Reserve? && Balanced(m.kernel, m.held) && CreateCode(m, m')
    ensures OnePageEach(m, m')
  {
    hide Write, ZeroPage, SetTask, FirstFrame;
    RoomLeft(m.held.pm);
    if Building(m'.phase) {
      MoveKeepsBalance(m.kernel, m.held, Got(m'.phase.page), m'.held);
    }
  }

  lemma OthersTakeNone(m: Machine, m': Machine)
    requires !m.phase.Search? && !m.phase.Reserve? && Next(m, Code, m')
    ensures m'.held == m.held
  {
    hide Moves, Write, ZeroPage, FirstFrame;
  }

  lemma CreationStep(m: Machine, m': Machine)
    requires MachineOk(m) && Next(m, Code, m')
    ensures OnePageEach(m, m')
  {
    hide CreateCode, BootCode, BuildOk, Balanced, StacksOk, ContextsOk, SchedOk, BootOk;
    if m.phase.Search? {
      SearchTakesNone(m, m');
    } else if m.phase.Reserve? {
      ReserveTakesOne(m, m');
    } else {
      OthersTakeNone(m, m');
    }
  }

  lemma CreationPages(steps: seq<Step>, states: seq<Machine>, n: nat)
    requires IsRun(steps, states) && n < |steps| && steps[n].Code?
    ensures OnePageEach(states[n], states[n + 1])
  {
    RunKeeps(steps, states, n);
    assert StepAt(steps, states, n);
    CreationStep(states[n], states[n + 1]);
  }

  /** Existing tasks below slot `k` other than number 0, and the pages of their stacks. */
  ghost function TaskCount(m: Machine, k: nat): nat
    requires k <= MAX_TASKS
  {
    if k <= 1 then 0 else TaskCount(m, k - 1) + if Exists(m, k - 1) then 1 else 0
  }

  ghost function TaskPages(m: Machine, k: nat): set<nat>
    requires k <= MAX_TASKS
  {
    if k <= 1 then {}
    else TaskPages(m, k - 1) + if Exists(m, k - 1) then {PageIndex(m.s.tasks[k - 1].stack)} else {}
  }

  lemma {:induction false} PagesOfTasks(m: Machine, k: nat)
    requires MachineOk(m) && !Booting(m.phase) && k <= MAX_TASKS
    ensures |TaskPages(m, k)| == TaskCount(m, k) && TaskPages(m, k) <= m.held.out
    ensures forall p :: p in TaskPages(m, k) ==>
      exists t: Slot :: 0 < t < k && Exists(m, t) && m.s.tasks[t].stack == AddressOf(p)
  {
    if k > 1 {
      PagesOfTasks(m, k - 1);
      assert Exists(m, k - 1) ==> HasPage(m, k - 1);
    }
  }

  /** As many pages are stacks of tasks as there are tasks besides task 0: each took exactly one. */
  lemma OnePagePerTask(steps: seq<Step>, states: seq<Machine>, n: nat)
    requires IsRun(steps, states) && n < |states| && !Booting(states[n].phase)
    ensures |TaskPages(states[n], MAX_TASKS)| == TaskCount(states[n], MAX_TASKS)
    ensures TaskPages(states[n], MAX_TASKS) <= states[n].held.out
  {
    hide *;
    RunKeeps(steps, states, n);
    PagesOfTasks(states[n], MAX_TASKS);
  }

  // ---------- bounded waiting ----------

  ghost function CountTicks(steps: seq<Step>): nat {
    if steps == [] then 0 else CountTicks(steps[..|steps| - 1]) + if steps[|steps| - 1].Tick? then 1 else 0
  }

  ghost predicate Approaches(m: Machine, step: Step, m': Machine, t: Slot) {
    && t in Live(m'.s.tasks) && !Booting(m'.phase) && 0 <= m.s.current < MAX_TASKS && 0 <= m'.s.current < MAX_TASKS
    && if step.Tick? then m'.s.current == t || Ahead(m'.s.current, t) < Ahead(m.s.current, t)
       else m'.s.current == m.s.current
  }

  lemma StepApproaches(m: Machine, step: Step, m': Machine, t: Slot)
    requires MachineOk(m) && !Booting(m.phase) && Next(m, step, m') && t in Live(m.s.tasks)
    ensures Approaches(m, step, m', t)
  {
    if step.Tick? {
      SwitchKeeps(m.s, step.at, m'.s, step.resumed);
      CloserToDispatch(m.s, step.at, m'.s, step.resumed, t);
    } else {
      StaysLive(m, step, m', t);
    }
  }

  lemma StaysLive(m: Machine, step: Step, m': Machine, t: Slot)
    requires MachineOk(m) && !Booting(m.phase) && Next(m, step, m') && t in Live(m.s.tasks) && !step.Tick?
    ensures Approaches(m, step, m', t)
  {
    if step.Code? {
      CodeStaysLive(m, m', t);
    }
  }

  lemma CodeStaysLive(m: Machine, m': Machine, t: Slot)
    requires !Booting(m.phase) && CreateCode(m, m') && t in Live(m.s.tasks) && BuildOk(m)
    ensures t in Live(m'.s.tasks) && m'.s.current == m.s.current && !Booting(m'.phase)
  {
    if Building(m.phase) {
      assert t != m.phase.slot ==> m'.s.tasks[t] == m.s.tasks[t];
    }
  }

  lemma ApproachesAt(steps: seq<Step>, states: seq<Machine>, n: nat, t: Slot)
    requires IsRun(steps, states) && n < |steps| && !Booting(states[n].phase) && t in Live(states[n].s.tasks)
    ensures Approaches(states[n], steps[n], states[n + 1], t)
  {
    RunKeeps(steps, states, n);
    assert StepAt(steps, states, n);
    StepApproaches(states[n], steps[n], states[n + 1], t);
  }

  /** While a live task is not dispatched, every tick brings the search closer to it. */
  lemma {:induction false} WaitingShrinks(steps: seq<Step>, states: seq<Machine>, i: nat, j: nat, t: Slot)
    requires IsRun(steps, states) && i <= j < |states| && !Booting(states[i].phase) && t in Live(states[i].s.tasks)
    requires 0 <= states[i].s.current < MAX_TASKS
    requires forall n :: i <= n < j && steps[n].Tick? ==> states[n + 1].s.current != t
    ensures t in Live(states[j].s.tasks) && !Booting(states[j].phase) && 0 <= states[j].s.current < MAX_TASKS
    ensures Ahead(states[j].s.current, t) + CountTicks(steps[i..j]) <= Ahead(states[i].s.current, t)
  {
    hide MachineOk, BootCode, CreateCode, Ticks, SchedOk, StepAt, Next, CountTicks, Ahead, Live, IsRun;
    RunLength(steps, states);
    if i < j {
      WaitingShrinks(steps, states, i, j - 1, t);
      ApproachesAt(steps, states, j - 1, t);
      TicksMore(steps, i, j);
    } else {
      NoTicks(steps, i);
    }
  }

  lemma RunLength(steps: seq<Step>, states: seq<Machine>)
    requires IsRun(steps, states)
    ensures |states| == |steps| + 1
  {
  }

  lemma NoTicks(steps: seq<Step>, i: nat)
    requires i <= |steps|
    ensures CountTicks(steps[i..i]) == 0
  {
  }

  lemma TicksMore(steps: seq<Step>, i: nat, j: nat)
    requires i < j <= |steps|
    ensures CountTicks(steps[i..j]) == CountTicks(steps[i..j - 1]) + if steps[j - 1].Tick? then 1 else 0
  {
    assert steps[i..j][..j - 1 - i] == steps[i..j - 1];
  }

  /** A live task runs again after at most 16 ticks, also when tasks are created meanwhile. */
  lemma BoundedWaiting(steps: seq<Step>, states: seq<Machine>, i: nat, j: nat, t: Slot)
    requires IsRun(steps, states) && i <= j < |states| && !Booting(states[i].phase) && t in Live(states[i].s.tasks)
    requires CountTicks(steps[i..j]) >= 16
    ensures exists n :: i <= n < j && steps[n].Tick? && states[n + 1].s.current == t
  {
    RunKeeps(steps, states, i);
    if forall n :: i <= n < j && steps[n].Tick? ==> states[n + 1].s.current != t {
      WaitingShrinks(steps, states, i, j, t);
    }
  }
}
