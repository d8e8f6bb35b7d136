/** The scheduler in memory. Its methods are the machine's statements in a row, without interrupts. */
module Scheduling {
  import opened Bytes
  import opened SchedModel
  import opened SchedMachine
  import opened Pmm

  /** States of the machine that single statements of the scheduler lead through. */
  ghost predicate IsCodeRun(states: seq<Machine>) {
    |states| > 0 && forall i {:trigger CodeAt(states, i)} :: 0 <= i < |states| - 1 ==> CodeAt(states, i)
  }

  ghost predicate CodeAt(states: seq<Machine>, i: nat)
    requires i < |states| - 1
  {
    Next(states[i], Code, states[i + 1])
  }

  ghost function Last(states: seq<Machine>): Machine
    requires |states| > 0
  {
    states[|states| - 1]
  }

  lemma Extend(states: seq<Machine>, m: Machine)
    requires IsCodeRun(states) && Next(Last(states), Code, m)
    ensures IsCodeRun(states + [m]) && Last(states + [m]) == m && (states + [m])[0] == states[0]
  {
    var longer := states + [m];
    forall i: nat | i < |longer| - 1
      ensures CodeAt(longer, i)
    {
      assert i < |states| - 1 ==> CodeAt(states, i);
    }
  }

  /** The bytes of all pages, as the machine sees them. */
  ghost predicate Shows(mem: Memory, ram: seq<Page>)
    requires |ram| == TOTAL_PAGES
  {
    forall p: nat :: p < TOTAL_PAGES ==> Read(mem, AddressOf(p), PAGE_SIZE) == ram[p]
  }

  /** A page with the bytes from offset `at` replaced. */
  function Patched(page: Page, at: nat, s: seq<byte>): Page
    requires at + |s| <= PAGE_SIZE
  {
    page[..at] + s + page[at + |s|..]
  }

  lemma StoreShows(mem: Memory, ram: seq<Page>, page: nat, at: nat, s: seq<byte>)
    requires |ram| == TOTAL_PAGES && page < TOTAL_PAGES && at + |s| <= PAGE_SIZE && Shows(mem, ram)
    ensures Shows(Write(mem, AddressOf(page) + at, s), ram[page := Patched(ram[page], at, s)])
  {
    var mem' := Write(mem, AddressOf(page) + at, s);
    forall p: nat | p < TOTAL_PAGES
      ensures Read(mem', AddressOf(p), PAGE_SIZE) == ram[page := Patched(ram[page], at, s)][p]
    {
      if p == page {
        ReadPatched(mem, AddressOf(page), PAGE_SIZE, at, s);
      } else {
        ReadSame(mem, mem', AddressOf(p), PAGE_SIZE);
      }
    }
  }

  /** The three stores into a cleared page leave the first frame at its end. */
  lemma FrameBuilt(entry: Word)
    ensures (var at := PAGE_SIZE - FRAME_SIZE;
      Patched(Patched(Patched(ZERO_PAGE, at, Zeros(FRAME_SIZE)), at + ENTRY_AT, entry), at + STATUS_AT, STATUS)
      == Zeros(at) + FirstFrame(entry))
  {
    hide AddressOf;
  }

  /** The machine after pmm_alloc_page returned `page` to sched_create_task. */
  ghost function Reserved(m: Machine, page: nat, pm: Pm): Machine
    requires m.phase.Reserve?
  {
    m.(held := Held(pm, m.held.out + {page}), mem := ZeroPage(m.mem, page), phase := KeepStack(m.phase.slot, page))
  }

  lemma NextGot(m: Machine, page: nat, pm: Pm)
    requires m.phase.Reserve? && Runner(m) == m.creator && Allocs(m.held.pm, Some(page), pm)
    ensures Next(m, Code, Reserved(m, page, pm))
  {
  }

  class Scheduler {
    const tasks: array<Task>
    const pmm: PageAllocator
    var current: int

    constructor (pmm: PageAllocator)
      ensures tasks.Length == 16 && this.pmm == pmm && current == -1 && fresh(tasks)
    {
      tasks := new Task[MAX_TASKS](_ => Task(0, 0, Free, 0));
      this.pmm := pmm;
      current := -1;
    }

    ghost predicate Valid()
      reads this, tasks, pmm, pmm.bitmap
    {
      tasks.Length == MAX_TASKS && -1 <= current < MAX_TASKS && pmm.Valid()
    }

    ghost function State(): Sched
      requires tasks.Length == MAX_TASKS
      reads this, tasks
    {
      Sched(tasks[..], current)
    }

    /** The fields and the memory are those of the machine. */
    ghost predicate Matches(m: Machine)
      reads this, tasks, pmm, pmm.bitmap, pmm.ram
    {
      Valid() && State() == m.s && pmm.State() == m.held.pm && Shows(m.mem, pmm.ram[..])
    }

    /** sched_switch */
    method Switch(ctx: nat) returns (r: nat)
      requires Valid()
      modifies this`current, tasks
      ensures Valid() && Switched(old(State()), ctx, State(), r)
    {
      hide Ahead, NoneWithin, IsNext, NoneReady;
      if current == -1 {
        return ctx;
      }
      tasks[current] := tasks[current].(ctx := ctx);
      if tasks[current].status.Running? {
        tasks[current] := tasks[current].(status := Ready);
      }
      ghost var cur: Slot := current;
      ghost var parked: Table := tasks[..];
      assert parked == Park(old(tasks[..]), cur, ctx);
      SearchStarts(parked, cur);
      var next := current;
      var attempts := 0;
      while attempts < MAX_TASKS
        invariant current == cur && tasks[..] == parked
        invariant 0 <= attempts <= MAX_TASKS && 0 <= next < MAX_TASKS && NoneWithin(parked, cur, attempts)
        invariant if attempts == 0 then next == cur else Ahead(cur, next) == attempts && !parked[next].status.Ready?
      {
        SlotBehind(cur, next, attempts);
        next := (next + 1) % MAX_TASKS;
        if tasks[next].status.Ready? {
          SearchHits(parked, cur, next);
          break;
        }
        SearchPasses(parked, cur, next);
        attempts := attempts + 1;
      }
      if tasks[next].status.Ready? {
        current := next;
        tasks[current] := tasks[current].(status := Running);
      } else {
        SearchFails(parked, cur);
      }
      r := tasks[current].ctx;
    }

    /** sched_init, uninterrupted: exactly task 0 exists, and it is running. */
    method Init(ghost m: Machine) returns (ghost states: seq<Machine>)
      requires Matches(m) && m.phase == ClearState(0) && current == -1
      modifies this`current, tasks
      ensures IsCodeRun(states) && states[0] == m && Last(states).phase == Idle && Matches(Last(states))
      ensures current == 0 && SchedOk(State()) && Live(tasks[..]) == {0}
    {
      hide Shows, UsedSet, PmOk;
      states := [m];
      ghost var g := m;
      for i := 0 to MAX_TASKS
        invariant Matches(g) && current == -1 && g.phase == if i < MAX_TASKS then ClearState(i) else RunTask0
        invariant IsCodeRun(states) && states[0] == m && Last(states) == g
        invariant forall t: Slot :: t < i ==> tasks[t].status.Free?
      {
        tasks[i] := tasks[i].(status := Free);
        g := SetTask(g, i, tasks[i], ClearId(i));
        Extend(states, g);
        states := states + [g];
        tasks[i] := tasks[i].(id := i);
        g := SetTask(g, i, tasks[i], if i + 1 < MAX_TASKS then ClearState(i + 1) else RunTask0);
        Extend(states, g);
        states := states + [g];
      }
      tasks[0] := tasks[0].(status := Running);
      g := SetTask(g, 0, tasks[0], DropStack0);
      Extend(states, g);
      states := states + [g];
      tasks[0] := tasks[0].(stack := 0);
      g := SetTask(g, 0, tasks[0], Start);
      Extend(states, g);
      states := states + [g];
      current := 0;
      g := g.(s := g.s.(current := 0), phase := Idle);
      Extend(states, g);
      states := states + [g];
    }
  
    /** The search for a free slot in sched_create_task; 16 means that there is none. */
    method FindSlot(ghost m: Machine) returns (slot: nat, ghost states: seq<Machine>)
      requires Matches(m) && m.phase == Search(1) && Runner(m) == m.creator
      ensures IsCodeRun(states) && states[0] == m
      ensures 1 <= slot <= MAX_TASKS && forall t: Slot :: 0 < t < slot ==> !tasks[t].status.Free?
      ensures slot < MAX_TASKS ==> tasks[slot].status.Free? && Last(states) == m.(phase := Reserve(slot))
      ensures slot == MAX_TASKS ==> Last(states) == m.(phase := Idle)
    {
      states := [m];
      ghost var g := m;
      slot := 1;
      while slot < MAX_TASKS
        invariant 1 <= slot <= MAX_TASKS && g == m.(phase := Search(slot))
        invariant IsCodeRun(states) && states[0] == m && Last(states) == g
        invariant forall t: Slot :: 0 < t < slot ==> !tasks[t].status.Free?
      {
        g := g.(phase := if tasks[slot].status.Free? then Reserve(slot) else Search(slot + 1));
        Extend(states, g);
        states := states + [g];
        if tasks[slot].status.Free? {
          return;
        }
        slot := slot + 1;
      }
      g := g.(phase := Idle);
      Extend(states, g);
      states := states + [g];
    }

    /** The stores to the page of a new task: the frame at its end is its first context. */
    method FillFrame(page: nat, entry: Word, ghost m: Machine) returns (ghost states: seq<Machine>)
      requires Matches(m) && Runner(m) == m.creator && m.phase.ClearFrame? && m.phase.page == page < TOTAL_PAGES
      requires m.entry == entry && pmm.ram[page] == ZERO_PAGE
      modifies pmm.ram
      ensures IsCodeRun(states) && states[0] == m && Matches(Last(states))
      ensures (var g := Last(states); g == m.(mem := g.mem, phase := PutContext(m.phase.slot, page)))
      ensures pmm.ram[..] == old(pmm.ram[..])[page := pmm.ram[page]]
      ensures pmm.ram[page] == Zeros(PAGE_SIZE - FRAME_SIZE) + FirstFrame(entry)
    {
      var frame := PAGE_SIZE - FRAME_SIZE;
      ghost var slot := m.phase.slot;
      states := [m];
      states := Store(page, frame, Zeros(FRAME_SIZE), states, PutEntry(slot, page));
      states := Store(page, frame + ENTRY_AT, entry, states, PutStatus(slot, page));
      states := Store(page, frame + STATUS_AT, STATUS, states, PutContext(slot, page));
      FrameBuilt(entry);
    }

    /** One store to a page. */
    method Store(page: nat, at: nat, s: seq<byte>, ghost states: seq<Machine>, ghost phase: Phase)
      returns (ghost longer: seq<Machine>)
      requires IsCodeRun(states) && Matches(Last(states)) && page < TOTAL_PAGES && at + |s| <= PAGE_SIZE
      requires (var m := Last(states); Next(m, Code, m.(mem := Write(m.mem, AddressOf(page) + at, s), phase := phase)))
      modifies pmm.ram
      ensures IsCodeRun(longer) && longer[0] == states[0] && Matches(Last(longer))
      ensures (var m := Last(states); Last(longer) == m.(mem := Write(m.mem, AddressOf(page) + at, s), phase := phase))
      ensures pmm.ram[..] == old(pmm.ram[..])[page := Patched(old(pmm.ram[page]), at, s)]
    {
      ghost var m := Last(states);
      StoreShows(m.mem, pmm.ram[..], page, at, s);
      pmm.ram[page] := Patched(pmm.ram[page], at, s);
      ghost var m' := m.(mem := Write(m.mem, AddressOf(page) + at, s), phase := phase);
      Extend(states, m');
      longer := states + [m'];
    }

    /** The last two stores of sched_create_task. */
    method Finish(slot: Slot, page: nat, ghost m: Machine) returns (ghost states: seq<Machine>)
      requires Matches(m) && Runner(m) == m.creator && m.phase == PutContext(slot, page)
      modifies tasks
      ensures IsCodeRun(states) && states[0] == m && Last(states).phase.Idle? && Matches(Last(states))
      ensures tasks[..] == old(tasks[..])[slot := old(tasks[slot]).(ctx := Top(page), status := Ready)]
    {
      states := [m];
      tasks[slot] := tasks[slot].(ctx := Top(page));
      ghost var g := SetTask(m, slot, tasks[slot], Publish(slot, page));
      Extend(states, g);
      states := states + [g];
      tasks[slot] := tasks[slot].(status := Ready);
      g := SetTask(g, slot, tasks[slot], Idle).(due := g.due[slot := FirstFrame(m.entry)]);
      Extend(states, g);
      states := states + [g];
    }

    /** What sched_create_task does once it has a slot and a page. */
    method Build(slot: Slot, page: nat, entry: Word, ghost m: Machine) returns (ghost states: seq<Machine>)
      requires Matches(m) && Runner(m) == m.creator && m.phase == KeepStack(slot, page) && m.entry == entry
      requires page < TOTAL_PAGES && pmm.ram[page] == ZERO_PAGE
      modifies tasks, pmm.ram
      ensures IsCodeRun(states) && states[0] == m && Last(states).phase.Idle? && Matches(Last(states))
      ensures tasks[..] == old(tasks[..])[slot := Task(Top(page), AddressOf(page), Ready, old(tasks[slot].id))]
      ensures pmm.ram[..] == old(pmm.ram[..])[page := Zeros(PAGE_SIZE - FRAME_SIZE) + FirstFrame(entry)]
    {
      states := [m];
      tasks[slot] := tasks[slot].(stack := AddressOf(page));
      ghost var g := SetTask(m, slot, tasks[slot], ClearFrame(slot, page));
      Extend(states, g);
      states := states + [g];
      ghost var filling := FillFrame(page, entry, g);
      Join(states, filling);
      states := states + filling[1..];
      ghost var finishing := Finish(slot, page, Last(states));
      Join(states, finishing);
      states := states + finishing[1..];
    }

    /**
     * sched_create_task, uninterrupted, from between two calls: the lowest free slot gets a ready task on a
     * fresh page with its first frame at the end; without a free slot or page nothing changes.
     */
    method CreateTask(entry: Word, ghost m: Machine)
      returns (made: bool, slot: nat, page: nat, ghost states: seq<Machine>)
      requires Matches(m) && m.phase.Idle?
      modifies tasks, pmm, pmm.bitmap, pmm.ram
      ensures IsCodeRun(states) && Next(m, Begin(entry), states[0]) && Last(states).phase.Idle? && Matches(Last(states))
      ensures made ==>
        && 0 < slot < MAX_TASKS && old(tasks[slot].status.Free?)
        && (forall t: Slot :: 0 < t < slot ==> !old(tasks[t].status.Free?))
        && Allocs(old(pmm.State()), Some(page), pmm.State())
        && tasks[..] == old(tasks[..])[slot := Task(Top(page), AddressOf(page), Ready, old(tasks[slot].id))]
        && page < TOTAL_PAGES
        && pmm.ram[..] == old(pmm.ram[..])[page := Zeros(PAGE_SIZE - FRAME_SIZE) + FirstFrame(entry)]
      ensures !made ==>
        && ((forall t: Slot :: 0 < t ==> !old(tasks[t].status.Free?)) || old(pmm.freePages) == 0)
        && tasks[..] == old(tasks[..]) && pmm.State() == old(pmm.State()) && pmm.ram[..] == old(pmm.ram[..])
    {
      hide Shows, Zeros, FirstFrame, UsedSet, PmOk;
      ghost var g := m.(phase := Search(1), creator := Runner(m), entry := entry);
      slot, states := FindSlot(g);
      page := 0;
      if slot == MAX_TASKS {
        made := false;
        return;
      }
      g := Last(states);
      made, page, g := Allocate(g);
      Extend(states, g);
      states := states + [g];
      if !made {
        return;
      }
      ghost var building := Build(slot, page, entry, g);
      Join(states, building);
      states := states + building[1..];
    }

    /** The call of pmm_alloc_page in sched_create_task. */
    method Allocate(ghost m: Machine) returns (ok: bool, page: nat, ghost m': Machine)
      requires Matches(m) && m.phase.Reserve? && Runner(m) == m.creator
      modifies pmm, pmm.bitmap, pmm.ram
      ensures Next(m, Code, m') && Matches(m')
      ensures ok ==>
        && Allocs(old(pmm.State()), Some(page), pmm.State()) && page < TOTAL_PAGES
        && m' == m.(held := m'.held, mem := m'.mem, phase := KeepStack(m.phase.slot, page))
        && pmm.ram[..] == old(pmm.ram[..])[page := ZERO_PAGE]
      ensures !ok ==>
        && pmm.State() == old(pmm.State()) && old(pmm.freePages) == 0 && pmm.ram[..] == old(pmm.ram[..])
        && m'.phase.Idle?
    {
      hide FreePages, PmOk, UsedSet;
      RoomLeft(pmm.State());
      ghost var ram := pmm.ram[..];
      var r := pmm.AllocPage();
      if r.None? {
        return false, 0, m.(held := Held(pmm.State(), m.held.out), phase := Idle);
      }
      ok := true;
      page := PageIndex(r.value);
      NextGot(m, page, pmm.State());
      StoreShows(m.mem, ram, page, 0, Zeros(PAGE_SIZE));
      assert Patched(ram[page], 0, Zeros(PAGE_SIZE)) == ZERO_PAGE;
      m' := Reserved(m, page, pmm.State());
    }
  }

  lemma Join(states: seq<Machine>, more: seq<Machine>)
    requires IsCodeRun(states) && IsCodeRun(more) && Last(states) == more[0]
    ensures (var all := states + more[1..]; IsCodeRun(all) && all[0] == states[0] && Last(all) == Last(more))
  {
    var all := states + more[1..];
    forall i: nat | i < |all| - 1
      ensures CodeAt(all, i)
    {
      if i < |states| - 1 {
        assert CodeAt(states, i);
      } else {
        assert CodeAt(more, i - (|states| - 1));
      }
    }
  }
}
