/** Task table of the round-robin scheduler, what a timer switch does to it, and its fairness. */
module SchedModel {
  import opened Bytes

  const MAX_TASKS := 16

  datatype Status = Free | Ready | Running | Sleeping

  datatype Task = Task(ctx: nat, stack: nat, status: Status, id: nat)

  type Table = s: seq<Task> | |s| == MAX_TASKS witness seq(MAX_TASKS, i => Task(0, 0, Free, 0))

  datatype Sched = Sched(tasks: Table, current: int)

  type Slot = t: nat | t < MAX_TASKS

  /** How many probes the search started behind `cur` needs to look at slot `t`. */
  function Ahead(cur: Slot, t: Slot): (d: nat)
    ensures 1 <= d <= MAX_TASKS
  {
    if t > cur then t - cur else t - cur + MAX_TASKS
  }

  /** The table after the interrupted task has stored its context. */
  function Park(tasks: Table, cur: Slot, ctx: nat): Table {
    var t := tasks[cur].(ctx := ctx);
    tasks[cur := if t.status.Running? then t.(status := Ready) else t]
  }

  /** The ready slot that the search from behind `cur` meets first. */
  ghost predicate IsNext(tasks: Table, cur: Slot, next: Slot) {
    tasks[next].status.Ready? && forall t: Slot :: tasks[t].status.Ready? ==> Ahead(cur, next) <= Ahead(cur, t)
  }

  ghost predicate NoneReady(tasks: Table) {
    forall t: Slot :: !tasks[t].status.Ready?
  }

  /** None of the `n` slots behind `cur` is ready. */
  ghost predicate NoneWithin(tasks: Table, cur: Slot, n: nat) {
    forall t: Slot :: Ahead(cur, t) <= n ==> !tasks[t].status.Ready?
  }

  lemma SearchStarts(tasks: Table, cur: Slot)
    ensures NoneWithin(tasks, cur, 0)
  {
  }

  lemma SlotBehind(cur: Slot, next: Slot, n: nat)
    requires n < MAX_TASKS && if n == 0 then next == cur else Ahead(cur, next) == n
    ensures Ahead(cur, (next + 1) % MAX_TASKS) == n + 1
  {
  }

  lemma SearchPasses(tasks: Table, cur: Slot, next: Slot)
    requires NoneWithin(tasks, cur, Ahead(cur, next) - 1) && !tasks[next].status.Ready?
    ensures NoneWithin(tasks, cur, Ahead(cur, next))
  {
  }

  lemma SearchHits(tasks: Table, cur: Slot, next: Slot)
    requires NoneWithin(tasks, cur, Ahead(cur, next) - 1) && tasks[next].status.Ready?
    ensures IsNext(tasks, cur, next) && !NoneReady(tasks)
  {
  }

  lemma SearchFails(tasks: Table, cur: Slot)
    requires NoneWithin(tasks, cur, MAX_TASKS)
    ensures NoneReady(tasks)
  {
  }

  /** sched_switch: interrupted with context `ctx`, it goes on with context `r`. */
  ghost predicate Switched(s: Sched, ctx: nat, s': Sched, r: nat)
    requires -1 <= s.current < MAX_TASKS && -1 <= s'.current < MAX_TASKS
  {
    if s.current == -1 then s' == s && r == ctx
    else
      var parked := Park(s.tasks, s.current, ctx);
      if NoneReady(parked) then s' == Sched(parked, s.current) && r == ctx
      else
        && s'.current >= 0 && IsNext(parked, s.current, s'.current)
        && s'.tasks == parked[s'.current := parked[s'.current].(status := Running)]
        && r == parked[s'.current].ctx
  }

  /** Exactly one task is running, and it is the current one. */
  ghost predicate SchedOk(s: Sched) {
    0 <= s.current < MAX_TASKS && forall t: Slot :: s.tasks[t].status.Running? <==> t == s.current
  }

  ghost function Live(tasks: Table): set<Slot> {
    set t: Slot | t < MAX_TASKS && (tasks[t].status.Ready? || tasks[t].status.Running?)
  }

  /** A switch keeps one running task, starts or stops no task, and dispatches the nearest live one. */
  lemma SwitchKeeps(s: Sched, ctx: nat, s': Sched, r: nat)
    requires SchedOk(s) && -1 <= s'.current < MAX_TASKS && Switched(s, ctx, s', r)
    ensures SchedOk(s') && Live(s'.tasks) == Live(s.tasks) && s'.current in Live(s.tasks)
    ensures forall t :: t in Live(s.tasks) ==> Ahead(s.current, s'.current) <= Ahead(s.current, t)
    ensures r == s'.tasks[s'.current].ctx
  {
    var parked := Park(s.tasks, s.current, ctx);
    assert parked[s.current].status.Ready?;
    forall t: Slot
      ensures parked[t].status.Ready? <==> t in Live(s.tasks)
      ensures s'.tasks[t].status.Running? <==> t == s'.current
      ensures t in Live(s'.tasks) <==> t in Live(s.tasks)
    {
    }
  }

  // ---------- fairness ----------

  /** The live tasks that come up no later than `t`. */
  ghost function Queue(s: Sched, t: Slot): set<Slot>
    requires 0 <= s.current < MAX_TASKS
  {
    set u | u in Live(s.tasks) && Ahead(s.current, u) <= Ahead(s.current, t)
  }

  /** The position of a live task in the round: 1 is next. */
  ghost function Rank(s: Sched, t: Slot): nat
    requires 0 <= s.current < MAX_TASKS
  {
    |Queue(s, t)|
  }

  lemma AheadAfter(cur: Slot, next: Slot, t: Slot)
    requires Ahead(cur, next) <= Ahead(cur, t)
    ensures Ahead(next, t) == if t == next then MAX_TASKS else Ahead(cur, t) - Ahead(cur, next)
  {
  }

  /** With every switch a live task moves up by one; the first is dispatched and goes to the end. */
  lemma RankSteps(s: Sched, ctx: nat, s': Sched, r: nat, t: Slot)
    requires SchedOk(s) && -1 <= s'.current < MAX_TASKS && Switched(s, ctx, s', r) && t in Live(s.tasks)
    ensures s'.current == t <==> Rank(s, t) == 1
    ensures Rank(s', t) == if s'.current == t then |Live(s.tasks)| else Rank(s, t) - 1
  {
    SwitchKeeps(s, ctx, s', r);
    var next := s'.current;
    forall u | u in Live(s.tasks)
      ensures u in Queue(s', t) <==> t == next || (u in Queue(s, t) && u != next)
    {
      AheadAfter(s.current, next, u);
      AheadAfter(s.current, next, t);
    }
    assert next in Queue(s, t);
    if t == next {
      assert Queue(s', t) == Live(s.tasks);
      assert Queue(s, t) == {t};
    } else {
      assert Queue(s', t) == Queue(s, t) - {next};
      SubsetCount({next, t}, Queue(s, t));
    }
  }

  /** Consecutive timer switches. */
  ghost predicate IsSwitchRun(states: seq<Sched>, ctxs: seq<nat>, rets: seq<nat>) {
    && |states| == |ctxs| + 1 == |rets| + 1
    && (forall i :: 0 <= i < |states| ==> -1 <= states[i].current < MAX_TASKS)
    && forall i :: 0 <= i < |ctxs| ==> Switched(states[i], ctxs[i], states[i + 1], rets[i])
  }

  /** Where a live task stands after `n` switches, up to its second dispatch. */
  lemma {:induction false} RankInRun(states: seq<Sched>, ctxs: seq<nat>, rets: seq<nat>, t: Slot, n: nat)
    requires IsSwitchRun(states, ctxs, rets) && SchedOk(states[0]) && t in Live(states[0].tasks) && n < |states|
    requires n < Rank(states[0], t) + |Live(states[0].tasks)|
    ensures SchedOk(states[n]) && Live(states[n].tasks) == Live(states[0].tasks)
    ensures Rank(states[0], t) >= 1
    ensures Rank(states[n], t) == Rank(states[0], t) - n + if n < Rank(states[0], t) then 0 else |Live(states[0].tasks)|
    ensures n > 0 ==> (states[n].current == t <==> n == Rank(states[0], t))
  {
    assert t in Queue(states[0], t);
    if n > 0 {
      RankInRun(states, ctxs, rets, t, n - 1);
      SwitchKeeps(states[n - 1], ctxs[n - 1], states[n], rets[n - 1]);
      RankSteps(states[n - 1], ctxs[n - 1], states[n], rets[n - 1], t);
    }
  }

  /** With k live tasks any k consecutive switches dispatch each of them exactly once. */
  lemma RoundRobin(states: seq<Sched>, ctxs: seq<nat>, rets: seq<nat>, t: Slot)
    requires IsSwitchRun(states, ctxs, rets) && SchedOk(states[0]) && t in Live(states[0].tasks)
    requires |ctxs| == |Live(states[0].tasks)|
    ensures exists n :: 0 < n < |states| && states[n].current == t
    ensures forall n, m :: 0 < n < |states| && 0 < m < |states| && states[n].current == t == states[m].current ==>
      n == m
  {
    var k, r := |ctxs|, Rank(states[0], t);
    RankInRun(states, ctxs, rets, t, 0);
    SubsetCount(Queue(states[0], t), Live(states[0].tasks));
    forall n | 0 < n < |states|
      ensures states[n].current == t <==> n == r
    {
      RankInRun(states, ctxs, rets, t, n);
    }
    assert states[r].current == t;
  }

  /** A switch dispatches a given live task or brings the search closer to it. */
  lemma CloserToDispatch(s: Sched, ctx: nat, s': Sched, r: nat, t: Slot)
    requires SchedOk(s) && -1 <= s'.current < MAX_TASKS && Switched(s, ctx, s', r) && t in Live(s.tasks)
    ensures s'.current == t || (s'.current >= 0 && Ahead(s'.current, t) < Ahead(s.current, t))
  {
    SwitchKeeps(s, ctx, s', r);
    AheadAfter(s.current, s'.current, t);
  }
}
