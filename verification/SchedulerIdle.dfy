/** A CPU with an idle task never gets stuck: in every run, on all CPUs, the idle
    task is there to switch to, so a task that blocked or died is left at the next
    tick and stays as it was. Also, event by event, exactly when a dead task comes
    back to life. */
module SchedulerIdle {
  import opened Wrappers
  import opened Scheduler
  import opened SchedulerSwitch
  import opened SchedulerWakeups

  // ------------------------------------------------------- the idle task

  /** Slot `k` holds the idle task of `cpu`: pinned there, waiting for nobody,
      current on no other CPU, and Running or Ready. Off the idle task the
      scheduler is active. */
  ghost predicate IdleOk(s: Sched, cpu: nat, k: nat)
    requires cpu < MAX_CPUS
  {
    && s.current[cpu] < MAX_TASKS && (s.current[cpu] != k ==> s.active)
    && (forall c :: 0 <= c < MAX_CPUS && c != cpu ==> s.current[c] != k)
    && k < MAX_TASKS && IdleTaskOk(s.tasks[k], cpu, s.current[cpu] == k)
  }

  predicate IdleTaskOk(t: Option<Task>, cpu: nat, current: bool) {
    t.Some? && t.value.pin == Some(cpu) && t.value.waitTid == None &&
    t.value.state == if current then Running else Ready
  }

  /** The idle task only loops: it makes no call that gives up the CPU. Nobody
      kills it or pins it elsewhere, and each CPU registers its idle task once. */
  predicate LeavesIdleAlone(s: Sched, e: Event, k: nat)
    requires Enabled(e) && Present(s, k)
  {
    match e
    case Receives(c) => s.current[c] != k
    case Yields(c) => s.current[c] != k
    case Exits(c, _) => s.current[c] != k
    case Waits(c, _) => s.current[c] != k
    case ForcesExit(tid, _) => tid != TaskAt(s, k).tid
    case SetsAffinity(tid, _) => tid != TaskAt(s, k).tid
    case IdleInit(c) => c < MAX_CPUS ==> s.current[c] == NO_TASK
    case _ => true
  }

  /** CPU 0 starts on its idle task. */
  lemma BootIdle()
    ensures IdleOk(Boot(), 0, 0)
  {
  }

  /** A secondary CPU has one once it has registered it, in a slot that no CPU is on. */
  lemma RegisteredIdle(s: Sched, cpu: nat)
    requires 0 < cpu < MAX_CPUS && EmptySlot(s.tasks, 0) < MAX_TASKS
    requires forall c :: 0 <= c < MAX_CPUS ==> s.current[c] != EmptySlot(s.tasks, 0)
    ensures IdleOk(SecondaryIdleInit(s, cpu), cpu, EmptySlot(s.tasks, 0))
  {
  }

  /** Whatever a tick does elsewhere, it does not touch a slot that is pinned to
      another CPU and not current here. */
  lemma TickElsewhere(s: Sched, c: nat, k: nat)
    requires c < MAX_CPUS && Present(s, k) && s.current[c] != k
    requires TaskAt(s, k).pin.Some? && TaskAt(s, k).pin != Some(c)
    ensures var s' := ScheduleNext(s, c);
            && s'.tasks[k] == s.tasks[k] && s'.current[c] != k && s'.active == s.active
            && forall d :: 0 <= d < MAX_CPUS && d != c ==> s'.current[d] == s.current[d]
  {
    hide Choose;
  }

  /** A tick on the CPU itself: it ends on a Running task; a task it found not
      Running it leaves, in the state it was in. */
  lemma TickHere(s: Sched, cpu: nat, k: nat)
    requires cpu < MAX_CPUS && IdleOk(s, cpu, k)
    ensures var s', cur := ScheduleNext(s, cpu), s.current[cpu];
            && IdleOk(s', cpu, k) && Present(s', s'.current[cpu]) && TaskAt(s', s'.current[cpu]).state == Running
            && (Present(s, cur) && TaskAt(s, cur).state != Running ==>
                  s'.current[cpu] != cur && Present(s', cur) && TaskAt(s', cur).state == TaskAt(s, cur).state)
  {
    hide Choose;
    var cur := s.current[cpu];
    var s1 := AfterCharge(s, cur);
    ChoosesIff(s1.tasks, cur, cpu);
    if cur != k {
      assert s1.tasks[k] == s.tasks[k];
      assert RunnableOn(s1.tasks, k, cpu);
    }
  }

  /** Another slot changes, or this one in ways that do not matter here. */
  lemma PutElsewhere(s: Sched, s': Sched, cpu: nat, k: nat)
    requires cpu < MAX_CPUS && IdleOk(s, cpu, k) && s'.current == s.current && (s.active ==> s'.active)
    requires s'.tasks[k].Some? && s'.tasks[k].value.pin == TaskAt(s, k).pin
    requires s'.tasks[k].value.waitTid == None && s'.tasks[k].value.state == TaskAt(s, k).state
    ensures IdleOk(s', cpu, k)
  {
  }

  lemma CallKeepsIdle(s: Sched, e: Event, cpu: nat, k: nat)
    requires cpu < MAX_CPUS && IdleOk(s, cpu, k) && Enabled(e) && LeavesIdleAlone(s, e, k)
    requires e.Receives? || e.Polls? || e.Yields? || e.Waits?
    ensures IdleOk(NextSched(s, e), cpu, k)
  {
    hide SlotOf, IdleOk;
    IdleIsThere(s, cpu, k);
    PutElsewhere(s, NextSched(s, e), cpu, k);
  }

  lemma EndKeepsIdle(s: Sched, e: Event, cpu: nat, k: nat)
    requires cpu < MAX_CPUS && IdleOk(s, cpu, k) && Enabled(e) && LeavesIdleAlone(s, e, k)
    requires e.Exits? || e.ForcesExit?
    ensures IdleOk(NextSched(s, e), cpu, k)
  {
    hide SlotOf, WakeWaiters, IdleOk;
    IdleIsThere(s, cpu, k);
    PutElsewhere(s, NextSched(s, e), cpu, k);
  }

  lemma IdleIsThere(s: Sched, cpu: nat, k: nat)
    requires cpu < MAX_CPUS && IdleOk(s, cpu, k)
    ensures Present(s, k) && TaskAt(s, k).waitTid == None && TaskAt(s, k).state != Dead
  {
  }

  lemma ChangeKeepsIdle(s: Sched, e: Event, cpu: nat, k: nat)
    requires cpu < MAX_CPUS && IdleOk(s, cpu, k) && Enabled(e) && LeavesIdleAlone(s, e, k)
    requires e.Sends? || e.Signals? || e.SetsAffinity? || e.SetsPriority? || e.Spawns?
    ensures IdleOk(NextSched(s, e), cpu, k)
  {
    hide SlotOf, EmptySlot;
    PutElsewhere(s, NextSched(s, e), cpu, k);
  }

  /** Every event on any CPU keeps the idle task in place. */
  lemma StepKeepsIdle(s: Sched, e: Event, cpu: nat, k: nat)
    requires cpu < MAX_CPUS && IdleOk(s, cpu, k) && Enabled(e) && LeavesIdleAlone(s, e, k)
    ensures IdleOk(NextSched(s, e), cpu, k)
  {
    hide ScheduleNext, EmptySlot;
    if e.Timer? {
      if e.cpu == cpu { TickHere(s, cpu, k); } else { TickElsewhere(s, e.cpu, k); }
    } else if e.IdleInit? {
      assert EmptySlot(s.tasks, 0) != k;
    } else if e.Sends? || e.Signals? || e.SetsAffinity? || e.SetsPriority? || e.Spawns? {
      ChangeKeepsIdle(s, e, cpu, k);
    } else if e.Exits? || e.ForcesExit? {
      EndKeepsIdle(s, e, cpu, k);
    } else {
      CallKeepsIdle(s, e, cpu, k);
    }
  }

  ghost predicate IsRun(states: seq<Sched>, events: seq<Event>, k: nat) {
    && |states| == |events| + 1
    && forall i :: 0 <= i < |events| ==>
         && Enabled(events[i]) && (Present(states[i], k) ==> LeavesIdleAlone(states[i], events[i], k))
         && states[i + 1] == NextSched(states[i], events[i])
  }

  lemma {:induction false} RunKeepsIdle(states: seq<Sched>, events: seq<Event>, cpu: nat, k: nat, n: nat)
    requires cpu < MAX_CPUS && IsRun(states, events, k) && IdleOk(states[0], cpu, k) && n <= |events|
    ensures IdleOk(states[n], cpu, k)
    decreases n
  {
    hide IdleOk, LeavesIdleAlone, NextSched;
    if 0 < n {
      RunKeepsIdle(states, events, cpu, k, n - 1);
      IdleIsPresent(states[n - 1], cpu, k);
      var i := n - 1;
      assert Enabled(events[i]) && states[i + 1] == NextSched(states[i], events[i]);
      StepKeepsIdle(states[i], events[i], cpu, k);
    }
  }

  lemma IdleIsPresent(s: Sched, cpu: nat, k: nat)
    requires cpu < MAX_CPUS && IdleOk(s, cpu, k)
    ensures Present(s, k)
  {
  }

  /** In every run, on any CPUs, in which the idle task of `cpu` only loops: a tick
      on `cpu` never leaves a Blocked or Dead task current there. It ends on a
      Running task, and a task that had blocked, died or yielded is left for it,
      in the state it was in. */
  lemma NeverStuck(states: seq<Sched>, events: seq<Event>, cpu: nat, k: nat, n: nat)
    requires cpu < MAX_CPUS && IsRun(states, events, k) && IdleOk(states[0], cpu, k) && n <= |events|
    ensures var s, s', cur := states[n], ScheduleNext(states[n], cpu), states[n].current[cpu];
            && Present(s', s'.current[cpu]) && TaskAt(s', s'.current[cpu]).state == Running
            && (Present(s, cur) && TaskAt(s, cur).state != Running ==>
                  s'.current[cpu] != cur && Present(s', cur) && TaskAt(s', cur).state == TaskAt(s, cur).state)
  {
    hide IdleOk, ScheduleNext;
    RunKeepsIdle(states, events, cpu, k, n);
    TickHere(states[n], cpu, k);
  }

  // ------------------------------------------------------------ revival

  /** The task number whose end the event announces, if any. */
  function Ended(s: Sched, e: Event): Option<nat>
    requires Enabled(e)
  {
    match e
    case Exits(c, _) => Some(if Present(s, s.current[c]) then TaskAt(s, s.current[c]).tid else 0)
    case ForcesExit(tid, _) => if SlotOf(s.tasks, tid, 0) < MAX_TASKS then Some(tid) else None
    case _ => None
  }

  /** The ways in which an event makes the dead task of slot `i` live again: its
      CPU finds nothing else to run, or its CPU goes on to yield, to block for a
      message or to wait for a living task in its name, or someone ends for whom
      it had been waiting. */
  ghost predicate Revives(s: Sched, e: Event, i: nat)
    requires Enabled(e) && Present(s, i)
  {
    match e
    case Timer(c) => s.active && s.current[c] == i && !(exists j: nat :: j != i && RunnableOn(s.tasks, j, c))
    case Yields(c) => s.current[c] == i
    case Receives(c) => s.current[c] == i && TaskAt(s, i).mailbox == []
    case Waits(c, tid) =>
      s.current[c] == i &&
      var j := SlotOf(s.tasks, tid, 0);
      j < MAX_TASKS && TaskAt(s, j).state != Dead
    case _ => Ended(s, e).Some? && TaskAt(s, i).waitTid == Ended(s, e)
  }

  /** A dead task is alive after an event exactly when the event is one of these;
      otherwise it is still dead, or was reaped. */
  lemma RevivedIff(s: Sched, e: Event, i: nat)
    requires Enabled(e) && Present(s, i) && TaskAt(s, i).state == Dead
    ensures var s' := NextSched(s, e);
            Present(s', i) && s'.tasks[i].value.state != Dead <==> Revives(s, e, i)
  {
    hide SlotOf, EmptySlot, ScheduleNext, ExitTask, ForceExit, WaitForTid;
    match e
    case Timer(c) => DeadTick(s, c, i);
    case Exits(c, code) => DeadExit(s, c, code, i);
    case ForcesExit(tid, code) => DeadKill(s, tid, code, i);
    case Waits(c, tid) => DeadWait(s, c, tid, i);
    case _ =>
  }

  lemma DeadExit(s: Sched, c: nat, code: int, i: nat)
    requires c < MAX_CPUS && Present(s, i) && TaskAt(s, i).state == Dead
    ensures var s' := ExitTask(s, c, code);
            && Present(s', i)
            && (TaskAt(s', i).state != Dead <==> TaskAt(s, i).waitTid == Ended(s, Exits(c, code)))
  {
  }

  lemma DeadKill(s: Sched, tid: nat, code: int, i: nat)
    requires Present(s, i) && TaskAt(s, i).state == Dead
    ensures var s' := ForceExit(s, tid, code).0;
            && Present(s', i)
            && (TaskAt(s', i).state != Dead <==>
                  Ended(s, ForcesExit(tid, code)).Some? && TaskAt(s, i).waitTid == Ended(s, ForcesExit(tid, code)))
  {
    hide SlotOf;
  }

  lemma DeadWait(s: Sched, c: nat, tid: nat, i: nat)
    requires c < MAX_CPUS && Present(s, i) && TaskAt(s, i).state == Dead
    ensures var s' := WaitForTid(s, c, tid).0;
            Present(s', i) && TaskAt(s', i).state != Dead <==> Revives(s, Waits(c, tid), i)
  {
    hide SlotOf;
  }

  lemma DeadTick(s: Sched, c: nat, i: nat)
    requires c < MAX_CPUS && Present(s, i) && TaskAt(s, i).state == Dead
    ensures var s' := ScheduleNext(s, c);
            && Present(s', i)
            && (TaskAt(s', i).state != Dead <==>
                  s.active && s.current[c] == i && !(exists j: nat :: j != i && RunnableOn(s.tasks, j, c)))
  {
    if s.active && s.current[c] == i {
      LeavesIff(s, c);
    } else {
      hide Choose;
    }
  }
}
