/** Which CPU runs what: the tasks marked Running are exactly those some CPU is
    on, and no task is on two CPUs. Also where that stops being true: a task that
    yields is up for grabs before its own CPU has switched away. */
module SchedulerSmp {
  import opened Wrappers
  import opened Scheduler

  predicate OnCpu(s: Sched, i: nat) {
    s.current[0] == i || s.current[1] == i || s.current[2] == i || s.current[3] == i
  }

  ghost predicate Exclusive(s: Sched) {
    && (forall c :: 0 <= c < MAX_CPUS ==> s.current[c] == NO_TASK || Present(s, s.current[c]))
    && (forall c, d :: 0 <= c < d < MAX_CPUS && s.current[c] != NO_TASK ==> s.current[c] != s.current[d])
    && (forall i :: 0 <= i < MAX_TASKS && s.tasks[i].Some? ==> (s.tasks[i].value.state == Running <==> OnCpu(s, i)))
  }

  datatype Event =
    | Timer(cpu: nat)
    | Spawns
    | IdleInit(cpu: nat)
    | Sends(tid: nat, msg: Message)
    | Signals(tid: nat)
    | Polls(cpu: nat)
    | SetsAffinity(tid: nat, cpu: nat)
    | SetsPriority(tid: nat, priority: nat)

  /** Each secondary CPU registers its idle task once. */
  predicate Enabled(s: Sched, e: Event) {
    match e
    case Timer(cpu) => cpu < MAX_CPUS
    case Polls(cpu) => cpu < MAX_CPUS
    case IdleInit(cpu) => cpu < MAX_CPUS && s.current[cpu] == NO_TASK
    case _ => true
  }

  function Next(s: Sched, e: Event): Sched
    requires Enabled(s, e)
  {
    match e
    case Timer(cpu) => ScheduleNext(s, cpu)
    case Spawns => Spawn(s).0
    case IdleInit(cpu) => SecondaryIdleInit(s, cpu)
    case Sends(tid, msg) => SendMessage(s, tid, msg).0
    case Signals(tid) => SendSignal(s, tid).0
    case Polls(cpu) => TryRecvMessage(s, cpu).0
    case SetsAffinity(tid, cpu) => SetAffinity(s, tid, cpu).0
    case SetsPriority(tid, p) => SetPriority(s, tid, p)
  }

  /** Replacing a task without touching whether it runs changes nothing here. */
  lemma PutKeepsExclusive(s: Sched, i: nat, t: Task)
    requires Exclusive(s) && Present(s, i) && (t.state == Running <==> TaskAt(s, i).state == Running)
    ensures Exclusive(Put(s, i, t))
  {
  }

  /** A new task that does not run yet. */
  lemma NewKeepsExclusive(s: Sched, i: nat, t: Task, next: nat)
    requires Exclusive(s) && i < MAX_TASKS && s.tasks[i].None? && t.state != Running
    ensures Exclusive(Put(s, i, t).(nextTid := next, active := true))
  {
    assert !OnCpu(s, i);
  }

  /** A CPU that ran nothing starts on a new Running task. */
  lemma StartKeepsExclusive(s: Sched, cpu: nat, i: nat, t: Task, next: nat)
    requires Exclusive(s) && cpu < MAX_CPUS && s.current[cpu] == NO_TASK
    requires i < MAX_TASKS && s.tasks[i].None? && t.state == Running
    ensures Exclusive(Put(s, i, t).(nextTid := next, current := s.current[cpu := i]))
  {
    assert !OnCpu(s, i);
  }

  /** After CPU `cpu` moves from `cur` to `idx`, which no CPU was on. */
  lemma MovedOnCpu(s: Sched, s': Sched, cpu: nat, cur: nat, idx: nat, i: nat)
    requires cpu < MAX_CPUS && s.current[cpu] == cur < MAX_TASKS && s'.current == s.current[cpu := idx]
    requires forall c, d :: 0 <= c < d < MAX_CPUS && s.current[c] != NO_TASK ==> s.current[c] != s.current[d]
    ensures OnCpu(s', i) <==> i == idx || (i != cur && OnCpu(s, i))
  {
  }

  /** A CPU leaves `cur`, now Ready, for `idx`, which was Ready. */
  lemma SwitchKeepsExclusive(s: Sched, s': Sched, cpu: nat, cur: nat, idx: nat, a: Task, b: Task)
    requires Exclusive(s) && cpu < MAX_CPUS && s.current[cpu] == cur < MAX_TASKS
    requires Present(s, idx) && idx != cur && TaskAt(s, idx).state == Ready
    requires a.state == Ready && b.state == Running
    requires s'.tasks == s.tasks[cur := Some(a)][idx := Some(b)] && s'.current == s.current[cpu := idx]
    ensures Exclusive(s')
  {
    assert forall c :: 0 <= c < MAX_CPUS ==> s.current[c] != idx by {
      assert !OnCpu(s, idx);
    }
    hide OnCpu;
    forall i | 0 <= i < MAX_TASKS && s'.tasks[i].Some?
      ensures s'.tasks[i].value.state == Running <==> OnCpu(s', i)
    {
      MovedOnCpu(s, s', cpu, cur, idx, i);
    }
  }

  lemma TimerExclusive(s: Sched, cpu: nat)
    requires Exclusive(s) && cpu < MAX_CPUS
    ensures Exclusive(ScheduleNext(s, cpu))
    ensures var n := ScheduleNext(s, cpu).current[cpu];
            n != s.current[cpu] ==>
              && Present(s, n) && (TaskAt(s, n).pin == None || TaskAt(s, n).pin == Some(cpu))
              && TaskAt(s, n).state == Ready
  {
    hide Choose, Exclusive;
    var cur := s.current[cpu];
    if s.active && cur < MAX_TASKS {
      var t := CurrentRuns(s, cpu);
      if KeepsRunning(t) {
        PutKeepsExclusive(s, cur, Charged(t).0);
      } else {
        var r := t.(state := Ready);
        var s1 := AfterCharge(s, cur);
        assert s1 == Put(s, cur, r);
        var d := Choose(s1.tasks, cur, cpu);
        if d == MAX_TASKS {
          PutKeepsExclusive(s, cur, t.(ticks := Quantum(t)));
          assert ScheduleNext(s, cpu) == Put(s, cur, t.(ticks := Quantum(t)));
        } else {
          var idx := Around(cur, d);
          var n := s.tasks[idx].value;
          SwitchKeepsExclusive(s, ScheduleNext(s, cpu), cpu, cur, idx, r.(ticks := Quantum(r)),
                               n.(state := Running, ticks := Quantum(n)));
        }
      }
    }
  }

  lemma CurrentRuns(s: Sched, cpu: nat) returns (t: Task)
    requires Exclusive(s) && cpu < MAX_CPUS && s.current[cpu] < MAX_TASKS
    ensures s.tasks[s.current[cpu]] == Some(t) && t.state == Running
  {
    t := TaskAt(s, s.current[cpu]);
    assert OnCpu(s, s.current[cpu]);
  }

  lemma StepExclusive(s: Sched, e: Event)
    requires Exclusive(s) && Enabled(s, e)
    ensures Exclusive(Next(s, e))
  {
    hide ScheduleNext, Exclusive, SlotOf, EmptySlot;
    match e {
      case Timer(cpu) => TimerExclusive(s, cpu);
      case Spawns =>
        var i := EmptySlot(s.tasks, 0);
        if i < MAX_TASKS { NewKeepsExclusive(s, i, NewTask(s.nextTid), s.nextTid + 1); }
      case IdleInit(cpu) =>
        var i := EmptySlot(s.tasks, 0);
        if 0 < cpu && i < MAX_TASKS { StartKeepsExclusive(s, cpu, i, IdleTask(s.nextTid, cpu), s.nextTid + 1); }
      case Sends(tid, msg) =>
        var i := SlotOf(s.tasks, tid, 0);
        if i < MAX_TASKS {
          var t := s.tasks[i].value;
          PutKeepsExclusive(s, i, Woken(t.(mailbox := t.mailbox + [msg])));
        }
      case Signals(tid) =>
        var i := SlotOf(s.tasks, tid, 0);
        if i < MAX_TASKS { PutKeepsExclusive(s, i, Woken(s.tasks[i].value)); }
      case Polls(cpu) =>
        var cur := s.current[cpu];
        if Present(s, cur) && TaskAt(s, cur).mailbox != [] {
          PutKeepsExclusive(s, cur, TaskAt(s, cur).(mailbox := TaskAt(s, cur).mailbox[1..]));
        }
      case SetsAffinity(tid, cpu) =>
        var i := SlotOf(s.tasks, tid, 0);
        if i < MAX_TASKS {
          PutKeepsExclusive(s, i, s.tasks[i].value.(pin := if cpu < MAX_CPUS then Some(cpu) else None));
        }
      case SetsPriority(tid, p) =>
        var i := SlotOf(s.tasks, tid, 0);
        if i < MAX_TASKS { PutKeepsExclusive(s, i, s.tasks[i].value.(priority := Min(Max(p, 1), 8))); }
    }
  }

  ghost predicate IsRun(states: seq<Sched>, events: seq<Event>) {
    && |states| == |events| + 1
    && forall i :: 0 <= i < |events| ==> Enabled(states[i], events[i]) && states[i + 1] == Next(states[i], events[i])
  }

  /** In every run of timer ticks on any CPU, spawns, idle registrations, sends,
      signals, polls and parameter changes, no slot is current on two CPUs and
      the Running tasks are exactly the current ones. */
  lemma {:induction false} RunExclusive(states: seq<Sched>, events: seq<Event>, j: nat)
    requires IsRun(states, events) && Exclusive(states[0]) && j <= |events|
    ensures Exclusive(states[j])
    decreases j
  {
    if 0 < j {
      RunExclusive(states, events, j - 1);
      var i := j - 1;
      assert Enabled(states[i], events[i]) && states[i + 1] == Next(states[i], events[i]);
      StepExclusive(states[i], events[i]);
    }
  }

  lemma BootExclusive()
    ensures Exclusive(Boot())
  {
  }
}
