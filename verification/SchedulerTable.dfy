/** The scheduler as the kernel runs it: the task table and the per-CPU current
    slots in arrays, scanned and overwritten in place. Each operation changes
    them as the function of the same name says. */
module SchedulerTable {
  import opened Wrappers
  import opened Scheduler
  import opened SchedulerCalls

  lemma ScanStep(tasks: Table, start: nat, cpu: nat, phase: Phase, d: nat)
    requires start < MAX_TASKS && 1 <= d <= MAX_TASKS
    ensures Scan(tasks, start, cpu, phase, d) ==
            if d == MAX_TASKS then d
            else
              var t := tasks[Around(start, d)];
              if t.Some? && Eligible(t.value, cpu, phase) then d else Scan(tasks, start, cpu, phase, d + 1)
  {
  }

  class TaskTable {
    const tasks: array<Option<Task>>
    const current: array<nat>
    var nextTid: nat
    var active: bool

    ghost predicate Valid() {
      tasks.Length == MAX_TASKS && current.Length == MAX_CPUS
    }

    ghost function State(): Sched
      requires Valid()
      reads this, tasks, current
    {
      Sched(tasks[..], current[..], nextTid, active)
    }

    /** One idle task, on CPU 0. */
    constructor ()
      ensures Valid() && fresh(tasks) && fresh(current)
      ensures State() == Boot()
    {
      tasks := new Option<Task>[MAX_TASKS](i => if i == 0 then Some(IdleTask(0, 0)) else None);
      current := new nat[MAX_CPUS](i => if i == 0 then 0 else NO_TASK);
      nextTid, active := 1, false;
    }

    method Find(tid: nat) returns (i: nat)
      requires Valid()
      ensures i == SlotOf(tasks[..], tid, 0)
    {
      i := 0;
      while i < MAX_TASKS
        invariant i <= MAX_TASKS && SlotOf(tasks[..], tid, i) == SlotOf(tasks[..], tid, 0)
      {
        if tasks[i].Some? && tasks[i].value.tid == tid { return; }
        i := i + 1;
      }
    }

    method FindEmpty() returns (i: nat)
      requires Valid()
      ensures i == EmptySlot(tasks[..], 0)
    {
      i := 0;
      while i < MAX_TASKS
        invariant i <= MAX_TASKS && EmptySlot(tasks[..], i) == EmptySlot(tasks[..], 0)
      {
        if tasks[i].None? { return; }
        i := i + 1;
      }
    }

    // --------------------------------------------------------- schedule_next

    /** One scan, from the slot after `start` around to it; NO_TASK for none. */
    method ScanFrom(start: nat, cpu: nat, phase: Phase) returns (idx: nat)
      requires Valid() && start < MAX_TASKS
      ensures var d := Scan(tasks[..], start, cpu, phase, 1);
              idx == if d == MAX_TASKS then NO_TASK else Around(start, d)
    {
      hide Scan, Eligible;
      var i := (start + 1) % MAX_TASKS;
      ghost var d := 1;
      while i != start
        invariant 1 <= d <= MAX_TASKS && i == Around(start, d)
        invariant Scan(tasks[..], start, cpu, phase, d) == Scan(tasks[..], start, cpu, phase, 1)
        decreases MAX_TASKS - d
      {
        ScanStep(tasks[..], start, cpu, phase, d);
        if tasks[i].Some? && Eligible(tasks[i].value, cpu, phase) { return i; }
        i, d := (i + 1) % MAX_TASKS, d + 1;
      }
      ScanStep(tasks[..], start, cpu, phase, d);
      idx := NO_TASK;
    }

    method Pick(start: nat, cpu: nat) returns (idx: nat)
      requires Valid() && start < MAX_TASKS
      ensures var d := Choose(tasks[..], start, cpu);
              idx == if d == MAX_TASKS then NO_TASK else Around(start, d)
    {
      hide Scan;
      idx := ScanFrom(start, cpu, PinnedHere);
      if idx == NO_TASK { idx := ScanFrom(start, cpu, Migratable); }
      if idx == NO_TASK { idx := ScanFrom(start, cpu, Fallback); }
    }

    method Tick(cpu: nat)
      requires Valid() && cpu < MAX_CPUS && current[cpu] <= MAX_TASKS
      modifies this, tasks, current
      ensures State() == ScheduleNext(old(State()), cpu)
    {
      hide Choose;
      if !active || current[cpu] == NO_TASK { return; }
      var cur := current[cpu];
      var expired := false;
      if tasks[cur].Some? {
        var t := tasks[cur].value;
        if 1 < t.ticks {
          tasks[cur] := Some(t.(ticks := t.ticks - 1));
          assert State() == AfterCharge(old(State()), cur);
          if t.state == Running { return; }
        } else {
          expired := true;
          if t.state == Running { tasks[cur] := Some(t.(state := Ready)); }
        }
      }
      ghost var s1 := State();
      assert s1 == AfterCharge(old(State()), cur);
      var idx := Pick(cur, cpu);
      if idx == NO_TASK {
        if tasks[cur].Some? {
          var t := tasks[cur].value;
          tasks[cur] := Some(t.(state := Running, ticks := Max(t.priority, 1)));
        }
        assert State() == StayOn(s1, cur);
      } else {
        Switch(cpu, cur, idx, expired);
      }
    }

    method Switch(cpu: nat, cur: nat, idx: nat, expired: bool)
      requires Valid() && cpu < MAX_CPUS && cur < MAX_TASKS && idx < MAX_TASKS && tasks[idx].Some?
      modifies this, tasks, current
      ensures State() == SwitchTo(old(State()), cpu, cur, idx, expired)
    {
      if expired && tasks[cur].Some? {
        var t := tasks[cur].value;
        tasks[cur] := Some(t.(ticks := Max(t.priority, 1)));
      }
      current[cpu] := idx;
      var n := tasks[idx].value;
      tasks[idx] := Some(n.(state := Running, ticks := Max(n.priority, 1)));
    }

    // ------------------------------------------------------------ life cycle

    method SpawnTask() returns (tid: Option<nat>)
      requires Valid()
      modifies this, tasks
      ensures (State(), tid) == Spawn(old(State()))
    {
      hide EmptySlot;
      var slot := FindEmpty();
      if slot == MAX_TASKS { return None; }
      tid := Some(nextTid);
      tasks[slot] := Some(NewTask(nextTid));
      nextTid := nextTid + 1;
      active := true;
    }

    method InitSecondaryIdle(cpu: nat)
      requires Valid()
      modifies this, tasks, current
      ensures State() == SecondaryIdleInit(old(State()), cpu)
    {
      hide EmptySlot;
      if cpu == 0 || MAX_CPUS <= cpu { return; }
      var slot := FindEmpty();
      if slot < MAX_TASKS {
        tasks[slot] := Some(IdleTask(nextTid, cpu));
        nextTid := nextTid + 1;
        current[cpu] := slot;
      }
    }

    method WakeAll(tid: nat)
      requires Valid()
      modifies tasks
      ensures tasks[..] == WakeWaiters(old(tasks[..]), tid)
    {
      var i := 0;
      while i < MAX_TASKS
        invariant i <= MAX_TASKS
        invariant forall j :: 0 <= j < MAX_TASKS ==>
                    tasks[j] == if j < i then Wake(old(tasks[j]), tid) else old(tasks[j])
      {
        if tasks[i].Some? && tasks[i].value.waitTid == Some(tid) {
          tasks[i] := Some(tasks[i].value.(waitTid := None, state := Ready));
        }
        i := i + 1;
      }
      assert tasks[..] == WakeWaiters(old(tasks[..]), tid);
    }

    method Exit(cpu: nat, code: int)
      requires Valid() && cpu < MAX_CPUS
      modifies this, tasks
      ensures State() == ExitTask(old(State()), cpu, code)
    {
      hide WakeWaiters;
      var slot := current[cpu];
      var tid := 0;
      if slot < MAX_TASKS && tasks[slot].Some? {
        tid := tasks[slot].value.tid;
        tasks[slot] := Some(tasks[slot].value.(state := Dead, exitCode := code));
      }
      WakeAll(tid);
    }

    method Kill(tid: nat, code: int) returns (ok: bool)
      requires Valid()
      modifies this, tasks
      ensures (State(), ok) == ForceExit(old(State()), tid, code)
    {
      hide WakeWaiters, SlotOf;
      var i := Find(tid);
      ok := i < MAX_TASKS;
      if ok {
        tasks[i] := Some(tasks[i].value.(state := Dead, exitCode := code));
        WakeAll(tid);
      }
    }

    method Wait(cpu: nat, tid: nat) returns (code: Option<int>)
      requires Valid() && cpu < MAX_CPUS
      modifies this, tasks
      ensures (State(), code) == WaitForTid(old(State()), cpu, tid)
    {
      hide SlotOf;
      var i := Find(tid);
      if i == MAX_TASKS { return Some(-1); }
      if tasks[i].value.state == Dead {
        code := Some(tasks[i].value.exitCode);
        tasks[i] := None;
      } else {
        var cur := current[cpu];
        if cur < MAX_TASKS && tasks[cur].Some? {
          tasks[cur] := Some(tasks[cur].value.(state := Blocked, waitTid := Some(tid)));
        }
        code := None;
      }
    }

    // -------------------------------------------------------------- messages

    method Send(tid: nat, msg: Message) returns (ok: bool)
      requires Valid()
      modifies this, tasks
      ensures (State(), ok) == SendMessage(old(State()), tid, msg)
      ensures SendIs(old(State()), tid, msg, State(), ok)
    {
      hide SlotOf, SendIs;
      SendMeans(State(), tid, msg);
      ok := false;
      var i := Find(tid);
      if i < MAX_TASKS && |tasks[i].value.mailbox| < MAILBOX_CAPACITY {
        var t := tasks[i].value;
        t := t.(mailbox := t.mailbox + [msg]);
        if t.state == Blocked { t := t.(state := Ready); }
        tasks[i] := Some(t);
        ok := true;
      }
    }

    method Receive(cpu: nat) returns (msg: Option<Message>)
      requires Valid() && cpu < MAX_CPUS
      modifies this, tasks
      ensures (State(), msg) == RecvMessage(old(State()), cpu)
    {
      msg := None;
      var slot := current[cpu];
      if slot < MAX_TASKS && tasks[slot].Some? {
        var t := tasks[slot].value;
        if t.mailbox != [] {
          msg := Some(t.mailbox[0]);
          tasks[slot] := Some(t.(mailbox := t.mailbox[1..]));
        } else {
          tasks[slot] := Some(t.(state := Blocked));
        }
      }
    }

    method TryReceive(cpu: nat) returns (msg: Option<Message>)
      requires Valid() && cpu < MAX_CPUS
      modifies this, tasks
      ensures (State(), msg) == TryRecvMessage(old(State()), cpu)
    {
      msg := None;
      var slot := current[cpu];
      if slot < MAX_TASKS && tasks[slot].Some? {
        var t := tasks[slot].value;
        if t.mailbox != [] {
          msg := Some(t.mailbox[0]);
          tasks[slot] := Some(t.(mailbox := t.mailbox[1..]));
        }
      }
    }

    method Yield(cpu: nat)
      requires Valid() && cpu < MAX_CPUS
      modifies this, tasks
      ensures State() == YieldCpu(old(State()), cpu)
    {
      var slot := current[cpu];
      if slot < MAX_TASKS && tasks[slot].Some? {
        tasks[slot] := Some(tasks[slot].value.(state := Ready));
      }
    }

    method Signal(tid: nat) returns (ok: bool)
      requires Valid()
      modifies this, tasks
      ensures (State(), ok) == SendSignal(old(State()), tid)
    {
      hide SlotOf;
      var i := Find(tid);
      ok := i < MAX_TASKS;
      if ok && tasks[i].value.state == Blocked {
        tasks[i] := Some(tasks[i].value.(state := Ready));
      }
      assert ok ==> State() == Put(old(State()), i, Woken(old(tasks[i]).value));
    }

    method Pin(tid: nat, cpu: nat) returns (ok: bool)
      requires Valid()
      modifies this, tasks
      ensures (State(), ok) == SetAffinity(old(State()), tid, cpu)
    {
      hide SlotOf;
      var i := Find(tid);
      ok := i < MAX_TASKS;
      if ok { tasks[i] := Some(tasks[i].value.(pin := if cpu < MAX_CPUS then Some(cpu) else None)); }
    }

    method Prioritise(tid: nat, priority: nat)
      requires Valid()
      modifies this, tasks
      ensures State() == SetPriority(old(State()), tid, priority)
    {
      hide SlotOf;
      var i := Find(tid);
      if i < MAX_TASKS { tasks[i] := Some(tasks[i].value.(priority := Min(Max(priority, 1), 8))); }
    }
  }
}
