/** What the calls of the scheduler do, told by slots and fields: who is found, who
    is changed and how, who is not, and what the caller is given
    (kernel/src/process/scheduler.rs:701-1084). */
module SchedulerCalls {
  import opened Wrappers
  import opened Scheduler
  import opened SchedulerWakeups

  /** Slot `i` is the first that holds task `tid`. */
  ghost predicate Holds(s: Sched, tid: nat, i: nat) {
    && Present(s, i) && TaskAt(s, i).tid == tid
    && forall k: nat :: k < i ==> !(s.tasks[k].Some? && s.tasks[k].value.tid == tid)
  }

  ghost predicate Unknown(s: Sched, tid: nat) {
    forall k: nat :: k < MAX_TASKS ==> !(s.tasks[k].Some? && s.tasks[k].value.tid == tid)
  }

  /** `s'` is `s` with task `t` in slot `i`. */
  predicate OnlySlot(s: Sched, s': Sched, i: nat, t: Option<Task>) {
    && i < MAX_TASKS && s'.tasks[i] == t
    && (forall k :: 0 <= k < MAX_TASKS && k != i ==> s'.tasks[k] == s.tasks[k])
    && s'.current == s.current && s'.nextTid == s.nextTid && s'.active == s.active
  }

  lemma HolderFound(s: Sched, tid: nat)
    ensures var i := SlotOf(s.tasks, tid, 0); if i < MAX_TASKS then Holds(s, tid, i) else Unknown(s, tid)
  {
  }

  lemma OneHolder(s: Sched, tid: nat, i: nat)
    requires Holds(s, tid, i)
    ensures SlotOf(s.tasks, tid, 0) == i && !Unknown(s, tid)
  {
    hide SlotOf;
    var j := SlotOf(s.tasks, tid, 0);
    assert s.tasks[i].Some? && s.tasks[i].value.tid == tid;
  }

  /** Task `t` after something happened that it may have been blocked for. */
  function NotBlocked(t: Task): Task {
    if t.state == Blocked then t.(state := Ready) else t
  }

  // ---------------------------------------------------------- messages

  /** A message for `tid` is accepted when the first slot with that number has fewer
      than eight waiting; it goes to the end of that mailbox and the task is not
      Blocked after it. No other slot changes, and a refused message changes nothing. */
  ghost predicate SendIs(s: Sched, tid: nat, msg: Message, s': Sched, ok: bool) {
    && (ok <==> exists i: nat :: Holds(s, tid, i) && |TaskAt(s, i).mailbox| < 8)
    && (!ok ==> s' == s)
    && (ok ==> forall i: nat :: Holds(s, tid, i) ==>
                 var t := TaskAt(s, i);
                 OnlySlot(s, s', i, Some(NotBlocked(t.(mailbox := t.mailbox + [msg])))))
  }

  lemma SendMeans(s: Sched, tid: nat, msg: Message)
    ensures SendIs(s, tid, msg, SendMessage(s, tid, msg).0, SendMessage(s, tid, msg).1)
  {
    hide SlotOf;
    HolderFound(s, tid);
    forall i: nat | Holds(s, tid, i) ensures SlotOf(s.tasks, tid, 0) == i { OneHolder(s, tid, i); }
  }

  /** The caller gets the oldest waiting message, which leaves the mailbox; without
      one it is Blocked. */
  lemma ReceiveMeans(s: Sched, cpu: nat)
    requires cpu < MAX_CPUS
    ensures var (s', got) := RecvMessage(s, cpu);
            var cur := s.current[cpu];
            if !Present(s, cur) then got == None && s' == s
            else if TaskAt(s, cur).mailbox == []
            then got == None && OnlySlot(s, s', cur, Some(TaskAt(s, cur).(state := Blocked)))
            else
              && got.Some?
              && exists rest :: TaskAt(s, cur).mailbox == [got.value] + rest
                                && OnlySlot(s, s', cur, Some(TaskAt(s, cur).(mailbox := rest)))
  {
    var cur := s.current[cpu];
    if Present(s, cur) && TaskAt(s, cur).mailbox != [] {
      var mailbox := TaskAt(s, cur).mailbox;
      assert mailbox == [mailbox[0]] + mailbox[1..];
    }
  }

  /** Polling is receiving, except that it does not block. */
  lemma PollMeans(s: Sched, cpu: nat)
    requires cpu < MAX_CPUS
    ensures TryRecvMessage(s, cpu).1 == RecvMessage(s, cpu).1
    ensures TryRecvMessage(s, cpu).0 == if RecvMessage(s, cpu).1.None? then s else RecvMessage(s, cpu).0
  {
  }

  // -------------------------------------------------------- life cycle

  lemma {:induction false} EmptySlotIsFirst(tasks: Table, i: nat)
    requires i <= MAX_TASKS
    ensures forall k :: i <= k < EmptySlot(tasks, i) ==> tasks[k].Some?
    decreases MAX_TASKS - i
  {
    if i < MAX_TASKS && tasks[i].Some? { EmptySlotIsFirst(tasks, i + 1); }
  }

  /** A spawn fails exactly when every slot is taken. Otherwise the first empty slot
      holds a Ready task with the next number, of lowest priority, free to run on any
      CPU and with no mail, and the scheduler is active. */
  lemma SpawnMeans(s: Sched)
    ensures var (s', r) := Spawn(s);
            if forall k :: 0 <= k < MAX_TASKS ==> s.tasks[k].Some? then r == None && s' == s
            else
              && r == Some(s.nextTid) && s'.nextTid == s.nextTid + 1 && s'.active && s'.current == s.current
              && exists i: nat :: i < MAX_TASKS && s.tasks[i].None? && s'.tasks[i].Some?
                   && (forall k :: 0 <= k < i ==> s.tasks[k].Some?)
                   && (forall k :: 0 <= k < MAX_TASKS && k != i ==> s'.tasks[k] == s.tasks[k])
                   && var t := s'.tasks[i].value;
                      && t.tid == s.nextTid && t.state == Ready && t.stack && t.priority == 1 && t.ticks == 1
                      && t.pin == None && t.waitTid == None && t.mailbox == [] && t.exitCode == 0
  {
    var i := EmptySlot(s.tasks, 0);
    EmptySlotIsFirst(s.tasks, 0);
    if i < MAX_TASKS {
      var s' := Spawn(s).0;
      assert s.tasks[i].None? && s'.tasks[i].Some?;
    }
  }

  /** An idle task: Running on its own CPU, without a stack of its own. */
  predicate IsIdle(t: Task, tid: nat, cpu: nat) {
    && t.tid == tid && t.state == Running && !t.stack && t.priority == 1 && t.ticks == 1
    && t.pin == Some(cpu) && t.waitTid == None && t.mailbox == []
  }

  /** Start-up leaves one idle task, on CPU 0, and no tick changes anything before
      the first spawn. */
  lemma BootMeans(cpu: nat)
    requires cpu < MAX_CPUS
    ensures Present(Boot(), 0) && IsIdle(TaskAt(Boot(), 0), 0, 0) && Boot().current[0] == 0
    ensures forall k :: 0 < k < MAX_TASKS ==> Boot().tasks[k].None?
    ensures ScheduleNext(Boot(), cpu) == Boot()
  {
  }

  /** A secondary CPU gets an idle task of its own in the first empty slot and is on
      it; CPU 0, a CPU that does not exist and a full table are refused. */
  lemma IdleInitMeans(s: Sched, cpu: nat)
    ensures var s' := SecondaryIdleInit(s, cpu);
            if cpu == 0 || 4 <= cpu || (forall k :: 0 <= k < MAX_TASKS ==> s.tasks[k].Some?) then s' == s
            else
              var i := s'.current[cpu];
              && i < MAX_TASKS && s.tasks[i].None? && (forall k :: 0 <= k < i ==> s.tasks[k].Some?)
              && s'.tasks[i].Some? && IsIdle(s'.tasks[i].value, s.nextTid, cpu)
              && (forall k :: 0 <= k < MAX_TASKS && k != i ==> s'.tasks[k] == s.tasks[k])
              && s'.current == s.current[cpu := i] && s'.nextTid == s.nextTid + 1 && s'.active == s.active
  {
    EmptySlotIsFirst(s.tasks, 0);
  }

  /** Task `t` in another slot after the end of `tid`: a waiter is Ready again. */
  function Released(t: Option<Task>, tid: nat): Option<Task> {
    if t.Some? && t.value.waitTid == Some(tid) then Some(t.value.(state := Ready, waitTid := None)) else t
  }

  /** The task of slot `i` is dead with `code`, unless it was waiting for itself, its
      waiters are released, and nothing else is changed. */
  ghost predicate EndsWith(s: Sched, s': Sched, i: nat, code: int)
    requires Present(s, i)
  {
    var t := TaskAt(s, i);
    && s' == s.(tasks := s'.tasks)
    && s'.tasks[i] == Released(Some(t.(state := Dead, exitCode := code)), t.tid)
    && forall k :: 0 <= k < MAX_TASKS && k != i ==> s'.tasks[k] == Released(s.tasks[k], t.tid)
  }

  /** An exit ends the caller; a CPU without a task releases the waiters of task 0. */
  lemma ExitEnds(s: Sched, cpu: nat, code: int)
    requires cpu < MAX_CPUS
    ensures Present(s, s.current[cpu]) ==> EndsWith(s, ExitTask(s, cpu, code), s.current[cpu], code)
    ensures !Present(s, s.current[cpu]) ==>
              var s' := ExitTask(s, cpu, code);
              s' == s.(tasks := s'.tasks) && forall k :: 0 <= k < MAX_TASKS ==> s'.tasks[k] == Released(s.tasks[k], 0)
  {
  }

  /** Killing ends the first task with that number, whatever it was doing; true
      exactly when there is one. */
  lemma KillEnds(s: Sched, tid: nat, code: int)
    ensures ForceExit(s, tid, code).1 <==> !Unknown(s, tid)
    ensures Unknown(s, tid) ==> ForceExit(s, tid, code).0 == s
    ensures forall i: nat :: Holds(s, tid, i) ==> EndsWith(s, ForceExit(s, tid, code).0, i, code)
  {
    hide SlotOf;
    HolderFound(s, tid);
    forall i: nat | Holds(s, tid, i) ensures SlotOf(s.tasks, tid, 0) == i { OneHolder(s, tid, i); }
  }

  /** Waiting for a dead task gives its exit code and empties its slot, waiting for a
      living one blocks the caller, and an unknown number gives -1. */
  lemma WaitMeans(s: Sched, cpu: nat, tid: nat)
    requires cpu < MAX_CPUS
    ensures var (s', r) := WaitForTid(s, cpu, tid);
            && (Unknown(s, tid) ==> r == Some(-1) && s' == s)
            && (forall i: nat :: Holds(s, tid, i) && TaskAt(s, i).state == Dead ==>
                  r == Some(TaskAt(s, i).exitCode) && OnlySlot(s, s', i, None))
            && (forall i: nat :: Holds(s, tid, i) && TaskAt(s, i).state != Dead ==>
                  var cur := s.current[cpu];
                  r == None &&
                  if !Present(s, cur) then s' == s
                  else OnlySlot(s, s', cur, Some(TaskAt(s, cur).(state := Blocked, waitTid := Some(tid)))))
  {
    hide SlotOf;
    HolderFound(s, tid);
    forall i: nat | Holds(s, tid, i) ensures SlotOf(s.tasks, tid, 0) == i { OneHolder(s, tid, i); }
  }

  lemma UniqueHolds(s: Sched, i: nat)
    requires UniqueTids(s) && Present(s, i)
    ensures Holds(s, TaskAt(s, i).tid, i)
  {
  }

  /** A parent on CPU `d` waits for the task that runs on CPU `c`; that task exits with
      `code`. The parent is Blocked in between and Ready after it, its next wait gives
      `code` and clears the slot, and any later one gives -1. */
  lemma WaiterGetsCode(s: Sched, c: nat, d: nat, code: int)
    requires c < MAX_CPUS && d < MAX_CPUS && UniqueTids(s)
    requires Present(s, s.current[c]) && Present(s, s.current[d]) && s.current[c] != s.current[d]
    requires var t := TaskAt(s, s.current[c]); t.state != Dead && t.waitTid != Some(t.tid)
    ensures var child, parent := s.current[c], s.current[d];
            var tid := TaskAt(s, child).tid;
            var (s1, r1) := WaitForTid(s, d, tid);
            var s2 := ExitTask(s1, c, code);
            var (s3, r3) := WaitForTid(s2, d, tid);
            && r1 == None && Present(s1, parent) && TaskAt(s1, parent).state == Blocked
            && s2.tasks[parent] == Some(TaskAt(s, parent).(state := Ready, waitTid := None))
            && r3 == Some(code) && OnlySlot(s2, s3, child, None)
            && WaitForTid(s3, d, tid) == (s3, Some(-1))
  {
    hide SlotOf, WakeWaiters;
    var child, parent := s.current[c], s.current[d];
    var t := TaskAt(s, child);
    UniqueHolds(s, child);
    WaitMeans(s, d, t.tid);
    var s1 := WaitForTid(s, d, t.tid).0;
    ExitEnds(s1, c, code);
    var s2 := ExitTask(s1, c, code);
    StillHolds(s, s2, child);
    WaitMeans(s2, d, t.tid);
    var s3 := WaitForTid(s2, d, t.tid).0;
    NowUnknown(s2, s3, child);
    WaitMeans(s3, d, t.tid);
  }

  /** Where the numbers stay, so does the holder. */
  lemma StillHolds(s: Sched, s': Sched, i: nat)
    requires UniqueTids(s) && Present(s, i)
    requires forall k :: 0 <= k < MAX_TASKS ==> s'.tasks[k].Some? == s.tasks[k].Some?
    requires forall k :: 0 <= k < MAX_TASKS && s.tasks[k].Some? ==> s'.tasks[k].value.tid == s.tasks[k].value.tid
    ensures Holds(s', TaskAt(s, i).tid, i)
    ensures forall k: nat :: k < MAX_TASKS && k != i && s'.tasks[k].Some? ==> s'.tasks[k].value.tid != TaskAt(s, i).tid
  {
    var tid := TaskAt(s, i).tid;
    forall k: nat | k < MAX_TASKS && k != i && s'.tasks[k].Some? ensures s'.tasks[k].value.tid != tid {
      assert s.tasks[k].Some? && s'.tasks[k].value.tid == s.tasks[k].value.tid;
    }
  }

  lemma NowUnknown(s2: Sched, s3: Sched, i: nat)
    requires Present(s2, i) && OnlySlot(s2, s3, i, None)
    requires forall k: nat :: k < MAX_TASKS && k != i && s2.tasks[k].Some? ==>
               s2.tasks[k].value.tid != TaskAt(s2, i).tid
    ensures Unknown(s3, TaskAt(s2, i).tid)
  {
  }

  // ------------------------------------------- yield, signals, parameters

  /** A yield makes the caller Ready and does nothing else. */
  lemma YieldMeans(s: Sched, cpu: nat)
    requires cpu < MAX_CPUS
    ensures if !Present(s, s.current[cpu]) then YieldCpu(s, cpu) == s
            else OnlySlot(s, YieldCpu(s, cpu), s.current[cpu], Some(TaskAt(s, s.current[cpu]).(state := Ready)))
  {
  }

  /** A signal wakes the task if it is Blocked; a pin holds for a CPU that exists and
      is cleared otherwise; a priority is kept between 1 and 8. */
  lemma ParametersMean(s: Sched, tid: nat, cpu: nat, priority: nat)
    ensures SendSignal(s, tid).1 <==> !Unknown(s, tid)
    ensures SetAffinity(s, tid, cpu).1 <==> !Unknown(s, tid)
    ensures Unknown(s, tid) ==>
              SendSignal(s, tid).0 == s && SetAffinity(s, tid, cpu).0 == s && SetPriority(s, tid, priority) == s
    ensures forall i: nat :: Holds(s, tid, i) ==>
              var t := TaskAt(s, i);
              && OnlySlot(s, SendSignal(s, tid).0, i, Some(NotBlocked(t)))
              && OnlySlot(s, SetAffinity(s, tid, cpu).0, i, Some(t.(pin := if cpu < 4 then Some(cpu) else None)))
              && exists p :: OnlySlot(s, SetPriority(s, tid, priority), i, Some(t.(priority := p)))
                             && 1 <= p <= 8 && (1 <= priority <= 8 ==> p == priority)
                             && (8 < priority ==> p == 8) && (priority == 0 ==> p == 1)
  {
    hide SlotOf;
    HolderFound(s, tid);
    forall i: nat | Holds(s, tid, i)
      ensures SlotOf(s.tasks, tid, 0) == i
      ensures OnlySlot(s, SetPriority(s, tid, priority), i,
                       Some(TaskAt(s, i).(priority := Min(Max(priority, 1), 8))))
    {
      OneHolder(s, tid, i);
    }
  }
}
