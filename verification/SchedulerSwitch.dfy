/** What one timer tick does to a task that has given up its CPU: exactly when
    the CPU leaves it, and exactly when another CPU takes it while it is still
    current here. */
module SchedulerSwitch {
  import opened Wrappers
  import opened Scheduler
  import opened SchedulerSmp

  predicate RunnableOn(tasks: Table, i: nat, cpu: nat) {
    i < MAX_TASKS && tasks[i].Some? && Eligible(tasks[i].value, cpu, Fallback)
  }

  /** The distance from `start` to slot `i`. */
  function Distance(start: nat, i: nat): (d: nat)
    requires start < MAX_TASKS && i < MAX_TASKS
    ensures d < MAX_TASKS && Around(start, d) == i && (d == 0 <==> i == start)
  {
    if start <= i then i - start else i + MAX_TASKS - start
  }

  /** The scans find a task exactly when some other slot holds a runnable one. */
  lemma ChoosesIff(tasks: Table, start: nat, cpu: nat)
    requires start < MAX_TASKS
    ensures Choose(tasks, start, cpu) < MAX_TASKS <==> exists i: nat :: i != start && RunnableOn(tasks, i, cpu)
  {
    var d := Choose(tasks, start, cpu);
    if d < MAX_TASKS {
      assert RunnableOn(tasks, Around(start, d), cpu);
    } else {
      forall i: nat | i != start && i < MAX_TASKS
        ensures !RunnableOn(tasks, i, cpu)
      {
        var e := Distance(start, i);
      }
    }
  }

  /** A current task that is not Running (it blocked, died or yielded): the tick
      leaves it, in the state it chose, exactly when some other task is runnable
      here; otherwise it is made Running again, even if it was Blocked or Dead. */
  lemma LeavesIff(s: Sched, cpu: nat)
    requires cpu < MAX_CPUS && s.active && Present(s, s.current[cpu])
    requires TaskAt(s, s.current[cpu]).state != Running
    ensures var cur := s.current[cpu];
            var s' := ScheduleNext(s, cpu);
            && Present(s', cur)
            && (s'.current[cpu] != cur <==> exists i: nat :: i != cur && RunnableOn(s.tasks, i, cpu))
            && TaskAt(s', cur).state == (if s'.current[cpu] != cur then TaskAt(s, cur).state else Running)
  {
    hide Choose;
    var cur := s.current[cpu];
    var s1 := AfterCharge(s, cur);
    ChoosesIff(s1.tasks, cur, cpu);
    assert forall i: nat :: i != cur ==> (RunnableOn(s1.tasks, i, cpu) <==> RunnableOn(s.tasks, i, cpu));
  }

  // ------------------------------------------------ the window after a yield

  ghost predicate NoneIn(tasks: Table, start: nat, cpu: nat, phase: Phase) {
    forall j :: 0 <= j < MAX_TASKS && j != start && tasks[j].Some? ==> !Eligible(tasks[j].value, cpu, phase)
  }

  /** Slot `i` passes this scan and no slot nearer to `start` does. */
  ghost predicate FirstIn(tasks: Table, start: nat, cpu: nat, phase: Phase, i: nat)
    requires start < MAX_TASKS && i < MAX_TASKS
  {
    && tasks[i].Some? && Eligible(tasks[i].value, cpu, phase)
    && forall j :: 0 <= j < MAX_TASKS && j != start && tasks[j].Some? && Eligible(tasks[j].value, cpu, phase) ==>
                     Distance(start, i) <= Distance(start, j)
  }

  /** Slot `i` is the one to take: pinned tasks with a stack come first, then
      unpinned ones with a stack, then anything allowed here. */
  ghost predicate FirstChoice(tasks: Table, start: nat, cpu: nat, i: nat)
    requires start < MAX_TASKS && i < MAX_TASKS
  {
    if !NoneIn(tasks, start, cpu, PinnedHere) then FirstIn(tasks, start, cpu, PinnedHere, i)
    else if !NoneIn(tasks, start, cpu, Migratable) then FirstIn(tasks, start, cpu, Migratable, i)
    else FirstIn(tasks, start, cpu, Fallback, i)
  }

  lemma ScanIs(tasks: Table, start: nat, cpu: nat, phase: Phase, i: nat)
    requires start < MAX_TASKS && i < MAX_TASKS && i != start
    ensures Scan(tasks, start, cpu, phase, 1) == MAX_TASKS <==> NoneIn(tasks, start, cpu, phase)
    ensures Scan(tasks, start, cpu, phase, 1) == Distance(start, i) <==> FirstIn(tasks, start, cpu, phase, i)
  {
    hide Scan, Eligible;
    var d := Scan(tasks, start, cpu, phase, 1);
    if d < MAX_TASKS {
      var t := tasks[Around(start, d)];
      assert t.Some? && Eligible(t.value, cpu, phase) && Distance(start, Around(start, d)) == d;
    }
    forall j | 0 <= j < MAX_TASKS && j != start && tasks[j].Some? && Eligible(tasks[j].value, cpu, phase)
      ensures d <= Distance(start, j)
    {
      var e := Distance(start, j);
      assert tasks[Around(start, e)] == tasks[j];
    }
  }

  lemma ChooseIs(tasks: Table, start: nat, cpu: nat, i: nat)
    requires start < MAX_TASKS && i < MAX_TASKS && i != start
    ensures Choose(tasks, start, cpu) == Distance(start, i) <==> FirstChoice(tasks, start, cpu, i)
  {
    hide Scan, NoneIn, FirstIn, Distance;
    ScanIs(tasks, start, cpu, PinnedHere, i);
    ScanIs(tasks, start, cpu, Migratable, i);
    ScanIs(tasks, start, cpu, Fallback, i);
  }

  /** CPU `d` looks for a new task when its tick comes. */
  predicate Looks(s: Sched, d: nat)
    requires d < MAX_CPUS
  {
    var cur := s.current[d];
    s.active && cur < MAX_TASKS && !(s.tasks[cur].Some? && KeepsRunning(s.tasks[cur].value))
  }

  /** A task current on `c` has let go of its CPU (it yielded, or it blocked and
      was woken) and is Ready. A tick on another CPU makes it current there too
      exactly when that CPU is looking and the task is its first choice. */
  lemma TakenTwiceIff(s: Sched, c: nat, d: nat)
    requires c < MAX_CPUS && d < MAX_CPUS && c != d
    requires Present(s, s.current[c]) && TaskAt(s, s.current[c]).state == Ready && s.current[d] != s.current[c]
    ensures ScheduleNext(s, d).current[d] == s.current[c] <==>
            Looks(s, d) && FirstChoice(s.tasks, s.current[d], d, s.current[c])
    ensures ScheduleNext(s, d).current[c] == s.current[c]
    ensures TaskAt(s, s.current[c]).pin == Some(c) ==> ScheduleNext(s, d).current[d] != s.current[c]
  {
    hide Choose, NoneIn;
    var k, start := s.current[c], s.current[d];
    if Looks(s, d) {
      var tasks := AfterCharge(s, start).tasks;
      ChooseIs(tasks, start, d, k);
      assert FirstChoice(tasks, start, d, k) <==> FirstChoice(s.tasks, start, d, k) by {
        SameElsewhere(s.tasks, tasks, start, d, k);
      }
      var e := Choose(tasks, start, d);
      assert e < MAX_TASKS ==> (Around(start, e) == k <==> e == Distance(start, k));
    }
  }

  /** The scans do not look at the slot they start from. */
  lemma SameElsewhere(a: Table, b: Table, start: nat, cpu: nat, i: nat)
    requires start < MAX_TASKS && i < MAX_TASKS && i != start
    requires forall j :: 0 <= j < MAX_TASKS && j != start ==> a[j] == b[j]
    ensures FirstChoice(a, start, cpu, i) <==> FirstChoice(b, start, cpu, i)
  {
    forall phase: Phase
      ensures NoneIn(a, start, cpu, phase) <==> NoneIn(b, start, cpu, phase)
    {
    }
    forall phase: Phase
      ensures FirstIn(a, start, cpu, phase, i) <==> FirstIn(b, start, cpu, phase, i)
    {
    }
  }

  /** An ordinary running system: CPU 0 on an ordinary task, CPU 1 on its idle task. */
  function TwoCpus(): Sched {
    Sched([Some(IdleTask(0, 0).(state := Ready)), Some(IdleTask(1, 1)), Some(NewTask(2).(state := Running))]
          + seq(13, _ => None), [2, 1, NO_TASK, NO_TASK], 3, true)
  }

  /** It arises: CPU 1 registers its idle task, a task is spawned, CPU 0 ticks. */
  lemma TwoCpusArise()
    ensures Next(Next(Next(Boot(), IdleInit(1)), Spawns), Timer(0)) == TwoCpus()
  {
    hide Choose;
    var s := Next(Next(Boot(), IdleInit(1)), Spawns);
    assert EmptySlot(Boot().tasks, 0) == 1 && EmptySlot(Next(Boot(), IdleInit(1)).tasks, 0) == 2;
    var tasks := AfterCharge(s, 0).tasks;
    assert tasks[2] == Some(NewTask(2));
    assert forall j :: 0 <= j < MAX_TASKS && j != 2 && tasks[j].Some? ==> !tasks[j].value.stack;
    assert NoneIn(tasks, 0, 0, PinnedHere) && FirstIn(tasks, 0, 0, Migratable, 2);
    ChooseIs(tasks, 0, 0, 2);
  }

  /** From there a yield on CPU 0 and a tick on CPU 1 leave both CPUs on the same task. */
  lemma YieldRace()
    ensures Exclusive(TwoCpus())
    ensures var s := ScheduleNext(YieldCpu(TwoCpus(), 0), 1);
            s.current[0] == s.current[1] == 2 && !Exclusive(s)
  {
    hide ScheduleNext, FirstChoice;
    var s := YieldCpu(TwoCpus(), 0);
    TwoCpusChoice(s.tasks);
    TakenTwiceIff(s, 0, 1);
  }

  lemma TwoCpusChoice(tasks: Table)
    requires tasks == TwoCpus().tasks[2 := Some(NewTask(2))]
    ensures FirstChoice(tasks, 1, 1, 2)
  {
    assert tasks[2].value.stack && forall j :: 0 <= j < MAX_TASKS && j != 2 && tasks[j].Some? ==> !tasks[j].value.stack;
    assert NoneIn(tasks, 1, 1, PinnedHere);
    assert FirstIn(tasks, 1, 1, Migratable, 2);
  }
}
