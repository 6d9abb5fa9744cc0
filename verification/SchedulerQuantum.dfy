/** How long a task keeps its CPU: exactly as many ticks as its priority. */
module SchedulerQuantum {
  import opened Wrappers
  import opened Scheduler
  import opened SchedulerFairness
  import opened SchedulerSwitch

  /** Task `k` runs on `cpu` with `n` ticks left of its quantum. */
  predicate RunsFor(s: Sched, cpu: nat, k: nat, n: nat)
    requires cpu < MAX_CPUS
  {
    && s.active && s.current[cpu] == k && Present(s, k)
    && TaskAt(s, k).state == Running && TaskAt(s, k).ticks == n
  }

  /** `s` with another tick count in slot `k`, and not otherwise changed. */
  function WithTicks(s: Sched, k: nat, n: nat): Sched
    requires Present(s, k)
  {
    s.(tasks := s.tasks[k := Some(TaskAt(s, k).(ticks := n))])
  }

  /** A tick that brings a task to its CPU gives it as many ticks as its priority
      says, one at least. */
  lemma DispatchGrants(s: Sched, cpu: nat)
    requires cpu < MAX_CPUS
    ensures var s' := ScheduleNext(s, cpu);
            var k := s'.current[cpu];
            k != s.current[cpu] ==> RunsFor(s', cpu, k, Max(TaskAt(s', k).priority, 1))
  {
    hide Choose;
  }

  /** Within its quantum a running task keeps the CPU: a tick takes one from its
      count and changes nothing else. */
  lemma {:induction false} KeepsCpu(s: Sched, cpu: nat, k: nat, n: nat, m: nat)
    requires cpu < MAX_CPUS && RunsFor(s, cpu, k, n) && m < n
    ensures AfterTicks(s, cpu, m) == WithTicks(s, k, n - m)
    decreases m
  {
    if m > 0 {
      var s1 := ScheduleNext(s, cpu);
      assert s1 == WithTicks(s, k, n - 1);
      KeepsCpu(s1, cpu, k, n - 1, m - 1);
      assert WithTicks(s1, k, n - m) == WithTicks(s, k, n - m);
    } else {
      assert s.tasks[k := Some(TaskAt(s, k))] == s.tasks;
    }
  }

  /** At its end the task leaves exactly when another slot is runnable here; it is
      Ready then, with a full quantum, and otherwise runs on with one. */
  lemma QuantumOver(s: Sched, cpu: nat, k: nat)
    requires cpu < MAX_CPUS && RunsFor(s, cpu, k, 1)
    ensures var s' := ScheduleNext(s, cpu);
            && (s'.current[cpu] != k <==> exists i: nat :: i != k && RunnableOn(s.tasks, i, cpu))
            && s'.tasks[k] == Some(TaskAt(s, k).(state := if s'.current[cpu] == k then Running else Ready,
                                                 ticks := Max(TaskAt(s, k).priority, 1)))
  {
    hide Choose;
    var s1 := AfterCharge(s, k);
    ChoosesIff(s1.tasks, k, cpu);
    assert forall i: nat :: i != k ==> (RunnableOn(s1.tasks, i, cpu) <==> RunnableOn(s.tasks, i, cpu));
  }

  lemma {:induction false} TicksJoin(s: Sched, cpu: nat, m: nat, n: nat)
    requires cpu < MAX_CPUS
    ensures AfterTicks(s, cpu, m + n) == AfterTicks(AfterTicks(s, cpu, m), cpu, n)
    decreases m
  {
    hide ScheduleNext;
    if m > 0 { TicksJoin(ScheduleNext(s, cpu), cpu, m - 1, n); }
  }

  /** A task that a tick has brought to `cpu` runs there through exactly as many
      further ticks as its priority, if another task can take over then and nothing
      but ticks happens meanwhile. */
  lemma QuantumExact(s: Sched, cpu: nat, m: nat)
    requires cpu < MAX_CPUS
    requires ScheduleNext(s, cpu).current[cpu] != s.current[cpu]
    ensures var s' := ScheduleNext(s, cpu);
            var k := s'.current[cpu];
            Present(s', k) &&
            var q := Max(TaskAt(s', k).priority, 1);
            && (m < q ==> AfterTicks(s', cpu, m) == WithTicks(s', k, q - m))
            && (AfterTicks(s', cpu, q).current[cpu] != k <==> exists i: nat :: i != k && RunnableOn(s'.tasks, i, cpu))
  {
    hide ScheduleNext;
    var s' := ScheduleNext(s, cpu);
    var k := s'.current[cpu];
    DispatchGrants(s, cpu);
    var q: nat := Max(TaskAt(s', k).priority, 1);
    if m < q { KeepsCpu(s', cpu, k, q, m); }
    KeepsCpu(s', cpu, k, q, q - 1);
    var last := WithTicks(s', k, 1);
    QuantumOver(last, cpu, k);
    TicksJoin(s', cpu, q - 1, 1);
    assert AfterTicks(last, cpu, 1) == ScheduleNext(last, cpu);
    assert forall i: nat :: i != k ==> (RunnableOn(last.tasks, i, cpu) <==> RunnableOn(s'.tasks, i, cpu));
  }
}
