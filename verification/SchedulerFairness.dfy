/** Bounded waiting: on one CPU with no ordinary task pinned to it, a Ready task
    is dispatched within 15 * 8 timer ticks, whatever the other tasks do between
    them. With such a task pinned, a Ready task may never run. */
module SchedulerFairness {
  import opened Wrappers
  import opened Scheduler
  import opened SchedulerSwitch
  import opened SchedulerWakeups

  const MAX_PRIORITY: nat := 8
  const BOUND: nat := (MAX_TASKS - 1) * MAX_PRIORITY

  /** Only `cpu` is scheduling, and no event pins a task to it. */
  predicate OneCpu(e: Event, cpu: nat)
    requires cpu < MAX_CPUS
  {
    match e
    case Timer(c) => c == cpu
    case Receives(c) => c == cpu
    case Polls(c) => c == cpu
    case Yields(c) => c == cpu
    case Exits(c, _) => c == cpu
    case Waits(c, _) => c == cpu
    case IdleInit(c) => c != cpu
    case SetsAffinity(_, c) => c != cpu
    case _ => true
  }

  /** An ordinary task here is not pinned, and quanta are at most 8 ticks. */
  predicate Tame(t: Task, cpu: nat) {
    (t.stack ==> t.pin != Some(cpu)) && t.priority <= MAX_PRIORITY && t.ticks <= MAX_PRIORITY
  }

  predicate AllTame(s: Sched, cpu: nat) {
    forall i :: 0 <= i < MAX_TASKS && s.tasks[i].Some? ==> Tame(s.tasks[i].value, cpu)
  }

  /** Slot `k` holds a task that any CPU may run. */
  predicate Candidate(s: Sched, k: nat) {
    Present(s, k) && TaskAt(s, k).state == Ready && TaskAt(s, k).stack && TaskAt(s, k).pin == None
  }

  predicate Waiting(s: Sched, cpu: nat, k: nat)
    requires cpu < MAX_CPUS
  {
    s.active && s.current[cpu] < MAX_TASKS && s.current[cpu] != k && Candidate(s, k)
  }

  function TicksAt(s: Sched, i: nat): (n: nat)
    requires i < MAX_TASKS
    ensures 1 <= n
  {
    if s.tasks[i].Some? then Max(s.tasks[i].value.ticks, 1) else 1
  }

  /** Slots still to be passed, and what is left of the current quantum. */
  function Measure(s: Sched, cpu: nat, k: nat): nat
    requires cpu < MAX_CPUS && Waiting(s, cpu, k)
  {
    var cur := s.current[cpu];
    (Distance(cur, k) - 1) * MAX_PRIORITY + TicksAt(s, cur)
  }

  // ------------------------------------------------------------ one tick

  /** With nobody pinned here, the scans stop at `k` or at a nearer slot. */
  lemma ChoosesWithin(tasks: Table, cur: nat, cpu: nat, k: nat)
    requires cur < MAX_TASKS && k < MAX_TASKS && k != cur
    requires forall i :: 0 <= i < MAX_TASKS && tasks[i].Some? ==> Tame(tasks[i].value, cpu)
    requires tasks[k].Some? && Eligible(tasks[k].value, cpu, Migratable)
    ensures Choose(tasks, cur, cpu) <= Distance(cur, k)
  {
    var e := Distance(cur, k);
    assert tasks[Around(cur, e)] == tasks[k];
  }

  /** Taking a slot on the way to `k`. */
  lemma SwitchAdvances(s: Sched, cpu: nat, k: nat, d: nat, expired: bool)
    requires cpu < MAX_CPUS && AllTame(s, cpu) && Waiting(s, cpu, k)
    requires 1 <= d <= Distance(s.current[cpu], k) && Present(s, Around(s.current[cpu], d))
    ensures var s' := SwitchTo(s, cpu, s.current[cpu], Around(s.current[cpu], d), expired);
            && AllTame(s', cpu)
            && (if s'.current[cpu] == k then TaskAt(s', k).state == Running
                else s'.tasks[k] == s.tasks[k] && Waiting(s', cpu, k) && Measure(s', cpu, k) < Measure(s, cpu, k))
  {
    var cur := s.current[cpu];
    var idx := Around(cur, d);
    var s' := SwitchTo(s, cpu, cur, idx, expired);
    if idx != k {
      assert s'.tasks[k] == s.tasks[k];
      assert TicksAt(s', idx) <= MAX_PRIORITY;
      assert Distance(idx, k) == Distance(cur, k) - d;
    }
  }

  /** A tick dispatches the waiting task or brings it nearer. */
  lemma TickAdvances(s: Sched, cpu: nat, k: nat)
    requires cpu < MAX_CPUS && AllTame(s, cpu) && Waiting(s, cpu, k)
    ensures var s' := ScheduleNext(s, cpu);
            && AllTame(s', cpu)
            && (if s'.current[cpu] == k then TaskAt(s', k).state == Running
                else s'.tasks[k] == s.tasks[k] && Waiting(s', cpu, k) && Measure(s', cpu, k) < Measure(s, cpu, k))
  {
    hide Choose, SwitchTo;
    var cur := s.current[cpu];
    var s1 := AfterCharge(s, cur);
    assert s1.tasks[k] == s.tasks[k];
    if !(s.tasks[cur].Some? && KeepsRunning(s.tasks[cur].value)) {
      ChoosesWithin(s1.tasks, cur, cpu, k);
      SwitchAdvances(s1, cpu, k, Choose(s1.tasks, cur, cpu), s.tasks[cur].Some? && Charged(s.tasks[cur].value).1);
    }
  }

  // --------------------------------------------------------- other events

  /** Nothing that matters for the measure gets worse. */
  ghost predicate Quiet(s: Sched, s': Sched, cpu: nat)
    requires cpu < MAX_CPUS
  {
    && s'.current[cpu] == s.current[cpu] && (s.active ==> s'.active) && AllTame(s', cpu)
    && forall i :: 0 <= i < MAX_TASKS ==> TicksAt(s', i) <= TicksAt(s, i)
  }

  lemma PutQuiet(s: Sched, i: nat, t: Task, cpu: nat)
    requires cpu < MAX_CPUS && AllTame(s, cpu) && i < MAX_TASKS && Tame(t, cpu)
    requires t.ticks <= 1 || (s.tasks[i].Some? && t.ticks <= s.tasks[i].value.ticks)
    ensures Quiet(s, Put(s, i, t), cpu)
  {
  }

  lemma WakeQuiet(s: Sched, s1: Sched, tid: nat, cpu: nat)
    requires cpu < MAX_CPUS && Quiet(s, s1, cpu)
    ensures Quiet(s, s1.(tasks := WakeWaiters(s1.tasks, tid)), cpu)
  {
    hide WakeWaiters;
    var s2 := s1.(tasks := WakeWaiters(s1.tasks, tid));
    forall i | 0 <= i < MAX_TASKS
      ensures TicksAt(s2, i) == TicksAt(s1, i) && (s2.tasks[i].Some? ==> Tame(s2.tasks[i].value, cpu))
    {
      assert s2.tasks[i] == Wake(s1.tasks[i], tid);
    }
  }

  lemma ExitQuiet(s: Sched, i: nat, code: int, tid: nat, cpu: nat)
    requires cpu < MAX_CPUS && AllTame(s, cpu) && Present(s, i)
    ensures var s1 := Put(s, i, TaskAt(s, i).(state := Dead, exitCode := code));
            Quiet(s, s1.(tasks := WakeWaiters(s1.tasks, tid)), cpu)
  {
    hide WakeWaiters, Quiet;
    var t := TaskAt(s, i).(state := Dead, exitCode := code);
    PutQuiet(s, i, t, cpu);
    WakeQuiet(s, Put(s, i, t), tid, cpu);
  }

  lemma ChangeQuiet(s: Sched, e: Event, cpu: nat)
    requires cpu < MAX_CPUS && AllTame(s, cpu) && Enabled(e) && OneCpu(e, cpu)
    requires e.Sends? || e.Signals? || e.SetsAffinity? || e.SetsPriority? || e.Spawns? || e.IdleInit?
    ensures Quiet(s, NextSched(s, e), cpu)
  {
    hide SlotOf, EmptySlot;
    match e {
      case Spawns =>
        var i := EmptySlot(s.tasks, 0);
        if i < MAX_TASKS { PutQuiet(s, i, NewTask(s.nextTid), cpu); }
      case IdleInit(c) =>
        var i := EmptySlot(s.tasks, 0);
        if 0 < c < MAX_CPUS && i < MAX_TASKS { PutQuiet(s, i, IdleTask(s.nextTid, c), cpu); }
      case Sends(tid, msg) =>
        var i := SlotOf(s.tasks, tid, 0);
        if i < MAX_TASKS {
          PutQuiet(s, i, Woken(s.tasks[i].value.(mailbox := s.tasks[i].value.mailbox + [msg])), cpu);
        }
      case Signals(tid) =>
        var i := SlotOf(s.tasks, tid, 0);
        if i < MAX_TASKS { PutQuiet(s, i, Woken(s.tasks[i].value), cpu); }
      case SetsAffinity(tid, c) =>
        var i := SlotOf(s.tasks, tid, 0);
        if i < MAX_TASKS { PutQuiet(s, i, s.tasks[i].value.(pin := if c < MAX_CPUS then Some(c) else None), cpu); }
      case SetsPriority(tid, p) =>
        var i := SlotOf(s.tasks, tid, 0);
        if i < MAX_TASKS { PutQuiet(s, i, s.tasks[i].value.(priority := Min(Max(p, 1), 8)), cpu); }
    }
  }

  lemma CallQuiet(s: Sched, e: Event, cpu: nat)
    requires cpu < MAX_CPUS && AllTame(s, cpu) && Enabled(e) && OneCpu(e, cpu)
    requires e.Receives? || e.Polls? || e.Yields? || e.Exits? || e.ForcesExit? || e.Waits?
    ensures Quiet(s, NextSched(s, e), cpu)
  {
    hide SlotOf, WakeWaiters;
    var cur := s.current[cpu];
    match e {
      case Receives(_) =>
        if Present(s, cur) {
          var t := TaskAt(s, cur);
          PutQuiet(s, cur, if t.mailbox != [] then t.(mailbox := t.mailbox[1..]) else t.(state := Blocked), cpu);
        }
      case Polls(_) =>
        if Present(s, cur) && TaskAt(s, cur).mailbox != [] {
          PutQuiet(s, cur, TaskAt(s, cur).(mailbox := TaskAt(s, cur).mailbox[1..]), cpu);
        }
      case Yields(_) =>
        if Present(s, cur) { PutQuiet(s, cur, TaskAt(s, cur).(state := Ready), cpu); }
      case Exits(_, code) =>
        if Present(s, cur) { ExitQuiet(s, cur, code, TaskAt(s, cur).tid, cpu); } else { WakeQuiet(s, s, 0, cpu); }
      case ForcesExit(tid, code) =>
        var i := SlotOf(s.tasks, tid, 0);
        if i < MAX_TASKS { ExitQuiet(s, i, code, tid, cpu); }
      case Waits(_, tid) =>
        var i := SlotOf(s.tasks, tid, 0);
        if i < MAX_TASKS && s.tasks[i].value.state != Dead && Present(s, cur) {
          PutQuiet(s, cur, TaskAt(s, cur).(state := Blocked, waitTid := Some(tid)), cpu);
        }
    }
  }

  lemma OthersQuiet(s: Sched, e: Event, cpu: nat)
    requires cpu < MAX_CPUS && AllTame(s, cpu) && Enabled(e) && OneCpu(e, cpu) && !e.Timer?
    ensures Quiet(s, NextSched(s, e), cpu)
  {
    hide *;
    if e.Sends? || e.Signals? || e.SetsAffinity? || e.SetsPriority? || e.Spawns? || e.IdleInit? {
      ChangeQuiet(s, e, cpu);
    } else {
      CallQuiet(s, e, cpu);
    }
  }

  // ------------------------------------------------------------ runs

  ghost predicate IsRun(states: seq<Sched>, events: seq<Event>, cpu: nat)
    requires cpu < MAX_CPUS
  {
    && |states| == |events| + 1
    && forall i :: 0 <= i < |events| ==>
         Enabled(events[i]) && OneCpu(events[i], cpu) && states[i + 1] == NextSched(states[i], events[i])
  }

  function Ticks(events: seq<Event>): nat {
    if events == [] then 0 else Ticks(events[..|events| - 1]) + if events[|events| - 1].Timer? then 1 else 0
  }

  /** Nobody kills the waiting task or pins it. */
  predicate Spares(e: Event, tid: nat) {
    match e
    case ForcesExit(t, _) => t != tid
    case SetsAffinity(t, c) => t != tid || MAX_CPUS <= c
    case _ => true
  }

  /** Task `tid` waits in slot `k`. */
  predicate WaitsAs(s: Sched, cpu: nat, k: nat, tid: nat)
    requires cpu < MAX_CPUS
  {
    Waiting(s, cpu, k) && TaskAt(s, k).tid == tid
  }

  /** No event but a tick ends the waiting. */
  lemma StillWaits(s: Sched, e: Event, cpu: nat, k: nat, tid: nat)
    requires cpu < MAX_CPUS && Enabled(e) && OneCpu(e, cpu) && !e.Timer?
    requires WaitsAs(s, cpu, k, tid) && Spares(e, tid)
    ensures WaitsAs(NextSched(s, e), cpu, k, tid)
  {
    hide SlotOf, EmptySlot, WakeWaiters;
  }

  /** An event leaves the task waiting, nearer by a tick if it is one, unless it is
      a tick that dispatches it. */
  lemma OneEvent(s: Sched, e: Event, cpu: nat, k: nat, tid: nat)
    requires cpu < MAX_CPUS && AllTame(s, cpu) && Enabled(e) && OneCpu(e, cpu)
    requires WaitsAs(s, cpu, k, tid) && Spares(e, tid)
    ensures var s' := NextSched(s, e);
            && AllTame(s', cpu)
            && (s'.current[cpu] != k ==>
                  && WaitsAs(s', cpu, k, tid)
                  && Measure(s', cpu, k) + (if e.Timer? then 1 else 0) <= Measure(s, cpu, k))
  {
    hide ScheduleNext, AllTame;
    if e.Timer? {
      TickAdvances(s, cpu, k);
    } else {
      hide NextSched;
      StillWaits(s, e, cpu, k, tid);
      OthersQuiet(s, e, cpu);
    }
  }

  /** While the task is not dispatched, every tick costs the measure at least one. */
  lemma {:induction false} WaitingCosts(states: seq<Sched>, events: seq<Event>, cpu: nat, k: nat, tid: nat, n: nat)
    requires cpu < MAX_CPUS && IsRun(states, events, cpu) && AllTame(states[0], cpu) && n <= |events|
    requires WaitsAs(states[0], cpu, k, tid) && forall i :: 0 <= i < |events| ==> Spares(events[i], tid)
    requires forall i :: 0 <= i <= n ==> states[i].current[cpu] != k
    ensures AllTame(states[n], cpu) && WaitsAs(states[n], cpu, k, tid)
    ensures Ticks(events[..n]) + Measure(states[n], cpu, k) <= Measure(states[0], cpu, k)
    decreases n
  {
    hide AllTame, NextSched, Measure, WaitsAs, Spares;
    if 0 < n {
      var i := n - 1;
      WaitingCosts(states, events, cpu, k, tid, i);
      var e := events[i];
      assert Enabled(e) && OneCpu(e, cpu) && states[i + 1] == NextSched(states[i], e);
      assert events[..n][..n - 1] == events[..i] && events[..n][n - 1] == e;
      OneEvent(states[i], e, cpu, k, tid);
    } else {
      assert events[..0] == [];
    }
  }

  /** In every run of a single CPU, whatever its tasks do, a task that waits at the
      start and is neither killed nor pinned is dispatched within 120 ticks. */
  lemma BoundedWaiting(states: seq<Sched>, events: seq<Event>, cpu: nat, k: nat, tid: nat)
    requires cpu < MAX_CPUS && IsRun(states, events, cpu) && AllTame(states[0], cpu)
    requires WaitsAs(states[0], cpu, k, tid) && forall i :: 0 <= i < |events| ==> Spares(events[i], tid)
    requires BOUND <= Ticks(events)
    ensures exists i :: 0 <= i < |states| && states[i].current[cpu] == k
  {
    if forall i :: 0 <= i < |states| ==> states[i].current[cpu] != k {
      WaitingCosts(states, events, cpu, k, tid, |events|);
      assert events[..|events|] == events;
      MeasureBound(states[0], cpu, k);
    }
  }

  lemma MeasureBound(s: Sched, cpu: nat, k: nat)
    requires cpu < MAX_CPUS && AllTame(s, cpu) && Waiting(s, cpu, k)
    ensures Measure(s, cpu, k) <= BOUND
  {
  }

  // ----------------------------------------------------------- starvation

  /** One ordinary task, in slot `p`, is pinned to this CPU; `u` is the first
      migratable slot after it; both want to run. */
  ghost predicate Rotates(s: Sched, cpu: nat, p: nat, u: nat)
    requires cpu < MAX_CPUS
  {
    && s.active && p != u && Present(s, p) && Present(s, u) && Present(s, s.current[cpu])
    && TaskAt(s, p).stack && TaskAt(s, p).pin == Some(cpu) && TaskAt(s, u).stack && TaskAt(s, u).pin == None
    && Wants(s, cpu, p) && Wants(s, cpu, u) && TaskAt(s, s.current[cpu]).state == Running
    && forall j :: 0 <= j < MAX_TASKS && j != p && s.tasks[j].Some? && s.tasks[j].value.stack ==>
         && s.tasks[j].value.pin != Some(cpu)
         && (s.tasks[j].value.pin == None && s.tasks[j].value.state in {Ready, Running} ==>
               Distance(p, u) <= Distance(p, j))
  }

  predicate Wants(s: Sched, cpu: nat, i: nat)
    requires cpu < MAX_CPUS && Present(s, i)
  {
    TaskAt(s, i).state == (if s.current[cpu] == i then Running else Ready)
  }

  /** When a quantum ends, the pinned task is next, or after it the slot `u`. */
  lemma RotationChoice(s: Sched, cpu: nat, p: nat, u: nat)
    requires cpu < MAX_CPUS && Rotates(s, cpu, p, u)
    ensures var cur := s.current[cpu];
            Choose(AfterCharge(s, cur).tasks, cur, cpu) == Distance(cur, if cur == p then u else p)
            || KeepsRunning(TaskAt(s, cur))
  {
    hide Choose, FirstChoice;
    var cur := s.current[cpu];
    var tasks := AfterCharge(s, cur).tasks;
    assert forall j :: 0 <= j < MAX_TASKS && j != cur ==> tasks[j] == s.tasks[j];
    if cur == p {
      ChooseIs(tasks, p, cpu, u);
      assert FirstChoice(tasks, p, cpu, u) by { PinnedRan(s, cpu, p, u, tasks); }
    } else {
      ChooseIs(tasks, cur, cpu, p);
      assert FirstChoice(tasks, cur, cpu, p) by { PinnedWaits(s, cpu, p, u, tasks); }
    }
  }

  lemma PinnedRan(s: Sched, cpu: nat, p: nat, u: nat, tasks: Table)
    requires cpu < MAX_CPUS && Rotates(s, cpu, p, u) && s.current[cpu] == p
    requires forall j :: 0 <= j < MAX_TASKS && j != p ==> tasks[j] == s.tasks[j]
    ensures FirstChoice(tasks, p, cpu, u)
  {
    assert NoneIn(tasks, p, cpu, PinnedHere);
    assert Eligible(tasks[u].value, cpu, Migratable);
    assert FirstIn(tasks, p, cpu, Migratable, u);
  }

  lemma PinnedWaits(s: Sched, cpu: nat, p: nat, u: nat, tasks: Table)
    requires cpu < MAX_CPUS && Rotates(s, cpu, p, u) && s.current[cpu] != p
    requires forall j :: 0 <= j < MAX_TASKS && j != s.current[cpu] ==> tasks[j] == s.tasks[j]
    ensures FirstChoice(tasks, s.current[cpu], cpu, p)
  {
    assert Eligible(tasks[p].value, cpu, PinnedHere);
    assert FirstIn(tasks, s.current[cpu], cpu, PinnedHere, p);
  }

  /** A tick keeps this so, and moves only from `p` to `u` or from elsewhere to `p`. */
  lemma RotationStep(s: Sched, cpu: nat, p: nat, u: nat)
    requires cpu < MAX_CPUS && Rotates(s, cpu, p, u)
    ensures var s' := ScheduleNext(s, cpu);
            var cur := s.current[cpu];
            && Rotates(s', cpu, p, u)
            && (if KeepsRunning(TaskAt(s, cur)) then s'.current[cpu] == cur && TicksAt(s', cur) < TicksAt(s, cur)
                else s'.current[cpu] == if cur == p then u else p)
  {
    hide Choose;
    RotationChoice(s, cpu, p, u);
    var cur := s.current[cpu];
    var s' := ScheduleNext(s, cpu);
    var next := if cur == p then u else p;
    if !KeepsRunning(TaskAt(s, cur)) {
      assert Around(cur, Distance(cur, next)) == next;
    }
    forall j | 0 <= j < MAX_TASKS
      ensures s'.tasks[j].Some? == s.tasks[j].Some?
      ensures s.tasks[j].Some? ==>
                && s'.tasks[j].value.pin == s.tasks[j].value.pin && s'.tasks[j].value.stack == s.tasks[j].value.stack
                && (s'.tasks[j].value.state == s.tasks[j].value.state || s.tasks[j].value.state in {Ready, Running})
    {
    }
  }

  /** After `n` ticks and nothing else. */
  function AfterTicks(s: Sched, cpu: nat, n: nat): Sched
    requires cpu < MAX_CPUS
    decreases n
  {
    if n == 0 then s else AfterTicks(ScheduleNext(s, cpu), cpu, n - 1)
  }

  lemma {:induction false} OnlyThese(s: Sched, cpu: nat, p: nat, u: nat, n: nat)
    requires cpu < MAX_CPUS && Rotates(s, cpu, p, u)
    ensures AfterTicks(s, cpu, n).current[cpu] in {s.current[cpu], p, u}
    decreases n
  {
    if 0 < n {
      RotationStep(s, cpu, p, u);
      OnlyThese(ScheduleNext(s, cpu), cpu, p, u, n - 1);
    }
  }

  function ToGo(s: Sched, cpu: nat, p: nat, k: nat, bound: nat): nat
    requires cpu < MAX_CPUS && Present(s, s.current[cpu])
  {
    TicksAt(s, s.current[cpu]) + if k == p || s.current[cpu] == p then 0 else bound
  }

  lemma {:induction false} Reached(s: Sched, cpu: nat, p: nat, u: nat, k: nat, bound: nat) returns (n: nat)
    requires cpu < MAX_CPUS && Rotates(s, cpu, p, u) && k in {p, u} && s.current[cpu] != k
    requires bound == Quantum(TaskAt(s, p))
    ensures AfterTicks(s, cpu, n).current[cpu] == k
    decreases ToGo(s, cpu, p, k, bound)
  {
    hide ScheduleNext, Rotates, ToGo, Quantum;
    RotationNears(s, cpu, p, u, k, bound);
    var s' := ScheduleNext(s, cpu);
    if s'.current[cpu] == k {
      assert AfterTicks(s, cpu, 1) == AfterTicks(s', cpu, 0);
      n := 1;
    } else {
      var m := Reached(s', cpu, p, u, k, bound);
      n := m + 1;
    }
  }

  /** A tick brings up `k` or comes nearer to it. */
  lemma RotationNears(s: Sched, cpu: nat, p: nat, u: nat, k: nat, bound: nat)
    requires cpu < MAX_CPUS && Rotates(s, cpu, p, u) && k in {p, u} && s.current[cpu] != k
    requires bound == Quantum(TaskAt(s, p))
    ensures var s' := ScheduleNext(s, cpu);
            && Rotates(s', cpu, p, u) && Present(s', p) && bound == Quantum(TaskAt(s', p))
            && Present(s, s.current[cpu]) && Present(s', s'.current[cpu])
            && (s'.current[cpu] == k || ToGo(s', cpu, p, k, bound) < ToGo(s, cpu, p, k, bound))
  {
    hide ScheduleNext;
    RotationStep(s, cpu, p, u);
    QuantumStays(s, cpu, p, u);
  }

  lemma QuantumStays(s: Sched, cpu: nat, p: nat, u: nat)
    requires cpu < MAX_CPUS && Rotates(s, cpu, p, u)
    ensures var s' := ScheduleNext(s, cpu);
            && Present(s', p) && Quantum(TaskAt(s', p)) == Quantum(TaskAt(s, p))
            && (s.current[cpu] != p && s'.current[cpu] == p ==> TicksAt(s', p) == Quantum(TaskAt(s, p)))
  {
    hide Choose;
    RotationStep(s, cpu, p, u);
  }

  /** While one ordinary task is pinned here, ticks alone ever bring up a slot
      that was not current exactly when it is the pinned one or the first
      migratable one after it: every other ready task waits forever. */
  lemma StarvesIff(s: Sched, cpu: nat, p: nat, u: nat, k: nat)
    requires cpu < MAX_CPUS && Rotates(s, cpu, p, u) && k != s.current[cpu]
    ensures (exists n: nat :: AfterTicks(s, cpu, n).current[cpu] == k) <==> k in {p, u}
  {
    if k in {p, u} {
      var n := Reached(s, cpu, p, u, k, Quantum(TaskAt(s, p)));
    } else {
      forall n: nat
        ensures AfterTicks(s, cpu, n).current[cpu] != k
      {
        OnlyThese(s, cpu, p, u, n);
      }
    }
  }

  /** CPU 0 with its idle task, a task pinned to it, and two that may run anywhere. */
  function OnePinned(): Sched {
    Sched([Some(IdleTask(0, 0).(state := Ready)), Some(NewTask(1).(pin := Some(0), state := Running)),
           Some(NewTask(2)), Some(NewTask(3))] + seq(12, _ => None), [1, NO_TASK, NO_TASK, NO_TASK], 4, true)
  }

  /** There the last of the four, Ready all along, is never dispatched. */
  lemma NeverDispatched(n: nat)
    ensures Candidate(OnePinned(), 3) && AfterTicks(OnePinned(), 0, n).current[0] != 3
  {
    var s := OnePinned();
    assert Distance(1, 2) == 1;
    assert Rotates(s, 0, 1, 2);
    StarvesIff(s, 0, 1, 2, 3);
  }
}
