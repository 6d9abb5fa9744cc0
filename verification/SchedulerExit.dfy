/** An exit code waits in the dead task until someone asks for it. */
module SchedulerExit {
  import opened Wrappers
  import opened Scheduler
  import opened SchedulerCalls
  import opened SchedulerIdle
  import opened SchedulerWakeups

  /** The task of slot `i` is dead, with this number and exit code. */
  predicate DeadWith(s: Sched, i: nat, tid: nat, code: int) {
    && Present(s, i) && TaskAt(s, i).state == Dead
    && TaskAt(s, i).tid == tid && TaskAt(s, i).exitCode == code
  }

  /** The event does not revive the dead task of slot `i`, does not end it once more,
      and does not wait for it. */
  ghost predicate LeavesDead(s: Sched, e: Event, i: nat, tid: nat)
    requires Present(s, i)
  {
    && Enabled(e) && !Revives(s, e, i)
    && !(e.ForcesExit? && e.tid == tid) && !(e.Exits? && s.current[e.cpu] == i)
    && !(e.Waits? && e.tid == tid)
  }

  lemma StaysDead(s: Sched, e: Event, i: nat, tid: nat, code: int)
    requires DeadWith(s, i, tid, code) && LeavesDead(s, e, i, tid)
    ensures DeadWith(NextSched(s, e), i, tid, code)
  {
    hide SlotOf, EmptySlot, ScheduleNext, ExitTask, Revives;
    RevivedIff(s, e, i);
    match e
    case Timer(c) => TickKeepsCode(s, c, i);
    case Exits(c, x) => ExitKeepsCode(s, c, x, i);
    case _ =>
  }

  lemma TickKeepsCode(s: Sched, c: nat, i: nat)
    requires c < MAX_CPUS && Present(s, i)
    ensures var s' := ScheduleNext(s, c);
            Present(s', i) && TaskAt(s', i).tid == TaskAt(s, i).tid && TaskAt(s', i).exitCode == TaskAt(s, i).exitCode
  {
    hide Choose;
  }

  lemma ExitKeepsCode(s: Sched, c: nat, x: int, i: nat)
    requires c < MAX_CPUS && Present(s, i) && s.current[c] != i
    ensures var s' := ExitTask(s, c, x);
            Present(s', i) && TaskAt(s', i).tid == TaskAt(s, i).tid && TaskAt(s', i).exitCode == TaskAt(s, i).exitCode
  {
  }

  /** A run of such events. */
  ghost predicate IsRun(states: seq<Sched>, events: seq<Event>, i: nat, tid: nat) {
    && |states| == |events| + 1
    && forall j :: 0 <= j < |events| ==>
         && Present(states[j], i) && LeavesDead(states[j], events[j], i, tid)
         && states[j + 1] == NextSched(states[j], events[j])
  }

  lemma {:induction false} RunKeepsCode(states: seq<Sched>, events: seq<Event>, i: nat, tid: nat, code: int, n: nat)
    requires IsRun(states, events, i, tid) && DeadWith(states[0], i, tid, code) && n <= |events|
    ensures DeadWith(states[n], i, tid, code)
    decreases n
  {
    hide DeadWith, NextSched, Revives;
    if n > 0 {
      RunKeepsCode(states, events, i, tid, code, n - 1);
      var j := n - 1;
      assert LeavesDead(states[j], events[j], i, tid) && states[j + 1] == NextSched(states[j], events[j]);
      StaysDead(states[j], events[j], i, tid, code);
    }
  }

  /** The first wait for a task that has exited returns the code passed to exit and
      empties its slot, whatever happened in between on any CPU, while nothing revived
      the task, ended it once more or waited for it. */
  lemma FirstWaitGetsCode(s: Sched, c: nat, code: int, states: seq<Sched>, events: seq<Event>, d: nat)
    requires c < MAX_CPUS && d < MAX_CPUS && Present(s, s.current[c])
    requires var t := TaskAt(s, s.current[c]);
             && t.waitTid != Some(t.tid)
             && IsRun(states, events, s.current[c], t.tid) && states[0] == ExitTask(s, c, code)
    requires UniqueTids(states[|events|])
    ensures var last := states[|events|];
            var (s', r) := WaitForTid(last, d, TaskAt(s, s.current[c]).tid);
            r == Some(code) && OnlySlot(last, s', s.current[c], None)
  {
    hide ExitTask, WaitForTid, LeavesDead, NextSched, UniqueTids;
    var i := s.current[c];
    var tid := TaskAt(s, i).tid;
    ExitEnds(s, c, code);
    RunKeepsCode(states, events, i, tid, code, |events|);
    UniqueHolds(states[|events|], i);
    WaitMeans(states[|events|], d, tid);
  }
}
