/** The SMP scheduler with its mailboxes (kernel/src/process/scheduler.rs): every
    operation, atomic under the scheduler lock, as a function of the task table
    and of what each CPU runs. */
module Scheduler {
  import opened Bytes
  import opened Wrappers

  const MAX_TASKS: nat := 16
  const MAX_CPUS: nat := 4
  const NO_TASK: nat := MAX_TASKS
  const MAILBOX_CAPACITY: nat := 8

  datatype TaskState = Ready | Running | Blocked | Dead

  datatype Message = Message(sender: nat, data: seq<Byte>)

  /** A task; `stack` says whether it has a kernel stack of its own, which idle
      tasks have not. */
  datatype Task = Task(
    tid: nat, state: TaskState, stack: bool, priority: nat, ticks: nat,
    pin: Option<nat>, waitTid: Option<nat>, mailbox: seq<Message>, exitCode: int)

  type Table = t: seq<Option<Task>> | |t| == MAX_TASKS witness seq(MAX_TASKS, _ => None)
  type Cpus = c: seq<nat> | |c| == MAX_CPUS witness [NO_TASK, NO_TASK, NO_TASK, NO_TASK]

  datatype Sched = Sched(tasks: Table, current: Cpus, nextTid: nat, active: bool)

  // ------------------------------------------------------ table helpers

  predicate Present(s: Sched, i: nat) {
    i < MAX_TASKS && s.tasks[i].Some?
  }

  function TaskAt(s: Sched, i: nat): Task
    requires Present(s, i)
  {
    s.tasks[i].value
  }

  function Put(s: Sched, i: nat, t: Task): Sched
    requires i < MAX_TASKS
  {
    s.(tasks := s.tasks[i := Some(t)])
  }

  /** The first slot from `i` on that holds task `tid`; MAX_TASKS if none. */
  function SlotOf(tasks: Table, tid: nat, i: nat): (j: nat)
    requires i <= MAX_TASKS
    ensures i <= j <= MAX_TASKS
    ensures j < MAX_TASKS ==> tasks[j].Some? && tasks[j].value.tid == tid
    ensures forall k :: i <= k < j ==> !(tasks[k].Some? && tasks[k].value.tid == tid)
    decreases MAX_TASKS - i
  {
    if i == MAX_TASKS || (tasks[i].Some? && tasks[i].value.tid == tid) then i else SlotOf(tasks, tid, i + 1)
  }

  /** The first empty slot from `i` on; MAX_TASKS if the table is full. */
  function EmptySlot(tasks: Table, i: nat): (j: nat)
    requires i <= MAX_TASKS
    ensures i <= j <= MAX_TASKS
    ensures j < MAX_TASKS ==> tasks[j].None?
    decreases MAX_TASKS - i
  {
    if i == MAX_TASKS || tasks[i].None? then i else EmptySlot(tasks, i + 1)
  }

  // ------------------------------------------------------- schedule_next

  datatype Phase = PinnedHere | Migratable | Fallback

  /** What each of the three scans looks for. */
  predicate Eligible(t: Task, cpu: nat, phase: Phase) {
    t.state == Ready &&
    match phase
    case PinnedHere => t.stack && t.pin == Some(cpu)
    case Migratable => t.stack && t.pin == None
    case Fallback => t.pin == None || t.pin == Some(cpu)
  }

  /** The slot `d` places after `start`, around the table. */
  function Around(start: nat, d: nat): nat
    requires start < MAX_TASKS && d <= MAX_TASKS
  {
    if start + d < MAX_TASKS then start + d else start + d - MAX_TASKS
  }

  /** Distance of the first eligible slot after `start`, from distance `d` on;
      MAX_TASKS when the scan comes back to `start`. */
  function Scan(tasks: Table, start: nat, cpu: nat, phase: Phase, d: nat): (r: nat)
    requires start < MAX_TASKS && 1 <= d <= MAX_TASKS
    ensures d <= r <= MAX_TASKS
    ensures r < MAX_TASKS ==>
              var t := tasks[Around(start, r)]; t.Some? && Eligible(t.value, cpu, phase)
    ensures forall e :: d <= e < r ==>
              var t := tasks[Around(start, e)]; !(t.Some? && Eligible(t.value, cpu, phase))
    decreases MAX_TASKS - d
  {
    if d == MAX_TASKS then d
    else
      var t := tasks[Around(start, d)];
      if t.Some? && Eligible(t.value, cpu, phase) then d else Scan(tasks, start, cpu, phase, d + 1)
  }

  /** Distance of the task that the three scans choose; MAX_TASKS for none. */
  function Choose(tasks: Table, start: nat, cpu: nat): (r: nat)
    requires start < MAX_TASKS
    ensures 1 <= r <= MAX_TASKS
    ensures r < MAX_TASKS ==>
              var i := Around(start, r);
              i != start && tasks[i].Some? && Eligible(tasks[i].value, cpu, Fallback)
  {
    var p := Scan(tasks, start, cpu, PinnedHere, 1);
    if p < MAX_TASKS then p
    else
      var m := Scan(tasks, start, cpu, Migratable, 1);
      if m < MAX_TASKS then m else Scan(tasks, start, cpu, Fallback, 1)
  }

  function Quantum(t: Task): nat {
    Max(t.priority, 1)
  }

  /** The current task is charged a tick; true when its quantum is over. */
  function Charged(t: Task): (Task, bool) {
    if 1 < t.ticks then (t.(ticks := t.ticks - 1), false)
    else (if t.state == Running then t.(state := Ready) else t, true)
  }

  /** The task goes on without a switch: it is still Running within its quantum. */
  predicate KeepsRunning(t: Task) {
    1 < t.ticks && t.state == Running
  }

  /** After charging, the table as the scans see it. */
  function AfterCharge(s: Sched, cur: nat): Sched
    requires cur < MAX_TASKS
  {
    if s.tasks[cur].Some? then Put(s, cur, Charged(s.tasks[cur].value).0) else s
  }

  function StayOn(s: Sched, cur: nat): Sched
    requires cur < MAX_TASKS
  {
    if s.tasks[cur].Some?
    then var t := s.tasks[cur].value; Put(s, cur, t.(state := Running, ticks := Quantum(t))) else s
  }

  function SwitchTo(s: Sched, cpu: nat, cur: nat, idx: nat, expired: bool): Sched
    requires cpu < MAX_CPUS && cur < MAX_TASKS && Present(s, idx)
  {
    var s1 := if expired && s.tasks[cur].Some?
              then var t := s.tasks[cur].value; Put(s, cur, t.(ticks := Quantum(t))) else s;
    var n := s1.tasks[idx].value;
    Put(s1.(current := s1.current[cpu := idx]), idx, n.(state := Running, ticks := Quantum(n)))
  }

  /** The timer interrupt on `cpu`. */
  function ScheduleNext(s: Sched, cpu: nat): Sched
    requires cpu < MAX_CPUS
  {
    var cur := s.current[cpu];
    if !s.active || MAX_TASKS <= cur then s
    else if s.tasks[cur].Some? && KeepsRunning(s.tasks[cur].value) then AfterCharge(s, cur)
    else
      var expired := s.tasks[cur].Some? && Charged(s.tasks[cur].value).1;
      var s1 := AfterCharge(s, cur);
      var d := Choose(s1.tasks, cur, cpu);
      if d == MAX_TASKS then StayOn(s1, cur) else SwitchTo(s1, cpu, cur, Around(cur, d), expired)
  }

  // --------------------------------------------------------- life cycle

  function NewTask(tid: nat): Task {
    Task(tid, Ready, true, 1, 1, None, None, [], 0)
  }

  function IdleTask(tid: nat, cpu: nat): Task {
    Task(tid, Running, false, 1, 1, Some(cpu), None, [], 0)
  }

  /** After `init`: one idle task, on CPU 0. */
  function Boot(): Sched {
    Sched([Some(IdleTask(0, 0))] + seq(15, _ => None), [0, NO_TASK, NO_TASK, NO_TASK], 1, false)
  }

  /** All the spawn functions, once their stacks are allocated. */
  function Spawn(s: Sched): (Sched, Option<nat>) {
    var i := EmptySlot(s.tasks, 0);
    if i == MAX_TASKS then (s, None)
    else (Put(s, i, NewTask(s.nextTid)).(nextTid := s.nextTid + 1, active := true), Some(s.nextTid))
  }

  function SecondaryIdleInit(s: Sched, cpu: nat): Sched {
    var i := EmptySlot(s.tasks, 0);
    if cpu == 0 || MAX_CPUS <= cpu || i == MAX_TASKS then s
    else Put(s, i, IdleTask(s.nextTid, cpu)).(nextTid := s.nextTid + 1, current := s.current[cpu := i])
  }

  /** A waiter for `tid` is made Ready, whatever its state was. */
  function Wake(t: Option<Task>, tid: nat): Option<Task> {
    if t.Some? && t.value.waitTid == Some(tid) then Some(t.value.(waitTid := None, state := Ready)) else t
  }

  function WakeWaiters(tasks: Table, tid: nat): (r: Table)
    ensures forall i :: 0 <= i < MAX_TASKS ==> r[i] == Wake(tasks[i], tid)
  {
    seq(MAX_TASKS, i requires 0 <= i < MAX_TASKS => Wake(tasks[i], tid))
  }

  function ExitTask(s: Sched, cpu: nat, code: int): Sched
    requires cpu < MAX_CPUS
  {
    var cur := s.current[cpu];
    var tid := if Present(s, cur) then TaskAt(s, cur).tid else 0;
    var s1 := if Present(s, cur) then Put(s, cur, TaskAt(s, cur).(state := Dead, exitCode := code)) else s;
    s1.(tasks := WakeWaiters(s1.tasks, tid))
  }

  function ForceExit(s: Sched, tid: nat, code: int): (Sched, bool) {
    var i := SlotOf(s.tasks, tid, 0);
    if i == MAX_TASKS then (s, false)
    else
      var s1 := Put(s, i, s.tasks[i].value.(state := Dead, exitCode := code));
      (s1.(tasks := WakeWaiters(s1.tasks, tid)), true)
  }

  /** The exit code of a dead task, which is then removed; None means that the
      caller is now Blocked on it. */
  function WaitForTid(s: Sched, cpu: nat, tid: nat): (Sched, Option<int>)
    requires cpu < MAX_CPUS
  {
    var i := SlotOf(s.tasks, tid, 0);
    if i == MAX_TASKS then (s, Some(-1))
    else if s.tasks[i].value.state == Dead then (s.(tasks := s.tasks[i := None]), Some(s.tasks[i].value.exitCode))
    else
      var cur := s.current[cpu];
      (if Present(s, cur) then Put(s, cur, TaskAt(s, cur).(state := Blocked, waitTid := Some(tid))) else s, None)
  }

  // ---------------------------------------------------------- messages

  function Woken(t: Task): Task {
    if t.state == Blocked then t.(state := Ready) else t
  }

  function SendMessage(s: Sched, tid: nat, msg: Message): (Sched, bool) {
    var i := SlotOf(s.tasks, tid, 0);
    if i == MAX_TASKS || MAILBOX_CAPACITY <= |s.tasks[i].value.mailbox| then (s, false)
    else
      var t := s.tasks[i].value;
      (Put(s, i, Woken(t.(mailbox := t.mailbox + [msg]))), true)
  }

  function RecvMessage(s: Sched, cpu: nat): (Sched, Option<Message>)
    requires cpu < MAX_CPUS
  {
    var cur := s.current[cpu];
    if !Present(s, cur) then (s, None)
    else
      var t := TaskAt(s, cur);
      if t.mailbox != [] then (Put(s, cur, t.(mailbox := t.mailbox[1..])), Some(t.mailbox[0]))
      else (Put(s, cur, t.(state := Blocked)), None)
  }

  function TryRecvMessage(s: Sched, cpu: nat): (Sched, Option<Message>)
    requires cpu < MAX_CPUS
  {
    var cur := s.current[cpu];
    if Present(s, cur) && TaskAt(s, cur).mailbox != []
    then (Put(s, cur, TaskAt(s, cur).(mailbox := TaskAt(s, cur).mailbox[1..])), Some(TaskAt(s, cur).mailbox[0]))
    else (s, None)
  }

  function YieldCpu(s: Sched, cpu: nat): Sched
    requires cpu < MAX_CPUS
  {
    var cur := s.current[cpu];
    if Present(s, cur) then Put(s, cur, TaskAt(s, cur).(state := Ready)) else s
  }

  function SendSignal(s: Sched, tid: nat): (Sched, bool) {
    var i := SlotOf(s.tasks, tid, 0);
    if i == MAX_TASKS then (s, false) else (Put(s, i, Woken(s.tasks[i].value)), true)
  }

  // -------------------------------------------------------- parameters

  function SetAffinity(s: Sched, tid: nat, cpu: nat): (Sched, bool) {
    var i := SlotOf(s.tasks, tid, 0);
    if i == MAX_TASKS then (s, false)
    else (Put(s, i, s.tasks[i].value.(pin := if cpu < MAX_CPUS then Some(cpu) else None)), true)
  }

  function SetPriority(s: Sched, tid: nat, priority: nat): Sched {
    var i := SlotOf(s.tasks, tid, 0);
    if i == MAX_TASKS then s else Put(s, i, s.tasks[i].value.(priority := Min(Max(priority, 1), 8)))
  }
}
