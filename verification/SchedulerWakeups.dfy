/** No lost wake-ups: what every operation, on any CPU and in any interleaving,
    keeps about task numbers, waiting tasks and their messages. */
module SchedulerWakeups {
  import opened Wrappers
  import opened Scheduler

  /** The scheduler, and for each task number the messages accepted for it and
      the messages it has received. */
  datatype World = World(s: Sched, accepted: map<nat, seq<Message>>, received: map<nat, seq<Message>>)

  datatype Event =
    | Timer(cpu: nat)
    | Spawns
    | IdleInit(cpu: nat)
    | Sends(tid: nat, msg: Message)
    | Signals(tid: nat)
    | Receives(cpu: nat)
    | Polls(cpu: nat)
    | Yields(cpu: nat)
    | Exits(cpu: nat, code: int)
    | ForcesExit(tid: nat, code: int)
    | Waits(cpu: nat, tid: nat)
    | SetsAffinity(tid: nat, cpu: nat)
    | SetsPriority(tid: nat, priority: nat)

  predicate Enabled(e: Event) {
    match e
    case Timer(cpu) => cpu < MAX_CPUS
    case Receives(cpu) => cpu < MAX_CPUS
    case Polls(cpu) => cpu < MAX_CPUS
    case Yields(cpu) => cpu < MAX_CPUS
    case Exits(cpu, _) => cpu < MAX_CPUS
    case Waits(cpu, _) => cpu < MAX_CPUS
    case _ => true
  }

  function NextSched(s: Sched, e: Event): Sched
    requires Enabled(e)
  {
    match e
    case Timer(cpu) => ScheduleNext(s, cpu)
    case Spawns => Spawn(s).0
    case IdleInit(cpu) => SecondaryIdleInit(s, cpu)
    case Sends(tid, msg) => SendMessage(s, tid, msg).0
    case Signals(tid) => SendSignal(s, tid).0
    case Receives(cpu) => RecvMessage(s, cpu).0
    case Polls(cpu) => TryRecvMessage(s, cpu).0
    case Yields(cpu) => YieldCpu(s, cpu)
    case Exits(cpu, code) => ExitTask(s, cpu, code)
    case ForcesExit(tid, code) => ForceExit(s, tid, code).0
    case Waits(cpu, tid) => WaitForTid(s, cpu, tid).0
    case SetsAffinity(tid, cpu) => SetAffinity(s, tid, cpu).0
    case SetsPriority(tid, p) => SetPriority(s, tid, p)
  }

  function Log(m: map<nat, seq<Message>>, tid: nat): seq<Message> {
    if tid in m then m[tid] else []
  }

  function Logged(m: map<nat, seq<Message>>, tid: nat, msg: Message): map<nat, seq<Message>> {
    m[tid := Log(m, tid) + [msg]]
  }

  /** What the caller of a receive got, filed under the task current on `cpu`. */
  function Delivered(w: World, cpu: nat, got: Option<Message>): map<nat, seq<Message>>
    requires cpu < MAX_CPUS
  {
    if got.Some? && Present(w.s, w.s.current[cpu])
    then Logged(w.received, TaskAt(w.s, w.s.current[cpu]).tid, got.value) else w.received
  }

  function Next(w: World, e: Event): World
    requires Enabled(e)
  {
    var s' := NextSched(w.s, e);
    match e
    case Sends(tid, msg) =>
      World(s', if SendMessage(w.s, tid, msg).1 then Logged(w.accepted, tid, msg) else w.accepted, w.received)
    case Receives(cpu) => World(s', w.accepted, Delivered(w, cpu, RecvMessage(w.s, cpu).1))
    case Polls(cpu) => World(s', w.accepted, Delivered(w, cpu, TryRecvMessage(w.s, cpu).1))
    case _ => World(s', w.accepted, w.received)
  }

  // ----------------------------------------------------------- invariant

  predicate UniqueTids(s: Sched) {
    && (forall i :: 0 <= i < MAX_TASKS && s.tasks[i].Some? ==> s.tasks[i].value.tid < s.nextTid)
    && (forall i, j :: 0 <= i < j < MAX_TASKS && s.tasks[i].Some? && s.tasks[j].Some? ==>
                         s.tasks[i].value.tid != s.tasks[j].value.tid)
  }

  /** A task that blocked for a message has none. */
  predicate BlockedIsEmpty(t: Task) {
    t.state == Blocked && t.waitTid == None ==> t.mailbox == []
  }

  predicate Lives(s: Sched, tid: nat) {
    exists j :: 0 <= j < MAX_TASKS && s.tasks[j].Some? && s.tasks[j].value.tid == tid && s.tasks[j].value.state != Dead
  }

  /** What task `t` received and what still waits for it is what was accepted for it. */
  predicate Accounted(w: World, t: Task) {
    Log(w.accepted, t.tid) == Log(w.received, t.tid) + t.mailbox
  }

  /** Each task by itself; while `ended` is being taken down, its waiters are
      exempt from waiting for something alive. */
  predicate TaskOk(w: World, t: Task, ended: Option<nat>) {
    && BlockedIsEmpty(t)
    && (t.waitTid.Some? && t.waitTid != ended ==> Lives(w.s, t.waitTid.value))
    && Accounted(w, t)
  }

  ghost predicate LogsOk(w: World) {
    && (forall tid: nat :: Log(w.received, tid) <= Log(w.accepted, tid))
    && (forall tid: nat :: w.s.nextTid <= tid ==> Log(w.accepted, tid) == [])
  }

  ghost predicate InvBut(w: World, ended: Option<nat>) {
    && UniqueTids(w.s)
    && (forall i :: 0 <= i < MAX_TASKS && w.s.tasks[i].Some? ==> TaskOk(w, w.s.tasks[i].value, ended))
    && LogsOk(w)
  }

  ghost predicate Inv(w: World) {
    InvBut(w, None)
  }

  // --------------------------------------------------- changes to one task

  /** A change that neither blocks nor kills the task and leaves its number, its
      mailbox and whom it waits for. */
  predicate Benign(t: Task, t': Task) {
    && t'.tid == t.tid && t'.mailbox == t.mailbox && t'.waitTid == t.waitTid
    && (t'.state == t.state || t'.state == Ready || t'.state == Running)
  }

  /** A task may be replaced by one of the same number that is no less alive. */
  lemma LivesAfterPut(s: Sched, i: nat, t: Task, tid: nat)
    requires Present(s, i) && t.tid == TaskAt(s, i).tid && (t.state == Dead ==> TaskAt(s, i).state == Dead)
    requires Lives(s, tid)
    ensures Lives(Put(s, i, t), tid)
  {
    var j :| 0 <= j < MAX_TASKS && s.tasks[j].Some? && s.tasks[j].value.tid == tid && s.tasks[j].value.state != Dead;
    assert Put(s, i, t).tasks[j].Some?;
  }

  lemma PutKeeps(w: World, w': World, i: nat, t: Task)
    requires Inv(w) && Present(w.s, i) && w'.s == Put(w.s, i, t)
    requires t.tid == TaskAt(w.s, i).tid && (t.state == Dead ==> TaskAt(w.s, i).state == Dead)
    requires BlockedIsEmpty(t) && Accounted(w', t) && (t.waitTid.Some? ==> Lives(w.s, t.waitTid.value))
    requires LogsOk(w')
    requires forall tid: nat :: tid != t.tid ==>
               Log(w'.accepted, tid) == Log(w.accepted, tid) && Log(w'.received, tid) == Log(w.received, tid)
    ensures Inv(w')
  {
    hide LogsOk, Lives;
    forall j | 0 <= j < MAX_TASKS && w'.s.tasks[j].Some?
      ensures TaskOk(w', w'.s.tasks[j].value, None)
    {
      var u := w'.s.tasks[j].value;
      if u.waitTid.Some? { LivesAfterPut(w.s, i, t, u.waitTid.value); }
    }
  }

  lemma BenignKeeps(w: World, i: nat, t: Task)
    requires Inv(w) && Present(w.s, i) && Benign(TaskAt(w.s, i), t)
    ensures Inv(w.(s := Put(w.s, i, t)))
  {
    hide Lives, LogsOk;
    assert TaskOk(w, TaskAt(w.s, i), None);
    assert LogsOk(w.(s := Put(w.s, i, t))) by { LogsAlone(w, w.(s := Put(w.s, i, t))); }
    PutKeeps(w, w.(s := Put(w.s, i, t)), i, t);
  }

  lemma LogsAlone(w: World, w': World)
    requires LogsOk(w) && w'.accepted == w.accepted && w'.received == w.received && w.s.nextTid <= w'.s.nextTid
    ensures LogsOk(w')
  {
  }

  /** Which task a CPU is on plays no part. */
  lemma CurrentIsFree(w: World, c: Cpus)
    requires Inv(w)
    ensures Inv(w.(s := w.s.(current := c)))
  {
    hide Lives, LogsOk;
    var w' := w.(s := w.s.(current := c));
    LogsAlone(w, w');
    forall j | 0 <= j < MAX_TASKS && w'.s.tasks[j].Some?
      ensures TaskOk(w', w'.s.tasks[j].value, None)
    {
      assert TaskOk(w, w.s.tasks[j].value, None);
      LivesByTable(w.s, w'.s);
    }
  }

  lemma LivesByTable(s: Sched, s': Sched)
    requires s.tasks == s'.tasks
    ensures forall tid: nat :: Lives(s, tid) <==> Lives(s', tid)
  {
  }

  lemma TimerKeeps(w: World, cpu: nat)
    requires Inv(w) && cpu < MAX_CPUS
    ensures Inv(w.(s := ScheduleNext(w.s, cpu)))
  {
    hide Choose, Inv;
    var s := w.s;
    var cur := s.current[cpu];
    if s.active && cur < MAX_TASKS {
      var s1 := AfterCharge(s, cur);
      if s.tasks[cur].Some? { BenignKeeps(w, cur, Charged(s.tasks[cur].value).0); }
      var w1 := w.(s := s1);
      assert Inv(w1);
      if !(s.tasks[cur].Some? && KeepsRunning(s.tasks[cur].value)) {
        var d := Choose(s1.tasks, cur, cpu);
        if d == MAX_TASKS {
          if s1.tasks[cur].Some? {
            var t := s1.tasks[cur].value;
            BenignKeeps(w1, cur, t.(state := Running, ticks := Quantum(t)));
          }
        } else {
          SwitchKeeps(w1, cpu, cur, Around(cur, d), s.tasks[cur].Some? && Charged(s.tasks[cur].value).1);
        }
      }
    }
  }

  lemma SwitchKeeps(w: World, cpu: nat, cur: nat, idx: nat, expired: bool)
    requires Inv(w) && cpu < MAX_CPUS && cur < MAX_TASKS && Present(w.s, idx)
    ensures Inv(w.(s := SwitchTo(w.s, cpu, cur, idx, expired)))
  {
    hide Inv;
    var s1 := w.s;
    if expired && w.s.tasks[cur].Some? {
      var t := w.s.tasks[cur].value;
      BenignKeeps(w, cur, t.(ticks := Quantum(t)));
      s1 := Put(w.s, cur, t.(ticks := Quantum(t)));
    }
    var w1 := w.(s := s1);
    var n := s1.tasks[idx].value;
    BenignKeeps(w1, idx, n.(state := Running, ticks := Quantum(n)));
    var s2 := Put(s1, idx, n.(state := Running, ticks := Quantum(n)));
    CurrentIsFree(w.(s := s2), s1.current[cpu := idx]);
    assert SwitchTo(w.s, cpu, cur, idx, expired) == s2.(current := s1.current[cpu := idx]);
  }

  // ---------------------------------------------------------- new tasks

  lemma NewKeeps(w: World, i: nat, t: Task, s': Sched)
    requires Inv(w) && i < MAX_TASKS && w.s.tasks[i].None?
    requires t.tid == w.s.nextTid && t.mailbox == [] && t.waitTid == None && t.state != Blocked
    requires s'.tasks == w.s.tasks[i := Some(t)] && s'.nextTid == w.s.nextTid + 1
    ensures Inv(w.(s := s'))
  {
    hide Lives;
    var w' := w.(s := s');
    LogsAlone(w, w');
    assert Accounted(w', t) by {
      assert Log(w.received, t.tid) <= Log(w.accepted, t.tid) == [];
    }
    forall j | 0 <= j < MAX_TASKS && s'.tasks[j].Some?
      ensures TaskOk(w', s'.tasks[j].value, None)
    {
      if j != i {
        var u := w.s.tasks[j].value;
        assert TaskOk(w, u, None);
        if u.waitTid.Some? { LivesAfterNew(w.s, i, s', u.waitTid.value); }
      }
    }
  }

  lemma LivesAfterNew(s: Sched, i: nat, s': Sched, tid: nat)
    requires i < MAX_TASKS && s.tasks[i].None? && forall j :: 0 <= j < MAX_TASKS && j != i ==> s'.tasks[j] == s.tasks[j]
    requires Lives(s, tid)
    ensures Lives(s', tid)
  {
  }

  // ------------------------------------------------------------ messages

  lemma SendKeeps(w: World, tid: nat, msg: Message)
    requires Inv(w)
    ensures Inv(Next(w, Sends(tid, msg)))
  {
    hide Lives, SlotOf, LogsOk;
    var w' := Next(w, Sends(tid, msg));
    if SendMessage(w.s, tid, msg).1 {
      var i := SlotOf(w.s.tasks, tid, 0);
      var t := w.s.tasks[i].value;
      assert TaskOk(w, t, None);
      var t' := Woken(t.(mailbox := t.mailbox + [msg]));
      assert Accounted(w', t');
      assert LogsOk(w') by { AcceptLogs(w, w', tid, msg); }
      PutKeeps(w, w', i, t');
    }
  }

  lemma AcceptLogs(w: World, w': World, tid: nat, msg: Message)
    requires LogsOk(w) && tid < w.s.nextTid
    requires w'.accepted == Logged(w.accepted, tid, msg) && w'.received == w.received && w'.s.nextTid == w.s.nextTid
    ensures LogsOk(w')
  {
  }

  /** The task current on `cpu` takes the first message of its mailbox. */
  lemma TakeKeeps(w: World, w': World, cur: nat)
    requires Inv(w) && Present(w.s, cur) && TaskAt(w.s, cur).mailbox != []
    requires var t := TaskAt(w.s, cur);
             && w'.s == Put(w.s, cur, t.(mailbox := t.mailbox[1..]))
             && w'.received == Logged(w.received, t.tid, t.mailbox[0]) && w'.accepted == w.accepted
    ensures Inv(w')
  {
    hide Lives;
    var t := TaskAt(w.s, cur);
    var t' := t.(mailbox := t.mailbox[1..]);
    assert TaskOk(w, t, None);
    assert Log(w'.received, t.tid) + t'.mailbox == Log(w.received, t.tid) + t.mailbox;
    assert LogsOk(w');
    PutKeeps(w, w', cur, t');
  }

  lemma ReceiveKeeps(w: World, cpu: nat)
    requires Inv(w) && cpu < MAX_CPUS
    ensures Inv(Next(w, Receives(cpu)))
    ensures Inv(Next(w, Polls(cpu)))
  {
    hide Lives, LogsOk;
    var cur := w.s.current[cpu];
    if Present(w.s, cur) {
      var t := TaskAt(w.s, cur);
      if t.mailbox != [] {
        TakeKeeps(w, Next(w, Receives(cpu)), cur);
      } else {
        var w' := Next(w, Receives(cpu));
        assert TaskOk(w, t, None);
        LogsAlone(w, w');
        PutKeeps(w, w', cur, t.(state := Blocked));
      }
    }
  }

  // ---------------------------------------------------------- endings

  /** A task is marked Dead: only those who wait for it wait for nothing. */
  lemma KillBut(w: World, i: nat, code: int)
    requires Inv(w) && Present(w.s, i)
    ensures var t := TaskAt(w.s, i);
            InvBut(w.(s := Put(w.s, i, t.(state := Dead, exitCode := code))), Some(t.tid))
  {
    hide LogsOk;
    var t := TaskAt(w.s, i);
    var w' := w.(s := Put(w.s, i, t.(state := Dead, exitCode := code)));
    LogsAlone(w, w');
    forall j | 0 <= j < MAX_TASKS && w'.s.tasks[j].Some?
      ensures TaskOk(w', w'.s.tasks[j].value, Some(t.tid))
    {
      var u := w.s.tasks[j].value;
      assert TaskOk(w, u, None);
      if u.waitTid.Some? && u.waitTid.value != t.tid {
        var k :| 0 <= k < MAX_TASKS && w.s.tasks[k].Some? && w.s.tasks[k].value.tid == u.waitTid.value
                 && w.s.tasks[k].value.state != Dead;
        assert w'.s.tasks[k].Some?;
      }
    }
  }

  lemma LivesAfterWake(s: Sched, tid: nat, other: nat)
    requires Lives(s, other)
    ensures Lives(s.(tasks := WakeWaiters(s.tasks, tid)), other)
  {
    hide WakeWaiters;
    var k :| 0 <= k < MAX_TASKS && s.tasks[k].Some? && s.tasks[k].value.tid == other && s.tasks[k].value.state != Dead;
    assert s.(tasks := WakeWaiters(s.tasks, tid)).tasks[k] == Wake(s.tasks[k], tid);
  }

  lemma UniqueAfterWake(s: Sched, tid: nat)
    requires UniqueTids(s)
    ensures UniqueTids(s.(tasks := WakeWaiters(s.tasks, tid)))
  {
    hide WakeWaiters;
    var s' := s.(tasks := WakeWaiters(s.tasks, tid));
    forall i | 0 <= i < MAX_TASKS
      ensures s'.tasks[i].Some? == s.tasks[i].Some?
      ensures s'.tasks[i].Some? ==> s'.tasks[i].value.tid == s.tasks[i].value.tid
    {
      assert s'.tasks[i] == Wake(s.tasks[i], tid);
    }
  }

  /** Waking the waiters of the ended task restores the invariant. */
  lemma WakeRestores(w: World, tid: nat)
    requires InvBut(w, Some(tid))
    ensures Inv(w.(s := w.s.(tasks := WakeWaiters(w.s.tasks, tid))))
  {
    hide LogsOk, WakeWaiters, UniqueTids, Lives;
    var w' := w.(s := w.s.(tasks := WakeWaiters(w.s.tasks, tid)));
    LogsAlone(w, w');
    UniqueAfterWake(w.s, tid);
    forall j | 0 <= j < MAX_TASKS && w'.s.tasks[j].Some?
      ensures TaskOk(w', w'.s.tasks[j].value, None)
    {
      assert w'.s.tasks[j] == Wake(w.s.tasks[j], tid);
      var u := w.s.tasks[j].value;
      assert TaskOk(w, u, Some(tid));
      if u.waitTid.Some? && u.waitTid.value != tid { LivesAfterWake(w.s, tid, u.waitTid.value); }
    }
  }

  lemma InvWeakens(w: World, tid: nat)
    requires Inv(w)
    ensures InvBut(w, Some(tid))
  {
  }

  lemma ExitKeeps(w: World, cpu: nat, code: int)
    requires Inv(w) && cpu < MAX_CPUS
    ensures Inv(w.(s := ExitTask(w.s, cpu, code)))
  {
    hide Inv, InvBut, WakeWaiters;
    var cur := w.s.current[cpu];
    if Present(w.s, cur) {
      var t := TaskAt(w.s, cur);
      KillBut(w, cur, code);
      WakeRestores(w.(s := Put(w.s, cur, t.(state := Dead, exitCode := code))), t.tid);
    } else {
      InvWeakens(w, 0);
      WakeRestores(w, 0);
    }
  }

  lemma ForceExitKeeps(w: World, tid: nat, code: int)
    requires Inv(w)
    ensures Inv(w.(s := ForceExit(w.s, tid, code).0))
  {
    hide Inv, InvBut, WakeWaiters, SlotOf;
    var i := SlotOf(w.s.tasks, tid, 0);
    if i < MAX_TASKS {
      var t := TaskAt(w.s, i);
      KillBut(w, i, code);
      WakeRestores(w.(s := Put(w.s, i, t.(state := Dead, exitCode := code))), t.tid);
    }
  }

  lemma WaitKeeps(w: World, cpu: nat, tid: nat)
    requires Inv(w) && cpu < MAX_CPUS
    ensures Inv(w.(s := WaitForTid(w.s, cpu, tid).0))
  {
    hide SlotOf, LogsOk;
    var i := SlotOf(w.s.tasks, tid, 0);
    if i < MAX_TASKS {
      var cur := w.s.current[cpu];
      if w.s.tasks[i].value.state == Dead {
        ReapKeeps(w, i);
      } else if Present(w.s, cur) {
        var t := TaskAt(w.s, cur);
        assert TaskOk(w, t, None);
        assert Lives(w.s, tid);
        var w' := w.(s := Put(w.s, cur, t.(state := Blocked, waitTid := Some(tid))));
        LogsAlone(w, w');
        PutKeeps(w, w', cur, t.(state := Blocked, waitTid := Some(tid)));
      }
    }
  }

  lemma ReapKeeps(w: World, i: nat)
    requires Inv(w) && Present(w.s, i) && TaskAt(w.s, i).state == Dead
    ensures Inv(w.(s := w.s.(tasks := w.s.tasks[i := None])))
  {
    hide LogsOk;
    var w' := w.(s := w.s.(tasks := w.s.tasks[i := None]));
    LogsAlone(w, w');
    forall j | 0 <= j < MAX_TASKS && w'.s.tasks[j].Some?
      ensures TaskOk(w', w'.s.tasks[j].value, None)
    {
      var u := w.s.tasks[j].value;
      assert TaskOk(w, u, None);
      if u.waitTid.Some? {
        var k :| 0 <= k < MAX_TASKS && w.s.tasks[k].Some? && w.s.tasks[k].value.tid == u.waitTid.value
                 && w.s.tasks[k].value.state != Dead;
        assert w'.s.tasks[k].Some?;
      }
    }
  }

  // -------------------------------------------------------- every run

  lemma StepKeeps(w: World, e: Event)
    requires Inv(w) && Enabled(e)
    ensures Inv(Next(w, e))
  {
    hide Inv, SlotOf, EmptySlot, ScheduleNext, RecvMessage, TryRecvMessage, SendMessage, ExitTask, ForceExit,
         WaitForTid;
    match e {
      case Timer(cpu) => TimerKeeps(w, cpu);
      case Spawns =>
        var i := EmptySlot(w.s.tasks, 0);
        if i < MAX_TASKS { NewKeeps(w, i, NewTask(w.s.nextTid), Spawn(w.s).0); }
      case IdleInit(cpu) =>
        var i := EmptySlot(w.s.tasks, 0);
        if 0 < cpu < MAX_CPUS && i < MAX_TASKS {
          NewKeeps(w, i, IdleTask(w.s.nextTid, cpu), SecondaryIdleInit(w.s, cpu));
        }
      case Sends(tid, msg) => SendKeeps(w, tid, msg);
      case Receives(cpu) => ReceiveKeeps(w, cpu);
      case Polls(cpu) => ReceiveKeeps(w, cpu);
      case Exits(cpu, code) => ExitKeeps(w, cpu, code);
      case ForcesExit(tid, code) => ForceExitKeeps(w, tid, code);
      case Waits(cpu, tid) => WaitKeeps(w, cpu, tid);
      case Yields(cpu) =>
        var cur := w.s.current[cpu];
        if Present(w.s, cur) { BenignKeeps(w, cur, TaskAt(w.s, cur).(state := Ready)); }
      case Signals(tid) =>
        var i := SlotOf(w.s.tasks, tid, 0);
        if i < MAX_TASKS { BenignKeeps(w, i, Woken(w.s.tasks[i].value)); }
      case SetsAffinity(tid, cpu) =>
        var i := SlotOf(w.s.tasks, tid, 0);
        if i < MAX_TASKS {
          BenignKeeps(w, i, w.s.tasks[i].value.(pin := if cpu < MAX_CPUS then Some(cpu) else None));
        }
      case SetsPriority(tid, p) =>
        var i := SlotOf(w.s.tasks, tid, 0);
        if i < MAX_TASKS { BenignKeeps(w, i, w.s.tasks[i].value.(priority := Min(Max(p, 1), 8))); }
    }
  }

  /** The world after a run of events. */
  function After(w: World, events: seq<Event>): World
    requires forall e :: e in events ==> Enabled(e)
    decreases |events|
  {
    if events == [] then w else Next(After(w, events[..|events| - 1]), events[|events| - 1])
  }

  lemma {:induction false} RunKeeps(w: World, events: seq<Event>)
    requires Inv(w) && forall e :: e in events ==> Enabled(e)
    ensures Inv(After(w, events))
    decreases |events|
  {
    if events != [] {
      RunKeeps(w, events[..|events| - 1]);
      StepKeeps(After(w, events[..|events| - 1]), events[|events| - 1]);
    }
  }

  /** Start-up, with nothing sent. */
  function Fresh(): World {
    World(Boot(), map[], map[])
  }

  /** In every interleaving of all operations on any CPUs from boot: task numbers
      are unique; a task blocked for a message has received everything accepted
      for it; whoever a task waits for is in the table and alive; and everyone
      has received a prefix, in order, of what was accepted for them. */
  lemma NoLostWakeups(events: seq<Event>)
    requires forall e :: e in events ==> Enabled(e)
    ensures var w := After(Fresh(), events);
            && UniqueTids(w.s)
            && (forall i :: 0 <= i < MAX_TASKS && w.s.tasks[i].Some? ==>
                  var t := w.s.tasks[i].value;
                  && (t.waitTid.Some? ==> Lives(w.s, t.waitTid.value))
                  && (t.state == Blocked && t.waitTid == None ==>
                        Log(w.received, t.tid) == Log(w.accepted, t.tid)))
            && (forall tid: nat :: Log(w.received, tid) <= Log(w.accepted, tid))
  {
    BootOk();
    RunKeeps(Fresh(), events);
    var w := After(Fresh(), events);
    forall i | 0 <= i < MAX_TASKS && w.s.tasks[i].Some?
      ensures var t := w.s.tasks[i].value;
              && (t.waitTid.Some? ==> Lives(w.s, t.waitTid.value))
              && (t.state == Blocked && t.waitTid == None ==> Log(w.received, t.tid) == Log(w.accepted, t.tid))
    {
      assert TaskOk(w, w.s.tasks[i].value, None);
    }
  }

  lemma BootOk()
    ensures Inv(Fresh())
  {
  }
}
