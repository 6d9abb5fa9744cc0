/** Whole runs of the semantic store: calls, crashes inside calls, restarts. The
    disk behaves as a map from hash to blob that only ever grows. */
module StoreRuns {
  import opened Wrappers
  import opened Bytes
  import opened StoreLayout
  import opened StoreCrash

  datatype Machine = Machine(disk: Disk, next: nat)

  datatype Event =
    | Call(r: Request)
    | CrashIn(r: Request, k: nat)
    | Restart

  function PlanOf(m: Machine, r: Request): Plan
    requires Proper(r)
  {
    StorePlan(m.disk, m.next, r)
  }

  /** The writes that the event makes. */
  function WritesOf(m: Machine, e: Event): seq<Write>
    requires Admissible(m, e)
  {
    match e
    case Call(r) => PlanOf(m, r).writes
    case CrashIn(r, k) => PlanOf(m, r).writes[..k]
    case Restart => []
  }

  predicate Admissible(m: Machine, e: Event) {
    match e
    case Call(r) => Proper(r)
    case CrashIn(r, k) => Proper(r) && k <= |PlanOf(m, r).writes|
    case Restart => true
  }

  /** The event can happen; a restart needs a disk that is not full. */
  predicate Enabled(m: Machine, e: Event) {
    && Admissible(m, e) && AllInRange(WritesOf(m, e))
    && (e.Call? || Frontier(Apply(m.disk, WritesOf(m, e))) < TOTAL_BLOCKS)
  }

  function Next(m: Machine, e: Event): Machine
    requires Enabled(m, e)
  {
    var d := Apply(m.disk, WritesOf(m, e));
    if e.Call? then Machine(d, PlanOf(m, e.r).next) else Machine(Init(d).0, Init(d).1)
  }

  predicate StepsTo(m: Machine, e: Event, m': Machine) {
    Enabled(m, e) && m' == Next(m, e)
  }

  ghost predicate Ready(m: Machine) {
    Mounted(m.disk, m.next) && WellStored(m.disk, TOTAL_BLOCKS)
  }

  ghost function Holds(m: Machine, h: seq<Byte>): Option<Blob>
    requires Ready(m)
  {
    Stored(m.disk, h)
  }

  /** The event put a new blob into the store: every write of a successful call
      for an unknown hash was made, whether or not a crash followed. */
  ghost predicate Commits(m: Machine, e: Event) {
    match e
    case Call(r) => Proper(r) && Adds(m.disk, m.next, r)
    case CrashIn(r, k) => Proper(r) && Adds(m.disk, m.next, r) && k == |PlanOf(m, r).writes|
    case Restart => false
  }

  /** Each event refines one step of a map that only grows. */
  lemma StepRefines(m: Machine, e: Event, m': Machine)
    requires Ready(m) && StepsTo(m, e, m')
    ensures Ready(m')
    ensures forall h :: Holds(m', h) ==
              if Commits(m, e) && h == e.r.hash then Some(Wanted(e.r)) else Holds(m, h)
    ensures Commits(m, e) ==> Holds(m, e.r.hash) == None
  {
    match e {
      case Call(r) =>
        var d1 := CallStaysMounted(m.disk, m.next, r);
        forall h ensures Holds(m', h) == if Commits(m, e) && h == r.hash then Some(Wanted(r)) else Holds(m, h) {
          assert HoldsAfter(m.disk, m.next, r, |PlanOf(m, r).writes|, d1, h);
        }
      case CrashIn(r, k) =>
        var d1 := CrashAnywhere(m.disk, m.next, r, k);
        InitMounts(d1);
        forall h ensures Holds(m', h) == if Commits(m, e) && h == r.hash then Some(Wanted(r)) else Holds(m, h) {
          assert HoldsAfter(m.disk, m.next, r, k, d1, h);
        }
      case Restart =>
        InitMounts(m.disk);
    }
  }

  /** While mounted, every call and every crash point stays within the disk. */
  lemma NeverOutOfRange(m: Machine, e: Event)
    requires Ready(m) && Admissible(m, e)
    ensures AllInRange(WritesOf(m, e))
  {
    if e.Call? {
      var d := CallStaysMounted(m.disk, m.next, e.r);
    } else if e.CrashIn? {
      var d := CrashAnywhere(m.disk, m.next, e.r, e.k);
    }
  }

  ghost predicate IsRun(states: seq<Machine>, events: seq<Event>) {
    && |states| == |events| + 1
    && forall i :: 0 <= i < |events| ==> StepsTo(states[i], events[i], states[i + 1])
  }

  /** On every run the store stays sound. */
  lemma {:induction false} AlwaysReady(states: seq<Machine>, events: seq<Event>, j: nat)
    requires IsRun(states, events) && Ready(states[0]) && j <= |events|
    ensures Ready(states[j])
    decreases j
  {
    hide StepsTo, Ready;
    if 0 < j {
      AlwaysReady(states, events, j - 1);
      RunStep(states, events, j, states[j - 1], events[j - 1], states[j]);
      StepRefines(states[j - 1], events[j - 1], states[j]);
    }
  }

  ghost predicate HoldsBlob(m: Machine, h: seq<Byte>, b: Blob) {
    Ready(m) && Holds(m, h) == Some(b)
  }

  /** What is stored under a hash at one time is stored under it, unchanged, at
      every later time. */
  lemma {:induction false} StoredForever(states: seq<Machine>, events: seq<Event>, i: nat, j: nat,
                                         h: seq<Byte>, b: Blob)
    requires IsRun(states, events) && i <= j <= |events| && HoldsBlob(states[i], h, b)
    ensures HoldsBlob(states[j], h, b)
    decreases j
  {
    hide HoldsBlob, StepsTo;
    if i < j {
      StoredForever(states, events, i, j - 1, h, b);
      KeptAt(states, events, j, h, b);
    }
  }

  lemma KeptAt(states: seq<Machine>, events: seq<Event>, j: nat, h: seq<Byte>, b: Blob)
    requires IsRun(states, events) && 0 < j <= |events| && HoldsBlob(states[j - 1], h, b)
    ensures HoldsBlob(states[j], h, b)
  {
    hide HoldsBlob, StepsTo;
    var m, e, m' := states[j - 1], events[j - 1], states[j];
    RunStep(states, events, j, m, e, m');
    KeptOnce(m, e, m', h, b);
  }

  lemma RunStep(states: seq<Machine>, events: seq<Event>, j: nat, m: Machine, e: Event, m': Machine)
    requires IsRun(states, events) && 0 < j <= |events|
    requires m == states[j - 1] && e == events[j - 1] && m' == states[j]
    ensures StepsTo(m, e, m')
  {
    hide StepsTo;
    var i := j - 1;
    assert StepsTo(states[i], events[i], states[i + 1]);
  }

  lemma KeptOnce(m: Machine, e: Event, m': Machine, h: seq<Byte>, b: Blob)
    requires HoldsBlob(m, h, b) && StepsTo(m, e, m')
    ensures HoldsBlob(m', h, b)
  {
    StepRefines(m, e, m');
  }

  /** A blob committed by one event is what `retrieve` finds ever after: the
      first one stored under its hash, whatever is stored later. */
  lemma FirstStoredStays(states: seq<Machine>, events: seq<Event>, i: nat, j: nat)
    requires IsRun(states, events) && Ready(states[0]) && i < j <= |events|
    requires Commits(states[i], events[i])
    ensures HoldsBlob(states[j], events[i].r.hash, Wanted(events[i].r))
  {
    AlwaysReady(states, events, i);
    StepRefines(states[i], events[i], states[i + 1]);
    StoredForever(states, events, i + 1, j, events[i].r.hash, Wanted(events[i].r));
  }

  /** The bytes that `retrieve` copies out for `h`. */
  function Retrieve(disk: Disk, h: seq<Byte>): Option<seq<Byte>> {
    var n := FindSlot(disk, h, 0);
    if n < SLOTS && SlotAt(disk, n).sector < TOTAL_BLOCKS && SlotAt(disk, n).len <= SECTOR_SIZE
    then Some(disk[SlotAt(disk, n).sector][..SlotAt(disk, n).len]) else None
  }

  /** On a sound store `retrieve` returns the data of the blob under the hash. */
  lemma RetrieveReadsBlob(disk: Disk, limit: nat, h: seq<Byte>)
    requires WellStored(disk, limit) && WellStored(disk, TOTAL_BLOCKS)
    ensures Retrieve(disk, h) == match Stored(disk, h) case Some(b) => Some(b.data) case None => None
  {
    var n := FindSlot(disk, h, 0);
    if n < SLOTS {
      assert InUse(disk, n) && GoodEntry(SlotAt(disk, n), TOTAL_BLOCKS);
    }
  }

  /** The index and sectors of a sound store: every sector of an entry lies
      between the first data sector and the persisted frontier, and no two
      entries share one. */
  lemma SectorsApart(states: seq<Machine>, events: seq<Event>, j: nat, n: nat, n': nat, s: nat)
    requires IsRun(states, events) && Ready(states[0]) && j <= |events|
    requires n < SLOTS && n' < SLOTS && InUse(states[j].disk, n) && InUse(states[j].disk, n')
    requires Owns(SlotAt(states[j].disk, n), s)
    ensures DATA_START <= s < Frontier(states[j].disk)
    ensures n != n' ==> !Owns(SlotAt(states[j].disk, n'), s)
  {
    AlwaysReady(states, events, j);
  }

  /** The machine after its first start on a zeroed disk. */
  function FirstStart(): Machine {
    Machine(Init(BlankDisk()).0, Init(BlankDisk()).1)
  }

  /** A freshly zeroed disk mounts, with nothing stored. */
  lemma BlankDiskMounts()
    ensures Ready(FirstStart()) && FirstStart() == Machine(WriteTo(BlankDisk(), 0, Superblock(DATA_START)), DATA_START)
    ensures forall h :: Holds(FirstStart(), h) == None
  {
    forall n: nat | n < SLOTS ensures !InUse(BlankDisk(), n) {
      BlankSlot(n);
    }
    assert BlankDisk()[0][..8][0] == 0 && MAGIC[0] == 65;
    InitMounts(BlankDisk());
  }

  /** On every run from a zeroed disk, with crashes anywhere, the data of a
      committed request is what `retrieve` returns for its hash ever after. */
  lemma RetrievedEverAfter(states: seq<Machine>, events: seq<Event>, i: nat, j: nat)
    requires IsRun(states, events) && states[0] == FirstStart() && i < j <= |events|
    requires Commits(states[i], events[i])
    ensures Retrieve(states[j].disk, events[i].r.hash) == Some(events[i].r.data)
  {
    hide StepsTo, Adds, WellStored, FirstStart, Retrieve, Init;
    BlankDiskMounts();
    FirstStoredStays(states, events, i, j);
    RetrieveReadsBlob(states[j].disk, Frontier(states[j].disk), events[i].r.hash);
  }

  lemma BlankSlot(n: nat)
    requires n < SLOTS
    ensures SlotAt(BlankDisk(), n).sector == 0
  {
    var s := BlankDisk()[INDEX_START + n / ENTRIES_PER_SECTOR];
    var off := ENTRY_SIZE * (n % ENTRIES_PER_SECTOR);
    assert forall k :: 0 <= k < SECTOR_SIZE ==> s[k] == 0;
    var field := s[off..off + ENTRY_SIZE][32..40];
    assert forall k :: 0 <= k < 8 ==> field[k] == s[off + 32 + k];
    assert field == Zeros(8);
    ZerosRead(8);
  }

  lemma {:induction false} ZerosRead(k: nat)
    ensures FromLE(Zeros(k)) == 0
    decreases k
  {
    if k > 0 {
      assert Zeros(k)[1..] == Zeros(k - 1);
      ZerosRead(k - 1);
    }
  }
}
