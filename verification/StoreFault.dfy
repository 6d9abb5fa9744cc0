/** Why a restart needs room on the disk: after a restart of a full store the
    next call writes over a blob that is already stored. */
module StoreFault {
  import opened Wrappers
  import opened Bytes
  import opened StoreLayout
  import opened StoreCrash
  import opened StoreRuns

  const OLD_HASH: seq<Byte> := Zeros(32)
  const NEW_HASH: seq<Byte> := [1] + Zeros(31)

  function OldEntry(): Entry {
    Entry(OLD_HASH, DATA_START, 1, 0, 0)
  }

  /** One blob, the byte 7 in the first data sector, and the frontier at `f`. */
  function Aged(f: nat): Disk {
    PutSlot(WriteTo(WriteTo(BlankDisk(), 0, Superblock(f)), DATA_START, Pad([7])), 0, OldEntry())
  }

  lemma AgedSlots(f: nat, n: nat)
    requires n < SLOTS
    ensures if n == 0 then SlotAt(Aged(f), n) == OldEntry() else !InUse(Aged(f), n)
  {
    hide Superblock, SlotAt, Pad, PutSlot, BlankDisk;
    var d1 := WriteTo(BlankDisk(), 0, Superblock(f));
    var d2 := WriteTo(d1, DATA_START, Pad([7]));
    OtherWriteKeepsSlots(BlankDisk(), 0, Superblock(f), n);
    OtherWriteKeepsSlots(d1, DATA_START, Pad([7]), n);
    PutSlotReads(d2, 0, OldEntry(), n);
    BlankSlot(n);
  }

  /** Such a disk, whatever its other sectors hold. */
  ghost predicate IsAged(d: Disk, f: nat) {
    && SlotAt(d, 0) == OldEntry() && (forall n: nat :: 0 < n < SLOTS ==> !InUse(d, n))
    && d[0] == Superblock(f) && d[DATA_START] == Pad([7])
  }

  ghost predicate IsFull(d: Disk) {
    IsAged(d, TOTAL_BLOCKS)
  }

  lemma AgedIs(f: nat)
    ensures IsAged(Aged(f), f)
  {
    forall n: nat | n < SLOTS ensures if n == 0 then SlotAt(Aged(f), n) == OldEntry() else !InUse(Aged(f), n) {
      AgedSlots(f, n);
    }
  }

  lemma FullMounted(d: Disk)
    requires IsFull(d)
    ensures Mounted(d, TOTAL_BLOCKS) && Init(d) == (d, DATA_START)
  {
    FrontierIs(d, TOTAL_BLOCKS);
    SuperblockReads(TOTAL_BLOCKS);
    assert forall n: nat :: n < SLOTS && InUse(d, n) ==> n == 0;
  }

  lemma AgedFinds(d: Disk, f: nat)
    requires IsAged(d, f)
    ensures FindSlot(d, OLD_HASH, 0) == 0
    ensures FindSlot(d, NEW_HASH, 0) == SLOTS && FreeSlot(d, 0) == 1
  {
    assert Matches(d, OLD_HASH, 0);
    assert OLD_HASH[0] != NEW_HASH[0];
    assert forall n: nat :: n < SLOTS ==> !Matches(d, NEW_HASH, n);
  }

  function NewRequest(): Request {
    Request(NEW_HASH, [9], None, None)
  }

  /** The plan of a call that stores data alone: frontier, data, index. */
  lemma DataPlan(d: Disk, next: nat, r: Request, f: nat) returns (ws: seq<Write>)
    requires Proper(r) && |r.data| <= SECTOR_SIZE && r.meta == None && r.vec == None && next < TOTAL_BLOCKS
    requires FindSlot(d, r.hash, 0) == SLOTS && FreeSlot(d, 0) == f < SLOTS
    ensures Encodable(Entry(r.hash, next, |r.data|, 0, 0))
    ensures ws == [Write(0, Superblock(next + 1)), Write(next, Pad(r.data)),
                   IndexWrite(d, f, Entry(r.hash, next, |r.data|, 0, 0))]
    ensures StorePlan(d, next, r) == Plan(ws, next + 1, Ok(()))
  {
    hide Superblock, Pad, PutEntry, FindSlot, FreeSlot;
    var p1 := Alloc(Phase([], next, false));
    assert MetaPhase(p1, r) == p1 && VectorPhase(p1, r) == p1;
    var p := DataPhase(next, r);
    assert p == Put(p1, next, Pad(r.data)) && |p.writes| == 2;
    ws := StorePlan(d, next, r).writes;
  }

  /** The call succeeds and writes the byte 9 into the first data sector. */
  lemma NewPlan(d: Disk) returns (ws: seq<Write>)
    requires IsFull(d)
    ensures Proper(NewRequest()) && StorePlan(d, DATA_START, NewRequest()).result.Ok?
    ensures ws == StorePlan(d, DATA_START, NewRequest()).writes
    ensures |ws| == 3 && ws[0].sector == 0 && ws[1] == Write(DATA_START, Pad([9]))
    ensures ws[2] == IndexWrite(d, 1, Entry(NEW_HASH, DATA_START, 1, 0, 0))
  {
    hide Superblock, Pad, PutEntry, FindSlot, FreeSlot, StorePlan;
    AgedFinds(d, TOTAL_BLOCKS);
    ws := DataPlan(d, DATA_START, NewRequest(), 1);
  }

  lemma ThreeInRange(d: Disk, ws: seq<Write>, e: Entry)
    requires |ws| == 3 && ws[0].sector == 0 && ws[1].sector == DATA_START && Encodable(e)
    requires ws[2] == IndexWrite(d, 1, e)
    ensures AllInRange(ws)
  {
    hide PutEntry;
    forall i | 0 <= i < |ws|
      ensures ws[i].sector < TOTAL_BLOCKS
    {
    }
  }

  /** After those writes the old hash still finds its entry, and the new byte. */
  lemma OldHashReadsNew(d: Disk, ws: seq<Write>)
    requires IsFull(d)
    requires |ws| == 3 && ws[0].sector == 0 && ws[1] == Write(DATA_START, Pad([9]))
    requires ws[2] == IndexWrite(d, 1, Entry(NEW_HASH, DATA_START, 1, 0, 0))
    ensures AllInRange(ws) && Retrieve(Apply(d, ws), OLD_HASH) == Some([9])
  {
    hide SlotAt, PutSlot, Pad, IndexWrite, AllInRange;
    var e := Entry(NEW_HASH, DATA_START, 1, 0, 0);
    ThreeInRange(d, ws, e);
    var d2 := ApplyThree(d, ws);
    var d' := Apply(d, ws);
    SecondSlotWritten(d, d2, ws[0].content, ws[1].content, e);
    FirstSlotKept(d, d2, d', e, ws[0].content, ws[1].content);
    ReadsByte(d', 9);
  }

  lemma SecondSlotWritten(d: Disk, d2: Disk, c0: Sector, c1: Sector, e: Entry)
    requires Encodable(e) && d2 == WriteTo(WriteTo(d, 0, c0), DATA_START, c1)
    ensures var w := IndexWrite(d, 1, e);
            w.sector < TOTAL_BLOCKS && WriteTo(d2, w.sector, w.content) == PutSlot(d2, 1, e)
  {
    IndexWriteIsPut(d, d2, 1, e);
  }

  lemma FirstSlotKept(d: Disk, d2: Disk, d': Disk, e: Entry, c0: Sector, c1: Sector)
    requires Encodable(e) && d2 == WriteTo(WriteTo(d, 0, c0), DATA_START, c1) && d' == PutSlot(d2, 1, e)
    ensures SlotAt(d', 0) == SlotAt(d, 0) && d'[DATA_START] == c1
  {
    OtherWriteKeepsSlots(d, 0, c0, 0);
    OtherWriteKeepsSlots(WriteTo(d, 0, c0), DATA_START, c1, 0);
    PutSlotReads(d2, 1, e, 0);
  }

  lemma ReadsByte(d: Disk, b: Byte)
    requires SlotAt(d, 0) == OldEntry() && d[DATA_START] == Pad([b])
    ensures Retrieve(d, OLD_HASH) == Some([b])
  {
    assert Matches(d, OLD_HASH, 0);
    assert Pad([b])[..1] == [b];
  }

  lemma ApplyThree(d: Disk, ws: seq<Write>) returns (d2: Disk)
    requires |ws| == 3 && AllInRange(ws)
    ensures d2 == WriteTo(WriteTo(d, ws[0].sector, ws[0].content), ws[1].sector, ws[1].content)
    ensures Apply(d, ws) == WriteTo(d2, ws[2].sector, ws[2].content)
  {
    ApplySnoc(d, [], ws[0]);
    ApplySnoc(d, [ws[0]], ws[1]);
    ApplySnoc(d, [ws[0], ws[1]], ws[2]);
    assert [] + [ws[0]] == [ws[0]] && [ws[0]] + [ws[1]] == [ws[0], ws[1]];
    assert [ws[0], ws[1]] + [ws[2]] == ws;
    d2 := WriteTo(WriteTo(d, ws[0].sector, ws[0].content), ws[1].sector, ws[1].content);
  }

  ghost predicate Overwrites(disk: Disk, h: seq<Byte>, r: Request)
    requires Proper(r)
  {
    var (d, next) := Init(disk);
    var plan := StorePlan(d, next, r);
    && plan.result.Ok? && AllInRange(plan.writes)
    && Retrieve(disk, h).Some? && Retrieve(Apply(d, plan.writes), h) != Retrieve(disk, h)
  }

  // ------------------------------------------------ how a full disk arises

  function OldRequest(): Request {
    Request(OLD_HASH, [7], None, None)
  }

  /** Some run from a zeroed disk ends with machine `m`. */
  ghost predicate Reached(m: Machine) {
    exists states: seq<Machine>, events: seq<Event> ::
      IsRun(states, events) && states[0] == FirstStart() && states[|events|] == m
  }

  lemma ReachedNext(m: Machine, e: Event, m': Machine)
    requires Reached(m) && StepsTo(m, e, m')
    ensures Reached(m')
  {
    hide StepsTo, FirstStart;
    var states, events :| IsRun(states, events) && states[0] == FirstStart() && states[|events|] == m;
    var states', events' := states + [m'], events + [e];
    forall i | 0 <= i < |events'| ensures StepsTo(states'[i], events'[i], states'[i + 1]) {
      if i < |events| { assert StepsTo(states[i], events[i], states[i + 1]); }
    }
    assert IsRun(states', events') && states'[|events'|] == m';
  }

  lemma ReachedFirst()
    ensures Reached(FirstStart())
  {
    hide FirstStart, StepsTo;
    var states, events: seq<Event> := [FirstStart()], [];
    assert IsRun(states, events) && states[|events|] == FirstStart();
  }

  /** The first blob is stored. */
  lemma FirstBlobReached()
    ensures Reached(Machine(Aged(DATA_START + 1), DATA_START + 1))
  {
    hide Superblock, Pad, PutEntry, FindSlot, FreeSlot, StorePlan, BlankDisk, Init, IndexWrite;
    ReachedFirst();
    BlankDiskMounts();
    var m, r := FirstStart(), OldRequest();
    assert FindSlot(m.disk, OLD_HASH, 0) == SLOTS && FreeSlot(m.disk, 0) == 0 by { NothingFound(); }
    var ws := DataPlan(m.disk, DATA_START, r, 0);
    FirstWrites(m.disk, ws);
    var m' := Machine(Aged(DATA_START + 1), DATA_START + 1);
    assert StepsTo(m, Call(r), m');
    ReachedNext(m, Call(r), m');
  }

  lemma NothingFound()
    ensures FindSlot(FirstStart().disk, OLD_HASH, 0) == SLOTS && FreeSlot(FirstStart().disk, 0) == 0
  {
    BlankDiskMounts();
    forall n: nat | n < SLOTS ensures !InUse(FirstStart().disk, n) {
      BlankSlot(n);
      OtherWriteKeepsSlots(BlankDisk(), 0, Superblock(DATA_START), n);
    }
  }

  lemma FirstWrites(d: Disk, ws: seq<Write>)
    requires d == WriteTo(BlankDisk(), 0, Superblock(DATA_START))
    requires ws == [Write(0, Superblock(DATA_START + 1)), Write(DATA_START, Pad([7])), IndexWrite(d, 0, OldEntry())]
    ensures AllInRange(ws) && Apply(d, ws) == Aged(DATA_START + 1)
  {
    hide Superblock, Pad, PutEntry, BlankDisk;
    assert forall i :: 0 <= i < |ws| ==> ws[i].sector < TOTAL_BLOCKS;
    var d2 := ApplyThree(d, ws);
    assert d2 == WriteTo(WriteTo(BlankDisk(), 0, Superblock(DATA_START + 1)), DATA_START, Pad([7]));
    IndexWriteIsPut(d, d2, 0, OldEntry());
  }

  /** A call that crashes after its first write moves the frontier and nothing else. */
  lemma CrashAges(f: nat)
    requires DATA_START < f < TOTAL_BLOCKS
    ensures var m, e := Machine(Aged(f), f), CrashIn(NewRequest(), 1);
            && Admissible(m, e) && AllInRange(WritesOf(m, e)) && Apply(m.disk, WritesOf(m, e)) == Aged(f + 1)
            && (f + 1 < TOTAL_BLOCKS ==> StepsTo(m, e, Machine(Aged(f + 1), f + 1)))
  {
    hide Superblock, Pad, PutEntry, FindSlot, FreeSlot, StorePlan, BlankDisk, IndexWrite;
    var m, e := Machine(Aged(f), f), CrashIn(NewRequest(), 1);
    AgedIs(f);
    AgedFinds(m.disk, f);
    var ws := DataPlan(m.disk, f, NewRequest(), 1);
    assert WritesOf(m, e) == [Write(0, Superblock(f + 1))];
    assert Apply(m.disk, WritesOf(m, e)) == WriteTo(Aged(f), 0, Superblock(f + 1)) == Aged(f + 1);
    if f + 1 < TOTAL_BLOCKS {
      AgedIs(f + 1);
      FrontierIs(Aged(f + 1), f + 1);
      SuperblockReads(f + 1);
    }
  }

  lemma AgesOn(f: nat)
    requires DATA_START < f && f + 1 < TOTAL_BLOCKS && Reached(Machine(Aged(f), f))
    ensures Reached(Machine(Aged(f + 1), f + 1))
  {
    hide Aged, StepsTo, Reached, Admissible, AllInRange, Apply, WritesOf;
    CrashAges(f);
    ReachedNext(Machine(Aged(f), f), CrashIn(NewRequest(), 1), Machine(Aged(f + 1), f + 1));
  }

  lemma {:induction false} AgedReached(f: nat)
    requires DATA_START < f < TOTAL_BLOCKS
    ensures Reached(Machine(Aged(f), f))
    decreases f
  {
    hide *;
    if f == DATA_START + 1 {
      FirstBlobReached();
    } else {
      AgedReached(f - 1);
      AgesOn(f - 1);
    }
  }

  /** The disk that a crash of a machine that some run reaches leaves behind. */
  ghost predicate LeftByCrash(disk: Disk) {
    exists m: Machine, r: Request, k: nat ::
      && Reached(m) && Admissible(m, CrashIn(r, k)) && AllInRange(WritesOf(m, CrashIn(r, k)))
      && disk == Apply(m.disk, WritesOf(m, CrashIn(r, k)))
  }

  lemma FullDiskArises()
    ensures IsFull(Aged(TOTAL_BLOCKS)) && LeftByCrash(Aged(TOTAL_BLOCKS))
  {
    hide Aged, Reached, IsAged;
    var f := TOTAL_BLOCKS - 1;
    AgedIs(f + 1);
    AgedReached(f);
    CrashAges(f);
  }

  /** A restart of a full store loses data: a run from a zeroed disk, with a crash
      at its end, leaves a sound store holding a blob, and after a restart one
      successful call makes `retrieve` return other bytes for the old hash. */
  lemma RestartWhenFullLosesData()
    ensures exists disk, h, r ::
              LeftByCrash(disk) && Mounted(disk, TOTAL_BLOCKS) && Proper(r) && r.hash != h && Overwrites(disk, h, r)
  {
    hide Overwrites, Mounted, LeftByCrash;
    FullDiskArises();
    LosesData(Aged(TOTAL_BLOCKS));
  }

  lemma LosesData(d: Disk)
    requires IsFull(d)
    ensures Mounted(d, TOTAL_BLOCKS) && Proper(NewRequest()) && NewRequest().hash != OLD_HASH
    ensures Overwrites(d, OLD_HASH, NewRequest())
  {
    FullMounted(d);
    AgedFinds(d, TOTAL_BLOCKS);
    var ws := NewPlan(d);
    OldHashReadsNew(d, ws);
    ReadsByte(d, 7);
    assert OLD_HASH[0] != NEW_HASH[0];
  }
}
