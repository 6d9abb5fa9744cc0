/** The semantic store as the source runs it: a disk, the in-memory counter, the
    index scanned sector by sector (semantic/src/store.rs, block_manager.rs). Each
    call makes exactly the writes that `StoreCrash.StorePlan` lists. */
module StoreDevice {
  import opened Wrappers
  import opened Bytes
  import opened StoreLayout
  import opened StoreCrash
  import opened StoreOutcome
  import opened StoreRuns

  /** The fields of entry `j`, at the byte offsets where the source reads them. */
  lemma FieldsOf(s: Sector, j: nat)
    requires j < ENTRIES_PER_SECTOR
    ensures var off := ENTRY_SIZE * j;
            && EntryIn(s, j).hash == s[off..off + 32]
            && EntryIn(s, j).sector == ReadU64(s, off + 32)
            && EntryIn(s, j).len == ReadU64(s, off + 40)
  {
    var off := ENTRY_SIZE * j;
    SliceOfSlice(s, off, ENTRY_SIZE, 0, 32);
    SliceOfSlice(s, off, ENTRY_SIZE, 32, 40);
    SliceOfSlice(s, off, ENTRY_SIZE, 40, 48);
  }

  lemma SliceOfSlice(s: seq<Byte>, a: nat, n: nat, x: nat, y: nat)
    requires a + n <= |s| && x <= y <= n
    ensures s[a..a + n][x..y] == s[a + x..a + y]
  {
    var b := s[a..a + n];
    forall k | 0 <= k < y - x ensures b[x..y][k] == s[a + x..a + y][k] {
      assert b[x + k] == s[a + x + k];
    }
  }

  lemma FindStep(disk: Disk, h: seq<Byte>, n: nat)
    requires n < SLOTS
    ensures FindSlot(disk, h, n) == if Matches(disk, h, n) then n else FindSlot(disk, h, n + 1)
  {
  }

  lemma FreeStep(disk: Disk, n: nat)
    requires n < SLOTS
    ensures FreeSlot(disk, n) == if InUse(disk, n) then FreeSlot(disk, n + 1) else n
  {
  }

  lemma SlotIndex(disk: Disk, i: nat, j: nat)
    requires i < INDEX_SECTORS && j < ENTRIES_PER_SECTOR
    ensures ENTRIES_PER_SECTOR * i + j < SLOTS
    ensures SlotAt(disk, ENTRIES_PER_SECTOR * i + j) == EntryIn(disk[INDEX_START + i], j)
  {
  }

  class Store {
    var disk: Disk
    var nextFree: nat
    /** Every sector write so far, in order. */
    ghost var log: seq<Write>

    constructor (disk: Disk)
      ensures this.disk == disk && nextFree == DATA_START && log == []
    {
      this.disk := disk;
      nextFree := DATA_START;
      log := [];
    }

    method WriteBlock(sector: nat, content: Sector)
      requires sector < TOTAL_BLOCKS
      modifies this`disk, this`log
      ensures disk == WriteTo(old(disk), sector, content) && log == old(log) + [Write(sector, content)]
    {
      disk := disk[sector := content];
      log := log + [Write(sector, content)];
    }

    method FlushSuperblock()
      modifies this`disk, this`log
      ensures disk == WriteTo(old(disk), 0, Superblock(nextFree))
      ensures log == old(log) + [Write(0, Superblock(nextFree))]
    {
      var buf := MAGIC + ToLE(1, 4) + ToLE(nextFree, 8) + Zeros(492);
      WriteBlock(0, buf);
    }

    /** Start-up on a machine whose counter is still at its initial value. */
    method Start()
      requires nextFree == DATA_START
      modifies this
      ensures (disk, nextFree) == Init(old(disk))
    {
      var buf := disk[0];
      if buf[..8] == MAGIC {
        var next := ReadU64(buf, 12);
        nextFree := if DATA_START <= next < TOTAL_BLOCKS then next else DATA_START;
      } else {
        FlushSuperblock();
      }
    }

    /** A call that began with `disk0` and an empty log has got to phase `p`. */
    ghost predicate At(disk0: Disk, log0: seq<Write>, p: Phase)
      reads this
    {
      AllInRange(p.writes) && disk == Apply(disk0, p.writes) && log == log0 + p.writes && nextFree == p.next
    }

    method Allocate(ghost disk0: Disk, ghost log0: seq<Write>, ghost p: Phase) returns (r: Option<nat>)
      requires At(disk0, log0, p) && !p.full
      modifies this
      ensures At(disk0, log0, Alloc(p))
      ensures r == if Alloc(p).full then None else Some(p.next)
      ensures r.Some? ==> r.value < TOTAL_BLOCKS
      ensures Alloc(p).next == p.next + 1
    {
      hide Superblock, Apply;
      var block := nextFree;
      nextFree := nextFree + 1;
      if TOTAL_BLOCKS <= block { return None; }
      FlushSuperblock();
      ApplySnoc(disk0, p.writes, Write(0, Superblock(p.next + 1)));
      assert log == log0 + (p.writes + [Write(0, Superblock(p.next + 1))]);
      return Some(block);
    }

    method PutBlock(sector: nat, content: Sector, ghost disk0: Disk, ghost log0: seq<Write>, ghost p: Phase)
      requires At(disk0, log0, p) && !p.full && sector < TOTAL_BLOCKS
      modifies this
      ensures At(disk0, log0, Put(p, sector, content))
    {
      WriteBlock(sector, content);
      ApplySnoc(disk0, p.writes, Write(sector, content));
      assert log == log0 + (p.writes + [Write(sector, content)]);
    }

    /** The slot of the first entry in use for `hash`: sector and length. */
    method LookupIndex(hash: seq<Byte>) returns (r: Option<(nat, nat)>)
      ensures var n := FindSlot(disk, hash, 0);
              r == if n < SLOTS then Some((SlotAt(disk, n).sector, SlotAt(disk, n).len)) else None
    {
      hide ReadU64, EntryIn, FindSlot;
      var i := 0;
      while i < INDEX_SECTORS
        invariant 0 <= i <= INDEX_SECTORS
        invariant FindSlot(disk, hash, 0) == FindSlot(disk, hash, ENTRIES_PER_SECTOR * i)
      {
        var buf := disk[INDEX_START + i];
        var j := 0;
        while j < ENTRIES_PER_SECTOR
          invariant 0 <= j <= ENTRIES_PER_SECTOR
          invariant FindSlot(disk, hash, 0) == FindSlot(disk, hash, ENTRIES_PER_SECTOR * i + j)
        {
          var off := j * ENTRY_SIZE;
          FieldsOf(buf, j);
          SlotIndex(disk, i, j);
          FindStep(disk, hash, ENTRIES_PER_SECTOR * i + j);
          var sector := ReadU64(buf, off + 32);
          if sector != 0 && buf[off..off + 32] == hash {
            var len := ReadU64(buf, off + 40);
            return Some((sector, len));
          }
          j := j + 1;
        }
        i := i + 1;
      }
      return None;
    }

    /** Sector and place of the first entry whose sector field is zero. */
    method FindFree() returns (r: Option<(nat, nat)>)
      ensures var f := FreeSlot(disk, 0);
              r == if f < SLOTS then Some((f / ENTRIES_PER_SECTOR, f % ENTRIES_PER_SECTOR)) else None
    {
      hide ReadU64, EntryIn, FreeSlot;
      var i := 0;
      while i < INDEX_SECTORS
        invariant 0 <= i <= INDEX_SECTORS
        invariant FreeSlot(disk, 0) == FreeSlot(disk, ENTRIES_PER_SECTOR * i)
      {
        var buf := disk[INDEX_START + i];
        var j := 0;
        while j < ENTRIES_PER_SECTOR
          invariant 0 <= j <= ENTRIES_PER_SECTOR
          invariant FreeSlot(disk, 0) == FreeSlot(disk, ENTRIES_PER_SECTOR * i + j)
        {
          FieldsOf(buf, j);
          SlotIndex(disk, i, j);
          var existing := ReadU64(buf, j * ENTRY_SIZE + 32);
          FreeStep(disk, ENTRIES_PER_SECTOR * i + j);
          if existing == 0 { return Some((i, j)); }
          j := j + 1;
        }
        i := i + 1;
      }
      return None;
    }

    /** Put `e` into the first free entry of the index; false when it is full. */
    method WriteIndex(e: Entry) returns (ok: bool)
      requires Encodable(e)
      modifies this`disk, this`log
      ensures ok == (FreeSlot(old(disk), 0) < SLOTS)
      ensures ok ==> var w := IndexWrite(old(disk), FreeSlot(old(disk), 0), e);
                     && w.sector < TOTAL_BLOCKS
                     && disk == WriteTo(old(disk), w.sector, w.content) && log == old(log) + [w]
      ensures !ok ==> disk == old(disk) && log == old(log)
    {
      hide FreeSlot, PutEntry;
      var slot := FindFree();
      if slot.None? { return false; }
      var (i, j) := slot.value;
      var buf := disk[INDEX_START + i];
      var after := PutEntry(buf, j, e);
      WriteBlock(INDEX_START + i, after);
      return true;
    }

    /** `retrieve` into a buffer of `room` bytes. */
    method RetrieveBlob(hash: seq<Byte>, room: nat) returns (r: Result<seq<Byte>, string>)
      requires exists limit :: WellStored(disk, limit)
      ensures match Retrieve(disk, hash)
              case Some(bytes) => r == if room < |bytes| then Err("Buffer too small") else Ok(bytes)
              case None => r == Err("Not found")
    {
      hide ReadU64, EntryIn;
      var found := LookupIndex(hash);
      match found {
        case None => return Err("Not found");
        case Some((sector, len)) =>
          ghost var n := FindSlot(disk, hash, 0);
          assert InUse(disk, n);
          if room < len { return Err("Buffer too small"); }
          var buf := disk[sector];
          return Ok(buf[..len]);
      }
    }

    /** The parts of `store_full` before the index write; `e` is the entry to be
        written. False when the disk ran full on the way. */
    method WriteData(r: Request) returns (ok: bool, e: Entry)
      requires Proper(r) && |r.data| <= SECTOR_SIZE
      modifies this
      ensures At(old(disk), old(log), DataPhase(old(nextFree), r)) && ok == !DataPhase(old(nextFree), r).full
      ensures ok ==> e == NewEntry(old(nextFree), r)
    {
      hide Alloc, Put, Pad, Superblock, MetaPhase, VectorPhase;
      ghost var d0, l0, p := disk, log, Phase([], nextFree, false);
      e := Entry(r.hash, 0, 0, 0, 0);
      assert log == l0 + [];
      var sector := Allocate(d0, l0, p);
      p := Alloc(p);
      FullStays(p, r);
      if sector.None? { return false, e; }
      var metaSector, vecSector;
      ok, metaSector := WriteMeta(r, d0, l0, p);
      p := MetaPhase(p, r);
      FullStays(p, r);
      if !ok { return; }
      ok, vecSector := WriteVector(r, d0, l0, p);
      p := VectorPhase(p, r);
      FullStays(p, r);
      if !ok { return; }
      var buf := Pad(r.data);
      PutBlock(sector.value, buf, d0, l0, p);
      e := Entry(r.hash, sector.value, |r.data|, metaSector, vecSector);
    }

    method WriteMeta(r: Request, ghost d0: Disk, ghost l0: seq<Write>, ghost p: Phase) returns (ok: bool, sector: nat)
      requires Proper(r) && At(d0, l0, p) && !p.full
      modifies this
      ensures At(d0, l0, MetaPhase(p, r)) && ok == !MetaPhase(p, r).full
      ensures ok ==> sector == (if r.meta.None? then 0 else p.next)
      ensures ok ==> MetaPhase(p, r).next == if r.meta.None? then p.next else p.next + 1
    {
      if r.meta.None? { return true, 0; }
      var s := Allocate(d0, l0, p);
      if s.None? { return false, 0; }
      var buf := Pad(r.meta.value);
      PutBlock(s.value, buf, d0, l0, Alloc(p));
      return true, s.value;
    }

    method WriteVector(r: Request, ghost d0: Disk, ghost l0: seq<Write>, ghost p: Phase) returns (ok: bool, sector: nat)
      requires Proper(r) && At(d0, l0, p) && !p.full
      modifies this
      ensures At(d0, l0, VectorPhase(p, r)) && ok == !VectorPhase(p, r).full
      ensures ok ==> sector == if r.vec.None? then 0 else p.next
    {
      hide Alloc, Apply, Superblock;
      if r.vec.None? { return true, 0; }
      var v := r.vec.value;
      ok, sector := AllocateThree(d0, l0, p);
      ghost var q := Alloc(Alloc(Alloc(p)));
      if !ok { return; }
      var a: Sector, b: Sector, c: Sector := v[..512], v[512..1024], v[1024..];
      PutBlock(sector, a, d0, l0, q);
      q := Put(q, sector, a);
      PutBlock(sector + 1, b, d0, l0, q);
      q := Put(q, sector + 1, b);
      PutBlock(sector + 2, c, d0, l0, q);
    }

    method AllocateThree(ghost d0: Disk, ghost l0: seq<Write>, ghost p: Phase) returns (ok: bool, sector: nat)
      requires At(d0, l0, p) && !p.full
      modifies this
      ensures At(d0, l0, Alloc(Alloc(Alloc(p)))) && ok == !Alloc(Alloc(Alloc(p))).full
      ensures ok ==> sector == p.next && sector + 2 < TOTAL_BLOCKS
    {
      hide Superblock;
      var s1 := Allocate(d0, l0, p);
      if s1.None? { return false, 0; }
      var s2 := Allocate(d0, l0, Alloc(p));
      if s2.None? { return false, 0; }
      var s3 := Allocate(d0, l0, Alloc(Alloc(p)));
      return s3.Some?, s1.value;
    }

    /** `store_full` for data whose hash is `r.hash`: exactly the writes, the
        counter and the outcome of the plan. */
    method StoreFull(r: Request) returns (result: Result<(), Error>)
      requires Proper(r) && DATA_START <= nextFree
      modifies this
      ensures var plan := StorePlan(old(disk), old(nextFree), r);
              && AllInRange(plan.writes) && disk == Apply(old(disk), plan.writes)
              && log == old(log) + plan.writes && nextFree == plan.next && result == plan.result
      ensures OutcomeIs(old(disk), old(nextFree), r, nextFree, result)
    {
      hide OutcomeIs, DataPhase, PutEntry, FindSlot, FreeSlot;
      ghost var d0, l0, n0 := disk, log, nextFree;
      PlanOutcome(d0, n0, r);
      assert log + [] == log;
      var found := LookupIndex(r.hash);
      if found.Some? { return Ok(()); }
      if SECTOR_SIZE < |r.data| { return Err(TooLarge); }
      var ok, e := WriteData(r);
      ghost var p := DataPhase(n0, r);
      if !ok { return Err(DiskFull); }
      SameIndex(d0, disk, n0, r);
      RoomForEntry(n0, r);
      ok := WriteIndex(e);
      if !ok { return Err(IndexFull); }
      ghost var w := IndexWrite(d0, FreeSlot(d0, 0), e);
      ApplySnoc(d0, p.writes, w);
      assert log == l0 + (p.writes + [w]);
      return Ok(());
    }
  }

  /** Once an allocation has failed, the rest of the call does nothing. */
  lemma FullStays(p: Phase, r: Request)
    requires Proper(r)
    ensures p.full ==> MetaPhase(p, r) == p && VectorPhase(p, r) == p
    ensures p.full ==> forall s: nat, c: Sector :: Put(p, s, c) == p
    ensures !p.full ==> forall s: nat, c: Sector :: !Put(p, s, c).full
  {
  }

  /** The data region is written before the index is: the index is still as it
      was, and so is the write that will go to it. */
  lemma SameIndex(d0: Disk, d: Disk, next: nat, r: Request)
    requires Proper(r) && |r.data| <= SECTOR_SIZE && DATA_START <= next
    requires var p := DataPhase(next, r); AllInRange(p.writes) && d == Apply(d0, p.writes)
    ensures FreeSlot(d, 0) == FreeSlot(d0, 0)
    ensures forall f: nat, e: Entry :: f < SLOTS && Encodable(e) ==> IndexWrite(d, f, e) == IndexWrite(d0, f, e)
  {
    DataPhaseFresh(next, r, DATA_START);
    FreshWrites(d0, DataPhase(next, r).writes, DATA_START);
    forall n: nat | n < SLOTS
      ensures d[INDEX_START + n / ENTRIES_PER_SECTOR] == d0[INDEX_START + n / ENTRIES_PER_SECTOR]
    {
      assert INDEX_START + n / ENTRIES_PER_SECTOR < DATA_START;
    }
    SameFree(d0, d, 0);
  }

  lemma {:induction false} SameFree(d0: Disk, d: Disk, n: nat)
    requires n <= SLOTS
    requires forall m: nat :: m < SLOTS ==>
               d[INDEX_START + m / ENTRIES_PER_SECTOR] == d0[INDEX_START + m / ENTRIES_PER_SECTOR]
    ensures FreeSlot(d, n) == FreeSlot(d0, n)
    decreases SLOTS - n
  {
    if n < SLOTS {
      assert SlotAt(d, n) == SlotAt(d0, n);
      if InUse(d0, n) { SameFree(d0, d, n + 1); }
    }
  }
}
