/** When a call of `store_full` succeeds and which error it gives otherwise, told
    from its arguments and the disk alone (semantic/src/store.rs:57-115). */
module StoreOutcome {
  import opened Bytes
  import opened Wrappers
  import opened StoreLayout
  import opened StoreCrash

  /** An entry in use has this hash. */
  ghost predicate Known(disk: Disk, h: seq<Byte>) {
    exists n: nat :: n < SLOTS && InUse(disk, n) && SlotAt(disk, n).hash == h
  }

  ghost predicate HasFreeEntry(disk: Disk) {
    exists n: nat :: n < SLOTS && !InUse(disk, n)
  }

  /** Sectors of a blob: one for the data, one for metadata, three for a vector. */
  function Sectors(r: Request): nat {
    1 + (if r.meta.Some? then 1 else 0) + (if r.vec.Some? then 3 else 0)
  }

  /** The exact condition of each outcome, and what becomes of the counter. */
  ghost predicate OutcomeIs(disk: Disk, next: nat, r: Request, next': nat, result: Result<(), Error>) {
    var known, small, fits := Known(disk, r.hash), |r.data| <= 512, next + Sectors(r) <= TOTAL_BLOCKS;
    && (result == Ok(()) <==> known || (small && fits && HasFreeEntry(disk)))
    && (result == Err(TooLarge) <==> !known && !small)
    && (result == Err(DiskFull) <==> !known && small && !fits)
    && (result == Err(IndexFull) <==> !known && small && fits && !HasFreeEntry(disk))
    && next' == if known || !small then next
                else if fits then next + Sectors(r)
                else Max(next, TOTAL_BLOCKS) + 1
  }

  lemma PlanOutcome(disk: Disk, next: nat, r: Request)
    requires Proper(r)
    ensures var plan := StorePlan(disk, next, r); OutcomeIs(disk, next, r, plan.next, plan.result)
    ensures Known(disk, r.hash) || 512 < |r.data| ==> StorePlan(disk, next, r).writes == []
  {
    hide DataPhase, FindSlot, FreeSlot, SlotAt, InUse, IndexWrite;
    var n, f := FindSlot(disk, r.hash, 0), FreeSlot(disk, 0);
    assert n < SLOTS ==> Matches(disk, r.hash, n);
    assert Known(disk, r.hash) <==> n < SLOTS by {
      if k: nat :| k < SLOTS && InUse(disk, k) && SlotAt(disk, k).hash == r.hash {
        assert Matches(disk, r.hash, k);
      }
    }
    assert HasFreeEntry(disk) <==> f < SLOTS;
    if n == SLOTS && |r.data| <= 512 { RoomIff(next, r); }
  }

  /** The allocations go through exactly when all of them find a block. */
  lemma RoomIff(next: nat, r: Request)
    requires Proper(r) && |r.data| <= SECTOR_SIZE
    ensures var p := DataPhase(next, r);
            && (p.full <==> TOTAL_BLOCKS < next + Sectors(r))
            && p.next == if p.full then Max(next, TOTAL_BLOCKS) + 1 else next + Sectors(r)
  {
    hide Superblock, Pad;
    var p1 := Alloc(Phase([], next, false));
    var p2 := MetaPhase(p1, r);
    VectorRoom(p2, r);
  }

  lemma VectorRoom(p: Phase, r: Request)
    requires Proper(r)
    ensures var q := VectorPhase(p, r);
            if p.full || r.vec.None? then q == p
            else
              && (q.full <==> TOTAL_BLOCKS < p.next + 3)
              && q.next == if q.full then Max(p.next, TOTAL_BLOCKS) + 1 else p.next + 3
  {
    hide Superblock;
  }
}
