/** Crash safety of the semantic store (semantic/src/store.rs:57-197,
    semantic/src/block_manager.rs:41-101): `store_full` as the list of sector
    writes it makes, `init` after a crash between any two of them, and whole runs
    of both. */
module StoreCrash {
  import opened Wrappers
  import opened Bytes
  import opened StoreLayout

  // ------------------------------------------------------ what is stored

  /** A stored blob; metadata and vector as the sectors that hold them. */
  datatype Blob = Blob(data: seq<Byte>, meta: Option<Sector>, vec: Option<seq<Byte>>)

  /** Every sector of the entry lies in the data region below `limit`. */
  predicate GoodEntry(e: Entry, limit: nat) {
    && DATA_START <= e.sector < limit && e.len <= SECTOR_SIZE
    && (e.meta == 0 || DATA_START <= e.meta < limit)
    && (e.vec == 0 || (DATA_START <= e.vec && e.vec + 2 < limit))
  }

  /** `s` is one of the sectors of the entry: data, metadata, or one of the three
      consecutive sectors of the vector. */
  predicate Owns(e: Entry, s: nat) {
    s == e.sector || (e.meta != 0 && s == e.meta) || (e.vec != 0 && e.vec <= s <= e.vec + 2)
  }

  /** The parts of one entry do not share a sector. */
  predicate PartsApart(e: Entry) {
    && e.sector != e.meta
    && (e.vec != 0 ==> !(e.vec <= e.sector <= e.vec + 2) && !(e.vec <= e.meta <= e.vec + 2))
  }

  function BlobOf(disk: Disk, e: Entry): Blob
    requires GoodEntry(e, TOTAL_BLOCKS)
  {
    Blob(disk[e.sector][..e.len],
         if e.meta == 0 then None else Some(disk[e.meta]),
         if e.vec == 0 then None else Some(VectorAt(disk, e.vec)))
  }

  predicate Matches(disk: Disk, h: seq<Byte>, n: nat)
    requires n < SLOTS
  {
    InUse(disk, n) && SlotAt(disk, n).hash == h
  }

  /** The first entry from slot `n` on that is in use for `h`; SLOTS if none. */
  function FindSlot(disk: Disk, h: seq<Byte>, n: nat): (m: nat)
    requires n <= SLOTS
    ensures n <= m <= SLOTS
    ensures m < SLOTS ==> Matches(disk, h, m)
    ensures forall k :: n <= k < m ==> !Matches(disk, h, k)
    decreases SLOTS - n
  {
    if n == SLOTS || Matches(disk, h, n) then n else FindSlot(disk, h, n + 1)
  }

  /** The first free entry from slot `n` on; SLOTS if the index is full. */
  function FreeSlot(disk: Disk, n: nat): (m: nat)
    requires n <= SLOTS
    ensures n <= m <= SLOTS
    ensures m < SLOTS ==> !InUse(disk, m)
    ensures forall k :: n <= k < m ==> InUse(disk, k)
    decreases SLOTS - n
  {
    if n == SLOTS || !InUse(disk, n) then n else FreeSlot(disk, n + 1)
  }

  /** The disk is a store whose entries all lie below `limit`: no two entries
      share a sector and no hash is stored twice. */
  ghost predicate WellStored(disk: Disk, limit: nat) {
    && DATA_START <= limit <= TOTAL_BLOCKS
    && (forall n: nat :: n < SLOTS && InUse(disk, n) ==>
          GoodEntry(SlotAt(disk, n), limit) && PartsApart(SlotAt(disk, n)))
    && (forall n: nat, m: nat, s: nat :: n < m < SLOTS && InUse(disk, n) && InUse(disk, m) ==>
          !(Owns(SlotAt(disk, n), s) && Owns(SlotAt(disk, m), s)))
    && (forall n: nat, m: nat :: n < m < SLOTS && InUse(disk, n) && InUse(disk, m) ==>
          SlotAt(disk, n).hash != SlotAt(disk, m).hash)
  }

  /** What the store holds under `h`. */
  ghost function Stored(disk: Disk, h: seq<Byte>): Option<Blob>
    requires WellStored(disk, TOTAL_BLOCKS)
  {
    var n := FindSlot(disk, h, 0);
    if n < SLOTS then Some(BlobOf(disk, SlotAt(disk, n))) else None
  }

  lemma MoreRoom(disk: Disk, limit: nat, limit': nat)
    requires WellStored(disk, limit) && limit <= limit' <= TOTAL_BLOCKS
    ensures WellStored(disk, limit')
  {
  }

  // ----------------------------------------- writes that touch nothing stored

  /** `d` differs from `d0` only in the superblock, which holds a frontier no
      lower than `base`, and in sectors from `base` on. */
  ghost predicate OnlyFresh(d0: Disk, d: Disk, base: nat) {
    && (forall s :: 0 < s < base ==> s < TOTAL_BLOCKS && d[s] == d0[s])
    && (d[0] == d0[0] || exists p: nat :: base <= p <= TOTAL_BLOCKS && d[0] == Superblock(p))
  }

  /** Such writes leave every entry and every stored blob as they were. */
  lemma FreshKeepsStore(d0: Disk, d: Disk, base: nat)
    requires WellStored(d0, base) && base == Frontier(d0) && OnlyFresh(d0, d, base)
    ensures WellStored(d, base) && WellStored(d, TOTAL_BLOCKS) && WellStored(d0, TOTAL_BLOCKS)
    ensures base <= Frontier(d) <= TOTAL_BLOCKS
    ensures forall n: nat :: n < SLOTS ==> SlotAt(d, n) == SlotAt(d0, n)
    ensures forall h :: Stored(d, h) == Stored(d0, h)
  {
    hide EntryIn, Superblock, Owns, PartsApart, FindSlot;
    forall n: nat | n < SLOTS ensures SlotAt(d, n) == SlotAt(d0, n) {
      assert INDEX_START + n / ENTRIES_PER_SECTOR < DATA_START;
    }
    FrontierOf(d0, d, base);
    MoreRoom(d0, base, TOTAL_BLOCKS);
    MoreRoom(d, base, TOTAL_BLOCKS);
    forall h ensures Stored(d, h) == Stored(d0, h) {
      SameFind(d0, d, h, 0);
      var n := FindSlot(d0, h, 0);
      if n < SLOTS {
        assert InUse(d0, n) && GoodEntry(SlotAt(d0, n), base);
      }
    }
  }

  lemma FrontierOf(d0: Disk, d: Disk, base: nat)
    requires base == Frontier(d0) <= TOTAL_BLOCKS && OnlyFresh(d0, d, base)
    ensures base <= Frontier(d) <= TOTAL_BLOCKS
  {
    if d[0] != d0[0] {
      var p: nat :| base <= p <= TOTAL_BLOCKS && d[0] == Superblock(p);
      SuperblockReads(p);
    }
  }

  lemma {:induction false} SameFind(d0: Disk, d: Disk, h: seq<Byte>, n: nat)
    requires n <= SLOTS
    requires forall m: nat :: m < SLOTS ==> SlotAt(d, m) == SlotAt(d0, m)
    ensures FindSlot(d, h, n) == FindSlot(d0, h, n)
    decreases SLOTS - n
  {
    if n < SLOTS {
      assert SlotAt(d, n) == SlotAt(d0, n);
      if !Matches(d0, h, n) { SameFind(d0, d, h, n + 1); }
    }
  }

  // ------------------------------------------------------ the index write

  /** Writing an entry for a new hash, over sectors from `base` on, adds that one
      blob and changes no other. */
  lemma IndexWriteAdds(d: Disk, base: nat, limit: nat, f: nat, e: Entry)
    requires WellStored(d, base) && base <= limit <= TOTAL_BLOCKS
    requires f < SLOTS && !InUse(d, f) && Encodable(e)
    requires GoodEntry(e, limit) && PartsApart(e) && (forall s :: Owns(e, s) ==> base <= s)
    requires FindSlot(d, e.hash, 0) == SLOTS
    ensures WellStored(PutSlot(d, f, e), limit) && WellStored(PutSlot(d, f, e), TOTAL_BLOCKS)
    ensures WellStored(d, TOTAL_BLOCKS)
    ensures forall h :: Stored(PutSlot(d, f, e), h) == if h == e.hash then Some(BlobOf(d, e)) else Stored(d, h)
  {
    hide EntryIn, PutEntry, WellStored, Stored, FindSlot, Owns, PartsApart;
    var d' := PutSlot(d, f, e);
    forall m: nat | m < SLOTS ensures SlotAt(d', m) == if m == f then e else SlotAt(d, m) {
      PutSlotReads(d, f, e, m);
    }
    EntriesApart(d, d', base, limit, f, e);
    MoreRoom(d, base, TOTAL_BLOCKS);
    MoreRoom(d', limit, TOTAL_BLOCKS);
    forall h ensures Stored(d', h) == if h == e.hash then Some(BlobOf(d, e)) else Stored(d, h) {
      StoredAfterPut(d, d', f, e, h);
    }
  }

  lemma StoredAfterPut(d: Disk, d': Disk, f: nat, e: Entry, h: seq<Byte>)
    requires WellStored(d, TOTAL_BLOCKS) && WellStored(d', TOTAL_BLOCKS)
    requires f < SLOTS && !InUse(d, f) && GoodEntry(e, TOTAL_BLOCKS)
    requires forall m: nat :: m < SLOTS ==> SlotAt(d', m) == if m == f then e else SlotAt(d, m)
    requires forall s :: DATA_START <= s < TOTAL_BLOCKS ==> d'[s] == d[s]
    requires FindSlot(d, e.hash, 0) == SLOTS
    ensures Stored(d', h) == if h == e.hash then Some(BlobOf(d, e)) else Stored(d, h)
  {
    FindAfterPut(d, d', f, e, h, 0);
    var n := FindSlot(d', h, 0);
    if n < SLOTS {
      assert SlotAt(d', n) == if n == f then e else SlotAt(d, n);
      assert GoodEntry(SlotAt(d', n), TOTAL_BLOCKS);
      SameBlob(d, d', SlotAt(d', n));
    }
  }

  lemma EntriesApart(d: Disk, d': Disk, base: nat, limit: nat, f: nat, e: Entry)
    requires WellStored(d, base) && base <= limit <= TOTAL_BLOCKS
    requires f < SLOTS && !InUse(d, f)
    requires forall m: nat :: m < SLOTS ==> SlotAt(d', m) == if m == f then e else SlotAt(d, m)
    requires GoodEntry(e, limit) && PartsApart(e) && (forall s :: Owns(e, s) ==> base <= s)
    requires FindSlot(d, e.hash, 0) == SLOTS
    ensures WellStored(d', limit)
  {
    hide SlotAt, FindSlot, Owns, PartsApart, GoodEntry;
    assert forall m: nat :: m < SLOTS && m != f ==> InUse(d', m) == InUse(d, m);
    forall m: nat, s: nat | m < SLOTS && m != f && InUse(d, m) && Owns(SlotAt(d, m), s) ensures s < base {
      OwnsBelow(SlotAt(d, m), base, s);
    }
    forall m: nat | m < SLOTS && InUse(d', m) ensures GoodEntry(SlotAt(d', m), limit) {
      if m != f { StillGood(SlotAt(d, m), base, limit); }
    }
    forall m: nat | m < SLOTS && m != f && InUse(d, m) ensures SlotAt(d, m).hash != e.hash {
      assert !Matches(d, e.hash, m);
    }
  }

  lemma OwnsBelow(e: Entry, limit: nat, s: nat)
    requires GoodEntry(e, limit) && Owns(e, s)
    ensures s < limit
  {
  }

  lemma StillGood(e: Entry, limit: nat, limit': nat)
    requires GoodEntry(e, limit) && limit <= limit'
    ensures GoodEntry(e, limit')
  {
  }

  /** An index write leaves the data region alone. */
  lemma SameBlob(d: Disk, d': Disk, e: Entry)
    requires GoodEntry(e, TOTAL_BLOCKS)
    requires forall s :: DATA_START <= s < TOTAL_BLOCKS ==> d'[s] == d[s]
    ensures BlobOf(d', e) == BlobOf(d, e)
  {
  }

  lemma {:induction false} FindAfterPut(d: Disk, d': Disk, f: nat, e: Entry, h: seq<Byte>, n: nat)
    requires n <= SLOTS && f < SLOTS && !InUse(d, f) && e.sector != 0
    requires forall m: nat :: m < SLOTS ==> SlotAt(d', m) == if m == f then e else SlotAt(d, m)
    requires FindSlot(d, e.hash, 0) == SLOTS
    ensures FindSlot(d', h, n) == if h == e.hash && n <= f then f else FindSlot(d, h, n)
    decreases SLOTS - n
  {
    if n < SLOTS {
      assert SlotAt(d', n) == if n == f then e else SlotAt(d, n);
      assert !Matches(d, e.hash, n);
      if !Matches(d', h, n) { FindAfterPut(d, d', f, e, h, n + 1); }
    }
  }

  // ------------------------------------------- store_full as a write list

  datatype Write = Write(sector: nat, content: Sector)

  predicate AllInRange(ws: seq<Write>) {
    forall i :: 0 <= i < |ws| ==> ws[i].sector < TOTAL_BLOCKS
  }

  function WriteTo(disk: Disk, sector: nat, content: Sector): Disk
    requires sector < TOTAL_BLOCKS
  {
    disk[sector := content]
  }

  /** The disk after the writes, first one first. */
  function Apply(disk: Disk, ws: seq<Write>): Disk
    requires AllInRange(ws)
  {
    if ws == [] then disk
    else
      var w := ws[|ws| - 1];
      WriteTo(Apply(disk, ws[..|ws| - 1]), w.sector, w.content)
  }

  function Pad(b: seq<Byte>): Sector
    requires |b| <= SECTOR_SIZE
  {
    b + Zeros(SECTOR_SIZE - |b|)
  }

  /** Progress of `store_full`: the writes so far, the allocator's counter, and
      whether an allocation failed, which ends the call. */
  datatype Phase = Phase(writes: seq<Write>, next: nat, full: bool)

  /** `allocate`: the counter always moves, but only a block below TOTAL_BLOCKS is
      handed out and persisted. */
  function Alloc(p: Phase): Phase {
    if p.full then p
    else if TOTAL_BLOCKS <= p.next then p.(next := p.next + 1, full := true)
    else p.(writes := p.writes + [Write(0, Superblock(p.next + 1))], next := p.next + 1)
  }

  function Put(p: Phase, sector: nat, content: Sector): Phase {
    if p.full then p else p.(writes := p.writes + [Write(sector, content)])
  }

  datatype Request = Request(hash: seq<Byte>, data: seq<Byte>, meta: Option<seq<Byte>>, vec: Option<seq<Byte>>)

  /** What the types of `store_full` promise about its arguments. */
  predicate Proper(r: Request) {
    && |r.hash| == 32
    && (r.meta.Some? ==> |r.meta.value| == 256)
    && (r.vec.Some? ==> |r.vec.value| == 3 * SECTOR_SIZE)
  }

  function MetaPhase(p: Phase, r: Request): Phase
    requires Proper(r)
  {
    if r.meta.None? then p else Put(Alloc(p), p.next, Pad(r.meta.value))
  }

  function VectorPhase(p: Phase, r: Request): Phase
    requires Proper(r)
  {
    if r.vec.None? then p
    else
      var v, s := r.vec.value, p.next;
      Put(Put(Put(Alloc(Alloc(Alloc(p))), s, v[..512]), s + 1, v[512..1024]), s + 2, v[1024..])
  }

  /** Everything before the index write. */
  function DataPhase(next: nat, r: Request): Phase
    requires Proper(r) && |r.data| <= SECTOR_SIZE
  {
    Put(VectorPhase(MetaPhase(Alloc(Phase([], next, false)), r), r), next, Pad(r.data))
  }

  function NewEntry(next: nat, r: Request): Entry {
    var m := if r.meta.None? then 0 else next + 1;
    var v := if r.vec.None? then 0 else if r.meta.None? then next + 1 else next + 2;
    Entry(r.hash, next, |r.data|, m, v)
  }

  datatype Error = TooLarge | DiskFull | IndexFull

  datatype Plan = Plan(writes: seq<Write>, next: nat, result: Result<(), Error>)

  /** Counter, frontier and disk fit together while the store is mounted. */
  ghost predicate Mounted(disk: Disk, next: nat) {
    && WellStored(disk, Frontier(disk))
    && (next == Frontier(disk) || (Frontier(disk) == TOTAL_BLOCKS < next))
  }

  /** A write that can hurt nothing stored below `base`. */
  ghost predicate FreshWrite(w: Write, base: nat) {
    base <= w.sector < TOTAL_BLOCKS || (w.sector == 0 && exists p: nat :: IsFrontier(w, base, p))
  }

  predicate IsFrontier(w: Write, base: nat, p: nat) {
    base <= p <= TOTAL_BLOCKS && w.content == Superblock(p)
  }

  ghost predicate FreshPhase(p: Phase, base: nat) {
    && base <= p.next
    && forall i :: 0 <= i < |p.writes| ==> FreshWrite(p.writes[i], base)
  }

  lemma AllocFresh(p: Phase, base: nat)
    requires FreshPhase(p, base)
    ensures FreshPhase(Alloc(p), base)
  {
    if !p.full && p.next < TOTAL_BLOCKS {
      assert IsFrontier(Write(0, Superblock(p.next + 1)), base, p.next + 1);
    }
  }

  lemma PutFresh(p: Phase, base: nat, sector: nat, content: Sector)
    requires FreshPhase(p, base) && (!p.full ==> base <= sector < TOTAL_BLOCKS)
    ensures FreshPhase(Put(p, sector, content), base)
  {
  }

  /** Until the index write, every write is fresh. */
  lemma DataPhaseFresh(next: nat, r: Request, base: nat)
    requires Proper(r) && |r.data| <= SECTOR_SIZE && base <= next
    ensures FreshPhase(DataPhase(next, r), base)
  {
    var p0 := Phase([], next, false);
    var p1 := Alloc(p0);
    AllocFresh(p0, base);
    var p2 := MetaPhase(p1, r);
    if r.meta.Some? {
      AllocFresh(p1, base);
      PutFresh(Alloc(p1), base, p1.next, Pad(r.meta.value));
    }
    var p3 := VectorPhase(p2, r);
    if r.vec.Some? {
      VectorFresh(p2, r, base);
    }
    PutFresh(p3, base, next, Pad(r.data));
  }

  lemma VectorFresh(p: Phase, r: Request, base: nat)
    requires Proper(r) && r.vec.Some? && FreshPhase(p, base)
    ensures FreshPhase(VectorPhase(p, r), base)
  {
    var v, s := r.vec.value, p.next;
    AllocFresh(p, base);
    AllocFresh(Alloc(p), base);
    AllocFresh(Alloc(Alloc(p)), base);
    var q := Alloc(Alloc(Alloc(p)));
    PutFresh(q, base, s, v[..512]);
    PutFresh(Put(q, s, v[..512]), base, s + 1, v[512..1024]);
    PutFresh(Put(Put(q, s, v[..512]), s + 1, v[512..1024]), base, s + 2, v[1024..]);
  }

  lemma {:induction false} FreshWrites(disk: Disk, ws: seq<Write>, base: nat)
    requires DATA_START <= base <= TOTAL_BLOCKS
    requires forall i :: 0 <= i < |ws| ==> FreshWrite(ws[i], base)
    ensures AllInRange(ws) && OnlyFresh(disk, Apply(disk, ws), base)
    decreases |ws|
  {
    if ws != [] {
      var n := |ws| - 1;
      FreshWrites(disk, ws[..n], base);
      var w := ws[n];
      if w.sector == 0 {
        var p: nat :| IsFrontier(w, base, p);
      }
    }
  }

  lemma ApplySnoc(disk: Disk, ws: seq<Write>, w: Write)
    requires AllInRange(ws) && w.sector < TOTAL_BLOCKS
    ensures AllInRange(ws + [w]) && Apply(disk, ws + [w]) == WriteTo(Apply(disk, ws), w.sector, w.content)
  {
    assert (ws + [w])[..|ws|] == ws;
  }

  /** The disk in the middle of a call that has not failed. */
  ghost predicate Underway(disk: Disk, p: Phase, d: Disk) {
    && !p.full && DATA_START < p.next <= TOTAL_BLOCKS
    && AllInRange(p.writes) && Apply(disk, p.writes) == d && d[0] == Superblock(p.next)
  }

  /** `d'` agrees with `d` on every sector but the superblock and `sector`. */
  ghost predicate SameBut(d: Disk, d': Disk, sector: nat) {
    forall s :: 0 < s < TOTAL_BLOCKS && s != sector ==> d'[s] == d[s]
  }

  lemma AllocUnderway(disk: Disk, p: Phase, d: Disk) returns (q: Phase, d': Disk)
    requires Underway(disk, p, d) && !Alloc(p).full
    ensures q == Alloc(p) && q.next == p.next + 1 && p.next < TOTAL_BLOCKS
    ensures Underway(disk, q, d') && SameBut(d, d', 0)
  {
    var w := Write(0, Superblock(p.next + 1));
    ApplySnoc(disk, p.writes, w);
    q, d' := Alloc(p), WriteTo(d, 0, w.content);
  }

  lemma PutUnderway(disk: Disk, p: Phase, d: Disk, sector: nat, content: Sector) returns (q: Phase, d': Disk)
    requires Underway(disk, p, d) && DATA_START <= sector < TOTAL_BLOCKS
    ensures q == Put(p, sector, content) && q.next == p.next
    ensures Underway(disk, q, d') && SameBut(d, d', sector) && d'[sector] == content
  {
    ApplySnoc(disk, p.writes, Write(sector, content));
    q, d' := Put(p, sector, content), WriteTo(d, sector, content);
  }

  lemma MetaUnderway(disk: Disk, p: Phase, d: Disk, r: Request) returns (q: Phase, d': Disk)
    requires Underway(disk, p, d) && Proper(r) && !MetaPhase(p, r).full
    ensures q == MetaPhase(p, r) && Underway(disk, q, d')
    ensures q.next == if r.meta.Some? then p.next + 1 else p.next
    ensures r.meta.Some? ==> d'[p.next] == Pad(r.meta.value)
  {
    q, d' := p, d;
    if r.meta.Some? {
      q, d' := AllocUnderway(disk, p, d);
      q, d' := PutUnderway(disk, q, d', p.next, Pad(r.meta.value));
    }
  }

  lemma ThreeAllocs(disk: Disk, p: Phase, d: Disk) returns (q: Phase, d': Disk)
    requires Underway(disk, p, d) && !Alloc(Alloc(Alloc(p))).full
    ensures q == Alloc(Alloc(Alloc(p))) && q.next == p.next + 3
    ensures Underway(disk, q, d') && SameBut(d, d', 0)
  {
    q, d' := AllocUnderway(disk, p, d);
    q, d' := AllocUnderway(disk, q, d');
    q, d' := AllocUnderway(disk, q, d');
  }

  lemma VectorUnderway(disk: Disk, p: Phase, d: Disk, r: Request) returns (q: Phase, d': Disk)
    requires Underway(disk, p, d) && Proper(r) && !VectorPhase(p, r).full
    ensures q == VectorPhase(p, r) && Underway(disk, q, d')
    ensures q.next == if r.vec.Some? then p.next + 3 else p.next
    ensures r.vec.Some? ==> VectorAt(d', p.next) == r.vec.value
    ensures forall s :: 0 < s < p.next ==> d'[s] == d[s]
  {
    q, d' := p, d;
    if r.vec.Some? {
      var v, s := r.vec.value, p.next;
      var a: Sector, b: Sector, c: Sector := v[..512], v[512..1024], v[1024..];
      q, d' := ThreeAllocs(disk, p, d);
      q, d' := PutThree(disk, q, d', s, a, b, c);
      JoinVector(d', s, v);
    }
  }

  lemma JoinVector(d: Disk, s: nat, v: seq<Byte>)
    requires |v| == 3 * SECTOR_SIZE && s + 2 < TOTAL_BLOCKS
    requires d[s] == v[..512] && d[s + 1] == v[512..1024] && d[s + 2] == v[1024..]
    ensures VectorAt(d, s) == v
  {
    assert v[..512] + v[512..1024] + v[1024..] == v;
  }

  lemma PutThree(disk: Disk, p: Phase, d: Disk, s: nat, a: Sector, b: Sector, c: Sector) returns (q: Phase, d': Disk)
    requires Underway(disk, p, d) && DATA_START <= s && s + 2 < TOTAL_BLOCKS
    ensures q == Put(Put(Put(p, s, a), s + 1, b), s + 2, c) && q.next == p.next && Underway(disk, q, d')
    ensures d'[s] == a && d'[s + 1] == b && d'[s + 2] == c
    ensures forall t :: 0 < t < s ==> d'[t] == d[t]
  {
    q, d' := PutUnderway(disk, p, d, s, a);
    q, d' := PutUnderway(disk, q, d', s + 1, b);
    q, d' := PutUnderway(disk, q, d', s + 2, c);
  }

  /** The blob that a request asks for. */
  function Wanted(r: Request): Blob
    requires Proper(r)
  {
    Blob(r.data, if r.meta.None? then None else Some(Pad(r.meta.value)), r.vec)
  }

  /** Before the index write the new entry already describes the blob on disk,
      in sectors from the old frontier up to the new one. */
  lemma DataPhaseReady(disk: Disk, next: nat, r: Request) returns (d: Disk)
    requires Proper(r) && |r.data| <= SECTOR_SIZE && DATA_START <= next
    requires !DataPhase(next, r).full
    ensures var p := DataPhase(next, r); AllInRange(p.writes) && d == Apply(disk, p.writes)
    ensures var p, e := DataPhase(next, r), NewEntry(next, r);
            && p.next <= TOTAL_BLOCKS && Frontier(d) == p.next
            && Encodable(e) && GoodEntry(e, p.next) && PartsApart(e) && (forall s :: Owns(e, s) ==> next <= s)
            && BlobOf(d, e) == Wanted(r)
  {
    NotFull(next, r);
    var p, d1 := FirstAlloc(disk, next);
    var p2, d2 := MetaUnderway(disk, p, d1, r);
    var p3, d3 := VectorUnderway(disk, p2, d2, r);
    var p4, d4 := PutUnderway(disk, p3, d3, next, Pad(r.data));
    d := d4;
    FrontierIs(d, p4.next);
    EntryReady(d3, d, next, p2.next, p4.next, r);
  }

  /** A call that ends without a failed allocation had none on the way. */
  lemma NotFull(next: nat, r: Request)
    requires Proper(r) && |r.data| <= SECTOR_SIZE && !DataPhase(next, r).full
    ensures var p1 := Alloc(Phase([], next, false));
            !p1.full && !MetaPhase(p1, r).full && !VectorPhase(MetaPhase(p1, r), r).full
  {
  }

  lemma FrontierIs(d: Disk, p: nat)
    requires d[0] == Superblock(p) && p <= TOTAL_BLOCKS
    ensures Frontier(d) == p
  {
    SuperblockReads(p);
  }

  /** The blob under the new entry, from what each part wrote. */
  lemma EntryReady(d3: Disk, d: Disk, next: nat, vecAt: nat, end: nat, r: Request)
    requires Proper(r) && |r.data| <= SECTOR_SIZE && DATA_START <= next && end <= TOTAL_BLOCKS
    requires vecAt == next + 1 + (if r.meta.Some? then 1 else 0)
    requires end == vecAt + (if r.vec.Some? then 3 else 0)
    requires SameBut(d3, d, next) && d[next] == Pad(r.data)
    requires r.meta.Some? ==> d3[next + 1] == Pad(r.meta.value)
    requires r.vec.Some? ==> VectorAt(d3, vecAt) == r.vec.value
    ensures var e := NewEntry(next, r);
            && Encodable(e) && GoodEntry(e, end) && PartsApart(e) && (forall s :: Owns(e, s) ==> next <= s)
            && BlobOf(d, e) == Wanted(r)
  {
    var e := NewEntry(next, r);
    if r.vec.Some? { assert VectorAt(d, e.vec) == VectorAt(d3, vecAt); }
    assert Pad(r.data)[..|r.data|] == r.data;
  }

  lemma FirstAlloc(disk: Disk, next: nat) returns (p: Phase, d: Disk)
    requires DATA_START <= next && !Alloc(Phase([], next, false)).full
    ensures p == Alloc(Phase([], next, false)) && p.next == next + 1 && Underway(disk, p, d)
  {
    var w := Write(0, Superblock(next + 1));
    ApplySnoc(disk, [], w);
    p, d := Alloc(Phase([], next, false)), WriteTo(disk, 0, w.content);
    assert p.writes == [] + [w];
  }

  // ----------------------------------------------------- one whole call

  lemma RoomForEntry(next: nat, r: Request)
    requires Proper(r) && |r.data| <= SECTOR_SIZE && !DataPhase(next, r).full
    ensures next < TOTAL_BLOCKS && Encodable(NewEntry(next, r))
  {
  }

  function IndexWrite(disk: Disk, f: nat, e: Entry): Write
    requires f < SLOTS && Encodable(e)
  {
    var i := INDEX_START + f / ENTRIES_PER_SECTOR;
    Write(i, PutEntry(disk[i], f % ENTRIES_PER_SECTOR, e))
  }

  /** The index write computed from `disk` is an entry update of `d`, when `d` has
      the same index sector. */
  lemma IndexWriteIsPut(disk: Disk, d: Disk, f: nat, e: Entry)
    requires f < SLOTS && Encodable(e)
    requires var i := INDEX_START + f / ENTRIES_PER_SECTOR; d[i] == disk[i]
    ensures var w := IndexWrite(disk, f, e);
            w.sector < DATA_START && WriteTo(d, w.sector, w.content) == PutSlot(d, f, e)
  {
  }

  /** All the sector writes of one `store_full`, in order, and its outcome. */
  function StorePlan(disk: Disk, next: nat, r: Request): Plan
    requires Proper(r)
  {
    if FindSlot(disk, r.hash, 0) < SLOTS then Plan([], next, Ok(()))
    else if SECTOR_SIZE < |r.data| then Plan([], next, Err(TooLarge))
    else
      var p := DataPhase(next, r);
      if p.full then Plan(p.writes, p.next, Err(DiskFull))
      else
        var f := FreeSlot(disk, 0);
        if f == SLOTS then Plan(p.writes, p.next, Err(IndexFull))
        else
          RoomForEntry(next, r);
          Plan(p.writes + [IndexWrite(disk, f, NewEntry(next, r))], p.next, Ok(()))
  }

  /** The plan's last write is the index write. */
  predicate Adds(disk: Disk, next: nat, r: Request)
    requires Proper(r)
  {
    FindSlot(disk, r.hash, 0) == SLOTS && StorePlan(disk, next, r).result.Ok?
  }

  /** What the store holds under `h` after the first `k` writes of a call: the
      new blob once all of them are done, else what it held before. */
  ghost predicate HoldsAfter(disk: Disk, next: nat, r: Request, k: nat, d: Disk, h: seq<Byte>)
    requires Proper(r) && WellStored(disk, TOTAL_BLOCKS) && WellStored(d, TOTAL_BLOCKS)
  {
    Stored(d, h) ==
    if Adds(disk, next, r) && k == |StorePlan(disk, next, r).writes| && h == r.hash then Some(Wanted(r))
    else Stored(disk, h)
  }

  /** A crash between any two sector writes, or after the last: the disk is a
      store again, nothing stored is lost or altered, and the new blob is there
      exactly when every write was made. */
  lemma CrashAnywhere(disk: Disk, next: nat, r: Request, k: nat) returns (d: Disk)
    requires Mounted(disk, next) && Proper(r) && k <= |StorePlan(disk, next, r).writes|
    ensures var ws := StorePlan(disk, next, r).writes; AllInRange(ws[..k]) && d == Apply(disk, ws[..k])
    ensures WellStored(d, Frontier(d)) && Frontier(disk) <= Frontier(d)
    ensures WellStored(disk, TOTAL_BLOCKS) && WellStored(d, TOTAL_BLOCKS)
    ensures forall h :: HoldsAfter(disk, next, r, k, d, h)
  {
    hide DataPhase, FindSlot, FreeSlot, IndexWrite, Superblock, FreshWrite;
    var ws := StorePlan(disk, next, r).writes;
    MoreRoom(disk, Frontier(disk), TOTAL_BLOCKS);
    if ws == [] {
      d := disk;
    } else if Adds(disk, next, r) && k == |ws| {
      d := IndexWriteLast(disk, next, r);
      assert ws[..k] == ws;
    } else {
      EarlyWrites(disk, next, r, k);
      d := CrashEarly(disk, next, ws[..k]);
    }
  }

  /** Before its last write a call has made fresh writes only. */
  lemma EarlyWrites(disk: Disk, next: nat, r: Request, k: nat)
    requires Mounted(disk, next) && Proper(r)
    requires var ws := StorePlan(disk, next, r).writes; 0 < |ws| && k <= |ws| && !(Adds(disk, next, r) && k == |ws|)
    ensures var early := StorePlan(disk, next, r).writes[..k];
            forall i :: 0 <= i < |early| ==> FreshWrite(early[i], Frontier(disk))
  {
    DataPhaseFresh(next, r, Frontier(disk));
    PlanShape(disk, next, r);
    PrefixFresh(DataPhase(next, r).writes, StorePlan(disk, next, r).writes, k, Frontier(disk));
  }

  lemma PlanShape(disk: Disk, next: nat, r: Request)
    requires Proper(r) && StorePlan(disk, next, r).writes != []
    ensures |r.data| <= SECTOR_SIZE && FindSlot(disk, r.hash, 0) == SLOTS
    ensures var p, ws := DataPhase(next, r), StorePlan(disk, next, r).writes;
            p.writes <= ws && |ws| == |p.writes| + if Adds(disk, next, r) then 1 else 0
  {
    var p, ws := DataPhase(next, r), StorePlan(disk, next, r).writes;
    assert p.writes == ws || p.writes == ws[..|p.writes|];
  }

  lemma PrefixFresh(early: seq<Write>, ws: seq<Write>, k: nat, base: nat)
    requires early <= ws && k <= |early|
    requires forall i :: 0 <= i < |early| ==> FreshWrite(early[i], base)
    ensures forall i :: 0 <= i < |ws[..k]| ==> FreshWrite(ws[..k][i], base)
  {
    forall i | 0 <= i < k ensures FreshWrite(ws[..k][i], base) {
      assert ws[i] == early[i];
    }
  }

  lemma CrashEarly(disk: Disk, next: nat, ws: seq<Write>) returns (d: Disk)
    requires Mounted(disk, next)
    requires forall i :: 0 <= i < |ws| ==> FreshWrite(ws[i], Frontier(disk))
    ensures AllInRange(ws) && d == Apply(disk, ws)
    ensures WellStored(d, Frontier(d)) && Frontier(disk) <= Frontier(d)
    ensures WellStored(disk, TOTAL_BLOCKS) && WellStored(d, TOTAL_BLOCKS)
    ensures forall h :: Stored(d, h) == Stored(disk, h)
  {
    var base := Frontier(disk);
    FreshWrites(disk, ws, base);
    d := Apply(disk, ws);
    FreshKeepsStore(disk, d, base);
    MoreRoom(d, base, Frontier(d));
  }

  lemma IndexWriteLast(disk: Disk, next: nat, r: Request) returns (d: Disk)
    requires Mounted(disk, next) && Proper(r) && Adds(disk, next, r)
    ensures var ws := StorePlan(disk, next, r).writes; ws != [] && AllInRange(ws) && d == Apply(disk, ws)
    ensures WellStored(d, Frontier(d)) && Frontier(d) == StorePlan(disk, next, r).next
    ensures Frontier(disk) <= Frontier(d)
    ensures WellStored(disk, TOTAL_BLOCKS) && WellStored(d, TOTAL_BLOCKS)
    ensures forall h :: Stored(d, h) == if h == r.hash then Some(Wanted(r)) else Stored(disk, h)
  {
    hide DataPhase, WellStored, Stored, EntryIn, PutEntry, Superblock, FindSlot, FreeSlot, Owns, PartsApart;
    var base, p, e, f := Frontier(disk), DataPhase(next, r), NewEntry(next, r), FreeSlot(disk, 0);
    AddPlan(disk, next, r);
    var d1 := BeforeIndexWrite(disk, next, r);
    SameFind(disk, d1, r.hash, 0);
    assert SlotAt(d1, f) == SlotAt(disk, f);
    IndexWriteAdds(d1, base, p.next, f, e);
    d := PutSlot(d1, f, e);
    ApplySnoc(disk, p.writes, IndexWrite(disk, f, e));
    IndexWriteIsPut(disk, d1, f, e);
    assert Frontier(d) == Frontier(d1);
  }

  lemma AddPlan(disk: Disk, next: nat, r: Request)
    requires Proper(r) && Adds(disk, next, r)
    ensures |r.data| <= SECTOR_SIZE && !DataPhase(next, r).full && FreeSlot(disk, 0) < SLOTS
    ensures Encodable(NewEntry(next, r)) && StorePlan(disk, next, r).next == DataPhase(next, r).next
    ensures StorePlan(disk, next, r).writes ==
            DataPhase(next, r).writes + [IndexWrite(disk, FreeSlot(disk, 0), NewEntry(next, r))]
  {
    RoomForEntry(next, r);
  }

  /** The disk just before the index write: nothing stored has changed, and the
      new entry already describes its blob. */
  lemma BeforeIndexWrite(disk: Disk, next: nat, r: Request) returns (d: Disk)
    requires Mounted(disk, next) && Proper(r) && |r.data| <= SECTOR_SIZE && !DataPhase(next, r).full
    ensures var p, e := DataPhase(next, r), NewEntry(next, r);
            && AllInRange(p.writes) && d == Apply(disk, p.writes)
            && p.next <= TOTAL_BLOCKS && Frontier(disk) <= Frontier(d) == p.next
            && Encodable(e) && GoodEntry(e, p.next) && PartsApart(e) && (forall s :: Owns(e, s) ==> Frontier(disk) <= s)
            && BlobOf(d, e) == Wanted(r)
    ensures WellStored(d, Frontier(disk)) && WellStored(d, TOTAL_BLOCKS) && WellStored(disk, TOTAL_BLOCKS)
    ensures forall n: nat :: n < SLOTS ==> SlotAt(d, n) == SlotAt(disk, n)
    ensures forall n: nat :: n < SLOTS ==>
              d[INDEX_START + n / ENTRIES_PER_SECTOR] == disk[INDEX_START + n / ENTRIES_PER_SECTOR]
    ensures forall h :: Stored(d, h) == Stored(disk, h)
  {
    hide DataPhase;
    var base, p := Frontier(disk), DataPhase(next, r);
    DataPhaseFresh(next, r, base);
    FreshWrites(disk, p.writes, base);
    d := DataPhaseReady(disk, next, r);
    FreshKeepsStore(disk, d, base);
  }

  // ------------------------------------ the counter follows the frontier

  /** The counter is the persisted frontier, or has run past a full disk. */
  predicate Follows(d: Disk, next: nat) {
    DATA_START <= Frontier(d) <= TOTAL_BLOCKS && (next == Frontier(d) || (Frontier(d) == TOTAL_BLOCKS < next))
  }

  ghost predicate PhaseFollows(disk: Disk, p: Phase) {
    AllInRange(p.writes) && Follows(Apply(disk, p.writes), p.next)
  }

  lemma AllocFollows(disk: Disk, p: Phase)
    requires PhaseFollows(disk, p)
    ensures PhaseFollows(disk, Alloc(p))
  {
    hide Superblock, Frontier, Apply, AllInRange;
    if !p.full && p.next < TOTAL_BLOCKS {
      ApplySnoc(disk, p.writes, Write(0, Superblock(p.next + 1)));
      FrontierIs(Apply(disk, Alloc(p).writes), p.next + 1);
    }
  }

  lemma PutFollows(disk: Disk, p: Phase, sector: nat, content: Sector)
    requires PhaseFollows(disk, p) && (!p.full ==> DATA_START <= sector < TOTAL_BLOCKS)
    ensures PhaseFollows(disk, Put(p, sector, content))
  {
    if !p.full {
      ApplySnoc(disk, p.writes, Write(sector, content));
    }
  }

  lemma FollowsFrom(disk: Disk, p: Phase)
    requires PhaseFollows(disk, p)
    ensures DATA_START <= p.next
  {
  }

  lemma MetaFollows(disk: Disk, p: Phase, r: Request)
    requires PhaseFollows(disk, p) && Proper(r)
    ensures PhaseFollows(disk, MetaPhase(p, r))
  {
    hide PhaseFollows, Superblock, Pad;
    if r.meta.Some? {
      FollowsFrom(disk, p);
      AllocFollows(disk, p);
      PutFollows(disk, Alloc(p), p.next, Pad(r.meta.value));
    }
  }

  lemma ThreeAllocsFollow(disk: Disk, p: Phase) returns (q: Phase)
    requires PhaseFollows(disk, p)
    ensures q == Alloc(Alloc(Alloc(p))) && PhaseFollows(disk, q)
    ensures !q.full ==> DATA_START <= p.next && p.next + 2 < TOTAL_BLOCKS
  {
    hide PhaseFollows, Superblock;
    FollowsFrom(disk, p);
    AllocFollows(disk, p);
    AllocFollows(disk, Alloc(p));
    AllocFollows(disk, Alloc(Alloc(p)));
    q := Alloc(Alloc(Alloc(p)));
  }

  lemma PutThreeFollow(disk: Disk, p: Phase, s: nat, a: Sector, b: Sector, c: Sector)
    requires PhaseFollows(disk, p) && (!p.full ==> DATA_START <= s && s + 2 < TOTAL_BLOCKS)
    ensures PhaseFollows(disk, Put(Put(Put(p, s, a), s + 1, b), s + 2, c))
  {
    hide PhaseFollows;
    PutFollows(disk, p, s, a);
    PutFollows(disk, Put(p, s, a), s + 1, b);
    PutFollows(disk, Put(Put(p, s, a), s + 1, b), s + 2, c);
  }

  lemma VectorFollows(disk: Disk, p: Phase, r: Request)
    requires PhaseFollows(disk, p) && Proper(r)
    ensures PhaseFollows(disk, VectorPhase(p, r))
  {
    hide Alloc, Put, PhaseFollows;
    if r.vec.Some? {
      var v := r.vec.value;
      var q := ThreeAllocsFollow(disk, p);
      PutThreeFollow(disk, q, p.next, v[..512], v[512..1024], v[1024..]);
    }
  }

  lemma DataPhaseFollows(disk: Disk, next: nat, r: Request)
    requires Follows(disk, next) && Proper(r) && |r.data| <= SECTOR_SIZE
    ensures PhaseFollows(disk, DataPhase(next, r))
  {
    var p0 := Phase([], next, false);
    AllocFollows(disk, p0);
    var p1 := Alloc(p0);
    MetaFollows(disk, p1, r);
    var p2 := MetaPhase(p1, r);
    VectorFollows(disk, p2, r);
    PutFollows(disk, VectorPhase(p2, r), next, Pad(r.data));
  }

  /** A call that was not interrupted leaves the store mounted. */
  lemma CallStaysMounted(disk: Disk, next: nat, r: Request) returns (d: Disk)
    requires Mounted(disk, next) && Proper(r)
    ensures var plan := StorePlan(disk, next, r);
            AllInRange(plan.writes) && d == Apply(disk, plan.writes) && Mounted(d, plan.next)
    ensures WellStored(disk, TOTAL_BLOCKS) && WellStored(d, TOTAL_BLOCKS)
    ensures forall h :: HoldsAfter(disk, next, r, |StorePlan(disk, next, r).writes|, d, h)
  {
    var plan := StorePlan(disk, next, r);
    assert plan.writes[..|plan.writes|] == plan.writes;
    d := CrashAnywhere(disk, next, r, |plan.writes|);
    PlanFollows(disk, next, r);
  }

  lemma PlanFollows(disk: Disk, next: nat, r: Request)
    requires Mounted(disk, next) && Proper(r)
    ensures var plan := StorePlan(disk, next, r);
            AllInRange(plan.writes) && Follows(Apply(disk, plan.writes), plan.next)
  {
    if Adds(disk, next, r) {
      var d := IndexWriteLast(disk, next, r);
    } else if FindSlot(disk, r.hash, 0) == SLOTS && |r.data| <= SECTOR_SIZE {
      DataPhaseFollows(disk, next, r);
    }
  }

  // --------------------------------------------------------------- init

  /** `init` on a machine that has just started. */
  function Init(disk: Disk): (Disk, nat) {
    if Formatted(disk) then
      var next := ReadU64(disk[0], 12);
      (disk, if DATA_START <= next < TOTAL_BLOCKS then next else DATA_START)
    else (WriteTo(disk, 0, Superblock(DATA_START)), DATA_START)
  }

  /** No entry is in use. */
  ghost predicate EmptyIndex(disk: Disk) {
    forall n: nat :: n < SLOTS ==> !InUse(disk, n)
  }

  /** Start-up after any crash mounts the store again with nothing changed,
      provided the disk was not yet full. */
  lemma InitMounts(disk: Disk)
    requires WellStored(disk, Frontier(disk)) && Frontier(disk) < TOTAL_BLOCKS
    ensures var (d, next) := Init(disk); Mounted(d, next) && WellStored(d, TOTAL_BLOCKS)
    ensures WellStored(disk, TOTAL_BLOCKS)
    ensures forall h :: Stored(Init(disk).0, h) == Stored(disk, h)
  {
    var (d, next) := Init(disk);
    MoreRoom(disk, Frontier(disk), TOTAL_BLOCKS);
    if !Formatted(disk) {
      assert OnlyFresh(disk, d, DATA_START);
      FreshKeepsStore(disk, d, DATA_START);
      FrontierIs(d, DATA_START);
    }
  }

  /** Whatever the superblock says, the allocator starts on a data sector of the disk:
      where the superblock says if that is one, else on the first. Only an
      unformatted disk is written to. */
  lemma InitInRange(disk: Disk)
    ensures var (d, next) := Init(disk);
            && 101 <= next < 20480
            && (Formatted(disk) ==> d == disk && (next == Frontier(disk) || next == 101))
            && (Formatted(disk) && 101 <= Frontier(disk) < 20480 ==> next == Frontier(disk))
            && (!Formatted(disk) ==> d == disk[0 := d[0]] && next == 101 == Frontier(d))
  {
    SuperblockReads(DATA_START);
  }

  /** `init` leaves the allocator above every stored sector exactly when the
      persisted frontier had not reached the end of the disk, or nothing is
      stored: at the end it starts over at the first data sector. */
  lemma InitSafeIff(disk: Disk)
    requires WellStored(disk, Frontier(disk))
    ensures (forall n: nat :: n < SLOTS && InUse(disk, n) ==> GoodEntry(SlotAt(disk, n), Init(disk).1)) <==>
            Frontier(disk) < TOTAL_BLOCKS || EmptyIndex(disk)
  {
    if Frontier(disk) == TOTAL_BLOCKS && !EmptyIndex(disk) {
      var n: nat :| n < SLOTS && InUse(disk, n);
      assert GoodEntry(SlotAt(disk, n), TOTAL_BLOCKS);
      assert Init(disk).1 == DATA_START;
      assert !GoodEntry(SlotAt(disk, n), DATA_START);
    }
  }
}
