/** On-disk layout of the semantic store: little-endian fields, the superblock
    (semantic/src/block_manager.rs:19-26, 94-101) and the 64-byte index entries
    (semantic/src/store.rs:9-35). */
module StoreLayout {
  import opened Bytes

  const TOTAL_BLOCKS: nat := 20480
  const INDEX_START: nat := 1
  const INDEX_SECTORS: nat := 100
  const ENTRIES_PER_SECTOR: nat := 8
  const ENTRY_SIZE: nat := 64
  const SLOTS: nat := 800
  const DATA_START: nat := 101
  const MOD64: nat := 0x1_0000_0000_0000_0000

  type Disk = d: seq<Sector> | |d| == TOTAL_BLOCKS witness BlankDisk()

  function BlankDisk(): seq<Sector> {
    var blank: Sector := Zeros(SECTOR_SIZE);
    seq(TOTAL_BLOCKS, _ => blank)
  }

  lemma Pow256Of8()
    ensures Pow256(8) == MOD64
  {
    assert Pow256(2) == 0x1_0000;
    assert Pow256(4) == 0x1_0000_0000;
    assert Pow256(6) == 0x1_0000_0000_0000;
  }

  function ReadU64(b: seq<Byte>, off: nat): nat
    requires off + 8 <= |b|
  {
    FromLE(b[off..off + 8])
  }

  lemma RoundTripU64(n: nat)
    requires n < MOD64
    ensures FromLE(ToLE(n, 8)) == n
  {
    Pow256Of8();
    RoundTripLE(n, 8);
  }

  // --------------------------------------------------------- superblock

  const MAGIC: seq<Byte> := [65, 69, 71, 76, 79, 83, 1, 0]

  function Superblock(next: nat): Sector {
    MAGIC + ToLE(1, 4) + ToLE(next, 8) + Zeros(492)
  }

  predicate Formatted(disk: Disk) {
    disk[0][..8] == MAGIC
  }

  /** The persisted frontier of the allocator. */
  function Frontier(disk: Disk): nat {
    if Formatted(disk) then ReadU64(disk[0], 12) else DATA_START
  }

  lemma SuperblockReads(next: nat)
    requires next < MOD64
    ensures Superblock(next)[..8] == MAGIC
    ensures ReadU64(Superblock(next), 12) == next
  {
    var s := Superblock(next);
    assert s[12..20] == ToLE(next, 8);
    RoundTripU64(next);
  }

  /** The magic bytes, version 1, the frontier, and zeros. */
  lemma SuperblockFields(next: nat)
    requires next < MOD64
    ensures var s := Superblock(next);
            && s[..8] == [65, 69, 71, 76, 79, 83, 1, 0]
            && FromLE(s[8..12]) == 1 && FromLE(s[12..20]) == next && s[20..] == Zeros(492)
  {
    var s := Superblock(next);
    assert s[8..12] == ToLE(1, 4) && s[12..20] == ToLE(next, 8);
    assert Pow256(2) == 0x1_0000;
    RoundTripLE(1, 4);
    RoundTripU64(next);
  }

  // ------------------------------------------------------ index entries

  datatype Entry = Entry(hash: seq<Byte>, sector: nat, len: nat, meta: nat, vec: nat)

  predicate Encodable(e: Entry) {
    |e.hash| == 32 && e.sector < MOD64 && e.len < MOD64 && e.meta < MOD64 && e.vec < MOD64
  }

  function Encode(e: Entry): (b: seq<Byte>)
    requires Encodable(e)
    ensures |b| == ENTRY_SIZE
  {
    e.hash + ToLE(e.sector, 8) + ToLE(e.len, 8) + ToLE(e.meta, 8) + ToLE(e.vec, 8)
  }

  function Decode(b: seq<Byte>): Entry
    requires |b| == ENTRY_SIZE
  {
    Entry(b[..32], ReadU64(b, 32), ReadU64(b, 40), ReadU64(b, 48), ReadU64(b, 56))
  }

  /** The hash, then sector, length, metadata and vector sector, eight bytes each. */
  lemma EntryFields(e: Entry)
    requires Encodable(e)
    ensures var b := Encode(e);
            && b[..32] == e.hash
            && FromLE(b[32..40]) == e.sector && FromLE(b[40..48]) == e.len
            && FromLE(b[48..56]) == e.meta && FromLE(b[56..64]) == e.vec
  {
    var b := Encode(e);
    assert b[32..40] == ToLE(e.sector, 8);
    assert b[40..48] == ToLE(e.len, 8);
    assert b[48..56] == ToLE(e.meta, 8);
    assert b[56..64] == b[56..];
    assert b[56..] == ToLE(e.vec, 8);
    RoundTripU64(e.sector);
    RoundTripU64(e.len);
    RoundTripU64(e.meta);
    RoundTripU64(e.vec);
  }

  lemma EntryRoundTrip(e: Entry)
    requires Encodable(e)
    ensures Decode(Encode(e)) == e
  {
    EntryFields(e);
  }

  function EntryIn(s: Sector, j: nat): Entry
    requires j < ENTRIES_PER_SECTOR
  {
    Decode(s[ENTRY_SIZE * j..ENTRY_SIZE * j + ENTRY_SIZE])
  }

  function PutEntry(s: Sector, j: nat, e: Entry): Sector
    requires j < ENTRIES_PER_SECTOR && Encodable(e)
  {
    s[..ENTRY_SIZE * j] + Encode(e) + s[ENTRY_SIZE * j + ENTRY_SIZE..]
  }

  /** Writing one entry of an index sector leaves the other seven alone. */
  lemma PutEntryReads(s: Sector, j: nat, e: Entry, k: nat)
    requires j < ENTRIES_PER_SECTOR && k < ENTRIES_PER_SECTOR && Encodable(e)
    ensures EntryIn(PutEntry(s, j, e), k) == if k == j then e else EntryIn(s, k)
  {
    var s' := PutEntry(s, j, e);
    var off := ENTRY_SIZE * k;
    if k == j {
      assert s'[off..off + ENTRY_SIZE] == Encode(e);
      EntryRoundTrip(e);
    } else {
      assert s'[off..off + ENTRY_SIZE] == s[off..off + ENTRY_SIZE];
    }
  }

  // -------------------------------------------------------- index slots

  /** Entry `n` of the 800 in the index region. */
  function SlotAt(disk: Disk, n: nat): Entry
    requires n < SLOTS
  {
    EntryIn(disk[INDEX_START + n / ENTRIES_PER_SECTOR], n % ENTRIES_PER_SECTOR)
  }

  /** Sector 0 is never data, so a zero sector marks a free entry. */
  predicate InUse(disk: Disk, n: nat)
    requires n < SLOTS
  {
    SlotAt(disk, n).sector != 0
  }

  function PutSlot(disk: Disk, n: nat, e: Entry): Disk
    requires n < SLOTS && Encodable(e)
  {
    var i := INDEX_START + n / ENTRIES_PER_SECTOR;
    disk[i := PutEntry(disk[i], n % ENTRIES_PER_SECTOR, e)]
  }

  lemma PutSlotReads(disk: Disk, n: nat, e: Entry, m: nat)
    requires n < SLOTS && m < SLOTS && Encodable(e)
    ensures SlotAt(PutSlot(disk, n, e), m) == if m == n then e else SlotAt(disk, m)
  {
    var i, k := INDEX_START + n / ENTRIES_PER_SECTOR, INDEX_START + m / ENTRIES_PER_SECTOR;
    if i == k {
      PutEntryReads(disk[i], n % ENTRIES_PER_SECTOR, e, m % ENTRIES_PER_SECTOR);
    }
  }

  /** A write outside the index region changes no entry. */
  lemma OtherWriteKeepsSlots(disk: Disk, sector: nat, content: Sector, n: nat)
    requires sector < TOTAL_BLOCKS && n < SLOTS
    requires sector == 0 || DATA_START <= sector
    ensures SlotAt(disk[sector := content], n) == SlotAt(disk, n)
  {
  }

  /** The three sectors of a vector. */
  function VectorAt(disk: Disk, v: nat): seq<Byte>
    requires v + 2 < TOTAL_BLOCKS
  {
    var a: seq<Byte>, b: seq<Byte>, c: seq<Byte> := disk[v], disk[v + 1], disk[v + 2];
    a + b + c
  }
}
