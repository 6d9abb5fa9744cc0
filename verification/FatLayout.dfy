/** Where a FAT32 volume keeps its table and its clusters (kernel/src/fs/fat32.rs:
    99-131): 28-bit little-endian entries, 128 to a sector. */
module FatLayout {
  import opened Arithmetic
  import opened Bytes
  import opened FatChains

  const MOD28: nat := 0x1000_0000
  const ENTRIES: nat := 128

  datatype Geometry = Geometry(fatStart: nat, fatSectors: nat, dataStart: nat, perCluster: nat, total: nat)

  type Disk = seq<Sector>

  /** A well-formed boot sector: the table covers all clusters, comes before
      them, and both lie on the disk. */
  ghost predicate WellFormed(g: Geometry, sectors: nat) {
    && 0 < g.perCluster && 0 < g.total && g.total + 2 <= FAT_EOC_MIN && g.total + 2 <= g.fatSectors * ENTRIES
    && g.fatStart + g.fatSectors <= g.dataStart && g.dataStart + g.total * g.perCluster <= sectors
  }

  function EntryLba(g: Geometry, c: nat): nat {
    g.fatStart + c * 4 / SECTOR_SIZE
  }

  function EntryOffset(c: nat): nat {
    c * 4 % SECTOR_SIZE
  }

  /** No entry crosses a sector, and the table's entries are in the table's sectors. */
  lemma EntryPlace(g: Geometry, c: nat, sectors: nat)
    requires WellFormed(g, sectors) && c < g.total + 2
    ensures EntryOffset(c) + 4 <= SECTOR_SIZE
    ensures g.fatStart <= EntryLba(g, c) < g.fatStart + g.fatSectors <= sectors
  {
    assert c * 4 / SECTOR_SIZE == c / ENTRIES;
  }

  function ReadEntry(sec: Sector, off: nat): (v: nat)
    requires off + 4 <= SECTOR_SIZE
    ensures v < MOD28
  {
    FromLE(sec[off..off + 4]) % MOD28
  }

  function Splice(sec: Sector, off: nat, b: seq<Byte>): Sector
    requires off + |b| <= SECTOR_SIZE
  {
    sec[..off] + b + sec[off + |b|..]
  }

  function FatEntry(disk: Disk, g: Geometry, c: nat): (v: nat)
    requires WellFormed(g, |disk|) && c < g.total + 2
    ensures v < MOD28
  {
    EntryPlace(g, c, |disk|);
    ReadEntry(disk[EntryLba(g, c)], EntryOffset(c))
  }

  /** The table on the disk. */
  function FatOf(disk: Disk, g: Geometry): (fat: Fat)
    requires WellFormed(g, |disk|)
    ensures |fat| == g.total + 2
  {
    seq(g.total + 2, c requires 0 <= c < g.total + 2 => FatEntry(disk, g, c))
  }

  function PutEntry(disk: Disk, g: Geometry, c: nat, v: nat): (r: Disk)
    requires WellFormed(g, |disk|) && c < g.total + 2
    ensures |r| == |disk| && OnlyTable(disk, r, g)
  {
    EntryPlace(g, c, |disk|);
    var lba := EntryLba(g, c);
    disk[lba := Splice(disk[lba], EntryOffset(c), ToLE(v % MOD28, 4))]
  }

  lemma Low28(v: nat)
    requires v < MOD28
    ensures FromLE(ToLE(v, 4)) == v
  {
    assert Pow256(2) == 0x1_0000;
    assert Pow256(4) == 0x1_0000_0000;
    RoundTripLE(v, 4);
  }

  lemma EntriesApart(c: nat, d: nat)
    requires c != d && c * 4 / SECTOR_SIZE == d * 4 / SECTOR_SIZE
    ensures EntryOffset(c) + 4 <= EntryOffset(d) || EntryOffset(d) + 4 <= EntryOffset(c)
  {
  }

  /** A spliced field reads back; fields beside it read as before. */
  lemma SpliceReads(sec: Sector, off: nat, v: nat, at: nat)
    requires off + 4 <= SECTOR_SIZE && at + 4 <= SECTOR_SIZE && v < MOD28
    requires at == off || at + 4 <= off || off + 4 <= at
    ensures ReadEntry(Splice(sec, off, ToLE(v, 4)), at) == if at == off then v else ReadEntry(sec, at)
  {
    var sec' := Splice(sec, off, ToLE(v, 4));
    if at == off {
      assert sec'[at..at + 4] == ToLE(v, 4);
      Low28(v);
    } else {
      assert sec'[at..at + 4] == sec[at..at + 4];
    }
  }

  lemma PutEntryAt(disk: Disk, g: Geometry, c: nat, v: nat, d: nat)
    requires WellFormed(g, |disk|) && c < g.total + 2 && v < MOD28 && d < g.total + 2
    ensures FatEntry(PutEntry(disk, g, c, v), g, d) == if d == c then v else FatEntry(disk, g, d)
  {
    hide WellFormed, ReadEntry, Splice, ToLE;
    EntryPlace(g, c, |disk|);
    EntryPlace(g, d, |disk|);
    if EntryLba(g, d) == EntryLba(g, c) {
      if d != c { EntriesApart(c, d); }
      SpliceReads(disk[EntryLba(g, c)], EntryOffset(c), v, EntryOffset(d));
    }
  }

  /** Writing an entry changes that entry of the table and no other. */
  lemma PutEntryIs(disk: Disk, g: Geometry, c: nat, v: nat)
    requires WellFormed(g, |disk|) && c < g.total + 2 && v < MOD28
    ensures FatOf(PutEntry(disk, g, c, v), g) == FatOf(disk, g)[c := v]
  {
    hide WellFormed, FatEntry;
    var disk' := PutEntry(disk, g, c, v);
    hide PutEntry;
    forall d | 0 <= d < g.total + 2
      ensures FatEntry(disk', g, d) == if d == c then v else FatEntry(disk, g, d)
    {
      PutEntryAt(disk, g, c, v, d);
    }
  }

  /** The table does not see writes outside its sectors. */
  lemma FatFramed(disk: Disk, disk': Disk, g: Geometry)
    requires WellFormed(g, |disk|) && |disk'| == |disk|
    requires forall lba :: g.fatStart <= lba < g.fatStart + g.fatSectors ==> disk'[lba] == disk[lba]
    ensures FatOf(disk', g) == FatOf(disk, g)
  {
    forall c | 0 <= c < g.total + 2
      ensures FatEntry(disk', g, c) == FatEntry(disk, g, c)
    {
      EntryPlace(g, c, |disk|);
    }
  }

  /** Only sectors of the table differ. */
  predicate OnlyTable(disk: Disk, disk': Disk, g: Geometry) {
    |disk'| == |disk| &&
    forall lba :: 0 <= lba < |disk| && !(g.fatStart <= lba < g.fatStart + g.fatSectors) ==> disk'[lba] == disk[lba]
  }

  function ClusterLba(g: Geometry, c: nat): nat
    requires 2 <= c
  {
    g.dataStart + (c - 2) * g.perCluster
  }

  /** Different clusters share no sector. */
  lemma ClustersApart(g: Geometry, c: nat, d: nat)
    requires 2 <= c < d
    ensures ClusterLba(g, c) + g.perCluster <= ClusterLba(g, d)
  {
    Distribute(c - 2, d - c, g.perCluster);
    Distribute(1, d - c - 1, g.perCluster);
    Nonnegative(d - c - 1, g.perCluster);
  }

  /** A cluster's sectors are on the disk, behind the table. */
  lemma ClusterPlace(g: Geometry, c: nat, sectors: nat)
    requires WellFormed(g, sectors) && 2 <= c < g.total + 2
    ensures g.fatStart + g.fatSectors <= ClusterLba(g, c) && ClusterLba(g, c) + g.perCluster <= sectors
  {
    Nonnegative(c - 2, g.perCluster);
    ClustersApart(g, c, g.total + 2);
  }

  // ------------------------------------------------- the disk as one array

  /** Byte `a` of the disk, counted from its first sector. */
  function DiskByte(disk: Disk, a: nat): Byte
    requires a < SECTOR_SIZE * |disk|
  {
    disk[a / SECTOR_SIZE][a % SECTOR_SIZE]
  }

  /** Cluster 2 is the first behind the table, and each next one lies directly
      behind the one before. */
  lemma ClustersInOrder(g: Geometry, c: nat)
    requires 2 <= c
    ensures ClusterLba(g, 2) == g.dataStart && ClusterLba(g, c + 1) == ClusterLba(g, c) + g.perCluster
  {
    Distribute(c - 2, 1, g.perCluster);
  }

  lemma EntryAddress(g: Geometry, c: nat, k: nat)
    requires k < 4
    ensures var a := SECTOR_SIZE * g.fatStart + 4 * c + k;
            a / SECTOR_SIZE == EntryLba(g, c) && a % SECTOR_SIZE == EntryOffset(c) + k
  {
    assert 4 * c % SECTOR_SIZE == 4 * (c % ENTRIES);
  }

  /** Four bytes as a number, lowest first, without the four highest bits. */
  function Word28(b0: int, b1: int, b2: int, b3: int): int {
    b0 + 0x100 * b1 + 0x1_0000 * b2 + 0x100_0000 * (b3 % 16)
  }

  lemma Below28(b0: int, b1: int, b2: int, b3: int)
    requires 0 <= b0 < 256 && 0 <= b1 < 256 && 0 <= b2 < 256 && 0 <= b3 < 256
    ensures (b0 + 0x100 * b1 + 0x1_0000 * b2 + 0x100_0000 * b3) % MOD28 == Word28(b0, b1, b2, b3)
  {
    assert b3 == 16 * (b3 / 16) + b3 % 16;
  }

  lemma FourBytes(b: seq<Byte>)
    requires |b| == 4
    ensures FromLE(b) % MOD28 == Word28(b[0], b[1], b[2], b[3])
  {
    hide Word28;
    assert b[1..][1..] == b[2..] && b[2..][1..] == b[3..] && b[3..][1..] == [];
    Below28(b[0], b[1], b[2], b[3]);
    assert FromLE(b[3..]) == b[3];
    assert FromLE(b[2..]) == b[2] + 256 * FromLE(b[3..]);
    assert FromLE(b[1..]) == b[1] + 256 * FromLE(b[2..]);
  }

  /** Entry `c` of the table is the four bytes from byte `4 * c` of its region on. */
  lemma FatEntryIs(disk: Disk, g: Geometry, c: nat)
    requires WellFormed(g, |disk|) && c < g.total + 2
    ensures var a := SECTOR_SIZE * g.fatStart + 4 * c;
            && a + 3 < SECTOR_SIZE * |disk|
            && FatEntry(disk, g, c) == Word28(DiskByte(disk, a), DiskByte(disk, a + 1),
                                              DiskByte(disk, a + 2), DiskByte(disk, a + 3))
  {
    EntryPlace(g, c, |disk|);
    EntryAddress(g, c, 0);
    EntryAddress(g, c, 1);
    EntryAddress(g, c, 2);
    EntryAddress(g, c, 3);
    hide WellFormed, EntryLba, EntryOffset, FromLE;
    var sec, off := disk[EntryLba(g, c)], EntryOffset(c);
    FourBytes(sec[off..off + 4]);
  }
}
