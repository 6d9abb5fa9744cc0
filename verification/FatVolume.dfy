/** A mounted FAT32 volume (kernel/src/fs/fat32.rs:61-167): the disk behind a
    16-slot direct-mapped write-through cache, and the cluster operations. What
    every operation promises is said of the disk alone. */
module FatVolume {
  import opened Bytes
  import opened FatChains
  import opened FatLayout
  import opened FatPartition
  import opened Wrappers

  const CACHE_SLOTS: nat := 16

  class Fat32 {
    const ctag: array<Option<nat>>
    const cdata: array<Sector>
    const g: Geometry
    var disk: Disk
    var freeHint: nat

    /** A slot in use holds the sector of its tag, which belongs in that slot. */
    ghost predicate Coherent()
      reads this, ctag, cdata
    {
      && ctag.Length == CACHE_SLOTS && cdata.Length == CACHE_SLOTS
      && forall s :: 0 <= s < CACHE_SLOTS && ctag[s].Some? ==>
           var lba := ctag[s].value; lba < |disk| && lba % CACHE_SLOTS == s && cdata[s] == disk[lba]
    }

    ghost predicate Valid()
      reads this, ctag, cdata
    {
      Coherent() && WellFormed(g, |disk|) && 3 <= freeHint <= g.total + 2
    }

    ghost function Table(): Fat
      requires WellFormed(g, |disk|)
      reads this
    {
      FatOf(disk, g)
    }

    constructor (disk: Disk, g: Geometry)
      requires WellFormed(g, |disk|)
      ensures Valid() && fresh(ctag) && fresh(cdata) && this.disk == disk && this.g == g && freeHint == 3
    {
      ctag := new Option<nat>[CACHE_SLOTS](_ => None);
      cdata := new Sector[CACHE_SLOTS](_ => Zeros(SECTOR_SIZE));
      this.g, this.disk, freeHint := g, disk, 3;
    }

    // --------------------------------------------------------------- cache

    /** Reads through the cache; `s` is the slot the sector now occupies. */
    method Csec(lba: nat) returns (s: nat)
      requires Coherent() && lba < |disk|
      modifies ctag, cdata
      ensures Coherent() && s < CACHE_SLOTS == ctag.Length == cdata.Length && s == lba % CACHE_SLOTS
      ensures ctag[s] == Some(lba) && cdata[s] == disk[lba]
    {
      s := lba % CACHE_SLOTS;
      if ctag[s] != Some(lba) {
        cdata[s] := disk[lba];
        ctag[s] := Some(lba);
      }
    }

    /** Writes through the cache. What a short write leaves behind its end is
        whatever the slot held before. */
    method Wsec(lba: nat, data: seq<Byte>)
      requires Coherent() && lba < |disk|
      modifies this`disk, ctag, cdata
      ensures Coherent()
      ensures SECTOR_SIZE <= |data| ==> disk == old(disk)[lba := data[..SECTOR_SIZE]]
      ensures |data| < SECTOR_SIZE ==>
                var s := lba % CACHE_SLOTS;
                disk == old(disk)[lba := data + old(cdata[s])[|data|..]]
      ensures |data| < SECTOR_SIZE && old(ctag[lba % CACHE_SLOTS]) == Some(lba) ==>
                disk == old(disk)[lba := Splice(old(disk)[lba], 0, data)]
    {
      var s := lba % CACHE_SLOTS;
      var n := Min(|data|, SECTOR_SIZE);
      ghost var was := cdata[s];
      cdata[s] := data[..n] + cdata[s][n..];
      ctag[s] := Some(lba);
      disk := disk[lba := cdata[s]];
      assert if SECTOR_SIZE <= |data| then cdata[s] == data[..SECTOR_SIZE] else data[..n] == data;
      assert |data| < SECTOR_SIZE ==> Splice(was, 0, data) == data + was[|data|..];
    }

    method Cinval(lba: nat)
      requires ctag.Length == CACHE_SLOTS
      modifies ctag
      ensures forall s :: 0 <= s < CACHE_SLOTS ==>
                ctag[s] == if old(ctag[s]) == Some(lba) && s == lba % CACHE_SLOTS then None else old(ctag[s])
    {
      var s := lba % CACHE_SLOTS;
      if ctag[s] == Some(lba) { ctag[s] := None; }
    }

    /** Loads a sector, changes some bytes in its slot and writes the slot back. */
    method Patch(lba: nat, off: nat, b: seq<Byte>)
      requires Coherent() && lba < |disk| && off + |b| <= SECTOR_SIZE
      modifies this`disk, ctag, cdata
      ensures Coherent() && disk == old(disk)[lba := Splice(old(disk)[lba], off, b)]
    {
      var s := Csec(lba);
      cdata[s] := cdata[s][..off] + b + cdata[s][off + |b|..];
      ctag[s] := Some(lba);
      disk := disk[lba := cdata[s]];
    }

    /** Zeroes a sector behind the cache's back and drops its slot. */
    method ZeroSector(lba: nat)
      requires Coherent() && lba < |disk|
      modifies this`disk, ctag
      ensures Coherent() && disk == old(disk)[lba := Zeros(SECTOR_SIZE)]
    {
      disk := disk[lba := Zeros(SECTOR_SIZE)];
      Cinval(lba);
    }

    // --------------------------------------------------------------- table

    method FatGet(c: nat) returns (v: nat)
      requires Valid() && c < g.total + 2
      modifies ctag, cdata
      ensures Valid() && v == Table()[c] && v < MOD28
    {
      EntryPlace(g, c, |disk|);
      var s := Csec(g.fatStart + c * 4 / SECTOR_SIZE);
      var off := c * 4 % SECTOR_SIZE;
      v := FromLE(cdata[s][off..off + 4]) % MOD28;
      assert v == FatEntry(disk, g, c);
    }

    method FatPut(c: nat, v: nat)
      requires Valid() && c < g.total + 2 && v < MOD28
      modifies this`disk, ctag, cdata
      ensures Valid() && Table() == old(Table())[c := v] && OnlyTable(old(disk), disk, g)
    {
      hide FatOf, ToLE, WellFormed, Splice;
      EntryPlace(g, c, |disk|);
      PutEntryIs(disk, g, c, v);
      Patch(g.fatStart + c * 4 / SECTOR_SIZE, c * 4 % SECTOR_SIZE, ToLE(v, 4));
      assert disk == PutEntry(old(disk), g, c, v);
    }

    // ------------------------------------------------------------ clusters

    /** Takes free cluster `c`: marks it as an end of chain and zeroes its sectors. */
    method TakeCluster(c: nat)
      requires Valid() && 3 <= c < g.total + 2
      modifies this, ctag, cdata
      ensures Valid() && freeHint == c + 1 && Table() == old(Table())[c := FAT_EOC]
      ensures Zeroing(old(disk), disk, g, c, g.perCluster)
    {
      hide FatOf, WellFormed;
      FatPut(c, FAT_EOC);
      freeHint := c + 1;
      ClusterPlace(g, c, |disk|);
      var s := 0;
      while s < g.perCluster
        invariant 0 <= s <= g.perCluster && Valid() && freeHint == c + 1
        invariant Table() == old(Table())[c := FAT_EOC]
        invariant Zeroing(old(disk), disk, g, c, s)
      {
        ghost var was := disk;
        ZeroSector(ClusterLba(g, c) + s);
        FatFramed(was, disk, g);
        s := s + 1;
      }
    }

    method FindFrom(lo: nat, hi: nat) returns (c: nat)
      requires Valid() && lo <= hi <= g.total + 2
      modifies ctag, cdata
      ensures Valid() && c == FirstFree(Table(), lo, hi)
    {
      hide FatOf, WellFormed;
      c := lo;
      while c < hi
        invariant lo <= c <= hi && Valid()
        invariant FirstFree(Table(), c, hi) == FirstFree(Table(), lo, hi)
      {
        var v := FatGet(c);
        if v == FAT_FREE { return; }
        c := c + 1;
      }
    }

    /** The first free cluster from the hint on, else the first from 3 on; 0 when
        the volume is full. */
    method AllocCluster() returns (c: nat)
      requires Valid()
      modifies this, ctag, cdata
      ensures Valid()
      ensures match FindFree(old(Table()), old(freeHint))
              case None => c == 0 && disk == old(disk) && freeHint == old(freeHint)
              case Some(f) =>
                && c == f && 3 <= c < g.total + 2 && freeHint == c + 1
                && Table() == old(Table())[c := FAT_EOC] && Zeroing(old(disk), disk, g, c, g.perCluster)
    {
      hide FatOf, WellFormed, FirstFree, Zeroing;
      var start, end := freeHint, g.total + 2;
      c := FindFrom(start, end);
      if c == end {
        c := FindFrom(3, start);
        if c == start { return 0; }
      }
      TakeCluster(c);
    }

    /** Frees the chain from `start` on. It ends on every closed table. */
    method FreeChain(start: nat, low: nat)
      requires Valid() && Closed(Table()) && (start < g.total + 2 || IsEoc(start))
      modifies this`disk, ctag, cdata
      ensures Valid() && Table() == FreeFrom(old(Table()), start, low) && OnlyTable(old(disk), disk, g)
    {
      hide FatOf, WellFormed;
      var c: nat := start;
      while !IsEoc(c) && low <= c
        invariant Valid() && Closed(Table()) && (c < g.total + 2 || IsEoc(c)) && |disk| == old(|disk|)
        invariant FreeFrom(Table(), c, low) == FreeFrom(old(Table()), start, low)
        invariant OnlyTable(old(disk), disk, g)
        decreases CountUsed(Table()), if IsEoc(c) then 0 else 1
      {
        ghost var t := Table();
        var next := FatGet(c);
        FatPut(c, FAT_FREE);
        assert Table() == Clear(t, c);
        c := next;
      }
    }

    /** The cluster part of unlinking a file. */
    method UnlinkChain(start: nat)
      requires Valid() && Closed(Table()) && start < g.total + 2
      modifies this`disk, ctag, cdata
      ensures Valid() && Table() == FreeFrom(old(Table()), start, 2) && OnlyTable(old(disk), disk, g)
    {
      FreeChain(start, 2);
    }

    /** The cluster part of opening an existing file for writing. */
    method TruncateChain(start: nat)
      requires Valid() && Closed(Table()) && start < g.total + 2
      modifies this`disk, ctag, cdata
      ensures Valid() && OnlyTable(old(disk), disk, g)
      ensures Table() == FreeFrom(old(Table()), old(Table()[start]), 0)[start := FAT_EOC]
    {
      hide FatOf, WellFormed, FreeFrom;
      var c := FatGet(start);
      FreeChain(c, 0);
      FatPut(start, FAT_EOC);
    }

    /** Links cluster `c` behind the chain `cs` that begins at `start`. */
    method LinkTail(start: nat, c: nat, ghost cs: seq<nat>)
      requires Valid() && c < g.total + 2 && IsChain(Table(), cs) && cs[0] == start
      modifies this`disk, ctag, cdata
      ensures Valid() && OnlyTable(old(disk), disk, g)
      ensures Table() == old(Table())[Tail(old(Table()), start, cs) := c]
    {
      hide FatOf;
      var tail := start;
      ghost var rest := cs;
      TailStep(Table(), cs);
      var next := FatGet(tail);
      while !IsEoc(next)
        invariant Valid() && disk == old(disk) && IsChain(Table(), rest) && rest[0] == tail
        invariant tail < g.total + 2 && next == Table()[tail] && Tail(Table(), tail, rest) == Tail(Table(), start, cs)
        decreases |rest|
      {
        TailStep(Table(), rest);
        tail, rest := next, rest[1..];
        TailStep(Table(), rest);
        next := FatGet(tail);
      }
      FatPut(tail, c);
    }

    /** A write past the end of the chain: a new zeroed cluster is linked behind it.
        0 when the volume is full. */
    method ExtendChain(start: nat, ghost cs: seq<nat>) returns (c: nat)
      requires Valid() && IsChain(Table(), cs) && cs[0] == start
      modifies this, ctag, cdata
      ensures Valid()
      ensures c == 0 ==> disk == old(disk) && forall d :: 3 <= d < g.total + 2 ==> Table()[d] != FAT_FREE
      ensures c != 0 ==>
                && 3 <= c < g.total + 2 && old(Table())[c] == FAT_FREE && IsChain(Table(), cs + [c])
                && (forall d :: 0 <= d < g.total + 2 && d != c && d != cs[|cs| - 1] ==> Table()[d] == old(Table())[d])
                && Zeroing(old(disk), disk, g, c, g.perCluster)
    {
      hide FatOf, WellFormed, FirstFree, Tail, Zeroing, IsChain;
      ghost var fat, was := Table(), disk;
      FindFreeIff(fat, freeHint);
      c := AllocCluster();
      if c == 0 { return; }
      ghost var zeroed := disk;
      NewClusterIsApart(fat, cs, c);
      LinkTail(start, c, cs);
      ZeroingStays(was, zeroed, disk, g, c);
    }
  }

  /** A fresh cluster is not in the chain, and linking it makes the chain longer. */
  lemma NewClusterIsApart(fat: Fat, cs: seq<nat>, c: nat)
    requires IsChain(fat, cs) && 3 <= c < |fat| && fat[c] == FAT_FREE
    ensures IsChain(fat[c := FAT_EOC], cs) && cs[|cs| - 1] < |fat| && cs[|cs| - 1] != c
    ensures Tail(fat[c := FAT_EOC], cs[0], cs) == cs[|cs| - 1]
    ensures IsChain(fat[c := FAT_EOC][cs[|cs| - 1] := c], cs + [c])
  {
    var fat' := fat[c := FAT_EOC];
    forall i | 0 <= i < |cs|
      ensures cs[i] != c && fat'[cs[i]] == fat[cs[i]]
    {
      ChainUsed(fat, cs, cs[i]);
    }
    assert IsChain(fat', cs) && IsChain(fat', [c]);
    ChainDistinct(fat', cs);
    LinkedChain(fat', cs, c);
  }

  lemma ZeroingStays(disk: Disk, zeroed: Disk, disk': Disk, g: Geometry, c: nat)
    requires 2 <= c && Zeroing(disk, zeroed, g, c, g.perCluster) && OnlyTable(zeroed, disk', g)
    ensures Zeroing(disk, disk', g, c, g.perCluster)
  {
  }

  /** The first `n` sectors of cluster `c` are zero, and nothing else outside the
      table has changed. */
  predicate Zeroing(disk: Disk, disk': Disk, g: Geometry, c: nat, n: nat)
    requires 2 <= c
  {
    |disk'| == |disk| &&
    forall lba :: 0 <= lba < |disk| && !(g.fatStart <= lba < g.fatStart + g.fatSectors) ==>
      disk'[lba] ==
        if ClusterLba(g, c) <= lba < ClusterLba(g, c) + n then Zeros(SECTOR_SIZE) else disk[lba]
  }
}
