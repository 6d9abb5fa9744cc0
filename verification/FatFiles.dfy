/** Reading and seeking an open file (kernel/src/fs/fat32.rs:171-190, 656-696,
    793-822), against the file's contents: its clusters, one after the other. */
module FatFiles {
  import opened Arithmetic
  import opened Bytes
  import opened FatChains
  import opened FatCursor
  import opened FatLayout
  import opened FatVolume
  import opened Wrappers

  function ClusterSize(g: Geometry): nat {
    g.perCluster * SECTOR_SIZE
  }

  ghost predicate InData(g: Geometry, cs: seq<nat>) {
    forall i :: 0 <= i < |cs| ==> 2 <= cs[i] < g.total + 2
  }

  /** Byte `q` of cluster `c`. */
  function ClusterByte(disk: Disk, g: Geometry, c: nat, q: nat): Byte
    requires WellFormed(g, |disk|) && 2 <= c < g.total + 2 && q < ClusterSize(g)
  {
    ClusterPlace(g, c, |disk|);
    disk[ClusterLba(g, c) + q / SECTOR_SIZE][q % SECTOR_SIZE]
  }

  function ClusterBytes(disk: Disk, g: Geometry, c: nat): (s: seq<Byte>)
    requires WellFormed(g, |disk|) && 2 <= c < g.total + 2
    ensures |s| == ClusterSize(g)
  {
    seq(ClusterSize(g), q requires 0 <= q < ClusterSize(g) => ClusterByte(disk, g, c, q))
  }

  /** The clusters of `cs`, one after the other. */
  function Contents(disk: Disk, g: Geometry, cs: seq<nat>): (s: seq<Byte>)
    requires WellFormed(g, |disk|) && InData(g, cs)
    ensures |s| == Base(|cs|, ClusterSize(g))
    decreases |cs|
  {
    if cs == [] then []
    else
      Distribute(|cs| - 1, 1, ClusterSize(g));
      Contents(disk, g, cs[..|cs| - 1]) + ClusterBytes(disk, g, cs[|cs| - 1])
  }

  /** Each byte of the contents is in the cluster its position falls in. */
  lemma {:induction false} ContentsAt(disk: Disk, g: Geometry, cs: seq<nat>, i: nat, q: nat)
    requires WellFormed(g, |disk|) && InData(g, cs) && i < |cs| && q < ClusterSize(g)
    ensures Base(i, ClusterSize(g)) + q < Base(|cs|, ClusterSize(g))
    ensures Contents(disk, g, cs)[Base(i, ClusterSize(g)) + q] == ClusterByte(disk, g, cs[i], q)
    decreases |cs|
  {
    var cb := ClusterSize(g);
    Distribute(|cs| - 1, 1, cb);
    if i < |cs| - 1 {
      ContentsAt(disk, g, cs[..|cs| - 1], i, q);
    }
  }

  /** On the disk as one array: byte `q` of the `i`th cluster of a file lies `q` bytes
      into cluster number `cs[i]`, and clusters lie one behind the other from the first
      data sector on, beginning with number 2. */
  lemma ContentsOnDisk(disk: Disk, g: Geometry, cs: seq<nat>, i: nat, q: nat)
    requires WellFormed(g, |disk|) && InData(g, cs) && i < |cs| && q < ClusterSize(g)
    ensures var cb := ClusterSize(g);
            var a := SECTOR_SIZE * g.dataStart + (cs[i] - 2) * cb + q;
            && 0 <= a < SECTOR_SIZE * |disk| && i * cb + q < |Contents(disk, g, cs)|
            && Contents(disk, g, cs)[i * cb + q] == DiskByte(disk, a)
  {
    hide Contents, WellFormed;
    var c := cs[i];
    ContentsAt(disk, g, cs, i, q);
    ClusterPlace(g, c, |disk|);
    SectorRoom(g.perCluster, q);
    ClusterAddress(g, c, q);
  }

  lemma ClusterAddress(g: Geometry, c: nat, q: nat)
    requires 2 <= c
    ensures var a := SECTOR_SIZE * g.dataStart + (c - 2) * ClusterSize(g) + q;
            && a / SECTOR_SIZE == ClusterLba(g, c) + q / SECTOR_SIZE && a % SECTOR_SIZE == q % SECTOR_SIZE
  {
    var sectors := (c - 2) * g.perCluster;
    assert (c - 2) * ClusterSize(g) == SECTOR_SIZE * sectors;
  }

  /** A stretch of one sector is a stretch of the contents. */
  lemma ChunkIs(disk: Disk, g: Geometry, cs: seq<nat>, i: nat, q: nat, n: nat)
    requires WellFormed(g, |disk|) && InData(g, cs) && i < |cs| && q < ClusterSize(g)
    requires q % SECTOR_SIZE + n <= SECTOR_SIZE
    ensures q + n <= ClusterSize(g) && Base(i, ClusterSize(g)) + q + n <= Base(|cs|, ClusterSize(g))
    ensures ClusterLba(g, cs[i]) + q / SECTOR_SIZE < |disk|
    ensures var p := Base(i, ClusterSize(g)) + q;
            Contents(disk, g, cs)[p..p + n] ==
              disk[ClusterLba(g, cs[i]) + q / SECTOR_SIZE][q % SECTOR_SIZE..q % SECTOR_SIZE + n]
  {
    hide Contents, WellFormed, ClusterSize, ClusterLba, Base;
    ChunkFits(disk, g, cs, i, q, n);
    var p, off := Base(i, ClusterSize(g)) + q, q % SECTOR_SIZE;
    var here := Contents(disk, g, cs)[p..p + n];
    var there := disk[ClusterLba(g, cs[i]) + q / SECTOR_SIZE][off..off + n];
    forall k | 0 <= k < n
      ensures here[k] == there[k]
    {
      ByteIs(disk, g, cs, i, q, k);
    }
  }

  lemma ChunkFits(disk: Disk, g: Geometry, cs: seq<nat>, i: nat, q: nat, n: nat)
    requires WellFormed(g, |disk|) && InData(g, cs) && i < |cs| && q < ClusterSize(g)
    requires q % SECTOR_SIZE + n <= SECTOR_SIZE
    ensures q + n <= ClusterSize(g) && Base(i, ClusterSize(g)) + q + n <= Base(|cs|, ClusterSize(g))
    ensures ClusterLba(g, cs[i]) + q / SECTOR_SIZE < |disk|
  {
    hide Contents, WellFormed, ClusterLba, Base;
    ClusterPlace(g, cs[i], |disk|);
    SectorRoom(g.perCluster, q);
    ContentsAt(disk, g, cs, i, ClusterSize(g) - 1);
  }

  lemma ByteIs(disk: Disk, g: Geometry, cs: seq<nat>, i: nat, q: nat, k: nat)
    requires WellFormed(g, |disk|) && InData(g, cs) && i < |cs| && q + k < ClusterSize(g)
    requires q % SECTOR_SIZE + k < SECTOR_SIZE
    ensures ClusterLba(g, cs[i]) + q / SECTOR_SIZE < |disk|
    ensures Base(i, ClusterSize(g)) + q + k < Base(|cs|, ClusterSize(g))
    ensures Contents(disk, g, cs)[Base(i, ClusterSize(g)) + q + k] ==
            disk[ClusterLba(g, cs[i]) + q / SECTOR_SIZE][q % SECTOR_SIZE + k]
  {
    hide Contents, WellFormed, ClusterByte, ClusterSize, ClusterLba, Base;
    ContentsAt(disk, g, cs, i, q + k);
    ByteInSector(disk, g, cs[i], q, k);
  }

  lemma ByteInSector(disk: Disk, g: Geometry, c: nat, q: nat, k: nat)
    requires WellFormed(g, |disk|) && 2 <= c < g.total + 2 && q + k < ClusterSize(g)
    requires q % SECTOR_SIZE + k < SECTOR_SIZE
    ensures ClusterLba(g, c) + q / SECTOR_SIZE < |disk|
    ensures ClusterByte(disk, g, c, q + k) == disk[ClusterLba(g, c) + q / SECTOR_SIZE][q % SECTOR_SIZE + k]
  {
    ClusterPlace(g, c, |disk|);
    SectorRoom(g.perCluster, q);
    SameSector(q, k);
  }

  lemma SectorRoom(perCluster: nat, q: nat)
    requires q < perCluster * SECTOR_SIZE
    ensures q / SECTOR_SIZE < perCluster && q - q % SECTOR_SIZE + SECTOR_SIZE <= perCluster * SECTOR_SIZE
  {
  }

  lemma SameSector(q: nat, k: nat)
    requires q % SECTOR_SIZE + k < SECTOR_SIZE
    ensures (q + k) / SECTOR_SIZE == q / SECTOR_SIZE && (q + k) % SECTOR_SIZE == q % SECTOR_SIZE + k
  {
  }

  // ------------------------------------------------------------ open files

  /** `cs` is the chain that begins at `start`; a file without clusters has an
      end mark there. */
  ghost predicate ChainFrom(fat: Fat, start: nat, cs: seq<nat>) {
    if cs == [] then IsEoc(start) else IsChain(fat, cs) && cs[0] == start
  }

  /** What comes at place `i` of the chain: a cluster, or behind them an end mark. */
  function At(fat: Fat, start: nat, cs: seq<nat>, i: nat): nat
    requires ChainFrom(fat, start, cs) && i <= |cs|
  {
    if i < |cs| then cs[i] else if cs == [] then start else fat[cs[|cs| - 1]]
  }

  lemma AtNext(fat: Fat, start: nat, cs: seq<nat>, i: nat)
    requires ChainFrom(fat, start, cs) && i <= |cs|
    ensures IsEoc(At(fat, start, cs, i)) <==> i == |cs|
    ensures i < |cs| ==>
              IsCluster(fat, cs[i]) && At(fat, start, cs, i) == cs[i] && At(fat, start, cs, i + 1) == fat[cs[i]]
  {
    if i < |cs| { assert IsCluster(fat, cs[i]); }
  }

  class OpenFile {
    const vol: Fat32
    var used: bool
    var size: nat
    var startCluster: nat
    var curCluster: nat
    var curClusIdx: nat
    var offset: nat
    /** The file's chain. */
    ghost var cs: seq<nat>

    ghost function Where(): Cursor
      reads this
    {
      Cursor(curClusIdx, offset)
    }

    ghost predicate Valid()
      reads this, vol, vol.ctag, vol.cdata
    {
      && vol.Valid() && ChainFrom(vol.Table(), startCluster, cs) && InData(vol.g, cs)
      && 0 < ClusterSize(vol.g) && size <= Base(|cs|, ClusterSize(vol.g))
      && curClusIdx <= |cs| && curCluster == At(vol.Table(), startCluster, cs, curClusIdx)
      && offset <= size && Behind(Where(), ClusterSize(vol.g))
    }

    ghost function Data(): seq<Byte>
      requires WellFormed(vol.g, |vol.disk|) && InData(vol.g, cs)
      reads this, vol
    {
      Contents(vol.disk, vol.g, cs)
    }

    /** Opening for reading, once the directory entry is found. */
    constructor (vol: Fat32, start: nat, size: nat, ghost cs: seq<nat>)
      requires vol.Valid() && ChainFrom(vol.Table(), start, cs) && InData(vol.g, cs)
      requires size <= Base(|cs|, ClusterSize(vol.g))
      ensures Valid() && this.vol == vol && this.cs == cs && this.size == size && used && Where() == Cursor(0, 0)
    {
      this.vol, used, this.size, startCluster, curCluster := vol, true, size, start, start;
      curClusIdx, offset, this.cs := 0, 0, cs;
    }

    method Seek(to: nat) returns (r: int)
      requires Valid()
      modifies this, vol.ctag, vol.cdata
      ensures Valid() && cs == old(cs) && size == old(size) && used == old(used)
      ensures r == if used && to <= size then 0 else -1
      ensures Where() == if r == 0 then AfterSeek(to, ClusterSize(vol.g)) else old(Where())
    {
      hide FatOf, WellFormed, IsChain, InData, Behind, ClusterSize, AfterSeek, Base;
      if !used || size < to { return -1; }
      var cb := ClusterSize(vol.g);
      var target := AfterSeek(to, cb).idx;
      TargetInChain(to, cb, |cs|);
      SeekAligns(to, cb);
      var c: nat;
      if curClusIdx <= target {
        c := Follow(vol, startCluster, cs, curCluster, curClusIdx, target);
      } else {
        c := Follow(vol, startCluster, cs, startCluster, 0, target);
      }
      curCluster, curClusIdx, offset := c, target, to;
      assert Where() == AfterSeek(to, cb);
      r := 0;
    }

    /** The room in the sector that the offset falls in. */
    method PieceSize(left: nat) returns (q: nat, chunk: nat)
      requires Valid() && 0 < left
      ensures q == offset % ClusterSize(vol.g) && q < ClusterSize(vol.g)
      ensures chunk == Min(left, SECTOR_SIZE - q % SECTOR_SIZE) && q + chunk <= ClusterSize(vol.g)
    {
      hide FatOf, WellFormed, IsChain, InData, Behind;
      q := offset % ClusterSize(vol.g);
      chunk := Min(left, SECTOR_SIZE - q % SECTOR_SIZE);
      SectorRoom(vol.g.perCluster, q);
    }

    /** Copies `chunk` bytes from place `q` of the current cluster. */
    method Fetch(buf: array<Byte>, done: nat, q: nat, chunk: nat)
      requires vol.Valid() && InData(vol.g, cs) && curClusIdx < |cs| && curCluster == cs[curClusIdx]
      requires q < ClusterSize(vol.g) && q % SECTOR_SIZE + chunk <= SECTOR_SIZE && done + chunk <= buf.Length
      modifies vol.ctag, vol.cdata, buf
      ensures vol.Valid()
      ensures var p := Base(curClusIdx, ClusterSize(vol.g)) + q;
              p + chunk <= |Data()| && Written(old(buf[..]), buf[..], done, Data()[p..p + chunk])
    {
      hide FatOf, WellFormed, ClusterSize, Base, Contents, Written, Fat32.Coherent;
      ChunkIs(vol.disk, vol.g, cs, curClusIdx, q, chunk);
      var s := vol.Csec(ClusterLba(vol.g, curCluster) + q / SECTOR_SIZE);
      CopyInto(buf, done, vol.cdata[s][q % SECTOR_SIZE..q % SECTOR_SIZE + chunk]);
    }

    /** One round of reading: as much of the current sector as is wanted. */
    method ReadPiece(buf: array<Byte>, done: nat, want: nat) returns (chunk: nat)
      requires Valid() && done < want <= buf.Length && offset + (want - done) <= size
      requires Pos(Where(), ClusterSize(vol.g)) + (want - done) <= Base(|cs|, ClusterSize(vol.g))
      modifies this`offset, this`curCluster, this`curClusIdx, vol.ctag, vol.cdata, buf
      ensures Valid() && 0 < chunk <= want - done
      ensures Where() == Advance(old(Where()), chunk, ClusterSize(vol.g), done + chunk < want)
      ensures var p := Pos(old(Where()), ClusterSize(vol.g));
              p + chunk <= |Data()| && Written(old(buf[..]), buf[..], done, Data()[p..p + chunk])
    {
      hide FatOf, WellFormed, IsChain, Behind, ClusterSize, Base, Pos, Contents, Advance, Written, InData,
           ChainFrom, At, Fat32.Coherent;
      ghost var cb := ClusterSize(vol.g);
      InChain(Where(), cb, |cs|);
      var q;
      q, chunk := PieceSize(want - done);
      PieceMoves(Where(), chunk, cb, done + chunk < want);
      PosIs(Where(), cb);
      AdvanceBehind(Where(), chunk, cb, done + chunk < want);
      AtNext(vol.Table(), startCluster, cs, curClusIdx);
      Fetch(buf, done, q, chunk);
      offset := offset + chunk;
      if offset % ClusterSize(vol.g) == 0 && done + chunk < want {
        curCluster := vol.FatGet(curCluster);
        curClusIdx := curClusIdx + 1;
      }
    }

    lemma ValidFacts()
      requires Valid()
      ensures WellFormed(vol.g, |vol.disk|) && InData(vol.g, cs) && 0 < ClusterSize(vol.g)
      ensures offset <= size <= Base(|cs|, ClusterSize(vol.g)) == |Data()| && Behind(Where(), ClusterSize(vol.g))
    {
    }

    /** Reads up to the length of `buf`. */
    method Read(buf: array<Byte>) returns (r: int)
      requires Valid()
      modifies this`offset, this`curCluster, this`curClusIdx, vol.ctag, vol.cdata, buf
      ensures Valid() && Data() == old(Data())
      ensures !used ==> r == -1 && Where() == old(Where()) && buf[..] == old(buf[..])
      ensures used ==>
                var n := Min(buf.Length, size - old(offset));
                var p := Pos(old(Where()), ClusterSize(vol.g));
                && r == n && p + n <= |Data()| && Written(old(buf[..]), buf[..], 0, Data()[p..p + n])
                && Where() == AfterRead(old(Where()), n, ClusterSize(vol.g))
    {
      hide FatOf, WellFormed, IsChain, Behind, ClusterSize, Base, Pos, Contents, InData, ChainFrom, At,
           Written, Advance, AfterRead, OpenFile.Valid, SoFar;
      ValidFacts();
      if !used { return -1; }
      var want := Min(buf.Length, size - offset);
      ghost var c0, cb, d, was := Where(), ClusterSize(vol.g), Data(), buf[..];
      BehindPos(c0, cb);
      SoFarNothing(c0, cb, d, was, want);
      var done := 0;
      while done < want
        invariant 0 <= done <= want && Valid() && Data() == d
        invariant SoFar(c0, cb, d, was, done, want, Where(), buf[..])
      {
        ValidFacts();
        SoFarMeans(c0, cb, d, was, done, want, Where(), buf[..]);
        ghost var now, at := buf[..], Where();
        var chunk := ReadPiece(buf, done, want);
        SoFarMore(c0, cb, d, was, done, want, at, now, chunk, Where(), buf[..]);
        done := done + chunk;
      }
      SoFarMeans(c0, cb, d, was, done, want, Where(), buf[..]);
      r := done;
    }
  }

  /** `done` of `want` bytes of a read that began at `c0` are in the buffer. */
  ghost predicate SoFar(c0: Cursor, cb: nat, d: seq<Byte>, was: seq<Byte>, done: nat, want: nat,
                        at: Cursor, now: seq<Byte>)
    requires 0 < cb
  {
    && done <= want && Pos(c0, cb) + want <= |d|
    && at == (if done == 0 then c0 else Advance(c0, done, cb, done < want))
    && Written(was, now, 0, d[Pos(c0, cb)..Pos(c0, cb) + done])
  }

  lemma SoFarNothing(c0: Cursor, cb: nat, d: seq<Byte>, was: seq<Byte>, want: nat)
    requires 0 < cb && Pos(c0, cb) + want <= |d|
    ensures SoFar(c0, cb, d, was, 0, want, c0, was)
  {
  }

  lemma SoFarMeans(c0: Cursor, cb: nat, d: seq<Byte>, was: seq<Byte>, done: nat, want: nat, at: Cursor, now: seq<Byte>)
    requires 0 < cb && SoFar(c0, cb, d, was, done, want, at, now)
    ensures done < want ==>
              Pos(at, cb) == Pos(c0, cb) + done && at.offset == c0.offset + done && Pos(c0, cb) + want <= |d|
    ensures done == want ==>
              && at == AfterRead(c0, want, cb) && Pos(c0, cb) + want <= |d|
              && Written(was, now, 0, d[Pos(c0, cb)..Pos(c0, cb) + want])
  {
    AdvanceMoves(c0, done, cb);
    AdvanceEnds(c0, done, cb);
  }

  lemma SoFarMore(c0: Cursor, cb: nat, d: seq<Byte>, was: seq<Byte>, done: nat, want: nat, at: Cursor, now: seq<Byte>,
                  chunk: nat, at': Cursor, now': seq<Byte>)
    requires 0 < cb && SoFar(c0, cb, d, was, done, want, at, now) && 0 < chunk <= want - done
    requires at' == Advance(at, chunk, cb, done + chunk < want)
    requires Pos(at, cb) + chunk <= |d| && Written(now, now', done, d[Pos(at, cb)..Pos(at, cb) + chunk])
    ensures SoFar(c0, cb, d, was, done + chunk, want, at', now')
  {
    hide Pos, Advance, Written;
    AdvanceMoves(c0, done, cb);
    AdvanceJoins(c0, done, chunk, cb, done + chunk < want);
    var p := Pos(c0, cb);
    PiecesJoin(d, p, p + done, chunk, was, now, now');
  }

  /** A buffer after `data` is put at `at`. */
  predicate Written(was: seq<Byte>, now: seq<Byte>, at: nat, data: seq<Byte>) {
    at + |data| <= |was| && now == was[..at] + data + was[at + |data|..]
  }

  lemma PiecesJoin(d: seq<Byte>, p: nat, q: nat, n: nat, was: seq<Byte>, before: seq<Byte>, now: seq<Byte>)
    requires p <= q && q + n <= |d| && Written(was, before, 0, d[p..q]) && Written(before, now, q - p, d[q..q + n])
    ensures Written(was, now, 0, d[p..q + n])
  {
    var a, b := d[p..q], d[q..q + n];
    assert a + b == d[p..q + n];
    assert before[..q - p] == a && before[q - p + n..] == was[q - p + n..];
    assert now == a + b + was[q - p + n..];
  }

  lemma PosIs(c: Cursor, cb: nat)
    requires 0 < cb
    ensures Pos(c, cb) == Base(c.idx, cb) + c.offset % cb
  {
  }

  method CopyInto(buf: array<Byte>, at: nat, src: seq<Byte>)
    requires at + |src| <= buf.Length
    modifies buf
    ensures Written(old(buf[..]), buf[..], at, src)
  {
    var i := 0;
    while i < |src|
      invariant 0 <= i <= |src|
      invariant forall k :: 0 <= k < buf.Length ==> buf[k] == if at <= k < at + i then src[k - at] else old(buf[k])
    {
      buf[at + i] := src[i];
      i := i + 1;
    }
  }

  /** Follows the table from place `from` of the chain to place `target`. */
  method Follow(vol: Fat32, start: nat, ghost cs: seq<nat>, first: nat, from: nat, target: nat) returns (c: nat)
    requires vol.Valid() && ChainFrom(vol.Table(), start, cs) && from <= target <= |cs|
    requires first == At(vol.Table(), start, cs, from)
    modifies vol.ctag, vol.cdata
    ensures vol.Valid() && c == At(vol.Table(), start, cs, target)
  {
    hide FatOf, WellFormed, IsChain;
    c := first;
    var idx := from;
    while idx < target && !IsEoc(c)
      invariant idx <= target && vol.Valid() && c == At(vol.Table(), start, cs, idx)
      decreases target - idx
    {
      AtNext(vol.Table(), start, cs, idx);
      c := vol.FatGet(c);
      idx := idx + 1;
    }
    AtNext(vol.Table(), start, cs, idx);
  }

  lemma TargetInChain(offset: nat, cb: nat, n: nat)
    requires 0 < cb && offset <= Base(n, cb)
    ensures AfterSeek(offset, cb).idx <= n && AfterSeek(offset, cb).offset == offset
  {
    var q := offset / cb;
    assert offset == cb * q + offset % cb;
    if n < q {
      Distribute(n, q - n, cb);
      Distribute(1, q - n - 1, cb);
      Nonnegative(q - n - 1, cb);
    }
  }

  // ------------------------------------------------------- using a file

  lemma WrittenAtFront(was: seq<Byte>, now: seq<Byte>, data: seq<Byte>)
    requires Written(was, now, 0, data)
    ensures |data| <= |now| && now[..|data|] == data && now[|data|..] == was[|data|..]
  {
  }

  /** Whatever was done with the file before, seeking and then reading gives the
      slice of the contents that the two ask for. */
  method SeekThenRead(f: OpenFile, off: nat, buf: array<Byte>) returns (r: int)
    requires f.Valid() && f.used
    modifies f, f.vol.ctag, f.vol.cdata, buf
    ensures f.Valid() && f.vol.disk == old(f.vol.disk) && f.cs == old(f.cs) && f.size == old(f.size)
    ensures off <= f.size ==>
              var n := Min(buf.Length, f.size - off);
              r == n && off + n <= |f.Data()| && buf[..n] == f.Data()[off..off + n] && buf[n..] == old(buf[n..])
    ensures f.size < off ==> r == -1 && buf[..] == old(buf[..])
  {
    hide FatOf, WellFormed, IsChain, Behind, ClusterSize, Base, Pos, Contents, InData, ChainFrom, At,
         Written, AfterRead, AfterSeek, Fat32.Coherent;
    r := f.Seek(off);
    if r != 0 { return -1; }
    ghost var was := buf[..];
    SeekAligns(off, ClusterSize(f.vol.g));
    SeekOffset(off, ClusterSize(f.vol.g));
    r := f.Read(buf);
    ghost var n := Min(buf.Length, f.size - off);
    WrittenAtFront(was, buf[..], f.Data()[off..off + n]);
    assert buf[..][..n] == buf[..n] && buf[..][n..] == buf[n..];
  }

  lemma SeekOffset(off: nat, cb: nat)
    requires 0 < cb
    ensures AfterSeek(off, cb).offset == off
  {
  }

  /** Two reads of one cluster each, from the start of a file of at least two
      clusters, both return the first cluster. */
  method FirstClusterTwice(f: OpenFile, a: array<Byte>, b: array<Byte>)
    requires f.Valid() && f.used && f.Where() == Cursor(0, 0) && a != b
    requires a.Length == b.Length == ClusterSize(f.vol.g) && 2 * ClusterSize(f.vol.g) <= f.size
    modifies f, f.vol.ctag, f.vol.cdata, a, b
    ensures f.Valid() && f.Data() == old(f.Data()) && ClusterSize(f.vol.g) <= |f.Data()|
    ensures a[..] == b[..] == f.Data()[..ClusterSize(f.vol.g)]
  {
    hide FatOf, WellFormed, IsChain, Behind, ClusterSize, Contents, InData, ChainFrom, At, Written, Fat32.Coherent;
    ghost var cb, wasA, wasB := ClusterSize(f.vol.g), a[..], b[..];
    FirstReads(cb);
    var r := f.Read(a);
    WrittenAtFront(wasA, a[..], f.Data()[..cb]);
    r := f.Read(b);
    WrittenAtFront(wasB, b[..], f.Data()[..cb]);
    assert a[..][..cb] == a[..] && b[..][..cb] == b[..];
  }

  lemma FirstReads(cb: nat)
    requires 0 < cb
    ensures Pos(Cursor(0, 0), cb) == 0
    ensures AfterRead(Cursor(0, 0), cb, cb) == Cursor(0, cb) && Pos(Cursor(0, cb), cb) == 0
  {
    DivMod(cb - 1, cb, 0, cb - 1);
    DivMod(cb, cb, 1, 0);
    DivMod(0, cb, 0, 0);
  }
}
