/** Where an open file reads next (kernel/src/fs/fat32.rs:658-696, 795-822): its
    offset, and the index of the cluster it believes the offset to be in. */
module FatCursor {
  import opened Arithmetic

  datatype Cursor = Cursor(idx: nat, offset: nat)

  /** Where cluster `i` of a chain begins. */
  function Base(i: nat, cb: nat): nat {
    i * cb
  }

  /** The position in the chain that the next read starts from. */
  function Pos(c: Cursor, cb: nat): nat
    requires 0 < cb
  {
    Base(c.idx, cb) + c.offset % cb
  }

  /** Reading `n` bytes. The cluster moves on only when more is to be read. */
  function AfterRead(c: Cursor, n: nat, cb: nat): Cursor
    requires 0 < cb
  {
    if n == 0 then c else Cursor((Pos(c, cb) + n - 1) / cb, c.offset + n)
  }

  function AfterSeek(offset: nat, cb: nat): Cursor
    requires 0 < cb
  {
    Cursor(offset / cb, offset)
  }

  /** The cluster never runs ahead of the offset. */
  predicate Behind(c: Cursor, cb: nat)
    requires 0 < cb
  {
    Base(c.idx, cb) <= c.offset
  }

  lemma PosMod(c: Cursor, cb: nat) returns (k: int)
    requires 0 < cb
    ensures Pos(c, cb) == c.offset + cb * k && Pos(c, cb) % cb == c.offset % cb
  {
    k := c.idx - c.offset / cb;
    assert c.offset == cb * (c.offset / cb) + c.offset % cb;
    assert cb * k == cb * c.idx - cb * (c.offset / cb);
    DivMod(Pos(c, cb), cb, c.idx, c.offset % cb);
  }

  lemma BehindPos(c: Cursor, cb: nat)
    requires 0 < cb && Behind(c, cb)
    ensures Pos(c, cb) <= c.offset
  {
    var q := c.offset / cb;
    assert c.offset == cb * q + c.offset % cb;
    if q < c.idx {
      Distribute(q, c.idx - q, cb);
      Distribute(1, c.idx - q - 1, cb);
      Nonnegative(c.idx - q - 1, cb);
    } else {
      Distribute(c.idx, q - c.idx, cb);
      Nonnegative(q - c.idx, cb);
    }
  }

  /** A seek puts the position where the offset is. */
  lemma SeekAligns(offset: nat, cb: nat)
    requires 0 < cb
    ensures Pos(AfterSeek(offset, cb), cb) == offset && Behind(AfterSeek(offset, cb), cb)
  {
    assert offset == cb * (offset / cb) + offset % cb;
  }

  /** The cluster of the byte before `x`, and the place of `x` in its own. */
  lemma LastCluster(x: nat, cb: nat)
    requires 0 < x && 0 < cb
    ensures (x - 1) / cb * cb + x % cb == x - if x % cb == 0 then cb else 0
  {
    var q, r := (x - 1) / cb, (x - 1) % cb;
    assert x - 1 == cb * q + r;
    if r == cb - 1 {
      Distribute(q, 1, cb);
      DivMod(x, cb, q + 1, 0);
    } else {
      DivMod(x, cb, q, r + 1);
    }
  }

  /** A read moves the position with the offset, except that one ending at the end
      of a cluster leaves it a whole cluster behind. */
  lemma ReadMoves(c: Cursor, n: nat, cb: nat)
    requires 0 < cb
    ensures var c' := AfterRead(c, n, cb);
            && c'.offset == c.offset + n
            && Pos(c', cb) == Pos(c, cb) + n - (if 0 < n && (c.offset + n) % cb == 0 then cb else 0)
  {
    if 0 < n {
      var x := Pos(c, cb) + n;
      var k := PosMod(c, cb);
      SameRemainder(c.offset + n, x, k, cb);
      LastCluster(x, cb);
    }
  }

  lemma SameRemainder(a: nat, b: nat, k: int, cb: nat)
    requires 0 < cb && b == a + cb * k
    ensures a % cb == b % cb
  {
    var q, r := a / cb, a % cb;
    assert a == cb * q + r;
    assert cb * (q + k) == cb * q + cb * k;
    DivMod(b, cb, q + k, r);
  }

  /** Reading never leaves the cluster ahead of the offset. */
  lemma ReadBehind(c: Cursor, n: nat, cb: nat)
    requires 0 < cb && Behind(c, cb)
    ensures Behind(AfterRead(c, n, cb), cb)
  {
    if 0 < n {
      BehindPos(c, cb);
      var x := Pos(c, cb) + n - 1;
      assert x == cb * (x / cb) + x % cb;
    }
  }

  // ------------------------------------------------- one read, in pieces

  /** After `n` more bytes of one read; `more` says whether that read goes on. */
  function Advance(c: Cursor, n: nat, cb: nat, more: bool): Cursor
    requires 0 < cb
  {
    if more then Cursor((Pos(c, cb) + n) / cb, c.offset + n) else AfterRead(c, n, cb)
  }

  /** While the read goes on, the position keeps up with the offset. */
  lemma AdvanceMoves(c: Cursor, n: nat, cb: nat)
    requires 0 < cb
    ensures Pos(Advance(c, n, cb, true), cb) == Pos(c, cb) + n && Advance(c, n, cb, true).offset == c.offset + n
  {
    var x := Pos(c, cb) + n;
    var k := PosMod(c, cb);
    SameRemainder(c.offset + n, x, k, cb);
    assert x == cb * (x / cb) + x % cb;
  }

  lemma AdvanceEnds(c: Cursor, n: nat, cb: nat)
    requires 0 < cb
    ensures Advance(c, n, cb, false) == AfterRead(c, n, cb) && AfterRead(c, 0, cb) == c
  {
  }

  lemma AdvanceJoins(c: Cursor, a: nat, b: nat, cb: nat, more: bool)
    requires 0 < cb && 0 < b
    ensures Advance(Advance(c, a, cb, true), b, cb, more) == Advance(c, a + b, cb, more)
  {
    AdvanceMoves(c, a, cb);
  }

  lemma AdvanceBehind(c: Cursor, n: nat, cb: nat, more: bool)
    requires 0 < cb && Behind(c, cb)
    ensures Behind(Advance(c, n, cb, more), cb)
  {
    if more {
      BehindPos(c, cb);
      var x := Pos(c, cb) + n;
      assert x == cb * (x / cb) + x % cb;
    } else {
      ReadBehind(c, n, cb);
    }
  }

  /** A piece that stays within its cluster: the cluster is left exactly when the
      piece reaches its end and the read goes on. */
  lemma PieceMoves(c: Cursor, n: nat, cb: nat, more: bool)
    requires 0 < cb && 0 < n && c.offset % cb + n <= cb
    ensures Advance(c, n, cb, more) == Cursor(c.idx + if (c.offset + n) % cb == 0 && more then 1 else 0, c.offset + n)
  {
    var r := c.offset % cb;
    var p := Pos(c, cb);
    assert c.offset == cb * (c.offset / cb) + r;
    DivMod(p + n - 1, cb, c.idx, r + n - 1);
    if r + n == cb {
      DivMod(p + n, cb, c.idx + 1, 0);
      DivMod(c.offset + n, cb, c.offset / cb + 1, 0);
    } else {
      DivMod(p + n, cb, c.idx, r + n);
      DivMod(c.offset + n, cb, c.offset / cb, r + n);
    }
  }

  /** A position inside the chain is in one of its clusters. */
  lemma InChain(c: Cursor, cb: nat, n: nat)
    requires 0 < cb && Pos(c, cb) < Base(n, cb)
    ensures c.idx < n
  {
    if n <= c.idx {
      Distribute(n, c.idx - n, cb);
      Nonnegative(c.idx - n, cb);
    }
  }

  // ------------------------------------------------------- many reads

  function AfterReads(c: Cursor, ns: seq<nat>, cb: nat): Cursor
    requires 0 < cb
    decreases |ns|
  {
    if ns == [] then c else AfterReads(AfterRead(c, ns[0], cb), ns[1..], cb)
  }

  /** No read among `ns`, done one after the other from `offset`, ends at the end
      of a cluster. */
  predicate NoneAtEnd(offset: nat, ns: seq<nat>, cb: nat)
    requires 0 < cb
    decreases |ns|
  {
    ns == [] || ((ns[0] == 0 || (offset + ns[0]) % cb != 0) && NoneAtEnd(offset + ns[0], ns[1..], cb))
  }

  lemma {:induction false} LagStays(c: Cursor, ns: seq<nat>, cb: nat)
    requires 0 < cb && Pos(c, cb) < c.offset
    ensures Pos(AfterReads(c, ns, cb), cb) < AfterReads(c, ns, cb).offset
    decreases |ns|
  {
    if ns != [] {
      ReadMoves(c, ns[0], cb);
      LagStays(AfterRead(c, ns[0], cb), ns[1..], cb);
    }
  }

  /** After a seek, the next of several successive reads starts where its offset
      says exactly when none of those before it ended at the end of a cluster. */
  lemma {:induction false} SequentialIff(c: Cursor, ns: seq<nat>, cb: nat)
    requires 0 < cb && Pos(c, cb) == c.offset
    ensures Pos(AfterReads(c, ns, cb), cb) == AfterReads(c, ns, cb).offset <==> NoneAtEnd(c.offset, ns, cb)
    decreases |ns|
  {
    if ns != [] {
      ReadMoves(c, ns[0], cb);
      var c' := AfterRead(c, ns[0], cb);
      if Pos(c', cb) == c'.offset {
        SequentialIff(c', ns[1..], cb);
      } else {
        LagStays(c', ns[1..], cb);
      }
    }
  }
}
