/** The byte ring of a TCP connection (kernel/src/net/tcp.rs:34-96), refined to
    the sequence of bytes it holds. */
module RingBuffer {
  import opened Wrappers
  import opened Arithmetic
  import opened Bytes

  /** Where `i` places after `head` lies in a ring of `cap` cells. */
  function Place(head: nat, i: nat, cap: nat): nat {
    if head + i < cap then head + i else head + i - cap
  }

  /** The source computes places with a remainder. */
  lemma PlaceIsRemainder(head: nat, i: nat, cap: nat)
    requires head < cap && i <= cap
    ensures (head + i) % cap == Place(head, i, cap)
  {
    if head + i < cap {
      DivMod(head + i, cap, 0, head + i);
    } else {
      DivMod(head + i, cap, 1, head + i - cap);
    }
  }

  class RingBuf {
    const buf: array<Byte>
    var head: nat
    var tail: nat
    var len: nat

    ghost predicate Valid()
      reads this
    {
      && 0 < buf.Length
      && head < buf.Length && len <= buf.Length
      && tail == Place(head, len, buf.Length)
    }

    ghost function Contents(): (s: seq<Byte>)
      requires Valid()
      reads this, buf
      ensures |s| == len
    {
      seq(len, i requires 0 <= i < len && Valid() reads this, buf => buf[Place(head, i, buf.Length)])
    }

    constructor (cap: nat)
      requires 0 < cap
      ensures Valid() && Contents() == [] && buf.Length == cap && fresh(buf)
    {
      buf := new Byte[cap](_ => 0);
      head, tail, len := 0, 0, 0;
    }

    /** Appends as much of `data` as fits. */
    method Push(data: seq<Byte>) returns (n: nat)
      requires Valid()
      modifies this, buf
      ensures Valid() && n == Min(|data|, buf.Length - |old(Contents())|)
      ensures Contents() == old(Contents()) + data[..n]
    {
      n := Min(|data|, buf.Length - len);
      var i := 0;
      while i < n
        invariant 0 <= i <= n <= |data| && Valid()
        invariant n - i <= buf.Length - len
        invariant Contents() == old(Contents()) + data[..i]
      {
        PushByte(data[i]);
        assert data[..i + 1] == data[..i] + [data[i]];
        i := i + 1;
      }
    }

    method PushByte(b: Byte)
      requires Valid() && len < buf.Length
      modifies this, buf
      ensures Valid() && Contents() == old(Contents()) + [b]
    {
      buf[tail] := b;
      PlaceIsRemainder(tail, 1, buf.Length);
      tail := (tail + 1) % buf.Length;
      len := len + 1;
    }

    method PopByte() returns (b: Byte)
      requires Valid() && 0 < len
      modifies this
      ensures Valid() && [b] + Contents() == old(Contents())
    {
      b := buf[head];
      PlaceIsRemainder(head, 1, buf.Length);
      head := (head + 1) % buf.Length;
      len := len - 1;
    }

    /** Removes up to `want` bytes from the front. */
    method Pop(want: nat) returns (out: seq<Byte>)
      requires Valid()
      modifies this
      ensures Valid() && |out| == Min(want, |old(Contents())|)
      ensures out + Contents() == old(Contents())
    {
      hide RingBuf.Contents, Place;
      var n := Min(want, len);
      out := [];
      while |out| < n
        invariant Valid() && |out| <= n && n - |out| <= len
        invariant out + Contents() == old(Contents())
      {
        ghost var before := Contents();
        var b := PopByte();
        assert |before| == 1 + |Contents()|;
        assert (out + [b]) + Contents() == out + before;
        out := out + [b];
      }
    }

    lemma ByteAt(k: nat)
      requires Valid() && k < len
      ensures Place(head, k, buf.Length) < buf.Length && Contents()[k] == buf[Place(head, k, buf.Length)]
    {
    }

    /** Copies up to `want` bytes from `offset` on, removing nothing. */
    method PeekFrom(offset: nat, want: nat) returns (out: seq<Byte>)
      requires Valid()
      ensures out ==
              if offset <= |Contents()| then Contents()[offset..offset + Min(want, |Contents()| - offset)] else []
    {
      hide RingBuf.Contents;
      var readable := if offset <= len then len - offset else 0;
      var n := Min(want, readable);
      out := [];
      var i := 0;
      while i < n
        invariant 0 <= i <= n
        invariant n > 0 ==> offset + n <= len && out == Contents()[offset..offset + i]
        invariant n == 0 ==> out == []
      {
        PlaceIsRemainder(head, offset + i, buf.Length);
        ByteAt(offset + i);
        OneMore(Contents(), offset, offset + i);
        out := out + [buf[(head + offset + i) % buf.Length]];
        i := i + 1;
      }
    }

    /** Drops up to `n` bytes from the front. */
    method Discard(n: nat)
      requires Valid()
      modifies this
      ensures Valid() && Contents() == old(Contents())[Min(n, |old(Contents())|)..]
    {
      var k := Min(n, len);
      PlaceIsRemainder(head, k, buf.Length);
      head := (head + k) % buf.Length;
      len := len - k;
    }
  }

  lemma OneMore(s: seq<Byte>, from: nat, to: nat)
    requires from <= to < |s|
    ensures s[from..to + 1] == s[from..to] + [s[to]]
  {
  }
}
