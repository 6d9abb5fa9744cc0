/** The kernel's random bytes (kernel/src/csprng.rs): a ChaCha20 key stream handed
    out piecemeal, against the block function of section 2.3 of RFC 8439 with a
    64-bit counter. */
module Csprng {
  import opened Arithmetic
  import opened Bytes

  const MOD32: nat := 0x1_0000_0000
  const MOD64: nat := 0x1_0000_0000_0000_0000

  type Word = x: int | 0 <= x < MOD32
  type State = s: seq<Word> | |s| == 16 witness seq(16, _ => 0)
  type Block = b: seq<Byte> | |b| == 64 witness seq(64, _ => 0)

  // ------------------------------------------------------ 32-bit words

  function Add(a: Word, b: Word): Word {
    (a + b) % MOD32
  }

  function Pow2(k: nat): (r: nat)
    ensures 0 < r
  {
    if k == 0 then 1 else 2 * Pow2(k - 1)
  }

  /** Exclusive or of the low `k` bits. */
  function XorBits(a: nat, b: nat, k: nat): (r: nat)
    ensures r < Pow2(k)
    decreases k
  {
    if k == 0 then 0 else (if a % 2 == b % 2 then 0 else 1) + 2 * XorBits(a / 2, b / 2, k - 1)
  }

  lemma Pow2Of32()
    ensures Pow2(32) == MOD32
  {
    assert Pow2(8) == 256;
    assert Pow2(16) == 0x1_0000;
    assert Pow2(24) == 0x100_0000;
  }

  function Xor(a: Word, b: Word): Word {
    Pow2Of32();
    XorBits(a, b, 32)
  }

  function Rotl16(a: Word): Word {
    a % 0x1_0000 * 0x1_0000 + a / 0x1_0000
  }

  function Rotl12(a: Word): Word {
    a % 0x10_0000 * 0x1000 + a / 0x10_0000
  }

  function Rotl8(a: Word): Word {
    a % 0x100_0000 * 0x100 + a / 0x100_0000
  }

  function Rotl7(a: Word): Word {
    a % 0x200_0000 * 0x80 + a / 0x200_0000
  }

  // ------------------------------------------------------- block function

  /** Section 2.1 of RFC 8439. */
  function QuarterRound(a: Word, b: Word, c: Word, d: Word): (Word, Word, Word, Word) {
    var a1 := Add(a, b);
    var d1 := Rotl16(Xor(d, a1));
    var c1 := Add(c, d1);
    var b1 := Rotl12(Xor(b, c1));
    var a2 := Add(a1, b1);
    var d2 := Rotl8(Xor(d1, a2));
    var c2 := Add(c1, d2);
    var b2 := Rotl7(Xor(b1, c2));
    (a2, b2, c2, d2)
  }

  function Put(x: State, i: nat, w: Word): State
    requires i < 16
  {
    x[i := w]
  }

  /** The quarter round on four words of a state. */
  function Quarter(x: State, a: nat, b: nat, c: nat, d: nat): State
    requires a < 16 && b < 16 && c < 16 && d < 16
  {
    var q := QuarterRound(x[a], x[b], x[c], x[d]);
    Put(Put(Put(Put(x, a, q.0), b, q.1), c, q.2), d, q.3)
  }

  /** A column round and a diagonal round. */
  function DoubleRound(x: State): State {
    var c := Quarter(Quarter(Quarter(Quarter(x, 0, 4, 8, 12), 1, 5, 9, 13), 2, 6, 10, 14), 3, 7, 11, 15);
    Quarter(Quarter(Quarter(Quarter(c, 0, 5, 10, 15), 1, 6, 11, 12), 2, 7, 8, 13), 3, 4, 9, 14)
  }

  function Rounds(x: State, n: nat): State {
    if n == 0 then x else DoubleRound(Rounds(x, n - 1))
  }

  function Serialise(words: seq<Word>): (b: seq<Byte>)
    ensures |b| == 4 * |words|
  {
    if words == [] then [] else Serialise(words[..|words| - 1]) + ToLE(words[|words| - 1], 4)
  }

  function Sum(a: State, b: State): (s: State)
    ensures forall i :: 0 <= i < 16 ==> s[i] == Add(a[i], b[i])
  {
    seq(16, i requires 0 <= i < 16 => Add(a[i], b[i]))
  }

  /** Twenty rounds, the input added back, little-endian: section 2.3. */
  function ChachaBlock(state: State): Block {
    Serialise(Sum(Rounds(state, 10), state))
  }

  /** The quarter round as the kernel writes it, word by word in place. */
  method QuarterInPlace(x: array<Word>, a: nat, b: nat, c: nat, d: nat)
    requires x.Length == 16 && a < 16 && b < 16 && c < 16 && d < 16
    requires a != b && a != c && a != d && b != c && b != d && c != d
    modifies x
    ensures x[..] == Quarter(old(x[..]), a, b, c, d)
  {
    hide Add, Xor, Rotl16, Rotl12, Rotl8, Rotl7;
    x[a] := Add(x[a], x[b]);
    x[d] := Rotl16(Xor(x[d], x[a]));
    x[c] := Add(x[c], x[d]);
    x[b] := Rotl12(Xor(x[b], x[c]));
    x[a] := Add(x[a], x[b]);
    x[d] := Rotl8(Xor(x[d], x[a]));
    x[c] := Add(x[c], x[d]);
    x[b] := Rotl7(Xor(x[b], x[c]));
  }

  method DoubleRoundInPlace(x: array<Word>)
    requires x.Length == 16
    modifies x
    ensures x[..] == DoubleRound(old(x[..]))
  {
    hide Quarter;
    QuarterInPlace(x, 0, 4, 8, 12);
    QuarterInPlace(x, 1, 5, 9, 13);
    QuarterInPlace(x, 2, 6, 10, 14);
    QuarterInPlace(x, 3, 7, 11, 15);
    QuarterInPlace(x, 0, 5, 10, 15);
    QuarterInPlace(x, 1, 6, 11, 12);
    QuarterInPlace(x, 2, 7, 8, 13);
    QuarterInPlace(x, 3, 4, 9, 14);
  }

  method Chacha20Block(state: State) returns (out: Block)
    ensures out == ChachaBlock(state)
  {
    hide DoubleRound, Add, ToLE;
    var x := new Word[16](i requires 0 <= i < 16 => state[i]);
    assert x[..] == state;
    for n := 0 to 10
      invariant x[..] == Rounds(state, n)
    {
      DoubleRoundInPlace(x);
    }
    ghost var rounds := Rounds(state, 10);
    for i := 0 to 16
      invariant forall k :: 0 <= k < 16 ==> x[k] == if k < i then Add(rounds[k], state[k]) else rounds[k]
    {
      x[i] := Add(x[i], state[i]);
    }
    assert x[..] == Sum(rounds, state);
    var b: seq<Byte> := [];
    for i := 0 to 16
      invariant b == Serialise(x[..i])
    {
      b := b + ToLE(x[i], 4);
      assert x[..i + 1][..i] == x[..i];
    }
    assert x[..16] == x[..];
    out := b;
  }

  // --------------------------------------------------------------- counter

  /** The 64-bit counter in words 12 and 13. */
  function Counter(s: State): nat {
    s[13] * MOD32 + s[12]
  }

  function Bump(s: State): State {
    var lo := Add(s[12], 1);
    if lo == 0 then s[12 := lo][13 := Add(s[13], 1)] else s[12 := lo]
  }

  /** The same state with its counter at `n`. */
  function WithCounter(s: State, n: nat): State {
    s[12 := n % MOD32][13 := n / MOD32 % MOD32]
  }

  /** The carry is right, and nothing but the counter changes. */
  lemma BumpCounts(s: State)
    ensures Bump(s) == WithCounter(s, (Counter(s) + 1) % MOD64)
  {
    var n := (Counter(s) + 1) % MOD64;
    if s[12] + 1 < MOD32 {
      DivMod(n, MOD32, s[13], s[12] + 1);
    } else if s[13] + 1 < MOD32 {
      DivMod(n, MOD32, s[13] + 1, 0);
    } else {
      assert n == 0;
    }
  }

  /** The state `k` blocks on. */
  function Ahead(s: State, k: nat): State {
    WithCounter(s, (Counter(s) + k) % MOD64)
  }

  lemma WithAgain(s: State, m: nat, n: nat)
    ensures WithCounter(WithCounter(s, m), n) == WithCounter(s, n)
    ensures WithCounter(s, Counter(s)) == s && Counter(s) < MOD64
  {
  }

  lemma NextRemainder(c: nat, k: nat)
    ensures ((c + k) % MOD64 + 1) % MOD64 == (c + (k + 1)) % MOD64
  {
  }

  lemma AheadSteps(s: State, k: nat)
    ensures Ahead(s, 0) == s && Bump(Ahead(s, k)) == Ahead(s, k + 1)
  {
    hide Bump, Counter, WithCounter;
    var n := (Counter(s) + k) % MOD64;
    CounterWith(s, n);
    BumpCounts(Ahead(s, k));
    NextRemainder(Counter(s), k);
    WithAgain(s, n, (n + 1) % MOD64);
  }

  lemma CounterWith(s: State, n: nat)
    requires n < MOD64
    ensures Counter(WithCounter(s, n)) == n
  {
  }

  // ---------------------------------------------------------------- stream

  /** What is left of the current block, and the state for the next. */
  datatype Gen = Gen(pending: seq<Byte>, state: State)

  function Next(g: Gen): (Byte, Gen) {
    if g.pending == [] then
      var b := ChachaBlock(g.state);
      (b[0], Gen(b[1..], Bump(g.state)))
    else (g.pending[0], Gen(g.pending[1..], g.state))
  }

  function Fill(g: Gen, n: nat): (r: (seq<Byte>, Gen))
    ensures |r.0| == n
  {
    if n == 0 then ([], g)
    else
      var f := Fill(g, n - 1);
      var b := Next(f.1);
      (f.0 + [b.0], b.1)
  }

  /** Byte `i` of the key stream of `state`: block `i / 64`, with the counter that
      many steps on. */
  function KeystreamByte(state: State, i: nat): Byte {
    ChachaBlock(Ahead(state, i / 64))[i % 64]
  }

  /** What a generator that has handed out `n` bytes since seeding looks like. */
  ghost predicate Midway(g: Gen, state: State, n: nat) {
    var k := (n + 63) / 64;
    && g.state == Ahead(state, k) && |g.pending| == 64 * k - n
    && (n < 64 * k ==> 0 < k && g.pending == ChachaBlock(Ahead(state, k - 1))[64 - |g.pending|..])
  }

  lemma NextIs(g: Gen, state: State, n: nat)
    requires Midway(g, state, n)
    ensures Next(g).0 == KeystreamByte(state, n) && Midway(Next(g).1, state, n + 1)
  {
    hide ChachaBlock, Ahead, Bump;
    var k := (n + 63) / 64;
    if g.pending == [] {
      assert n / 64 == k && n % 64 == 0 && (n + 1 + 63) / 64 == k + 1;
      AheadSteps(state, k);
    } else {
      assert n / 64 == k - 1 && n % 64 == 64 - |g.pending| && (n + 1 + 63) / 64 == k;
    }
  }

  /** From a fresh seed, the first `n` bytes handed out are the key stream. */
  lemma {:induction false} FillIsKeystream(state: State, n: nat)
    ensures var f := Fill(Gen([], state), n);
            (forall i :: 0 <= i < n ==> f.0[i] == KeystreamByte(state, i)) && Midway(f.1, state, n)
  {
    hide ChachaBlock, Next, KeystreamByte, Ahead;
    if n == 0 {
      AheadSteps(state, 0);
    } else {
      FillIsKeystream(state, n - 1);
      NextIs(Fill(Gen([], state), n - 1).1, state, n - 1);
    }
  }

  /** Asking for `a` bytes and then for `b` is asking for `a + b`. */
  lemma {:induction false} FillJoins(g: Gen, a: nat, b: nat)
    ensures var f := Fill(g, a);
            Fill(g, a + b) == (f.0 + Fill(f.1, b).0, Fill(f.1, b).1)
    decreases b
  {
    hide Next;
    if 0 < b {
      FillJoins(g, a, b - 1);
      var f := Fill(g, a);
      var h := Fill(f.1, b - 1);
      assert a + b - 1 == a + (b - 1);
      assert (f.0 + h.0) + [Next(h.1).0] == f.0 + (h.0 + [Next(h.1).0]);
    } else {
      assert Fill(g, a).0 + [] == Fill(g, a).0;
    }
  }

  /** All requests of `ns`, one after the other. */
  function FillAll(g: Gen, ns: seq<nat>): (seq<Byte>, Gen)
    decreases |ns|
  {
    if ns == [] then ([], g)
    else
      var f := Fill(g, ns[0]);
      var rest := FillAll(f.1, ns[1..]);
      (f.0 + rest.0, rest.1)
  }

  function Total(ns: seq<nat>): nat {
    if ns == [] then 0 else ns[0] + Total(ns[1..])
  }

  lemma {:induction false} FillAllIs(g: Gen, ns: seq<nat>)
    ensures FillAll(g, ns) == Fill(g, Total(ns))
    decreases |ns|
  {
    hide Next;
    if ns != [] {
      FillAllIs(Fill(g, ns[0]).1, ns[1..]);
      FillJoins(g, ns[0], Total(ns[1..]));
    }
  }

  /** However the requests are cut up, what is handed out after seeding is the
      beginning of the key stream. */
  lemma AnyChunking(state: State, ns: seq<nat>)
    ensures var out := FillAll(Gen([], state), ns).0;
            |out| == Total(ns) && forall i :: 0 <= i < |out| ==> out[i] == KeystreamByte(state, i)
  {
    hide Fill, FillAll, KeystreamByte;
    FillAllIs(Gen([], state), ns);
    FillIsKeystream(state, Total(ns));
  }

  // ------------------------------------------------------------- generator

  const SIGMA: seq<Word> := [0x61707865, 0x3320646e, 0x79622d32, 0x6b206574]

  lemma {:induction false} LEBound(b: seq<Byte>)
    ensures FromLE(b) < Pow256(|b|)
  {
    if b != [] { LEBound(b[1..]); }
  }

  /** Word `i` of a 32-byte seed. */
  function SeedWord(seed: seq<Byte>, i: nat): Word
    requires |seed| == 32 && i < 8
  {
    LEBound(seed[4 * i..4 * i + 4]);
    assert Pow256(2) == 0x1_0000;
    assert Pow256(4) == MOD32;
    FromLE(seed[4 * i..4 * i + 4])
  }

  /** The seeded state: constants, key, counter zero, nonce. */
  function Seeded(seed: seq<Byte>, nonce: (Word, Word)): State
    requires |seed| == 32
  {
    SIGMA + seq(8, i requires 0 <= i < 8 => SeedWord(seed, i)) + [0, 0, nonce.0, nonce.1]
  }

  /** The key is mixed with fresh bytes and the nonce moves on; the counter stays. */
  function Reseeded(s: State, extra: seq<Byte>): State
    requires |extra| == 32
  {
    seq(16, i requires 0 <= i < 16 =>
      if 4 <= i < 12 then Xor(s[i], SeedWord(extra, i - 4)) else if i == 14 then Add(s[14], 1) else s[i])
  }

  class Drbg {
    var state: State
    var keystream: Block
    var pos: nat

    ghost function Stream(): Gen
      reads this
    {
      Gen(if pos < 64 then keystream[pos..] else [], state)
    }

    /** Seeds the generator; `nonce` comes from the timer and the stack address. */
    constructor (seed: seq<Byte>, nonce: (Word, Word))
      requires |seed| == 32
      ensures Stream() == Gen([], Seeded(seed, nonce)) && Counter(state) == 0
    {
      state := Seeded(seed, nonce);
      keystream := seq(64, _ => 0);
      pos := 64;
    }

    method Reseed(extra: seq<Byte>)
      requires |extra| == 32
      modifies this
      ensures Stream() == Gen([], Reseeded(old(state), extra)) && Counter(state) == Counter(old(state))
    {
      hide Xor, SeedWord, Add;
      var i := 0;
      while i < 8
        invariant 0 <= i <= 8
        invariant forall k :: 0 <= k < 16 ==>
                    state[k] == if 4 <= k < 4 + i then Xor(old(state)[k], SeedWord(extra, k - 4)) else old(state)[k]
      {
        state := state[4 + i := Xor(state[4 + i], SeedWord(extra, i))];
        i := i + 1;
      }
      state := state[14 := Add(state[14], 1)];
      pos := 64;
    }

    /** Generates the next block and moves the counter on. */
    method Refill()
      modifies this
      ensures keystream == ChachaBlock(old(state)) && state == Bump(old(state)) && pos == 0
    {
      hide ChachaBlock, Add;
      keystream := Chacha20Block(state);
      state := state[12 := Add(state[12], 1)];
      if state[12] == 0 { state := state[13 := Add(state[13], 1)]; }
      pos := 0;
    }

    method NextByte() returns (b: Byte)
      modifies this
      ensures (b, Stream()) == Next(old(Stream()))
    {
      hide ChachaBlock, Bump;
      if 64 <= pos {
        Refill();
        assert keystream[0..] == keystream;
      }
      b := keystream[pos];
      pos := pos + 1;
      assert keystream[pos - 1..][1..] == keystream[pos..] && keystream[pos - 1..][0] == b;
    }

    /** Fills the buffer with the next bytes of the stream. */
    method FillBytes(buf: array<Byte>)
      modifies this, buf
      ensures (buf[..], Stream()) == Fill(old(Stream()), buf.Length)
    {
      hide Next;
      var i := 0;
      while i < buf.Length
        invariant 0 <= i <= buf.Length
        invariant (buf[..i], Stream()) == Fill(old(Stream()), i)
      {
        var b := NextByte();
        buf[i] := b;
        assert buf[..i + 1] == buf[..i] + [b];
        i := i + 1;
      }
      assert buf[..buf.Length] == buf[..];
    }
  }
}
