/** The block function of `Csprng` against RFC 8439: the test vector of its quarter
    round, the words each round works on, and the order of bytes. */
module ChachaRfc {
  import opened Arithmetic
  import opened Bytes
  import opened Csprng

  // ------------------------------------------------------ exclusive or

  function Bit(a: nat, j: nat): nat {
    a / Pow2(j) % 2
  }

  lemma Halves(a: nat, j: nat)
    ensures Bit(a / 2, j) == Bit(a, j + 1)
  {
    var p := Pow2(j);
    var q, r := a / 2 / p, a / 2 % p;
    assert a / 2 == p * q + r;
    assert a == (2 * p) * q + (2 * r + a % 2);
    DivMod(a, 2 * p, q, 2 * r + a % 2);
  }

  /** Bit by bit: set where exactly one of the two is. */
  lemma {:induction false} XorAt(a: nat, b: nat, k: nat, j: nat)
    requires j < k
    ensures Bit(XorBits(a, b, k), j) == if Bit(a, j) == Bit(b, j) then 0 else 1
    decreases j
  {
    if j == 0 {
      assert Pow2(0) == 1;
    } else {
      var x := XorBits(a, b, k);
      assert x / 2 == XorBits(a / 2, b / 2, k - 1);
      Halves(x, j - 1);
      Halves(a, j - 1);
      Halves(b, j - 1);
      XorAt(a / 2, b / 2, k - 1, j - 1);
    }
  }

  function Differ(x: nat, y: nat): nat {
    if x % 2 == y % 2 then 0 else 1
  }

  /** Exclusive or of two digits of base four. */
  function Two(x: nat, y: nat): nat {
    if x == y then 0 else if x + y == 1 || x + y == 5 then 1 else if x + y == 3 then 3 else 2
  }

  lemma AddBit(a: nat, b: nat, k: nat, x: nat, y: nat, a': nat, b': nat)
    requires x < 2 && y < 2 && a' == 2 * a + x && b' == 2 * b + y
    ensures XorBits(a', b', k + 1) == 2 * XorBits(a, b, k) + Differ(x, y)
  {
    assert a' % 2 == x && a' / 2 == a && b' % 2 == y && b' / 2 == b;
  }

  lemma TwoBits(x: nat, y: nat)
    requires x < 4 && y < 4
    ensures Two(x, y) == 2 * Differ(x / 2, y / 2) + Differ(x % 2, y % 2)
  {
  }

  lemma AddTwo(a: nat, b: nat, k: nat, x: nat, y: nat, a': nat, b': nat, k': nat)
    requires x < 4 && y < 4 && a' == 4 * a + x && b' == 4 * b + y && k' == k + 2
    ensures XorBits(a', b', k') == 4 * XorBits(a, b, k) + Two(x, y)
  {
    hide XorBits, Two, Differ;
    var a1, b1 := 2 * a + x / 2, 2 * b + y / 2;
    AddBit(a, b, k, x / 2, y / 2, a1, b1);
    AddBit(a1, b1, k + 1, x % 2, y % 2, a', b');
    TwoBits(x, y);
  }

  lemma Nothing()
    ensures XorBits(0, 0, 0) == 0
  {
  }

  /** A byte in digits of base four, highest first. */
  datatype Quads = Quads(d3: nat, d2: nat, d1: nat, d0: nat)

  predicate Digits(x: Quads) {
    x.d3 < 4 && x.d2 < 4 && x.d1 < 4 && x.d0 < 4
  }

  function Value(x: Quads): nat {
    64 * x.d3 + 16 * x.d2 + 4 * x.d1 + x.d0
  }

  predicate XorsTo(x: Quads, y: Quads, z: Quads) {
    && Digits(x) && Digits(y) && Digits(z)
    && Two(x.d3, y.d3) == z.d3 && Two(x.d2, y.d2) == z.d2 && Two(x.d1, y.d1) == z.d1 && Two(x.d0, y.d0) == z.d0
  }

  lemma AddByte(a: nat, b: nat, k: nat, x: Quads, y: Quads, z: Quads, a': nat, b': nat, k': nat)
    requires XorsTo(x, y, z) && a' == 256 * a + Value(x) && b' == 256 * b + Value(y) && k' == k + 8
    ensures XorBits(a', b', k') == 256 * XorBits(a, b, k) + Value(z)
  {
    hide XorBits, Two;
    var a1, b1 := 4 * a + x.d3, 4 * b + y.d3;
    var a2, b2 := 4 * a1 + x.d2, 4 * b1 + y.d2;
    var a3, b3 := 4 * a2 + x.d1, 4 * b2 + y.d1;
    AddTwo(a, b, k, x.d3, y.d3, a1, b1, k + 2);
    AddTwo(a1, b1, k + 2, x.d2, y.d2, a2, b2, k + 4);
    AddTwo(a2, b2, k + 4, x.d1, y.d1, a3, b3, k + 6);
    AddTwo(a3, b3, k + 6, x.d0, y.d0, a', b', k');
  }

  /** A word of four bytes, highest first. */
  function WordOf(x3: Quads, x2: Quads, x1: Quads, x0: Quads): (w: Word)
    requires Digits(x3) && Digits(x2) && Digits(x1) && Digits(x0)
  {
    0x100_0000 * Value(x3) + 0x1_0000 * Value(x2) + 0x100 * Value(x1) + Value(x0)
  }

  /** Exclusive or of words, digit by digit. */
  lemma WordXor(x3: Quads, x2: Quads, x1: Quads, x0: Quads, y3: Quads, y2: Quads, y1: Quads, y0: Quads,
                z3: Quads, z2: Quads, z1: Quads, z0: Quads)
    requires XorsTo(x3, y3, z3) && XorsTo(x2, y2, z2) && XorsTo(x1, y1, z1) && XorsTo(x0, y0, z0)
    ensures Xor(WordOf(x3, x2, x1, x0), WordOf(y3, y2, y1, y0)) == WordOf(z3, z2, z1, z0)
  {
    hide XorBits, Pow2, Value, Two;
    Nothing();
    var a2, b2 := 256 * Value(x3) + Value(x2), 256 * Value(y3) + Value(y2);
    var a1, b1 := 256 * a2 + Value(x1), 256 * b2 + Value(y1);
    AddByte(0, 0, 0, x3, y3, z3, Value(x3), Value(y3), 8);
    AddByte(Value(x3), Value(y3), 8, x2, y2, z2, a2, b2, 16);
    AddByte(a2, b2, 16, x1, y1, z1, a1, b1, 24);
    AddByte(a1, b1, 24, x0, y0, z0, WordOf(x3, x2, x1, x0), WordOf(y3, y2, y1, y0), 32);
  }

  // ------------------------------------------------------ quarter round

  lemma XorA()
    ensures Xor(0x01234567, 0x12131415) == 0x13305172
  {
    hide Xor;
    WordXor(Quads(0, 0, 0, 1), Quads(0, 2, 0, 3), Quads(1, 0, 1, 1), Quads(1, 2, 1, 3),
            Quads(0, 1, 0, 2), Quads(0, 1, 0, 3), Quads(0, 1, 1, 0), Quads(0, 1, 1, 1),
            Quads(0, 1, 0, 3), Quads(0, 3, 0, 0), Quads(1, 1, 0, 1), Quads(1, 3, 0, 2));
  }

  lemma XorB()
    ensures Xor(0x01020304, 0xecff8273) == 0xedfd8177
  {
    hide Xor;
    WordXor(Quads(0, 0, 0, 1), Quads(0, 0, 0, 2), Quads(0, 0, 0, 3), Quads(0, 0, 1, 0),
            Quads(3, 2, 3, 0), Quads(3, 3, 3, 3), Quads(2, 0, 0, 2), Quads(1, 3, 0, 3),
            Quads(3, 2, 3, 1), Quads(3, 3, 3, 1), Quads(2, 0, 0, 1), Quads(1, 3, 1, 3));
  }

  lemma XorC()
    ensures Xor(0x51721330, 0xea2a92f4) == 0xbb5881c4
  {
    hide Xor;
    WordXor(Quads(1, 1, 0, 1), Quads(1, 3, 0, 2), Quads(0, 1, 0, 3), Quads(0, 3, 0, 0),
            Quads(3, 2, 2, 2), Quads(0, 2, 2, 2), Quads(2, 1, 0, 2), Quads(3, 3, 1, 0),
            Quads(2, 3, 2, 3), Quads(1, 1, 2, 0), Quads(2, 0, 0, 1), Quads(3, 0, 1, 0));
  }

  lemma XorD()
    ensures Xor(0xd8177edf, 0x4581472e) == 0x9d9639f1
  {
    hide Xor;
    WordXor(Quads(3, 1, 2, 0), Quads(0, 1, 1, 3), Quads(1, 3, 3, 2), Quads(3, 1, 3, 3),
            Quads(1, 0, 1, 1), Quads(2, 0, 0, 1), Quads(1, 0, 1, 3), Quads(0, 2, 3, 2),
            Quads(2, 1, 3, 1), Quads(2, 1, 1, 2), Quads(0, 3, 2, 1), Quads(3, 3, 0, 1));
  }

  lemma Sums()
    ensures Add(0x11111111, 0x01020304) == 0x12131415 && Add(0x9b8d6f43, 0x51721330) == 0xecff8273
    ensures Add(0x12131415, 0xd8177edf) == 0xea2a92f4 && Add(0xecff8273, 0x5881c4bb) == 0x4581472e
  {
  }

  lemma Rotations()
    ensures Rotl16(0x13305172) == 0x51721330 && Rotl12(0xedfd8177) == 0xd8177edf
    ensures Rotl8(0xbb5881c4) == 0x5881c4bb && Rotl7(0x9d9639f1) == 0xcb1cf8ce
  {
  }

  /** The test vector of section 2.1.1. */
  lemma QuarterRoundVector()
    ensures QuarterRound(0x11111111, 0x01020304, 0x9b8d6f43, 0x01234567) ==
            (0xea2a92f4, 0xcb1cf8ce, 0x4581472e, 0x5881c4bb)
  {
    hide Xor, Add, Rotl16, Rotl12, Rotl8, Rotl7;
    Sums();
    Rotations();
    XorA();
    XorB();
    XorC();
    XorD();
  }

  // ------------------------------------------------------------- rounds

  /** The quarter round on column `c` of the four-by-four state. */
  function Column(x: State, c: nat): (Word, Word, Word, Word)
    requires c < 4
  {
    QuarterRound(x[c], x[4 + c], x[8 + c], x[12 + c])
  }

  /** The quarter round on its diagonal `c`, one column to the right in each row. */
  function Diagonal(x: State, c: nat): (Word, Word, Word, Word)
    requires c < 4
  {
    QuarterRound(x[c], x[4 + (c + 1) % 4], x[8 + (c + 2) % 4], x[12 + (c + 3) % 4])
  }

  function Rows(a: (Word, Word, Word, Word), b: (Word, Word, Word, Word),
                c: (Word, Word, Word, Word), d: (Word, Word, Word, Word)): State
  {
    [a.0, b.0, c.0, d.0] + [a.1, b.1, c.1, d.1] + [a.2, b.2, c.2, d.2] + [a.3, b.3, c.3, d.3]
  }

  /** Each row turned back to where its diagonals came from. */
  function Turned(x: State): State {
    [x[0], x[1], x[2], x[3]] + [x[7], x[4], x[5], x[6]] + [x[10], x[11], x[8], x[9]] + [x[13], x[14], x[15], x[12]]
  }

  function ColumnRound(x: State): State {
    Rows(Column(x, 0), Column(x, 1), Column(x, 2), Column(x, 3))
  }

  function DiagonalRound(x: State): State {
    Turned(Rows(Diagonal(x, 0), Diagonal(x, 1), Diagonal(x, 2), Diagonal(x, 3)))
  }

  lemma PutFour(x: State, a: nat, b: nat, c: nat, d: nat, q: (Word, Word, Word, Word))
    requires a < b < 16 && a < c < 16 && a < d < 16 && b != c && b != d && c != d
    ensures var y := Put(Put(Put(Put(x, a, q.0), b, q.1), c, q.2), d, q.3);
            && y[a] == q.0 && y[b] == q.1 && y[c] == q.2 && y[d] == q.3
            && forall i :: 0 <= i < 16 && i != a && i != b && i != c && i != d ==> y[i] == x[i]
  {
  }

  lemma ColumnsFirst(x: State) returns (c: State)
    ensures c == Quarter(Quarter(Quarter(Quarter(x, 0, 4, 8, 12), 1, 5, 9, 13), 2, 6, 10, 14), 3, 7, 11, 15)
    ensures c == ColumnRound(x)
  {
    hide QuarterRound, Put;
    var x1 := Quarter(x, 0, 4, 8, 12);
    var x2 := Quarter(x1, 1, 5, 9, 13);
    var x3 := Quarter(x2, 2, 6, 10, 14);
    c := Quarter(x3, 3, 7, 11, 15);
    PutFour(x, 0, 4, 8, 12, Column(x, 0));
    PutFour(x1, 1, 5, 9, 13, Column(x, 1));
    PutFour(x2, 2, 6, 10, 14, Column(x, 2));
    PutFour(x3, 3, 7, 11, 15, Column(x, 3));
  }

  lemma DiagonalsNext(x: State) returns (c: State)
    ensures c == Quarter(Quarter(Quarter(Quarter(x, 0, 5, 10, 15), 1, 6, 11, 12), 2, 7, 8, 13), 3, 4, 9, 14)
    ensures c == DiagonalRound(x)
  {
    hide QuarterRound, Put;
    var x1 := Quarter(x, 0, 5, 10, 15);
    var x2 := Quarter(x1, 1, 6, 11, 12);
    var x3 := Quarter(x2, 2, 7, 8, 13);
    c := Quarter(x3, 3, 4, 9, 14);
    PutFour(x, 0, 5, 10, 15, Diagonal(x, 0));
    PutFour(x1, 1, 6, 11, 12, Diagonal(x, 1));
    PutFour(x2, 2, 7, 8, 13, Diagonal(x, 2));
    PutFour(x3, 3, 4, 9, 14, Diagonal(x, 3));
  }

  lemma DoubleRoundIs(x: State)
    ensures DoubleRound(x) == DiagonalRound(ColumnRound(x))
  {
    hide Quarter, ColumnRound, DiagonalRound;
    var c := ColumnsFirst(x);
    var d := DiagonalsNext(c);
  }

  /** Rounds of the two kinds in turn. */
  function InTurn(x: State, n: nat): State {
    if n == 0 then x else if n % 2 == 1 then ColumnRound(InTurn(x, n - 1)) else DiagonalRound(InTurn(x, n - 1))
  }

  lemma {:induction false} RoundsInTurn(x: State, n: nat)
    ensures Rounds(x, n) == InTurn(x, 2 * n)
  {
    hide ColumnRound, DiagonalRound, DoubleRound;
    if n > 0 {
      RoundsInTurn(x, n - 1);
      DoubleRoundIs(Rounds(x, n - 1));
      assert InTurn(x, 2 * n - 1) == ColumnRound(InTurn(x, 2 * n - 2));
    }
  }

  /** Bytes of a list of words: each word lowest byte first, one after the other. */
  lemma {:induction false} SerialiseAt(words: seq<Word>, i: nat, k: nat)
    requires i < |words| && k < 4
    ensures 0 < Pow256(k) && Serialise(words)[4 * i + k] == words[i] / Pow256(k) % 256
    decreases |words|
  {
    LowestFirst(words[i], 4, k);
    var n := |words| - 1;
    if i < n {
      SerialiseAt(words[..n], i, k);
    }
  }

  /** Section 2.3: a block is the state after twenty rounds, columns and diagonals in
      turn, with the state added word by word, each word lowest byte first. */
  lemma BlockIs(state: State, i: nat, k: nat)
    requires i < 16 && k < 4
    ensures 0 < Pow256(k)
    ensures ChachaBlock(state)[4 * i + k] == (InTurn(state, 20)[i] + state[i]) % MOD32 / Pow256(k) % 256
  {
    hide Rounds, InTurn;
    RoundsInTurn(state, 10);
    SerialiseAt(Sum(Rounds(state, 10), state), i, k);
  }

  // ------------------------------------------------------- initial state

  /** Reseeding flips the key bits that are set in the fresh bytes, moves the nonce on
      by one and leaves the constants, the counter and the rest of the nonce. */
  lemma ReseedFlips(s: State, extra: seq<Byte>, i: nat, j: nat)
    requires |extra| == 32 && i < 8 && j < 32
    ensures var r := Reseeded(s, extra);
            && (Bit(r[4 + i], j) != Bit(s[4 + i], j) <==> Bit(SeedWord(extra, i), j) == 1)
            && r[14] == (s[14] + 1) % MOD32
            && (forall k :: 0 <= k < 16 && !(4 <= k < 12) && k != 14 ==> r[k] == s[k])
  {
    hide SeedWord, XorBits;
    XorAt(s[4 + i], SeedWord(extra, i), 32, j);
  }

  lemma Spelled(w: Word, b: seq<Byte>)
    requires |b| == 4 && FromLE(b) == w
    ensures ToLE(w, 4) == b
  {
    BytesBack(b);
  }

  lemma {:induction false} BytesBack(b: seq<Byte>)
    ensures ToLE(FromLE(b), |b|) == b
  {
    hide FromLE, ToLE;
    Unfolded(b);
    if b != [] {
      BytesBack(b[1..]);
      LowByte(b[0], FromLE(b[1..]));
      assert [b[0]] + b[1..] == b;
    }
  }

  lemma Unfolded(b: seq<Byte>)
    ensures FromLE(b) == if b == [] then 0 else b[0] + 256 * FromLE(b[1..])
    ensures ToLE(FromLE(b), |b|) == if b == [] then [] else [FromLE(b) % 256] + ToLE(FromLE(b) / 256, |b| - 1)
  {
  }

  lemma LowByte(x: nat, m: nat)
    requires x < 256
    ensures (x + 256 * m) % 256 == x && (x + 256 * m) / 256 == m
  {
  }

  /** The key words of the seeded state are the seed, read from low to high. */
  lemma KeyIsSeed(seed: seq<Byte>, nonce: (Word, Word))
    requires |seed| == 32
    ensures Serialise(Seeded(seed, nonce)[4..12]) == seed
    ensures var s := Seeded(seed, nonce); s[12] == 0 && s[13] == 0 && s[14] == nonce.0 && s[15] == nonce.1
  {
    var words := Seeded(seed, nonce)[4..12];
    assert words[..8] == words;
    SeedWords(seed, words, 8);
    assert seed[..32] == seed;
  }

  lemma {:induction false} SeedWords(seed: seq<Byte>, words: seq<Word>, n: nat)
    requires |seed| == 32 && |words| == 8 && n <= 8
    requires forall i :: 0 <= i < 8 ==> words[i] == SeedWord(seed, i)
    ensures Serialise(words[..n]) == seed[..4 * n]
    decreases n
  {
    hide SeedWord;
    if n > 0 {
      var k := n - 1;
      SeedWords(seed, words, k);
      SeedWordBack(seed, k);
      assert words[..n][..k] == words[..k];
      assert seed[..4 * n] == seed[..4 * k] + seed[4 * k..4 * k + 4];
    }
  }

  lemma SeedWordBack(seed: seq<Byte>, i: nat)
    requires |seed| == 32 && i < 8
    ensures ToLE(SeedWord(seed, i), 4) == seed[4 * i..4 * i + 4]
  {
    hide ToLE, FromLE;
    Spelled(SeedWord(seed, i), seed[4 * i..4 * i + 4]);
  }

  lemma SpelledBy(w: Word, b: seq<Byte>)
    requires |b| == 4 && w == b[0] as int + 0x100 * b[1] as int + 0x1_0000 * b[2] as int + 0x100_0000 * b[3] as int
    ensures ToLE(w, 4) == b
  {
    assert b[1..][1..] == b[2..] && b[2..][1..] == b[3..] && b[3..][1..] == [];
    assert FromLE(b[2..]) == b[2] + 256 * FromLE(b[3..]) && FromLE(b[3..]) == b[3];
    Spelled(w, b);
  }

  lemma OneMore(words: seq<Word>, w: Word)
    ensures Serialise(words + [w]) == Serialise(words) + ToLE(w, 4)
  {
    assert (words + [w])[..|words|] == words;
  }

  /** The constants spell "expand 32-byte k". */
  lemma SigmaSpells()
    ensures Serialise(SIGMA) ==
            ['e' as int, 'x' as int, 'p' as int, 'a' as int] + ['n' as int, 'd' as int, ' ' as int, '3' as int] +
            ['2' as int, '-' as int, 'b' as int, 'y' as int] + ['t' as int, 'e' as int, ' ' as int, 'k' as int]
  {
    hide ToLE, Serialise;
    SpelledBy(0x61707865, ['e' as int, 'x' as int, 'p' as int, 'a' as int]);
    SpelledBy(0x3320646e, ['n' as int, 'd' as int, ' ' as int, '3' as int]);
    SpelledBy(0x79622d32, ['2' as int, '-' as int, 'b' as int, 'y' as int]);
    SpelledBy(0x6b206574, ['t' as int, 'e' as int, ' ' as int, 'k' as int]);
    OneMore([], SIGMA[0]);
    OneMore([SIGMA[0]], SIGMA[1]);
    OneMore([SIGMA[0], SIGMA[1]], SIGMA[2]);
    OneMore([SIGMA[0], SIGMA[1], SIGMA[2]], SIGMA[3]);
    assert [SIGMA[0], SIGMA[1], SIGMA[2]] + [SIGMA[3]] == SIGMA;
    assert [SIGMA[0], SIGMA[1]] + [SIGMA[2]] == [SIGMA[0], SIGMA[1], SIGMA[2]];
    assert [SIGMA[0]] + [SIGMA[1]] == [SIGMA[0], SIGMA[1]] && [] + [SIGMA[0]] == [SIGMA[0]];
    assert Serialise([]) == [];
  }
}
