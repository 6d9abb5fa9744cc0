/** Internet checksums (kernel/src/net/mod.rs:317-360, kernel/src/net/tcp.rs:198-216):
    32-bit sums folded at the end, against the definition of section 1 of
    RFC 1071, the 16-bit one's complement of the one's complement sum. */
module Checksum {
  import opened Arithmetic
  import opened Bytes

  const MOD32: nat := 0x1_0000_0000
  const MAX16: nat := 0xFFFF

  type Word = x: int | 0 <= x <= MAX16

  // --------------------------------------------------- the definition

  /** One's complement addition: the carry comes back in. */
  function OnesAdd(a: Word, b: Word): Word {
    if a + b <= MAX16 then a + b else a + b - MAX16
  }

  function Be(hi: Byte, lo: Byte): (w: Word) {
    var h: int := hi;
    h * 256 + lo
  }

  /** The first 16-bit word of some bytes; a lone last byte is padded. */
  function FirstWord(data: seq<Byte>): Word
    requires data != []
  {
    Be(data[0], if |data| == 1 then 0 else data[1])
  }

  function Rest(data: seq<Byte>): (r: seq<Byte>)
    requires data != []
    ensures |r| < |data|
  {
    if |data| == 1 then [] else data[2..]
  }

  function OnesSum(data: seq<Byte>): Word
    decreases |data|
  {
    if data == [] then 0 else OnesAdd(FirstWord(data), OnesSum(Rest(data)))
  }

  function Rfc1071(data: seq<Byte>): Word {
    MAX16 - OnesSum(data)
  }

  /** The numerical example of section 3 of RFC 1071. */
  lemma RfcExample()
    ensures OnesSum([0x00, 0x01, 0xf2, 0x03, 0xf4, 0xf5, 0xf6, 0xf7]) == 0xddf2
  {
    var a: seq<Byte> := [0x00, 0x01, 0xf2, 0x03, 0xf4, 0xf5, 0xf6, 0xf7];
    var b: seq<Byte> := [0xf2, 0x03, 0xf4, 0xf5, 0xf6, 0xf7];
    var c: seq<Byte> := [0xf4, 0xf5, 0xf6, 0xf7];
    var d: seq<Byte> := [0xf6, 0xf7];
    assert a[2..] == b && b[2..] == c && c[2..] == d && d[2..] == [];
    assert OnesSum(d) == 0xf6f7;
    assert OnesSum(c) == OnesAdd(0xf4f5, 0xf6f7) == 0xebed;
    assert OnesSum(b) == OnesAdd(0xf203, 0xebed) == 0xddf1;
  }

  /** A last odd byte counts as if a zero byte followed it. */
  lemma {:induction false} OddByteIsPadded(data: seq<Byte>)
    requires |data| % 2 == 1
    ensures Rfc1071(data + [0]) == Rfc1071(data)
    decreases |data|
  {
    if |data| == 1 {
      assert (data + [0])[2..] == [];
    } else {
      OddByteIsPadded(data[2..]);
      assert (data + [0])[2..] == data[2..] + [0];
    }
  }

  // ----------------------------------------------------- deferred carries

  function WordSum(data: seq<Byte>): nat
    decreases |data|
  {
    if data == [] then 0 else FirstWord(data) + WordSum(Rest(data))
  }

  /** The one's complement word of a plain sum: zero only for zero. */
  function Canon(x: nat): Word {
    if x == 0 then 0 else (x - 1) % MAX16 + 1
  }

  lemma CanonAdd(w: Word, x: nat)
    ensures Canon(w + x) == OnesAdd(w, Canon(x))
  {
  }

  /** Adding first and folding the carries in later is the same. */
  lemma {:induction false} OnesSumIs(data: seq<Byte>)
    ensures OnesSum(data) == Canon(WordSum(data))
    decreases |data|
  {
    if data != [] {
      OnesSumIs(Rest(data));
      CanonAdd(FirstWord(data), WordSum(Rest(data)));
    }
  }

  lemma {:induction false} WordSumBound(data: seq<Byte>)
    ensures WordSum(data) <= MAX16 * ((|data| + 1) / 2)
    decreases |data|
  {
    if data != [] {
      WordSumBound(Rest(data));
    }
  }

  lemma {:induction false} WordSumAppend(a: seq<Byte>, b: seq<Byte>)
    requires |a| % 2 == 0
    ensures WordSum(a + b) == WordSum(a) + WordSum(b)
  {
    if a == [] {
      assert a + b == b;
    } else {
      WordSumAppend(a[2..], b);
      assert (a + b)[2..] == a[2..] + b;
    }
  }

  lemma OneWord(hi: Byte, lo: Byte)
    ensures WordSum([hi, lo]) == Be(hi, lo)
  {
    assert Rest([hi, lo]) == [];
  }

  /** One folding step keeps the one's complement value. */
  lemma FoldStep(x: nat)
    requires MAX16 < x
    ensures x % 0x1_0000 + x / 0x1_0000 < x
    ensures Canon(x % 0x1_0000 + x / 0x1_0000) == Canon(x)
  {
    var q, r := x / 0x1_0000, x % 0x1_0000;
    assert x == (q + r) + MAX16 * q;
    var y := q + r - 1;
    DivMod(x - 1, MAX16, y / MAX16 + q, y % MAX16);
  }

  method Fold(sum: nat) returns (r: Word)
    requires sum < MOD32
    ensures r == Canon(sum)
  {
    var s := sum;
    while s / 0x1_0000 != 0
      invariant Canon(s) == Canon(sum)
      decreases s
    {
      FoldStep(s);
      s := s % 0x1_0000 + s / 0x1_0000;
    }
    r := s;
  }

  // ---------------------------------------------------------- the methods

  /** Sums the words of `data` onto `initial` in 32 bits; nothing is lost while the
      words fit. */
  method SumWords(data: seq<Byte>, initial: nat) returns (sum: nat)
    requires initial + MAX16 * ((|data| + 1) / 2) < MOD32
    ensures sum == initial + WordSum(data) < MOD32
  {
    hide WordSum, Be;
    WordSumBound(data);
    sum := initial;
    var i := 0;
    assert data[0..] == data;
    while i + 1 < |data|
      invariant 0 <= i <= |data| && i % 2 == 0
      invariant sum + WordSum(data[i..]) == initial + WordSum(data)
    {
      SumFrom(data, i);
      sum := (sum + Be(data[i], data[i + 1])) % MOD32;
      i := i + 2;
    }
    SumFrom(data, i);
    if i < |data| { sum := (sum + Be(data[i], 0)) % MOD32; }
  }

  lemma SumFrom(data: seq<Byte>, i: nat)
    requires i <= |data|
    ensures WordSum(data[i..]) ==
            if i + 1 < |data| then Be(data[i], data[i + 1]) + WordSum(data[i + 2..])
            else if i < |data| then Be(data[i], 0) else 0
  {
    if i + 1 < |data| { assert Rest(data[i..]) == data[i + 2..]; }
  }

  /** For every packet that 16-bit lengths can describe. */
  method IpChecksum(data: seq<Byte>) returns (r: Word)
    requires |data| <= MAX16
    ensures r == Rfc1071(data)
  {
    var sum := SumWords(data, 0);
    var s := Fold(sum);
    OnesSumIs(data);
    r := MAX16 - s;
  }

  /** Continues a sum begun with a pseudo-header. */
  method OnesComplementSum(data: seq<Byte>, initial: nat) returns (r: Word)
    requires initial + MAX16 * ((|data| + 1) / 2) < MOD32
    ensures r == MAX16 - Canon(initial + WordSum(data))
  {
    var sum := SumWords(data, initial);
    var s := Fold(sum);
    r := MAX16 - s;
  }

  function Be16(n: nat): seq<Byte>
    requires n <= MAX16
  {
    [n / 256, n % 256]
  }

  /** The pseudo-header of section 3.1 of RFC 9293. */
  function PseudoHeader4(src: seq<Byte>, dst: seq<Byte>, len: nat): seq<Byte>
    requires |src| == 4 && |dst| == 4 && len <= MAX16
  {
    src + dst + Be16(6) + Be16(len)
  }

  /** Adds up the words of two addresses. */
  method SumAddresses(src: seq<Byte>, dst: seq<Byte>) returns (sum: nat)
    requires |src| == |dst| <= 16 && |src| % 2 == 0
    ensures sum == WordSum(src) + WordSum(dst) <= MAX16 * |src|
  {
    hide WordSum;
    sum := 0;
    var i := 0;
    NoWords();
    while i < |src|
      invariant 0 <= i <= |src| && i % 2 == 0
      invariant sum == WordSum(src[..i]) + WordSum(dst[..i]) <= MAX16 * i
    {
      SumTo(src, i);
      SumTo(dst, i);
      sum := (sum + Be(src[i], src[i + 1])) % MOD32;
      sum := (sum + Be(dst[i], dst[i + 1])) % MOD32;
      i := i + 2;
    }
    assert src[..|src|] == src && dst[..|src|] == dst;
  }

  lemma NoWords()
    ensures WordSum([]) == 0
  {
  }

  /** The checksum by way of the plain sum. */
  lemma RfcIs(data: seq<Byte>, sum: nat)
    requires WordSum(data) == sum
    ensures Rfc1071(data) == MAX16 - Canon(sum)
  {
    OnesSumIs(data);
  }

  method TcpChecksum(src: seq<Byte>, dst: seq<Byte>, data: seq<Byte>) returns (r: Word)
    requires |src| == 4 && |dst| == 4 && |data| <= MAX16
    ensures r == Rfc1071(PseudoHeader4(src, dst, |data|) + data)
  {
    hide WordSum, Rfc1071, PseudoHeader4, Canon;
    var sum := SumAddresses(src, dst);
    sum := (sum + 6) % MOD32;
    sum := (sum + |data|) % MOD32;
    PseudoSum4(src, dst, data);
    RfcIs(PseudoHeader4(src, dst, |data|) + data, sum + WordSum(data));
    r := OnesComplementSum(data, sum);
  }

  lemma SumTo(s: seq<Byte>, i: nat)
    requires i % 2 == 0 && i + 2 <= |s|
    ensures WordSum(s[..i + 2]) == WordSum(s[..i]) + Be(s[i], s[i + 1])
  {
    hide WordSum;
    assert s[..i + 2] == s[..i] + [s[i], s[i + 1]];
    WordSumAppend(s[..i], [s[i], s[i + 1]]);
    OneWord(s[i], s[i + 1]);
  }

  lemma HeaderSum4(src: seq<Byte>, dst: seq<Byte>, len: nat)
    requires |src| == 4 && |dst| == 4 && len <= MAX16
    ensures |PseudoHeader4(src, dst, len)| == 12
    ensures WordSum(PseudoHeader4(src, dst, len)) == WordSum(src) + WordSum(dst) + 6 + len
  {
    hide WordSum, Be16;
    WordSumAppend(src, dst);
    var a := src + dst;
    AppendWord(a, 6);
    var b := a + Be16(6);
    AppendWord(b, len);
  }

  lemma PseudoSum4(src: seq<Byte>, dst: seq<Byte>, data: seq<Byte>)
    requires |src| == 4 && |dst| == 4 && |data| <= MAX16
    ensures WordSum(PseudoHeader4(src, dst, |data|) + data) == WordSum(src) + WordSum(dst) + 6 + |data| + WordSum(data)
  {
    hide WordSum, PseudoHeader4;
    HeaderSum4(src, dst, |data|);
    WordSumAppend(PseudoHeader4(src, dst, |data|), data);
  }

  lemma AppendWord(a: seq<Byte>, n: nat)
    requires |a| % 2 == 0 && n <= MAX16
    ensures |a + Be16(n)| == |a| + 2 && WordSum(a + Be16(n)) == WordSum(a) + n
  {
    hide WordSum;
    WordSumAppend(a, Be16(n));
    OneWord(n / 256, n % 256);
  }

  /** The pseudo-header of section 8.1 of RFC 8200. */
  function PseudoHeader6(src: seq<Byte>, dst: seq<Byte>, len: nat, next: Byte): seq<Byte>
    requires |src| == 16 && |dst| == 16 && len < MOD32
  {
    src + dst + Be16(len / 0x1_0000) + Be16(len % 0x1_0000) + Be16(0) + Be16(next)
  }

  method Ipv6UpperChecksum(src: seq<Byte>, dst: seq<Byte>, next: Byte, data: seq<Byte>) returns (r: Word)
    requires |src| == 16 && |dst| == 16 && |data| <= MAX16
    ensures r == Rfc1071(PseudoHeader6(src, dst, |data|, next) + data)
  {
    hide WordSum, Rfc1071, PseudoHeader6, Canon;
    var sum := SumAddresses(src, dst);
    assert |data| / 0x1_0000 == 0 && |data| % 0x1_0000 == |data|;
    sum := (sum + |data| / 0x1_0000) % MOD32;
    sum := (sum + |data| % 0x1_0000) % MOD32;
    sum := (sum + next) % MOD32;
    assert sum == WordSum(src) + WordSum(dst) + |data| + next;
    PseudoSum6(src, dst, next, data);
    RfcIs(PseudoHeader6(src, dst, |data|, next) + data, sum + WordSum(data));
    r := OnesComplementSum(data, sum);
  }

  lemma HeaderSum6(src: seq<Byte>, dst: seq<Byte>, len: nat, next: Byte)
    requires |src| == 16 && |dst| == 16 && len < MOD32
    ensures |PseudoHeader6(src, dst, len, next)| == 40
    ensures WordSum(PseudoHeader6(src, dst, len, next)) ==
            WordSum(src) + WordSum(dst) + len / 0x1_0000 + len % 0x1_0000 + next
  {
    hide WordSum, Be16;
    WordSumAppend(src, dst);
    var a := src + dst;
    AppendWord(a, len / 0x1_0000);
    var b := a + Be16(len / 0x1_0000);
    AppendWord(b, len % 0x1_0000);
    var c := b + Be16(len % 0x1_0000);
    AppendWord(c, 0);
    var d := c + Be16(0);
    AppendWord(d, next);
  }

  lemma PseudoSum6(src: seq<Byte>, dst: seq<Byte>, next: Byte, data: seq<Byte>)
    requires |src| == 16 && |dst| == 16 && |data| < MOD32
    ensures WordSum(PseudoHeader6(src, dst, |data|, next) + data) ==
            WordSum(src) + WordSum(dst) + |data| / 0x1_0000 + |data| % 0x1_0000 + next + WordSum(data)
  {
    hide WordSum, PseudoHeader6;
    HeaderSum6(src, dst, |data|, next);
    WordSumAppend(PseudoHeader6(src, dst, |data|, next), data);
  }

  // -------------------------------------------------------- verification

  /** Putting the checksum into a zero field at an even place makes the checksum
      of the whole come out as zero. */
  lemma ChecksumVerifies(data: seq<Byte>, at: nat)
    requires at % 2 == 0 && at + 2 <= |data| && data[at] == 0 && data[at + 1] == 0
    ensures Rfc1071(data[..at] + Be16(Rfc1071(data)) + data[at + 2..]) == 0
  {
    hide WordSum, OnesSum, Canon;
    var c := Rfc1071(data);
    var filled := data[..at] + Be16(c) + data[at + 2..];
    FieldSum(data, at, 0);
    FieldSum(data, at, c);
    assert data[..at] + Be16(0) + data[at + 2..] == data;
    OnesSumIs(data);
    OnesSumIs(filled);
    var x := WordSum(data);
    assert WordSum(filled) == x + c && c == MAX16 - Canon(x);
    Complement(x);
  }

  lemma FieldSum(data: seq<Byte>, at: nat, v: Word)
    requires at % 2 == 0 && at + 2 <= |data|
    ensures WordSum(data[..at] + Be16(v) + data[at + 2..]) == WordSum(data[..at]) + v + WordSum(data[at + 2..])
  {
    hide WordSum, Be16;
    AppendWord(data[..at], v);
    WordSumAppend(data[..at] + Be16(v), data[at + 2..]);
  }

  lemma Complement(x: nat)
    ensures Canon(x + (MAX16 - Canon(x))) == MAX16
  {
    if x != 0 {
      var q, r := (x - 1) / MAX16, (x - 1) % MAX16;
      assert x - 1 == MAX16 * q + r;
      DivMod(x + (MAX16 - Canon(x)) - 1, MAX16, q, MAX16 - 1);
    }
  }
}
