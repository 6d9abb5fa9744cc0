/** Bytes, disk sectors and little-endian words. */
module Bytes {
  import opened Arithmetic

  type Byte = x: int | 0 <= x < 256

  const SECTOR_SIZE: nat := 512

  function Zeros(n: nat): (s: seq<Byte>)
    ensures |s| == n
  {
    seq(n, _ => 0)
  }

  type Sector = s: seq<Byte> | |s| == SECTOR_SIZE witness Zeros(SECTOR_SIZE)

  function ToLE(n: nat, k: nat): (b: seq<Byte>)
    ensures |b| == k
  {
    if k == 0 then [] else [n % 256] + ToLE(n / 256, k - 1)
  }

  function FromLE(b: seq<Byte>): nat {
    if b == [] then 0 else b[0] + 256 * FromLE(b[1..])
  }

  function Pow256(k: nat): nat {
    if k == 0 then 1 else 256 * Pow256(k - 1)
  }

  lemma {:induction false} RoundTripLE(n: nat, k: nat)
    requires n < Pow256(k)
    ensures FromLE(ToLE(n, k)) == n
    decreases k
  {
    if k > 0 {
      RoundTripLE(n / 256, k - 1);
      assert ToLE(n, k)[1..] == ToLE(n / 256, k - 1);
    }
  }

  /** The lowest byte comes first. */
  lemma {:induction false} LowestFirst(n: nat, k: nat, i: nat)
    requires i < k
    ensures 0 < Pow256(i) && ToLE(n, k)[i] == n / Pow256(i) % 256
    decreases i
  {
    if i > 0 {
      LowestFirst(n / 256, k - 1, i - 1);
      assert ToLE(n, k)[i] == ToLE(n / 256, k - 1)[i - 1];
      DivTwice(n, Pow256(i - 1));
    }
  }

  lemma DivTwice(n: nat, p: nat)
    requires 0 < p
    ensures n / 256 / p == n / (256 * p)
  {
    var q, r := n / 256 / p, n / 256 % p;
    var low := n % 256;
    assert n / 256 == p * q + r;
    assert n == (256 * p) * q + (256 * r + low);
    DivMod(n, 256 * p, q, 256 * r + low);
  }
}
