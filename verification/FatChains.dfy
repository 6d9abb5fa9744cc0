/** Cluster chains in a file allocation table (kernel/src/fs/fat32.rs): allocating,
    appending, truncating and unlinking keep the table a partition of the clusters
    into free ones and finite disjoint chains. */
module FatChains {
  import opened Wrappers

  const FAT_EOC_MIN: nat := 0x0FFFFFF8
  const FAT_EOC: nat := 0x0FFFFFFF
  const FAT_FREE: nat := 0

  /** Entry `c` says what follows cluster `c`; clusters are numbered from 2. */
  type Fat = f: seq<nat> | 3 <= |f| <= FAT_EOC_MIN witness [FAT_EOC, FAT_EOC, FAT_FREE]

  predicate IsEoc(v: nat) {
    FAT_EOC_MIN <= v || v == 0
  }

  predicate IsCluster(fat: Fat, c: nat) {
    2 <= c < |fat|
  }

  /** No entry points past the table. */
  predicate Closed(fat: Fat) {
    forall c :: 0 <= c < |fat| ==> fat[c] < |fat| || FAT_EOC_MIN <= fat[c]
  }

  /** `cs` lists the clusters of one file, ended by an end-of-chain mark. */
  predicate IsChain(fat: Fat, cs: seq<nat>) {
    && cs != []
    && (forall i :: 0 <= i < |cs| ==> IsCluster(fat, cs[i]))
    && (forall i {:trigger fat[cs[i]]} :: 0 <= i < |cs| - 1 ==> fat[cs[i]] == cs[i + 1])
    && FAT_EOC_MIN <= fat[cs[|cs| - 1]]
  }

  predicate Distinct(cs: seq<nat>) {
    forall i, j :: 0 <= i < j < |cs| ==> cs[i] != cs[j]
  }

  /** A chain that ends never visits a cluster twice. */
  lemma ChainDistinct(fat: Fat, cs: seq<nat>)
    requires IsChain(fat, cs)
    ensures Distinct(cs)
  {
    forall i, j | 0 <= i < j < |cs|
      ensures cs[i] != cs[j]
    {
      ChainApart(fat, cs, i, j);
    }
  }

  lemma {:induction false} ChainApart(fat: Fat, cs: seq<nat>, i: nat, j: nat)
    requires IsChain(fat, cs) && i < j < |cs|
    ensures cs[i] != cs[j]
    decreases |cs| - j
  {
    if j < |cs| - 1 {
      ChainApart(fat, cs, i + 1, j + 1);
      assert fat[cs[j]] == cs[j + 1];
    }
    assert fat[cs[i]] == cs[i + 1];
    assert IsCluster(fat, cs[i + 1]);
  }

  // --------------------------------------------------------- allocation

  function FirstFree(fat: Fat, lo: nat, hi: nat): (c: nat)
    requires lo <= hi <= |fat|
    ensures lo <= c <= hi && (c < hi ==> fat[c] == FAT_FREE)
    ensures forall i :: lo <= i < c ==> fat[i] != FAT_FREE
    decreases hi - lo
  {
    if lo == hi || fat[lo] == FAT_FREE then lo else FirstFree(fat, lo + 1, hi)
  }

  /** The cluster to take: from the hint up, then from 3 up to the hint. */
  function FindFree(fat: Fat, hint: nat): Option<nat>
    requires 3 <= hint <= |fat|
  {
    var c := FirstFree(fat, hint, |fat|);
    if c < |fat| then Some(c)
    else
      var d := FirstFree(fat, 3, hint);
      if d < hint then Some(d) else None
  }

  /** A free cluster is found exactly when one from 3 on exists: the first one from
      the hint on, or the first of all when there is none from the hint on. */
  lemma FindFreeIff(fat: Fat, hint: nat)
    requires 3 <= hint <= |fat|
    ensures match FindFree(fat, hint)
            case Some(c) =>
              && 3 <= c < |fat| && fat[c] == FAT_FREE
              && (forall i :: hint <= i < |fat| && fat[i] == FAT_FREE ==> hint <= c <= i)
              && (c < hint ==> forall i :: 3 <= i < |fat| && fat[i] == FAT_FREE ==> c <= i)
            case None => forall c :: 3 <= c < |fat| ==> fat[c] != FAT_FREE
  {
  }

  // ------------------------------------------------------------ freeing

  function CountUsed(s: seq<nat>): nat {
    if s == [] then 0 else CountUsed(s[..|s| - 1]) + if s[|s| - 1] != FAT_FREE then 1 else 0
  }

  lemma {:induction false} ClearCounts(s: seq<nat>, c: nat)
    requires c < |s| && s[c] != FAT_FREE
    ensures CountUsed(s[c := FAT_FREE]) == CountUsed(s) - 1
  {
    var t := s[c := FAT_FREE];
    if c == |s| - 1 {
      assert t[..|s| - 1] == s[..|s| - 1];
    } else {
      ClearCounts(s[..|s| - 1], c);
      assert t[..|s| - 1] == s[..|s| - 1][c := FAT_FREE];
    }
  }

  function Clear(fat: Fat, c: nat): (r: Fat)
    requires c < |fat|
    ensures r == fat[c := FAT_FREE]
    ensures CountUsed(r) == CountUsed(fat) - if fat[c] != FAT_FREE then 1 else 0
  {
    if fat[c] != FAT_FREE then ClearCounts(fat, c); fat[c := FAT_FREE]
    else assert fat[c := FAT_FREE] == fat; fat[c := FAT_FREE]
  }

  /** The freeing loop from cluster `c`; it stops at end-of-chain marks and below
      `low`. It ends on every closed table, cyclic ones included: each step
      clears an entry in use, or has come to a free one and stops next. */
  function FreeFrom(fat: Fat, c: nat, low: nat): (r: Fat)
    requires Closed(fat) && (c < |fat| || IsEoc(c))
    ensures Closed(r) && |r| == |fat|
    decreases CountUsed(fat), if IsEoc(c) then 0 else 1
  {
    if IsEoc(c) || c < low then fat else FreeFrom(Clear(fat, c), fat[c], low)
  }

  function Zeroed(fat: Fat, cs: seq<nat>): (r: Fat)
    ensures |r| == |fat|
  {
    seq(|fat|, c requires 0 <= c < |fat| => if c in cs then FAT_FREE else fat[c])
  }

  lemma ZeroedMore(fat: Fat, cs: seq<nat>, c: nat)
    requires c < |fat|
    ensures Clear(Zeroed(fat, cs), c) == Zeroed(fat, cs + [c])
  {
  }

  /** From a chain's first cluster exactly the chain is freed. */
  lemma FreesChain(fat: Fat, cs: seq<nat>, low: nat)
    requires IsChain(fat, cs) && Closed(fat) && low <= 2
    ensures FreeFrom(fat, cs[0], low) == Zeroed(fat, cs)
  {
    assert Zeroed(fat, cs[..0]) == fat;
    FreesRest(fat, cs, 0, low);
  }

  lemma {:induction false} FreesRest(fat: Fat, cs: seq<nat>, k: nat, low: nat)
    requires IsChain(fat, cs) && low <= 2 && k < |cs| && Closed(Zeroed(fat, cs[..k]))
    ensures FreeFrom(Zeroed(fat, cs[..k]), cs[k], low) == Zeroed(fat, cs)
    decreases |cs| - k
  {
    ChainDistinct(fat, cs);
    var f := Zeroed(fat, cs[..k]);
    assert IsCluster(fat, cs[k]) && f[cs[k]] == fat[cs[k]];
    ZeroedMore(fat, cs[..k], cs[k]);
    assert cs[..k] + [cs[k]] == cs[..k + 1];
    if k < |cs| - 1 {
      FreesRest(fat, cs, k + 1, low);
    } else {
      assert cs[..k + 1] == cs;
    }
  }

  /** `walk` follows the table from `c` without repeating. */
  predicate IsWalk(fat: Fat, c: nat, walk: seq<nat>) {
    && Distinct(walk) && (walk != [] ==> walk[0] == c)
    && (forall i :: 0 <= i < |walk| ==> walk[i] < |fat|)
    && (forall i {:trigger fat[walk[i]]} :: 0 <= i < |walk| - 1 ==> fat[walk[i]] == walk[i + 1])
  }

  /** Where a walk goes on. */
  function After(fat: Fat, c: nat, walk: seq<nat>): nat
    requires IsWalk(fat, c, walk)
  {
    if walk == [] then c else fat[walk[|walk| - 1]]
  }

  /** On any closed table, the loop frees the clusters on the walk from `c`, each
      once, up to an end mark or back to a cluster already freed. */
  lemma FreesWalk(fat: Fat, c: nat, low: nat) returns (walk: seq<nat>)
    requires Closed(fat) && (c < |fat| || IsEoc(c))
    ensures IsWalk(fat, c, walk) && FreeFrom(fat, c, low) == Zeroed(fat, walk)
    ensures var e := After(fat, c, walk); IsEoc(e) || e < low || e in walk
  {
    assert Zeroed(fat, []) == fat;
    walk := WalkOn(fat, c, low, []);
  }

  lemma {:induction false} WalkOn(fat: Fat, c: nat, low: nat, done: seq<nat>) returns (walk: seq<nat>)
    requires Closed(fat) && (c < |fat| || IsEoc(c)) && IsWalk(fat, c, done)
    ensures IsWalk(fat, c, walk)
    ensures var e := After(fat, c, done);
            (e < |fat| || IsEoc(e)) && Closed(Zeroed(fat, done)) &&
            FreeFrom(Zeroed(fat, done), e, low) == Zeroed(fat, walk)
    ensures var e := After(fat, c, walk); IsEoc(e) || e < low || e in walk
    decreases CountUsed(Zeroed(fat, done)), if IsEoc(After(fat, c, done)) then 0 else 1
  {
    var e := After(fat, c, done);
    var f := Zeroed(fat, done);
    if IsEoc(e) || e < low {
      walk := done;
    } else if e in done {
      walk := done;
      assert Clear(f, e) == f && f[e] == 0;
      assert FreeFrom(f, 0, low) == f;
    } else {
      ZeroedMore(fat, done, e);
      walk := WalkOn(fat, c, low, done + [e]);
    }
  }
}
