/** Runs of cluster operations: every cluster is free or in exactly one chain. */
module FatPartition {
  import opened Wrappers
  import opened FatChains

  /** Every chain under its first cluster. */
  type Files = map<nat, seq<nat>>

  datatype Volume = Volume(fat: Fat, hint: nat, files: Files)

  predicate Owned(files: Files, c: nat) {
    exists k :: k in files && c in files[k]
  }

  predicate Apart(a: seq<nat>, b: seq<nat>) {
    forall c :: c in a ==> c !in b
  }

  predicate AllChains(fat: Fat, files: Files) {
    forall k :: k in files ==> IsChain(fat, files[k]) && files[k][0] == k
  }

  predicate AllApart(files: Files) {
    forall k, l :: k in files && l in files && k != l ==> Apart(files[k], files[l])
  }

  /** What is not free is in a chain. */
  predicate UsedIsOwned(fat: Fat, files: Files) {
    forall c {:trigger Owned(files, c)} :: 2 <= c < |fat| ==> (fat[c] != FAT_FREE <==> Owned(files, c))
  }

  predicate Partition(v: Volume) {
    && Closed(v.fat) && 3 <= v.hint <= |v.fat|
    && AllChains(v.fat, v.files) && AllApart(v.files) && UsedIsOwned(v.fat, v.files)
  }

  // -------------------------------------------------- filing and dropping

  /** Clusters of a chain are in use. */
  lemma ChainUsed(fat: Fat, cs: seq<nat>, c: nat)
    requires IsChain(fat, cs) && c in cs
    ensures IsCluster(fat, c) && fat[c] != FAT_FREE
  {
    var i :| 0 <= i < |cs| && cs[i] == c;
    assert i < |cs| - 1 ==> fat[cs[i]] == cs[i + 1] && IsCluster(fat, cs[i + 1]);
  }

  /** Chains do not see changes elsewhere. */
  lemma ChainsFramed(fat: Fat, fat': Fat, files: Files, touched: seq<nat>)
    requires AllChains(fat, files) && |fat'| == |fat|
    requires forall c :: 0 <= c < |fat| && c !in touched ==> fat'[c] == fat[c]
    requires forall k :: k in files ==> Apart(files[k], touched)
    ensures AllChains(fat', files)
  {
    forall k | k in files
      ensures IsChain(fat', files[k])
    {
      var cs := files[k];
      assert Apart(cs, touched) && IsChain(fat, cs);
      forall i | 0 <= i < |cs|
        ensures IsCluster(fat, cs[i]) && fat'[cs[i]] == fat[cs[i]]
      {
        assert cs[i] in cs;
      }
    }
  }

  lemma Drop(files: Files, k: nat)
    requires AllApart(files) && k in files
    ensures AllApart(files - {k}) && forall l :: l in files - {k} ==> Apart((files - {k})[l], files[k])
    ensures forall c :: Owned(files - {k}, c) <==> Owned(files, c) && c !in files[k]
  {
    var files' := files - {k};
    forall c
      ensures Owned(files', c) <==> Owned(files, c) && c !in files[k]
    {
      if Owned(files', c) {
        var l :| l in files' && c in files'[l];
        assert Apart(files[l], files[k]);
      }
      if Owned(files, c) && c !in files[k] {
        var l :| l in files && c in files[l];
        assert l in files' && c in files'[l];
      }
    }
  }

  lemma File(files: Files, k: nat, cs: seq<nat>)
    requires AllApart(files) && k !in files && forall l :: l in files ==> Apart(files[l], cs)
    ensures AllApart(files[k := cs])
    ensures forall c :: Owned(files[k := cs], c) <==> Owned(files, c) || c in cs
  {
    var files' := files[k := cs];
    forall c
      ensures Owned(files', c) <==> Owned(files, c) || c in cs
    {
      if Owned(files, c) {
        var l :| l in files && c in files[l];
        assert l in files' && c in files'[l];
      }
      assert k in files' && files'[k] == cs;
    }
  }

  lemma FileChain(fat: Fat, files: Files, k: nat, cs: seq<nat>)
    requires AllChains(fat, files) && k !in files && IsChain(fat, cs) && cs[0] == k
    ensures AllChains(fat, files[k := cs])
  {
  }

  /** Nobody owns a free cluster, and no file begins with it. */
  lemma FreeIsNobodys(v: Volume, c: nat)
    requires Partition(v) && 2 <= c < |v.fat| && v.fat[c] == FAT_FREE
    ensures c !in v.files && forall k :: k in v.files ==> c !in v.files[k]
  {
    assert !Owned(v.files, c);
    forall k | k in v.files
      ensures c !in v.files[k] && k != c
    {
      assert v.files[k][0] in v.files[k];
    }
  }

  // ---------------------------------------------------------- allocate

  function Allocated(v: Volume, c: nat): Volume
    requires 3 <= c < |v.fat|
  {
    Volume(v.fat[c := FAT_EOC], c + 1, v.files[c := [c]])
  }

  lemma AllocKeeps(v: Volume, c: nat)
    requires Partition(v) && 3 <= c < |v.fat| && v.fat[c] == FAT_FREE
    ensures Partition(Allocated(v, c))
  {
    FreeIsNobodys(v, c);
    var v' := Allocated(v, c);
    hide AllChains, AllApart, Owned;
    ChainsFramed(v.fat, v'.fat, v.files, [c]);
    FileChain(v'.fat, v.files, c, [c]);
    File(v.files, c, [c]);
  }

  // -------------------------------------------------------------- unlink

  function Unlinked(v: Volume, start: nat): Volume
    requires Closed(v.fat) && start < |v.fat|
  {
    Volume(FreeFrom(v.fat, start, 2), v.hint, v.files - {start})
  }

  lemma ChainOf(v: Volume, start: nat)
    requires Partition(v) && start in v.files
    ensures IsChain(v.fat, v.files[start]) && v.files[start][0] == start && IsCluster(v.fat, start)
    ensures Distinct(v.files[start])
  {
    assert IsChain(v.fat, v.files[start]);
    assert IsCluster(v.fat, v.files[start][0]);
    ChainDistinct(v.fat, v.files[start]);
  }

  /** A change confined to the clusters of one file leaves the others as they are. */
  lemma OthersRemain(fat: Fat, fat': Fat, files: Files, k: nat)
    requires AllChains(fat, files) && AllApart(files) && k in files && |fat'| == |fat|
    requires forall c :: 0 <= c < |fat| && c !in files[k] ==> fat'[c] == fat[c]
    ensures AllChains(fat', files - {k}) && AllApart(files - {k})
  {
    assert AllChains(fat, files - {k});
    hide AllChains, AllApart, Apart, Owned;
    Drop(files, k);
    ChainsFramed(fat, fat', files - {k}, files[k]);
  }

  /** Taking file `k` out of the table and putting the chain `cs`, of its own
      or free clusters, in its place (nothing at all if `cs` is empty). */
  lemma UsedAfter(fat: Fat, fat': Fat, files: Files, k: nat, cs: seq<nat>, files': Files)
    requires UsedIsOwned(fat, files) && k in files && |fat'| == |fat|
    requires forall c :: 2 <= c < |fat| && c !in files[k] && c !in cs ==> fat'[c] == fat[c]
    requires forall c :: 2 <= c < |fat| && c in files[k] && c !in cs ==> fat'[c] == FAT_FREE
    requires forall c :: 2 <= c < |fat| && c in cs ==> fat'[c] != FAT_FREE
    requires forall c :: Owned(files', c) <==> (Owned(files, c) && c !in files[k]) || c in cs
    ensures UsedIsOwned(fat', files')
  {
  }

  /** The file's clusters are freed; the rest of the table stays. */
  lemma UnlinkFrees(v: Volume, start: nat)
    requires Partition(v) && start in v.files
    ensures start < |v.fat| && Unlinked(v, start).fat == Zeroed(v.fat, v.files[start])
  {
    ChainOf(v, start);
    hide AllChains, AllApart, Owned, IsChain, FreeFrom, Distinct, UsedIsOwned;
    FreesChain(v.fat, v.files[start], 2);
  }

  lemma UnlinkUsed(v: Volume, start: nat)
    requires Partition(v) && start in v.files
    ensures UsedIsOwned(Zeroed(v.fat, v.files[start]), v.files - {start})
  {
    hide AllChains, AllApart, Apart, Owned, UsedIsOwned;
    Drop(v.files, start);
    UsedAfter(v.fat, Zeroed(v.fat, v.files[start]), v.files, start, [], v.files - {start});
  }

  /** Unlinking frees the clusters of that file and touches nothing else. */
  lemma UnlinkKeeps(v: Volume, start: nat)
    requires Partition(v) && start in v.files
    ensures start < |v.fat| && Partition(Unlinked(v, start))
    ensures Unlinked(v, start).fat == Zeroed(v.fat, v.files[start])
  {
    hide AllChains, AllApart, UsedIsOwned, FreeFrom;
    UnlinkFrees(v, start);
    UnlinkUsed(v, start);
    OthersRemain(v.fat, Unlinked(v, start).fat, v.files, start);
  }

  // ------------------------------------------------------------ truncate

  function Truncated(v: Volume, start: nat): Volume
    requires Closed(v.fat) && start < |v.fat|
  {
    Volume(FreeFrom(v.fat, v.fat[start], 0)[start := FAT_EOC], v.hint, (v.files - {start})[start := [start]])
  }

  lemma TruncateFrees(fat: Fat, cs: seq<nat>)
    requires Closed(fat) && IsChain(fat, cs)
    ensures FreeFrom(fat, fat[cs[0]], 0) == Zeroed(fat, cs[1..])
  {
    if |cs| == 1 {
      assert Zeroed(fat, cs[1..]) == fat;
    } else {
      var rest := cs[1..];
      assert fat[cs[0]] == cs[1] && forall i :: 0 <= i < |rest| ==> rest[i] == cs[i + 1];
      assert IsChain(fat, rest);
      FreesChain(fat, rest, 0);
    }
  }

  /** What truncating leaves of the table. */
  lemma TruncateLeaves(v: Volume, start: nat)
    requires Partition(v) && start in v.files
    ensures start < |v.fat| && Truncated(v, start).fat == Zeroed(v.fat, v.files[start])[start := FAT_EOC]
    ensures start in v.files[start] && IsChain(Truncated(v, start).fat, [start])
  {
    ChainOf(v, start);
    hide AllChains, AllApart, Owned, UsedIsOwned, FreeFrom;
    var cs := v.files[start];
    TruncateFrees(v.fat, cs);
    assert forall c :: c in cs <==> c == start || c in cs[1..];
    assert Truncated(v, start).fat == Zeroed(v.fat, cs)[start := FAT_EOC];
  }

  /** Truncating keeps the first cluster as a chain of its own and frees the rest. */
  lemma TruncateKeeps(v: Volume, start: nat)
    requires Partition(v) && start in v.files
    ensures start < |v.fat| && Partition(Truncated(v, start))
    ensures Truncated(v, start).fat == Zeroed(v.fat, v.files[start])[start := FAT_EOC]
  {
    hide AllChains, AllApart, UsedIsOwned, FreeFrom, IsChain, Owned;
    TruncateLeaves(v, start);
    TruncateUsed(v, start);
  }

  lemma TruncateUsed(v: Volume, start: nat)
    requires Partition(v) && start in v.files && start < |v.fat|
    requires Truncated(v, start).fat == Zeroed(v.fat, v.files[start])[start := FAT_EOC]
    requires start in v.files[start] && IsChain(Truncated(v, start).fat, [start])
    ensures var v' := Truncated(v, start);
            AllChains(v'.fat, v'.files) && AllApart(v'.files) && UsedIsOwned(v'.fat, v'.files)
  {
    hide AllChains, AllApart, UsedIsOwned, FreeFrom, IsChain, Owned, Apart;
    var v' := Truncated(v, start);
    OthersRemain(v.fat, v'.fat, v.files, start);
    Refile(v.files, start, [start], v'.fat);
    UsedAfter(v.fat, v'.fat, v.files, start, [start], v'.files);
  }

  /** Filing a new chain for `k`, made of its own clusters and free ones. */
  lemma Refile(files: Files, k: nat, cs: seq<nat>, fat: Fat)
    requires AllApart(files) && k in files && IsChain(fat, cs) && cs[0] == k && AllChains(fat, files - {k})
    requires forall c :: c in cs ==> c in files[k] || !Owned(files, c)
    ensures AllChains(fat, (files - {k})[k := cs]) && AllApart((files - {k})[k := cs])
    ensures forall c :: Owned((files - {k})[k := cs], c) <==> (Owned(files, c) && c !in files[k]) || c in cs
  {
    var rest := files - {k};
    Drop(files, k);
    forall l | l in rest
      ensures Apart(rest[l], cs)
    {
      assert Apart(rest[l], files[k]);
      forall c | c in rest[l]
        ensures c !in cs
      {
        assert l in files && c in files[l];
        assert Owned(files, c);
      }
    }
    hide Owned, Apart, AllApart, IsChain;
    FileChain(fat, rest, k, cs);
    File(rest, k, cs);
  }

  // -------------------------------------------------------------- append

  /** The loop that looks for the last cluster of a chain. */
  function Tail(fat: Fat, c: nat, ghost cs: seq<nat>): (t: nat)
    requires IsChain(fat, cs) && cs[0] == c
    ensures t == cs[|cs| - 1]
    decreases |cs|
  {
    TailStep(fat, cs);
    if IsEoc(fat[c]) then c else Tail(fat, fat[c], cs[1..])
  }

  lemma TailStep(fat: Fat, cs: seq<nat>)
    requires IsChain(fat, cs)
    ensures IsCluster(fat, cs[0]) && (IsEoc(fat[cs[0]]) <==> |cs| == 1)
    ensures 1 < |cs| ==> IsChain(fat, cs[1..]) && fat[cs[0]] == cs[1]
  {
    if 1 < |cs| {
      assert fat[cs[0]] == cs[1] && IsCluster(fat, cs[1]);
      assert forall i :: 0 <= i < |cs[1..]| ==> cs[1..][i] == cs[i + 1];
    }
  }

  /** The one-cluster chain `c` is linked behind the chain of `start`. */
  function Linked(v: Volume, start: nat, c: nat): Volume
    requires start in v.files && IsChain(v.fat, v.files[start]) && c < |v.fat|
  {
    var cs := v.files[start];
    Volume(v.fat[Tail(v.fat, cs[0], cs) := c], v.hint, (v.files - {c} - {start})[start := cs + [c]])
  }

  lemma LinkedChain(fat: Fat, cs: seq<nat>, c: nat)
    requires IsChain(fat, cs) && Distinct(cs) && IsChain(fat, [c]) && c !in cs
    ensures cs[|cs| - 1] < |fat| && IsCluster(fat, c) && IsChain(fat[cs[|cs| - 1] := c], cs + [c])
  {
    assert IsCluster(fat, [c][0]) && IsCluster(fat, cs[|cs| - 1]);
    var fat' := fat[cs[|cs| - 1] := c];
    var all := cs + [c];
    forall i | 0 <= i < |all| - 1
      ensures fat'[all[i]] == all[i + 1]
    {
    }
  }

  lemma LinkFacts(v: Volume, start: nat, c: nat)
    requires Partition(v) && start in v.files && c in v.files && c != start && v.files[c] == [c]
    ensures IsChain(v.fat, v.files[start]) && c < |v.fat| && v.fat[c] != FAT_FREE && c !in v.files[start]
    ensures var cs := v.files[start];
            var v' := Linked(v, start, c);
            && cs[|cs| - 1] in cs && cs[|cs| - 1] < |v.fat| && v'.fat == v.fat[cs[|cs| - 1] := c]
            && (cs + [c])[0] == start && IsChain(v'.fat, cs + [c]) && 2 <= c
            && forall d :: d in cs ==> 2 <= d < |v.fat| && v.fat[d] != FAT_FREE
  {
    ChainOf(v, start);
    ChainOf(v, c);
    var cs := v.files[start];
    assert Apart(v.files[c], cs);
    LinkedChain(v.fat, cs, c);
    forall d | d in cs
      ensures 2 <= d < |v.fat| && v.fat[d] != FAT_FREE
    {
      ChainUsed(v.fat, cs, d);
    }
    ChainUsed(v.fat, [c], c);
  }

  lemma LinkKeeps(v: Volume, start: nat, c: nat)
    requires Partition(v) && start in v.files && c in v.files && c != start && v.files[c] == [c]
    ensures IsChain(v.fat, v.files[start]) && c < |v.fat| && Partition(Linked(v, start, c))
  {
    hide AllChains, AllApart, Owned, IsChain, Distinct, Tail, Apart, UsedIsOwned;
    LinkFacts(v, start, c);
    LinkUsed(v, start, c);
  }

  lemma LinkUsed(v: Volume, start: nat, c: nat)
    requires Partition(v) && start in v.files && c in v.files && c != start && v.files[c] == [c]
    ensures IsChain(v.fat, v.files[start]) && c < |v.fat|
    ensures var v' := Linked(v, start, c);
            AllChains(v'.fat, v'.files) && AllApart(v'.files) && UsedIsOwned(v'.fat, v'.files)
  {
    hide AllChains, AllApart, Owned, IsChain, Distinct, Tail, Apart, UsedIsOwned;
    LinkFacts(v, start, c);
    var cs := v.files[start];
    var v' := Linked(v, start, c);
    var files := v.files - {c};
    OthersRemain(v.fat, v.fat, v.files, c);
    Drop(v.files, c);
    OthersRemain(v.fat, v'.fat, files, start);
    Refile(files, start, cs + [c], v'.fat);
    LinkOwned(v, start, c);
  }

  lemma LinkOwned(v: Volume, start: nat, c: nat)
    requires Partition(v) && start in v.files && c in v.files && c != start && v.files[c] == [c]
    requires IsChain(v.fat, v.files[start]) && c < |v.fat|
    requires forall d :: Owned(Linked(v, start, c).files, d) <==>
               (Owned(v.files - {c}, d) && d !in v.files[start]) || d in v.files[start] + [c]
    ensures UsedIsOwned(Linked(v, start, c).fat, Linked(v, start, c).files)
  {
    hide AllChains, AllApart, Owned, IsChain, Distinct, Tail, Apart;
    LinkFacts(v, start, c);
    Drop(v.files, c);
  }

  // ---------------------------------------------------------------- runs

  datatype Op = Create | Append(start: nat) | Truncate(start: nat) | Unlink(start: nat)

  predicate Enabled(v: Volume, op: Op) {
    op.Create? || op.start in v.files
  }

  /** A new cluster becomes a file of its own, or is linked behind one; when the
      volume is full nothing happens. */
  function Apply(v: Volume, op: Op): Volume
    requires Partition(v) && Enabled(v, op)
  {
    match op
    case Create =>
      if FindFree(v.fat, v.hint).Some? then
        FindFreeIff(v.fat, v.hint);
        Allocated(v, FindFree(v.fat, v.hint).value)
      else v
    case Append(start) =>
      if FindFree(v.fat, v.hint).Some? then
        var c := FindFree(v.fat, v.hint).value;
        AppendOk(v, start, c);
        Linked(Allocated(v, c), start, c)
      else v
    case Truncate(start) => TruncateKeeps(v, start); Truncated(v, start)
    case Unlink(start) => UnlinkKeeps(v, start); Unlinked(v, start)
  }

  lemma AppendOk(v: Volume, start: nat, c: nat)
    requires Partition(v) && start in v.files && FindFree(v.fat, v.hint) == Some(c)
    ensures 3 <= c < |v.fat|
    ensures var v1 := Allocated(v, c);
            && start in v1.files && IsChain(v1.fat, v1.files[start]) && v1.files[start] == v.files[start]
            && Partition(Linked(v1, start, c))
  {
    hide AllChains, AllApart, Owned, UsedIsOwned, IsChain;
    FindFreeIff(v.fat, v.hint);
    FreeIsNobodys(v, c);
    AllocKeeps(v, c);
    LinkKeeps(Allocated(v, c), start, c);
  }

  lemma StepKeeps(v: Volume, op: Op)
    requires Partition(v) && Enabled(v, op)
    ensures Partition(Apply(v, op)) && |Apply(v, op).fat| == |v.fat|
  {
    hide AllChains, AllApart, UsedIsOwned, Closed, FreeFrom;
    match op {
      case Create =>
        if FindFree(v.fat, v.hint).Some? {
          FindFreeIff(v.fat, v.hint);
          AllocKeeps(v, FindFree(v.fat, v.hint).value);
        }
      case Append(start) =>
        if FindFree(v.fat, v.hint).Some? { AppendOk(v, start, FindFree(v.fat, v.hint).value); }
      case Truncate(start) => TruncateKeeps(v, start);
      case Unlink(start) => UnlinkKeeps(v, start);
    }
  }

  ghost predicate IsRun(states: seq<Volume>, ops: seq<Op>) {
    && |states| == |ops| + 1
    && forall i :: 0 <= i < |ops| ==>
         Partition(states[i]) && Enabled(states[i], ops[i]) ==> states[i + 1] == Apply(states[i], ops[i])
  }

  /** After any run of creating, appending, truncating and unlinking, every
      cluster is either free or in exactly one chain, and every chain is in
      range, ended by a mark, and free of repetitions. */
  lemma {:induction false} RunKeeps(states: seq<Volume>, ops: seq<Op>, n: nat)
    requires IsRun(states, ops) && Partition(states[0]) && n <= |ops|
    requires forall i :: 0 <= i < |ops| ==> Enabled(states[i], ops[i])
    ensures Partition(states[n]) && EachOnce(states[n])
    decreases n
  {
    hide Partition, EachOnce;
    if 0 < n {
      RunKeeps(states, ops, n - 1);
      var i := n - 1;
      assert Enabled(states[i], ops[i]) && states[i + 1] == Apply(states[i], ops[i]);
      StepKeeps(states[i], ops[i]);
    }
    PartitionMeans(states[n]);
  }

  /** Every cluster is free or in a chain, in one only; chains do not repeat. */
  ghost predicate EachOnce(v: Volume) {
    && (forall c :: 2 <= c < |v.fat| ==> (v.fat[c] == FAT_FREE <==> !Owned(v.files, c)))
    && (forall c, k, l :: k in v.files && l in v.files && c in v.files[k] && c in v.files[l] ==> k == l)
    && (forall k :: k in v.files ==> IsChain(v.fat, v.files[k]) && Distinct(v.files[k]))
  }

  lemma PartitionMeans(v: Volume)
    requires Partition(v)
    ensures EachOnce(v)
  {
    forall c, k, l | k in v.files && l in v.files && c in v.files[k] && c in v.files[l]
      ensures k == l
    {
      assert k == l || Apart(v.files[k], v.files[l]);
    }
    hide Owned;
    forall k | k in v.files
      ensures IsChain(v.fat, v.files[k]) && Distinct(v.files[k])
    {
      ChainOf(v, k);
    }
  }
}
