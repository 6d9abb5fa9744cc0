/** Similarity search over the stored vectors (semantic/src/index.rs:165-240): the
    eight best, kept sorted while the index is scanned. Similarity itself is a
    parameter; only its order matters. */
module VectorSearch {
  import opened Bytes
  import opened StoreLayout
  import opened Wrappers
  import StoreCrash

  const MAX_VEC_RESULTS: nat := 8

  datatype VecResult = VecResult(hash: seq<Byte>, sector: nat, len: nat, similarity: real)

  /** The similarity of each index slot; None where there is nothing to offer. */
  type Sims = seq<Option<real>>

  predicate Offered(sims: Sims, n: nat) {
    n < |sims| && sims[n].Some?
  }

  /** Slot `m` ranks before slot `n`: more similar, or as similar and earlier. */
  predicate Before(sims: Sims, m: nat, n: nat)
    requires Offered(sims, m) && Offered(sims, n)
  {
    sims[m].value > sims[n].value || (sims[m].value == sims[n].value && m < n)
  }

  predicate AllOffered(sims: Sims, best: seq<nat>) {
    forall k :: 0 <= k < |best| ==> Offered(sims, best[k])
  }

  predicate Ranked(sims: Sims, best: seq<nat>)
    requires AllOffered(sims, best)
  {
    forall j, k :: 0 <= j < k < |best| ==> Before(sims, best[j], best[k])
  }

  /** `best` lists, in rank order, the first eight of the slots below `upto`:
      whatever it leaves out ranks after all of a full list. */
  ghost predicate IsBest(sims: Sims, upto: nat, best: seq<nat>) {
    && |best| <= MAX_VEC_RESULTS && AllOffered(sims, best) && Ranked(sims, best)
    && (forall k :: 0 <= k < |best| ==> best[k] < upto)
    && (forall n :: 0 <= n < upto && Offered(sims, n) && n !in best ==>
          |best| == MAX_VEC_RESULTS && Before(sims, best[MAX_VEC_RESULTS - 1], n))
  }

  /** That determines the list. */
  lemma BestIsUnique(sims: Sims, upto: nat, a: seq<nat>, b: seq<nat>)
    requires IsBest(sims, upto, a) && IsBest(sims, upto, b)
    ensures a == b
  {
    BestPrefix(sims, upto, a, b, Min(|a|, |b|));
    if |a| <= |b| {
      BestNext(sims, upto, a, b);
    } else {
      BestNext(sims, upto, b, a);
    }
  }

  lemma BestIsFresh(sims: Sims, upto: nat, b: seq<nat>, m: nat)
    requires IsBest(sims, upto, b) && m < |b|
    ensures b[m] !in b[..m] && b[m] < upto && Offered(sims, b[m]) && |b| <= MAX_VEC_RESULTS
  {
    forall j | 0 <= j < m
      ensures b[j] != b[m]
    {
      assert Before(sims, b[j], b[m]);
    }
  }

  lemma LeftOutOfFull(sims: Sims, upto: nat, a: seq<nat>, n: nat)
    requires IsBest(sims, upto, a) && n < upto && Offered(sims, n) && n !in a
    ensures |a| == MAX_VEC_RESULTS
  {
  }

  /** Lists of equal beginnings have equal lengths. */
  lemma BestNext(sims: Sims, upto: nat, a: seq<nat>, b: seq<nat>)
    requires IsBest(sims, upto, a) && IsBest(sims, upto, b) && |a| <= |b| && a == b[..|a|]
    ensures |a| == |b|
  {
    hide IsBest;
    if |a| < |b| {
      BestIsFresh(sims, upto, b, |a|);
      LeftOutOfFull(sims, upto, a, b[|a|]);
    }
  }

  lemma {:induction false} BestPrefix(sims: Sims, upto: nat, a: seq<nat>, b: seq<nat>, k: nat)
    requires IsBest(sims, upto, a) && IsBest(sims, upto, b) && k <= |a| && k <= |b|
    ensures a[..k] == b[..k]
    decreases k
  {
    if 0 < k {
      BestPrefix(sims, upto, a, b, k - 1);
      BestAt(sims, upto, a, b, k - 1);
      BestAt(sims, upto, b, a, k - 1);
      assert a[..k] == a[..k - 1] + [a[k - 1]] && b[..k] == b[..k - 1] + [b[k - 1]];
    }
  }

  /** Behind equal beginnings, `b` does not rank before `a`. */
  lemma BestAt(sims: Sims, upto: nat, a: seq<nat>, b: seq<nat>, k: nat)
    requires IsBest(sims, upto, a) && IsBest(sims, upto, b) && k < |a| && k < |b| && a[..k] == b[..k]
    ensures a[k] == b[k] || Before(sims, a[k], b[k])
  {
    var n := b[k];
    assert forall j :: 0 <= j < k ==> a[j] == a[..k][j] == b[j] && Before(sims, b[j], n);
    if n in a {
      var j :| 0 <= j < |a| && a[j] == n;
      assert k < j ==> Before(sims, a[k], a[j]);
    } else {
      assert Before(sims, a[MAX_VEC_RESULTS - 1], n);
      assert k < MAX_VEC_RESULTS - 1 ==> Before(sims, a[k], a[MAX_VEC_RESULTS - 1]);
    }
  }

  // ------------------------------------------------------------ insertion

  /** The list a newcomer is put into: the weakest of a full one is dropped. */
  function Room(best: seq<nat>): seq<nat>
    requires |best| <= MAX_VEC_RESULTS
  {
    if |best| < MAX_VEC_RESULTS then best else best[..MAX_VEC_RESULTS - 1]
  }

  function Inserted(base: seq<nat>, k: nat, n: nat): seq<nat>
    requires k <= |base|
  {
    base[..k] + [n] + base[k..]
  }

  /** A newcomer does not enter a full list that it does not beat. */
  lemma TurnedAway(sims: Sims, best: seq<nat>, n: nat)
    requires IsBest(sims, n, best) && Offered(sims, n) && |best| == MAX_VEC_RESULTS
    requires sims[n].value <= sims[best[MAX_VEC_RESULTS - 1]].value
    ensures IsBest(sims, n + 1, best)
  {
  }

  lemma NotOffered(sims: Sims, best: seq<nat>, n: nat)
    requires IsBest(sims, n, best) && !Offered(sims, n)
    ensures IsBest(sims, n + 1, best)
  {
  }

  /** A newcomer put behind everyone at least as similar keeps the list best. */
  lemma LetIn(sims: Sims, best: seq<nat>, n: nat, k: nat)
    requires IsBest(sims, n, best) && Offered(sims, n) && k <= |Room(best)|
    requires |best| == MAX_VEC_RESULTS ==> sims[best[MAX_VEC_RESULTS - 1]].value < sims[n].value
    requires k == 0 || sims[n].value <= sims[best[k - 1]].value
    requires forall i :: k <= i < |Room(best)| ==> sims[best[i]].value < sims[n].value
    ensures IsBest(sims, n + 1, Inserted(Room(best), k, n))
  {
    var base := Room(best);
    var next := Inserted(base, k, n);
    LetInRanked(sims, best, n, k);
    forall m | 0 <= m < n + 1 && Offered(sims, m) && m !in next
      ensures |next| == MAX_VEC_RESULTS && Before(sims, next[MAX_VEC_RESULTS - 1], m)
    {
      assert next[k] == n;
      LeftOut(sims, best, n, k, m);
    }
  }

  lemma InsertedAt(base: seq<nat>, k: nat, n: nat, i: nat)
    requires k <= |base| && i <= |base|
    ensures Inserted(base, k, n)[i] == if i < k then base[i] else if i == k then n else base[i - 1]
  {
  }

  lemma LetInRanked(sims: Sims, best: seq<nat>, n: nat, k: nat)
    requires IsBest(sims, n, best) && Offered(sims, n) && k <= |Room(best)|
    requires k == 0 || sims[n].value <= sims[best[k - 1]].value
    requires forall i :: k <= i < |Room(best)| ==> sims[best[i]].value < sims[n].value
    ensures var next := Inserted(Room(best), k, n);
            && |next| <= MAX_VEC_RESULTS && AllOffered(sims, next) && Ranked(sims, next)
            && forall i :: 0 <= i < |next| ==> next[i] < n + 1
  {
    var base := Room(best);
    var next := Inserted(base, k, n);
    forall i | 0 <= i < |next|
      ensures next[i] < n + 1 && Offered(sims, next[i])
    {
      InsertedAt(base, k, n, i);
    }
    forall i, j | 0 <= i < j < |next|
      ensures Before(sims, next[i], next[j])
    {
      InsertedAt(base, k, n, i);
      InsertedAt(base, k, n, j);
      if j == k { assert i < k - 1 ==> Before(sims, best[i], best[k - 1]); }
    }
  }

  lemma LeftOut(sims: Sims, best: seq<nat>, n: nat, k: nat, m: nat)
    requires IsBest(sims, n, best) && Offered(sims, n) && k <= |Room(best)| && m < n && Offered(sims, m)
    requires |best| == MAX_VEC_RESULTS ==> sims[best[MAX_VEC_RESULTS - 1]].value < sims[n].value
    requires m !in Inserted(Room(best), k, n)
    ensures |best| == MAX_VEC_RESULTS
    ensures var next := Inserted(Room(best), k, n);
            Offered(sims, next[MAX_VEC_RESULTS - 1]) && Before(sims, next[MAX_VEC_RESULTS - 1], m)
  {
    var base := Room(best);
    forall i | 0 <= i < |base|
      ensures base[i] != m
    {
      assert base[i] == Inserted(base, k, n)[if i < k then i else i + 1];
    }
    if m !in best {
      InsertedAt(base, k, n, MAX_VEC_RESULTS - 1);
    } else {
      var j :| 0 <= j < |best| && best[j] == m;
      InsertedAt(base, k, n, MAX_VEC_RESULTS - 1);
    }
  }

  // --------------------------------------------------------------- search

  /** Stored vectors lie on the disk. */
  predicate Readable(disk: Disk) {
    forall n: nat :: n < SLOTS && SlotAt(disk, n).sector != 0 && SlotAt(disk, n).vec != 0 ==>
                  SlotAt(disk, n).vec + 2 < TOTAL_BLOCKS
  }

  /** What slot `n` has to offer: entries in use with a vector similar enough. */
  function Offer(disk: Disk, similarity: seq<Byte> -> real, threshold: real, n: nat): Option<real>
    requires Readable(disk) && n < SLOTS
  {
    var e := SlotAt(disk, n);
    if e.sector == 0 || e.vec == 0 then None
    else
      var sim := similarity(VectorAt(disk, e.vec));
      if threshold <= sim then Some(sim) else None
  }

  function Offers(disk: Disk, similarity: seq<Byte> -> real, threshold: real): (s: Sims)
    requires Readable(disk)
    ensures |s| == SLOTS && forall n: nat :: n < SLOTS ==> s[n] == Offer(disk, similarity, threshold, n)
  {
    seq(SLOTS, n requires 0 <= n < SLOTS => Offer(disk, similarity, threshold, n))
  }

  function ResultOf(disk: Disk, sims: Sims, n: nat): VecResult
    requires n < SLOTS && Offered(sims, n)
  {
    var e := SlotAt(disk, n);
    VecResult(e.hash, e.sector, e.len, sims[n].value)
  }

  /** The results show the slots of `best`, in that order. */
  ghost predicate Shows(results: seq<VecResult>, disk: Disk, sims: Sims, best: seq<nat>) {
    && |best| <= |results|
    && forall k :: 0 <= k < |best| ==>
         best[k] < SLOTS && Offered(sims, best[k]) && results[k] == ResultOf(disk, sims, best[k])
  }

  /** What the comparisons of the bubbling loop see. */
  lemma ShowsAround(results: seq<VecResult>, disk: Disk, sims: Sims, base: seq<nat>, n: nat, k: nat)
    requires k <= |base| && AllOffered(sims, base) && Offered(sims, n)
    requires Shows(results, disk, sims, Inserted(base, k, n))
    ensures k < |results| && results[k].similarity == sims[n].value
    ensures 0 < k ==> results[k - 1].similarity == sims[base[k - 1]].value
  {
    InsertedAt(base, k, n, k);
    if 0 < k { InsertedAt(base, k, n, k - 1); }
  }

  lemma SwapShows(was: seq<VecResult>, now: seq<VecResult>, disk: Disk, sims: Sims, base: seq<nat>, n: nat, k: nat)
    requires 0 < k <= |base| && Shows(was, disk, sims, Inserted(base, k, n)) && k < |was|
    requires now == was[k := was[k - 1]][k - 1 := was[k]]
    ensures Shows(now, disk, sims, Inserted(base, k - 1, n))
  {
    var from, to := Inserted(base, k, n), Inserted(base, k - 1, n);
    forall i | 0 <= i < |to|
      ensures to[i] == from[if i == k then k - 1 else if i == k - 1 then k else i]
    {
    }
  }

  /** Moves the newcomer at `last` up past everyone less similar. */
  method BubbleUp(results: array<VecResult>, last: nat,
                  ghost disk: Disk, ghost sims: Sims, ghost base: seq<nat>, ghost n: nat)
      returns (ghost at: nat)
    requires last < results.Length && |base| == last && n < SLOTS && Offered(sims, n)
    requires AllOffered(sims, base) && Shows(results[..], disk, sims, Inserted(base, last, n))
    modifies results
    ensures at <= last && Shows(results[..], disk, sims, Inserted(base, at, n))
    ensures at == 0 || sims[n].value <= sims[base[at - 1]].value
    ensures forall i :: at <= i < last ==> sims[base[i]].value < sims[n].value
  {
    hide Shows, Inserted;
    var k: nat := last;
    while 0 < k && results[k].similarity > results[k - 1].similarity
      invariant k <= last && Shows(results[..], disk, sims, Inserted(base, k, n))
      invariant forall i :: k <= i < last ==> sims[base[i]].value < sims[n].value
    {
      ShowsAround(results[..], disk, sims, base, n, k);
      ghost var was := results[..];
      results[k], results[k - 1] := results[k - 1], results[k];
      SwapShows(was, results[..], disk, sims, base, n, k);
      k := k - 1;
    }
    ShowsAround(results[..], disk, sims, base, n, k);
    at := k;
  }

  /** A candidate written at the end of a list that has room. */
  lemma PlacedLast(was: seq<VecResult>, now: seq<VecResult>, disk: Disk, sims: Sims, best: seq<nat>, n: nat)
    requires |was| == MAX_VEC_RESULTS && |best| <= MAX_VEC_RESULTS && Shows(was, disk, sims, best)
    requires n < SLOTS && Offered(sims, n) && now == was[|Room(best)| := ResultOf(disk, sims, n)]
    ensures Shows(now, disk, sims, Inserted(Room(best), |Room(best)|, n))
  {
    var base := Room(best);
    forall i | 0 <= i <= |base|
      ensures Inserted(base, |base|, n)[i] == if i < |base| then base[i] else n
    {
    }
  }

  lemma BestFacts(sims: Sims, upto: nat, best: seq<nat>)
    requires IsBest(sims, upto, best)
    ensures |best| <= MAX_VEC_RESULTS && AllOffered(sims, best) && AllOffered(sims, Room(best))
    ensures |Room(best)| == Min(|best|, MAX_VEC_RESULTS - 1)
  {
  }

  lemma ShowsLast(results: seq<VecResult>, disk: Disk, sims: Sims, best: seq<nat>)
    requires Shows(results, disk, sims, best) && |best| == MAX_VEC_RESULTS == |results| && AllOffered(sims, best)
    ensures results[MAX_VEC_RESULTS - 1].similarity == sims[best[MAX_VEC_RESULTS - 1]].value
  {
  }

  /** Puts a candidate into the results, over the weakest of a full list. */
  method Admit(results: array<VecResult>, count: nat, candidate: VecResult,
               ghost disk: Disk, ghost sims: Sims, ghost best: seq<nat>, ghost n: nat)
      returns (count': nat, ghost best': seq<nat>)
    requires results.Length == MAX_VEC_RESULTS && count == |best| && n < SLOTS && Offered(sims, n)
    requires IsBest(sims, n, best) && Shows(results[..], disk, sims, best) && candidate == ResultOf(disk, sims, n)
    requires |best| == MAX_VEC_RESULTS ==> sims[best[MAX_VEC_RESULTS - 1]].value < sims[n].value
    modifies results
    ensures count' == |best'| && IsBest(sims, n + 1, best') && Shows(results[..], disk, sims, best')
  {
    BestFacts(sims, n, best);
    hide Shows, IsBest, AllOffered, ResultOf, Room;
    ghost var base, was := Room(best), results[..];
    var last := Min(count, MAX_VEC_RESULTS - 1);
    results[last] := candidate;
    PlacedLast(was, results[..], disk, sims, best, n);
    ghost var at := BubbleUp(results, last, disk, sims, base, n);
    RoomAt(best);
    LetIn(sims, best, n, at);
    count', best' := last + 1, Inserted(base, at, n);
  }

  lemma RoomAt(best: seq<nat>)
    requires |best| <= MAX_VEC_RESULTS
    ensures forall i :: 0 <= i < |Room(best)| ==> i < |best| && Room(best)[i] == best[i]
  {
  }

  /** Offers one candidate to the results kept so far. */
  method Consider(results: array<VecResult>, count: nat, disk: Disk, n: nat, sim: real,
                  ghost sims: Sims, ghost best: seq<nat>)
      returns (count': nat, ghost best': seq<nat>)
    requires results.Length == MAX_VEC_RESULTS && count == |best|
    requires n < SLOTS && Offered(sims, n) && sims[n].value == sim
    requires IsBest(sims, n, best) && Shows(results[..], disk, sims, best)
    modifies results
    ensures count' == |best'| && IsBest(sims, n + 1, best') && Shows(results[..], disk, sims, best')
  {
    BestFacts(sims, n, best);
    hide Shows, IsBest, SlotAt;
    var e := SlotAt(disk, n);
    var candidate := VecResult(e.hash, e.sector, e.len, sim);
    if count < MAX_VEC_RESULTS {
      count', best' := Admit(results, count, candidate, disk, sims, best, n);
    } else {
      ShowsLast(results[..], disk, sims, best);
      if sim > results[MAX_VEC_RESULTS - 1].similarity {
        count', best' := Admit(results, count, candidate, disk, sims, best, n);
      } else {
        TurnedAway(sims, best, n);
        count', best' := count, best;
      }
    }
  }

  lemma NothingYet(results: seq<VecResult>, disk: Disk, sims: Sims)
    ensures IsBest(sims, 0, []) && Shows(results, disk, sims, [])
  {
  }

  lemma EntryIsSlot(disk: Disk, i: nat, j: nat)
    requires i < INDEX_SECTORS && j < ENTRIES_PER_SECTOR
    ensures EntryIn(disk[INDEX_START + i], j) == SlotAt(disk, ENTRIES_PER_SECTOR * i + j)
  {
  }

  /** The stored entries most similar to the query: the first eight, by falling
      similarity and then by place in the index, of all at or above `threshold`. */
  method SearchByVector(disk: Disk, similarity: seq<Byte> -> real, threshold: real)
      returns (results: array<VecResult>, count: nat, ghost best: seq<nat>)
    requires Readable(disk)
    ensures fresh(results) && results.Length == MAX_VEC_RESULTS && count == |best|
    ensures IsBest(Offers(disk, similarity, threshold), SLOTS, best)
    ensures Shows(results[..], disk, Offers(disk, similarity, threshold), best)
  {
    hide Shows, IsBest, SlotAt, EntryIn;
    results := new VecResult[MAX_VEC_RESULTS](_ => VecResult(Zeros(32), 0, 0, 0.0));
    count, best := 0, [];
    ghost var sims := Offers(disk, similarity, threshold);
    NothingYet(results[..], disk, sims);
    var i := 0;
    while i < INDEX_SECTORS
      invariant 0 <= i <= INDEX_SECTORS && count == |best| && fresh(results)
      invariant IsBest(sims, ENTRIES_PER_SECTOR * i, best) && Shows(results[..], disk, sims, best)
    {
      var j := 0;
      while j < ENTRIES_PER_SECTOR
        invariant 0 <= j <= ENTRIES_PER_SECTOR && count == |best| && fresh(results)
        invariant IsBest(sims, ENTRIES_PER_SECTOR * i + j, best) && Shows(results[..], disk, sims, best)
      {
        var n := ENTRIES_PER_SECTOR * i + j;
        var e := EntryIn(disk[INDEX_START + i], j);
        EntryIsSlot(disk, i, j);
        assert sims[n] == Offer(disk, similarity, threshold, n);
        if e.sector != 0 && e.vec != 0 {
          var sim := similarity(VectorAt(disk, e.vec));
          if threshold <= sim {
            count, best := Consider(results, count, disk, n, sim, sims, best);
          } else {
            NotOffered(sims, best, n);
          }
        } else {
          NotOffered(sims, best, n);
        }
        j := j + 1;
      }
      i := i + 1;
    }
  }

  /** On a sound store every slot can be read, and one is offered exactly when it
      holds a blob with a vector at least as similar as asked, with that similarity. */
  lemma OfferIff(disk: Disk, limit: nat, similarity: seq<Byte> -> real, threshold: real, n: nat, sim: real)
    requires StoreCrash.WellStored(disk, limit) && n < SLOTS
    ensures Readable(disk)
    ensures Offer(disk, similarity, threshold, n) == Some(sim) <==>
            && InUse(disk, n)
            && StoreCrash.GoodEntry(SlotAt(disk, n), TOTAL_BLOCKS)
            && var vec := StoreCrash.BlobOf(disk, SlotAt(disk, n)).vec;
               vec.Some? && similarity(vec.value) == sim >= threshold
  {
    hide SlotAt;
    forall m: nat | m < SLOTS && InUse(disk, m)
      ensures StoreCrash.GoodEntry(SlotAt(disk, m), limit) && limit <= TOTAL_BLOCKS
    {
    }
  }
}
