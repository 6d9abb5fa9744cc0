/** The bitmap page allocator (kernel/src/memory/page.rs), down to the bits of
    each bitmap byte. A set bit is a free page. */
module PageBitmap {
  import opened Wrappers

  const PAGE_SIZE: nat := 4096
  const RAM_BASE: nat := 0x4000_0000
  const MAX_RAM_END: nat := 0x4_4000_0000
  const MAX_PAGES: nat := (MAX_RAM_END - RAM_BASE) / PAGE_SIZE
  const BITMAP_BYTES: nat := (MAX_PAGES + 7) / 8

  // ---------------------------------------------------------------- bits

  function Mask(k: nat): bv8
    requires k < 8
  {
    (1 as bv8) << k
  }

  predicate Bit(b: bv8, k: nat)
    requires k < 8
  {
    b & Mask(k) != 0
  }

  /** The eight masks written out, so that bit arguments need no shifts. */
  lemma MaskTable(k: nat)
    requires k < 8
    ensures Mask(k) == [1, 2, 4, 8, 16, 32, 64, 128][k]
  {
  }

  /** The free map that the first `n` bits of the bitmap stand for. */
  function Decode(bytes: seq<bv8>, n: nat): (free: seq<bool>)
    requires n <= |bytes| * 8
    ensures |free| == n
  {
    seq(n, i requires 0 <= i < n => Bit(bytes[i / 8], i % 8))
  }

  /** The read-modify-write of one byte changes one bit of the free map. */
  function PutBit(old8: bv8, k: nat, b: bool): bv8
    requires k < 8
  {
    if b then old8 | Mask(k) else old8 & !Mask(k)
  }

  lemma PutOneBit(old8: bv8, k: nat, b: bool, j: nat)
    requires k < 8 && j < 8
    ensures Bit(PutBit(old8, k, b), j) == if j == k then b else Bit(old8, j)
  {
    MaskTable(k);
    MaskTable(j);
  }

  lemma DecodePutBit(bytes: seq<bv8>, n: nat, i: nat, b: bool)
    requires i < n <= |bytes| * 8
    ensures Decode(bytes[i / 8 := PutBit(bytes[i / 8], i % 8, b)], n) == Decode(bytes, n)[i := b]
  {
    var after := bytes[i / 8 := PutBit(bytes[i / 8], i % 8, b)];
    forall j | 0 <= j < n ensures Decode(after, n)[j] == Decode(bytes, n)[i := b][j] {
      if j / 8 == i / 8 {
        PutOneBit(bytes[i / 8], i % 8, b, j % 8);
      }
    }
  }

  // ------------------------------------------------------- specification

  /** Pages `[s, s+n)` exist and are all free. */
  predicate FreeRun(free: seq<bool>, s: nat, n: nat) {
    s + n <= |free| && forall k :: s <= k < s + n ==> free[k]
  }

  /** `r` is the lowest free run of `n` pages, or None when there is none. */
  ghost predicate FirstFit(free: seq<bool>, n: nat, r: Option<nat>) {
    match r
    case Some(s) => FreeRun(free, s, n) && forall t: nat :: t < s ==> !FreeRun(free, t, n)
    case None => forall t: nat :: !FreeRun(free, t, n)
  }

  /** `free` with the bits of `[s, s+n)` all set to `b`. */
  function Filled(free: seq<bool>, s: nat, n: nat, b: bool): seq<bool> {
    seq(|free|, i requires 0 <= i < |free| => if s <= i < s + n then b else free[i])
  }

  function CountFree(free: seq<bool>): nat {
    if free == [] then 0
    else CountFree(free[..|free| - 1]) + (if free[|free| - 1] then 1 else 0)
  }

  lemma {:induction false} CountUpdate(free: seq<bool>, k: nat, b: bool)
    requires k < |free|
    ensures CountFree(free[k := b]) == CountFree(free) - (if free[k] then 1 else 0) + (if b then 1 else 0)
    decreases |free|
  {
    var last := |free| - 1;
    if k == last {
      assert free[k := b][..last] == free[..last];
    } else {
      assert free[k := b][..last] == free[..last][k := b];
      CountUpdate(free[..last], k, b);
    }
  }

  /** Taking a free run lowers the free count by exactly its length. */
  lemma {:induction false} TakeLowersCount(free: seq<bool>, s: nat, n: nat)
    requires FreeRun(free, s, n)
    ensures CountFree(Filled(free, s, n, false)) == CountFree(free) - n
    decreases n
  {
    if n == 0 {
      assert Filled(free, s, 0, false) == free;
    } else {
      TakeLowersCount(free, s, n - 1);
      var before := Filled(free, s, n - 1, false);
      assert Filled(free, s, n, false) == before[s + n - 1 := false];
      CountUpdate(before, s + n - 1, false);
    }
  }

  /** Releasing what a successful allocation took gives the bitmap back. */
  lemma ReleaseUndoesTake(free: seq<bool>, s: nat, n: nat)
    requires FreeRun(free, s, n)
    ensures Filled(Filled(free, s, n, false), s, n, true) == free
  {
  }

  // ------------------------------------------------------- the allocator

  /** The guards of `free_page` let through exactly the addresses of managed pages. */
  lemma GuardsAgree(addr: nat, base: nat, top: nat, pages: nat)
    requires base % PAGE_SIZE == 0 && base + pages * PAGE_SIZE <= top
    ensures base <= addr ==>
              (addr % PAGE_SIZE == 0 <==> (addr - base) % PAGE_SIZE == 0)
              && ((addr - base) / PAGE_SIZE < pages ==> addr < top)
  {
  }

  /** `addr` is one of `count` page addresses from `base` on. */
  predicate Among(addr: nat, base: nat, count: nat) {
    base <= addr < base + count * PAGE_SIZE && (addr - base) % PAGE_SIZE == 0
  }

  lemma AmongNext(addr: nat, base: nat, n: nat)
    ensures Among(addr, base, n + 1) <==> Among(addr, base, n) || addr == base + n * PAGE_SIZE
  {
  }

  lemma AmongRun(pageBase: nat, s: nat, k: nat, n: nat)
    ensures Among(pageBase + k * PAGE_SIZE, pageBase + s * PAGE_SIZE, n) <==> s <= k < s + n
  {
  }

  class PageAllocator {
    const bitmap: array<bv8>
    const pageBase: nat
    const numPages: nat
    const ramTop: nat

    ghost predicate Valid()
      reads this, bitmap
    {
      && numPages <= bitmap.Length * 8
      && pageBase % PAGE_SIZE == 0
      && 0 < pageBase
      && pageBase + numPages * PAGE_SIZE <= ramTop <= MAX_RAM_END
    }

    ghost function Free(): (free: seq<bool>)
      requires Valid()
      reads this, bitmap
      ensures |free| == numPages
    {
      Decode(bitmap[..], numPages)
    }

    /** Address of page `i`. */
    function Addr(i: nat): nat {
      pageBase + i * PAGE_SIZE
    }

    /** `init`: every page between the kernel image and the top of RAM is free. */
    constructor (ramEnd: nat, kernelEnd: nat)
      requires RAM_BASE <= kernelEnd
      requires (kernelEnd + PAGE_SIZE - 1) / PAGE_SIZE * PAGE_SIZE <= Min(ramEnd, MAX_RAM_END)
      ensures Valid() && fresh(bitmap)
      ensures kernelEnd <= pageBase < kernelEnd + PAGE_SIZE
      ensures ramTop == Min(ramEnd, MAX_RAM_END) < Addr(numPages + 1)
      ensures forall i :: 0 <= i < numPages ==> Free()[i]
    {
      hide Decode;
      var top := Min(ramEnd, MAX_RAM_END);
      var base := (kernelEnd + PAGE_SIZE - 1) / PAGE_SIZE * PAGE_SIZE;
      var map0 := new bv8[BITMAP_BYTES](_ => 0);
      var pages := (top - base) / PAGE_SIZE;
      bitmap, pageBase, numPages, ramTop := map0, base, pages, top;
      new;
      var i := 0;
      while i < numPages
        invariant 0 <= i <= numPages
        invariant forall j :: 0 <= j < i ==> Free()[j]
      {
        SetBitTo(i, true);
        i := i + 1;
      }
    }

    method SetBitTo(i: nat, b: bool)
      requires Valid() && i < numPages
      modifies bitmap
      ensures Free() == old(Free())[i := b]
    {
      DecodePutBit(bitmap[..], numPages, i, b);
      var byte := PutBit(bitmap[i / 8], i % 8, b);
      bitmap[i / 8] := byte;
      assert bitmap[..] == old(bitmap[..])[i / 8 := byte];
    }

    method TakeRun(start: nat, count: nat)
      requires Valid() && start + count <= numPages
      modifies bitmap
      ensures Free() == Filled(old(Free()), start, count, false)
    {
      var k := 0;
      while k < count
        invariant 0 <= k <= count
        invariant Free() == Filled(old(Free()), start, k, false)
      {
        SetBitTo(start + k, false);
        k := k + 1;
      }
    }

    method IsFree(i: nat) returns (b: bool)
      requires Valid() && i < numPages
      ensures b == Free()[i]
    {
      b := bitmap[i / 8] & Mask(i % 8) != 0;
    }

    method AllocPages(count: nat) returns (r: Option<nat>)
      requires Valid()
      modifies bitmap
      ensures count == 0 ==> r == None && Free() == old(Free())
      ensures 0 < count && r.None? ==> FirstFit(old(Free()), count, None) && Free() == old(Free())
      ensures r.Some? ==> exists s: nat ::
                && r.value == Addr(s)
                && FirstFit(old(Free()), count, Some(s))
                && Free() == Filled(old(Free()), s, count, false)
    {
      hide Decode, Filled;
      if count == 0 { return None; }
      var consecutive, start := 0, 0;
      var i := 0;
      while i < numPages
        invariant 0 <= i <= numPages && consecutive < count
        invariant 0 < consecutive ==> start == i - consecutive
        invariant consecutive <= i
        invariant Free() == old(Free())
        invariant FreeRun(Free(), i - consecutive, consecutive)
        invariant consecutive < i ==> !Free()[i - consecutive - 1]
        invariant forall t: nat :: t + count <= i ==> !FreeRun(Free(), t, count)
      {
        var free := IsFree(i);
        if free {
          if consecutive == 0 { start := i; }
          consecutive := consecutive + 1;
          if consecutive == count {
            TakeRun(start, count);
            assert FirstFit(old(Free()), count, Some(start));
            return Some(pageBase + start * PAGE_SIZE);
          }
          forall t: nat | t + count <= i + 1 ensures !FreeRun(Free(), t, count) {
            if t + count == i + 1 { assert !Free()[i - consecutive]; }
          }
        } else {
          consecutive := 0;
        }
        i := i + 1;
      }
      return None;
    }

    /** The page at `addr`, when `addr` is the address of a managed page. */
    function IndexOf(addr: nat): (r: Option<nat>)
      ensures r.Some? ==> r.value < numPages
    {
      if pageBase <= addr && (addr - pageBase) % PAGE_SIZE == 0 && (addr - pageBase) / PAGE_SIZE < numPages
      then Some((addr - pageBase) / PAGE_SIZE) else None
    }

    /** Anything that is not the address of a managed page is ignored. */
    method FreePage(addr: nat)
      requires Valid()
      modifies bitmap
      ensures Free() == match IndexOf(addr)
                        case Some(i) => old(Free())[i := true]
                        case None => old(Free())
    {
      hide Decode;
      GuardsAgree(addr, pageBase, ramTop, numPages);
      if addr < pageBase || ramTop <= addr { return; }
      if addr % PAGE_SIZE != 0 { return; }
      var index := (addr - pageBase) / PAGE_SIZE;
      if index < numPages {
        SetBitTo(index, true);
      }
    }

    /** Frees the managed pages among `count` consecutive addresses, wherever the
        range begins and ends. */
    method ReleasePages(base: nat, count: nat)
      requires Valid()
      modifies bitmap
      ensures forall i :: 0 <= i < numPages ==> Free()[i] == (old(Free())[i] || Among(Addr(i), base, count))
      ensures forall s: nat :: base == Addr(s) && s + count <= numPages ==>
                Free() == Filled(old(Free()), s, count, true)
    {
      hide Decode;
      ghost var was := Free();
      var i := 0;
      while i < count
        invariant 0 <= i <= count
        invariant forall k :: 0 <= k < numPages ==> Free()[k] == (was[k] || Among(Addr(k), base, i))
      {
        ghost var before := Free();
        FreePage(base + i * PAGE_SIZE);
        forall k: nat | k < numPages
          ensures Free()[k] == (before[k] || Addr(k) == base + i * PAGE_SIZE)
        {
        }
        forall k: nat | k < numPages
          ensures Among(Addr(k), base, i + 1) <==> Among(Addr(k), base, i) || Addr(k) == base + i * PAGE_SIZE
        {
          AmongNext(Addr(k), base, i);
        }
        i := i + 1;
      }
      forall s: nat | base == Addr(s) && s + count <= numPages
        ensures Free() == Filled(was, s, count, true)
      {
        forall k: nat | k < numPages
          ensures Among(Addr(k), base, count) <==> s <= k < s + count
        {
          AmongRun(pageBase, s, k, count);
        }
      }
    }

    method FreePages() returns (count: nat)
      requires Valid()
      ensures count == CountFree(Free())
    {
      count := 0;
      var i := 0;
      while i < numPages
        invariant 0 <= i <= numPages
        invariant count == CountFree(Free()[..i])
      {
        assert Free()[..i + 1][..i] == Free()[..i];
        var free := IsFree(i);
        if free { count := count + 1; }
        i := i + 1;
      }
      assert Free()[..numPages] == Free();
    }
  }
}
