/** Mapping and unmapping pages (kernel/src/memory/vmm.rs:255-417) over the
    bitmap allocator, refined to operations on the plain page map. */
module VirtualMemory {
  import opened Wrappers
  import opened PageTables
  import opened PageBitmap

  // ------------------------------------------------ page-map operations

  ghost function Lookup(view: View, vpn: nat): Option<Leaf> {
    if vpn in view then Some(view[vpn]) else None
  }

  /** Permissions of a page mapped with `attrs` over `existing`: execution stays
      allowed when either mapping allows it, provided EL0 could see the page. */
  function MergedAttrs(existing: Option<Leaf>, attrs: Attrs): Attrs {
    if existing.Some? && existing.value.attrs.user
    then attrs.(uxn := existing.value.attrs.uxn && attrs.uxn) else attrs
  }

  ghost function MapOne(view: View, vpn: nat, frame: nat, attrs: Attrs): View {
    view[vpn := Leaf(frame % PAGES, MergedAttrs(Lookup(view, vpn), attrs))]
  }

  /** Mapping `n` consecutive pages, first page first. */
  ghost function MapRange(view: View, vpn: nat, frame: nat, n: nat, attrs: Attrs): View {
    if n == 0 then view
    else MapOne(MapRange(view, vpn, frame, n - 1, attrs), (vpn + n - 1) % PAGES, frame + n - 1, attrs)
  }

  /** What mapping a range means: each page of the range goes to its own frame
      with the merged permissions, every other page translates as before. */
  lemma {:induction false} MapRangeMeaning(view: View, vpn: nat, frame: nat, n: nat, attrs: Attrs, w: nat)
    requires vpn + n <= PAGES
    ensures Lookup(MapRange(view, vpn, frame, n, attrs), w) ==
            if vpn <= w < vpn + n
            then Some(Leaf((frame + (w - vpn)) % PAGES, MergedAttrs(Lookup(view, w), attrs)))
            else Lookup(view, w)
    decreases n
  {
    if n != 0 {
      MapRangeMeaning(view, vpn, frame, n - 1, attrs, w);
      assert (vpn + n - 1) % PAGES == vpn + n - 1;
    }
  }

  // ------------------------------------------------- growth of one tree

  /** From `(mem, free)` to `(mem', free')` only the tree under `root` grew, by
      pages taken from the free ones. */
  ghost predicate Grown(mem: Memory, free: set<nat>, mem': Memory, free': set<nat>, root: nat) {
    && free' <= free
    && (forall f :: f in mem && f !in free && !InTree(mem, root, f) ==> f in mem' && mem'[f] == mem[f])
    && (forall n, t :: IsTable(mem, root, n, t) ==> IsTable(mem', root, n, t))
    && (forall n, t :: IsTable(mem', root, n, t) ==> IsTable(mem, root, n, t) || (t in free && t !in free'))
    && (forall f :: f in free && f !in free' ==> InTree(mem', root, f))
  }

  /** No table of the tree is a free page. */
  ghost predicate InUse(mem: Memory, root: nat, free: set<nat>) {
    forall t :: InTree(mem, root, t) ==> t !in free
  }

  lemma GrownRefl(mem: Memory, free: set<nat>, root: nat)
    ensures Grown(mem, free, mem, free, root)
  {
  }

  lemma GrownTrans(m0: Memory, f0: set<nat>, m1: Memory, f1: set<nat>, m2: Memory, f2: set<nat>, root: nat)
    requires Grown(m0, f0, m1, f1, root) && Grown(m1, f1, m2, f2, root)
    ensures Grown(m0, f0, m2, f2, root)
  {
    forall f | f in m0 && f !in f0 && !InTree(m0, root, f) ensures f in m2 && m2[f] == m0[f] {
      assert !InTree(m1, root, f);
    }
    forall f | f in f0 && f !in f2 ensures InTree(m2, root, f) {
      if f !in f1 {
        var n :| IsTable(m1, root, n, f);
        assert IsTable(m2, root, n, f);
      }
    }
  }

  /** Another address space whose tables are in use and not shared with `root`
      keeps its whole translation while `root` grows. */
  lemma OtherSpaceUnchanged(mem: Memory, free: set<nat>, mem': Memory, free': set<nat>, root: nat, other: nat)
    requires Grown(mem, free, mem', free', root)
    requires IsTree(mem, other)
    requires forall t :: InTree(mem, other, t) ==> t !in free && !InTree(mem, root, t)
    ensures Translation(mem', other) == Translation(mem, other)
  {
    forall vpn: nat ensures WalkOf(mem', other)(vpn) == WalkOf(mem, other)(vpn) {
      SameTables(mem, mem', other, vpn);
    }
    SameView(WalkOf(mem, other), WalkOf(mem', other));
  }

  lemma SameTables(mem: Memory, mem': Memory, root: nat, vpn: nat)
    requires IsTree(mem, root)
    requires forall t :: InTree(mem, root, t) ==> t in mem' && mem'[t] == mem[t]
    ensures Walk(mem', root, vpn) == Walk(mem, root, vpn)
  {
    assert IsTable(mem, root, Root, root);
    var n1, n2, n3 := L1(I0(vpn)), NodeL2(vpn), NodeL3(vpn);
    assert forall t :: TableAt(mem, root, n1) == Some(t) ==> IsTable(mem, root, n1, t);
    assert forall t :: TableAt(mem, root, n2) == Some(t) ==> IsTable(mem, root, n2, t);
    assert forall t :: TableAt(mem, root, n3) == Some(t) ==> IsTable(mem, root, n3, t);
  }

  lemma SameView(walk: nat -> Option<Leaf>, walk': nat -> Option<Leaf>)
    requires forall w: nat :: walk'(w) == walk(w)
    ensures ViewOf(walk') == ViewOf(walk)
  {
  }

  lemma GraftView(mem: Memory, root: nat, n: Node, p: nat, i: nat, t: nat)
    requires IsTree(mem, root) && IsTable(mem, root, n, p) && !n.L3? && i < ENTRIES
    requires !InTree(mem, root, t)
    requires !(mem[p][i].valid && mem[p][i].table)
    ensures Translation(Graft(mem, p, i, t, Subtable(mem[p][i])), root) == Translation(mem, root)
  {
    var mem' := Graft(mem, p, i, t, Subtable(mem[p][i]));
    forall vpn: nat ensures WalkOf(mem', root)(vpn) == WalkOf(mem, root)(vpn) {
      GraftWalk(mem, root, n, p, i, t, vpn);
    }
    SameView(WalkOf(mem, root), WalkOf(mem', root));
  }

  lemma ViewUpdate(walk: nat -> Option<Leaf>, walk': nat -> Option<Leaf>, vpn: nat, r: Option<Leaf>)
    requires vpn < PAGES
    requires forall w: nat :: w < PAGES ==> walk'(w) == if w == vpn then r else walk(w)
    ensures ViewOf(walk') == if r.Some? then ViewOf(walk)[vpn := r.value] else ViewOf(walk) - {vpn}
  {
  }

  lemma PutLeafGrown(mem: Memory, root: nat, n: Node, t: nat, i: nat, e: Pte, free: set<nat>)
    requires IsTree(mem, root) && IsTable(mem, root, n, t) && n.L3? && i < ENTRIES
    requires e.valid ==> e.table
    requires InUse(mem, root, free)
    ensures Grown(mem, free, PutLeaf(mem, t, i, e), free, root)
    ensures InUse(PutLeaf(mem, t, i, e), root, free)
  {
    PutLeafTree(mem, root, n, t, i, e);
    assert InTree(mem, root, t);
    forall q | InTree(PutLeaf(mem, t, i, e), root, q) ensures InTree(mem, root, q) {
      var m :| IsTable(PutLeaf(mem, t, i, e), root, m, q);
      assert IsTable(mem, root, m, q);
    }
  }

  lemma PutLeafView(mem: Memory, root: nat, vpn: nat, t: nat, e: Pte)
    requires IsTree(mem, root) && vpn < PAGES && IsTable(mem, root, NodeL3(vpn), t)
    requires e.valid ==> e.table
    ensures Translation(PutLeaf(mem, t, I3(vpn), e), root) ==
            if e.valid then Translation(mem, root)[vpn := Leaf(e.frame, e.attrs)]
            else Translation(mem, root) - {vpn}
  {
    var mem' := PutLeaf(mem, t, I3(vpn), e);
    var walk, walk' := WalkOf(mem, root), WalkOf(mem', root);
    forall w: nat | w < PAGES
      ensures walk'(w) == if w == vpn then (if e.valid then Some(Leaf(e.frame, e.attrs)) else None) else walk(w)
    {
      PutLeafWalk(mem, root, vpn, t, e, w);
    }
    ViewUpdate(walk, walk', vpn, if e.valid then Some(Leaf(e.frame, e.attrs)) else None);
  }

  /** The level-3 descriptor of a page is what the page map says about it. */
  lemma ExistingLeaf(mem: Memory, root: nat, vpn: nat, t: nat)
    requires IsTree(mem, root) && vpn < PAGES && IsTable(mem, root, NodeL3(vpn), t)
    ensures t in mem
    ensures Lookup(Translation(mem, root), vpn) ==
            if mem[t][I3(vpn)].valid then Some(Leaf(mem[t][I3(vpn)].frame, mem[t][I3(vpn)].attrs)) else None
  {
    WalkByNodes(mem, root, vpn);
  }

  /** No page of the space is mapped by a 2 MiB block. */
  ghost predicate PagesOnly(mem: Memory, root: nat) {
    forall w :: w in Translation(mem, root) ==> TableAt(mem, root, NodeL3(w)).Some?
  }

  lemma StillPagesOnly(mem: Memory, free: set<nat>, mem': Memory, free': set<nat>, root: nat, vpn: nat, t: nat)
    requires Grown(mem, free, mem', free', root)
    requires forall w :: w in Translation(mem', root) ==> w == vpn || w in Translation(mem, root)
    requires IsTable(mem', root, NodeL3(vpn), t)
    ensures PagesOnly(mem, root) ==> PagesOnly(mem', root)
  {
    hide Translation, TableAt;
    if PagesOnly(mem, root) {
      forall w | w in Translation(mem', root) ensures TableAt(mem', root, NodeL3(w)).Some? {
        if w != vpn {
          assert IsTable(mem, root, NodeL3(w), TableAt(mem, root, NodeL3(w)).value);
        }
      }
    }
  }

  lemma WrapStep(v: nat, i: nat)
    ensures (v % PAGES + i) % PAGES == (v + i) % PAGES
  {
    var q := v / PAGES;
    assert v + i == (v % PAGES + i) + q * PAGES;
    ModShift(v % PAGES + i, q);
  }

  lemma {:induction false} ModShift(x: nat, q: nat)
    ensures (x + q * PAGES) % PAGES == x % PAGES
  {
    if q > 0 {
      ModShift(x, q - 1);
      assert x + q * PAGES == (x + (q - 1) * PAGES) + PAGES;
    }
  }

  /** Mapping one more page of a range, with the loop's own page numbers. */
  lemma MapRangeStep(view: View, v0: nat, frame0: nat, i: nat, attrs: Attrs, now: View, vpn: nat, frame: nat)
    returns (next: View)
    requires now == MapRange(view, v0 % PAGES, frame0, i, attrs)
    requires vpn == (v0 + i) % PAGES && frame == frame0 + i
    ensures next == MapRange(view, v0 % PAGES, frame0, i + 1, attrs)
    ensures next == MapOne(now, vpn, frame, attrs)
  {
    WrapStep(v0, i);
    next := MapRange(view, v0 % PAGES, frame0, i + 1, attrs);
  }

  // --------------------------------------------------------- the manager

  class Vmm {
    var mem: Memory
    const alloc: PageAllocator

    constructor (alloc: PageAllocator)
      ensures this.alloc == alloc && mem == map[]
    {
      this.alloc := alloc;
      mem := map[];
    }

    ghost function FreeFrames(): set<nat>
      requires alloc.Valid()
      reads alloc, alloc.bitmap
    {
      set i: nat | i < alloc.numPages && alloc.Free()[i] :: FrameOf(i)
    }

    function FrameOf(i: nat): nat {
      alloc.pageBase / PAGE_SIZE + i
    }

    /** `root` is the base of an address space whose tables are all in use. */
    ghost predicate Space(root: nat)
      reads this, alloc, alloc.bitmap
    {
      alloc.Valid() && IsTree(mem, root) && InUse(mem, root, FreeFrames())
    }

    ghost function View(root: nat): PageTables.View
      reads this`mem
    {
      Translation(mem, root)
    }

    /** `alloc_table`: a zeroed page. None stands for the panic of the source. */
    method AllocTable() returns (r: Option<nat>)
      requires alloc.Valid()
      modifies this, alloc.bitmap
      ensures r.None? ==> old(FreeFrames()) == {} && FreeFrames() == {} && mem == old(mem)
      ensures r.Some? ==> r.value in old(FreeFrames()) && FreeFrames() == old(FreeFrames()) - {r.value}
      ensures r.Some? ==> mem == old(mem)[r.value := ZeroTable()]
    {
      var t := AllocFrames(1);
      if t.None? {
        NoneFree();
        return None;
      }
      OneFrame(t.value);
      mem := mem[t.value := ZeroTable()];
      return t;
    }

    lemma NoneFree()
      requires alloc.Valid() && forall f: nat :: !(Run(f, 1) <= FreeFrames())
      ensures FreeFrames() == {}
    {
      if f: nat :| f in FreeFrames() {
        OneFrame(f);
      }
    }

    /** `alloc_pages` on frames. The zeroing of the pages is left out: `mem` holds
        only what the pages say when read as tables. */
    method AllocFrames(n: nat) returns (r: Option<nat>)
      requires alloc.Valid() && 0 < n
      modifies alloc.bitmap
      ensures r.None? ==> FreeFrames() == old(FreeFrames()) && forall f: nat :: !(Run(f, n) <= old(FreeFrames()))
      ensures r.Some? ==> 0 < r.value && r.value + n <= FrameOf(alloc.numPages) && Run(r.value, n) <= old(FreeFrames())
      ensures r.Some? ==> FreeFrames() == old(FreeFrames()) - Run(r.value, n)
    {
      ghost var free := alloc.Free();
      var page := alloc.AllocPages(n);
      match page {
        case None =>
          forall f: nat ensures !(Run(f, n) <= old(FreeFrames())) {
            NoRun(free, f, n);
          }
          return None;
        case Some(addr) =>
          ghost var s: nat :| addr == alloc.Addr(s) && FirstFit(free, n, Some(s))
                    && alloc.Free() == Filled(free, s, n, false);
          var f := addr / PAGE_SIZE;
          assert f == FrameOf(s);
          assert forall i: nat :: s <= i < s + n ==> free[i];
          assert forall w :: w in Run(f, n) ==> w == FrameOf(w - FrameOf(0)) && free[w - FrameOf(0)];
          return Some(f);
      }
    }

    lemma NoRun(free: seq<bool>, f: nat, n: nat)
      requires 0 < n && forall t: nat :: !FreeRun(free, t, n)
      ensures exists w :: w in Run(f, n) && forall i: nat :: i < |free| && free[i] ==> FrameOf(i) != w
    {
      if f < FrameOf(0) {
        assert f in Run(f, n);
      } else {
        var t := f - FrameOf(0);
        assert !FreeRun(free, t, n);
        var k: nat :| t <= k < t + n && (k >= |free| || !free[k]);
        assert FrameOf(k) in Run(f, n);
      }
    }

    /** The 512 page descriptors that replace the block descriptor `e`. */
    method WriteSplit(t: nat, e: Pte)
      requires t in mem && e.valid
      modifies this`mem
      ensures mem == old(mem)[t := Subtable(e)]
    {
      var k := 0;
      while k < ENTRIES
        invariant 0 <= k <= ENTRIES
        invariant t in mem && mem == old(mem)[t := mem[t]]
        invariant forall j :: 0 <= j < k ==> mem[t][j] == Pte(true, true, e.frame + j, e.attrs)
      {
        mem := mem[t := mem[t][k := Pte(true, true, e.frame + k, e.attrs)]];
        k := k + 1;
      }
      assert mem[t] == Subtable(e);
    }

    /** The next-level table under slot `i` of table `p`, allocated or split out
        of a block as needed. No translation changes. */
    method GetOrAllocSubtable(root: nat, ghost n: Node, p: nat, i: nat) returns (r: Option<nat>)
      requires Space(root) && IsTable(mem, root, n, p) && !n.L3? && i < ENTRIES
      modifies this, alloc.bitmap
      ensures Space(root) && View(root) == old(View(root))
      ensures Grown(old(mem), old(FreeFrames()), mem, FreeFrames(), root)
      ensures r.Some? ==> IsTable(mem, root, Child(n, i), r.value)
      ensures r.None? ==> FreeFrames() == {}
    {
      hide Translation, TableAt;
      var e := mem[p][i];
      if e.valid && e.table {
        NoTableThere(mem, root, n, p, i);
        return Some(e.frame);
      }
      r := AllocTable();
      if r.None? { return; }
      var t := r.value;
      if e.valid {
        WriteSplit(t, e);
      }
      mem := mem[p := mem[p][i := TableEntry(t)]];
      assert mem == Graft(old(mem), p, i, t, Subtable(e));
      GraftTree(old(mem), root, n, p, i, t);
      GraftView(old(mem), root, n, p, i, t);
      assert InTree(mem, root, t);
    }

    /** `map_one_page`: install one 4 KiB page. */
    method MapOnePage(root: nat, frame: nat, vpn: nat, attrs: Attrs) returns (ok: bool)
      requires Space(root) && vpn < PAGES
      modifies this, alloc.bitmap
      ensures Space(root) && Grown(old(mem), old(FreeFrames()), mem, FreeFrames(), root)
      ensures ok ==> View(root) == MapOne(old(View(root)), vpn, frame, attrs)
      ensures ok && PagesOnly(old(mem), root) ==> PagesOnly(mem, root)
      ensures !ok ==> View(root) == old(View(root)) && FreeFrames() == {}
    {
      hide Grown, PagesOnly, IsTree, Translation, IsTable;
      var l3 := WalkToL3(root, vpn);
      if l3.None? { return false; }
      var t := l3.value;
      ExistingLeaf(mem, root, vpn, t);
      var existing := mem[t][I3(vpn)];
      var merged := if existing.valid && existing.attrs.user
                    then attrs.(uxn := existing.attrs.uxn && attrs.uxn) else attrs;
      ghost var before, free := mem, FreeFrames();
      WriteLeaf(root, vpn, t, Pte(true, true, frame % PAGES, merged));
      GrownTrans(old(mem), old(FreeFrames()), before, free, mem, FreeFrames(), root);
      StillPagesOnly(old(mem), old(FreeFrames()), mem, FreeFrames(), root, vpn, t);
      return true;
    }

    method WriteLeaf(root: nat, vpn: nat, t: nat, e: Pte)
      requires Space(root) && vpn < PAGES && IsTable(mem, root, NodeL3(vpn), t)
      requires e.valid ==> e.table
      modifies this`mem
      ensures Space(root) && Grown(old(mem), FreeFrames(), mem, FreeFrames(), root)
      ensures t in old(mem) && mem == PutLeaf(old(mem), t, I3(vpn), e)
      ensures forall n, q :: IsTable(mem, root, n, q) == IsTable(old(mem), root, n, q)
      ensures View(root) == if e.valid then old(View(root))[vpn := Leaf(e.frame, e.attrs)] else old(View(root)) - {vpn}
    {
      PutLeafTree(mem, root, NodeL3(vpn), t, I3(vpn), e);
      PutLeafView(mem, root, vpn, t, e);
      PutLeafGrown(mem, root, NodeL3(vpn), t, I3(vpn), e, FreeFrames());
      mem := mem[t := mem[t][I3(vpn) := e]];
    }

    /** The three descents of `map_one_page`. */
    method WalkToL3(root: nat, vpn: nat) returns (r: Option<nat>)
      requires Space(root) && vpn < PAGES
      modifies this, alloc.bitmap
      ensures Space(root) && View(root) == old(View(root))
      ensures Grown(old(mem), old(FreeFrames()), mem, FreeFrames(), root)
      ensures r.Some? ==> IsTable(mem, root, NodeL3(vpn), r.value)
      ensures r.None? ==> FreeFrames() == {}
    {
      assert IsTable(mem, root, Root, root);
      var l1 := GetOrAllocSubtable(root, Root, root, I0(vpn));
      if l1.None? { return None; }
      ghost var m1, f1 := mem, FreeFrames();
      var l2 := GetOrAllocSubtable(root, L1(I0(vpn)), l1.value, I1(vpn));
      ghost var m2, f2 := mem, FreeFrames();
      GrownTrans(old(mem), old(FreeFrames()), m1, f1, m2, f2, root);
      if l2.None? { return None; }
      r := GetOrAllocSubtable(root, NodeL2(vpn), l2.value, I2(vpn));
      GrownTrans(old(mem), old(FreeFrames()), m2, f2, mem, FreeFrames(), root);
    }

    /** `map_pages`: the page map becomes the old one with the range mapped
        over it; `!ok` stands for the panic when no page is left for a table,
        after a prefix of the range was mapped. */
    method MapPages(root: nat, pa: nat, va: nat, size: nat, attrs: Attrs) returns (ok: bool, ghost done: nat)
      requires Space(root)
      modifies this, alloc.bitmap
      ensures Space(root) && Grown(old(mem), old(FreeFrames()), mem, FreeFrames(), root)
      ensures View(root) == MapRange(old(View(root)), PageNumber(va), pa / PAGE_SIZE, done, attrs)
      ensures ok && PagesOnly(old(mem), root) ==> PagesOnly(mem, root)
      ensures if ok then done == PageCount(pa, size) else done < PageCount(pa, size) && FreeFrames() == {}
    {
      hide Grown, IsTree, InUse, Translation, PagesOnly, MapOne;
      var frame0, vpn0 := pa / PAGE_SIZE, va / PAGE_SIZE;
      var pages := (size + pa % PAGE_SIZE + 0xFFF) / PAGE_SIZE;
      ghost var v0 := View(root);
      GrownRefl(mem, FreeFrames(), root);
      done := 0;
      var i := 0;
      while i < pages
        invariant 0 <= i <= pages && done == i
        invariant Space(root) && Grown(old(mem), old(FreeFrames()), mem, FreeFrames(), root)
        invariant View(root) == MapRange(v0, vpn0 % PAGES, frame0, i, attrs)
        invariant PagesOnly(old(mem), root) ==> PagesOnly(mem, root)
      {
        ghost var m, f, v := mem, FreeFrames(), View(root);
        var frame, vpn := frame0 + i, (vpn0 + i) % PAGES;
        ghost var target := MapRangeStep(v0, vpn0, frame0, i, attrs, v, vpn, frame);
        ok := MapOnePage(root, frame, vpn, attrs);
        GrownTrans(old(mem), old(FreeFrames()), m, f, mem, FreeFrames(), root);
        if !ok { return; }
        assert View(root) == target;
        i := i + 1;
        done := i;
      }
      ok := true;
    }

    /** `f` is a page that the allocator manages. */
    predicate Managed(f: nat) {
      FrameOf(0) <= f < FrameOf(alloc.numPages)
    }

    method FreeFrame(f: nat)
      requires alloc.Valid()
      modifies alloc.bitmap
      ensures FreeFrames() == if Managed(f) then old(FreeFrames()) + {f} else old(FreeFrames())
    {
      alloc.FreePage(f * PAGE_SIZE);
      ghost var i := alloc.IndexOf(f * PAGE_SIZE);
      assert i.Some? == Managed(f);
      if i.Some? {
        assert FrameOf(i.value) == f;
        forall g ensures g in FreeFrames() <==> g == f || g in old(FreeFrames()) {
          if g == f { assert alloc.Free()[i.value]; }
          if g in old(FreeFrames()) {
            var j: nat :| j < alloc.numPages && old(alloc.Free())[j] && g == FrameOf(j);
            assert alloc.Free()[j];
          }
        }
      }
    }

    /** One round of the loop of `unmap_pages`. A page under a 2 MiB block is skipped. */
    method UnmapOnePage(root: nat, vpn: nat)
      requires Space(root) && vpn < PAGES
      requires vpn in View(root) ==> !InTree(mem, root, View(root)[vpn].frame)
      modifies this`mem, alloc.bitmap
      ensures Space(root)
      ensures SameShape(old(mem), mem, root)
      ensures View(root) == old(View(root)) - Gone(old(mem), root, {vpn})
      ensures FreeFrames() == old(FreeFrames()) + ManagedOf(FramesAt(old(View(root)), Gone(old(mem), root, {vpn})))
    {
      hide IsTree, Translation, TableAt;
      var l3 := FindL3(root, vpn);
      if l3.None? { return; }
      var t := l3.value;
      ExistingLeaf(mem, root, vpn, t);
      var e := mem[t][I3(vpn)];
      assert InTree(mem, root, t);
      ghost var gone := Gone(mem, root, {vpn});
      assert gone == {vpn};
      if !e.valid {
        assert View(root) - {vpn} == View(root);
        return;
      }
      OneFreed(View(root), vpn, e.frame);
      ClearPage(root, vpn, t);
    }

    /** Clear a valid level-3 descriptor and give its frame back. */
    method ClearPage(root: nat, vpn: nat, t: nat)
      requires Space(root) && vpn < PAGES && IsTable(mem, root, NodeL3(vpn), t) && t in mem
      requires !InTree(mem, root, mem[t][I3(vpn)].frame)
      modifies this`mem, alloc.bitmap
      ensures Space(root)
      ensures SameShape(old(mem), mem, root)
      ensures View(root) == old(View(root)) - {vpn}
      ensures FreeFrames() == old(FreeFrames()) +
                              (var f := old(mem)[t][I3(vpn)].frame; if Managed(f) then {f} else {})
    {
      var e := mem[t][I3(vpn)];
      ghost var m0 := mem;
      WriteLeaf(root, vpn, t, INVALID);
      forall q | InTree(mem, root, q) ensures InTree(m0, root, q) {
        var n :| IsTable(mem, root, n, q);
        assert IsTable(m0, root, n, q);
      }
      FreeFrame(e.frame);
    }

    /** The descent of `unmap_pages`: it allocates nothing. */
    method FindL3(root: nat, vpn: nat) returns (r: Option<nat>)
      requires Space(root)
      ensures r == TableAt(mem, root, NodeL3(vpn))
      ensures r.Some? ==> IsTable(mem, root, NodeL3(vpn), r.value)
    {
      assert IsTable(mem, root, Root, root);
      var e0 := mem[root][I0(vpn)];
      if !e0.valid { return None; }
      assert IsTable(mem, root, L1(I0(vpn)), e0.frame);
      var e1 := mem[e0.frame][I1(vpn)];
      if !e1.valid { return None; }
      assert IsTable(mem, root, NodeL2(vpn), e1.frame);
      var e2 := mem[e1.frame][I2(vpn)];
      if !e2.valid { return None; }
      if !e2.table { return None; }
      return Some(e2.frame);
    }

    /** No page of the space maps one of its own table pages. */
    ghost predicate TablesUnmapped(root: nat)
      reads this`mem
    {
      forall w :: w in View(root) ==> !InTree(mem, root, View(root)[w].frame)
    }

    /** `unmap_pages`: every page of the range that has a level-3 entry is
        unmapped and its frame is free again; nothing else changes. */
    method UnmapPages(root: nat, va: nat, size: nat)
      requires Space(root) && TablesUnmapped(root)
      modifies this`mem, alloc.bitmap
      ensures Space(root) && TablesUnmapped(root)
      ensures SameShape(old(mem), mem, root)
      ensures var gone := Gone(old(mem), root, Pages(va / PAGE_SIZE, PageCount(va, size)));
              && View(root) == old(View(root)) - gone
              && FreeFrames() == old(FreeFrames()) + ManagedOf(FramesAt(old(View(root)), gone))
    {
      var vpn0 := va / PAGE_SIZE;
      var pages := (size + va % PAGE_SIZE + 0xFFF) / PAGE_SIZE;
      ghost var m0, v0, f0, range: set<nat> := mem, View(root), FreeFrames(), {};
      assert v0 - Gone(m0, root, {}) == v0;
      var i := 0;
      while i < pages
        invariant 0 <= i <= pages
        invariant range == Pages(vpn0, i)
        invariant Unmapping(root, m0, v0, f0, range)
      {
        var vpn: nat := (vpn0 + i) % PAGES;
        UnmapNext(root, vpn, m0, v0, f0, range);
        PagesStep(vpn0, i, vpn);
        range := range + {vpn};
        i := i + 1;
      }
      SameTree(m0, mem, root, {});
    }

    /** The state of `unmap_pages` after the pages of `range`. */
    ghost predicate Unmapping(root: nat, m0: Memory, v0: PageTables.View, f0: set<nat>, range: set<nat>)
      reads this, alloc, alloc.bitmap
    {
      var gone := Gone(m0, root, range);
      && Space(root) && SameShape(m0, mem, root)
      && View(root) == v0 - gone
      && FreeFrames() == f0 + ManagedOf(FramesAt(v0, gone))
    }

    method UnmapNext(root: nat, vpn: nat,
                     ghost m0: Memory, ghost v0: PageTables.View, ghost f0: set<nat>, ghost range: set<nat>)
      requires Unmapping(root, m0, v0, f0, range) && vpn < PAGES
      requires forall w :: w in v0 ==> !InTree(m0, root, v0[w].frame)
      modifies this`mem, alloc.bitmap
      ensures Unmapping(root, m0, v0, f0, range + {vpn})
    {
      ghost var m, v, here: set<nat> := mem, View(root), {vpn};
      SameTree(m0, m, root, here);
      ghost var gone, one := Gone(m0, root, range), Gone(m0, root, here);
      ghost var next := UnmapStep(m0, root, v0, range, gone, vpn, one);
      ManagedUnion(FramesAt(v0, gone), FramesAt(v, one));
      UnmapOnePage(root, vpn);
      SameShapeTrans(m0, m, mem, root);
    }

    lemma OneFreed(view: PageTables.View, vpn: nat, frame: nat)
      requires vpn in view && view[vpn].frame == frame
      ensures ManagedOf(FramesAt(view, {vpn})) == if Managed(frame) then {frame} else {}
    {
      assert FramesAt(view, {vpn}) == {frame};
    }

    lemma ManagedUnion(a: set<nat>, b: set<nat>)
      ensures ManagedOf(a + b) == ManagedOf(a) + ManagedOf(b)
    {
    }

    ghost function ManagedOf(frames: set<nat>): set<nat> {
      set f | f in frames && Managed(f)
    }
  }

  /** `n` consecutive frames from `f`. */
  ghost function Run(f: nat, n: nat): set<nat> {
    set w: nat | f <= w < f + n && InRun(w, f, n)
  }

  predicate InRun(w: nat, f: nat, n: nat) {
    f <= w < f + n
  }

  lemma OneFrame(f: nat)
    ensures Run(f, 1) == {f}
  {
  }

  /** `n` consecutive virtual pages from `vpn`. */
  ghost function Pages(vpn: nat, n: nat): set<nat> {
    if n == 0 then {} else Pages(vpn, n - 1) + {(vpn + n - 1) % PAGES}
  }

  lemma PagesStep(vpn0: nat, i: nat, vpn: nat)
    requires vpn == (vpn0 + i) % PAGES
    ensures Pages(vpn0, i + 1) == Pages(vpn0, i) + {vpn}
  {
  }

  /** The same tables at the same positions, and nothing outside them touched. */
  ghost predicate SameShape(mem: Memory, mem': Memory, root: nat) {
    && (forall n, q :: IsTable(mem', root, n, q) == IsTable(mem, root, n, q))
    && (forall f :: f in mem && !InTree(mem, root, f) ==> f in mem' && mem'[f] == mem[f])
  }

  lemma SameShapeTrans(m0: Memory, m1: Memory, m2: Memory, root: nat)
    requires SameShape(m0, m1, root) && SameShape(m1, m2, root)
    ensures SameShape(m0, m2, root)
  {
    SameTree(m0, m1, root, {});
  }

  lemma SameTree(mem: Memory, mem': Memory, root: nat, pages: set<nat>)
    requires SameShape(mem, mem', root)
    ensures forall q :: InTree(mem', root, q) == InTree(mem, root, q)
    ensures Gone(mem', root, pages) == Gone(mem, root, pages)
  {
    forall q ensures InTree(mem', root, q) == InTree(mem, root, q) {
      if InTree(mem', root, q) { var n :| IsTable(mem', root, n, q); assert IsTable(mem, root, n, q); }
      if InTree(mem, root, q) { var n :| IsTable(mem, root, n, q); assert IsTable(mem', root, n, q); }
    }
    forall w | w in pages ensures w in Gone(mem', root, pages) <==> w in Gone(mem, root, pages) {
      var t, t' := TableAt(mem, root, NodeL3(w)), TableAt(mem', root, NodeL3(w));
      if t.Some? { assert IsTable(mem, root, NodeL3(w), t.value); }
      if t'.Some? { assert IsTable(mem', root, NodeL3(w), t'.value); }
    }
  }

  /** Unmapping one more page, on the page map and on the freed frames. */
  lemma UnmapStep(mem: Memory, root: nat, view: View, pages: set<nat>, gone: set<nat>, vpn: nat, one: set<nat>)
    returns (next: set<nat>)
    requires gone == Gone(mem, root, pages) && one == Gone(mem, root, {vpn})
    ensures next == Gone(mem, root, pages + {vpn})
    ensures view - gone - one == view - next
    ensures FramesAt(view, next) == FramesAt(view, gone) + FramesAt(view - gone, one)
  {
    next := gone + one;
    assert next == Gone(mem, root, pages + {vpn});
  }

  /** Of `pages`, those whose level-3 table exists, which unmapping clears. */
  ghost function Gone(mem: Memory, root: nat, pages: set<nat>): set<nat> {
    set w | w in pages && TableAt(mem, root, NodeL3(w)).Some?
  }

  /** The frames that `view` gives to `pages`. */
  ghost function FramesAt(view: View, pages: set<nat>): set<nat> {
    set w | w in pages && w in view :: view[w].frame
  }

  /** Pages that `size` bytes starting at `addr` touch. */
  function PageCount(addr: nat, size: nat): nat {
    (size + addr % PAGE_SIZE + 0xFFF) / PAGE_SIZE
  }

  /** The last page counted is the page of the last byte. */
  lemma PageCountExact(addr: nat, size: nat)
    ensures 0 < size ==> addr / PAGE_SIZE + PageCount(addr, size) == (addr + size - 1) / PAGE_SIZE + 1
    ensures PageCount(addr, 0) == if addr % PAGE_SIZE == 0 then 0 else 1
  {
    var page, offset := addr / PAGE_SIZE, addr % PAGE_SIZE;
    assert addr + size - 1 == page * PAGE_SIZE + (offset + size - 1);
  }
}
