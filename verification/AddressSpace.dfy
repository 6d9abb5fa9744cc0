/** Process address spaces: the table built for a new process
    (kernel/src/memory/vmm.rs:255-272) and the anonymous mappings made by
    `sys_mmap` and `sys_munmap` (kernel/src/syscall/mod.rs:780-809). */
module AddressSpace {
  import opened Wrappers
  import opened PageBitmap
  import opened PageTables
  import opened VirtualMemory

  datatype ProcSegment = ProcSegment(pa: nat, size: nat, el0: bool, exec: bool, dev: bool)

  function SegmentAttrs(s: ProcSegment): Attrs {
    Attrs(true, true, s.el0, s.dev, !s.exec, true)
  }

  const USER_RW: Attrs := Attrs(true, true, true, false, true, true)

  // ------------------------------------------- meaning of a process table

  /** Some byte of segment `s` lies in page `w`. */
  predicate Covers(s: ProcSegment, w: nat) {
    0 < s.size && s.pa / PAGE_SIZE <= w <= (s.pa + s.size - 1) / PAGE_SIZE
  }

  /** The page map that the segments build, one after the other. */
  ghost function BuildView(segs: seq<ProcSegment>): View {
    if segs == [] then imap[]
    else
      var s := segs[|segs| - 1];
      var before := BuildView(segs[..|segs| - 1]);
      if s.size == 0 then before
      else MapRange(before, PageNumber(s.pa), s.pa / PAGE_SIZE, PageCount(s.pa, s.size), SegmentAttrs(s))
  }

  /** Segment `j` lets EL0 execute page `w`: it is executable and no later
      mapping of the page came after a mapping that hid it from EL0. */
  ghost predicate GrantsExec(segs: seq<ProcSegment>, j: int, w: nat) {
    && 0 <= j < |segs| && Covers(segs[j], w) && segs[j].exec
    && forall k, l :: j <= k < l < |segs| && Covers(segs[k], w) && Covers(segs[l], w) ==> segs[k].el0
  }

  ghost predicate Covered(segs: seq<ProcSegment>, w: nat) {
    exists j :: 0 <= j < |segs| && Covers(segs[j], w)
  }

  ghost predicate Executable(segs: seq<ProcSegment>, w: nat) {
    exists j :: GrantsExec(segs, j, w)
  }

  predicate Below48(s: ProcSegment) {
    s.pa + s.size <= 0x1_0000_0000_0000
  }

  lemma SpanIsCover(s: ProcSegment, w: nat)
    requires 0 < s.size && Below48(s)
    ensures PageNumber(s.pa) == s.pa / PAGE_SIZE
    ensures s.pa / PAGE_SIZE + PageCount(s.pa, s.size) <= PAGES
    ensures Covers(s, w) <==> s.pa / PAGE_SIZE <= w < s.pa / PAGE_SIZE + PageCount(s.pa, s.size)
  {
  }

  /** The last segment that covers `w`. */
  ghost predicate LastCover(segs: seq<ProcSegment>, j: int, w: nat) {
    0 <= j < |segs| && Covers(segs[j], w) && forall k :: j < k < |segs| ==> !Covers(segs[k], w)
  }

  /** What the page map `view` says of page `w`, told by the segments alone. */
  ghost predicate Describes(segs: seq<ProcSegment>, view: View, w: nat) {
    && (w in view <==> Covered(segs, w))
    && (w in view ==>
          && view[w].frame == w && view[w].attrs.accessed && view[w].attrs.shareable && view[w].attrs.pxn
          && (view[w].attrs.uxn <==> !Executable(segs, w)))
    && (forall j :: LastCover(segs, j, w) && w in view ==>
          view[w].attrs.user == segs[j].el0 && view[w].attrs.device == segs[j].dev)
  }

  /** For any segments, in any order and however they overlap: a page is mapped
      exactly when a segment covers it, always to itself, never executable at
      EL1; EL0 access and memory type are those of the last covering segment;
      and EL0 may execute it exactly when some segment grants that. */
  lemma {:induction false} ProcessTableMeaning(segs: seq<ProcSegment>, w: nat)
    requires forall j :: 0 <= j < |segs| ==> Below48(segs[j])
    ensures Describes(segs, BuildView(segs), w)
    decreases |segs|
  {
    if segs != [] {
      var n := |segs| - 1;
      var init, s := segs[..n], segs[n];
      ProcessTableMeaning(init, w);
      if 0 < s.size {
        SegmentLookup(BuildView(init), s, w);
      }
      DescribesStep(segs, BuildView(init), BuildView(segs), w);
    }
  }

  lemma SegmentLookup(before: View, s: ProcSegment, w: nat)
    requires 0 < s.size && Below48(s)
    ensures Lookup(MapRange(before, PageNumber(s.pa), s.pa / PAGE_SIZE, PageCount(s.pa, s.size), SegmentAttrs(s)), w) ==
            if Covers(s, w) then Some(Leaf(w, MergedAttrs(Lookup(before, w), SegmentAttrs(s)))) else Lookup(before, w)
  {
    SpanIsCover(s, w);
    MapRangeMeaning(before, s.pa / PAGE_SIZE, s.pa / PAGE_SIZE, PageCount(s.pa, s.size), SegmentAttrs(s), w);
    if Covers(s, w) {
      assert w % PAGES == w;
    }
  }

  /** Whether EL0 saw a page is what the last segment covering it said. */
  lemma LastDecides(segs: seq<ProcSegment>, view: View, w: nat)
    requires Describes(segs, view, w) && w in view
    ensures (forall j :: LastCover(segs, j, w) ==> segs[j].el0) <==> view[w].attrs.user
  {
    hide Covers, Executable;
    var j :| 0 <= j < |segs| && Covers(segs[j], w);
    var last := FindLast(segs, j, w);
    assert LastCover(segs, last, w);
  }

  lemma ExecIsCovered(segs: seq<ProcSegment>, w: nat)
    requires Executable(segs, w)
    ensures Covered(segs, w)
  {
    var j :| GrantsExec(segs, j, w);
    assert Covers(segs[j], w);
  }

  lemma DescribesStep(segs: seq<ProcSegment>, before: View, after: View, w: nat)
    requires segs != []
    requires Describes(segs[..|segs| - 1], before, w)
    requires var s := segs[|segs| - 1];
             Lookup(after, w) ==
             if Covers(s, w) then Some(Leaf(w, MergedAttrs(Lookup(before, w), SegmentAttrs(s)))) else Lookup(before, w)
    ensures Describes(segs, after, w)
  {
    hide Covers, Executable, Covered, GrantsExec;
    var n := |segs| - 1;
    var init, s := segs[..n], segs[n];
    CoverStep(segs, w);
    ExecStep(segs, w);
    if Covers(s, w) {
      if w in before { LastDecides(init, before, w); }
      if Executable(init, w) { ExecIsCovered(init, w); }
      assert forall j :: LastCover(init, j, w) ==> segs[j] == init[j];
      assert forall j :: LastCover(segs, j, w) ==> j == n;
    }
  }

  /** Covering, one segment at a time. */
  lemma CoverStep(segs: seq<ProcSegment>, w: nat)
    requires segs != []
    ensures var n := |segs| - 1;
            && (Covered(segs, w) <==> Covers(segs[n], w) || Covered(segs[..n], w))
            && (forall j :: LastCover(segs, j, w) && j < n ==> LastCover(segs[..n], j, w) && !Covers(segs[n], w))
  {
    var n := |segs| - 1;
    if Covered(segs[..n], w) {
      var j :| 0 <= j < n && Covers(segs[..n][j], w);
      assert Covers(segs[j], w);
    }
    if Covered(segs, w) && !Covers(segs[n], w) {
      var j :| 0 <= j < |segs| && Covers(segs[j], w);
      assert Covers(segs[..n][j], w);
    }
  }

  /** Execution rights, one segment at a time. */
  lemma ExecStep(segs: seq<ProcSegment>, w: nat)
    requires segs != []
    ensures var n := |segs| - 1;
            Executable(segs, w) <==>
              if !Covers(segs[n], w) then Executable(segs[..n], w)
              else segs[n].exec ||
                   (Executable(segs[..n], w) && forall j :: LastCover(segs[..n], j, w) ==> segs[j].el0)
  {
    var n := |segs| - 1;
    var init := segs[..n];
    if Executable(segs, w) {
      var j :| GrantsExec(segs, j, w);
      if j < n {
        assert GrantsExec(init, j, w);
      }
    }
    if Executable(init, w) {
      var j :| GrantsExec(init, j, w);
      if !Covers(segs[n], w) {
        assert GrantsExec(segs, j, w);
      } else if forall m :: LastCover(init, m, w) ==> segs[m].el0 {
        forall k, l | j <= k < l < |segs| && Covers(segs[k], w) && Covers(segs[l], w) ensures segs[k].el0 {
          var last := FindLast(init, k, w);
          if last != k { assert Covers(init[last], w); }
        }
        assert GrantsExec(segs, j, w);
      }
    }
    if Covers(segs[n], w) && segs[n].exec {
      assert GrantsExec(segs, n, w);
    }
  }

  lemma FindLast(segs: seq<ProcSegment>, k: nat, w: nat) returns (j: nat)
    requires k < |segs| && Covers(segs[k], w)
    ensures k <= j && LastCover(segs, j, w)
  {
    j := |segs| - 1;
    while !Covers(segs[j], w)
      invariant k <= j < |segs|
      invariant forall i :: j < i < |segs| ==> !Covers(segs[i], w)
      decreases j
    {
      j := j - 1;
    }
  }

  /** When every segment is an EL0 segment, EL0 may execute a page exactly when
      some segment covering it is executable. */
  lemma El0Segments(segs: seq<ProcSegment>, w: nat)
    requires forall j :: 0 <= j < |segs| ==> segs[j].el0
    ensures Executable(segs, w) <==> exists j :: 0 <= j < |segs| && Covers(segs[j], w) && segs[j].exec
  {
    if j :| 0 <= j < |segs| && Covers(segs[j], w) && segs[j].exec {
      assert GrantsExec(segs, j, w);
    }
  }

  // --------------------------------------------- building a process table

  /** A zeroed page is the root of a tree of one table that translates nothing. */
  lemma EmptyRoot(mem: Memory, root: nat)
    requires root in mem && mem[root] == ZeroTable()
    ensures IsTree(mem, root) && Translation(mem, root) == imap[]
    ensures forall t :: InTree(mem, root, t) <==> t == root
  {
    assert IsTable(mem, root, Root, root);
    forall n, t: nat | IsTable(mem, root, n, t) ensures n == Root && t == root { }
    forall w: nat ensures WalkOf(mem, root)(w) == None { }
  }

  /** What was in use before is still there, byte for byte. */
  ghost predicate Kept(mem: Memory, free: set<nat>, mem': Memory) {
    forall f :: f in mem && f !in free ==> f in mem' && mem'[f] == mem[f]
  }

  lemma GrownKeeps(m0: Memory, f0: set<nat>, m1: Memory, f1: set<nat>, m2: Memory, f2: set<nat>, root: nat)
    requires root in f0 && f1 == f0 - {root} && m1 == m0[root := ZeroTable()]
    requires Grown(m1, f1, m2, f2, root)
    ensures Kept(m0, f0, m2)
  {
    EmptyRoot(m1, root);
  }

  /** A task's address space between system calls: every mapped page is an
      identity-mapped 4 KiB page that is neither free nor a page table. */
  ghost predicate TaskSpace(vm: Vmm, root: nat)
    reads vm, vm.alloc, vm.alloc.bitmap
  {
    && vm.Space(root) && vm.TablesUnmapped(root) && PagesOnly(vm.mem, root)
    && IdentityMapped(vm.View(root), vm.FreeFrames())
  }

  ghost predicate IdentityMapped(view: View, free: set<nat>) {
    forall w :: w in view ==> view[w].frame == w && w !in free
  }

  /** Segments below 2^48 in pages that are not free. */
  ghost predicate ProperSegments(segs: seq<ProcSegment>, free: set<nat>) {
    && (forall j :: 0 <= j < |segs| ==> Below48(segs[j]))
    && (forall f :: f in free ==> !Covered(segs, f))
  }

  /** A process whose segments lie in pages already allocated starts with a space
      that `sys_mmap` and `sys_munmap` may work on. */
  lemma NewProcessSpace(vm: Vmm, root: nat, segs: seq<ProcSegment>, free: set<nat>)
    requires vm.Space(root) && vm.View(root) == BuildView(segs) && PagesOnly(vm.mem, root)
    requires ProperSegments(segs, free) && vm.FreeFrames() <= free
    requires forall t :: InTree(vm.mem, root, t) ==> t in free
    ensures TaskSpace(vm, root)
  {
    forall w | w in vm.View(root) ensures vm.View(root)[w].frame == w && w !in free {
      ProcessTableMeaning(segs, w);
    }
  }

  /** All tables of the new space were free pages before. */
  lemma NewTreeWasFree(m0: Memory, f0: set<nat>, m1: Memory, f1: set<nat>, m2: Memory, f2: set<nat>, root: nat)
    requires root in f0 && f1 == f0 - {root} && m1 == m0[root := ZeroTable()]
    requires Grown(m1, f1, m2, f2, root)
    ensures forall t :: InTree(m2, root, t) ==> t in f0
  {
    EmptyRoot(m1, root);
    forall t | InTree(m2, root, t) ensures t in f0 {
      var n :| IsTable(m2, root, n, t);
      assert IsTable(m1, root, n, t) ==> InTree(m1, root, t);
    }
  }

  /** The space under a fresh root. */
  lemma StartsEmpty(mem: Memory, root: nat)
    requires root in mem && mem[root] == ZeroTable()
    ensures IsTree(mem, root) && Translation(mem, root) == BuildView([]) && PagesOnly(mem, root)
    ensures forall t :: InTree(mem, root, t) <==> t == root
  {
    EmptyRoot(mem, root);
  }

  lemma BuildSteps(segs: seq<ProcSegment>)
    requires segs != []
    ensures var v, seg := BuildView(segs[..|segs| - 1]), segs[|segs| - 1];
            BuildView(segs) ==
              if seg.size == 0 then v
              else MapRange(v, PageNumber(seg.pa), seg.pa / PAGE_SIZE, PageCount(seg.pa, seg.size), SegmentAttrs(seg))
  {
  }

  /** The loop of `create_process_table` over the segments, into an empty space. */
  method MapSegments(vm: Vmm, root: nat, segs: seq<ProcSegment>) returns (ok: bool)
    requires vm.Space(root) && vm.View(root) == BuildView([]) && PagesOnly(vm.mem, root)
    modifies vm, vm.alloc.bitmap
    ensures Grown(old(vm.mem), old(vm.FreeFrames()), vm.mem, vm.FreeFrames(), root)
    ensures ok ==> vm.Space(root) && vm.View(root) == BuildView(segs) && PagesOnly(vm.mem, root)
    ensures !ok ==> vm.FreeFrames() == {}
  {
    hide Grown, PagesOnly, IsTree, Translation, BuildView, InUse;
    GrownRefl(vm.mem, vm.FreeFrames(), root);
    var i := 0;
    assert segs[..0] == [];
    while i < |segs|
      invariant 0 <= i <= |segs|
      invariant vm.Space(root) && vm.View(root) == BuildView(segs[..i]) && PagesOnly(vm.mem, root)
      invariant Grown(old(vm.mem), old(vm.FreeFrames()), vm.mem, vm.FreeFrames(), root)
    {
      var seg := segs[i];
      assert segs[..i + 1][..i] == segs[..i];
      BuildSteps(segs[..i + 1]);
      if seg.size != 0 {
        ghost var m, f := vm.mem, vm.FreeFrames();
        ghost var done;
        ok, done := vm.MapPages(root, seg.pa, seg.pa, seg.size, SegmentAttrs(seg));
        GrownTrans(old(vm.mem), old(vm.FreeFrames()), m, f, vm.mem, vm.FreeFrames(), root);
        if !ok { return; }
      }
      i := i + 1;
    }
    assert segs[..i] == segs;
    ok := true;
  }

  /** `create_process_table`. None stands for the panic on a lack of table pages. */
  method CreateProcessTable(vm: Vmm, segs: seq<ProcSegment>) returns (r: Option<nat>)
    requires vm.alloc.Valid()
    modifies vm, vm.alloc.bitmap
    ensures Kept(old(vm.mem), old(vm.FreeFrames()), vm.mem) && vm.FreeFrames() <= old(vm.FreeFrames())
    ensures r.Some? ==> r.value in old(vm.FreeFrames()) && vm.Space(r.value) && vm.View(r.value) == BuildView(segs)
    ensures r.Some? ==> PagesOnly(vm.mem, r.value)
    ensures r.Some? ==> forall t :: InTree(vm.mem, r.value, t) ==> t in old(vm.FreeFrames())
    ensures r.Some? && ProperSegments(segs, old(vm.FreeFrames())) ==> TaskSpace(vm, r.value)
    ensures r.None? ==> vm.FreeFrames() == {}
  {
    hide PagesOnly, IsTree, Translation, BuildView, TaskSpace, ProperSegments;
    ghost var m0, f0 := vm.mem, vm.FreeFrames();
    r := vm.AllocTable();
    if r.None? { return; }
    var root := r.value;
    ghost var m1, f1 := vm.mem, vm.FreeFrames();
    StartsEmpty(m1, root);
    var ok := MapSegments(vm, root, segs);
    GrownKeeps(m0, f0, m1, f1, vm.mem, vm.FreeFrames(), root);
    if !ok { return None; }
    NewTreeWasFree(m0, f0, m1, f1, vm.mem, vm.FreeFrames(), root);
    if ProperSegments(segs, f0) {
      NewProcessSpace(vm, root, segs, f0);
    }
  }

  // ------------------------------------------------ anonymous mappings

  datatype Outcome = Returned(value: int) | Panicked

  /** Page `w` mapped to itself as ordinary memory that EL0 may read and write and
      nobody may execute. */
  predicate IsUserPage(leaf: Leaf, w: nat) {
    && leaf.frame == w && leaf.attrs.user && leaf.attrs.accessed && leaf.attrs.shareable
    && !leaf.attrs.device && leaf.attrs.uxn && leaf.attrs.pxn
  }

  /** The page map with `n` fresh identity pages from `f` added. */
  ghost predicate AddsPages(view: View, view': View, f: nat, n: nat) {
    forall w: nat {:trigger Lookup(view', w)} ::
      if w in Run(f, n) then Lookup(view', w).Some? && IsUserPage(Lookup(view', w).value, w)
      else Lookup(view', w) == Lookup(view, w)
  }

  lemma FreshPages(view: View, f: nat, n: nat)
    requires f + n <= PAGES && forall w :: w in Run(f, n) ==> w !in view
    ensures AddsPages(view, MapRange(view, f, f, n, USER_RW), f, n)
  {
    forall w: nat
      ensures Lookup(MapRange(view, f, f, n, USER_RW), w) ==
              if w in Run(f, n) then Some(Leaf(w, USER_RW)) else Lookup(view, w)
    {
      MapRangeMeaning(view, f, f, n, USER_RW, w);
      assert w in Run(f, n) ==> w % PAGES == w;
    }
  }

  lemma MmapKeepsSpace(m1: Memory, f0: set<nat>, f1: set<nat>, m2: Memory, f2: set<nat>, root: nat,
                       v0: View, v2: View, f: nat, n: nat)
    requires InUse(m1, root, f0) && Run(f, n) <= f0 && f1 == f0 - Run(f, n)
    requires Grown(m1, f1, m2, f2, root) && AddsPages(v0, v2, f, n)
    requires forall w :: w in v0 ==> v0[w].frame == w && w !in f0 && !InTree(m1, root, w)
    ensures forall w :: w in v2 ==> v2[w].frame == w && w !in f2 && !InTree(m2, root, w)
  {
    forall w | w in v2 ensures v2[w].frame == w && w !in f2 && !InTree(m2, root, w) {
      assert w in Run(f, n) ==> IsUserPage(Lookup(v2, w).value, w);
      assert w !in Run(f, n) ==> Lookup(v2, w) == Lookup(v0, w);
    }
  }

  lemma AlignedSpan(f: nat, size: nat)
    requires 0 < size && f + PageCount(0, size) <= PAGES
    ensures PageCount(f * PAGE_SIZE, size) == PageCount(0, size) > 0
    ensures PageNumber(f * PAGE_SIZE) == f && f * PAGE_SIZE / PAGE_SIZE == f
  {
  }

  /** The mapping half of `sys_mmap`: frames `[f, f+pages)` are just allocated. */
  method MapFresh(vm: Vmm, root: nat, f: nat, size: nat, ghost f0: set<nat>) returns (ok: bool)
    requires vm.Space(root) && PagesOnly(vm.mem, root) && 0 < size
    requires var n := PageCount(0, size);
             && 0 < f && f + n <= PAGES && Run(f, n) <= f0
             && InUse(vm.mem, root, f0) && vm.FreeFrames() == f0 - Run(f, n)
    requires forall w :: w in vm.View(root) ==> vm.View(root)[w].frame == w && w !in f0 && !InTree(vm.mem, root, w)
    modifies vm, vm.alloc.bitmap
    ensures Grown(old(vm.mem), old(vm.FreeFrames()), vm.mem, vm.FreeFrames(), root)
    ensures ok ==> vm.Space(root) && PagesOnly(vm.mem, root)
    ensures ok ==> AddsPages(old(vm.View(root)), vm.View(root), f, PageCount(0, size))
    ensures ok ==> forall w :: w in vm.View(root) ==>
                     vm.View(root)[w].frame == w && w !in vm.FreeFrames() && !InTree(vm.mem, root, w)
    ensures !ok ==> vm.FreeFrames() == {}
  {
    ghost var m1, f1, v0, n := vm.mem, vm.FreeFrames(), vm.View(root), PageCount(0, size);
    ghost var done;
    FreshPages(v0, f, n);
    var addr := f * PAGE_SIZE;
    AlignedSpan(f, size);
    ok, done := vm.MapPages(root, addr, addr, size, USER_RW);
    if ok {
      ghost var v2 := vm.View(root);
      assert v2 == MapRange(v0, f, f, n, USER_RW);
      MmapKeepsSpace(m1, f0, f1, vm.mem, vm.FreeFrames(), root, v0, v2, f, n);
    }
  }

  /** The outcome of a successful `sys_mmap`: the task sees the fresh pages
      `[f, f+n)` at their own addresses, and besides them only pages that became
      its own page tables were allocated. */
  ghost predicate Mmapped(m0: Memory, f0: set<nat>, m2: Memory, f2: set<nat>, root: nat, f: nat, n: nat) {
    && 0 < f && f + n <= PAGES && Run(f, n) <= f0
    && AddsPages(Translation(m0, root), Translation(m2, root), f, n)
    && Grown(m0, f0 - Run(f, n), m2, f2, root)
  }

  /** `sys_mmap`, for a task with the page table `root` or with none of its own. */
  method SysMmap(vm: Vmm, root: Option<nat>, size: nat) returns (r: Outcome, ghost first: nat)
    requires vm.alloc.Valid() && (root.Some? ==> TaskSpace(vm, root.value))
    modifies vm, vm.alloc.bitmap
    ensures r.Returned? && root.Some? ==> TaskSpace(vm, root.value)
    ensures r == Returned(-1) <==> size == 0
    ensures r == Returned(-12) <==>
            0 < size && forall f: nat :: !(Run(f, PageCount(0, size)) <= old(vm.FreeFrames()))
    ensures r.Returned? ==> r.value in {-1, -12} || 0 < r.value
    ensures r.Returned? && r.value < 0 ==> vm.mem == old(vm.mem) && vm.FreeFrames() == old(vm.FreeFrames())
    ensures r.Returned? && 0 <= r.value ==>
              var n := PageCount(0, size);
              r.value == first * PAGE_SIZE &&
              match root
              case Some(q) => Mmapped(old(vm.mem), old(vm.FreeFrames()), vm.mem, vm.FreeFrames(), q, first, n)
              case None =>
                && vm.mem == old(vm.mem) && Run(first, n) <= old(vm.FreeFrames())
                && vm.FreeFrames() == old(vm.FreeFrames()) - Run(first, n)
    ensures r.Panicked? ==> root.Some? && vm.FreeFrames() == {}
  {
    first := 0;
    if size == 0 { return Returned(-1), 0; }
    var pages := (size + 0xFFF) / PAGE_SIZE;
    assert pages == PageCount(0, size);
    ghost var f0 := vm.FreeFrames();
    var run := vm.AllocFrames(pages);
    if run.None? { return Returned(-12), 0; }
    var f := run.value;
    if root.Some? {
      var ok := MapFresh(vm, root.value, f, size, f0);
      if !ok { return Panicked, 0; }
    }
    return Returned(f * PAGE_SIZE), f;
  }

  /** In a task's space every mapped page of a range is unmapped and freed. */
  lemma UnmapInTaskSpace(mem: Memory, root: nat, v: View, free: set<nat>, pages: set<nat>)
    requires PagesOnly(mem, root) && v == Translation(mem, root) && IdentityMapped(v, free)
    ensures var gone := Gone(mem, root, pages);
            v - gone == v - pages && FramesAt(v, gone) == set w | w in pages && w in v
  {
  }

  lemma UnmapKeepsIdentity(v: View, free: set<nat>, v': View, free': set<nat>, range: set<nat>)
    requires IdentityMapped(v, free) && v' == v - range
    requires forall f :: f in free' ==> f in free || f in range
    ensures IdentityMapped(v', free')
  {
  }

  /** `sys_munmap`, for a task with the page table `root` or with none of its own. */
  method SysMunmap(vm: Vmm, root: Option<nat>, va: nat, size: nat) returns (r: int)
    requires vm.alloc.Valid() && (root.Some? ==> TaskSpace(vm, root.value))
    modifies vm, vm.alloc.bitmap
    ensures root.Some? ==> TaskSpace(vm, root.value)
    ensures r == if va == 0 || size == 0 || root.None? then -1 else 0
    ensures r == -1 ==> vm.mem == old(vm.mem) && vm.FreeFrames() == old(vm.FreeFrames())
    ensures r == 0 ==> SameShape(old(vm.mem), vm.mem, root.value)
    ensures r == 0 ==> var range := Pages(va / PAGE_SIZE, PageCount(va, size));
                       var was := old(vm.View(root.value));
                       && vm.View(root.value) == was - range
                       && vm.FreeFrames() == old(vm.FreeFrames()) + vm.ManagedOf(set w | w in range && w in was)
  {
    if va == 0 || size == 0 { return -1; }
    if root.None? { return -1; }
    var q := root.value;
    ghost var m0, range := vm.mem, Pages(va / PAGE_SIZE, PageCount(va, size));
    ghost var v0, f0 := vm.View(q), vm.FreeFrames();
    UnmapInTaskSpace(m0, q, v0, f0, range);
    vm.UnmapPages(q, va, size);
    ShapePagesOnly(m0, vm.mem, q);
    UnmapKeepsIdentity(v0, f0, vm.View(q), vm.FreeFrames(), range);
    return 0;
  }

  lemma ShapePagesOnly(mem: Memory, mem': Memory, root: nat)
    requires SameShape(mem, mem', root) && PagesOnly(mem, root)
    requires forall w :: w in Translation(mem', root) ==> w in Translation(mem, root)
    ensures PagesOnly(mem', root)
  {
    forall w | w in Translation(mem', root) ensures TableAt(mem', root, NodeL3(w)).Some? {
      assert IsTable(mem, root, NodeL3(w), TableAt(mem, root, NodeL3(w)).value);
    }
  }

  lemma {:induction false} PagesIsRun(f: nat, n: nat)
    requires f + n <= PAGES
    ensures Pages(f, n) == Run(f, n)
    decreases n
  {
    if n > 0 {
      PagesIsRun(f, n - 1);
      assert (f + n - 1) % PAGES == f + n - 1;
    }
  }

  /** The free pages are back, except those that are now tables of the space. */
  ghost predicate GivenBack(m0: Memory, f0: set<nat>, m2: Memory, f2: set<nat>, root: nat) {
    && f2 <= f0
    && forall t :: t in f0 && t !in f2 ==> InTree(m2, root, t) && !InTree(m0, root, t)
  }

  /** `sys_mmap` and then `sys_munmap` of what it returned give the task its old
      translation back, and the free pages too, except those that are now page
      tables of the task. */
  method MmapThenMunmap(vm: Vmm, root: nat, size: nat) returns (r: Outcome)
    requires TaskSpace(vm, root) && 0 < size
    modifies vm, vm.alloc.bitmap
    ensures r.Returned? ==> TaskSpace(vm, root) && vm.View(root) == old(vm.View(root))
    ensures r.Returned? ==> GivenBack(old(vm.mem), old(vm.FreeFrames()), vm.mem, vm.FreeFrames(), root)
  {
    ghost var first;
    ghost var m0, f0 := vm.mem, vm.FreeFrames();
    assert forall w :: w in f0 ==> vm.Managed(w);
    r, first := SysMmap(vm, Some(root), size);
    if r.Panicked? || r.value < 0 { return; }
    MunmapFresh(vm, root, first, size, r.value, m0, f0);
  }

  /** Unmapping the range that `sys_mmap` has just returned. */
  method MunmapFresh(vm: Vmm, root: nat, ghost first: nat, size: nat, va: nat, ghost m0: Memory, ghost f0: set<nat>)
    requires TaskSpace(vm, root) && 0 < size && va == first * PAGE_SIZE
    requires Mmapped(m0, f0, vm.mem, vm.FreeFrames(), root, first, PageCount(0, size))
    requires InUse(m0, root, f0) && IdentityMapped(Translation(m0, root), f0)
    requires forall w :: w in f0 ==> vm.Managed(w)
    modifies vm, vm.alloc.bitmap
    ensures TaskSpace(vm, root) && vm.View(root) == Translation(m0, root)
    ensures GivenBack(m0, f0, vm.mem, vm.FreeFrames(), root)
  {
    ghost var m1, f1 := vm.mem, vm.FreeFrames();
    ghost var range := FreshRange(vm, m0, f0, m1, f1, root, first, size);
    var e := SysMunmap(vm, Some(root), va, size);
    RoundTripFree(m0, f0, m1, f1, vm.mem, vm.FreeFrames(), root, first, PageCount(0, size));
  }

  /** The range that is unmapped again, as `sys_munmap` computes it. */
  lemma FreshRange(vm: Vmm, m0: Memory, f0: set<nat>, m1: Memory, f1: set<nat>, root: nat, first: nat, size: nat)
    returns (range: set<nat>)
    requires 0 < size && Mmapped(m0, f0, m1, f1, root, first, PageCount(0, size))
    requires IdentityMapped(Translation(m0, root), f0)
    requires forall w :: w in f0 ==> vm.Managed(w)
    ensures range == Run(first, PageCount(0, size))
    ensures range == Pages(first * PAGE_SIZE / PAGE_SIZE, PageCount(first * PAGE_SIZE, size))
    ensures Translation(m1, root) - range == Translation(m0, root)
    ensures vm.ManagedOf(set w | w in range && w in Translation(m1, root)) == range
  {
    var n := PageCount(0, size);
    range := Run(first, n);
    AlignedSpan(first, size);
    PagesIsRun(first, n);
    RoundTripView(m0, f0, m1, f1, root, first, n);
    assert forall w :: w in range ==> vm.Managed(w);
  }

  lemma RoundTripView(m0: Memory, f0: set<nat>, m1: Memory, f1: set<nat>, root: nat, f: nat, n: nat)
    requires Mmapped(m0, f0, m1, f1, root, f, n) && IdentityMapped(Translation(m0, root), f0)
    ensures Translation(m1, root) - Run(f, n) == Translation(m0, root)
    ensures (set w | w in Run(f, n) && w in Translation(m1, root)) == Run(f, n)
  {
    AddedThenRemoved(Translation(m0, root), Translation(m1, root), f0, f, n);
  }

  lemma AddedThenRemoved(v0: View, v1: View, f0: set<nat>, f: nat, n: nat)
    requires AddsPages(v0, v1, f, n) && IdentityMapped(v0, f0) && Run(f, n) <= f0
    ensures v1 - Run(f, n) == v0
    ensures (set w | w in Run(f, n) && w in v1) == Run(f, n)
  {
    forall w: nat
      ensures Lookup(v1 - Run(f, n), w) == Lookup(v0, w) && (w in Run(f, n) ==> w in v1)
    {
      assert w !in Run(f, n) ==> Lookup(v1, w) == Lookup(v0, w);
      assert w in Run(f, n) ==> Lookup(v1, w).Some? && w in f0;
    }
    assert forall w: nat :: w in v0 ==> Lookup(v1 - Run(f, n), w) == Some(v0[w]);
  }

  lemma RoundTripFree(m0: Memory, f0: set<nat>, m1: Memory, f1: set<nat>, m2: Memory, f2: set<nat>,
                      root: nat, f: nat, n: nat)
    requires Mmapped(m0, f0, m1, f1, root, f, n) && InUse(m0, root, f0)
    requires SameShape(m1, m2, root) && f2 == f1 + Run(f, n)
    ensures GivenBack(m0, f0, m2, f2, root)
  {
    SameTree(m1, m2, root, {});
  }
}
