/** AArch64 four-level translation tables as physical memory holds them, the
    hardware walk over them, and the plain page map that the walk stands for
    (kernel/src/memory/vmm.rs). Physical and virtual addresses are page numbers:
    every table address and every leaf address in the source is masked to a page. */
module PageTables {
  import opened Wrappers

  const ENTRIES: nat := 512
  /** Page numbers that the four 9-bit indices can tell apart. */
  const PAGES: nat := 0x10_0000_0000

  /** Permission and memory-type bits of a leaf descriptor. */
  datatype Attrs = Attrs(accessed: bool, shareable: bool, user: bool, device: bool, uxn: bool, pxn: bool)

  datatype Pte = Pte(valid: bool, table: bool, frame: nat, attrs: Attrs)

  datatype Leaf = Leaf(frame: nat, attrs: Attrs)

  const NO_ATTRS: Attrs := Attrs(false, false, false, false, false, false)
  const INVALID: Pte := Pte(false, false, 0, NO_ATTRS)

  function ZeroTable(): seq<Pte> {
    seq(ENTRIES, _ => INVALID)
  }

  type Table = t: seq<Pte> | |t| == ENTRIES witness ZeroTable()
  type Memory = map<nat, Table>
  type View = imap<nat, Leaf>

  function TableEntry(t: nat): Pte {
    Pte(true, true, t, NO_ATTRS)
  }

  // ------------------------------------------------------ hardware walk

  function I0(vpn: nat): nat { vpn / 0x800_0000 % ENTRIES }
  function I1(vpn: nat): nat { vpn / 0x4_0000 % ENTRIES }
  function I2(vpn: nat): nat { vpn / 0x200 % ENTRIES }
  function I3(vpn: nat): nat { vpn % ENTRIES }

  function PageNumber(va: nat): nat { va / 4096 % PAGES }

  /** The page walk of the architecture: three table levels, a 2 MiB block at
      level 2, a page at level 3. */
  function Walk(mem: Memory, root: nat, vpn: nat): Option<Leaf> {
    if root !in mem then None else
    var e0 := mem[root][I0(vpn)];
    if !e0.valid || !e0.table || e0.frame !in mem then None else
    var e1 := mem[e0.frame][I1(vpn)];
    if !e1.valid || !e1.table || e1.frame !in mem then None else
    var e2 := mem[e1.frame][I2(vpn)];
    if !e2.valid then None
    else if !e2.table then Some(Leaf(e2.frame + I3(vpn), e2.attrs))
    else if e2.frame !in mem then None else
    var e3 := mem[e2.frame][I3(vpn)];
    if e3.valid && e3.table then Some(Leaf(e3.frame, e3.attrs)) else None
  }

  function WalkOf(mem: Memory, root: nat): nat -> Option<Leaf> {
    (vpn: nat) => Walk(mem, root, vpn)
  }

  /** The page map that a walk function stands for. */
  ghost function ViewOf(walk: nat -> Option<Leaf>): View {
    imap vpn: nat | vpn < PAGES && walk(vpn).Some? :: walk(vpn).value
  }

  /** The plain map from virtual page to physical page and permissions. */
  ghost function Translation(mem: Memory, root: nat): View {
    ViewOf(WalkOf(mem, root))
  }

  // -------------------------------------------------- the tree of tables

  /** A position in the tree of tables. */
  datatype Node = Root | L1(i0: nat) | L2(i0: nat, i1: nat) | L3(i0: nat, i1: nat, i2: nat)

  predicate InRange(n: Node) {
    match n
    case Root => true
    case L1(i) => i < ENTRIES
    case L2(i, j) => i < ENTRIES && j < ENTRIES
    case L3(i, j, k) => i < ENTRIES && j < ENTRIES && k < ENTRIES
  }

  function Depth(n: Node): nat {
    match n case Root => 0 case L1(_) => 1 case L2(_, _) => 2 case L3(_, _, _) => 3
  }

  function Child(n: Node, i: nat): Node
    requires !n.L3?
  {
    match n
    case Root => L1(i)
    case L1(a) => L2(a, i)
    case L2(a, b) => L3(a, b, i)
  }

  function Next(mem: Memory, parent: Option<nat>, i: nat): Option<nat>
    requires i < ENTRIES
  {
    if parent.Some? && parent.value in mem && mem[parent.value][i].valid && mem[parent.value][i].table
    then Some(mem[parent.value][i].frame) else None
  }

  /** The page holding the table at position `n`, if that table exists. */
  function TableAt(mem: Memory, root: nat, n: Node): Option<nat>
    requires InRange(n)
  {
    match n
    case Root => Some(root)
    case L1(i) => Next(mem, Some(root), i)
    case L2(i, j) => Next(mem, Next(mem, Some(root), i), j)
    case L3(i, j, k) => Next(mem, Next(mem, Next(mem, Some(root), i), j), k)
  }

  predicate IsTable(mem: Memory, root: nat, n: Node, t: nat) {
    InRange(n) && TableAt(mem, root, n) == Some(t)
  }

  /** `t` is one of the table pages of the tree under `root`. */
  ghost predicate InTree(mem: Memory, root: nat, t: nat) {
    exists n :: IsTable(mem, root, n, t)
  }

  /** The descriptors that make sense in a table of the level of `n`. */
  predicate GoodTable(n: Node, t: Table) {
    match n
    case L2(_, _) => forall i :: 0 <= i < ENTRIES && t[i].valid && !t[i].table ==> t[i].frame % ENTRIES == 0
    case _ => forall i :: 0 <= i < ENTRIES && t[i].valid ==> t[i].table
  }

  /** The tables under `root` form a tree: every table is in memory, is well
      formed for its level, and sits at one position only. */
  ghost predicate IsTree(mem: Memory, root: nat) {
    && (forall n, t :: IsTable(mem, root, n, t) ==> t in mem && GoodTable(n, mem[t]))
    && (forall n, m, t :: IsTable(mem, root, n, t) && IsTable(mem, root, m, t) ==> n == m)
  }

  function NodeL2(vpn: nat): Node { L2(I0(vpn), I1(vpn)) }
  function NodeL3(vpn: nat): Node { L3(I0(vpn), I1(vpn), I2(vpn)) }

  /** The walk, told by positions in the tree. */
  lemma WalkByNodes(mem: Memory, root: nat, vpn: nat)
    requires IsTree(mem, root)
    ensures Walk(mem, root, vpn) ==
            match TableAt(mem, root, NodeL3(vpn))
            case Some(t) =>
              if t in mem && mem[t][I3(vpn)].valid
              then Some(Leaf(mem[t][I3(vpn)].frame, mem[t][I3(vpn)].attrs)) else None
            case None =>
              match TableAt(mem, root, NodeL2(vpn))
              case Some(t) =>
                if t in mem && mem[t][I2(vpn)].valid
                then Some(Leaf(mem[t][I2(vpn)].frame + I3(vpn), mem[t][I2(vpn)].attrs)) else None
              case None => None
  {
    assert IsTable(mem, root, Root, root);
    var n1, n2, n3 := L1(I0(vpn)), NodeL2(vpn), NodeL3(vpn);
    if TableAt(mem, root, n1).Some? { assert IsTable(mem, root, n1, TableAt(mem, root, n1).value); }
    if TableAt(mem, root, n2).Some? { assert IsTable(mem, root, n2, TableAt(mem, root, n2).value); }
    if TableAt(mem, root, n3).Some? { assert IsTable(mem, root, n3, TableAt(mem, root, n3).value); }
  }

  lemma Digits(v: nat)
    requires v < PAGES
    ensures v == ((I0(v) * ENTRIES + I1(v)) * ENTRIES + I2(v)) * ENTRIES + I3(v)
  {
    var a := v / ENTRIES;
    var b := a / ENTRIES;
    var c := b / ENTRIES;
    assert v / 0x4_0000 == b;
    assert v / 0x800_0000 == c;
    assert c < ENTRIES;
  }

  /** Virtual pages with the same four indices are the same page. */
  lemma IndicesSeparate(v: nat, w: nat)
    requires v < PAGES && w < PAGES
    requires NodeL3(v) == NodeL3(w) && I3(v) == I3(w)
    ensures v == w
  {
    Digits(v);
    Digits(w);
  }

  // ----------------------------------------------- growing the tree

  /** Hanging a new table page `t` with contents `content` under slot `i` of
      the table page `p`. */
  function Graft(mem: Memory, p: nat, i: nat, t: nat, content: Table): Memory
    requires p in mem && i < ENTRIES
  {
    mem[t := content][p := mem[p][i := TableEntry(t)]]
  }

  /** The new table sits where it was hung; every other position is as before. */
  lemma GraftPositions(mem: Memory, root: nat, n: Node, p: nat, i: nat, t: nat, content: Table, m: Node)
    requires IsTree(mem, root) && IsTable(mem, root, n, p) && !n.L3? && i < ENTRIES
    requires !InTree(mem, root, t)
    requires TableAt(mem, root, Child(n, i)).None?
    requires n.L2? || content == ZeroTable()
    requires InRange(m)
    ensures TableAt(Graft(mem, p, i, t, content), root, m) ==
            if m == Child(n, i) then Some(t) else TableAt(mem, root, m)
    decreases Depth(m)
  {
    var mem' := Graft(mem, p, i, t, content);
    assert IsTable(mem, root, Root, root);
    match m {
      case Root =>
      case L1(a) =>
        GraftNext(mem, root, n, p, i, t, content, Root, root, a);
      case L2(a, b) =>
        GraftPositions(mem, root, n, p, i, t, content, L1(a));
        if L1(a) == Child(n, i) {
        } else if TableAt(mem, root, L1(a)).Some? {
          GraftNext(mem, root, n, p, i, t, content, L1(a), TableAt(mem, root, L1(a)).value, b);
        }
      case L3(a, b, c) =>
        GraftPositions(mem, root, n, p, i, t, content, L2(a, b));
        if L2(a, b) == Child(n, i) {
        } else if TableAt(mem, root, L2(a, b)).Some? {
          GraftNext(mem, root, n, p, i, t, content, L2(a, b), TableAt(mem, root, L2(a, b)).value, c);
        }
    }
  }

  /** One step down from an old table after a graft. */
  lemma GraftNext(mem: Memory, root: nat, n: Node, p: nat, i: nat, t: nat, content: Table, m: Node, q: nat, j: nat)
    requires IsTree(mem, root) && IsTable(mem, root, n, p) && !n.L3? && i < ENTRIES
    requires !InTree(mem, root, t)
    requires IsTable(mem, root, m, q) && !m.L3? && j < ENTRIES
    ensures Next(Graft(mem, p, i, t, content), Some(q), j) ==
            if Child(m, j) == Child(n, i) then Some(t) else TableAt(mem, root, Child(m, j))
  {
    assert q != t;
    assert p == q ==> m == n;
  }

  /** What `get_or_alloc_subtable` puts into a new table that replaces the
      descriptor `e`: nothing under an absent entry, the 512 pages of a block. */
  function Subtable(e: Pte): (t: Table)
    ensures !e.valid ==> t == ZeroTable()
  {
    if e.valid then seq(ENTRIES, (k: nat) => Pte(true, true, e.frame + k, e.attrs)) else ZeroTable()
  }

  /** Grafting keeps the tables a tree. */
  lemma GraftTree(mem: Memory, root: nat, n: Node, p: nat, i: nat, t: nat)
    requires IsTree(mem, root) && IsTable(mem, root, n, p) && !n.L3? && i < ENTRIES
    requires !InTree(mem, root, t)
    requires !(mem[p][i].valid && mem[p][i].table)
    ensures IsTree(Graft(mem, p, i, t, Subtable(mem[p][i])), root)
    ensures IsTable(Graft(mem, p, i, t, Subtable(mem[p][i])), root, Child(n, i), t)
    ensures forall m, q :: IsTable(mem, root, m, q) ==> IsTable(Graft(mem, p, i, t, Subtable(mem[p][i])), root, m, q)
    ensures forall m, q :: IsTable(Graft(mem, p, i, t, Subtable(mem[p][i])), root, m, q) ==>
              q == t || IsTable(mem, root, m, q)
  {
    var content := Subtable(mem[p][i]);
    var mem' := Graft(mem, p, i, t, content);
    NoTableThere(mem, root, n, p, i);
    forall m, q: nat | IsTable(mem', root, m, q)
      ensures (if m == Child(n, i) then q == t else IsTable(mem, root, m, q))
      ensures q in mem' && GoodTable(m, mem'[q])
    {
      GraftPositions(mem, root, n, p, i, t, content, m);
      if m == Child(n, i) {
        assert mem'[t] == content;
      } else {
        assert IsTable(mem, root, m, q);
        assert q == p ==> m == n;
      }
    }
    forall m, q: nat | IsTable(mem, root, m, q) ensures IsTable(mem', root, m, q) {
      GraftPositions(mem, root, n, p, i, t, content, m);
    }
    GraftPositions(mem, root, n, p, i, t, content, Child(n, i));
  }

  lemma NoTableThere(mem: Memory, root: nat, n: Node, p: nat, i: nat)
    requires IsTree(mem, root) && IsTable(mem, root, n, p) && !n.L3? && i < ENTRIES
    ensures TableAt(mem, root, Child(n, i)) ==
            if mem[p][i].valid && mem[p][i].table then Some(mem[p][i].frame) else None
    ensures !n.L2? && mem[p][i].valid ==> mem[p][i].table
  {
  }

  /** Adding a table, and splitting a 2 MiB block into its 512 pages, change no
      translation: not of the page being mapped, not of the sibling pages. */
  lemma GraftWalk(mem: Memory, root: nat, n: Node, p: nat, i: nat, t: nat, vpn: nat)
    requires IsTree(mem, root) && IsTable(mem, root, n, p) && !n.L3? && i < ENTRIES
    requires !InTree(mem, root, t)
    requires !(mem[p][i].valid && mem[p][i].table)
    ensures Walk(Graft(mem, p, i, t, Subtable(mem[p][i])), root, vpn) == Walk(mem, root, vpn)
  {
    hide Walk;
    var content := Subtable(mem[p][i]);
    var mem' := Graft(mem, p, i, t, content);
    GraftTree(mem, root, n, p, i, t);
    NoTableThere(mem, root, n, p, i);
    WalkByNodes(mem, root, vpn);
    WalkByNodes(mem', root, vpn);
    var n2, n3 := NodeL2(vpn), NodeL3(vpn);
    GraftPositions(mem, root, n, p, i, t, content, n2);
    GraftPositions(mem, root, n, p, i, t, content, n3);
    if TableAt(mem, root, n2).Some? { assert IsTable(mem, root, n2, TableAt(mem, root, n2).value); }
    if TableAt(mem, root, n3).Some? { assert IsTable(mem, root, n3, TableAt(mem, root, n3).value); }
  }

  // ------------------------------------------------- writing one leaf

  function PutLeaf(mem: Memory, t: nat, i: nat, e: Pte): Memory
    requires t in mem && i < ENTRIES
  {
    mem[t := mem[t][i := e]]
  }

  lemma PutLeafTree(mem: Memory, root: nat, n: Node, t: nat, i: nat, e: Pte)
    requires IsTree(mem, root) && IsTable(mem, root, n, t) && n.L3? && i < ENTRIES
    requires e.valid ==> e.table
    ensures IsTree(PutLeaf(mem, t, i, e), root)
    ensures forall m, q :: IsTable(PutLeaf(mem, t, i, e), root, m, q) == IsTable(mem, root, m, q)
  {
    var mem' := PutLeaf(mem, t, i, e);
    forall m | InRange(m) ensures TableAt(mem', root, m) == TableAt(mem, root, m) {
      PutLeafPosition(mem, root, n, t, i, e, m);
    }
    assert forall m, q :: IsTable(mem', root, m, q) == IsTable(mem, root, m, q);
  }

  lemma PutLeafPosition(mem: Memory, root: nat, n: Node, t: nat, i: nat, e: Pte, m: Node)
    requires IsTree(mem, root) && IsTable(mem, root, n, t) && n.L3? && i < ENTRIES
    requires InRange(m)
    ensures TableAt(PutLeaf(mem, t, i, e), root, m) == TableAt(mem, root, m)
    decreases Depth(m)
  {
    assert IsTable(mem, root, Root, root);
    match m {
      case Root =>
      case L1(a) =>
      case L2(a, b) =>
        PutLeafPosition(mem, root, n, t, i, e, L1(a));
        assert forall q :: TableAt(mem, root, L1(a)) == Some(q) ==> IsTable(mem, root, L1(a), q);
      case L3(a, b, c) =>
        PutLeafPosition(mem, root, n, t, i, e, L2(a, b));
        assert forall q :: TableAt(mem, root, L2(a, b)) == Some(q) ==> IsTable(mem, root, L2(a, b), q);
    }
  }

  /** Writing the level-3 descriptor of page `vpn` changes the translation of
      that page only. */
  lemma PutLeafWalk(mem: Memory, root: nat, vpn: nat, t: nat, e: Pte, w: nat)
    requires IsTree(mem, root) && IsTable(mem, root, NodeL3(vpn), t)
    requires e.valid ==> e.table
    requires vpn < PAGES && w < PAGES
    ensures Walk(PutLeaf(mem, t, I3(vpn), e), root, w) ==
            if w == vpn then (if e.valid then Some(Leaf(e.frame, e.attrs)) else None)
            else Walk(mem, root, w)
  {
    var mem' := PutLeaf(mem, t, I3(vpn), e);
    PutLeafTree(mem, root, NodeL3(vpn), t, I3(vpn), e);
    WalkByNodes(mem, root, w);
    WalkByNodes(mem', root, w);
    PutLeafPosition(mem, root, NodeL3(vpn), t, I3(vpn), e, NodeL2(w));
    PutLeafPosition(mem, root, NodeL3(vpn), t, I3(vpn), e, NodeL3(w));
    assert forall q :: TableAt(mem, root, NodeL2(w)) == Some(q) ==> IsTable(mem, root, NodeL2(w), q);
    assert forall q :: TableAt(mem, root, NodeL3(w)) == Some(q) ==> IsTable(mem, root, NodeL3(w), q);
    if NodeL3(w) == NodeL3(vpn) && I3(w) == I3(vpn) {
      IndicesSeparate(w, vpn);
    }
  }
}
