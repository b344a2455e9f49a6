/** Clean unmount and fast mount (bbuild.c): the in-use list is written to the
    data blocks of a reserved inode and read back, and those blocks are then freed. */
module Remount {
  import opened Arith
  import opened BlockList
  import opened Allocator
  import opened BlockTree
  import opened Codec
  import opened InodeTree
  import opened InodeOps
  import opened InodeAlloc
  import opened FileContents

  /** sizeof(struct pmfs_blocknode_lowhigh) */
  const ENTRY: nat := 16

  /** The dynamic super-block fields of fast mount. */
  class SuperBlock {
    var numNodes: int       // s_num_blocknode_allocated
    var numFree: int        // s_num_free_blocks
  }

  /** One node as it is stored. */
  function EntryBytes(n: Interval): (r: seq<byte>)
    ensures |r| == ENTRY
  {
    ToLE(n.low, 8) + ToLE(n.high, 8)
  }

  function EntryNode(bs: seq<byte>): Interval
    requires |bs| == ENTRY
  {
    Interval(FromLE(bs[..8]), FromLE(bs[8..]))
  }

  lemma EntryRoundTrip(n: Interval)
    requires n.low < Pow256(8) && n.high < Pow256(8)
    ensures EntryNode(EntryBytes(n)) == n
  {
    RoundTrip(n.low, 8);
    RoundTrip(n.high, 8);
    assert EntryBytes(n)[..8] == ToLE(n.low, 8) && EntryBytes(n)[8..] == ToLE(n.high, 8);
  }

  /** Entries [0, k) of the save area hold the first k nodes of l. */
  ghost predicate Saved(d: map<nat, seq<byte>>, t: Tree, h: nat, l: seq<Interval>, k: nat)
    requires Shape(t, h) && k <= |l|
  {
    forall m: nat :: m < k ==> Matches(d, t, h, m * ENTRY, EntryBytes(l[m]))
  }

  lemma SavedStep(d: map<nat, seq<byte>>, d': map<nat, seq<byte>>, t: Tree, h: nat, l: seq<Interval>, k: nat)
    requires Shape(t, h) && k < |l| && Saved(d, t, h, l, k)
    requires Stored(d, d', t, h, k * ENTRY, EntryBytes(l[k]))
    ensures Saved(d', t, h, l, k + 1)
  {
    hide ByteAt, Shape, EntryBytes;
    forall m: nat | m < k + 1 ensures Matches(d', t, h, m * ENTRY, EntryBytes(l[m])) {
      assert m < k ==> Matches(d, t, h, m * ENTRY, EntryBytes(l[m]));
    }
  }

  /** The first n file blocks are mapped. */
  ghost predicate FirstMapped(t: Tree, h: nat, n: nat)
    requires Shape(t, h)
  {
    forall i :: 0 <= i < n ==> FullLookup(t, h, i) != 0
  }

  /** The copying loop of pmfs_save_blocknode_mappings: 256 entries to a block. */
  method SaveList(sb: SbInfo, dev: Device, pi: Inode, numBlocks: nat, ghost t: Tree)
    requires HasTree(sb, dev, pi, t) && pi.btype.Block4K? && Formatted(dev.data, sb.blockEnd)
    requires FirstMapped(t, pi.height, numBlocks) && |sb.inuse| * ENTRY <= numBlocks * BLOCK
    modifies dev`data
    ensures Formatted(dev.data, sb.blockEnd) && Saved(dev.data, t, pi.height, sb.inuse, |sb.inuse|)
  {
    hide Rep, Disjoint, Held, Canonical, Covered, Shape, FullLookup, Owns, Formatted, Stored, ByteAt, EntryBytes,
         Matches;
    for k := 0 to |sb.inuse|
      invariant Formatted(dev.data, sb.blockEnd) && Saved(dev.data, t, pi.height, sb.inuse, k)
    {
      ghost var d := dev.data;
      assert FullLookup(t, pi.height, k / 256) != 0;
      StoreInBlock(sb, dev, pi, k / 256, k % 256 * ENTRY, EntryBytes(sb.inuse[k]), t);
      SavedStep(d, dev.data, t, pi.height, sb.inuse, k);
    }
  }

  /** The inode's tree t holds list l1, which is list l0 plus the blocks of t. */
  ghost predicate AreaSaved(l0: seq<Interval>, l1: seq<Interval>, s: State, root: nat, h: nat, size: nat, start: nat,
                            end: nat, t: Tree) {
    && Canonical(l0, start, end) && Canonical(l1, start, end) && Gained(l0, l1, Hole, t, 1)
    && Shape(t, h) && Disjoint(t, 1) && Rep(s.nodes, root, t) && Held(l1, t, 1) && Tidy(t) && root != 0 && (t.Hole? ==> h == 0)
    && Formatted(s.data, end) && Saved(s.data, t, h, l1, |l1|)
    && 0 < size && size % BLOCK == 0 && |l1| * ENTRY <= size && FirstMapped(t, h, size / BLOCK)
    && (size - 1) / BLOCK < Pow(h) && Unmapped(t, h, (size - 1) / BLOCK + 1, Pow(h))
  }

  /** Blocks of the save area of a list of n nodes. */
  function AreaBlocks(n: nat): nat
    requires 0 < n
  {
    (n * ENTRY - 1) / BLOCK + 1
  }

  /** As few as hold the entries. */
  lemma AreaLeast(n: nat, k: nat)
    requires 0 < n
    ensures n * ENTRY <= AreaBlocks(n) * BLOCK
    ensures n * ENTRY <= k * BLOCK ==> AreaBlocks(n) <= k
  {
  }

  /** Why list l cannot be saved: its area is out of reach of any tree, or space ran
      out, and then there were too few spare blocks for it.  l' is the list at the end. */
  ghost predicate CannotSave(l: seq<Interval>, l': seq<Interval>, end: nat)
    requires l != []
  {
    var n := AreaBlocks(|l|);
    || TooFar(n - 1, 0)
    || (OutOfSpace(l', end, Block4K) && Spare(l, end) <= Enough(n, 0, 1))
  }

  lemma WhyUnsaved(l: seq<Interval>, l': seq<Interval>, end: nat, n: nat, ok: bool)
    requires l != [] && n == AreaBlocks(|l|)
    requires !ok && !TooFar(0 + n - 1, 0) ==> Short(l', end, Block4K, false)
    requires Spare(l, end) > Enough(n, 0, 1) ==> (ok <==> !TooFar(0 + n - 1, 0))
    ensures !ok ==> CannotSave(l, l', end)
  {
    hide OutOfSpace, TooFar, Enough, Covered;
  }

  /** pmfs_save_blocknode_mappings.  The space is reckoned from the node count
      before the save area itself is allocated. */
  method SaveBlocknodeMappings(sb: SbInfo, dev: Device, pi: Inode, super: SuperBlock) returns (ok: bool, ghost t: Tree)
    requires sb.Valid() && sb.inuse != [] && Formatted(dev.data, sb.blockEnd)
    requires pi.root == 0 && pi.iBlocks == 0
    modifies sb, dev, pi, super
    ensures sb.Valid() && sb.Total() == old(sb.Total())
    ensures ok ==> AreaSaved(old(sb.inuse), sb.inuse, Now(sb, dev), pi.root, pi.height, pi.size, sb.blockStart, sb.blockEnd, t)
    ensures ok ==> super.numNodes == |sb.inuse| && super.numFree == sb.numFree
    ensures !ok ==> CannotSave(old(sb.inuse), sb.inuse, sb.blockEnd)
  {
    hide CannotSave, OutOfSpace, TooFar, Enough, Short, Rep, Disjoint, Held, Canonical, Covered, Shape, FullLookup, Owns,
         Formatted, Saved, Allocated, Tidy,
         AreaSaved, Unmapped, Released, Gained, FirstMapped;
    ghost var l0 := sb.inuse;
    var numBlocks: nat := AreaBlocks(sb.numNodes);
    pi.btype, pi.eofBlocks, pi.height, pi.size := Block4K, false, 0, numBlocks * BLOCK;
    ghost var s0 := Now(sb, dev);
    NoTree(s0);
    ok, t := AllocBlocks(sb, dev, pi, 0, numBlocks, false, false, Hole);
    WhyUnsaved(l0, sb.inuse, sb.blockEnd, numBlocks, ok);
    if !ok { return; }
    ghost var s1 := Now(sb, dev);
    AreaAllocated(s0, s1, sb.blockEnd, pi.iBlocks, pi.root, t, pi.height, numBlocks);
    SaveList(sb, dev, pi, numBlocks, t);
    super.numNodes, super.numFree := sb.numNodes, sb.numFree;
    AreaIs(l0, Now(sb, dev), pi.root, pi.height, pi.size, sb.blockStart, sb.blockEnd, t, numBlocks);
  }

  lemma NoTree(s: State)
    ensures Shape(Hole, 0) && Disjoint(Hole, 1) && Rep(s.nodes, 0, Hole) && Held(s.inuse, Hole, 1)
  {
  }

  lemma AreaAllocated(s: State, s': State, end: nat, b: int, root: nat, t: Tree, h: nat, n: nat)
    requires 0 < n && Allocated(s, s', 0, b, Hole, 0, t, h, 0 / 1, (0 + n - 1) / 1, 1, true) && Formatted(s.data, end)
    requires Rep(s'.nodes, root, t)
    ensures Gained(s.inuse, s'.inuse, Hole, t, 1) && Formatted(s'.data, end) && Tidy(t)
    ensures Shape(t, h) && FirstMapped(t, h, n) && n - 1 < Pow(h) && Unmapped(t, h, n, Pow(h)) && root != 0
  {
    assert FullLookup(t, h, n - 1) != 0;
    forall i: nat | n <= i < Pow(h) ensures Lookup(t, h, i) == 0 {
      assert FullLookup(t, h, i) == FullLookup(Hole, 0, i);
    }
  }

  lemma AreaIs(l0: seq<Interval>, s: State, root: nat, h: nat, size: nat, start: nat, end: nat, t: Tree, n: nat)
    requires Canonical(l0, start, end) && Canonical(s.inuse, start, end) && Gained(l0, s.inuse, Hole, t, 1)
    requires Shape(t, h) && Disjoint(t, 1) && Rep(s.nodes, root, t) && Held(s.inuse, t, 1) && Tidy(t) && root != 0
    requires (t.Hole? ==> h == 0)
    requires Formatted(s.data, end) && Saved(s.data, t, h, s.inuse, |s.inuse|)
    requires 0 < n && size == n * BLOCK && |s.inuse| * ENTRY <= size && FirstMapped(t, h, n) && n - 1 < Pow(h)
    requires Unmapped(t, h, n, Pow(h))
    ensures AreaSaved(l0, s.inuse, s, root, h, size, start, end, t)
  {
    DivModUnique(size, BLOCK, n, 0);
    DivModUnique(size - 1, BLOCK, n - 1, BLOCK - 1);
  }

  // ---------------------------------------------------------------- fast mount

  /** Read entry i of the save area. */
  method ReadEntry(dev: Device, pi: Inode, i: nat, ghost t: Tree, ghost l1: seq<Interval>, ghost start: nat,
                   ghost end: nat) returns (bs: seq<byte>)
    requires Shape(t, pi.height) && Rep(dev.nodes, pi.root, t) && (t.Hole? ==> pi.height == 0)
    requires Canonical(l1, start, end) && Held(l1, t, 1) && Formatted(dev.data, end) && FullLookup(t, pi.height, i / 256) != 0
    ensures |bs| == ENTRY && Matches(dev.data, t, pi.height, i * ENTRY, bs)
  {
    hide Rep, Held, Canonical, Shape, Owns;
    var bp := FindBlock(dev, pi.root, pi.height, i / 256, t);
    MappedInDevice(l1, start, end, t, pi.height, i / 256);
    var at := i % 256 * ENTRY;
    bs := dev.data[bp][at..at + ENTRY];
    forall j: nat | j < ENTRY ensures bs[j] == ByteAt(dev.data, t, pi.height, i * ENTRY + j) {
      DivModUnique(i * ENTRY + j, BLOCK, i / 256, at + j);
    }
  }

  lemma SameEntry(d: map<nat, seq<byte>>, t: Tree, h: nat, at: nat, a: seq<byte>, b: seq<byte>)
    requires Shape(t, h) && |a| == |b| && Matches(d, t, h, at, a) && Matches(d, t, h, at, b)
    ensures a == b
  {
    hide ByteAt, Shape;
    forall j: nat | j < |a| ensures a[j] == b[j] { assert a[j] == ByteAt(d, t, h, at + j); }
  }

  /** pmfs_init_blockmap_from_inode */
  method InitBlockmapFromInode(sb: SbInfo, dev: Device, pi: Inode, ghost l0: seq<Interval>, ghost l1: seq<Interval>,
                               ghost t: Tree)
    requires sb.inuse == [] && sb.numNodes == |l1| && sb.blockEnd <= Pow256(8)
    requires AreaSaved(l0, l1, State(l1, dev.nodes, dev.data), pi.root, pi.height, pi.size, sb.blockStart, sb.blockEnd, t)
    modifies sb`inuse, sb`numNodes
    ensures sb.inuse == l1 && sb.numNodes == |l1|
  {
    hide Rep, Held, Shape, Owns, Disjoint, Tidy, ByteAt, Formatted, FullLookup, Matches, EntryBytes, Unmapped,
         EntryNode, Gained, Pow256;
    var num: nat := sb.numNodes;
    sb.numNodes := 0;
    for i := 0 to num
      invariant sb.inuse == l1[..i] && sb.numNodes == i
    {
      assert FullLookup(t, pi.height, i / 256) != 0;
      var bs := ReadEntry(dev, pi, i, t, l1, sb.blockStart, sb.blockEnd);
      assert Matches(dev.data, t, pi.height, i * ENTRY, EntryBytes(l1[i]));
      SameEntry(dev.data, t, pi.height, i * ENTRY, bs, EntryBytes(l1[i]));
      EntryRoundTrip(l1[i]);
      sb.inuse := sb.inuse + [EntryNode(bs)];
      sb.numNodes := sb.numNodes + 1;
    }
  }

  /** pmfs_can_skip_full_scan.  l0 is the list before the save area was
      allocated, l1 the list as saved. */
  method FastMount(sb: SbInfo, dev: Device, pi: Inode, super: SuperBlock, ghost l0: seq<Interval>, ghost l1: seq<Interval>,
                   ghost t: Tree)
    returns (ok: bool)
    requires sb.inuse == [] && sb.blockEnd <= Pow256(8) && super.numNodes == |l1|
    requires pi.root == 0 || AreaSaved(l0, l1, State(l1, dev.nodes, dev.data), pi.root, pi.height, pi.size, sb.blockStart, sb.blockEnd, t)
    modifies sb, dev`nodes, pi
    ensures ok <==> old(pi.root) != 0
    ensures ok ==> sb.Valid() && sb.inuse == l0 && sb.Total() == super.numFree + Covered(l1)
    ensures ok ==> pi.root == 0 && pi.iBlocks == 0
  {
    hide Rep, Held, Shape, Owns, Disjoint, Tidy, Formatted, FullLookup, Unmapped, Canonical, Covered, Saved,
         FirstMapped, Released, AreaSaved, Pow256, Gained;
    if pi.root == 0 { return false; }
    sb.numNodes, sb.numFree := super.numNodes, super.numFree;
    InitBlockmapFromInode(sb, dev, pi, l0, l1, t);
    AreaFacts(l0, l1, State(l1, dev.nodes, dev.data), pi.root, pi.height, pi.size, sb.blockStart, sb.blockEnd, t);
    var root, height, last := pi.root, pi.height, (pi.size - 1) / BLOCK;
    pi.root, pi.height, pi.iBlocks, pi.size, pi.eofBlocks := 0, 0, 0, 0, false;
    var panic, freed := FreeInodeSubtree(sb, dev, root, height, Block4K, last, t);
    AreaFreed(l0, l1, sb.inuse, t, sb.blockStart, sb.blockEnd);
    ok := true;
  }

  lemma AreaFacts(l0: seq<Interval>, l1: seq<Interval>, s: State, root: nat, h: nat, size: nat, start: nat, end: nat, t: Tree)
    requires AreaSaved(l0, l1, s, root, h, size, start, end, t)
    ensures Canonical(l0, start, end) && Canonical(l1, start, end) && Gained(l0, l1, Hole, t, 1)
    ensures Shape(t, h) && Disjoint(t, 1) && Rep(s.nodes, root, t) && Held(l1, t, 1) && Tidy(t) && 0 < size
    ensures (size - 1) / BLOCK < Pow(h) && Unmapped(t, h, (size - 1) / BLOCK + 1, Pow(h))
  {
  }

  /** Freeing the save area exactly cancels its allocation. */
  lemma AreaFreed(l0: seq<Interval>, l1: seq<Interval>, l2: seq<Interval>, t: Tree, start: nat, end: nat)
    requires Canonical(l0, start, end) && Canonical(l2, start, end)
    requires Gained(l0, l1, Hole, t, 1) && Released(l1, l2, t, Hole, 1)
    ensures l2 == l0
  {
    assert forall b :: !Owns(Hole, 1, b);
    CanonicalUnique(l2, l0, start, end);
  }

  lemma AreaRoot(l0: seq<Interval>, l1: seq<Interval>, s: State, root: nat, h: nat, size: nat, start: nat, end: nat, t: Tree)
    requires AreaSaved(l0, l1, s, root, h, size, start, end, t)
    ensures root != 0
  {
  }

  /** Clean unmount then fast mount: the volatile list is lost in between, and
      comes back node for node with the same free count. */
  method CleanRemount(sb: SbInfo, dev: Device, pi: Inode, super: SuperBlock) returns (ok: bool)
    requires sb.Valid() && sb.inuse != [] && Formatted(dev.data, sb.blockEnd) && sb.blockEnd <= Pow256(8)
    requires pi.root == 0 && pi.iBlocks == 0
    modifies sb, dev, pi, super
    ensures ok ==> sb.Valid() && sb.inuse == old(sb.inuse) && sb.numFree == old(sb.numFree) && sb.numNodes == old(sb.numNodes)
    ensures ok ==> pi.root == 0 && pi.iBlocks == 0
    ensures !ok ==> CannotSave(old(sb.inuse), sb.inuse, sb.blockEnd)
  {
    hide CannotSave, AreaSaved, Covered, Canonical, Formatted, Pow256;
    ghost var l0 := sb.inuse;
    ghost var t;
    ok, t := SaveBlocknodeMappings(sb, dev, pi, super);
    if !ok { return; }
    ghost var l1 := sb.inuse;
    AreaRoot(l0, l1, Now(sb, dev), pi.root, pi.height, pi.size, sb.blockStart, sb.blockEnd, t);
    sb.inuse, sb.numNodes, sb.numFree := [], 0, 0;
    ok := FastMount(sb, dev, pi, super, l0, l1, t);
  }
}
