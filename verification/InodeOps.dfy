/** Operations on an inode's block tree as a whole (inode.c, pmfs.h): lookup,
    truncation with lowering of the tree, freeing, recounting. */
module InodeOps {
  import opened Arith
  import opened BlockList
  import opened Allocator
  import opened BlockTree
  import opened InodeTree

  /** struct pmfs_inode, the fields the block tree uses. */
  class Inode {
    var root: nat
    var height: nat
    var btype: BlockType    // i_blk_type
    var iBlocks: int        // i_blocks, in 4K units
    var eofBlocks: bool     // PMFS_EOFBLOCKS_FL
    var size: nat           // i_size
  }

  /** pmfs_inode_blk_size */
  function BlkSize(btype: BlockType): nat {
    NumBlocks(btype) * BLOCK
  }

  /** `(n + size - 1) >> shift`: the number of blocks that n bytes reach into. */
  function BlocksFor(n: nat, btype: BlockType): nat {
    (n + BlkSize(btype) - 1) / BlkSize(btype)
  }

  /** The inode's fields describe tree t. */
  ghost predicate HasTree(sb: SbInfo, dev: Device, pi: Inode, t: Tree)
    reads sb, dev, pi
  {
    Ready(sb, dev, pi.root, pi.height, pi.btype, t) && (t.Hole? ==> pi.height == 0)
  }

  ghost predicate ExactCount(pi: Inode, t: Tree)
    reads pi
  {
    pi.iBlocks == Count(t) * NumBlocks(pi.btype)
  }

  // ---------------------------------------------------------------- lookup

  /** __pmfs_find_data_block */
  method FindBlock(dev: Device, root: nat, height: nat, blocknr: nat, ghost t: Tree) returns (bp: nat)
    requires Shape(t, height) && Rep(dev.nodes, root, t) && blocknr < Pow(height) && (t.Hole? ==> height == 0)
    ensures bp == Lookup(t, height, blocknr)
  {
    EndOfWalk(t, height, blocknr);
    hide Lookup, Shape, Rep, Pow;
    var h: nat, nr: nat := height, blocknr;
    bp := root;
    ghost var cur := t;
    while h > 0
      invariant Shape(cur, h) && Rep(dev.nodes, bp, cur) && nr < Pow(h) && (h > 0 ==> cur.Node?)
      invariant Lookup(cur, h, nr) == Lookup(t, height, blocknr)
    {
      var idx := KidOf(nr, h);
      LookupKid(cur, h, nr);
      SlotAt(dev.nodes, bp, cur, h, idx);
      bp := dev.nodes[bp][idx];
      cur, nr := cur.kids[idx], nr % Pow(h - 1);
      EndOfWalk(cur, h - 1, nr);
      if bp == 0 { return; }
      h := h - 1;
    }
    EndOfWalk(cur, h, nr);
    RootPointer(dev.nodes, bp, cur);
  }

  lemma EndOfWalk(t: Tree, h: nat, i: nat)
    requires Shape(t, h) && i < Pow(h)
    ensures t.Hole? ==> Lookup(t, h, i) == 0
    ensures h == 0 && t.Leaf? ==> Lookup(t, h, i) == t.blk
    ensures h == 0 ==> !t.Node?
    ensures h > 0 ==> !t.Leaf?
  {
  }

  lemma RootPointer(nodes: map<nat, seq<nat>>, p: nat, t: Tree)
    requires Rep(nodes, p, t)
    ensures p == if t.Hole? then 0 else t.blk
  {
  }

  /** pmfs_find_data_block: `fileBlock` and the result count 4K blocks. */
  method FindDataBlock(dev: Device, pi: Inode, fileBlock: nat, ghost t: Tree) returns (bp: nat)
    requires Shape(t, pi.height) && Rep(dev.nodes, pi.root, t) && (t.Hole? ==> pi.height == 0)
    ensures var n := NumBlocks(pi.btype);
            var q := FullLookup(t, pi.height, fileBlock / n);
            bp == if q == 0 then 0 else q + fileBlock % n
  {
    var n := NumBlocks(pi.btype);
    var blocknr := fileBlock / n;
    if blocknr >= Pow(pi.height) { return 0; }
    bp := FindBlock(dev, pi.root, pi.height, blocknr, t);
    if bp != 0 { bp := bp + fileBlock % n; }
  }

  // ---------------------------------------------------------------- recount

  /** pmfs_inode_count_iblocks_recursive */
  method CountRecursive(dev: Device, block: nat, height: nat, ghost t: Tree) returns (n: nat)
    requires Shape(t, height) && Rep(dev.nodes, block, t) && !t.Hole?
    ensures n == Count(t)
    decreases height
  {
    if height == 0 { return 1; }
    var node := dev.nodes[block];
    n := 0;
    for i := 0 to FANOUT
      invariant n == CountAll(t.kids[..i])
    {
      assert t.kids[..i + 1][..i] == t.kids[..i];
      assert Shape(t.kids[i], height - 1) && Rep(dev.nodes, node[i], t.kids[i]);
      if node[i] != 0 {
        var k := CountRecursive(dev, node[i], height - 1, t.kids[i]);
        n := n + k;
      }
    }
    assert t.kids[..FANOUT] == t.kids;
  }

  /** pmfs_inode_count_iblocks: the count made at mount, when i_blocks is not trusted. */
  method CountIblocks(dev: Device, root: nat, height: nat, btype: BlockType, ghost t: Tree) returns (n: nat)
    requires Shape(t, height) && Rep(dev.nodes, root, t)
    ensures n == Count(t) * NumBlocks(btype)
  {
    if root == 0 { return 0; }
    var k := CountRecursive(dev, root, height, t);
    n := k * NumBlocks(btype);
  }

  // ---------------------------------------------------------------- lowering

  method HeightFor(n: nat) returns (h: nat)
    ensures LeastHeight(n, h)
  {
    h := 0;
    var rest := n;
    while rest > 0
      invariant rest == n / Pow(h) && (h > 0 ==> Pow(h - 1) <= n)
      decreases rest
    {
      DivDiv(n, Pow(h), FANOUT);
      rest := rest / FANOUT;
      h := h + 1;
    }
    SlotBelow(Pow(h), n, Pow(h));
  }

  /** What dropping a root that has only its first kid does. */
  lemma DropRoot(l: seq<Interval>, nodes: map<nat, seq<nat>>, p: nat, h: nat, t: Tree, span: nat)
    requires t.Node? && Shape(t, h) && Tidy(t) && Count(t) > 0 && Disjoint(t, span) && Rep(nodes, p, t) && Held(l, t, span)
    requires forall i :: Pow(h - 1) <= i < Pow(h) ==> Lookup(t, h, i) == 0
    ensures var k := t.kids[0];
            && !k.Hole? && Shape(k, h - 1) && Tidy(k) && Disjoint(k, span)
            && Rep(nodes, nodes[p][0], k) && Held(l, k, span) && nodes[p][0] != 0
            && (forall j :: 0 < j < FANOUT ==> nodes[p][j] == 0)
            && (forall i :: FullLookup(k, h - 1, i) == FullLookup(t, h, i))
            && InUse(l, p) && Owns(t, span, p) && Count(k) == Count(t)
            && (forall b :: Owns(k, span, b) <==> Owns(t, span, b) && b != p)
  {
    OnlyFirstKid(t, h);
    forall b ensures Owns(t.kids[0], span, b) <==> Owns(t, span, b) && b != p {
      OnlyFirstKidOwns(t, span, b);
    }
    OnlyFirstKidOwns(t, span, 0);
    assert Owns(t, span, p);
    forall j | 0 < j < FANOUT ensures nodes[p][j] == 0 { assert Rep(nodes, nodes[p][j], t.kids[j]); }
  }

  /** cur is t with some roots dropped: same map, same data blocks. */
  ghost predicate Lowered(l0: seq<Interval>, l1: seq<Interval>, t: Tree, h: nat, cur: Tree, h': nat, span: nat) {
    && Shape(t, h) && Shape(cur, h') && h' <= h
    && (forall i :: FullLookup(cur, h', i) == FullLookup(t, h, i))
    && Count(cur) == Count(t) && Released(l0, l1, t, cur, span) && cur == Down(t, h - h')
    && (forall b :: Owns(cur, span, b) ==> Owns(t, span, b))
  }

  /** The loop of pmfs_decrease_btree_height. */
  method DropRoots(sb: SbInfo, dev: Device, root: nat, height: nat, newHeight: nat, btype: BlockType, ghost t: Tree)
    returns (newroot: nat, ghost t': Tree)
    requires Ready(sb, dev, root, height, btype, t) && Tidy(t) && Count(t) > 0 && newHeight <= height
    requires forall i :: Pow(newHeight) <= i < Pow(height) ==> Lookup(t, height, i) == 0
    modifies sb
    ensures sb.Valid() && sb.Total() == old(sb.Total())
    ensures Ready(sb, dev, newroot, newHeight, btype, t') && Tidy(t') && !t'.Hole?
    ensures Lowered(old(sb.inuse), sb.inuse, t, height, t', newHeight, NumBlocks(btype))
  {
    var h: nat := height;
    newroot, t' := root, t;
    while h > newHeight
      invariant newHeight <= h <= height
      invariant sb.Valid() && sb.Total() == old(sb.Total())
      invariant Ready(sb, dev, newroot, h, btype, t') && Tidy(t') && Count(t') > 0 && !t'.Hole?
      invariant Lowered(old(sb.inuse), sb.inuse, t, height, t', h, NumBlocks(btype))
    {
      NothingPast(t, height, t', h, newHeight);
      newroot, t' := DropOneRoot(sb, dev, newroot, h, height, btype, t', t, old(sb.inuse));
      h := h - 1;
    }
  }

  lemma NothingPast(t: Tree, h0: nat, cur: Tree, h: nat, low: nat)
    requires Shape(t, h0) && Shape(cur, h) && low < h <= h0
    requires forall i :: Pow(low) <= i < Pow(h0) ==> Lookup(t, h0, i) == 0
    requires forall i :: FullLookup(cur, h, i) == FullLookup(t, h0, i)
    ensures forall i :: Pow(h - 1) <= i < Pow(h) ==> Lookup(cur, h, i) == 0
  {
    PowMono(low, h - 1);
    PowMono(h, h0);
    forall i | Pow(h - 1) <= i < Pow(h) ensures Lookup(cur, h, i) == 0 {
      assert FullLookup(cur, h, i) == FullLookup(t, h0, i);
    }
  }

  method DropOneRoot(sb: SbInfo, dev: Device, root: nat, h: nat, ghost h0: nat, btype: BlockType,
                     ghost cur: Tree, ghost t: Tree, ghost l0: seq<Interval>)
    returns (newroot: nat, ghost k: Tree)
    requires Ready(sb, dev, root, h, btype, cur) && Tidy(cur) && Count(cur) > 0 && cur.Node?
    requires forall i :: Pow(h - 1) <= i < Pow(h) ==> Lookup(cur, h, i) == 0
    requires Lowered(l0, sb.inuse, t, h0, cur, h, NumBlocks(btype))
    modifies sb
    ensures sb.Valid() && sb.Total() == old(sb.Total())
    ensures Ready(sb, dev, newroot, h - 1, btype, k) && Tidy(k) && !k.Hole?
    ensures Lowered(l0, sb.inuse, t, h0, k, h - 1, NumBlocks(btype))
  {
    hide Tidy, Disjoint, Canonical, Covered, Owns, Count, FullLookup, Removed, Splits;
    DropRoot(sb.inuse, dev.nodes, root, h, cur, NumBlocks(btype));
    newroot, k := dev.nodes[root][0], cur.kids[0];
    DownMore(t, h0 - h);
    var ok, hint := sb.FreeBlock(root, Block4K, None, true);
  }

  /** pmfs_decrease_btree_height, called with what truncation to `newsize`
      bytes left: nothing mapped at or past the new end.  `panic` is the BUG_ON. */
  method DecreaseHeight(sb: SbInfo, dev: Device, pi: Inode, newsize: nat, newroot: nat, ghost t: Tree)
    returns (panic: bool, ghost t': Tree)
    requires Ready(sb, dev, newroot, pi.height, pi.btype, t) && Tidy(t) && ExactCount(pi, t)
    requires newroot == 0 || newroot == pi.root
    requires BlocksFor(newsize, pi.btype) <= Pow(pi.height)
    requires forall i :: BlocksFor(newsize, pi.btype) <= i < Pow(pi.height) ==> Lookup(t, pi.height, i) == 0
    modifies sb, pi`root, pi`height
    ensures sb.Valid() && sb.Total() == old(sb.Total())
    ensures panic <==> (pi.iBlocks == 0 || newsize == 0) && newroot != 0
    ensures panic ==> unchanged(sb) && unchanged(pi)
    ensures !panic ==> HasTree(sb, dev, pi, t') && Tidy(t')
    ensures !panic ==> Lowered(old(sb.inuse), sb.inuse, t, old(pi.height), t', pi.height, NumBlocks(pi.btype))
    ensures !panic && !t'.Hole? ==> newsize > 0 && LeastHeight(BlocksFor(newsize, pi.btype) - 1, pi.height)
  {
    panic, t' := false, t;
    if pi.iBlocks == 0 || newsize == 0 {
      if newroot != 0 { return true, t; }
      DownHole(pi.height);
      pi.root, pi.height := newroot, 0;
      return;
    }
    var last := BlocksFor(newsize, pi.btype) - 1;
    var newHeight := HeightFor(last);
    LeastHeightIsLeast(last, newHeight, pi.height);
    if pi.height == newHeight { return; }
    var root;
    root, t' := DropRoots(sb, dev, newroot, pi.height, newHeight, pi.btype, t);
    pi.root, pi.height := root, newHeight;
  }

  lemma DownHole(n: nat)
    ensures Down(Hole, n) == Hole
  {
  }

  // ---------------------------------------------------------------- truncating an inode

  /** The middle of __pmfs_truncate_blocks: a lone data block, or a tree. */
  method TruncateTree(sb: SbInfo, dev: Device, root: nat, height: nat, btype: BlockType, f: nat, l: nat, ghost t: Tree)
    returns (root': nat, freed: nat)
    requires Ready(sb, dev, root, height, btype, t) && !t.Hole? && f <= l < Pow(height)
    modifies sb, dev`nodes
    ensures sb.Valid() && sb.Total() == old(sb.Total())
    ensures Truncated(old(sb.inuse), sb.inuse, old(dev.nodes), dev.nodes, root, t, Trunc(t, height, f, l), NumBlocks(btype))
    ensures root' == if Trunc(t, height, f, l).Hole? then 0 else root
    ensures freed == Count(t) - Count(Trunc(t, height, f, l))
  {
    if height == 0 {
      assert forall b :: root <= b < root + NumBlocks(btype) ==> Owns(t, NumBlocks(btype), b);
      assert Owns(t, NumBlocks(btype), root);
      var ok, hint := sb.FreeBlock(root, btype, None, true);
      return 0, 1;
    }
    var empty;
    freed, empty := TruncateSubtree(sb, dev, root, height, btype, f, l, t);
    root' := if empty then 0 else root;
  }

  /** No data block starts at or past byte `end`. */
  ghost predicate NoneFrom(t: Tree, h: nat, btype: BlockType, end: nat)
    requires Shape(t, h)
  {
    forall i :: 0 <= i < Pow(h) && Lookup(t, h, i) != 0 ==> i * BlkSize(btype) < end
  }

  /** The last file block __pmfs_truncate_blocks visits, or none. */
  function LastToVisit(h: nat, btype: BlockType, eofBlocks: bool, end: nat): Option<nat> {
    if eofBlocks then Some(Pow(h) - 1)
    else if end == 0 then None
    else Some(var last := (end - 1) / BlkSize(btype); if last >= Pow(h) then Pow(h) - 1 else last)
  }

  /** It is the last file block the tree reaches that begins before `end`, or the last
      it reaches if there may be blocks past the end of the file. */
  lemma LastVisited(h: nat, btype: BlockType, eofBlocks: bool, end: nat, i: nat)
    requires i < Pow(h)
    ensures var last := LastToVisit(h, btype, eofBlocks, end);
            && (last.Some? ==> last.value < Pow(h) && (eofBlocks || last.value * BlkSize(btype) < end))
            && (eofBlocks || i * BlkSize(btype) < end ==> last.Some? && i <= last.value)
  {
    var z := BlkSize(btype);
    if !eofBlocks && end > 0 {
      DivModUnique(i * z, z, i, 0);
      if i * z < end { DivMono(i * z, end - 1, z); }
      var last := LastToVisit(h, btype, eofBlocks, end).value;
      MulMono(last, (end - 1) / z, z);
    }
  }

  /** Every mapped block is at or before it. */
  lemma AllVisited(t: Tree, h: nat, btype: BlockType, eofBlocks: bool, end: nat, i: nat)
    requires Shape(t, h) && i < Pow(h) && Lookup(t, h, i) != 0 && (eofBlocks || NoneFrom(t, h, btype, end))
    ensures LastToVisit(h, btype, eofBlocks, end).Some? && i <= LastToVisit(h, btype, eofBlocks, end).value
  {
    if !eofBlocks {
      var z := BlkSize(btype);
      DivMono(i * z, end - 1, z);
      DivModUnique(i * z, z, i, 0);
    }
  }

  /** t' is t without the file blocks at and past `first`, and the in-use list
      has lost exactly the blocks that t' no longer owns. */
  ghost predicate CutFrom(l: seq<Interval>, l': seq<Interval>, t: Tree, h: nat, t': Tree, h': nat, first: nat, span: nat) {
    && Shape(t, h) && Shape(t', h') && h' <= h
    && (forall i :: 0 <= i ==> FullLookup(t', h', i) == if i >= first then 0 else FullLookup(t, h, i))
    && Released(l, l', t, t', span) && (forall b :: Owns(t', span, b) ==> Owns(t, span, b))
  }

  /** Removing [first, last] removes everything from `first` on. */
  lemma TruncCutsFrom(l: seq<Interval>, l': seq<Interval>, t: Tree, h: nat, btype: BlockType, eofBlocks: bool, end: nat,
                      first: nat)
    requires Shape(t, h) && (eofBlocks || NoneFrom(t, h, btype, end))
    requires var last := LastToVisit(h, btype, eofBlocks, end);
             && last.Some? && first <= last.value < Pow(h)
             && Released(l, l', t, Trunc(t, h, first, last.value), NumBlocks(btype))
    ensures CutFrom(l, l', t, h, Trunc(t, h, first, LastToVisit(h, btype, eofBlocks, end).value), h, first, NumBlocks(btype))
  {
    var last := LastToVisit(h, btype, eofBlocks, end).value;
    var t' := Trunc(t, h, first, last);
    TruncShape(t, h, first, last);
    forall i | 0 <= i ensures FullLookup(t', h, i) == if i >= first then 0 else FullLookup(t, h, i) {
      if i < Pow(h) {
        TruncLookup(t, h, first, last, i);
        if Lookup(t, h, i) != 0 { AllVisited(t, h, btype, eofBlocks, end, i); }
      }
    }
    forall b ensures Owns(t', NumBlocks(btype), b) ==> Owns(t, NumBlocks(btype), b) {
      TruncOwns(t, h, first, last, NumBlocks(btype), b);
    }
  }

  lemma NothingToCut(l: seq<Interval>, t: Tree, h: nat, btype: BlockType, eofBlocks: bool, end: nat, first: nat)
    requires Shape(t, h) && (eofBlocks || NoneFrom(t, h, btype, end))
    requires var last := LastToVisit(h, btype, eofBlocks, end); t.Hole? || last.None? || last.value < first
    ensures CutFrom(l, l, t, h, t, h, first, NumBlocks(btype))
  {
    forall i | 0 <= i < Pow(h) && i >= first ensures Lookup(t, h, i) == 0 {
      if Lookup(t, h, i) != 0 { AllVisited(t, h, btype, eofBlocks, end, i); }
    }
  }

  /** Cutting and then lowering is cutting. */
  lemma CutThenLower(l0: seq<Interval>, l1: seq<Interval>, l2: seq<Interval>, t: Tree, t1: Tree, t2: Tree,
                     h: nat, h': nat, first: nat, span: nat)
    requires CutFrom(l0, l1, t, h, t1, h, first, span) && Lowered(l1, l2, t1, h, t2, h', span)
    ensures CutFrom(l0, l2, t, h, t2, h', first, span)
  {
  }

  /** What the cut itself leaves of the tree, before its height is lowered. */
  function CutTree(t: Tree, h: nat, btype: BlockType, eofBlocks: bool, start: nat, end: nat): Tree
    requires Shape(t, h)
  {
    var first, last := BlocksFor(start, btype), LastToVisit(h, btype, eofBlocks, end);
    if last.Some? && first <= last.value < Pow(h) then Trunc(t, h, first, last.value) else t
  }

  lemma CutTreeTidy(t: Tree, h: nat, btype: BlockType, eofBlocks: bool, start: nat, end: nat)
    requires Shape(t, h) && Tidy(t)
    ensures Tidy(CutTree(t, h, btype, eofBlocks, start, end))
  {
    var first, last := BlocksFor(start, btype), LastToVisit(h, btype, eofBlocks, end);
    if last.Some? && first <= last.value < Pow(h) { TruncTidy(t, h, first, last.value); }
  }

  /** Truncation would meet the BUG_ON of pmfs_decrease_btree_height. */
  ghost predicate HitsBugOn(t: Tree, h: nat, btype: BlockType, eofBlocks: bool, start: nat, end: nat)
    requires Shape(t, h)
  {
    var last := LastToVisit(h, btype, eofBlocks, end);
    last.Some? && BlocksFor(start, btype) <= last.value && BareBefore(t, h, BlocksFor(start, btype))
  }

  /** It does exactly when no data block but a root is left, or all of the
      file was to go and a root is left. */
  lemma BugOnIff(t: Tree, h: nat, btype: BlockType, eofBlocks: bool, start: nat, end: nat)
    requires Shape(t, h) && Tidy(CutTree(t, h, btype, eofBlocks, start, end)) && (eofBlocks || NoneFrom(t, h, btype, end))
    requires LastToVisit(h, btype, eofBlocks, end).Some?
    requires BlocksFor(start, btype) <= LastToVisit(h, btype, eofBlocks, end).value
    ensures var t' := Trunc(t, h, BlocksFor(start, btype), LastToVisit(h, btype, eofBlocks, end).value);
            HitsBugOn(t, h, btype, eofBlocks, start, end) <==> (Count(t') == 0 || start == 0) && !t'.Hole?
  {
    var first, last := BlocksFor(start, btype), LastToVisit(h, btype, eofBlocks, end).value;
    PastLastUnmapped(t, h, btype, eofBlocks, end);
    BlocksForZero(btype);
    assert CutTree(t, h, btype, eofBlocks, start, end) == Trunc(t, h, first, last);
    hide BlocksFor, LastToVisit, Trunc, Shape, NoneFrom, Unmapped, Count, SpineReach;
    BareRootIff(t, h, first, last);
    if start == 0 { WholeTreeGoes(t, h, last); }
  }

  lemma PastLastUnmapped(t: Tree, h: nat, btype: BlockType, eofBlocks: bool, end: nat)
    requires Shape(t, h) && (eofBlocks || NoneFrom(t, h, btype, end)) && LastToVisit(h, btype, eofBlocks, end).Some?
    ensures LastToVisit(h, btype, eofBlocks, end).value < Pow(h)
    ensures Unmapped(t, h, LastToVisit(h, btype, eofBlocks, end).value + 1, Pow(h))
  {
    var last := LastToVisit(h, btype, eofBlocks, end).value;
    forall i: nat | last < i < Pow(h) ensures Lookup(t, h, i) == 0 {
      if Lookup(t, h, i) != 0 { AllVisited(t, h, btype, eofBlocks, end, i); }
    }
  }

  lemma BlocksForZero(btype: BlockType)
    ensures BlocksFor(0, btype) == 0
  {
    DivModUnique(BlkSize(btype) - 1, BlkSize(btype), 0, BlkSize(btype) - 1);
  }

  /** __pmfs_truncate_blocks: free what lies in bytes [start, end) of the file.
      `isize` is the size of the file after the change; at mount i_blocks is
      recounted instead of adjusted.  `panic` is the BUG_ON it can run into.  Empty
      nodes off the leftmost path do no harm where the cut removes them. */
  method TruncateBlocks(sb: SbInfo, dev: Device, pi: Inode, start: nat, end: nat, isize: nat, mounting: bool, ghost t: Tree)
    returns (panic: bool, ghost t': Tree)
    requires HasTree(sb, dev, pi, t) && (mounting || ExactCount(pi, t))
    requires pi.eofBlocks || NoneFrom(t, pi.height, pi.btype, end)
    requires Tidy(CutTree(t, pi.height, pi.btype, pi.eofBlocks, start, end))
    modifies sb, dev`nodes, pi`root, pi`height, pi`iBlocks, pi`eofBlocks
    ensures sb.Valid() && sb.Total() == old(sb.Total())
    ensures panic <==> HitsBugOn(t, old(pi.height), pi.btype, old(pi.eofBlocks), start, end)
    ensures panic ==> pi.eofBlocks == old(pi.eofBlocks) && pi.root == old(pi.root) && pi.height == old(pi.height)
    ensures panic ==> BareLeft(sb, dev, pi, t') && t' == old(CutTree(t, pi.height, pi.btype, pi.eofBlocks, start, end))
    ensures panic ==> Released(old(sb.inuse), sb.inuse, t, t', NumBlocks(pi.btype))
    ensures !panic ==> HasTree(sb, dev, pi, t') && Tidy(t') && (old(ExactCount(pi, t)) || t' != t ==> ExactCount(pi, t'))
    ensures !panic ==> CutFrom(old(sb.inuse), sb.inuse, t, old(pi.height), t', pi.height, BlocksFor(start, pi.btype), NumBlocks(pi.btype))
    ensures !panic ==> pi.height <= old(pi.height) &&
                       t' == Down(CutTree(t, old(pi.height), pi.btype, old(pi.eofBlocks), start, end), old(pi.height) - pi.height)
    ensures var cuts := old(Cuts(pi, start, end));
            && (!panic && cuts && !t'.Hole? ==> start > 0 && LeastHeight(BlocksFor(start, pi.btype) - 1, pi.height))
            && (!panic ==> pi.eofBlocks == (old(pi.eofBlocks) && !(cuts && PastBlocks(isize, pi.iBlocks))))
    ensures Untouched(old(dev.nodes), dev.nodes, t, NumBlocks(pi.btype))
  {
    panic, t' := false, t;
    var first := BlocksFor(start, pi.btype);
    var last := LastToVisit(pi.height, pi.btype, pi.eofBlocks, end);
    if pi.root == 0 || last.None? || last.value < first {
      NothingToCut(sb.inuse, t, pi.height, pi.btype, pi.eofBlocks, end, first);
      return;
    }
    panic, t' := CutAndLower(sb, dev, pi, start, end, last.value, mounting, t);
    if panic { return; }
    if pi.eofBlocks && isize + BLOCK > pi.iBlocks * BLOCK {   // check_eof_blocks
      pi.eofBlocks := false;
    }
  }

  /** What the BUG_ON stops at: the cut is made, a root is left, i_blocks is exact. */
  ghost predicate BareLeft(sb: SbInfo, dev: Device, pi: Inode, t: Tree)
    reads sb, dev, pi
  {
    Ready(sb, dev, pi.root, pi.height, pi.btype, t) && Tidy(t) && !t.Hole? && ExactCount(pi, t)
  }

  /** There is something to cut: the file has a tree, and the cut starts at or before
      the last block that would be visited. */
  ghost predicate Cuts(pi: Inode, start: nat, end: nat)
    reads pi
  {
    var last := LastToVisit(pi.height, pi.btype, pi.eofBlocks, end);
    pi.root != 0 && last.Some? && BlocksFor(start, pi.btype) <= last.value
  }

  /** The file ends in or past its last block: no block lies wholly past the end, if the
      file has no holes. */
  predicate PastBlocks(size: nat, iBlocks: int) {
    iBlocks * BLOCK < size + BLOCK
  }

  /** __pmfs_truncate_blocks once it knows there is something to do. */
  method CutAndLower(sb: SbInfo, dev: Device, pi: Inode, start: nat, ghost end: nat, last: nat, mounting: bool, ghost t: Tree)
    returns (panic: bool, ghost t': Tree)
    requires Ready(sb, dev, pi.root, pi.height, pi.btype, t) && !t.Hole? && (mounting || ExactCount(pi, t))
    requires Tidy(CutTree(t, pi.height, pi.btype, pi.eofBlocks, start, end))
    requires pi.eofBlocks || NoneFrom(t, pi.height, pi.btype, end)
    requires LastToVisit(pi.height, pi.btype, pi.eofBlocks, end) == Some(last)
    requires BlocksFor(start, pi.btype) <= last < Pow(pi.height)
    modifies sb, dev`nodes, pi`root, pi`height, pi`iBlocks
    ensures sb.Valid() && sb.Total() == old(sb.Total())
    ensures panic <==> HitsBugOn(t, old(pi.height), pi.btype, pi.eofBlocks, start, end)
    ensures !panic ==> HasTree(sb, dev, pi, t') && Tidy(t') && ExactCount(pi, t')
    ensures !panic ==> CutFrom(old(sb.inuse), sb.inuse, t, old(pi.height), t', pi.height, BlocksFor(start, pi.btype), NumBlocks(pi.btype))
    ensures !panic ==> pi.height <= old(pi.height) &&
                       t' == Down(CutTree(t, old(pi.height), pi.btype, pi.eofBlocks, start, end), old(pi.height) - pi.height)
    ensures !panic && !t'.Hole? ==> start > 0 && LeastHeight(BlocksFor(start, pi.btype) - 1, pi.height)
    ensures panic ==> BareLeft(sb, dev, pi, t') && t' == CutTree(t, old(pi.height), pi.btype, pi.eofBlocks, start, end)
    ensures panic ==> Released(old(sb.inuse), sb.inuse, t, t', NumBlocks(pi.btype))
    ensures panic ==> pi.root == old(pi.root) && pi.height == old(pi.height)
    ensures Untouched(old(dev.nodes), dev.nodes, t, NumBlocks(pi.btype))
  {
    hide BlocksFor, LastToVisit, Trunc, Truncated, CutFrom, CutTree, Lowered, LeastHeight, Shape, Rep, Tidy, Disjoint, Held,
         HitsBugOn, Canonical, Covered, Untouched, Pow, NumBlocks, NoneFrom;
    var first := BlocksFor(start, pi.btype);
    ghost var l0, n0, h := sb.inuse, dev.nodes, pi.height;
    CutTreeIs(t, h, pi.btype, pi.eofBlocks, start, end, last);
    var root, freed := TruncateTree(sb, dev, pi.root, pi.height, pi.btype, first, last, t);
    ghost var t1 := Trunc(t, h, first, last);
    ghost var l1 := sb.inuse;
    StillReady(l0, l1, n0, dev.nodes, pi.root, root, h, pi.btype, first, last, t);
    TruncCutsFrom(l0, l1, t, h, pi.btype, pi.eofBlocks, end, first);
    if mounting {
      pi.iBlocks := CountIblocks(dev, root, pi.height, pi.btype, t1);
    } else {
      pi.iBlocks := pi.iBlocks - freed * NumBlocks(pi.btype);
      MulSub(Count(t), freed, NumBlocks(pi.btype));
    }
    BugOnIff(t, h, pi.btype, pi.eofBlocks, start, end);
    NoCountNoBlocks(pi.iBlocks, t1, pi.btype);
    CutLeavesNothing(l0, l1, t, h, t1, first, NumBlocks(pi.btype));
    panic, t' := DecreaseHeight(sb, dev, pi, start, root, t1);
    if panic {
      t' := t1;
      return;
    }
    CutThenLower(l0, l1, sb.inuse, t, t1, t', h, pi.height, first, NumBlocks(pi.btype));
    SameCount(l1, sb.inuse, t1, h, t', pi.height, NumBlocks(pi.btype));
  }

  lemma CutTreeIs(t: Tree, h: nat, btype: BlockType, eofBlocks: bool, start: nat, end: nat, last: nat)
    requires Shape(t, h) && LastToVisit(h, btype, eofBlocks, end) == Some(last) && BlocksFor(start, btype) <= last < Pow(h)
    ensures CutTree(t, h, btype, eofBlocks, start, end) == Trunc(t, h, BlocksFor(start, btype), last)
  {
  }

  lemma MulSub(a: int, b: int, n: int)
    ensures a * n - b * n == (a - b) * n
  {
  }

  lemma NoCountNoBlocks(iBlocks: int, t: Tree, btype: BlockType)
    requires iBlocks == Count(t) * NumBlocks(btype)
    ensures iBlocks == 0 <==> Count(t) == 0
  {
  }

  lemma CutLeavesNothing(l0: seq<Interval>, l1: seq<Interval>, t: Tree, h: nat, t1: Tree, first: nat, span: nat)
    requires CutFrom(l0, l1, t, h, t1, h, first, span)
    ensures Shape(t1, h) && forall i :: first <= i < Pow(h) ==> Lookup(t1, h, i) == 0
  {
    forall i | first <= i < Pow(h) ensures Lookup(t1, h, i) == 0 {
      assert FullLookup(t1, h, i) == 0;
    }
  }

  lemma SameCount(l0: seq<Interval>, l1: seq<Interval>, t: Tree, h: nat, cur: Tree, h': nat, span: nat)
    requires Lowered(l0, l1, t, h, cur, h', span)
    ensures Count(cur) == Count(t) && cur == Down(t, h - h')
  {
  }

  lemma StillReady(l0: seq<Interval>, l1: seq<Interval>, n0: map<nat, seq<nat>>, n1: map<nat, seq<nat>>,
                   p: nat, p': nat, h: nat, btype: BlockType, f: nat, l: nat, t: Tree)
    requires Shape(t, h) && Disjoint(t, NumBlocks(btype)) && Held(l0, t, NumBlocks(btype)) && f <= l < Pow(h)
    requires Tidy(Trunc(t, h, f, l))
    requires Truncated(l0, l1, n0, n1, p, t, Trunc(t, h, f, l), NumBlocks(btype))
    requires p' == if Trunc(t, h, f, l).Hole? then 0 else p
    ensures var t1 := Trunc(t, h, f, l);
            && Shape(t1, h) && Disjoint(t1, NumBlocks(btype)) && Tidy(t1)
            && Rep(n1, p', t1) && Held(l1, t1, NumBlocks(btype)) && Untouched(n0, n1, t, NumBlocks(btype))
            && Released(l0, l1, t, t1, NumBlocks(btype))
  {
    TruncShape(t, h, f, l);
    TruncDisjoint(t, h, f, l, NumBlocks(btype));
    forall b ensures Owns(Trunc(t, h, f, l), NumBlocks(btype), b) ==> Owns(t, NumBlocks(btype), b) {
      TruncOwns(t, h, f, l, NumBlocks(btype), b);
    }
  }

  /** pmfs_free_inode_subtree.  `panic` is its BUG_ON, met exactly when a data
      block lies past the given last one. */
  method FreeInodeSubtree(sb: SbInfo, dev: Device, root: nat, height: nat, btype: BlockType, lastBlocknr: nat, ghost t: Tree)
    returns (panic: bool, freed: nat)
    requires Ready(sb, dev, root, height, btype, t) && Tidy(t) && lastBlocknr < Pow(height)
    modifies sb, dev`nodes
    ensures sb.Valid() && sb.Total() == old(sb.Total()) && Untouched(old(dev.nodes), dev.nodes, t, NumBlocks(btype))
    ensures panic <==> !Unmapped(t, height, lastBlocknr + 1, Pow(height))
    ensures !panic ==> Released(old(sb.inuse), sb.inuse, t, Hole, NumBlocks(btype)) && freed == Count(t)
    ensures panic ==> Released(old(sb.inuse), sb.inuse, t, Trunc(t, height, 0, lastBlocknr), NumBlocks(btype))
  {
    hide Disjoint, Held, Canonical, Covered, Tidy, Trunc, Lookup, Count, Unmapped;
    WholeTreeGoesIff(t, height, lastBlocknr);
    if root == 0 { return false, 0; }
    var root';
    root', freed := TruncateTree(sb, dev, root, height, btype, 0, lastBlocknr, t);
    panic := root' != 0;
  }
}
