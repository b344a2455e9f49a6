/** Rebuilding the in-use list after a crash (bbuild.c): crawl the inode table
    and every file tree into three bitmaps, then enter the bitmaps' runs. */
module Rebuild {
  import opened Arith
  import opened BlockList
  import opened Allocator
  import opened BlockTree
  import opened Codec
  import opened InodeTree
  import opened InodeOps

  /** struct scan_bitmap, with the inode counters the crawl keeps. */
  class ScanBitmap {
    var bits4K: seq<bool>
    var bits2M: seq<bool>
    var bits1G: seq<bool>
    var inodesCount: nat   // s_inodes_count
    var inodesUsed: nat    // s_inodes_used_count

    ghost predicate Fits(end: nat)
      reads this`bits4K, this`bits2M, this`bits1G
    {
      end <= |bits4K| && end <= |bits2M| * 512 && end <= |bits1G| * 0x40000
    }

    function Bits(kind: BlockType): seq<bool>
      reads this`bits4K, this`bits2M, this`bits1G
    {
      match kind
      case Block4K => bits4K
      case Block2M => bits2M
      case Block1G => bits1G
    }

    /** Device block b is marked as part of a block of the given size. */
    predicate Covers(kind: BlockType, b: nat)
      reads this`bits4K, this`bits2M, this`bits1G
    {
      Bit(Bits(kind), b / NumBlocks(kind))
    }

    /** set_bit for a block of the given type, by its first device block. */
    method Mark(block: nat, btype: BlockType, ghost end: nat)
      requires Fits(end) && block + NumBlocks(btype) <= end && block % NumBlocks(btype) == 0
      modifies this`bits4K, this`bits2M, this`bits1G
      ensures Fits(end)
      ensures forall kind, b: nat :: Covers(kind, b) <==> old(Covers(kind, b)) || (kind == btype && block <= b < block + NumBlocks(btype))
    {
      match btype
      case Block4K => bits4K := bits4K[block := true];
      case Block2M => bits2M := bits2M[block / 512 := true];
      case Block1G => bits1G := bits1G[block / 0x40000 := true];
    }
  }

  predicate Bit(bits: seq<bool>, i: nat) { i < |bits| && bits[i] }

  /** Data blocks start at multiples of their size. */
  predicate Aligned(t: Tree, n: nat)
    requires 0 < n
  {
    match t
    case Hole => true
    case Leaf(p) => p % n == 0
    case Node(_, kids) => forall j :: 0 <= j < |kids| ==> Aligned(kids[j], n)
  }

  ghost predicate Below(t: Tree, span: nat, end: nat) {
    forall b :: Owns(t, span, b) ==> b < end
  }

  /** Device block b belongs to the tree as part of a block of size `kind`:
      metadata is in 4K blocks, data in blocks of the file's type. */
  predicate OwnsAs(t: Tree, btype: BlockType, kind: BlockType, b: int) {
    match t
    case Hole => false
    case Leaf(p) => kind == btype && p <= b < p + NumBlocks(btype)
    case Node(p, kids) => (kind.Block4K? && b == p) || exists j :: 0 <= j < |kids| && OwnsAs(kids[j], btype, kind, b)
  }

  // ---------------------------------------------------------------- crawling one file

  /** One of the first i kids owns block b. */
  predicate OwnedByFirst(kids: seq<Tree>, i: nat, btype: BlockType, kind: BlockType, b: int)
    requires i <= |kids|
  {
    exists j :: 0 <= j < i && OwnsAs(kids[j], btype, kind, b)
  }

  ghost predicate CrawlReady(nodes: map<nat, seq<nat>>, p: nat, h: nat, btype: BlockType, t: Tree, end: nat) {
    Shape(t, h) && Rep(nodes, p, t) && Aligned(t, NumBlocks(btype)) && Below(t, NumBlocks(btype), end)
  }

  lemma KidCrawlReady(nodes: map<nat, seq<nat>>, p: nat, h: nat, btype: BlockType, t: Tree, end: nat, i: nat)
    requires CrawlReady(nodes, p, h, btype, t, end) && t.Node? && i < FANOUT
    ensures p == t.blk && p in nodes && |nodes[p]| == |t.kids| == FANOUT && p < end
    ensures CrawlReady(nodes, nodes[p][i], h - 1, btype, t.kids[i], end)
    ensures nodes[p][i] == 0 <==> t.kids[i].Hole?
  {
    SlotAt(nodes, p, t, h, i);
    forall b | Owns(t.kids[i], NumBlocks(btype), b) ensures b < end {
      assert OwnedByKid(t.kids, NumBlocks(btype), b);
      assert Owns(t, NumBlocks(btype), b);
    }
    assert Owns(t, NumBlocks(btype), p);
  }

  lemma LeafCrawlReady(nodes: map<nat, seq<nat>>, p: nat, btype: BlockType, t: Tree, end: nat)
    requires CrawlReady(nodes, p, 0, btype, t, end) && !t.Hole?
    ensures t == Leaf(p) && p + NumBlocks(btype) <= end && p % NumBlocks(btype) == 0
  {
    assert Owns(t, NumBlocks(btype), p + NumBlocks(btype) - 1);
  }

  /** pmfs_inode_crawl_recursive */
  method InodeCrawlRecursive(bm: ScanBitmap, dev: Device, block: nat, height: nat, btype: BlockType, ghost t: Tree,
                             ghost end: nat)
    requires bm.Fits(end) && CrawlReady(dev.nodes, block, height, btype, t, end) && !t.Hole?
    modifies bm`bits4K, bm`bits2M, bm`bits1G
    ensures bm.Fits(end)
    ensures forall kind, b: nat :: bm.Covers(kind, b) <==> old(bm.Covers(kind, b)) || OwnsAs(t, btype, kind, b)
    decreases height
  {
    if height == 0 {
      LeafCrawlReady(dev.nodes, block, btype, t, end);
      bm.Mark(block, btype, end);
      return;
    }
    CrawlShape(dev.nodes, block, height, btype, t, end);
    hide CrawlReady, OwnsAs, OwnedByFirst, ScanBitmap.Covers, ScanBitmap.Fits;
    bm.Mark(block, Block4K, end);
    for i := 0 to FANOUT
      invariant bm.Fits(end)
      invariant forall kind, b: nat :: bm.Covers(kind, b) <==>
                  (old(bm.Covers(kind, b)) || (kind.Block4K? && b == block) || OwnedByFirst(t.kids, i, btype, kind, b))
    {
      KidCrawlReady(dev.nodes, block, height, btype, t, end, i);
      forall kind, b: nat { OwnedByOneMore(t.kids, i, btype, kind, b); }
      if dev.nodes[block][i] != 0 {
        InodeCrawlRecursive(bm, dev, dev.nodes[block][i], height - 1, btype, t.kids[i], end);
      }
    }
    forall kind, b: nat { OwnedByAll(t, btype, kind, b); }
  }

  lemma CrawlShape(nodes: map<nat, seq<nat>>, p: nat, h: nat, btype: BlockType, t: Tree, end: nat)
    requires CrawlReady(nodes, p, h, btype, t, end) && !t.Hole? && h > 0
    ensures t.Node? && |t.kids| == FANOUT && p == t.blk && p < end && p in nodes && |nodes[p]| == FANOUT
    ensures forall kind, b :: !OwnedByFirst(t.kids, 0, btype, kind, b)
  {
    assert Owns(t, NumBlocks(btype), p);
  }

  lemma OwnedByOneMore(kids: seq<Tree>, i: nat, btype: BlockType, kind: BlockType, b: int)
    requires i < |kids|
    ensures OwnedByFirst(kids, i + 1, btype, kind, b) <==> OwnedByFirst(kids, i, btype, kind, b) || OwnsAs(kids[i], btype, kind, b)
    ensures kids[i].Hole? ==> !OwnsAs(kids[i], btype, kind, b)
  {
  }

  lemma OwnedByAll(t: Tree, btype: BlockType, kind: BlockType, b: int)
    requires t.Node?
    ensures OwnsAs(t, btype, kind, b) <==> (kind.Block4K? && b == t.blk) || OwnedByFirst(t.kids, |t.kids|, btype, kind, b)
  {
  }

  // ---------------------------------------------------------------- crawling the inode table

  /** An inode as the table holds it. */
  datatype InodeRec = InodeRec(links: nat, mode: nat, dtime: nat, root: nat, height: nat, btype: BlockType)

  /** The test both the crawl and pmfs_new_inode use. */
  predicate IsFree(r: InodeRec) { r.links == 0 && (r.mode == 0 || r.dtime != 0) }

  /** Neither a record with a link is free, nor one with a mode and no deletion time. */
  lemma FreeMeans(r: InodeRec)
    ensures r.links > 0 ==> !IsFree(r)
    ensures r.mode != 0 && r.dtime == 0 ==> !IsFree(r)
    ensures r.links == 0 && (r.mode == 0 || r.dtime != 0) ==> IsFree(r)
  {
  }

  /** Positions of the records in use. */
  function LiveAt(recs: seq<InodeRec>): set<nat> {
    set i: nat | i < |recs| && (recs[i].links > 0 || (recs[i].mode != 0 && recs[i].dtime == 0))
  }

  lemma {:induction false} CountUsedIs(recs: seq<InodeRec>)
    ensures CountUsed(recs) == |LiveAt(recs)|
    decreases |recs|
  {
    if recs == [] {
      assert LiveAt(recs) == {};
    } else {
      var n := |recs| - 1;
      CountUsedIs(recs[..n]);
      FreeMeans(recs[n]);
      assert LiveAt(recs) == LiveAt(recs[..n]) + if IsFree(recs[n]) then {} else {n};
    }
  }

  function CountUsed(recs: seq<InodeRec>): nat {
    if recs == [] then 0 else CountUsed(recs[..|recs| - 1]) + if IsFree(recs[|recs| - 1]) then 0 else 1
  }

  /** The table's inode records and the trees they head, by data block. */
  datatype Table = Table(recs: map<nat, seq<InodeRec>>, trees: map<nat, seq<Tree>>)

  /** Block b belongs to a file whose inode is among the first n of data block p. */
  predicate FileOwns(tb: Table, p: nat, n: nat, kind: BlockType, b: int) {
    && p in tb.recs && p in tb.trees && n <= |tb.recs[p]| == |tb.trees[p]|
    && exists i :: 0 <= i < n && !IsFree(tb.recs[p][i]) && OwnsAs(tb.trees[p][i], tb.recs[p][i].btype, kind, b)
  }

  /** Block b belongs to a file whose inode is in the table tree t. */
  predicate FilesOwn(tb: Table, t: Tree, kind: BlockType, b: int) {
    match t
    case Hole => false
    case Leaf(p) => p in tb.recs && FileOwns(tb, p, |tb.recs[p]|, kind, b)
    case Node(_, kids) => exists j :: 0 <= j < |kids| && FilesOwn(tb, kids[j], kind, b)
  }

  ghost predicate BlockReady(nodes: map<nat, seq<nat>>, tb: Table, p: nat, end: nat) {
    && p in tb.recs && p in tb.trees && |tb.recs[p]| == |tb.trees[p]|
    && forall i :: 0 <= i < |tb.recs[p]| && !IsFree(tb.recs[p][i]) ==>
         CrawlReady(nodes, tb.recs[p][i].root, tb.recs[p][i].height, tb.recs[p][i].btype, tb.trees[p][i], end)
  }

  ghost predicate TableReady(nodes: map<nat, seq<nat>>, tb: Table, t: Tree, end: nat) {
    match t
    case Hole => true
    case Leaf(p) => BlockReady(nodes, tb, p, end)
    case Node(_, kids) => forall j :: 0 <= j < |kids| ==> TableReady(nodes, tb, kids[j], end)
  }

  /** Inodes in use below t, and inodes in all. */
  function UsedInodes(tb: Table, t: Tree): nat {
    match t
    case Hole => 0
    case Leaf(p) => if p in tb.recs then CountUsed(tb.recs[p]) else 0
    case Node(_, kids) => UsedInKids(tb, kids)
  }

  function UsedInKids(tb: Table, kids: seq<Tree>): nat {
    if kids == [] then 0 else UsedInKids(tb, kids[..|kids| - 1]) + UsedInodes(tb, kids[|kids| - 1])
  }

  function AllInodes(tb: Table, t: Tree): nat {
    match t
    case Hole => 0
    case Leaf(p) => if p in tb.recs then |tb.recs[p]| else 0
    case Node(_, kids) => AllInKids(tb, kids)
  }

  function AllInKids(tb: Table, kids: seq<Tree>): nat {
    if kids == [] then 0 else AllInKids(tb, kids[..|kids| - 1]) + AllInodes(tb, kids[|kids| - 1])
  }

  /** The loop over the inodes of one table block. */
  method CrawlTableBlock(bm: ScanBitmap, dev: Device, tb: Table, p: nat, ghost end: nat)
    requires bm.Fits(end) && BlockReady(dev.nodes, tb, p, end)
    modifies bm
    ensures bm.Fits(end)
    ensures forall kind, b: nat :: bm.Covers(kind, b) <==> old(bm.Covers(kind, b)) || FileOwns(tb, p, |tb.recs[p]|, kind, b)
    ensures forall i, kind, b: nat ::
              (0 <= i < |tb.recs[p]| && tb.recs[p][i].links > 0 &&
               OwnsAs(tb.trees[p][i], tb.recs[p][i].btype, kind, b)) ==> bm.Covers(kind, b)
    ensures bm.inodesUsed == old(bm.inodesUsed) + CountUsed(tb.recs[p]) == old(bm.inodesUsed) + |LiveAt(tb.recs[p])|
    ensures bm.inodesCount == old(bm.inodesCount) + |tb.recs[p]|
  {
    hide CrawlReady, OwnsAs, FileOwns, ScanBitmap.Covers, ScanBitmap.Fits;
    var recs := tb.recs[p];
    NoFileYet(tb, p);
    bm.inodesCount := bm.inodesCount + |recs|;
    for i := 0 to |recs|
      invariant bm.Fits(end) && bm.inodesCount == old(bm.inodesCount) + |recs|
      invariant forall kind, b: nat :: bm.Covers(kind, b) <==> old(bm.Covers(kind, b)) || FileOwns(tb, p, i, kind, b)
      invariant bm.inodesUsed == old(bm.inodesUsed) + CountUsed(recs[..i])
    {
      assert recs[..i + 1][..i] == recs[..i];
      forall kind, b: nat { FileOwnsMore(tb, p, i, kind, b); }
      if !IsFree(recs[i]) {
        bm.inodesUsed := bm.inodesUsed + 1;
        InodeCrawl(bm, dev, recs[i], tb.trees[p][i], end);
      }
    }
    assert recs[..|recs|] == recs;
    CountUsedIs(recs);
    forall i, kind, b: nat | 0 <= i < |recs| && recs[i].links > 0 && OwnsAs(tb.trees[p][i], recs[i].btype, kind, b)
      ensures bm.Covers(kind, b)
    {
      LinkedOwns(tb, p, i, kind, b);
    }
  }

  lemma LinkedOwns(tb: Table, p: nat, i: nat, kind: BlockType, b: int)
    requires p in tb.recs && p in tb.trees && i < |tb.recs[p]| == |tb.trees[p]|
    requires tb.recs[p][i].links > 0 || (tb.recs[p][i].mode != 0 && tb.recs[p][i].dtime == 0)
    requires OwnsAs(tb.trees[p][i], tb.recs[p][i].btype, kind, b)
    ensures FileOwns(tb, p, |tb.recs[p]|, kind, b)
  {
    FreeMeans(tb.recs[p][i]);
  }

  /** Data block p of the inode table. */
  predicate InTable(t: Tree, p: nat) {
    match t
    case Hole => false
    case Leaf(b) => b == p
    case Node(_, kids) => exists j :: 0 <= j < |kids| && InTable(kids[j], p)
  }

  lemma {:induction false} TableOwns(tb: Table, t: Tree, p: nat, kind: BlockType, b: int)
    requires InTable(t, p) && p in tb.recs && FileOwns(tb, p, |tb.recs[p]|, kind, b)
    ensures FilesOwn(tb, t, kind, b)
    decreases t
  {
    match t
    case Leaf(_) =>
    case Node(_, kids) =>
      var j :| 0 <= j < |kids| && InTable(kids[j], p);
      TableOwns(tb, kids[j], p, kind, b);
  }

  /** Every block of a file that has a link, or a mode and no deletion time, is held. */
  ghost predicate HoldsLinked(l: seq<Interval>, tb: Table, t: Tree) {
    forall p: nat, i: nat, kind, b: nat ::
      (InTable(t, p) && p in tb.recs && p in tb.trees && i < |tb.recs[p]| == |tb.trees[p]| &&
       (tb.recs[p][i].links > 0 || (tb.recs[p][i].mode != 0 && tb.recs[p][i].dtime == 0)) &&
       OwnsAs(tb.trees[p][i], tb.recs[p][i].btype, kind, b)) ==> InUse(l, b)
  }

  lemma LinkedHeld(l: seq<Interval>, tb: Table, t: Tree, btype: BlockType, reserved: nat)
    requires HoldsReached(l, tb, t, btype, reserved)
    ensures HoldsLinked(l, tb, t)
  {
    forall p: nat, i: nat, kind, b: nat |
      InTable(t, p) && p in tb.recs && p in tb.trees && i < |tb.recs[p]| == |tb.trees[p]| &&
      (tb.recs[p][i].links > 0 || (tb.recs[p][i].mode != 0 && tb.recs[p][i].dtime == 0)) &&
      OwnsAs(tb.trees[p][i], tb.recs[p][i].btype, kind, b)
      ensures InUse(l, b)
    {
      LinkedOwns(tb, p, i, kind, b);
      TableOwns(tb, t, p, kind, b);
      assert Reached(tb, t, btype, kind, b);
    }
  }

  /** pmfs_inode_crawl */
  method InodeCrawl(bm: ScanBitmap, dev: Device, r: InodeRec, ghost t: Tree, ghost end: nat)
    requires bm.Fits(end) && CrawlReady(dev.nodes, r.root, r.height, r.btype, t, end)
    modifies bm`bits4K, bm`bits2M, bm`bits1G
    ensures bm.Fits(end)
    ensures forall kind, b: nat :: bm.Covers(kind, b) <==> old(bm.Covers(kind, b)) || OwnsAs(t, r.btype, kind, b)
  {
    if r.root != 0 {
      InodeCrawlRecursive(bm, dev, r.root, r.height, r.btype, t, end);
    }
  }

  lemma FileOwnsMore(tb: Table, p: nat, n: nat, kind: BlockType, b: int)
    requires p in tb.recs && p in tb.trees && n < |tb.recs[p]| == |tb.trees[p]|
    ensures FileOwns(tb, p, n + 1, kind, b) <==>
            FileOwns(tb, p, n, kind, b) || (!IsFree(tb.recs[p][n]) && OwnsAs(tb.trees[p][n], tb.recs[p][n].btype, kind, b))
  {
  }

  lemma NoFileYet(tb: Table, p: nat)
    ensures forall kind, b :: !FileOwns(tb, p, 0, kind, b)
  {
  }

  /** One of the first i kids holds the inode of a file that owns b, or owns b itself. */
  predicate ReachedByFirst(tb: Table, kids: seq<Tree>, i: nat, btype: BlockType, kind: BlockType, b: int)
    requires i <= |kids|
  {
    OwnedByFirst(kids, i, btype, kind, b) || exists j :: 0 <= j < i && FilesOwn(tb, kids[j], kind, b)
  }

  /** Block b is reached from the inode table: its own tree, or a file's. */
  predicate Reached(tb: Table, t: Tree, btype: BlockType, kind: BlockType, b: int) {
    OwnsAs(t, btype, kind, b) || FilesOwn(tb, t, kind, b)
  }

  /** pmfs_inode_table_crawl_recursive; the table uses 2M or 4K blocks. */
  method InodeTableCrawl(bm: ScanBitmap, dev: Device, tb: Table, block: nat, height: nat, btype: BlockType, ghost t: Tree,
                         ghost end: nat)
    requires bm.Fits(end) && CrawlReady(dev.nodes, block, height, btype, t, end) && !t.Hole?
    requires TableReady(dev.nodes, tb, t, end)
    requires !btype.Block1G?
    modifies bm
    ensures bm.Fits(end)
    ensures forall kind, b: nat :: bm.Covers(kind, b) <==> old(bm.Covers(kind, b)) || Reached(tb, t, btype, kind, b)
    ensures bm.inodesUsed == old(bm.inodesUsed) + UsedInodes(tb, t)
    ensures bm.inodesCount == old(bm.inodesCount) + AllInodes(tb, t)
    decreases height
  {
    if height == 0 {
      LeafCrawlReady(dev.nodes, block, btype, t, end);
      hide CrawlReady, ScanBitmap.Covers, ScanBitmap.Fits, FileOwns;
      bm.Mark(block, btype, end);
      CrawlTableBlock(bm, dev, tb, block, end);
      return;
    }
    CrawlShape(dev.nodes, block, height, btype, t, end);
    NoneReached(tb, t.kids, btype);
    hide CrawlReady, OwnsAs, OwnedByFirst, ReachedByFirst, Reached, FilesOwn, ScanBitmap.Covers, ScanBitmap.Fits;
    bm.Mark(block, Block4K, end);
    for i := 0 to FANOUT
      invariant bm.Fits(end)
      invariant forall kind, b: nat :: bm.Covers(kind, b) <==>
                  (old(bm.Covers(kind, b)) || (kind.Block4K? && b == block) || ReachedByFirst(tb, t.kids, i, btype, kind, b))
      invariant bm.inodesUsed == old(bm.inodesUsed) + UsedInKids(tb, t.kids[..i])
      invariant bm.inodesCount == old(bm.inodesCount) + AllInKids(tb, t.kids[..i])
    {
      assert t.kids[..i + 1][..i] == t.kids[..i];
      KidCrawlReady(dev.nodes, block, height, btype, t, end, i);
      forall kind, b: nat { ReachedByOneMore(tb, t.kids, i, btype, kind, b); }
      if dev.nodes[block][i] != 0 {
        InodeTableCrawl(bm, dev, tb, dev.nodes[block][i], height - 1, btype, t.kids[i], end);
      }
    }
    assert t.kids[..FANOUT] == t.kids;
    forall kind, b: nat { ReachedByAll(tb, t, btype, kind, b); }
  }

  lemma NoneReached(tb: Table, kids: seq<Tree>, btype: BlockType)
    ensures forall kind, b :: !ReachedByFirst(tb, kids, 0, btype, kind, b)
  {
  }

  lemma ReachedByOneMore(tb: Table, kids: seq<Tree>, i: nat, btype: BlockType, kind: BlockType, b: int)
    requires i < |kids|
    ensures ReachedByFirst(tb, kids, i + 1, btype, kind, b) <==>
            ReachedByFirst(tb, kids, i, btype, kind, b) || Reached(tb, kids[i], btype, kind, b)
    ensures kids[i].Hole? ==> !Reached(tb, kids[i], btype, kind, b)
  {
    OwnedByOneMore(kids, i, btype, kind, b);
  }

  lemma ReachedByAll(tb: Table, t: Tree, btype: BlockType, kind: BlockType, b: int)
    requires t.Node?
    ensures (kind.Block4K? && b == t.blk) || ReachedByFirst(tb, t.kids, |t.kids|, btype, kind, b) <==> Reached(tb, t, btype, kind, b)
  {
    OwnedByAll(t, btype, kind, b);
  }

  // ---------------------------------------------------------------- from bitmaps to the list

  /** find_next_bit / find_next_zero_bit: the first position from `from` on with
      the given value, or the size. */
  method FindNext(bits: seq<bool>, from: nat, value: bool) returns (i: nat)
    requires from <= |bits|
    ensures from <= i <= |bits| && (i < |bits| ==> bits[i] == value)
    ensures forall j :: from <= j < i ==> bits[j] != value
  {
    i := from;
    while i < |bits| && bits[i] != value
      invariant from <= i <= |bits| && forall j :: from <= j < i ==> bits[j] != value
    {
      i := i + 1;
    }
  }

  /** The list covers what it covered plus the marked slots below `n`. */
  ghost predicate Entered(l0: seq<Interval>, l: seq<Interval>, bits: seq<bool>, s: nat, n: nat)
    requires 0 < s
  {
    forall b: nat :: InUse(l, b) <==> InUse(l0, b) || (b / s < n && Bit(bits, b / s))
  }

  /** The marked slots are free in l and inside the device; slot 0 is not marked. */
  ghost predicate Disjunct(l: seq<Interval>, bits: seq<bool>, s: nat, end: nat)
    requires 0 < s
  {
    (forall b: nat :: Bit(bits, b / s) ==> !InUse(l, b) && b < end) && !Bit(bits, 0)
  }

  /** __pmfs_build_blocknode_map: enter each run of marked slots; slot 0 is skipped. */
  method BuildFromBitmap(sb: SbInfo, bits: seq<bool>, btype: BlockType)
    requires sb.Valid() && sb.inuse != [] && sb.inuse[0].low == 0 && 0 < |bits|
    requires Disjunct(sb.inuse, bits, NumBlocks(btype), sb.blockEnd)
    modifies sb
    ensures sb.Valid() && sb.Total() == old(sb.Total()) && sb.inuse != [] && sb.inuse[0].low == 0
    ensures forall b: nat :: InUse(sb.inuse, b) <==> InUse(old(sb.inuse), b) || Bit(bits, b / NumBlocks(btype))
  {
    ghost var l0 := sb.inuse;
    var s := NumBlocks(btype);
    NothingEntered(l0, bits, s);
    hide InUse, Canonical, Covered, Entered, Disjunct;
    var next := 1;
    while true
      invariant 1 <= next <= |bits| && sb.Valid() && sb.Total() == old(sb.Total()) && sb.inuse != [] && sb.inuse[0].low == 0
      invariant Entered(l0, sb.inuse, bits, s, next)
      decreases |bits| - next
    {
      var low := FindNext(bits, next, true);
      SkipUnmarked(l0, sb.inuse, bits, s, next, low);
      next := low;
      if next == |bits| { break; }
      next := FindNext(bits, next, false);
      ghost var l1 := sb.inuse;
      RunInsertable(l0, l1, bits, s, sb.blockStart, sb.blockEnd, low, next);
      var ok := sb.InsertRange(low * s, next * s - 1, true);
      RunEntered(l0, l1, sb.inuse, bits, s, sb.blockStart, sb.blockEnd, low, next);
      if next == |bits| { break; }
    }
    AllEntered(l0, sb.inuse, bits, s, next);
  }

  lemma NothingEntered(l: seq<Interval>, bits: seq<bool>, s: nat)
    requires 0 < s && !Bit(bits, 0)
    ensures Entered(l, l, bits, s, 1)
  {
  }

  lemma SkipUnmarked(l0: seq<Interval>, l: seq<Interval>, bits: seq<bool>, s: nat, a: nat, b: nat)
    requires 0 < s && a <= b <= |bits| && Entered(l0, l, bits, s, a) && forall j :: a <= j < b ==> !bits[j]
    ensures Entered(l0, l, bits, s, b)
  {
    hide InUse;
  }

  lemma RunInsertable(l0: seq<Interval>, l1: seq<Interval>, bits: seq<bool>, s: nat, start: nat, end: nat, low: nat,
                      next: nat)
    requires 0 < s && low < next <= |bits| && Entered(l0, l1, bits, s, low) && Disjunct(l0, bits, s, end)
    requires Canonical(l1, start, end) && l1 != [] && l1[0].low == 0 && forall j :: low <= j < next ==> bits[j]
    ensures low * s <= next * s - 1 && Insertable(l1, end, low * s, next * s - 1)
  {
    MulMono(low, next, s);
    forall b: nat | low * s <= b <= next * s - 1 ensures !InUse(l1, b) && b < end {
      RunBlock(l0, l1, bits, s, end, low, next, b);
    }
    PastFirst(l1, start, end, low * s, next * s - 1);
  }

  lemma RunBlock(l0: seq<Interval>, l1: seq<Interval>, bits: seq<bool>, s: nat, end: nat, low: nat, next: nat, b: nat)
    requires 0 < s && low < next <= |bits| && Entered(l0, l1, bits, s, low) && Disjunct(l0, bits, s, end)
    requires low * s <= b <= next * s - 1 && forall j :: low <= j < next ==> bits[j]
    ensures !InUse(l1, b) && b < end
  {
    hide InUse;
    SlotInterval(b, low, next, s);
    assert Bit(bits, b / s);
  }

  lemma PastFirst(l: seq<Interval>, start: nat, end: nat, low: nat, high: nat)
    requires Canonical(l, start, end) && l != [] && l[0].low == 0 && low <= high
    requires forall b: nat :: low <= b <= high ==> !InUse(l, b) && b < end
    ensures Insertable(l, end, low, high)
  {
    assert !InUse(l, low) && high < end by { assert !InUse(l, high); }
  }

  lemma RunEntered(l0: seq<Interval>, l1: seq<Interval>, l2: seq<Interval>, bits: seq<bool>, s: nat, start: nat, end: nat,
                   low: nat, next: nat)
    requires 0 < s && low < next <= |bits| && Entered(l0, l1, bits, s, low) && forall j :: low <= j < next ==> bits[j]
    requires Canonical(l1, start, end) && Canonical(l2, start, end) && l1 != [] && l1[0].low == 0
    requires forall b :: InUse(l2, b) <==> InUse(l1, b) || low * s <= b <= next * s - 1
    ensures Entered(l0, l2, bits, s, next) && l2 != [] && l2[0].low == 0
  {
    FirstStays(l1, l2, start, end);
    hide InUse, Canonical;
    forall b: nat ensures InUse(l2, b) <==> InUse(l0, b) || (b / s < next && Bit(bits, b / s)) {
      SlotInterval(b, low, next, s);
    }
  }

  lemma FirstStays(l1: seq<Interval>, l2: seq<Interval>, start: nat, end: nat)
    requires Canonical(l1, start, end) && Canonical(l2, start, end) && l1 != [] && l1[0].low == 0
    requires forall b :: InUse(l1, b) ==> InUse(l2, b)
    ensures l2 != [] && l2[0].low == 0
  {
    assert InUse(l1, 0);
    assert InUse(l2, 0);
  }

  lemma AllEntered(l0: seq<Interval>, l: seq<Interval>, bits: seq<bool>, s: nat, n: nat)
    requires 0 < s && n == |bits| && Entered(l0, l, bits, s, n)
    ensures forall b: nat :: InUse(l, b) <==> InUse(l0, b) || Bit(bits, b / s)
  {
  }

  // ---------------------------------------------------------------- the whole recovery

  /** Bits in a bitmap for a device of `size` bytes, one per 2^shift bytes. */
  function BitmapBits(size: nat, unit: nat): nat
    requires 0 < unit
  {
    (size / (unit * 8) + 1) * 8
  }

  lemma BitmapLargeEnough(size: nat, unit: nat)
    requires 0 < unit
    ensures size < BitmapBits(size, unit) * unit
  {
    var u := unit * 8;
    assert size == size / u * u + size % u;
    assert BitmapBits(size, unit) * unit == (size / u + 1) * u;
  }

  /** What every block the crawl can reach must satisfy: past the reserved
      prefix, inside the device, and not part of blocks of two sizes. */
  ghost predicate NoOverlap(tb: Table, t: Tree, btype: BlockType, reserved: nat, end: nat) {
    forall kind, b: nat :: Reached(tb, t, btype, kind, b) ==>
      reserved <= b < end && forall other :: other != kind ==> !Reached(tb, t, btype, other, b)
  }

  /** pmfs_setup_blocknode_map when the fast path is not available: `reserved`
      blocks of super block and journal come first, the inode table's tree is
      the one at `block`.  `size` is in bytes. */
  method CrashRebuild(sb: SbInfo, bm: ScanBitmap, dev: Device, tb: Table, block: nat, height: nat, btype: BlockType,
                      reserved: nat, size: nat,
                      ghost t: Tree)
    requires sb.inuse == [] && sb.numNodes == 0 && sb.blockStart == 0 && sb.blockEnd == size / BLOCK
    requires 0 < reserved <= sb.blockEnd
    requires CrawlReady(dev.nodes, block, height, btype, t, sb.blockEnd) && !t.Hole?
    requires TableReady(dev.nodes, tb, t, sb.blockEnd)
    requires !btype.Block1G? && NoOverlap(tb, t, btype, reserved, sb.blockEnd)
    modifies sb, bm
    ensures sb.Valid() && sb.Total() == size / BLOCK - UFS_BLOCKS
    ensures HoldsReached(sb.inuse, tb, t, btype, reserved) && HoldsLinked(sb.inuse, tb, t)
    ensures bm.inodesUsed == UsedInodes(tb, t) && bm.inodesCount == AllInodes(tb, t)
  {
    hide CrawlReady, TableReady, Reached, InUse, Canonical, Covered, Disjunct, ScanBitmap.Covers, ScanBitmap.Fits,
         NoOverlap, Drawn, ListHolds, HoldsLinked;
    InitBitmaps(bm, size);
    InodeTableCrawl(bm, dev, tb, block, height, btype, t, sb.blockEnd);
    AllDrawn(bm, tb, t, btype, sb.blockEnd);
    sb.numFree := size / BLOCK;
    sb.InitBlockmap(reserved);
    OnlyPrefix(sb.inuse, tb, t, btype, reserved);
    Enter(sb, bm.bits4K, tb, btype, reserved, Block4K, t, {});
    Enter(sb, bm.bits2M, tb, btype, reserved, Block2M, t, {} + {Block4K});
    Enter(sb, bm.bits1G, tb, btype, reserved, Block1G, t, {} + {Block4K} + {Block2M});
    HoldsAll(sb.inuse, tb, t, btype, reserved);
    LinkedHeld(sb.inuse, tb, t, btype, reserved);
  }

  /** The list holds the reserved prefix and the reached blocks, and nothing else. */
  ghost predicate HoldsReached(l: seq<Interval>, tb: Table, t: Tree, btype: BlockType, reserved: nat) {
    forall b: nat :: InUse(l, b) <==> b < reserved || exists kind :: Reached(tb, t, btype, kind, b)
  }

  /** So the rebuilt list is the list the file system had before the crash, node for
      node, exactly if that one held nothing unreachable. */
  lemma RebuiltIsLost(lost: seq<Interval>, rebuilt: seq<Interval>, end: nat, tb: Table, t: Tree, btype: BlockType,
                      reserved: nat)
    requires Canonical(lost, 0, end) && Canonical(rebuilt, 0, end) && HoldsReached(rebuilt, tb, t, btype, reserved)
    ensures rebuilt == lost <==> HoldsReached(lost, tb, t, btype, reserved)
  {
    hide Reached;
    if HoldsReached(lost, tb, t, btype, reserved) {
      assert SameBlocks(lost, rebuilt) by {
        forall b: int ensures InUse(lost, b) <==> InUse(rebuilt, b) {
          assert b < 0 ==> !InUse(lost, b) && !InUse(rebuilt, b);
        }
      }
      CanonicalUnique(lost, rebuilt, 0, end);
    }
  }

  /** The bitmap marks exactly what is reached at its size. */
  ghost predicate Drawn(bits: seq<bool>, tb: Table, t: Tree, btype: BlockType, kind: BlockType) {
    0 < |bits| && forall b: nat :: Bit(bits, b / NumBlocks(kind)) <==> Reached(tb, t, btype, kind, b)
  }

  /** The list holds the reserved prefix and what is reached at the given sizes. */
  ghost predicate ListHolds(l: seq<Interval>, tb: Table, t: Tree, btype: BlockType, reserved: nat, kinds: set<BlockType>) {
    forall b: nat :: InUse(l, b) <==> b < reserved || exists kind :: kind in kinds && Reached(tb, t, btype, kind, b)
  }

  /** One bitmap's turn in pmfs_build_blocknode_map. */
  method Enter(sb: SbInfo, bits: seq<bool>, tb: Table, btype: BlockType, reserved: nat, kind: BlockType, ghost t: Tree,
               ghost done: set<BlockType>)
    requires sb.Valid() && sb.inuse != [] && sb.inuse[0].low == 0 && 0 < reserved && kind !in done
    requires NoOverlap(tb, t, btype, reserved, sb.blockEnd) && Drawn(bits, tb, t, btype, kind)
    requires ListHolds(sb.inuse, tb, t, btype, reserved, done)
    modifies sb
    ensures sb.Valid() && sb.Total() == old(sb.Total()) && sb.inuse != [] && sb.inuse[0].low == 0
    ensures ListHolds(sb.inuse, tb, t, btype, reserved, done + {kind})
  {
    hide Reached, InUse, Canonical, Covered, Disjunct, NoOverlap, ListHolds;
    ghost var l := sb.inuse;
    StillFree(l, bits, tb, t, btype, reserved, sb.blockEnd, kind, done);
    BuildFromBitmap(sb, bits, kind);
    OneMoreKind(l, sb.inuse, bits, tb, t, btype, reserved, kind, done);
  }

  lemma StillFree(l: seq<Interval>, bits: seq<bool>, tb: Table, t: Tree, btype: BlockType, reserved: nat, end: nat,
                  kind: BlockType, done: set<BlockType>)
    requires 0 < reserved && kind !in done && NoOverlap(tb, t, btype, reserved, end) && Drawn(bits, tb, t, btype, kind)
    requires ListHolds(l, tb, t, btype, reserved, done)
    ensures Disjunct(l, bits, NumBlocks(kind), end)
  {
    hide Reached, InUse;
    forall b: nat | Bit(bits, b / NumBlocks(kind)) ensures !InUse(l, b) && b < end {
      assert Reached(tb, t, btype, kind, b);
    }
    var zero: nat := 0;
    assert Bit(bits, zero / NumBlocks(kind)) ==> Reached(tb, t, btype, kind, zero);
  }

  lemma OneMoreKind(l: seq<Interval>, l': seq<Interval>, bits: seq<bool>, tb: Table, t: Tree, btype: BlockType,
                    reserved: nat, kind: BlockType,
                    done: set<BlockType>)
    requires Drawn(bits, tb, t, btype, kind) && ListHolds(l, tb, t, btype, reserved, done)
    requires forall b: nat :: InUse(l', b) <==> InUse(l, b) || Bit(bits, b / NumBlocks(kind))
    ensures ListHolds(l', tb, t, btype, reserved, done + {kind})
  {
    hide Reached, InUse;
  }

  lemma OnlyPrefix(l: seq<Interval>, tb: Table, t: Tree, btype: BlockType, reserved: nat)
    requires 0 < reserved && l == [Interval(0, reserved - 1)]
    ensures ListHolds(l, tb, t, btype, reserved, {})
  {
    forall b: nat ensures InUse(l, b) <==> b < reserved {
      if b < reserved { assert l[0].low <= b <= l[0].high; }
    }
  }

  lemma HoldsAll(l: seq<Interval>, tb: Table, t: Tree, btype: BlockType, reserved: nat)
    requires ListHolds(l, tb, t, btype, reserved, {} + {Block4K} + {Block2M} + {Block1G})
    ensures forall b: nat :: InUse(l, b) <==> b < reserved || exists kind :: Reached(tb, t, btype, kind, b)
  {
    hide Reached, InUse;
    forall kind: BlockType ensures kind in {} + {Block4K} + {Block2M} + {Block1G} {
      assert kind.Block4K? || kind.Block2M? || kind.Block1G?;
    }
  }

  lemma AllDrawn(bm: ScanBitmap, tb: Table, t: Tree, btype: BlockType, end: nat)
    requires 0 < end && bm.Fits(end) && forall kind, b: nat :: bm.Covers(kind, b) <==> Reached(tb, t, btype, kind, b)
    ensures Drawn(bm.bits4K, tb, t, btype, Block4K) && Drawn(bm.bits2M, tb, t, btype, Block2M)
    ensures Drawn(bm.bits1G, tb, t, btype, Block1G)
  {
    hide Reached;
    forall b: nat ensures Bit(bm.bits4K, b / NumBlocks(Block4K)) <==> Reached(tb, t, btype, Block4K, b) {
      assert bm.Covers(Block4K, b) <==> Reached(tb, t, btype, Block4K, b);
    }
    forall b: nat ensures Bit(bm.bits2M, b / NumBlocks(Block2M)) <==> Reached(tb, t, btype, Block2M, b) {
      assert bm.Covers(Block2M, b) <==> Reached(tb, t, btype, Block2M, b);
    }
    forall b: nat ensures Bit(bm.bits1G, b / NumBlocks(Block1G)) <==> Reached(tb, t, btype, Block1G, b) {
      assert bm.Covers(Block1G, b) <==> Reached(tb, t, btype, Block1G, b);
    }
  }

  method InitBitmaps(bm: ScanBitmap, size: nat)
    modifies bm
    ensures bm.Fits(size / BLOCK) && bm.inodesCount == bm.inodesUsed == 0
    ensures forall kind, b: nat :: !bm.Covers(kind, b)
  {
    bm.bits4K := seq(BitmapBits(size, BLOCK), _ => false);
    bm.bits2M := seq(BitmapBits(size, 512 * BLOCK), _ => false);
    bm.bits1G := seq(BitmapBits(size, 0x40000 * BLOCK), _ => false);
    bm.inodesCount, bm.inodesUsed := 0, 0;
    BitmapLargeEnough(size, BLOCK);
    BitmapLargeEnough(size, 512 * BLOCK);
    BitmapLargeEnough(size, 0x40000 * BLOCK);
  }
}
