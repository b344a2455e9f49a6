/** The block tree in device memory (inode.c, pmfs.h): the operations that walk
    and rewrite metadata blocks in place, proved against the tree values of
    BlockTree and the in-use list of Allocator. */
module InodeTree {
  import opened Arith
  import opened BlockList
  import opened Allocator
  import opened BlockTree
  import opened Codec

  const BLOCK: nat := 4096

  /** Persistent memory, block by block, under its two readings: an array of
      pointers for metadata blocks, bytes for data blocks.  A tree reads each of
      its blocks in one way only, and a block that becomes a metadata block is
      zeroed in both.  A pointer is kept as the block number its byte offset shifts
      to; 0 is the null pointer. */
  class Device {
    var nodes: map<nat, seq<nat>>
    var data: map<nat, seq<byte>>
  }

  /** Pointer p of the node memory is the root of tree t. */
  predicate Rep(nodes: map<nat, seq<nat>>, p: nat, t: Tree)
    decreases t
  {
    match t
    case Hole => p == 0
    case Leaf(b) => p == b
    case Node(b, kids) =>
      && p == b && p in nodes && |nodes[p]| == |kids| == FANOUT
      && forall j :: 0 <= j < FANOUT ==> Rep(nodes, nodes[p][j], kids[j])
  }

  /** Memory outside the tree's own blocks does not matter to it. */
  lemma {:induction false} RepFrame(nodes: map<nat, seq<nat>>, nodes': map<nat, seq<nat>>, p: nat, t: Tree, span: nat)
    requires Rep(nodes, p, t)
    requires forall b :: b in nodes && Owns(t, span, b) ==> b in nodes' && nodes'[b] == nodes[b]
    ensures Rep(nodes', p, t)
    decreases t
  {
    if !t.Node? {
    } else {
      forall j | 0 <= j < FANOUT ensures Rep(nodes', nodes[p][j], t.kids[j]) {
        forall b | Owns(t.kids[j], span, b) ensures Owns(t, span, b) {
          assert OwnedByKid(t.kids, span, b);
        }
        RepFrame(nodes, nodes', nodes[p][j], t.kids[j], span);
      }
    }
  }

  lemma SlotAt(nodes: map<nat, seq<nat>>, p: nat, t: Tree, h: nat, i: nat)
    requires t.Node? && Shape(t, h) && Rep(nodes, p, t) && i < FANOUT
    ensures p in nodes && |nodes[p]| == |t.kids| == FANOUT && p == t.blk
    ensures Rep(nodes, nodes[p][i], t.kids[i]) && Shape(t.kids[i], h - 1)
    ensures nodes[p][i] == 0 <==> t.kids[i].Hole?
  {
  }

  /** Every block of the tree is marked in use. */
  ghost predicate Held(l: seq<Interval>, t: Tree, span: nat) {
    forall b :: Owns(t, span, b) ==> InUse(l, b)
  }

  /** The list lost exactly the blocks of t that t' does not own. */
  ghost predicate Released(l: seq<Interval>, l': seq<Interval>, t: Tree, t': Tree, span: nat) {
    forall b :: InUse(l', b) <==> InUse(l, b) && (Owns(t, span, b) ==> Owns(t', span, b))
  }

  ghost predicate ReleasedKids(l: seq<Interval>, l': seq<Interval>, kids: seq<Tree>, cur: seq<Tree>, span: nat) {
    forall b :: InUse(l', b) <==> InUse(l, b) && (OwnedByKid(kids, span, b) ==> OwnedByKid(cur, span, b))
  }

  /** Outside the tree's blocks the node memory is unchanged. */
  ghost predicate Untouched(nodes: map<nat, seq<nat>>, nodes': map<nat, seq<nat>>, t: Tree, span: nat) {
    nodes'.Keys == nodes.Keys && forall b :: b in nodes && !Owns(t, span, b) ==> nodes'[b] == nodes[b]
  }

  /** cur is kids with some kids shrunk. */
  ghost predicate Shrunk(kids: seq<Tree>, cur: seq<Tree>, span: nat) {
    |cur| == |kids| && forall j, b :: 0 <= j < |kids| && Owns(cur[j], span, b) ==> Owns(kids[j], span, b)
  }

  lemma ShrunkApart(kids: seq<Tree>, cur: seq<Tree>, span: nat)
    requires Apart(kids, span) && Shrunk(kids, cur, span)
    ensures Apart(cur, span)
  {
  }

  /** One more kid truncated: the bookkeeping of the two loops. */
  lemma ReleaseStep(l0: seq<Interval>, l1: seq<Interval>, l2: seq<Interval>,
                    kids: seq<Tree>, cur: seq<Tree>, i: nat, k: Tree, span: nat)
    requires i < |kids| && Apart(kids, span) && Shrunk(kids, cur, span)
    requires forall b :: Owns(k, span, b) ==> Owns(cur[i], span, b)
    requires ReleasedKids(l0, l1, kids, cur, span) && Released(l1, l2, cur[i], k, span)
    ensures ReleasedKids(l0, l2, kids, cur[i := k], span) && Shrunk(kids, cur[i := k], span)
  {
    ShrunkApart(kids, cur, span);
    forall b ensures InUse(l2, b) <==>
                     InUse(l0, b) && (OwnedByKid(kids, span, b) ==> OwnedByKid(cur[i := k], span, b)) {
      OwnedUpdate(cur, i, k, span, b);
      KidOwnedWhole(kids, cur, i, span, b);
    }
  }

  lemma KidOwnedWhole(kids: seq<Tree>, cur: seq<Tree>, i: nat, span: nat, b: int)
    requires i < |kids| && Shrunk(kids, cur, span)
    ensures OwnedByKid(cur, span, b) ==> OwnedByKid(kids, span, b)
    ensures Owns(cur[i], span, b) ==> OwnedByKid(cur, span, b)
  {
    if OwnedByKid(cur, span, b) {
      var j :| 0 <= j < |cur| && Owns(cur[j], span, b);
      assert Owns(kids[j], span, b);
    }
  }

  // ---------------------------------------------------------------- truncation

  /** The loop of recursive_truncate_blocks at height 1. */
  method FreeLeaves(sb: SbInfo, node: seq<nat>, btype: BlockType, first: nat, last: nat, ghost kids: seq<Tree>)
    returns (freed: nat, ghost cur: seq<Tree>)
    requires sb.Valid() && |node| == |kids| == FANOUT && first <= last < FANOUT
    requires forall j :: 0 <= j < FANOUT ==> !kids[j].Node? && Shape(kids[j], 0) && node[j] == (if kids[j].Leaf? then kids[j].blk else 0)
    requires Apart(kids, NumBlocks(btype))
    requires forall b :: OwnedByKid(kids, NumBlocks(btype), b) ==> InUse(sb.inuse, b)
    modifies sb
    ensures sb.Valid() && sb.Total() == old(sb.Total())
    ensures |cur| == FANOUT && forall j :: 0 <= j < FANOUT ==> cur[j] == if first <= j <= last then Hole else kids[j]
    ensures ReleasedKids(old(sb.inuse), sb.inuse, kids, cur, NumBlocks(btype))
    ensures freed == CountAll(kids) - CountAll(cur)
  {
    ghost var span := NumBlocks(btype);
    cur := kids;
    freed := 0;
    var hint := None;
    var i := first;
    while i <= last
      invariant first <= i <= last + 1
      invariant sb.Valid() && sb.Total() == old(sb.Total()) && sb.LiveHint(hint)
      invariant |cur| == FANOUT && forall j :: 0 <= j < FANOUT ==> cur[j] == if first <= j < i then Hole else kids[j]
      invariant Shrunk(kids, cur, span)
      invariant ReleasedKids(old(sb.inuse), sb.inuse, kids, cur, span)
      invariant freed == CountAll(kids) - CountAll(cur)
    {
      if node[i] != 0 {
        hint := FreeLeaf(sb, node[i], btype, hint, kids, cur, i, old(sb.inuse));
        CountUpdate(cur, i, Hole);
        cur := cur[i := Hole];
        freed := freed + 1;
      }
      i := i + 1;
    }
  }

  method FreeLeaf(sb: SbInfo, blocknr: nat, btype: BlockType, hint: Option<nat>,
                  ghost kids: seq<Tree>, ghost cur: seq<Tree>, ghost i: nat, ghost l0: seq<Interval>)
    returns (hint': Option<nat>)
    requires sb.Valid() && sb.LiveHint(hint)
    requires i < |kids| == |cur| && cur[i] == Leaf(blocknr)
    requires Apart(kids, NumBlocks(btype)) && Shrunk(kids, cur, NumBlocks(btype))
    requires forall b :: OwnedByKid(kids, NumBlocks(btype), b) ==> InUse(l0, b)
    requires ReleasedKids(l0, sb.inuse, kids, cur, NumBlocks(btype))
    modifies sb
    ensures sb.Valid() && sb.Total() == old(sb.Total()) && sb.LiveHint(hint')
    ensures ReleasedKids(l0, sb.inuse, kids, cur[i := Hole], NumBlocks(btype))
    ensures Shrunk(kids, cur[i := Hole], NumBlocks(btype))
  {
    ghost var span := NumBlocks(btype);
    ghost var l1 := sb.inuse;
    forall b | Owns(cur[i], span, b) ensures InUse(l1, b) {
      KidOwnedWhole(kids, cur, i, span, b);
    }
    assert Owns(cur[i], span, blocknr);
    var ok;
    ok, hint' := sb.FreeBlock(blocknr, btype, hint, true);
    ReleaseStep(l0, l1, sb.inuse, kids, cur, i, Hole, span);
  }

  /** The kids not yet emptied by the loop are where their pointers say. */
  ghost predicate KidsInPlace(nodes: map<nat, seq<nat>>, node: seq<nat>, cur: seq<Tree>, first: nat, i: nat)
    requires |node| == |cur| == FANOUT
  {
    forall j :: 0 <= j < FANOUT && !(first <= j < i && cur[j].Hole?) ==> Rep(nodes, node[j], cur[j])
  }

  lemma KidsInPlaceStep(nodes: map<nat, seq<nat>>, nodes': map<nat, seq<nat>>, node: seq<nat>,
                        kids: seq<Tree>, cur: seq<Tree>, first: nat, i: nat, k: Tree, span: nat)
    requires |node| == |kids| == |cur| == FANOUT && first <= i < FANOUT
    requires Apart(kids, span) && Shrunk(kids, cur, span) && cur[i] == kids[i]
    requires KidsInPlace(nodes, node, cur, first, i) && Untouched(nodes, nodes', kids[i], span)
    requires k.Hole? || Rep(nodes', node[i], k)
    ensures KidsInPlace(nodes', node, cur[i := k], first, i + 1)
  {
    forall j | 0 <= j < FANOUT && j != i && !(first <= j < i && cur[j].Hole?) ensures Rep(nodes', node[j], cur[j]) {
      RepFrame(nodes, nodes', node[j], cur[j], span);
    }
  }

  /** Everything a tree operation needs to hold of the subtree it is given. */
  ghost predicate Ready(sb: SbInfo, dev: Device, p: nat, h: nat, btype: BlockType, t: Tree)
    reads sb, dev
  {
    && sb.Valid() && Shape(t, h) && Disjoint(t, NumBlocks(btype))
    && Rep(dev.nodes, p, t) && Held(sb.inuse, t, NumBlocks(btype))
  }

  /** What truncating a subtree guarantees, with its root block already dealt with. */
  ghost predicate Truncated(l: seq<Interval>, l': seq<Interval>, nodes: map<nat, seq<nat>>, nodes': map<nat, seq<nat>>,
                            p: nat, t: Tree, t': Tree, span: nat)
  {
    && Released(l, l', t, t', span) && Untouched(nodes, nodes', t, span)
    && (t'.Hole? || Rep(nodes', p, t'))
  }

  /** State of the truncation loop over the kids of t before kid i. */
  ghost predicate LoopState(l0: seq<Interval>, l1: seq<Interval>, n0: map<nat, seq<nat>>, n1: map<nat, seq<nat>>,
                            t: Tree, cur: seq<Tree>, first: nat, i: nat, span: nat)
    requires t.Node? && |t.kids| == FANOUT
  {
    && Shrunk(t.kids, cur, span) && ReleasedKids(l0, l1, t.kids, cur, span) && Untouched(n0, n1, t, span)
    && t.blk in n0 && n1[t.blk] == n0[t.blk] && |n0[t.blk]| == FANOUT
    && KidsInPlace(n1, n0[t.blk], cur, first, i)
  }

  lemma LoopStep(l0: seq<Interval>, l1: seq<Interval>, l2: seq<Interval>,
                 n0: map<nat, seq<nat>>, n1: map<nat, seq<nat>>, n2: map<nat, seq<nat>>,
                 t: Tree, cur: seq<Tree>, first: nat, i: nat, k: Tree, span: nat)
    requires t.Node? && |t.kids| == FANOUT && Disjoint(t, span) && first <= i < FANOUT
    requires LoopState(l0, l1, n0, n1, t, cur, first, i, span) && cur[i] == t.kids[i]
    requires Truncated(l1, l2, n1, n2, n0[t.blk][i], cur[i], k, span)
    requires forall b :: Owns(k, span, b) ==> Owns(cur[i], span, b)
    ensures LoopState(l0, l2, n0, n2, t, cur[i := k], first, i + 1, span)
  {
    hide Rep;
    ReleaseStep(l0, l1, l2, t.kids, cur, i, k, span);
    KidsInPlaceStep(n1, n2, n0[t.blk], t.kids, cur, first, i, k, span);
    forall b | Owns(t.kids[i], span, b) ensures Owns(t, span, b) && b != t.blk {
      assert OwnedByKid(t.kids, span, b);
    }
  }

  /** A null pointer is a hole, before and after. */
  lemma LoopSkip(l0: seq<Interval>, l1: seq<Interval>, n0: map<nat, seq<nat>>, n1: map<nat, seq<nat>>,
                 t: Tree, cur: seq<Tree>, h: nat, f: nat, l: nat, first: nat, i: nat, span: nat)
    requires t.Node? && Shape(t, h) && f <= l < Pow(h) && i < FANOUT
    requires LoopState(l0, l1, n0, n1, t, cur, first, i, span) && n0[t.blk][i] == 0 && cur[i] == t.kids[i]
    ensures LoopState(l0, l1, n0, n1, t, cur, first, i + 1, span)
    ensures cur[i] == Hole == TruncKid(t.kids[i], h, f, l, i)
  {
    assert Shape(t.kids[i], h - 1);
    assert Rep(n1, n0[t.blk][i], cur[i]);
  }

  lemma KidReady(l0: seq<Interval>, l1: seq<Interval>, n0: map<nat, seq<nat>>, n1: map<nat, seq<nat>>,
                 t: Tree, cur: seq<Tree>, h: nat, first: nat, i: nat, span: nat)
    requires t.Node? && Shape(t, h) && Disjoint(t, span) && Held(l0, t, span) && i < FANOUT
    requires LoopState(l0, l1, n0, n1, t, cur, first, i, span) && cur[i] == t.kids[i]
    ensures Shape(cur[i], h - 1) && Disjoint(cur[i], span)
    ensures Rep(n1, n0[t.blk][i], cur[i]) && Held(l1, cur[i], span)
    ensures n0[t.blk][i] != 0 && 1 < h ==> cur[i].Node?
  {
    assert Rep(n1, n0[t.blk][i], cur[i]);
    forall b | Owns(cur[i], span, b) ensures InUse(l1, b) {
      KidOwnedWhole(t.kids, cur, i, span, b);
      assert Owns(t, span, b);
    }
  }

  /** Kids [first, i) are truncated, the others as they were. */
  ghost predicate KidsDone(t: Tree, cur: seq<Tree>, h: nat, f: nat, l: nat, first: nat, i: nat)
    requires t.Node? && Shape(t, h) && f <= l < Pow(h)
  {
    && |cur| == FANOUT
    && forall j :: 0 <= j < FANOUT ==> cur[j] == if first <= j < i then TruncKid(t.kids[j], h, f, l, j) else t.kids[j]
  }

  /** The loop's own account of which kids it emptied. */
  ghost predicate EdgesSoFar(cur: seq<Tree>, first: nat, last: nat, i: nat, start: nat, end: nat, allFreed: bool)
    requires first <= i <= last + 1 <= |cur|
  {
    && start == (if first < i && !cur[first].Hole? then first + 1 else first)
    && end == (if first < last < i && !cur[last].Hole? then last - 1 else last)
    && (allFreed <==> forall j :: first <= j < i ==> cur[j].Hole?)
  }

  lemma LoopStart(lst: seq<Interval>, n: map<nat, seq<nat>>, p: nat, t: Tree, h: nat, f: nat, l: nat, first: nat, last: nat,
                  span: nat)
    requires t.Node? && Shape(t, h) && Rep(n, p, t) && f <= l < Pow(h) && first <= last < FANOUT
    ensures p == t.blk && p in n && |n[p]| == |t.kids| == FANOUT
    ensures LoopState(lst, lst, n, n, t, t.kids, first, first, span)
    ensures KidsDone(t, t.kids, h, f, l, first, first) && EdgesSoFar(t.kids, first, last, first, first, last, true)
  {
  }

  lemma LoopAdvance(t: Tree, cur: seq<Tree>, h: nat, f: nat, l: nat, first: nat, last: nat, i: nat, start: nat, end: nat,
                    allFreed: bool)
    requires t.Node? && Shape(t, h) && f <= l < Pow(h) && first <= i <= last < FANOUT
    requires KidsDone(t, cur, h, f, l, first, i) && EdgesSoFar(cur, first, last, i, start, end, allFreed)
    ensures var k := TruncKid(t.kids[i], h, f, l, i);
            && KidsDone(t, cur[i := k], h, f, l, first, i + 1)
            && (first < last && i == last && !k.Hole? ==> 0 < end)
            && EdgesSoFar(cur[i := k], first, last, i + 1,
                          if !k.Hole? && i == first then start + 1 else start,
                          if !k.Hole? && i != first && i == last then end - 1 else end,
                          allFreed && k.Hole?)
  {
    hide TruncKid;
  }

  lemma LoopEnd(t: Tree, cur: seq<Tree>, h: nat, f: nat, l: nat, first: nat, last: nat, start: nat, end: nat, allFreed: bool)
    requires t.Node? && Shape(t, h) && f <= l < Pow(h) && first == KidOf(f, h) <= last == KidOf(l, h) < FANOUT
    requires KidsDone(t, cur, h, f, l, first, last + 1) && EdgesSoFar(cur, first, last, last + 1, start, end, allFreed)
    ensures cur == TruncKids(t.kids, h, f, l) && Emptied(t.kids, cur, first, last, start, end, allFreed)
  {
    hide Trunc;
    forall j | 0 <= j < FANOUT ensures cur[j] == TruncKid(t.kids[j], h, f, l, j)
                               ensures first < j < last ==> cur[j].Hole? {
      if first < j < last { MiddleEmptied(t.kids[j], h, f, l, j); }
    }
  }

  /** Truncate a subtree and, if that empties it, free its root block: what
      every caller of recursive_truncate_blocks does with its result. */
  method TruncateSubtree(sb: SbInfo, dev: Device, block: nat, height: nat, btype: BlockType,
                         f: nat, l: nat, ghost t: Tree)
    returns (freed: nat, empty: bool)
    requires Ready(sb, dev, block, height, btype, t) && t.Node? && f <= l < Pow(height)
    modifies sb, dev`nodes
    ensures sb.Valid() && sb.Total() == old(sb.Total())
    ensures Truncated(old(sb.inuse), sb.inuse, old(dev.nodes), dev.nodes, block, t, Trunc(t, height, f, l), NumBlocks(btype))
    ensures empty <==> Trunc(t, height, f, l).Hole?
    ensures freed == Count(t) - Count(Trunc(t, height, f, l))
    decreases height, 2
  {
    ghost var t' := Trunc(t, height, f, l);
    freed, empty := RecursiveTruncateBlocks(sb, dev, block, height, btype, f, l, t);
    ghost var l1 := sb.inuse;
    assert Owns(t, NumBlocks(btype), block);
    assert !empty ==> t'.Node? && t'.blk == block by { TruncOwns(t, height, f, l, NumBlocks(btype), 0); }
    if empty {
      assert InUse(l1, block);
      var ok, hint := sb.FreeBlock(block, Block4K, None, true);
    }
  }

  /** recursive_truncate_blocks.  An emptied node is left as it is, with its
      stale pointers, for the caller to free. */
  method RecursiveTruncateBlocks(sb: SbInfo, dev: Device, block: nat, height: nat, btype: BlockType,
                                 f: nat, l: nat, ghost t: Tree)
    returns (freed: nat, metaEmpty: bool)
    requires Ready(sb, dev, block, height, btype, t) && t.Node? && f <= l < Pow(height)
    modifies sb, dev`nodes
    ensures sb.Valid() && sb.Total() == old(sb.Total())
    ensures metaEmpty <==> Trunc(t, height, f, l).Hole?
    ensures ReleasedBelow(old(sb.inuse), sb.inuse, t, Trunc(t, height, f, l), NumBlocks(btype))
    ensures Untouched(old(dev.nodes), dev.nodes, t, NumBlocks(btype))
    ensures !metaEmpty ==> Rep(dev.nodes, block, Trunc(t, height, f, l))
    ensures freed == Count(t) - Count(Trunc(t, height, f, l))
    decreases height, 1
  {
    ghost var span := NumBlocks(btype);
    ghost var l0, n0 := sb.inuse, dev.nodes;
    var first, last := KidOf(f, height), KidOf(l, height);
    ghost var cur := TruncKids(t.kids, height, f, l);
    RangeOfKids(t, height, f, l);
    TruncNode(t, height, f, l);
    TruncCount(t, height, f, l);
    hide Trunc, TruncKids, LoopState, Emptied, Shape, Pow, Disjoint, Rep, Held, Canonical, Covered, ReleasedBelow,
         Untouched, AllHoles;
    var start, end, allFreed := first, last, true;
    if height == 1 {
      freed := TruncateLeaves(sb, dev, block, btype, f, l, t);
    } else {
      freed, start, end, allFreed := TruncateKids(sb, dev, block, height, btype, f, l, t);
    }
    metaEmpty := FinishNode(dev, block, first, last, start, end, allFreed, t, cur, l0, sb.inuse, n0, span);
  }

  /** The end of recursive_truncate_blocks: keep the node for its caller to
      free if it is now empty, else zero the emptied range. */
  method FinishNode(dev: Device, block: nat, first: nat, last: nat, start: nat, end: nat, allFreed: bool, ghost t: Tree,
                    ghost cur: seq<Tree>, ghost l0: seq<Interval>, ghost l1: seq<Interval>, ghost n0: map<nat, seq<nat>>, ghost span: nat)
    returns (metaEmpty: bool)
    requires t.Node? && |t.kids| == FANOUT && Disjoint(t, span) && t.blk == block && NonNull(t.kids)
    requires LoopState(l0, l1, n0, dev.nodes, t, cur, first, last + 1, span)
    requires Emptied(t.kids, cur, first, last, start, end, allFreed)
    modifies dev`nodes
    ensures metaEmpty <==> AllHoles(cur)
    ensures ReleasedBelow(l0, l1, t, if AllHoles(cur) then Hole else Node(t.blk, cur), span)
    ensures Untouched(n0, dev.nodes, t, span)
    ensures !metaEmpty ==> Rep(dev.nodes, block, Node(t.blk, cur))
  {
    ghost var n1 := dev.nodes;
    var node := dev.nodes[block];
    ReleasedKeepsRoot(l0, l1, t, cur, span);
    EmptyIffHoles(n1, node, t.kids, cur, first, last, start, end, allFreed);
    if allFreed && IsEmptyMetaBlock(node, first, last) {
      metaEmpty := true;
    } else {
      var node' := node;
      if start <= end {
        node' := node[..start] + seq(end - start + 1, _ => 0) + node[end + 1..];
      }
      dev.nodes := dev.nodes[block := node'];
      ZeroedRep(n0, n1, dev.nodes, node, node', t, cur, first, last, start, end, allFreed, span);
      metaEmpty := false;
    }
  }

  /** is_empty_meta_block */
  predicate IsEmptyMetaBlock(node: seq<nat>, start: nat, end: nat) {
    && (forall i :: 0 <= i < start && i < |node| ==> node[i] == 0)
    && (forall i :: end < i < |node| ==> node[i] == 0)
  }

  /** Only kids in [first, last] changed, and [start, end] covers exactly the emptied ones. */
  ghost predicate Emptied(kids: seq<Tree>, cur: seq<Tree>, first: nat, last: nat, start: nat, end: nat, allFreed: bool) {
    && |kids| == |cur| && first <= last < |cur| && first <= start && end <= last
    && (forall j :: 0 <= j < |cur| && !(first <= j <= last) ==> cur[j] == kids[j])
    && (forall j :: start <= j <= end ==> cur[j].Hole?)
    && (forall j :: first <= j <= last && !(start <= j <= end) ==> !cur[j].Hole?)
    && (allFreed <==> forall j :: first <= j <= last ==> cur[j].Hole?)
  }

  ghost predicate NonNull(kids: seq<Tree>) {
    forall j :: 0 <= j < |kids| ==> kids[j].Hole? || kids[j].blk != 0
  }

  lemma RangeOfKids(t: Tree, h: nat, f: nat, l: nat)
    requires t.Node? && Shape(t, h) && f <= l < Pow(h)
    ensures h > 0 && KidOf(f, h) <= KidOf(l, h) < FANOUT == |t.kids| && NonNull(t.kids)
  {
    SlotIndex(l, Pow(h - 1), FANOUT);
    DivMono(f, l, Pow(h - 1));
    forall j | 0 <= j < FANOUT ensures t.kids[j].Hole? || t.kids[j].blk != 0 {
      assert Shape(t.kids[j], h - 1);
    }
  }

  method TruncateLeaves(sb: SbInfo, dev: Device, block: nat, btype: BlockType, f: nat, l: nat, ghost t: Tree)
    returns (freed: nat)
    requires Ready(sb, dev, block, 1, btype, t) && t.Node? && f <= l < Pow(1)
    modifies sb
    ensures sb.Valid() && sb.Total() == old(sb.Total())
    ensures KidOf(f, 1) == f && KidOf(l, 1) == l
    ensures LoopState(old(sb.inuse), sb.inuse, dev.nodes, dev.nodes, t, TruncKids(t.kids, 1, f, l), f, l + 1, NumBlocks(btype))
    ensures Emptied(t.kids, TruncKids(t.kids, 1, f, l), f, l, f, l, true)
    ensures freed == CountAll(t.kids) - CountAll(TruncKids(t.kids, 1, f, l))
  {
    ghost var span := NumBlocks(btype);
    forall b | OwnedByKid(t.kids, span, b) ensures InUse(sb.inuse, b) { assert Owns(t, span, b); }
    forall j | 0 <= j < FANOUT ensures Shape(t.kids[j], 0) && Rep(dev.nodes, dev.nodes[block][j], t.kids[j]) {}
    ghost var cur;
    freed, cur := FreeLeaves(sb, dev.nodes[block], btype, f, l, t.kids);
    LeavesTruncated(t, f, l, cur, span);
  }

  lemma LeavesTruncated(t: Tree, f: nat, l: nat, cur: seq<Tree>, span: nat)
    requires t.Node? && Shape(t, 1) && f <= l < Pow(1)
    requires |cur| == FANOUT && forall j :: 0 <= j < FANOUT ==> cur[j] == if f <= j <= l then Hole else t.kids[j]
    ensures KidOf(f, 1) == f && KidOf(l, 1) == l
    ensures cur == TruncKids(t.kids, 1, f, l) && Shrunk(t.kids, cur, span)
  {
    forall j | 0 <= j < FANOUT ensures cur[j] == TruncKid(t.kids[j], 1, f, l, j) {
      assert Shape(t.kids[j], 0);
    }
  }

  /** The loop of recursive_truncate_blocks above height 1.  [start, end] is
      what is left to zero once a partly kept first or last kid is excluded. */
  method TruncateKids(sb: SbInfo, dev: Device, block: nat, height: nat, btype: BlockType,
                      f: nat, l: nat, ghost t: Tree)
    returns (freed: nat, start: nat, end: nat, allFreed: bool)
    requires Ready(sb, dev, block, height, btype, t) && t.Node? && f <= l < Pow(height) && 1 < height
    modifies sb, dev`nodes
    ensures sb.Valid() && sb.Total() == old(sb.Total())
    ensures LoopState(old(sb.inuse), sb.inuse, old(dev.nodes), dev.nodes, t, TruncKids(t.kids, height, f, l),
                      KidOf(f, height), KidOf(l, height) + 1, NumBlocks(btype))
    ensures Emptied(t.kids, TruncKids(t.kids, height, f, l), KidOf(f, height), KidOf(l, height), start, end, allFreed)
    ensures freed == CountAll(t.kids) - CountAll(TruncKids(t.kids, height, f, l))
    decreases height, 0
  {
    hide TruncKids, TruncKid, Trunc, LoopState, Shape, Pow, KidOf, Disjoint, Rep, Held, Canonical, Covered, KidsDone,
         EdgesSoFar, CountAll, Emptied;
    var first, last := KidOf(f, height), KidOf(l, height);
    RangeOfKids(t, height, f, l);
    LoopStart(sb.inuse, dev.nodes, block, t, height, f, l, first, last, NumBlocks(btype));
    var node := dev.nodes[block];
    start, end, allFreed, freed := first, last, true, 0;
    ghost var cur := t.kids;
    var i := first;
    while i <= last
      invariant first <= i <= last + 1 <= FANOUT == |cur|
      invariant sb.Valid() && sb.Total() == old(sb.Total())
      invariant LoopState(old(sb.inuse), sb.inuse, old(dev.nodes), dev.nodes, t, cur, first, i, NumBlocks(btype))
      invariant KidsDone(t, cur, height, f, l, first, i)
      invariant EdgesSoFar(cur, first, last, i, start, end, allFreed)
      invariant freed == CountAll(t.kids) - CountAll(cur)
    {
      KidUndone(t, cur, height, f, l, first, i);
      LoopAdvance(t, cur, height, f, l, first, last, i, start, end, allFreed);
      ghost var k := TruncKid(t.kids[i], height, f, l, i);
      CountUpdate(cur, i, k);
      if node[i] != 0 {
        var freedHere, empty := TruncateKid(sb, dev, node[i], height, btype, f, l, i, t, cur, old(sb.inuse), old(dev.nodes));
        cur := cur[i := k];
        freed := freed + freedHere;
        if !empty {
          if i == first { start := start + 1; } else if i == last { end := end - 1; }
          allFreed := false;
        }
      } else {
        LoopSkip(old(sb.inuse), sb.inuse, old(dev.nodes), dev.nodes, t, cur, height, f, l, first, i, NumBlocks(btype));
        assert cur[i := k] == cur;
      }
      i := i + 1;
    }
    LoopEnd(t, cur, height, f, l, first, last, start, end, allFreed);
  }

  lemma KidUndone(t: Tree, cur: seq<Tree>, h: nat, f: nat, l: nat, first: nat, i: nat)
    requires t.Node? && Shape(t, h) && f <= l < Pow(h) && i < FANOUT && KidsDone(t, cur, h, f, l, first, i)
    ensures |t.kids| == FANOUT && cur[i] == t.kids[i] && Shape(t.kids[i], h - 1)
  {
  }

  /** One iteration of that loop. */
  method TruncateKid(sb: SbInfo, dev: Device, ptr: nat, height: nat, btype: BlockType, f: nat, l: nat, i: nat,
                     ghost t: Tree, ghost cur: seq<Tree>, ghost l0: seq<Interval>, ghost n0: map<nat, seq<nat>>)
    returns (freed: nat, empty: bool)
    requires 1 < height && t.Node? && Shape(t, height) && Disjoint(t, NumBlocks(btype)) && Held(l0, t, NumBlocks(btype))
    requires f <= l < Pow(height) && KidOf(f, height) <= i <= KidOf(l, height) < FANOUT
    requires sb.Valid()
    requires LoopState(l0, sb.inuse, n0, dev.nodes, t, cur, KidOf(f, height), i, NumBlocks(btype))
    requires |cur| == FANOUT && cur[i] == t.kids[i] && ptr == n0[t.blk][i] != 0
    modifies sb, dev`nodes
    ensures sb.Valid() && sb.Total() == old(sb.Total())
    ensures LoopState(l0, sb.inuse, n0, dev.nodes, t, cur[i := TruncKid(t.kids[i], height, f, l, i)], KidOf(f, height), i + 1, NumBlocks(btype))
    ensures empty <==> TruncKid(t.kids[i], height, f, l, i).Hole?
    ensures freed == Count(cur[i]) - Count(TruncKid(t.kids[i], height, f, l, i))
    decreases height, 0, 0
  {
    hide Trunc, LoopState, Disjoint, Rep, Held, Canonical, Covered, Truncated;
    var p := Pow(height - 1);
    ghost var span := NumBlocks(btype);
    ghost var l1, n1 := sb.inuse, dev.nodes;
    SlotRange(f, l, p, i);
    KidReady(l0, l1, n0, n1, t, cur, height, KidOf(f, height), i, span);
    freed, empty := TruncateSubtree(sb, dev, ptr, height - 1, btype, SlotLo(f, p, i), SlotHi(l, p, i), cur[i]);
    ghost var k := TruncKid(t.kids[i], height, f, l, i);
    forall b ensures Owns(k, span, b) ==> Owns(cur[i], span, b) {
      TruncKidOwns(t.kids[i], height, f, l, i, span, b);
    }
    LoopStep(l0, l1, sb.inuse, n0, n1, dev.nodes, t, cur, KidOf(f, height), i, k, span);
  }

  // ---------------------------------------------------------------- steps of the proof

  /** Released, except that the root block itself is still in use. */
  ghost predicate ReleasedBelow(l: seq<Interval>, l': seq<Interval>, t: Tree, t': Tree, span: nat)
    requires t.Node?
  {
    forall b :: InUse(l', b) <==> InUse(l, b) && (Owns(t, span, b) ==> b == t.blk || Owns(t', span, b))
  }

  lemma ReleasedKeepsRoot(l: seq<Interval>, l': seq<Interval>, t: Tree, cur: seq<Tree>, span: nat)
    requires t.Node? && Disjoint(t, span) && ReleasedKids(l, l', t.kids, cur, span)
    ensures ReleasedBelow(l, l', t, if AllHoles(cur) then Hole else Node(t.blk, cur), span)
  {
    var t' := if AllHoles(cur) then Hole else Node(t.blk, cur);
    forall b ensures InUse(l', b) <==> InUse(l, b) && (Owns(t, span, b) ==> b == t.blk || Owns(t', span, b)) {
      if b == t.blk { assert !OwnedByKid(t.kids, span, b); }
      if AllHoles(cur) { assert !OwnedByKid(cur, span, b); }
    }
  }

  /** A node is empty exactly when the emptied range is all there was in it. */
  lemma EmptyIffHoles(nodes: map<nat, seq<nat>>, node: seq<nat>, kids: seq<Tree>, cur: seq<Tree>,
                      first: nat, last: nat, start: nat, end: nat, allFreed: bool)
    requires |node| == |kids| == |cur| == FANOUT && NonNull(kids)
    requires KidsInPlace(nodes, node, cur, first, last + 1) && Emptied(kids, cur, first, last, start, end, allFreed)
    ensures allFreed && IsEmptyMetaBlock(node, first, last) <==> AllHoles(cur)
  {
    forall j | 0 <= j < FANOUT && !(first <= j <= last) ensures node[j] == 0 <==> cur[j].Hole? {
      assert Rep(nodes, node[j], cur[j]);
    }
  }

  /** Zeroing the emptied slots makes the node represent the truncated kids. */
  lemma ZeroedRep(n0: map<nat, seq<nat>>, n1: map<nat, seq<nat>>, n2: map<nat, seq<nat>>, node: seq<nat>, node': seq<nat>,
                  t: Tree, cur: seq<Tree>, first: nat, last: nat, start: nat, end: nat, allFreed: bool, span: nat)
    requires t.Node? && |t.kids| == |cur| == |node| == |node'| == FANOUT && Disjoint(t, span)
    requires Shrunk(t.kids, cur, span) && Untouched(n0, n1, t, span)
    requires KidsInPlace(n1, node, cur, first, last + 1) && Emptied(t.kids, cur, first, last, start, end, allFreed)
    requires t.blk in n1 && n2 == n1[t.blk := node']
    requires forall j :: 0 <= j < FANOUT ==> node'[j] == if start <= j <= end then 0 else node[j]
    ensures Rep(n2, t.blk, Node(t.blk, cur)) && Untouched(n0, n2, t, span)
  {
    forall j | 0 <= j < FANOUT ensures Rep(n2, node'[j], cur[j]) {
      if !(start <= j <= end) {
        assert !Owns(t.kids[j], span, t.blk);
        RepFrame(n1, n2, node[j], cur[j], span);
      }
    }
  }
}
