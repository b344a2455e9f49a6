/** Allocating file blocks (inode.c): filling holes of the block tree and
    raising its height. */
module InodeAlloc {
  import opened Arith
  import opened BlockList
  import opened Allocator
  import opened BlockTree
  import opened TreeGrowth
  import opened Codec
  import opened InodeTree
  import opened InodeOps

  function ZeroNode(): seq<nat> { seq(FANOUT, _ => 0) }

  function ZeroBlock(): seq<byte> { seq(BLOCK, _ => 0) }

  function SetSlot(node: seq<nat>, j: nat, q: nat): seq<nat>
    requires j < |node|
  {
    node[..j] + [q] + node[j + 1..]
  }

  // ---------------------------------------------------------------- growing a tree

  /** No pointer that was set has changed. */
  ghost predicate Keeps(t: Tree, t': Tree) {
    match t
    case Hole => true
    case Leaf(_) => t' == t
    case Node(b, kids) =>
      t'.Node? && t'.blk == b && |t'.kids| == |kids| && forall j :: 0 <= j < |kids| ==> Keeps(kids[j], t'.kids[j])
  }

  lemma {:induction false} KeepsRefl(t: Tree)
    ensures Keeps(t, t)
    decreases t
  {
    if !t.Node? {
    } else {
      forall j | 0 <= j < |t.kids| ensures Keeps(t.kids[j], t.kids[j]) { KeepsRefl(t.kids[j]); }
    }
  }

  lemma {:induction false} KeepsTrans(t0: Tree, t1: Tree, t2: Tree)
    requires Keeps(t0, t1) && Keeps(t1, t2)
    ensures Keeps(t0, t2)
    decreases t0
  {
    if !t0.Node? {
    } else {
      forall j | 0 <= j < |t0.kids| ensures Keeps(t0.kids[j], t2.kids[j]) { KeepsTrans(t0.kids[j], t1.kids[j], t2.kids[j]); }
    }
  }

  lemma KeepsUpdate(t: Tree, j: nat, k: Tree)
    requires t.Node? && j < |t.kids| && Keeps(t.kids[j], k)
    ensures Keeps(t, Node(t.blk, t.kids[j := k]))
  {
    forall i | 0 <= i < |t.kids| ensures Keeps(t.kids[i], t.kids[j := k][i]) { KeepsRefl(t.kids[i]); }
  }

  /** The map only gains entries, and only in [f, l]. */
  ghost predicate Extends(t: Tree, t': Tree, h: nat, f: nat, l: nat) {
    && Shape(t, h) && Shape(t', h) && Keeps(t, t')
    && forall i :: 0 <= i < Pow(h) ==> Lookup(t', h, i) == Lookup(t, h, i) || (Lookup(t, h, i) == 0 && f <= i <= l)
  }

  /** t' owns all that t owned; what it gained was free before and is in use
      now, and nothing else changed state. */
  ghost predicate Gained(l: seq<Interval>, l': seq<Interval>, t: Tree, t': Tree, span: nat) {
    && (forall b :: Owns(t, span, b) ==> Owns(t', span, b))
    && (forall b :: InUse(l', b) <==> InUse(l, b) || Owns(t', span, b))
    && (forall b :: Owns(t', span, b) && !Owns(t, span, b) ==> !InUse(l, b))
  }

  /** Node memory outside the grown tree is unchanged. */
  ghost predicate NodesKept(n: map<nat, seq<nat>>, n': map<nat, seq<nat>>, t': Tree, span: nat) {
    forall b :: b in n && !Owns(t', span, b) ==> b in n' && n'[b] == n[b]
  }

  /** Data changes only in blocks that were free. */
  ghost predicate DataKept(d: map<nat, seq<byte>>, d': map<nat, seq<byte>>, l: seq<Interval>) {
    && (forall b :: b in d && InUse(l, b) ==> b in d' && d'[b] == d[b])
    && (forall b :: b in d && |d[b]| == BLOCK ==> b in d' && |d'[b]| == BLOCK)
  }

  lemma ExtendsTrans(t0: Tree, t1: Tree, t2: Tree, h: nat, f: nat, l: nat)
    requires Extends(t0, t1, h, f, l) && Extends(t1, t2, h, f, l)
    ensures Extends(t0, t2, h, f, l)
  {
    KeepsTrans(t0, t1, t2);
  }

  lemma GainedTrans(l0: seq<Interval>, l1: seq<Interval>, l2: seq<Interval>, t0: Tree, t1: Tree, t2: Tree, span: nat)
    requires Gained(l0, l1, t0, t1, span) && Gained(l1, l2, t1, t2, span)
    ensures Gained(l0, l2, t0, t2, span)
  {
  }

  lemma NodesKeptTrans(n0: map<nat, seq<nat>>, n1: map<nat, seq<nat>>, n2: map<nat, seq<nat>>, t1: Tree, t2: Tree, span: nat)
    requires NodesKept(n0, n1, t1, span) && NodesKept(n1, n2, t2, span)
    requires forall b :: Owns(t1, span, b) ==> Owns(t2, span, b)
    ensures NodesKept(n0, n2, t2, span)
  {
  }

  lemma DataKeptTrans(d0: map<nat, seq<byte>>, d1: map<nat, seq<byte>>, d2: map<nat, seq<byte>>, l0: seq<Interval>,
                      l1: seq<Interval>)
    requires DataKept(d0, d1, l0) && DataKept(d1, d2, l1)
    requires forall b :: InUse(l0, b) ==> InUse(l1, b)
    ensures DataKept(d0, d2, l0)
  {
  }

  /** Growing kid j grows the node, in the range the kid's range stands for. */
  lemma KidExtends(t: Tree, h: nat, j: nat, k: Tree, f: nat, l: nat)
    requires t.Node? && Shape(t, h) && j < FANOUT && f <= l < Pow(h) && KidOf(f, h) <= j <= KidOf(l, h)
    requires Extends(t.kids[j], k, h - 1, SlotLo(f, Pow(h - 1), j), SlotHi(l, Pow(h - 1), j))
    ensures Extends(t, Node(t.blk, t.kids[j := k]), h, f, l)
  {
    var t' := Node(t.blk, t.kids[j := k]);
    assert Shape(t', h);
    KeepsUpdate(t, j, k);
    forall i: nat | i < Pow(h) ensures Lookup(t', h, i) == Lookup(t, h, i) || (Lookup(t, h, i) == 0 && f <= i <= l) {
      KidExtendsAt(t, h, j, k, f, l, i);
    }
  }

  lemma KidExtendsAt(t: Tree, h: nat, j: nat, k: Tree, f: nat, l: nat, i: nat)
    requires t.Node? && Shape(t, h) && j < FANOUT && f <= l < Pow(h) && KidOf(f, h) <= j <= KidOf(l, h)
    requires Extends(t.kids[j], k, h - 1, SlotLo(f, Pow(h - 1), j), SlotHi(l, Pow(h - 1), j))
    requires i < Pow(h) && Shape(Node(t.blk, t.kids[j := k]), h)
    ensures var t' := Node(t.blk, t.kids[j := k]);
            Lookup(t', h, i) == Lookup(t, h, i) || (Lookup(t, h, i) == 0 && f <= i <= l)
  {
    LookupKid(t, h, i);
    LookupKid(Node(t.blk, t.kids[j := k]), h, i);
    SlotSplit(f, l, Pow(h - 1), i);
    hide Lookup, Shape;
  }

  /** Block sets: what kid j gained is what the node gained, and no two kids share it. */
  lemma KidGained(l: seq<Interval>, l': seq<Interval>, t: Tree, j: nat, k: Tree, span: nat)
    requires t.Node? && j < |t.kids| && Disjoint(t, span) && Held(l, t, span)
    requires Gained(l, l', t.kids[j], k, span) && Disjoint(k, span)
    ensures var t' := Node(t.blk, t.kids[j := k]);
            Gained(l, l', t, t', span) && Disjoint(t', span) && Held(l', t', span)
  {
    var t' := Node(t.blk, t.kids[j := k]);
    forall b ensures Owns(t', span, b) <==> Owns(t, span, b) || Owns(k, span, b) {
      KidOwns(t, j, k, span, b);
    }
    forall b | Owns(k, span, b) && !Owns(t.kids[j], span, b) ensures !Owns(t, span, b) {
      assert !InUse(l, b);
    }
    forall i, m, b | 0 <= i < |t'.kids| && 0 <= m < |t'.kids| && Owns(t'.kids[i], span, b) && Owns(t'.kids[m], span, b) ensures i == m {
      GainedApart(l, l', t, j, k, span, b, i, m);
    }
    assert !Owns(k, span, t.blk) by {
      assert Owns(t, span, t.blk);
    }
  }

  lemma GainedApart(l: seq<Interval>, l': seq<Interval>, t: Tree, j: nat, k: Tree, span: nat, b: int, i: nat, m: nat)
    requires t.Node? && j < |t.kids| && Apart(t.kids, span) && Held(l, t, span) && Gained(l, l', t.kids[j], k, span)
    requires i < |t.kids| && m < |t.kids| && Owns(t.kids[j := k][i], span, b) && Owns(t.kids[j := k][m], span, b)
    ensures i == m
  {
    if i != m {
      var o := if i == j then m else i;
      assert o == j || Owns(t.kids[o], span, b);
      if o != j {
        assert OwnedByKid(t.kids, span, b);
        assert Owns(t, span, b);
      }
    }
  }

  lemma KidOwns(t: Tree, j: nat, k: Tree, span: nat, b: int)
    requires t.Node? && j < |t.kids| && (Owns(t.kids[j], span, b) ==> Owns(k, span, b))
    ensures Owns(Node(t.blk, t.kids[j := k]), span, b) <==> Owns(t, span, b) || Owns(k, span, b)
  {
    var kids' := t.kids[j := k];
    if OwnedByKid(kids', span, b) {
      var i :| 0 <= i < |kids'| && Owns(kids'[i], span, b);
      assert i == j || Owns(t.kids[i], span, b);
    }
    if OwnedByKid(t.kids, span, b) {
      var i :| 0 <= i < |t.kids| && Owns(t.kids[i], span, b);
      assert Owns(kids'[i], span, b);
    }
    if Owns(k, span, b) { assert Owns(kids'[j], span, b); }
  }

  /** Device state: in-use list, node memory, data memory. */
  datatype State = State(inuse: seq<Interval>, nodes: map<nat, seq<nat>>, data: map<nat, seq<byte>>)

  ghost function Now(sb: SbInfo, dev: Device): State
    reads sb, dev
  {
    State(sb.inuse, dev.nodes, dev.data)
  }

  /** From s to s', the tree at pointer p grew from t to t' within [f, l]. */
  ghost predicate Grown(s: State, s': State, p: nat, t: Tree, t': Tree, h: nat, f: nat, l: nat, span: nat) {
    && Extends(t, t', h, f, l) && Gained(s.inuse, s'.inuse, t, t', span)
    && NodesKept(s.nodes, s'.nodes, t', span) && DataKept(s.data, s'.data, s.inuse)
    && Disjoint(t', span) && Held(s'.inuse, t', span) && Rep(s'.nodes, p, t')
  }

  lemma GrownRefl(s: State, p: nat, t: Tree, h: nat, f: nat, l: nat, span: nat)
    requires Shape(t, h) && Disjoint(t, span) && Held(s.inuse, t, span) && Rep(s.nodes, p, t)
    ensures Grown(s, s, p, t, t, h, f, l, span)
  {
    KeepsRefl(t);
  }

  lemma GrownTrans(s0: State, s1: State, s2: State, p: nat, t0: Tree, t1: Tree, t2: Tree, h: nat, f: nat, l: nat, span: nat)
    requires Grown(s0, s1, p, t0, t1, h, f, l, span) && Grown(s1, s2, p, t1, t2, h, f, l, span)
    ensures Grown(s0, s2, p, t0, t2, h, f, l, span)
  {
    hide Extends, NodesKept, DataKept, Disjoint, Held, Rep, Owns, InUse;
    ExtendsTrans(t0, t1, t2, h, f, l);
    GainedTrans(s0.inuse, s1.inuse, s2.inuse, t0, t1, t2, span);
    NodesKeptTrans(s0.nodes, s1.nodes, s2.nodes, t1, t2, span);
    DataKeptTrans(s0.data, s1.data, s2.data, s0.inuse, s1.inuse);
  }

  /** A kid grew below pointer q, and slot j of the node at p was then set to q. */
  lemma KidGrown(s: State, s1: State, s2: State, p: nat, q: nat, t: Tree, h: nat, j: nat, k: Tree, f: nat, l: nat, span: nat)
    requires t.Node? && Shape(t, h) && Disjoint(t, span) && Held(s.inuse, t, span) && Rep(s.nodes, p, t)
    requires j < FANOUT && f <= l < Pow(h) && KidOf(f, h) <= j <= KidOf(l, h)
    requires Grown(s, s1, q, t.kids[j], k, h - 1, SlotLo(f, Pow(h - 1), j), SlotHi(l, Pow(h - 1), j), span)
    requires p in s1.nodes && |s1.nodes[p]| == FANOUT && s2 == s1.(nodes := s1.nodes[p := SetSlot(s1.nodes[p], j, q)])
    ensures Grown(s, s2, p, t, Node(t.blk, t.kids[j := k]), h, f, l, span)
  {
    hide Extends, Gained, DataKept;
    KidExtends(t, h, j, k, f, l);
    KidGained(s.inuse, s1.inuse, t, j, k, span);
    KidPointers(s, s1, s2, p, q, t, h, j, k, span);
  }

  lemma KidPointers(s: State, s1: State, s2: State, p: nat, q: nat, t: Tree, h: nat, j: nat, k: Tree, span: nat)
    requires t.Node? && Shape(t, h) && Disjoint(t, span) && Held(s.inuse, t, span) && Rep(s.nodes, p, t) && j < FANOUT
    requires Gained(s.inuse, s1.inuse, t.kids[j], k, span) && NodesKept(s.nodes, s1.nodes, k, span) && Rep(s1.nodes, q, k)
    requires p in s1.nodes && |s1.nodes[p]| == FANOUT && s2 == s1.(nodes := s1.nodes[p := SetSlot(s1.nodes[p], j, q)])
    ensures var t' := Node(t.blk, t.kids[j := k]);
            Rep(s2.nodes, p, t') && NodesKept(s.nodes, s2.nodes, t', span)
  {
    var t' := Node(t.blk, t.kids[j := k]);
    assert Owns(t, span, p);
    assert !Owns(k, span, p);
    assert s1.nodes[p] == s.nodes[p];
    forall b | Owns(k, span, b) ensures Owns(t', span, b) && b != p {
      KidOwns(t, j, k, span, b);
    }
    forall i | 0 <= i < FANOUT ensures Rep(s2.nodes, s2.nodes[p][i], t'.kids[i]) {
      if i == j {
        RepFrame(s1.nodes, s2.nodes, q, k, span);
      } else {
        SiblingKept(s, s1, s2, p, t, h, j, k, i, span);
      }
    }
  }

  lemma SiblingKept(s: State, s1: State, s2: State, p: nat, t: Tree, h: nat, j: nat, k: Tree, i: nat, span: nat)
    requires t.Node? && Shape(t, h) && Disjoint(t, span) && Held(s.inuse, t, span) && Rep(s.nodes, p, t) && j < FANOUT
    requires i < FANOUT && i != j
    requires Gained(s.inuse, s1.inuse, t.kids[j], k, span) && NodesKept(s.nodes, s1.nodes, k, span)
    requires forall b :: b != p && b in s1.nodes ==> b in s2.nodes && s2.nodes[b] == s1.nodes[b]
    ensures Rep(s2.nodes, s.nodes[p][i], t.kids[i])
  {
    forall b | b in s.nodes && Owns(t.kids[i], span, b) ensures b in s2.nodes && s2.nodes[b] == s.nodes[b] {
      assert OwnedByKid(t.kids, span, b);
      assert Owns(t, span, b) && InUse(s.inuse, b);
      assert !Owns(t.kids[j], span, b);
    }
    RepFrame(s.nodes, s2.nodes, s.nodes[p][i], t.kids[i], span);
  }

  // ---------------------------------------------------------------- taking blocks

  /** What allocating n blocks at b does to the device. */
  ghost predicate Taken(s: State, s': State, b: nat, n: nat, zero: bool) {
    && b != 0 && 0 < n && b % n == 0 && RangeFree(s.inuse, b, b + n - 1)
    && (forall x :: InUse(s'.inuse, x) <==> InUse(s.inuse, x) || b <= x < b + n)
    && (forall x :: x in s.nodes && !(b <= x < b + n) ==> x in s'.nodes && s'.nodes[x] == s.nodes[x])
    && (forall x :: x in s.data && !(b <= x < b + n) ==> x in s'.data && s'.data[x] == s.data[x])
    && (forall x :: x in s.data && |s.data[x]| == BLOCK ==> x in s'.data && |s'.data[x]| == BLOCK)
    && (zero ==> forall x :: b <= x < b + n ==>
                   x in s'.nodes && s'.nodes[x] == ZeroNode() && x in s'.data && s'.data[x] == ZeroBlock())
  }

  /** Why an allocation for a file of the given block type can fail: no 4K block
      (for metadata) or no block of its type fits, or, for the larger types, a
      list node was needed and `nodes` says that none could be had. */
  ghost predicate Short(l: seq<Interval>, end: nat, btype: BlockType, nodes: bool) {
    OutOfSpace(l, end, Block4K) || OutOfSpace(l, end, btype) || (!nodes && !btype.Block4K?)
  }

  /** pmfs_new_block, with the zeroing of the block if asked for.  Without
      `nodes`, whether a list node can be had when one is needed is left open. */
  method AllocBlock(sb: SbInfo, dev: Device, btype: BlockType, zero: bool, nodes: bool) returns (r: Option<nat>)
    requires sb.Valid()
    modifies sb, dev
    ensures sb.Valid() && sb.Total() == old(sb.Total())
    ensures r.None? ==> Now(sb, dev) == old(Now(sb, dev))
    ensures r.Some? ==> Taken(old(Now(sb, dev)), Now(sb, dev), r.value, NumBlocks(btype), zero)
    ensures r.None? ==> OutOfSpace(sb.inuse, sb.blockEnd, btype) || (!nodes && !btype.Block4K?)
    ensures btype.Block4K? ==> |sb.inuse| <= old(|sb.inuse|)
    ensures sb.numFree == old(sb.numFree) - if r.Some? then NumBlocks(btype) else 0
  {
    hide Canonical, Covered, InUse, OutOfSpace;
    var nodeAvail: bool := *;
    if nodes { nodeAvail := true; }
    var n := NumBlocks(btype);
    r := sb.NewBlock(btype, nodeAvail);
    if r.Some? && zero {
      ZeroBlocks(dev, r.value, n);
    }
  }

  /** The memset of a newly allocated block. */
  method ZeroBlocks(dev: Device, b: nat, n: nat)
    modifies dev
    ensures forall x :: x in old(dev.nodes) && !(b <= x < b + n) ==> x in dev.nodes && dev.nodes[x] == old(dev.nodes)[x]
    ensures forall x :: x in old(dev.data) && !(b <= x < b + n) ==> x in dev.data && dev.data[x] == old(dev.data)[x]
    ensures forall x :: b <= x < b + n ==>
              x in dev.nodes && dev.nodes[x] == ZeroNode() && x in dev.data && dev.data[x] == ZeroBlock()
  {
    dev.nodes := dev.nodes + map x | x in RangeSet(b, n) :: ZeroNode();
    dev.data := dev.data + map x | x in RangeSet(b, n) :: ZeroBlock();
  }

  function RangeSet(b: nat, n: nat): (r: set<nat>)
    ensures forall x :: x in r <==> b <= x < b + n
  {
    if n == 0 then {} else RangeSet(b, n - 1) + {b + n - 1}
  }

  lemma TakenNonNull(s: State, s': State, b: nat, n: nat, zero: bool)
    requires Taken(s, s', b, n, zero)
    ensures b != 0
  {
  }

  /** A block just taken belongs to no tree whose blocks are in use. */
  lemma TakenNotOwned(s: State, s': State, b: nat, n: nat, zero: bool, t: Tree, span: nat)
    requires Taken(s, s', b, n, zero) && Held(s.inuse, t, span) && 0 < n
    ensures b != 0 && !Owns(t, span, b)
  {
  }

  lemma TakenLeaf(s: State, s': State, b: nat, f: nat, l: nat, span: nat, zero: bool)
    requires Taken(s, s', b, span, zero) && f == 0
    ensures Grown(s, s', b, Hole, Leaf(b), 0, f, l, span)
  {
  }

  lemma TakenNode(s: State, s': State, b: nat, h: nat, f: nat, l: nat, span: nat)
    requires Taken(s, s', b, 1, true) && h > 0
    ensures Grown(s, s', b, Hole, Node(b, EmptyKids()), h, f, l, span)
  {
    var t' := Node(b, EmptyKids());
    assert Shape(t', h);
    forall x ensures Owns(t', span, x) <==> x == b { EmptyNodeOwns(b, span, x); }
    forall i: nat | i < Pow(h) ensures Lookup(t', h, i) == 0 { LookupKid(t', h, i); }
    assert s'.nodes[b] == ZeroNode();
  }

  lemma EmptyNodeOwns(b: nat, span: nat, x: int)
    ensures Owns(Node(b, EmptyKids()), span, x) <==> x == b
  {
    assert !OwnedByKid(EmptyKids(), span, x);
  }

  // ---------------------------------------------------------------- new data blocks

  ghost predicate ZeroAt(d: map<nat, seq<byte>>, b: nat, span: nat) {
    forall x: nat :: b <= x < b + span ==> x in d && d[x] == ZeroBlock()
  }

  /** Data blocks that t' maps and t does not hold zeros. */
  ghost predicate FreshZeros(d: map<nat, seq<byte>>, t: Tree, t': Tree, h: nat, span: nat) {
    && Shape(t, h) && Shape(t', h)
    && forall i: nat :: i < Pow(h) && Lookup(t, h, i) == 0 && Lookup(t', h, i) != 0 ==> ZeroAt(d, Lookup(t', h, i), span)
  }

  /** What growing from t to t' at or past f leaves: nothing before f, and zeros in new
      data blocks if that was asked for. */
  ghost predicate Clean(d: map<nat, seq<byte>>, t: Tree, t': Tree, h: nat, f: nat, span: nat, zero: bool) {
    SameBefore(t, t', h, f) && (zero ==> FreshZeros(d, t, t', h, span))
  }

  lemma CleanAny(d: map<nat, seq<byte>>, t: Tree, t': Tree, h: nat, f: nat, span: nat, zero: bool)
    requires Clean(d, t, t', h, f, span, true)
    ensures Clean(d, t, t', h, f, span, zero)
  {
  }

  lemma CleanRefl(d: map<nat, seq<byte>>, t: Tree, h: nat, f: nat, span: nat, zero: bool)
    requires Shape(t, h)
    ensures Clean(d, t, t, h, f, span, zero)
  {
  }

  lemma {:induction false} WholeBlockOwned(t: Tree, h: nat, i: nat, span: nat, x: int)
    requires Shape(t, h) && i < Pow(h) && Lookup(t, h, i) != 0 && Lookup(t, h, i) <= x < Lookup(t, h, i) + span
    ensures Owns(t, span, x)
    decreases h
  {
    if !t.Node? {
    } else {
      LookupKid(t, h, i);
      WholeBlockOwned(t.kids[KidOf(i, h)], h - 1, i % Pow(h - 1), span, x);
      assert OwnedByKid(t.kids, span, x);
    }
  }

  /** Zeros stay while other blocks are taken. */
  lemma ZerosStay(s1: State, s2: State, p: nat, t1: Tree, t2: Tree, h: nat, f: nat, l: nat, span: nat, i: nat)
    requires Grown(s1, s2, p, t1, t2, h, f, l, span) && Held(s1.inuse, t1, span)
    requires i < Pow(h) && Shape(t1, h) && Lookup(t1, h, i) != 0 && ZeroAt(s1.data, Lookup(t1, h, i), span)
    ensures Shape(t2, h) && Lookup(t2, h, i) == Lookup(t1, h, i) && ZeroAt(s2.data, Lookup(t2, h, i), span)
  {
    var b := Lookup(t1, h, i);
    forall x: nat | b <= x < b + span ensures x in s2.data && s2.data[x] == ZeroBlock() {
      WholeBlockOwned(t1, h, i, span, x);
    }
  }

  lemma CleanTrans(s0: State, s1: State, s2: State, p: nat, t0: Tree, t1: Tree, t2: Tree, h: nat, f: nat, l: nat, span: nat,
                   zero: bool)
    requires Grown(s0, s1, p, t0, t1, h, f, l, span) && Grown(s1, s2, p, t1, t2, h, f, l, span)
    requires Clean(s1.data, t0, t1, h, f, span, zero) && Clean(s2.data, t1, t2, h, f, span, zero)
    ensures Clean(s2.data, t0, t2, h, f, span, zero)
  {
    SameBeforeTrans(t0, t1, t2, h, f);
    if zero {
      forall i: nat | i < Pow(h) && Lookup(t0, h, i) == 0 && Lookup(t2, h, i) != 0 ensures ZeroAt(s2.data, Lookup(t2, h, i), span) {
        if Lookup(t1, h, i) != 0 { ZerosStay(s1, s2, p, t1, t2, h, f, l, span, i); }
      }
    }
  }

  lemma CleanKid(d: map<nat, seq<byte>>, t: Tree, h: nat, i: nat, k: Tree, f: nat, span: nat, zero: bool)
    requires t.Node? && Shape(t, h) && f < Pow(h) && KidOf(f, h) <= i < FANOUT
    requires Clean(d, t.kids[i], k, h - 1, SlotLo(f, Pow(h - 1), i), span, zero)
    ensures Clean(d, t, Node(t.blk, t.kids[i := k]), h, f, span, zero)
  {
    KidSameBefore(t, h, i, k, f);
    if zero {
      var t' := Node(t.blk, t.kids[i := k]);
      forall j: nat | j < Pow(h) && Lookup(t, h, j) == 0 && Lookup(t', h, j) != 0 ensures ZeroAt(d, Lookup(t', h, j), span) {
        LookupKid(t, h, j);
        LookupKid(t', h, j);
      }
    }
  }

  lemma CleanLeaf(s: State, s': State, b: nat, f: nat, span: nat, zero: bool)
    requires Taken(s, s', b, span, zero) && f == 0
    ensures Clean(s'.data, Hole, Leaf(b), 0, f, span, zero)
  {
    NewLeafCut(b, f);
  }

  lemma CleanNode(d: map<nat, seq<byte>>, b: nat, h: nat, f: nat, span: nat, zero: bool)
    requires b != 0 && h > 0 && f < Pow(h)
    ensures Clean(d, Hole, Node(b, EmptyKids()), h, f, span, zero)
  {
    var t := Node(b, EmptyKids());
    NewNodeCut(b, h, f);
    forall i: nat | i < Pow(h) ensures Lookup(t, h, i) == 0 { LookupKid(t, h, i); }
  }

  // ---------------------------------------------------------------- filling a range

  ghost predicate Filled(t: Tree, h: nat, f: nat, l: nat) {
    Shape(t, h) && forall i :: f <= i <= l && i < Pow(h) ==> Lookup(t, h, i) != 0
  }

  /** Slot j of the node is done: its part of [f, l] is mapped. */
  ghost predicate SlotFilled(k: Tree, h: nat, f: nat, l: nat, j: nat)
    requires h > 0
  {
    Filled(k, h - 1, SlotLo(f, Pow(h - 1), j), SlotHi(l, Pow(h - 1), j))
  }

  ghost predicate KidsNoEmpty(t: Tree) {
    t.Node? ==> forall j :: 0 <= j < |t.kids| ==> NoEmpty(t.kids[j])
  }

  /** i_blocks counts data blocks: the difference is the same before and after. */
  ghost predicate SameTally(iBlocks: int, t: Tree, iBlocks': int, t': Tree, span: nat) {
    iBlocks' - Count(t') * span == iBlocks - Count(t) * span
  }

  lemma TallyKid(iBlocks: int, iBlocks': int, t: Tree, j: nat, k: Tree, span: nat)
    requires t.Node? && j < |t.kids| && SameTally(iBlocks, t.kids[j], iBlocks', k, span)
    ensures SameTally(iBlocks, t, iBlocks', Node(t.blk, t.kids[j := k]), span)
  {
    CountUpdate(t.kids, j, k);
    MulSwap(Count(t), Count(t.kids[j]), Count(k), span);
  }

  lemma MulSwap(a: int, b: int, c: int, n: int)
    ensures (a - b + c) * n == a * n - b * n + c * n
  {
    assert (a - b) * n == a * n - b * n;
  }

  /** Fill slot i of a height-1 node: one step of the loop in recursive_alloc_blocks. */
  method FillLeafSlot(sb: SbInfo, dev: Device, pi: Inode, block: nat, f: nat, l: nat, i: nat, zero: bool,
                      nodes: bool, ghost t: Tree)
    returns (ok: bool, ghost k: Tree)
    requires Ready(sb, dev, block, 1, pi.btype, t) && t.Node? && f <= l < Pow(1) && KidOf(f, 1) <= i <= KidOf(l, 1) < FANOUT
    modifies sb, dev, pi`iBlocks, pi`eofBlocks
    ensures sb.Valid() && sb.Total() == old(sb.Total())
    ensures pi.btype.Block4K? ==> |sb.inuse| <= old(|sb.inuse|)
    ensures Grown(old(Now(sb, dev)), Now(sb, dev), block, t, Node(t.blk, t.kids[i := k]), 1, f, l, NumBlocks(pi.btype))
    ensures SameTally(old(pi.iBlocks), t, pi.iBlocks, Node(t.blk, t.kids[i := k]), NumBlocks(pi.btype))
    ensures ok ==> SlotFilled(k, 1, f, l, i) && NoEmpty(k) && Tidy(k) && pi.eofBlocks == old(pi.eofBlocks)
    ensures i < |t.kids| && InOrder(t.kids[i], k, 0, SlotLo(f, 1, i))
    ensures !ok ==> Short(sb.inuse, sb.blockEnd, pi.btype, nodes) && k == Hole && pi.eofBlocks
    ensures Clean(dev.data, t, Node(t.blk, t.kids[i := k]), 1, f, NumBlocks(pi.btype), zero)
    ensures sb.numFree >= old(sb.numFree) - NumBlocks(pi.btype)
  {
    hide Rep, Shape, Disjoint, Held, Canonical, Covered, Grown, SlotFilled, Taken, SameTally, Pow, KidOf, SlotLo,
         SlotHi, OutOfSpace, Clean, InOrder;
    ghost var s0, span := Now(sb, dev), NumBlocks(pi.btype);
    SlotAt(dev.nodes, block, t, 1, i);
    k := t.kids[i];
    OneInOrder(t, 1, i, f);
    CleanSame(dev.data, t, 1, i, f, span, zero);
    if dev.nodes[block][i] == 0 {
      var r := AllocBlock(sb, dev, pi.btype, zero, nodes);
      if r.None? {
        pi.eofBlocks := true;
        GrownSame(s0, block, t, 1, f, l, i, span);
        TallySame(pi.iBlocks, t, i, span);
        return false, k;
      }
      ghost var s1 := Now(sb, dev);
      k := Leaf(r.value);
      TakenNonNull(s0, s1, r.value, span, zero);
      LeafTaken(s0, s1, block, t, i, r.value, f, l, span, zero, pi.iBlocks);
      CleanSlot(s0, s1, t, i, r.value, f, l, span, zero);
      pi.iBlocks := pi.iBlocks + NumBlocks(pi.btype);
      dev.nodes := dev.nodes[block := SetSlot(dev.nodes[block], i, r.value)];
    } else {
      GrownSame(s0, block, t, 1, f, l, i, span);
      TallySame(pi.iBlocks, t, i, span);
      LeafThere(t, i, f, l);
    }
    ok := true;
  }

  lemma OneInOrder(t: Tree, h: nat, i: nat, f: nat)
    requires t.Node? && Shape(t, h) && i < |t.kids|
    ensures InOrder(t.kids[i], t.kids[i], h - 1, SlotLo(f, Pow(h - 1), i))
    ensures h == 1 ==> InOrder(t.kids[i], t.kids[i], 0, SlotLo(f, 1, i))
    ensures h == 1 && t.kids[i].Hole? ==> forall b: nat :: b != 0 ==> InOrder(t.kids[i], Leaf(b), 0, SlotLo(f, 1, i))
  {
  }

  lemma GrownSame(s: State, p: nat, t: Tree, h: nat, f: nat, l: nat, i: nat, span: nat)
    requires t.Node? && i < |t.kids|
    requires Shape(t, h) && Disjoint(t, span) && Held(s.inuse, t, span) && Rep(s.nodes, p, t)
    ensures Grown(s, s, p, t, Node(t.blk, t.kids[i := t.kids[i]]), h, f, l, span)
  {
    assert Node(t.blk, t.kids[i := t.kids[i]]) == t;
    GrownRefl(s, p, t, h, f, l, span);
  }

  lemma CleanSame(d: map<nat, seq<byte>>, t: Tree, h: nat, i: nat, f: nat, span: nat, zero: bool)
    requires t.Node? && Shape(t, h) && i < |t.kids|
    ensures Clean(d, t, Node(t.blk, t.kids[i := t.kids[i]]), h, f, span, zero)
  {
    assert Node(t.blk, t.kids[i := t.kids[i]]) == t;
  }

  lemma CleanSlot(s0: State, s1: State, t: Tree, i: nat, b: nat, f: nat, l: nat, span: nat, zero: bool)
    requires t.Node? && Shape(t, 1) && i < FANOUT && t.kids[i].Hole? && f <= l < Pow(1) && KidOf(f, 1) <= i
    requires Taken(s0, s1, b, span, zero)
    ensures Clean(s1.data, t, Node(t.blk, t.kids[i := Leaf(b)]), 1, f, span, zero)
  {
    CleanLeaf(s0, s1, b, SlotLo(f, Pow(0), i), span, zero);
    hide Taken, Clean;
    CleanKid(s1.data, t, 1, i, Leaf(b), f, span, zero);
  }

  lemma TallySame(iBlocks: int, t: Tree, i: nat, span: nat)
    requires t.Node? && i < |t.kids|
    ensures SameTally(iBlocks, t, iBlocks, Node(t.blk, t.kids[i := t.kids[i]]), span)
  {
    assert Node(t.blk, t.kids[i := t.kids[i]]) == t;
  }

  lemma LeafThere(t: Tree, i: nat, f: nat, l: nat)
    requires t.Node? && Shape(t, 1) && i < FANOUT && !t.kids[i].Hole?
    ensures SlotFilled(t.kids[i], 1, f, l, i) && NoEmpty(t.kids[i]) && Tidy(t.kids[i])
  {
    assert Shape(t.kids[i], 0);
  }

  lemma LeafTaken(s0: State, s1: State, p: nat, t: Tree, i: nat, b: nat, f: nat, l: nat, span: nat, zero: bool, iBlocks: int)
    requires t.Node? && Shape(t, 1) && Disjoint(t, span) && Held(s0.inuse, t, span) && Rep(s0.nodes, p, t)
    requires i < FANOUT && t.kids[i].Hole? && f <= l < Pow(1) && KidOf(f, 1) <= i <= KidOf(l, 1)
    requires Taken(s0, s1, b, span, zero) && b != 0
    ensures p in s1.nodes && |s1.nodes[p]| == FANOUT
    ensures Grown(s0, s1.(nodes := s1.nodes[p := SetSlot(s1.nodes[p], i, b)]), p, t, Node(t.blk, t.kids[i := Leaf(b)]), 1, f, l, span)
    ensures SameTally(iBlocks, t, iBlocks + span, Node(t.blk, t.kids[i := Leaf(b)]), span)
    ensures SlotFilled(Leaf(b), 1, f, l, i) && NoEmpty(Leaf(b)) && Tidy(Leaf(b))
  {
    hide Rep, Disjoint, Held, Grown, Taken, Shape, SlotLo, SlotHi, KidOf, SlotFilled, SameTally, CountAll, SetSlot,
         NoEmpty;
    RootKept(s0, s1, p, t, b, span, zero, span);
    UnitSlot(t, f, l, i, b, iBlocks, span);
    TakenLeaf(s0, s1, b, SlotLo(f, Pow(0), i), SlotHi(l, Pow(0), i), span, zero);
    KidGrown(s0, s1, s1.(nodes := s1.nodes[p := SetSlot(s1.nodes[p], i, b)]), p, b, t, 1, i, Leaf(b), f, l, span);
    TallyKid(iBlocks, iBlocks + span, t, i, Leaf(b), span);
  }

  lemma UnitSlot(t: Tree, f: nat, l: nat, i: nat, b: nat, iBlocks: int, span: nat)
    requires t.Node? && Shape(t, 1) && i < FANOUT && t.kids[i].Hole? && b != 0
    ensures |t.kids| == FANOUT && SlotLo(f, Pow(0), i) == 0 && SlotFilled(Leaf(b), 1, f, l, i) && NoEmpty(Leaf(b))
    ensures SameTally(iBlocks, t.kids[i], iBlocks + span, Leaf(b), span)
  {
  }

  /** The node being filled is in use, so taking a block leaves it alone. */
  lemma RootKept(s0: State, s1: State, p: nat, t: Tree, b: nat, n: nat, zero: bool, span: nat)
    requires t.Node? && Held(s0.inuse, t, span) && Rep(s0.nodes, p, t) && Taken(s0, s1, b, n, zero)
    ensures p in s1.nodes && s1.nodes[p] == s0.nodes[p] && |s1.nodes[p]| == FANOUT
  {
    assert Owns(t, span, p);
  }

  /** Make sure slot i of a higher node has a metadata block. */
  method EnsureKid(sb: SbInfo, dev: Device, block: nat, height: nat, btype: BlockType, f: nat, l: nat, i: nat,
                   nodes: bool, ghost t: Tree)
    returns (ok: bool, ghost k: Tree)
    requires Ready(sb, dev, block, height, btype, t) && t.Node? && 1 < height
    requires f <= l < Pow(height) && KidOf(f, height) <= i <= KidOf(l, height) < FANOUT
    modifies sb, dev
    ensures sb.Valid() && sb.Total() == old(sb.Total()) && |sb.inuse| <= old(|sb.inuse|)
    ensures i < |t.kids|
    ensures Grown(old(Now(sb, dev)), Now(sb, dev), block, t, Node(t.blk, t.kids[i := k]), height, f, l, NumBlocks(btype))
    ensures k == t.kids[i] || (t.kids[i].Hole? && k.Node? && k.blk != 0 && k.kids == EmptyKids())
    ensures Count(k) == Count(t.kids[i]) && (NoEmpty(t.kids[i]) ==> KidsNoEmpty(k)) && (Tidy(t.kids[i]) ==> Tidy(k))
    ensures ok ==> k.Node?
    ensures !ok ==> Short(sb.inuse, sb.blockEnd, btype, nodes) && k == Hole
    ensures Clean(dev.data, t, Node(t.blk, t.kids[i := k]), height, f, NumBlocks(btype), true)
    ensures sb.numFree >= old(sb.numFree) - 1
  {
    ghost var s0, span := Now(sb, dev), NumBlocks(btype);
    SlotAt(dev.nodes, block, t, height, i);
    KidIsNode(t, height, i);
    hide Rep, Shape, Disjoint, Held, Canonical, Covered, Grown, Taken, Pow, KidOf, Count, NoEmpty, KidsNoEmpty, Tidy,
         OutOfSpace, Clean;
    k := t.kids[i];
    CleanSame(dev.data, t, height, i, f, span, true);
    ok := true;
    if dev.nodes[block][i] == 0 {
      var r := AllocBlock(sb, dev, Block4K, true, nodes);
      if r.None? {
        GrownSame(s0, block, t, height, f, l, i, span);
        return false, k;
      }
      k := Node(r.value, EmptyKids());
      NodeTaken(s0, Now(sb, dev), block, t, height, i, r.value, f, l, span);
      CleanNodeSlot(dev.data, t, height, i, r.value, f, l, span);
      dev.nodes := dev.nodes[block := SetSlot(dev.nodes[block], i, r.value)];
    } else {
      GrownSame(s0, block, t, height, f, l, i, span);
    }
  }

  lemma KidIsNode(t: Tree, h: nat, i: nat)
    requires t.Node? && Shape(t, h) && 1 < h && i < FANOUT
    ensures t.kids[i].Hole? || t.kids[i].Node?
    ensures NoEmpty(t.kids[i]) ==> KidsNoEmpty(t.kids[i])
    ensures Count(Hole) == 0
  {
    assert Shape(t.kids[i], h - 1);
  }

  lemma NodeTaken(s0: State, s1: State, p: nat, t: Tree, h: nat, i: nat, b: nat, f: nat, l: nat, span: nat)
    requires t.Node? && Shape(t, h) && Disjoint(t, span) && Held(s0.inuse, t, span) && Rep(s0.nodes, p, t) && 1 < h
    requires i < FANOUT && t.kids[i].Hole? && f <= l < Pow(h) && KidOf(f, h) <= i <= KidOf(l, h)
    requires Taken(s0, s1, b, 1, true)
    ensures p in s1.nodes && |s1.nodes[p]| == FANOUT
    ensures var k := Node(b, EmptyKids());
            && Grown(s0, s1.(nodes := s1.nodes[p := SetSlot(s1.nodes[p], i, b)]), p, t, Node(t.blk, t.kids[i := k]), h, f, l, span)
            && Count(k) == 0 && KidsNoEmpty(k) && Tidy(k)
  {
    var k := Node(b, EmptyKids());
    RootKept(s0, s1, p, t, b, 1, true, span);
    hide Rep, Disjoint, Held, Grown, Taken, Pow;
    TakenNode(s0, s1, b, h - 1, SlotLo(f, Pow(h - 1), i), SlotHi(l, Pow(h - 1), i), span);
    KidGrown(s0, s1, s1.(nodes := s1.nodes[p := SetSlot(s1.nodes[p], i, b)]), p, b, t, h, i, k, f, l, span);
    CountHoles(EmptyKids());
  }

  lemma CleanNodeSlot(d: map<nat, seq<byte>>, t: Tree, h: nat, i: nat, b: nat, f: nat, l: nat, span: nat)
    requires t.Node? && Shape(t, h) && 1 < h && i < FANOUT && t.kids[i].Hole? && b != 0
    requires f <= l < Pow(h) && KidOf(f, h) <= i <= KidOf(l, h)
    ensures Clean(d, t, Node(t.blk, t.kids[i := Node(b, EmptyKids())]), h, f, span, true)
  {
    hide Clean;
    SlotOfKid(f, l, h, i);
    CleanNode(d, b, h - 1, SlotLo(f, Pow(h - 1), i), span, true);
    CleanKid(d, t, h, i, Node(b, EmptyKids()), f, span, true);
  }

  /** Fill slot i of a higher node. */
  method FillNodeSlot(sb: SbInfo, dev: Device, pi: Inode, block: nat, height: nat, f: nat, l: nat, i: nat, zero: bool,
                      nodes: bool, ghost t: Tree)
    returns (ok: bool, ghost k: Tree)
    requires Ready(sb, dev, block, height, pi.btype, t) && t.Node? && 1 < height
    requires f <= l < Pow(height) && KidOf(f, height) <= i <= KidOf(l, height) < FANOUT
    modifies sb, dev, pi`iBlocks, pi`eofBlocks
    ensures sb.Valid() && sb.Total() == old(sb.Total())
    ensures pi.btype.Block4K? ==> |sb.inuse| <= old(|sb.inuse|)
    ensures Grown(old(Now(sb, dev)), Now(sb, dev), block, t, Node(t.blk, t.kids[i := k]), height, f, l, NumBlocks(pi.btype))
    ensures SameTally(old(pi.iBlocks), t, pi.iBlocks, Node(t.blk, t.kids[i := k]), NumBlocks(pi.btype))
    ensures ok ==> SlotFilled(k, height, f, l, i) && pi.eofBlocks == old(pi.eofBlocks)
    ensures ok ==> (NoEmpty(t.kids[i]) ==> NoEmpty(k)) && (Tidy(t.kids[i]) ==> Tidy(k))
    ensures !ok ==> Short(sb.inuse, sb.blockEnd, pi.btype, nodes)
    ensures i < |t.kids| && InOrder(t.kids[i], k, height - 1, SlotLo(f, Pow(height - 1), i))
    ensures !ok ==> Flagged(k, height - 1, SlotLo(f, Pow(height - 1), i), SlotHi(l, Pow(height - 1), i), old(pi.eofBlocks), pi.eofBlocks)
    ensures Clean(dev.data, t, Node(t.blk, t.kids[i := k]), height, f, NumBlocks(pi.btype), zero)
    ensures Spent(old(sb.numFree), sb.numFree, InSlot(f, l, Pow(height - 1), i), height, NumBlocks(pi.btype))
    decreases height, 0
  {
    hide Rep, Shape, Disjoint, Held, Canonical, Covered, Grown, SlotFilled, SameTally, Count, NoEmpty, KidsNoEmpty,
         Tidy, SlotLo, SlotHi, Short, Spent, InSlot, Pow, KidOf, Filled, OutOfSpace, Clean, Flagged,
         InOrder;
    ghost var s0, span := Now(sb, dev), NumBlocks(pi.btype);
    SlotOfKid(f, l, height, i);
    var p: nat := Pow(height - 1);
    var lo, hi := SlotLo(f, p, i), SlotHi(l, p, i);
    ghost var k1;
    ok, k1 := EnsureKid(sb, dev, block, height, pi.btype, f, l, i, nodes, t);
    OneInOrder(t, height, i, f);
    ghost var s1, t1, b0, free1 := Now(sb, dev), Node(t.blk, t.kids[i := k1]), pi.iBlocks, sb.numFree;
    TallyCount(b0, t, i, k1, span);
    SpentOnKid(old(sb.numFree), free1, f, l, p, i, height, span);
    HoleGap(height - 1, lo, hi, pi.eofBlocks);
    CleanAny(dev.data, t, t1, height, f, span, zero);
    if !ok { return false, k1; }
    SubtreeReady(s0, s1, block, t, t1, height, f, l, i, span);
    ok, k := RecursiveAllocBlocks(sb, dev, pi, dev.nodes[block][i], height - 1, lo, hi, zero, nodes, k1);
    SpentBelow(old(sb.numFree), free1, sb.numFree, f, l, p, i, height, span);
    ThroughKid(s0, s1, Now(sb, dev), block, t, height, i, k1, k, f, l, span, b0, pi.iBlocks, ok);
    CleanThrough(s0, s1, Now(sb, dev), block, t, height, i, k1, k, f, l, span, zero);
    FromEnsured(t, height, i, k1, k, lo);
  }

  /** An empty node maps as little as a hole. */
  lemma FromEnsured(t: Tree, h: nat, i: nat, k1: Tree, k: Tree, f: nat)
    requires t.Node? && Shape(t, h) && 1 < h && i < |t.kids| && InOrder(k1, k, h - 1, f)
    requires k1 == t.kids[i] || (t.kids[i].Hole? && k1.Node? && k1.kids == EmptyKids())
    ensures InOrder(t.kids[i], k, h - 1, f)
  {
    var g := h - 1;
    if k1 != t.kids[i] {
      forall j: nat | j < Pow(g) ensures Lookup(k1, g, j) == 0 {
        LookupKid(k1, g, j);
      }
    }
  }

  lemma CleanThrough(s0: State, s1: State, s2: State, p: nat, t: Tree, h: nat, i: nat, k1: Tree, k: Tree, f: nat, l: nat,
                     span: nat, zero: bool)
    requires t.Node? && 1 < h && i < |t.kids| && f <= l < Pow(h) && KidOf(f, h) <= i <= KidOf(l, h) < FANOUT
    requires Grown(s0, s1, p, t, Node(t.blk, t.kids[i := k1]), h, f, l, span)
    requires p in s1.nodes && |s1.nodes[p]| == FANOUT
    requires Grown(s1, s2, s1.nodes[p][i], k1, k, h - 1, SlotLo(f, Pow(h - 1), i), SlotHi(l, Pow(h - 1), i), span)
    requires Clean(s1.data, t, Node(t.blk, t.kids[i := k1]), h, f, span, zero)
    requires Clean(s2.data, k1, k, h - 1, SlotLo(f, Pow(h - 1), i), span, zero)
    ensures Clean(s2.data, t, Node(t.blk, t.kids[i := k]), h, f, span, zero)
  {
    var t1 := Node(t.blk, t.kids[i := k1]);
    SubtreeReady(s0, s1, p, t, t1, h, f, l, i, span);
    NodeStays(s1, s2, p, t1, h, i, k, f, l, span);
    hide Rep, Shape, Disjoint, Held, Grown, SlotLo, SlotHi, Pow, Clean;
    assert t1.kids[i := k] == t.kids[i := k];
    CleanKid(s2.data, t1, h, i, k, f, span, zero);
    CleanTrans(s0, s1, s2, p, t, t1, Node(t.blk, t.kids[i := k]), h, f, l, span, zero);
  }

  lemma SlotOfKid(f: nat, l: nat, h: nat, i: nat)
    requires 0 < h && f <= l && KidOf(f, h) <= i <= KidOf(l, h)
    ensures SlotLo(f, Pow(h - 1), i) <= SlotHi(l, Pow(h - 1), i) < Pow(h - 1)
  {
    SlotRange(f, l, Pow(h - 1), i);
  }

  /** Blocks of [f, l] that lie in slot i. */
  function InSlot(f: nat, l: nat, p: nat, i: nat): int
    requires 0 < p
  {
    SlotHi(l, p, i) - SlotLo(f, p, i) + 1
  }

  /** Mapping n file blocks below a node of height h took at most a data block and
      h - 1 metadata blocks for each. */
  ghost predicate Spent(free: int, free': int, n: int, h: nat, span: nat) {
    free' >= free - n * (span + h - 1)
  }

  lemma SpentOnKid(free: int, free': int, f: nat, l: nat, p: nat, i: nat, h: nat, span: nat)
    requires 0 < p && SlotLo(f, p, i) <= SlotHi(l, p, i) && free' >= free - 1 && 1 < h
    ensures Spent(free, free', InSlot(f, l, p, i), h, span)
  {
    MulMono(1, InSlot(f, l, p, i), span + h - 1);
  }

  lemma SpentBelow(free: int, free1: int, free2: int, f: nat, l: nat, p: nat, i: nat, h: nat, span: nat)
    requires 0 < p && SlotLo(f, p, i) <= SlotHi(l, p, i) && free1 >= free - 1 && 1 < h
    requires Spent(free1, free2, SlotHi(l, p, i) - SlotLo(f, p, i) + 1, h - 1, span)
    ensures Spent(free, free2, InSlot(f, l, p, i), h, span)
  {
    var n, c := InSlot(f, l, p, i), span + h - 2;
    assert n * (c + 1) == n * c + n;
  }

  /** Blocks of [f, l] that lie in the slots before i. */
  function Before(f: nat, l: nat, p: nat, i: nat): int
    requires 0 < p
  {
    if i <= f / p then 0 else if i > l / p then l - f + 1 else i * p - f
  }

  lemma BeforeStep(f: nat, l: nat, p: nat, i: nat)
    requires 0 < p && f <= l && f / p <= i <= l / p
    ensures Before(f, l, p, i + 1) == Before(f, l, p, i) + InSlot(f, l, p, i)
    ensures Before(f, l, p, f / p) == 0 && Before(f, l, p, l / p + 1) == l - f + 1
  {
    assert f == f / p * p + f % p && l == l / p * p + l % p;
    DivMono(f, l, p);
    assert (i + 1) * p == i * p + p;
  }

  lemma SpentStep(free: int, free1: int, free2: int, f: nat, l: nat, p: nat, i: nat, h: nat, span: nat)
    requires 0 < p && f <= l && f / p <= i <= l / p
    requires Spent(free, free1, Before(f, l, p, i), h, span) && Spent(free1, free2, InSlot(f, l, p, i), h, span)
    ensures Spent(free, free2, Before(f, l, p, i + 1), h, span)
  {
    BeforeStep(f, l, p, i);
    hide Before, InSlot;
    var a, b, c := Before(f, l, p, i), InSlot(f, l, p, i), span + h - 1;
    assert (a + b) * c == a * c + b * c;
  }

  /** At height 1 every slot is one block. */
  lemma SpentLeaf(free: int, free': int, f: nat, l: nat, i: nat, span: nat)
    requires free' >= free - span
    ensures Spent(free, free', InSlot(f, l, 1, i), 1, span)
  {
    assert InSlot(f, l, 1, i) == 1;
  }

  lemma SpentBounds(free: int, free': int, f: nat, l: nat, p: nat, i: nat, h: nat, span: nat)
    requires 0 < p && f <= l && f / p <= i <= l / p + 1 && 0 < h
    requires Spent(free, free', Before(f, l, p, i), h, span)
    ensures Spent(free, free', l - f + 1, h, span)
  {
    assert f == f / p * p + f % p && l == l / p * p + l % p;
    MulMono(i, l / p, p);
    MulMono(Before(f, l, p, i), l - f + 1, span + h - 1);
  }

  lemma TallyCount(iBlocks: int, t: Tree, i: nat, k: Tree, span: nat)
    requires t.Node? && i < |t.kids| && Count(k) == Count(t.kids[i])
    ensures SameTally(iBlocks, t, iBlocks, Node(t.blk, t.kids[i := k]), span)
  {
    TallyKid(iBlocks, iBlocks, t, i, k, span);
  }

  lemma SubtreeReady(s0: State, s1: State, p: nat, t: Tree, t1: Tree, h: nat, f: nat, l: nat, i: nat, span: nat)
    requires Grown(s0, s1, p, t, t1, h, f, l, span) && t1.Node? && i < FANOUT
    ensures Shape(t1, h) && Disjoint(t1, span) && Held(s1.inuse, t1, span) && Rep(s1.nodes, p, t1)
    ensures p in s1.nodes && |s1.nodes[p]| == |t1.kids| == FANOUT && Rep(s1.nodes, s1.nodes[p][i], t1.kids[i])
    ensures Shape(t1.kids[i], h - 1) && Disjoint(t1.kids[i], span) && Held(s1.inuse, t1.kids[i], span)
  {
    forall b | Owns(t1.kids[i], span, b) ensures InUse(s1.inuse, b) {
      assert OwnedByKid(t1.kids, span, b);
      assert Owns(t1, span, b);
    }
  }

  /** The subtree below slot i, ensured as k1, has grown to k. */
  lemma ThroughKid(s0: State, s1: State, s2: State, p: nat, t: Tree, h: nat, i: nat, k1: Tree, k: Tree,
                   f: nat, l: nat, span: nat, b0: int, b2: int, ok: bool)
    requires t.Node? && 1 < h && i < |t.kids| && f <= l < Pow(h) && KidOf(f, h) <= i <= KidOf(l, h) < FANOUT
    requires Grown(s0, s1, p, t, Node(t.blk, t.kids[i := k1]), h, f, l, span)
    requires p in s1.nodes && |s1.nodes[p]| == FANOUT
    requires Grown(s1, s2, s1.nodes[p][i], k1, k, h - 1, SlotLo(f, Pow(h - 1), i), SlotHi(l, Pow(h - 1), i), span)
    requires SameTally(b0, t, b0, Node(t.blk, t.kids[i := k1]), span) && SameTally(b0, k1, b2, k, span)
    requires ok ==> Filled(k, h - 1, SlotLo(f, Pow(h - 1), i), SlotHi(l, Pow(h - 1), i))
    ensures Grown(s0, s2, p, t, Node(t.blk, t.kids[i := k]), h, f, l, span)
    ensures SameTally(b0, t, b2, Node(t.blk, t.kids[i := k]), span)
    ensures ok ==> SlotFilled(k, h, f, l, i)
  {
    var t1 := Node(t.blk, t.kids[i := k1]);
    hide Filled, SameTally;
    SubtreeReady(s0, s1, p, t, t1, h, f, l, i, span);
    NodeStays(s1, s2, p, t1, h, i, k, f, l, span);
    hide Rep, Shape, Disjoint, Held, Grown, SlotLo, SlotHi, Pow;
    assert t1.kids[i := k] == t.kids[i := k];
    GrownTrans(s0, s1, s2, p, t, t1, Node(t.blk, t.kids[i := k]), h, f, l, span);
    TallyKid(b0, b2, t1, i, k, span);
    TallyTrans(b0, t, b0, t1, b2, Node(t.blk, t.kids[i := k]), span);
  }

  lemma TallyRefl(iBlocks: int, t: Tree, span: nat)
    ensures SameTally(iBlocks, t, iBlocks, t, span)
  {
  }

  lemma TallyTrans(b0: int, t0: Tree, b1: int, t1: Tree, b2: int, t2: Tree, span: nat)
    requires SameTally(b0, t0, b1, t1, span) && SameTally(b1, t1, b2, t2, span)
    ensures SameTally(b0, t0, b2, t2, span)
  {
  }

  /** Growing below an existing pointer needs no write to the node. */
  lemma NodeStays(s1: State, s2: State, p: nat, t: Tree, h: nat, i: nat, k: Tree, f: nat, l: nat, span: nat)
    requires t.Node? && Shape(t, h) && Disjoint(t, span) && Held(s1.inuse, t, span) && Rep(s1.nodes, p, t)
    requires i < FANOUT && f <= l < Pow(h) && KidOf(f, h) <= i <= KidOf(l, h)
    requires Grown(s1, s2, s1.nodes[p][i], t.kids[i], k, h - 1, SlotLo(f, Pow(h - 1), i), SlotHi(l, Pow(h - 1), i), span)
    ensures Grown(s1, s2, p, t, Node(t.blk, t.kids[i := k]), h, f, l, span)
  {
    assert Owns(t, span, p);
    assert !Owns(k, span, p);
    assert p in s2.nodes && s2.nodes[p] == s1.nodes[p];
    assert SetSlot(s2.nodes[p], i, s1.nodes[p][i]) == s2.nodes[p];
    hide Grown, Shape, Disjoint, Held, Rep;
    assert s2 == s2.(nodes := s2.nodes[p := SetSlot(s2.nodes[p], i, s1.nodes[p][i])]);
    KidGrown(s1, s2, s2, p, s1.nodes[p][i], t, h, i, k, f, l, span);
  }

  /** recursive_alloc_blocks */
  method RecursiveAllocBlocks(sb: SbInfo, dev: Device, pi: Inode, block: nat, height: nat, f: nat, l: nat, zero: bool,
                              nodes: bool, ghost t: Tree)
    returns (ok: bool, ghost t': Tree)
    requires Ready(sb, dev, block, height, pi.btype, t) && t.Node? && f <= l < Pow(height)
    modifies sb, dev, pi`iBlocks, pi`eofBlocks
    ensures sb.Valid() && sb.Total() == old(sb.Total())
    ensures pi.btype.Block4K? ==> |sb.inuse| <= old(|sb.inuse|)
    ensures Grown(old(Now(sb, dev)), Now(sb, dev), block, t, t', height, f, l, NumBlocks(pi.btype))
    ensures SameTally(old(pi.iBlocks), t, pi.iBlocks, t', NumBlocks(pi.btype)) && t'.Node?
    ensures ok ==> Filled(t', height, f, l) && pi.eofBlocks == old(pi.eofBlocks)
    ensures ok ==> (KidsNoEmpty(t) ==> NoEmpty(t')) && (Tidy(t) ==> Tidy(t'))
    ensures !ok ==> Short(sb.inuse, sb.blockEnd, pi.btype, nodes) && Flagged(t', height, f, l, old(pi.eofBlocks), pi.eofBlocks)
    ensures Clean(dev.data, t, t', height, f, NumBlocks(pi.btype), zero) && InOrder(t, t', height, f)
    ensures Spent(old(sb.numFree), sb.numFree, l - f + 1, height, NumBlocks(pi.btype))
    decreases height, 1
  {
    hide Rep, Shape, Disjoint, Held, Canonical, Covered, Grown, Filled, SameTally, Count, NoEmpty, KidsNoEmpty, Tidy,
         Pow, SlotsFilled, Short, Spent, Before, InSlot, Clean, Flagged, InOrder;
    ghost var s0, span := Now(sb, dev), NumBlocks(pi.btype);
    GrownRefl(s0, block, t, height, f, l, span);
    RangeOfKids(t, height, f, l);
    var first, last := KidOf(f, height), KidOf(l, height);
    t' := t;
    SlotsStart(t, height, f, l, first);
    CleanRefl(dev.data, t, height, f, span, zero);
    InOrderSame(t, t, height, f);
    TallyRefl(pi.iBlocks, t, span);
    ghost var p := Pow(height - 1);
    NothingSpent(sb.numFree, f, l, p, height, span);
    var i := first;
    while i <= last
      invariant first <= i <= last + 1 <= FANOUT && t'.Node? && sb.Valid() && sb.Total() == old(sb.Total())
      invariant pi.btype.Block4K? ==> |sb.inuse| <= old(|sb.inuse|)
      invariant Grown(s0, Now(sb, dev), block, t, t', height, f, l, span)
      invariant SameTally(old(pi.iBlocks), t, pi.iBlocks, t', span)
      invariant SlotsFilled(t', height, f, l, first, i) && (KidsNoEmpty(t) ==> KidsNoEmpty(t')) && (Tidy(t) ==> Tidy(t'))
      invariant Clean(dev.data, t, t', height, f, span, zero) && InOrder(t, t', height, f)
      invariant pi.eofBlocks == old(pi.eofBlocks) && Spent(old(sb.numFree), sb.numFree, Before(f, l, p, i), height, span)
    {
      ghost var s1, b1, t1, free1 := Now(sb, dev), pi.iBlocks, t', sb.numFree;
      SubtreeReady(s0, s1, block, t, t1, height, f, l, i, span);
      ghost var k;
      if height == 1 {
        ok, k := FillLeafSlot(sb, dev, pi, block, f, l, i, zero, nodes, t');
        SpentLeaf(free1, sb.numFree, f, l, i, span);
        UnitPow();
      } else {
        ok, k := FillNodeSlot(sb, dev, pi, block, height, f, l, i, zero, nodes, t');
      }
      t' := Node(t1.blk, t1.kids[i := k]);
      GrownTrans(s0, s1, Now(sb, dev), block, t, t1, t', height, f, l, span);
      TallyTrans(old(pi.iBlocks), t, b1, t1, pi.iBlocks, t', span);
      SpentStep(old(sb.numFree), free1, sb.numFree, f, l, p, i, height, span);
      SpentBounds(old(sb.numFree), sb.numFree, f, l, p, i + 1, height, span);
      CleanTrans(s0, s1, Now(sb, dev), block, t, t1, t', height, f, l, span, zero);
      OrderStep(s1, Now(sb, dev), block, t, t1, height, f, l, first, i, k, span);
      if !ok {
        SubtreeReady(s0, Now(sb, dev), block, t, t', height, f, l, i, span);
        StoppedAt(t1, height, f, l, first, i, k, old(pi.eofBlocks), pi.eofBlocks);
        return;
      }
      SlotsStep(t1, height, f, l, first, i, k);
      i := i + 1;
    }
    SlotsEnd(t', height, f, l, first, last);
    SpentBounds(old(sb.numFree), sb.numFree, f, l, p, i, height, span);
    ok := true;
  }

  /** Slot i is filled in order, and those before it have no gap. */
  lemma OrderStep(s1: State, s2: State, p: nat, t: Tree, t1: Tree, h: nat, f: nat, l: nat, first: nat, i: nat, k: Tree,
                  span: nat)
    requires SlotsFilled(t1, h, f, l, first, i) && h > 0 && f <= l < Pow(h)
    requires first == KidOf(f, h) <= i <= KidOf(l, h) < FANOUT
    requires Grown(s1, s2, p, t1, Node(t1.blk, t1.kids[i := k]), h, f, l, span)
    requires InOrder(t, t1, h, f) && InOrder(t1.kids[i], k, h - 1, SlotLo(f, Pow(h - 1), i))
    ensures InOrder(t, Node(t1.blk, t1.kids[i := k]), h, f)
  {
    var t' := Node(t1.blk, t1.kids[i := k]);
    assert forall j: nat :: j < Pow(h) && Lookup(t1, h, j) != 0 ==> Lookup(t', h, j) != 0;
    forall j: nat | f <= j < Pow(h) && j / Pow(h - 1) < i ensures Lookup(t1, h, j) != 0 {
      FilledBefore(t1, h, f, l, first, i, j);
    }
    hide Grown, Lookup, InOrder, Shape;
    InOrderKid(t1, h, f, i, k);
    InOrderTrans(t, t1, t', h, f);
  }

  lemma FilledBefore(t: Tree, h: nat, f: nat, l: nat, first: nat, i: nat, j: nat)
    requires SlotsFilled(t, h, f, l, first, i) && h > 0 && f <= l < Pow(h)
    requires first == KidOf(f, h) <= i <= KidOf(l, h) < FANOUT
    requires f <= j < Pow(h) && j / Pow(h - 1) < i
    ensures Lookup(t, h, j) != 0
  {
    var p := Pow(h - 1);
    DivMono(f, j, p);
    if l < j { DivMono(l, j, p); }
    LookupKid(t, h, j);
    SlotSplit(f, l, p, j);
    assert SlotFilled(t.kids[KidOf(j, h)], h, f, l, KidOf(j, h));
  }

  /** The slots before i are filled, and slot i is where the allocation stopped. */
  lemma StoppedAt(t: Tree, h: nat, f: nat, l: nat, first: nat, i: nat, k: Tree, was: bool, now: bool)
    requires SlotsFilled(t, h, f, l, first, i) && h > 0 && f <= l < Pow(h)
    requires first == KidOf(f, h) <= i <= KidOf(l, h) < FANOUT
    requires Shape(k, h - 1)
    requires if h == 1 then k == Hole && now
             else Flagged(k, h - 1, SlotLo(f, Pow(h - 1), i), SlotHi(l, Pow(h - 1), i), was, now)
    ensures Flagged(Node(t.blk, t.kids[i := k]), h, f, l, was, now)
  {
    var t' := Node(t.blk, t.kids[i := k]);
    var lo, hi := SlotLo(f, Pow(h - 1), i), SlotHi(l, Pow(h - 1), i);
    SlotOfKid(f, l, h, i);
    forall j: nat | f <= j <= l && KidOf(j, h) < i ensures Lookup(t', h, j) != 0 {
      LookupKid(t', h, j);
      SlotSplit(f, l, Pow(h - 1), j);
      DivMono(f, j, Pow(h - 1));
      assert SlotFilled(t.kids[KidOf(j, h)], h, f, l, KidOf(j, h));
    }
    var g: nat;
    if h == 1 {
      HoleGap(0, lo, hi, was);
      g := lo;
    } else {
      g :| FirstGap(k, h - 1, lo, hi, g) && (now <==> was || (hi < Pow(h - 1) && HasSlotFor(k, h - 1, g)));
    }
    hide Lookup, FirstGap, HasSlotFor, Shape;
    KidGap(t', h, f, l, i, g);
  }

  lemma UnitPow()
    ensures Pow(0) == 1
  {
  }

  lemma NothingSpent(free: int, f: nat, l: nat, p: nat, h: nat, span: nat)
    requires 0 < p
    ensures Spent(free, free, Before(f, l, p, f / p), h, span)
  {
  }

  ghost predicate SlotsFilled(t: Tree, h: nat, f: nat, l: nat, first: nat, i: nat) {
    t.Node? && Shape(t, h) && i <= FANOUT && forall j :: first <= j < i ==> SlotFilled(t.kids[j], h, f, l, j)
  }

  lemma SlotsStart(t: Tree, h: nat, f: nat, l: nat, first: nat)
    requires t.Node? && Shape(t, h) && first <= FANOUT
    ensures SlotsFilled(t, h, f, l, first, first)
  {
  }

  lemma SlotsStep(t: Tree, h: nat, f: nat, l: nat, first: nat, i: nat, k: Tree)
    requires SlotsFilled(t, h, f, l, first, i) && first <= i < FANOUT && SlotFilled(k, h, f, l, i)
    ensures SlotsFilled(Node(t.blk, t.kids[i := k]), h, f, l, first, i + 1)
    ensures KidsNoEmpty(t) ==> NoEmpty(t.kids[i])
    ensures KidsNoEmpty(t) && NoEmpty(k) ==> KidsNoEmpty(Node(t.blk, t.kids[i := k]))
    ensures Tidy(t) && (NoEmpty(t.kids[i]) ==> NoEmpty(k)) && (Tidy(t.kids[i]) ==> Tidy(k)) ==> Tidy(Node(t.blk, t.kids[i := k]))
  {
  }

  lemma SlotsEnd(t: Tree, h: nat, f: nat, l: nat, first: nat, last: nat)
    requires SlotsFilled(t, h, f, l, first, last + 1) && f <= l < Pow(h) && first == KidOf(f, h) && last == KidOf(l, h)
    ensures Filled(t, h, f, l) && (KidsNoEmpty(t) ==> NoEmpty(t))
  {
    forall i: nat | f <= i <= l && i < Pow(h) ensures Lookup(t, h, i) != 0 {
      LookupKid(t, h, i);
      SlotSplit(f, l, Pow(h - 1), i);
      assert SlotFilled(t.kids[KidOf(i, h)], h, f, l, KidOf(i, h));
    }
    assert Lookup(t, h, f) != 0;
    LookupKid(t, h, f);
    assert !t.kids[KidOf(f, h)].Hole?;
  }

  // ---------------------------------------------------------------- raising

  /** t under a new root b, as its first kid. */
  function Wrap(b: nat, t: Tree): Tree { Node(b, EmptyKids()[0 := t]) }

  /** From s to s', tree t was put under zero or more new roots. */
  ghost predicate Raised(s: State, s': State, p': nat, t: Tree, h: nat, t': Tree, h': nat, span: nat) {
    && Shape(t, h) && Shape(t', h') && h <= h'
    && (forall i :: 0 <= i ==> FullLookup(t', h', i) == FullLookup(t, h, i))
    && Gained(s.inuse, s'.inuse, t, t', span)
    && NodesKept(s.nodes, s'.nodes, t', span) && DataKept(s.data, s'.data, s.inuse)
    && Disjoint(t', span) && Held(s'.inuse, t', span) && Rep(s'.nodes, p', t')
    && Count(t') == Count(t) && (Tidy(t) ==> Tidy(t'))
    && (!t.Hole? && NoEmpty(t) ==> NoEmpty(t')) && (t.Hole? && h == 0 ==> FullSpine(t', h')) && (t'.Hole? ==> t.Hole? && h' == h)
    && Under(t, h, t', h')
  }

  /** The leftmost path has a node at every height above 0. */
  predicate FullSpine(t: Tree, h: nat)
    requires Shape(t, h)
  {
    h > 0 ==> t.Node? && FullSpine(t.kids[0], h - 1)
  }

  lemma RaisedRefl(s: State, p: nat, t: Tree, h: nat, span: nat)
    requires Shape(t, h) && Disjoint(t, span) && Held(s.inuse, t, span) && Rep(s.nodes, p, t)
    ensures Raised(s, s, p, t, h, t, h, span)
  {
  }

  lemma WrapTree(b: nat, t: Tree, h: nat, span: nat)
    requires Shape(t, h) && b != 0
    ensures Shape(Wrap(b, t), h + 1) && Count(Wrap(b, t)) == Count(t)
    ensures forall x :: Owns(Wrap(b, t), span, x) <==> x == b || Owns(t, span, x)
    ensures Tidy(t) ==> Tidy(Wrap(b, t))
    ensures !t.Hole? && NoEmpty(t) ==> NoEmpty(Wrap(b, t))
    ensures FullSpine(t, h) ==> FullSpine(Wrap(b, t), h + 1)
  {
    var w := Wrap(b, t);
    assert w.kids[0] == t && forall j :: 0 < j < FANOUT ==> w.kids[j] == Hole;
    forall x ensures Owns(w, span, x) <==> x == b || Owns(t, span, x) { OnlyFirstKidOwns(w, span, x); }
    OnlyFirstKidOwns(w, span, 0);
    assert !t.Hole? ==> !w.kids[0].Hole?;
  }

  lemma WrapUnder(b: nat, t: Tree, h: nat, t1: Tree, h1: nat)
    requires Under(t, h, t1, h1) && h <= h1
    ensures Under(t, h, Wrap(b, t1), h1 + 1)
  {
  }

  lemma WrapDisjoint(b: nat, t: Tree, span: nat)
    requires Disjoint(t, span) && !Owns(t, span, b)
    ensures Disjoint(Wrap(b, t), span)
  {
    var w := Wrap(b, t);
    forall j | 0 <= j < |w.kids| ensures Disjoint(w.kids[j], span) && !Owns(w.kids[j], span, b) {
      assert w.kids[j] == if j == 0 then t else Hole;
    }
  }

  lemma WrapLookup(b: nat, t: Tree, h: nat, i: nat)
    requires Shape(t, h) && b != 0 && Shape(Wrap(b, t), h + 1)
    ensures FullLookup(Wrap(b, t), h + 1, i) == FullLookup(t, h, i)
  {
    var w := Wrap(b, t);
    if i < Pow(h + 1) {
      LookupKid(w, h + 1, i);
      if i < Pow(h) { KidIndex(w, h + 1, 0, i); } else { DivMono(Pow(h), i, Pow(h)); DivModUnique(Pow(h), Pow(h), 1, 0); }
    }
  }

  lemma RaiseStep(s0: State, s1: State, s2: State, s3: State, p: nat, t: Tree, h: nat, t1: Tree, h1: nat, b: nat, span: nat)
    requires Raised(s0, s1, p, t, h, t1, h1, span) && Taken(s1, s2, b, 1, true)
    requires s3 == s2.(nodes := s2.nodes[b := SetSlot(ZeroNode(), 0, p)])
    ensures Raised(s0, s3, b, t, h, Wrap(b, t1), h1 + 1, span)
  {
    hide Rep, Shape, Disjoint, Tidy, NoEmpty, FullSpine, Count, Lookup, Wrap, FullLookup, Owns, Taken, Gained,
         NodesKept, DataKept, SetSlot, ZeroNode;
    var w := Wrap(b, t1);
    TakenNotOwned(s1, s2, b, 1, true, t1, span);
    WrapTree(b, t1, h1, span);
    WrapDisjoint(b, t1, span);
    forall i: nat ensures FullLookup(w, h1 + 1, i) == FullLookup(t, h, i) { WrapLookup(b, t1, h1, i); }
    WrapUnder(b, t, h, t1, h1);
    WrapRep(s1, s2, s3, p, t1, b, span);
    WrapGained(s0, s1, s2, s3, t, t1, w, b, span);
  }

  lemma WrapGained(s0: State, s1: State, s2: State, s3: State, t: Tree, t1: Tree, w: Tree, b: nat, span: nat)
    requires Gained(s0.inuse, s1.inuse, t, t1, span) && Taken(s1, s2, b, 1, true)
    requires NodesKept(s0.nodes, s1.nodes, t1, span) && DataKept(s0.data, s1.data, s0.inuse)
    requires s3.inuse == s2.inuse && s3.data == s2.data && forall x :: x in s2.nodes && x != b ==> x in s3.nodes && s3.nodes[x] == s2.nodes[x]
    requires forall x :: Owns(w, span, x) <==> x == b || Owns(t1, span, x)
    ensures Gained(s0.inuse, s3.inuse, t, w, span) && Held(s3.inuse, w, span)
    ensures NodesKept(s0.nodes, s3.nodes, w, span) && DataKept(s0.data, s3.data, s0.inuse)
  {
    assert RangeFree(s1.inuse, b, b);
  }

  lemma WrapRep(s1: State, s2: State, s3: State, p: nat, t1: Tree, b: nat, span: nat)
    requires Rep(s1.nodes, p, t1) && Taken(s1, s2, b, 1, true) && !Owns(t1, span, b)
    requires s3 == s2.(nodes := s2.nodes[b := SetSlot(ZeroNode(), 0, p)])
    ensures Rep(s3.nodes, b, Wrap(b, t1))
  {
    RepFrame(s1.nodes, s3.nodes, p, t1, span);
  }

  /** One turn of the loop of pmfs_increase_btree_height. */
  method RaiseOnce(sb: SbInfo, dev: Device, prevRoot: nat, ghost s0: State, ghost t: Tree, ghost h0: nat, ghost t1: Tree,
                   ghost h: nat, ghost span: nat)
    returns (r: Option<nat>)
    requires sb.Valid() && Raised(s0, Now(sb, dev), prevRoot, t, h0, t1, h, span)
    modifies sb, dev
    ensures sb.Valid() && sb.Total() == old(sb.Total()) && |sb.inuse| <= old(|sb.inuse|)
    ensures r.None? ==> Now(sb, dev) == old(Now(sb, dev))
    ensures r.Some? ==> Raised(s0, Now(sb, dev), r.value, t, h0, Wrap(r.value, t1), h + 1, span)
    ensures r.None? ==> OutOfSpace(sb.inuse, sb.blockEnd, Block4K)
    ensures sb.numFree >= old(sb.numFree) - 1
  {
    hide Raised, Taken, Canonical, Covered, Wrap, OutOfSpace;
    ghost var s1 := Now(sb, dev);
    r := AllocBlock(sb, dev, Block4K, true, false);
    if r.Some? {
      ghost var s2 := Now(sb, dev);
      dev.nodes := dev.nodes[r.value := SetSlot(ZeroNode(), 0, prevRoot)];
      RaiseStep(s0, s1, s2, Now(sb, dev), prevRoot, t, h0, t1, h, r.value, span);
    }
  }

  /** pmfs_increase_btree_height */
  method IncreaseHeight(sb: SbInfo, dev: Device, pi: Inode, newHeight: nat, ghost t: Tree) returns (ok: bool, ghost t': Tree)
    requires Ready(sb, dev, pi.root, pi.height, pi.btype, t) && pi.height <= newHeight
    modifies sb, dev, pi`root, pi`height
    ensures sb.Valid() && sb.Total() == old(sb.Total()) && |sb.inuse| <= old(|sb.inuse|)
    ensures Raised(old(Now(sb, dev)), Now(sb, dev), pi.root, t, old(pi.height), t', pi.height, NumBlocks(pi.btype))
    ensures old(pi.height) <= pi.height <= newHeight && (ok <==> pi.height == newHeight)
    ensures !ok ==> OutOfSpace(sb.inuse, sb.blockEnd, Block4K)
    ensures sb.numFree >= old(sb.numFree) - (pi.height - old(pi.height))
  {
    hide OutOfSpace, Raised, Rep, Shape, Disjoint, Held, Canonical, Covered, Wrap;
    ghost var s0, span, h0 := Now(sb, dev), NumBlocks(pi.btype), pi.height;
    RaisedRefl(s0, pi.root, t, h0, span);
    var h: nat, prevRoot := pi.height, pi.root;
    t', ok := t, true;
    while h < newHeight
      invariant ok && h0 <= h <= newHeight && sb.Valid() && sb.Total() == old(sb.Total()) && |sb.inuse| <= old(|sb.inuse|)
      invariant Raised(s0, Now(sb, dev), prevRoot, t, h0, t', h, span) && sb.numFree >= old(sb.numFree) - (h - h0)
    {
      var r := RaiseOnce(sb, dev, prevRoot, s0, t, h0, t', h, span);
      if r.None? {
        ok := false;
        break;
      }
      t', prevRoot, h := Wrap(r.value, t'), r.value, h + 1;
    }
    pi.root, pi.height := prevRoot, h;
  }

  // ---------------------------------------------------------------- allocating a range

  /** The height computation of __pmfs_alloc_blocks. */
  method GrownHeight(last: nat, h: nat) returns (h': nat)
    ensures last < Pow(h') && h <= h'
    ensures h' == h || LeastHeight(last, h')
  {
    h' := h;
    if last > Pow(h) - 1 {
      var total := last / Pow(h);
      while total > 0
        invariant h <= h' && total == last / Pow(h') && (h < h' ==> Pow(h' - 1) <= last)
        invariant h' == h ==> total > 0
        decreases total
      {
        DivDiv(last, Pow(h'), FANOUT);
        total := total / FANOUT;
        h' := h' + 1;
      }
      SlotBelow(Pow(h'), last, Pow(h'));
    }
  }

  /** From s to s', the inode's tree grew from t to t', gaining file blocks of
      [f, l] only. */
  ghost predicate Enlarged(s: State, s': State, t: Tree, h: nat, t': Tree, h': nat, f: nat, l: nat, span: nat) {
    && Shape(t, h) && Shape(t', h') && h <= h'
    && (forall i :: 0 <= i ==> FullLookup(t', h', i) == FullLookup(t, h, i) || (FullLookup(t, h, i) == 0 && f <= i <= l))
    && Gained(s.inuse, s'.inuse, t, t', span) && NodesKept(s.nodes, s'.nodes, t', span) && DataKept(s.data, s'.data, s.inuse)
  }

  lemma RaisedThenGrown(s0: State, s1: State, s2: State, p: nat, t: Tree, h: nat, t1: Tree, t2: Tree, h': nat, f: nat,
                        l: nat, span: nat)
    requires Raised(s0, s1, p, t, h, t1, h', span) && Grown(s1, s2, p, t1, t2, h', f, l, span)
    ensures Enlarged(s0, s2, t, h, t2, h', f, l, span)
    ensures Shape(t2, h') && Disjoint(t2, span) && Held(s2.inuse, t2, span) && Rep(s2.nodes, p, t2)
    ensures t.Hole? && h == 0 ==> FullSpine(t2, h')
  {
    forall i: nat ensures FullLookup(t2, h', i) == FullLookup(t, h, i) || (FullLookup(t, h, i) == 0 && f <= i <= l) {
      assert FullLookup(t1, h', i) == FullLookup(t, h, i);
    }
    if t.Hole? && h == 0 { SpineKept(t1, t2, h'); }
    hide Rep, Shape, Disjoint, FullSpine, Extends, Tidy, NoEmpty, Count, Lookup;
    GainedTrans(s0.inuse, s1.inuse, s2.inuse, t, t1, t2, span);
    NodesKeptTrans(s0.nodes, s1.nodes, s2.nodes, t1, t2, span);
    DataKeptTrans(s0.data, s1.data, s2.data, s0.inuse, s1.inuse);
  }

  lemma RaisedIsEnlarged(s0: State, s1: State, p: nat, t: Tree, h: nat, t1: Tree, h': nat, f: nat, l: nat, span: nat)
    requires Raised(s0, s1, p, t, h, t1, h', span)
    ensures Enlarged(s0, s1, t, h, t1, h', f, l, span)
    ensures Shape(t1, h') && Disjoint(t1, span) && Held(s1.inuse, t1, span) && Rep(s1.nodes, p, t1)
    ensures Count(t1) == Count(t) && (t1.Hole? ==> t.Hole? && h' == h) && (Tidy(t) ==> Tidy(t1))
    ensures !t.Hole? && NoEmpty(t) ==> NoEmpty(t1)
  {
  }

  lemma {:induction false} SpineKept(t: Tree, t': Tree, h: nat)
    requires Shape(t, h) && Shape(t', h) && Keeps(t, t') && FullSpine(t, h)
    ensures FullSpine(t', h)
    decreases h
  {
    if h == 0 {
    } else {
      assert Shape(t.kids[0], h - 1) && Shape(t'.kids[0], h - 1);
      SpineKept(t.kids[0], t'.kids[0], h - 1);
    }
  }

  /** With a full leftmost path, its last node is empty exactly when none of
      the first FANOUT file blocks is mapped. */
  lemma {:induction false} SpineReachIff(t: Tree, h: nat)
    requires Shape(t, h) && FullSpine(t, h) && h > 0
    ensures SpineReach(t, h) == if Unmapped(t, h, 0, FANOUT) then FANOUT else 0
    decreases h
  {
    assert Pow(1) == FANOUT by { assert Pow(0) == 1; }
    assert Shape(t.kids[0], h - 1);
    PowMono(1, h);
    if h == 1 {
      forall i: nat | i < FANOUT ensures Lookup(t, h, i) == 0 <==> t.kids[i].Hole? {
        LookupKid(t, h, i);
        assert Shape(t.kids[i], 0);
      }
    } else {
      PowMono(1, h - 1);
      SpineReachIff(t.kids[0], h - 1);
      var g: nat := h - 1;
      forall i: nat | i < FANOUT ensures Lookup(t, h, i) == Lookup(t.kids[0], g, i) { KidIndex(t, h, 0, i); }
    }
  }

  /** File block l is out of reach of a tree of height h and of any of height 3. */
  predicate TooFar(l: nat, h: nat) { Pow(h) <= l && Pow(3) <= l }

  /** More device blocks than mapping n file blocks can take: a data block and two
      metadata blocks for each, and three new roots. */
  function Enough(n: int, h: nat, span: nat): int {
    n * (span + if h < 3 then 2 else h - 1) + 3
  }

  /** __pmfs_alloc_blocks: map `num` 4K blocks from `fileBlock` on.  Trees are
      capped at height 3.  It fails only for want of height or of space, and a
      caller can tell beforehand that there is enough of both. */
  method AllocBlocks(sb: SbInfo, dev: Device, pi: Inode, fileBlock: nat, num: nat, zero: bool, nodes: bool, ghost t: Tree)
    returns (ok: bool, ghost t': Tree)
    requires HasTree(sb, dev, pi, t) && 0 < num
    modifies sb, dev, pi`root, pi`height, pi`iBlocks, pi`eofBlocks
    ensures sb.Valid() && sb.Total() == old(sb.Total())
    ensures pi.btype.Block4K? ==> |sb.inuse| <= old(|sb.inuse|)
    ensures HasTree(sb, dev, pi, t')
    ensures var n := NumBlocks(pi.btype);
            Allocated(old(Now(sb, dev)), Now(sb, dev), old(pi.iBlocks), pi.iBlocks, t, old(pi.height), t', pi.height,
                      fileBlock / n, (fileBlock + num - 1) / n, n, ok)
    ensures ok ==> pi.eofBlocks == old(pi.eofBlocks)
    ensures var n := NumBlocks(pi.btype);
            && Traceless(dev.data, t, old(pi.height), t', pi.height, fileBlock / n, n, zero)
            && InTurn(t, old(pi.height), t', pi.height, fileBlock / n)
            && (!ok ==> Flagged(t', pi.height, fileBlock / n, (fileBlock + num - 1) / n, old(pi.eofBlocks), pi.eofBlocks))
    ensures var l := (fileBlock + num - 1) / NumBlocks(pi.btype);
            && (TooFar(l, old(pi.height)) ==> !ok && Now(sb, dev) == old(Now(sb, dev)))
            && (!ok && !TooFar(l, old(pi.height)) ==> Short(sb.inuse, sb.blockEnd, pi.btype, nodes))
    ensures var n := NumBlocks(pi.btype);
            sb.numFree >= old(sb.numFree) - Enough((fileBlock + num - 1) / n - fileBlock / n + 1, old(pi.height), n)
    ensures pi.btype.Block4K? && old(sb.inuse) != [] && Spare(old(sb.inuse), sb.blockEnd) > Enough(num, old(pi.height), 1) ==>
              (ok <==> !TooFar(fileBlock + num - 1, old(pi.height)))
  {
    hide Rep, Shape, Disjoint, Held, Canonical, Covered, Grown, Raised, Allocated, SameTally, Pow, Count, LeastHeight,
         Short, Spent, OutOfSpace, Enough, TooFar, Traceless, Flagged, InTurn;
    var n := NumBlocks(pi.btype);
    var f, l := fileBlock / n, (fileBlock + num - 1) / n;
    DivMono(fileBlock, fileBlock + num - 1, n);
    ghost var s0, h0, b0 := Now(sb, dev), pi.height, pi.iBlocks;
    var height := GrownHeight(l, pi.height);
    HeightReach(l, h0, height);
    CostOf(sb.numFree, l - f + 1, h0, height, n);
    CostOf(sb.numFree, num, h0, height, 1);
    t' := t;
    NothingAllocated(s0, pi.root, b0, t, h0, f, l, n);
    TracelessRefl(dev.data, t, h0, f, n, zero);
    InTurnRefl(t, h0, f);
    if height > pi.height && height > 3 {
      BeyondReach(l, h0, height);
      NotHighEnough(t, h0, f, l, pi.eofBlocks);
      return false, t;
    }
    ok, t' := GrowTree(sb, dev, pi, height, f, l, zero, nodes, t);
    AllocatedGains(s0, Now(sb, dev), b0, pi.iBlocks, t, h0, t', pi.height, f, l, n, ok);
    EnoughSpace(s0.inuse, sb.inuse, sb.blockStart, sb.blockEnd, old(sb.numFree), sb.numFree, pi.btype, nodes,
                Enough(num, h0, 1), t, t', n);
  }

  /** What the call leaves besides what it maps: raised by bare roots, the tree has
      nothing new before f, and new data blocks hold zeros if that was asked for. */
  ghost predicate Traceless(d: map<nat, seq<byte>>, t: Tree, h: nat, t': Tree, h': nat, f: nat, span: nat, zero: bool) {
    && Shape(t, h) && Shape(t', h') && GrewFrom(t, h, t', h', f)
    && (zero ==> forall i: nat :: FullLookup(t, h, i) == 0 && FullLookup(t', h', i) != 0 ==> ZeroAt(d, FullLookup(t', h', i), span))
  }

  lemma TracelessRefl(d: map<nat, seq<byte>>, t: Tree, h: nat, f: nat, span: nat, zero: bool)
    requires Shape(t, h)
    ensures Traceless(d, t, h, t, h, f, span, zero)
  {
    SameBeforeRefl(t, h, f);
    assert Under(t, h, t, h);
  }

  lemma TracelessRaised(s0: State, s1: State, d: map<nat, seq<byte>>, p: nat, t: Tree, h: nat, t1: Tree, t2: Tree, h': nat,
                        f: nat, span: nat, zero: bool)
    requires Raised(s0, s1, p, t, h, t1, h', span) && Clean(d, t1, t2, h', f, span, zero)
    ensures Traceless(d, t, h, t2, h', f, span, zero)
  {
    assert Under(t, h, t1, h') && SameBefore(t1, t2, h', f);
    if zero {
      forall i: nat | FullLookup(t, h, i) == 0 && FullLookup(t2, h', i) != 0 ensures ZeroAt(d, FullLookup(t2, h', i), span) {
        assert FullLookup(t1, h', i) == FullLookup(t, h, i);
      }
    }
  }

  lemma TurnRaised(s0: State, s1: State, p: nat, t: Tree, h: nat, t1: Tree, t2: Tree, h': nat, f: nat, span: nat)
    requires Raised(s0, s1, p, t, h, t1, h', span) && InOrder(t1, t2, h', f)
    ensures InTurn(t, h, t2, h', f)
  {
    hide Lookup, Shape, FullLookup;
    InTurnRaised(t, h, t1, t2, h', f);
  }

  lemma BeyondReach(l: nat, h: nat, h': nat)
    requires h < h' && LeastHeight(l, h')
    ensures Pow(h) <= l
  {
    PowMono(h, h' - 1);
  }

  /** __pmfs_alloc_blocks once the height is settled. */
  method GrowTree(sb: SbInfo, dev: Device, pi: Inode, height: nat, f: nat, l: nat, zero: bool, nodes: bool, ghost t: Tree)
    returns (ok: bool, ghost t': Tree)
    requires HasTree(sb, dev, pi, t) && f <= l < Pow(height) && pi.height <= height
    requires height == pi.height || (LeastHeight(l, height) && height <= 3)
    modifies sb, dev, pi`root, pi`height, pi`iBlocks, pi`eofBlocks
    ensures sb.Valid() && sb.Total() == old(sb.Total())
    ensures pi.btype.Block4K? ==> |sb.inuse| <= old(|sb.inuse|)
    ensures HasTree(sb, dev, pi, t')
    ensures Allocated(old(Now(sb, dev)), Now(sb, dev), old(pi.iBlocks), pi.iBlocks, t, old(pi.height), t', pi.height, f, l,
                      NumBlocks(pi.btype), ok)
    ensures ok ==> pi.eofBlocks == old(pi.eofBlocks)
    ensures Traceless(dev.data, t, old(pi.height), t', pi.height, f, NumBlocks(pi.btype), zero)
    ensures InTurn(t, old(pi.height), t', pi.height, f)
    ensures !ok ==> Flagged(t', pi.height, f, l, old(pi.eofBlocks), pi.eofBlocks)
    ensures !ok ==> Short(sb.inuse, sb.blockEnd, pi.btype, nodes)
    ensures sb.numFree >= old(sb.numFree) - Enough(l - f + 1, old(pi.height), NumBlocks(pi.btype))
  {
    hide Rep, Shape, Disjoint, Held, Canonical, Covered, Grown, Raised, Allocated, SameTally, Pow, Count, LeastHeight,
         Short, Spent, OutOfSpace, Enough, Traceless, Clean, Flagged, FullLookup, InTurn,
         InOrder;
    var n := NumBlocks(pi.btype);
    ghost var s0, h0, b0 := Now(sb, dev), pi.height, pi.iBlocks;
    TracelessRefl(dev.data, t, h0, f, n, zero);
    InTurnRefl(t, h0, f);
    HoleGap(0, f, l, pi.eofBlocks);
    CostOf(sb.numFree, l - f + 1, h0, height, n);
    if pi.root == 0 && height == 0 {
      ok, t' := FirstBlock(sb, dev, pi, f, l, zero, nodes, t);
      ShortOf(sb.inuse, sb.blockEnd, pi.btype, nodes);
      return;
    }
    if pi.root != 0 && height == 0 {
      AlreadyThere(s0, pi.root, b0, t, h0, f, l, n);
      return true, t;
    }
    ok, t' := IncreaseHeight(sb, dev, pi, height, t);
    ghost var s1, t1 := Now(sb, dev), t';
    OnlyRaised(s0, s1, pi.root, b0, t, h0, t1, pi.height, f, l, n);
    ShortOf(sb.inuse, sb.blockEnd, pi.btype, nodes);
    ghost var free1 := sb.numFree;
    CleanRefl(dev.data, t1, pi.height, f, n, zero);
    TracelessRaised(s0, s1, dev.data, pi.root, t, h0, t1, t1, pi.height, f, n, zero);
    InOrderSame(t1, t1, pi.height, f);
    TurnRaised(s0, s1, pi.root, t, h0, t1, t1, pi.height, f, n);
    if !ok {
      BeyondReach(l, pi.height, height);
      NotHighEnough(t1, pi.height, f, l, pi.eofBlocks);
      return;
    }
    ok, t' := RecursiveAllocBlocks(sb, dev, pi, pi.root, pi.height, f, l, zero, nodes, t1);
    TracelessRaised(s0, s1, dev.data, pi.root, t, h0, t1, t', pi.height, f, n, zero);
    TurnRaised(s0, s1, pi.root, t, h0, t1, t', pi.height, f, n);
    CostPaid(old(sb.numFree), free1, sb.numFree, l - f + 1, h0, pi.height, n);
    RaisedAndFilled(s0, s1, Now(sb, dev), pi.root, b0, pi.iBlocks, t, h0, t1, t', pi.height, f, l, n, ok);
  }

  lemma ShortOf(l: seq<Interval>, end: nat, btype: BlockType, nodes: bool)
    ensures OutOfSpace(l, end, Block4K) ==> Short(l, end, btype, nodes)
    ensures OutOfSpace(l, end, btype) || (!nodes && !btype.Block4K?) ==> Short(l, end, btype, nodes)
  {
  }

  lemma AllocatedGains(s: State, s': State, b: int, b': int, t: Tree, h: nat, t': Tree, h': nat, f: nat, l: nat,
                       span: nat, ok: bool)
    requires Allocated(s, s', b, b', t, h, t', h', f, l, span, ok)
    ensures Gained(s.inuse, s'.inuse, t, t', span)
  {
  }

  /** With spare blocks to the cost and one more, space cannot be what is short. */
  lemma EnoughSpace(l0: seq<Interval>, l: seq<Interval>, start: nat, end: nat, free: int, free': int, btype: BlockType,
                    nodes: bool, cost: int, t: Tree, t': Tree, span: nat)
    requires Canonical(l0, start, end) && Canonical(l, start, end) && Gained(l0, l, t, t', span)
    requires free' + Covered(l) == free + Covered(l0)
    ensures btype.Block4K? && l0 != [] && free' >= free - cost && Spare(l0, end) > cost ==> !Short(l, end, btype, nodes)
  {
    if l0 != [] && OutOfSpace(l, end, Block4K) {
      hide OutOfSpace, Canonical, Covered;
      SpareUsedUp(l0, l, start, end);
    }
  }

  /** The cap on the height is met exactly when the last block is out of reach. */
  lemma HeightReach(l: nat, h: nat, h': nat)
    requires l < Pow(h') && h <= h' && (h' == h || LeastHeight(l, h'))
    ensures TooFar(l, h) <==> h' > h && h' > 3
  {
    LeastPow(l, h');
    hide Pow, LeastHeight;
    if h' > h && h' > 3 {
      PowMono(3, h' - 1);
      PowMono(h, h' - 1);
    }
    if h' <= 3 { PowMono(h', 3); }
  }

  lemma LeastPow(l: nat, h: nat)
    ensures LeastHeight(l, h) && 0 < h ==> Pow(h - 1) <= l
  {
  }

  lemma CostOf(free: int, n: int, h: nat, h': nat, span: nat)
    requires 0 < n
    ensures Enough(n, h, span) >= span + 3
  {
    MulMono(1, n, span + if h < 3 then 2 else h - 1);
  }

  lemma CostPaid(free: int, free1: int, free2: int, n: int, h: nat, h': nat, span: nat)
    requires 0 <= n && free1 >= free - (h' - h) && Spent(free1, free2, n, h', span) && h <= h' && 0 < h'
    requires (h' == h || h' <= 3)
    ensures free2 >= free - Enough(n, h, span)
  {
    MulMono(span + h' - 1, span + if h < 3 then 2 else h - 1, n);
  }

  /** What __pmfs_alloc_blocks promises for file blocks [f, l] of the inode's own size. */
  ghost predicate Allocated(s: State, s': State, b: int, b': int, t: Tree, h: nat, t': Tree, h': nat, f: nat, l: nat,
                            span: nat, ok: bool) {
    && Enlarged(s, s', t, h, t', h', f, l, span) && SameTally(b, t, b', t', span)
    && (ok ==> (forall i :: f <= i <= l ==> FullLookup(t', h', i) != 0) && (h' == h || LeastHeight(l, h')) && (h' == h || h' <= 3))
    && (ok && Tidy(t) ==> Tidy(t'))
    && (ok && NoEmpty(t) ==> (NoEmpty(t') <==> !t.Hole? || f < FANOUT))
    && (ok && t.Hole? ==> SpineReach(t', h') == if f < FANOUT then 0 else FANOUT)
  }

  /** What a successful call means for the tree and the in-use list. */
  ghost predicate Remapped(l: seq<Interval>, l': seq<Interval>, t: Tree, h: nat, t': Tree, h': nat, first: nat, last: nat,
                           span: nat)
    requires Shape(t, h) && Shape(t', h')
  {
    && Gained(l, l', t, t', span)
    && (forall i :: 0 <= i ==> FullLookup(t', h', i) == FullLookup(t, h, i) || (FullLookup(t, h, i) == 0 && first <= i <= last))
    && (forall i :: first <= i <= last ==> FullLookup(t', h', i) != 0)
    && (NoEmpty(t) ==> (NoEmpty(t') <==> !t.Hole? || first < FANOUT))
    && (t.Hole? ==> SpineReach(t', h') == if first < FANOUT then 0 else FANOUT)
  }

  lemma NothingAllocated(s: State, p: nat, b: int, t: Tree, h: nat, f: nat, l: nat, span: nat)
    requires Shape(t, h) && Held(s.inuse, t, span)
    ensures Allocated(s, s, b, b, t, h, t, h, f, l, span, false)
  {
  }

  /** A lone data block is all that a tree of height 0 can have. */
  lemma AlreadyThere(s: State, p: nat, b: int, t: Tree, h: nat, f: nat, l: nat, span: nat)
    requires Shape(t, h) && Held(s.inuse, t, span) && Rep(s.nodes, p, t) && p != 0 && h == 0 && l < Pow(0)
    ensures Allocated(s, s, b, b, t, h, t, h, f, l, span, true)
  {
  }

  /** The first data block of an empty file becomes its root. */
  method FirstBlock(sb: SbInfo, dev: Device, pi: Inode, ghost f: nat, ghost l: nat, zero: bool, nodes: bool, ghost t: Tree)
    returns (ok: bool, ghost t': Tree)
    requires Ready(sb, dev, 0, 0, pi.btype, t) && pi.root == pi.height == 0 && f <= l < Pow(0)
    modifies sb, dev, pi`root, pi`height, pi`iBlocks
    ensures sb.Valid() && sb.Total() == old(sb.Total())
    ensures pi.btype.Block4K? ==> |sb.inuse| <= old(|sb.inuse|)
    ensures HasTree(sb, dev, pi, t')
    ensures Allocated(old(Now(sb, dev)), Now(sb, dev), old(pi.iBlocks), pi.iBlocks, t, 0, t', pi.height, f, l, NumBlocks(pi.btype), ok)
    ensures !ok ==> t' == Hole && (OutOfSpace(sb.inuse, sb.blockEnd, pi.btype) || (!nodes && !pi.btype.Block4K?))
    ensures pi.height == 0 && Traceless(dev.data, t, 0, t', 0, f, NumBlocks(pi.btype), zero) && InTurn(t, 0, t', 0, f)
    ensures sb.numFree >= old(sb.numFree) - NumBlocks(pi.btype)
  {
    hide Canonical, Covered, Taken, Allocated, Held, OutOfSpace, Traceless;
    TracelessRefl(dev.data, t, 0, f, NumBlocks(pi.btype), zero);
    ghost var s0 := Now(sb, dev);
    NothingAllocated(s0, 0, pi.iBlocks, t, 0, f, l, NumBlocks(pi.btype));
    var r := AllocBlock(sb, dev, pi.btype, zero, nodes);
    if r.None? { return false, t; }
    t' := Leaf(r.value);
    LoneLeaf(s0, Now(sb, dev), pi.iBlocks, r.value, f, l, NumBlocks(pi.btype), zero);
    LoneTraceless(s0, Now(sb, dev), r.value, f, l, NumBlocks(pi.btype), zero);
    pi.iBlocks := pi.iBlocks + NumBlocks(pi.btype);
    pi.root, pi.height := r.value, 0;
    return true, t';
  }

  lemma LoneLeaf(s: State, s': State, b: int, p: nat, f: nat, l: nat, span: nat, zero: bool)
    requires Taken(s, s', p, span, zero) && f <= l < Pow(0)
    ensures Allocated(s, s', b, b + span, Hole, 0, Leaf(p), 0, f, l, span, true)
    ensures Held(s'.inuse, Leaf(p), span) && Shape(Leaf(p), 0)
  {
  }

  lemma LoneTraceless(s: State, s': State, p: nat, f: nat, l: nat, span: nat, zero: bool)
    requires Taken(s, s', p, span, zero) && f <= l < Pow(0)
    ensures Traceless(s'.data, Hole, 0, Leaf(p), 0, f, span, zero) && InTurn(Hole, 0, Leaf(p), 0, f)
  {
    NewLeafCut(p, f);
    assert Under(Hole, 0, Hole, 0) && SameBefore(Hole, Leaf(p), 0, f);
  }

  lemma OnlyRaised(s0: State, s1: State, p: nat, b: int, t: Tree, h: nat, t1: Tree, h': nat, f: nat, l: nat, span: nat)
    requires Raised(s0, s1, p, t, h, t1, h', span)
    ensures Shape(t1, h') && Disjoint(t1, span) && Held(s1.inuse, t1, span) && Rep(s1.nodes, p, t1)
    ensures Allocated(s0, s1, b, b, t, h, t1, h', f, l, span, false)
    ensures (t.Hole? ==> h == 0) ==> (t1.Hole? ==> h' == 0)
    ensures (t.Hole? ==> h == 0) && h' > 0 ==> t1.Node?
  {
    RaisedIsEnlarged(s0, s1, p, t, h, t1, h', f, l, span);
  }

  lemma RaisedAndFilled(s0: State, s1: State, s2: State, p: nat, b0: int, b2: int, t: Tree, h: nat, t1: Tree, t2: Tree,
                        h': nat,
                        f: nat, l: nat, span: nat, ok: bool)
    requires Raised(s0, s1, p, t, h, t1, h', span) && Grown(s1, s2, p, t1, t2, h', f, l, span)
    requires SameTally(b0, t1, b2, t2, span) && t1.Node? && f <= l < Pow(h') && (t.Hole? ==> h == 0)
    requires h' == h || (LeastHeight(l, h') && h' <= 3)
    requires ok ==> Filled(t2, h', f, l) && (KidsNoEmpty(t1) ==> NoEmpty(t2)) && (Tidy(t1) ==> Tidy(t2))
    ensures Shape(t2, h') && Disjoint(t2, span) && Held(s2.inuse, t2, span) && Rep(s2.nodes, p, t2)
    ensures Allocated(s0, s2, b0, b2, t, h, t2, h', f, l, span, ok)
  {
    RaisedThenGrown(s0, s1, s2, p, t, h, t1, t2, h', f, l, span);
    RaisedIsEnlarged(s0, s1, p, t, h, t1, h', f, l, span);
    if ok && t.Hole? { SparseStart(t, h, t2, h', f, l); }
  }

  /** An empty file that grows by [f, l] has an empty node exactly if f lies
      past the first metadata block. */
  lemma SparseStart(t: Tree, h: nat, t2: Tree, h': nat, f: nat, l: nat)
    requires Shape(t, h) && t.Hole? && Shape(t2, h') && h' > 0 && FullSpine(t2, h') && Tidy(t2)
    requires Filled(t2, h', f, l) && f <= l < Pow(h')
    requires forall i :: 0 <= i ==> FullLookup(t2, h', i) == FullLookup(t, h, i) || (FullLookup(t, h, i) == 0 && f <= i <= l)
    ensures NoEmpty(t2) <==> f < FANOUT
    ensures SpineReach(t2, h') == if f < FANOUT then 0 else FANOUT
  {
    SpineReachIff(t2, h');
    TidyNoEmpty(t2, h');
    assert Lookup(t2, h', f) != 0;
    if f >= FANOUT {
      forall i: nat | i < FANOUT && i < Pow(h') ensures Lookup(t2, h', i) == 0 { assert FullLookup(t2, h', i) == 0; }
    }
  }

  /** A file whose first blocks were allocated past the first metadata block's
      reach, then truncated between the two, runs into the BUG_ON: for 4K
      blocks, write block 600 of an empty file and truncate to 600 blocks. */
  lemma SparseFileMeetsBugOn(s: State, s': State, b: int, b': int, t': Tree, h': nat, f: nat, l: nat,
                             btype: BlockType, start: nat, end: nat)
    requires Allocated(s, s', b, b', Hole, 0, t', h', f, l, NumBlocks(btype), true) && f <= l
    requires FANOUT <= BlocksFor(start, btype) <= f && l * BlkSize(btype) < end
    ensures HitsBugOn(t', h', btype, false, start, end)
  {
    var first := BlocksFor(start, btype);
    assert FullLookup(t', h', l) != 0;
    DivMono(l * BlkSize(btype), end - 1, BlkSize(btype));
    DivModUnique(l * BlkSize(btype), BlkSize(btype), l, 0);
    forall i: nat | i < first && i < Pow(h') ensures Lookup(t', h', i) == 0 {
      assert FullLookup(t', h', i) == FullLookup(Hole, 0, i);
    }
  }
}
