/** An allocation past the end of a file that fails: at a data block, the flag it sets
    lets truncation find what was taken, and give it back; elsewhere the flag is not set,
    and blocks stay behind past the end exactly if the first one asked for was had. */
module AllocFailure {
  import opened Arith
  import opened BlockList
  import opened Allocator
  import opened BlockTree
  import opened TreeGrowth
  import opened Codec
  import opened InodeTree
  import opened InodeOps
  import opened InodeAlloc

  // ---------------------------------------------------------------- raised trees

  lemma {:induction false} UnderLookup(t: Tree, h: nat, t1: Tree, h': nat, i: nat)
    requires Under(t, h, t1, h') && Shape(t, h) && Shape(t1, h')
    ensures FullLookup(t1, h', i) == FullLookup(t, h, i)
    decreases h'
  {
    if h' <= h {
    } else {
      var g: nat := h' - 1;
      assert Shape(t1.kids[0], g);
      UnderLookup(t, h, t1.kids[0], g, i);
      if i < Pow(g) {
        KidIndex(t1, h', 0, i);
      } else if i < Pow(h') {
        LookupKid(t1, h', i);
        DivMono(Pow(g), i, Pow(g));
        DivModUnique(Pow(g), Pow(g), 1, 0);
      }
    }
  }

  lemma {:induction false} UnderSpine(t: Tree, h: nat, t1: Tree, h': nat)
    requires Under(t, h, t1, h') && Shape(t, h) && Shape(t1, h') && (t.Hole? ==> h == 0)
    ensures t.Hole? && h' > 0 ==> SpineReach(t1, h') == FANOUT && t1.Node?
    ensures !t.Hole? ==> SpineReach(t1, h') == SpineReach(t, h) && !t1.Hole?
    decreases h'
  {
    if h' <= h {
    } else {
      assert Shape(t1.kids[0], h' - 1);
      UnderSpine(t, h, t1.kids[0], h' - 1);
      assert Pow(1) == FANOUT by { assert Pow(0) == 1; }
      if t.Hole? && h' == 1 { assert AllHoles(t1.kids); }
    }
  }

  /** A tree under bare roots is bare before f exactly if it was, or was nothing at all. */
  lemma UnderBare(t: Tree, h: nat, t1: Tree, h': nat, f: nat)
    requires Under(t, h, t1, h') && Shape(t, h) && Shape(t1, h') && (t.Hole? ==> h == 0 < h') && f < Pow(h')
    ensures BareBefore(t1, h', f) <==> if t.Hole? then FANOUT <= f else BareBefore(t, h, f)
  {
    UnderSpine(t, h, t1, h');
    hide SpineReach, Under, Shape, Lookup;
    forall i: nat ensures FullLookup(t1, h', i) == FullLookup(t, h, i) { UnderLookup(t, h, t1, h', i); }
    assert Unmapped(t1, h', 0, f) <==> Unmapped(t, h, 0, f) by {
      forall i: nat | i < f ensures FullLookup(t1, h', i) == 0 <==> FullLookup(t, h, i) == 0 { }
      UnmappedFull(t1, h', f);
      UnmappedFull(t, h, f);
    }
    if t.Hole? { HoleMapsNothing(h, f); }
  }

  lemma HoleMapsNothing(h: nat, f: nat)
    ensures Unmapped(Hole, h, 0, f)
  {
  }

  lemma UnmappedFull(t: Tree, h: nat, f: nat)
    requires Shape(t, h)
    ensures Unmapped(t, h, 0, f) <==> forall i: nat :: i < f ==> FullLookup(t, h, i) == 0
  {
    hide Shape, Lookup;
    if Unmapped(t, h, 0, f) {
      forall i: nat | i < f ensures FullLookup(t, h, i) == 0 { }
    }
    if forall i: nat :: i < f ==> FullLookup(t, h, i) == 0 {
      forall i: nat | i < f && i < Pow(h) ensures Lookup(t, h, i) == 0 { assert FullLookup(t, h, i) == 0; }
    }
  }

  /** Growth past f does not decide whether a cut at f leaves a bare root. */
  lemma SameBare(t: Tree, t': Tree, h: nat, f: nat)
    requires SameBefore(t, t', h, f) && Tidy(t) && f < Pow(h)
    ensures Tidy(Trunc(t', h, f, Pow(h) - 1)) && (BareBefore(t', h, f) <==> BareBefore(t, h, f))
    ensures LeavesBareRoot(t', h, f, Pow(h) - 1) <==> BareBefore(t', h, f)
  {
    TruncTidy(t, h, f, Pow(h) - 1);
    BareRootIff(t, h, f, Pow(h) - 1);
    BareRootIff(t', h, f, Pow(h) - 1);
  }

  // ---------------------------------------------------------------- what the cut gives back

  lemma {:induction false} SpineUnmapped(t: Tree, h: nat, i: nat)
    requires Shape(t, h) && i < SpineReach(t, h) && i < Pow(h)
    ensures Lookup(t, h, i) == 0
    decreases h
  {
    if !t.Node? {
    } else {
      LookupKid(t, h, i);
      if AllHoles(t.kids) {
      } else {
        assert Shape(t.kids[0], h - 1);
        ReachBound(t.kids[0], h - 1);
        KidIndex(t, h, 0, i);
        SpineUnmapped(t.kids[0], h - 1, i);
      }
    }
  }

  lemma {:induction false} ReachBound(t: Tree, h: nat)
    requires Shape(t, h)
    ensures SpineReach(t, h) <= Pow(h)
    decreases h
  {
    if !t.Node? {
    } else {
      assert Shape(t.kids[0], h - 1);
      ReachBound(t.kids[0], h - 1);
    }
  }

  /** Blocks of a file of `size` bytes lie before the first block past its end. */
  lemma NonePast(t: Tree, h: nat, btype: BlockType, size: nat)
    requires Shape(t, h) && NoneFrom(t, h, btype, size)
    ensures Unmapped(t, h, BlocksFor(size, btype), Pow(h))
  {
    var z := BlkSize(btype);
    forall i: nat | BlocksFor(size, btype) <= i < Pow(h) ensures Lookup(t, h, i) == 0 {
      if Lookup(t, h, i) != 0 {
        assert i * z < size;
        DivMono(i * z + z, size + z - 1, z);
        DivModUnique(i * z + z, z, i + 1, 0);
      }
    }
  }

  /** Some block before f is mapped, and none from f on. */
  lemma MappedBefore(t: Tree, h: nat, f: nat) returns (i: nat)
    requires Shape(t, h) && Count(t) > 0 && Unmapped(t, h, f, Pow(h))
    ensures i < f && i < Pow(h) && Lookup(t, h, i) != 0 && SpineReach(t, h) <= f
  {
    CountZeroIff(t, h);
    i :| i < Pow(h) && Lookup(t, h, i) != 0;
    if SpineReach(t, h) > i { SpineUnmapped(t, h, i); }
  }

  /** Cut at f and lowered to its old height, a tree that grew past f is what it was. */
  lemma BackToOld(t: Tree, h: nat, t1: Tree, t': Tree, h': nat, f: nat)
    requires Shape(t, h) && Tidy(t) && Count(t) > 0 && Unmapped(t, h, f, Pow(h)) && h <= h'
    requires Under(t, h, t1, h') && SameBefore(t1, t', h', f) && f <= Pow(h) && f < Pow(h')
    ensures Down(Trunc(t', h', f, Pow(h') - 1), h' - h) == t
  {
    DownCut(t, h, t1, h', f);
    var i := MappedBefore(t, h, f);
    if f < Pow(h) { CutNothing(t, h, f); }
  }

  /** If the file had nothing, nothing is left. */
  lemma BackToNothing(t1: Tree, t': Tree, h': nat, f: nat, n: nat)
    requires Under(Hole, 0, t1, h') && SameBefore(t1, t', h', f) && f < Pow(h') && 0 < h' && !BareBefore(t', h', f)
    ensures Down(Trunc(t', h', f, Pow(h') - 1), n) == Hole
  {
    UnderTidy(Hole, 0, t1, h');
    SameBare(t1, t', h', f);
    var c := Trunc(t1, h', f, Pow(h') - 1);
    TruncShape(t1, h', f, Pow(h') - 1);
    forall i: nat | i < Pow(h') ensures Lookup(c, h', i) == 0 {
      TruncLookup(t1, h', f, Pow(h') - 1, i);
      UnderLookup(Hole, 0, t1, h', i);
    }
    UnmappedCountZero(c, h');
    HoleDown(n);
  }

  /** The in-use list is the old one again when the tree is. */
  lemma ListBack(l: seq<Interval>, l1: seq<Interval>, l2: seq<Interval>, t: Tree, t1: Tree, start: nat, end: nat, span: nat)
    requires Canonical(l, start, end) && Canonical(l2, start, end) && Held(l, t, span)
    requires Gained(l, l1, t, t1, span) && Released(l1, l2, t1, t, span)
    ensures l2 == l
  {
    BackAgain(l, l2, start, end);
  }

  /** The state after an allocation that set the flag: the cut may be made. */
  lemma MayCut(t: Tree, h: nat, t1: Tree, t': Tree, h': nat, first: nat, f: nat, l: nat, btype: BlockType, size: nat)
    requires Under(t, h, t1, h') && SameBefore(t1, t', h', f) && Tidy(t)
    requires first == BlocksFor(size, btype) <= f <= l < Pow(h')
    ensures SameBefore(t1, t', h', first) && CutTree(t', h', btype, true, size, size) == Trunc(t', h', first, Pow(h') - 1)
    ensures Tidy(CutTree(t', h', btype, true, size, size))
    ensures HitsBugOn(t', h', btype, true, size, size) <==> BareBefore(t', h', first)
  {
    SameBeforeEarlier(t1, t', h', first, f);
    UnderTidy(t, h, t1, h');
    SameBare(t1, t', h', first);
  }

  lemma TallyKept(b: int, t: Tree, b': int, t': Tree, span: nat)
    requires SameTally(b, t, b', t', span) && b == Count(t) * span
    ensures b' == Count(t') * span
  {
  }

  lemma TreeOf(s: State, s': State, b: int, b': int, t: Tree, h: nat, t': Tree, h': nat, f: nat, l: nat, span: nat, ok: bool)
    requires Allocated(s, s', b, b', t, h, t', h', f, l, span, ok)
    ensures Shape(t, h) && Shape(t', h') && h <= h' && SameTally(b, t, b', t', span) && Gained(s.inuse, s'.inuse, t, t', span)
    ensures forall i: nat :: i < f ==> FullLookup(t', h', i) == FullLookup(t, h, i)
  {
  }

  lemma Grew(d: map<nat, seq<byte>>, t: Tree, h: nat, t': Tree, h': nat, f: nat, span: nat, zero: bool) returns (t1: Tree)
    requires Traceless(d, t, h, t', h', f, span, zero)
    ensures Under(t, h, t1, h') && SameBefore(t1, t', h', f)
  {
    t1 :| Under(t, h, t1, h') && SameBefore(t1, t', h', f);
  }

  lemma DataFailed(t: Tree, h: nat, f: nat, l: nat)
    requires Flagged(t, h, f, l, false, true)
    ensures l < Pow(h) && 0 < h && !t.Hole?
  {
  }

  /** The tree has the height that a file of `first` blocks asks for. */
  ghost predicate RightHeight(t: Tree, h: nat, first: nat) {
    t.Hole? || (Count(t) > 0 && first > 0 && LeastHeight(first - 1, h))
  }

  lemma SameHeight(n: nat, h: nat, h': nat)
    requires LeastHeight(n, h) && LeastHeight(n, h')
    ensures h == h'
  {
    LeastHeightIsLeast(n, h, h');
    LeastHeightIsLeast(n, h', h);
  }

  /** After the cut: the map is the old one, and so are tree and list if the height was right. */
  lemma GaveBack(l0: seq<Interval>, l1: seq<Interval>, l2: seq<Interval>, t: Tree, h: nat, t1: Tree, grown: Tree, gh: nat,
                 t2: Tree, h2: nat, first: nat, f: nat, start: nat, end: nat, span: nat)
    requires Shape(t, h) && Tidy(t) && (t.Hole? ==> h == 0 < gh) && Unmapped(t, h, first, Pow(h)) && h <= gh
    requires Under(t, h, t1, gh) && SameBefore(t1, grown, gh, first) && first <= f && first < Pow(gh)
    requires Shape(grown, gh) && forall i: nat :: i < f ==> FullLookup(grown, gh, i) == FullLookup(t, h, i)
    requires CutFrom(l1, l2, grown, gh, t2, h2, first, span) && !BareBefore(grown, gh, first)
    requires h2 <= gh && t2 == Down(Trunc(grown, gh, first, Pow(gh) - 1), gh - h2)
    requires (t2.Hole? ==> h2 == 0) && (!t2.Hole? ==> first > 0 && LeastHeight(first - 1, h2))
    requires Canonical(l0, start, end) && Canonical(l2, start, end) && Held(l0, t, span) && Gained(l0, l1, t, grown, span)
    ensures Shape(t2, h2) && forall i: nat :: FullLookup(t2, h2, i) == FullLookup(t, h, i)
    ensures RightHeight(t, h, first) ==> t2 == t && h2 == h && l2 == l0
  {
    hide Shape, Tidy, Under, SameBefore, Trunc, Down, BareBefore, Canonical, Gained, Held, LeastHeight, Count, FullLookup, Pow,
         CutFrom, Unmapped, Released, Lookup;
    MapBack(l1, l2, t, h, grown, gh, t2, h2, first, f, span);
    if RightHeight(t, h, first) {
      if t.Hole? {
        BackToNothing(t1, grown, gh, first, gh - h2);
      } else {
        StillMapped(t, h, t2, h2, first);
        SameHeight(first - 1, h, h2);
        LeastReaches(first - 1, h);
        BackToOld(t, h, t1, grown, gh, first);
      }
      CutReleases(l1, l2, grown, gh, t2, h2, first, span);
      ListBack(l0, l1, l2, t, grown, start, end, span);
    }
  }

  lemma LeastReaches(n: nat, h: nat)
    requires LeastHeight(n, h)
    ensures n < Pow(h)
  {
  }

  lemma CutReleases(l1: seq<Interval>, l2: seq<Interval>, grown: Tree, gh: nat, t2: Tree, h2: nat, first: nat, span: nat)
    requires CutFrom(l1, l2, grown, gh, t2, h2, first, span)
    ensures Released(l1, l2, grown, t2, span)
  {
  }

  lemma MapBack(l1: seq<Interval>, l2: seq<Interval>, t: Tree, h: nat, grown: Tree, gh: nat, t2: Tree, h2: nat, first: nat,
                f: nat,
                span: nat)
    requires Shape(t, h) && Unmapped(t, h, first, Pow(h)) && first <= f
    requires Shape(grown, gh) && forall i: nat :: i < f ==> FullLookup(grown, gh, i) == FullLookup(t, h, i)
    requires CutFrom(l1, l2, grown, gh, t2, h2, first, span)
    ensures Shape(t2, h2) && forall i: nat :: FullLookup(t2, h2, i) == FullLookup(t, h, i)
  {
    hide Shape, Lookup, Released, Owns;
  }

  lemma StillMapped(t: Tree, h: nat, t2: Tree, h2: nat, first: nat)
    requires Shape(t, h) && Count(t) > 0 && Unmapped(t, h, first, Pow(h)) && Shape(t2, h2)
    requires forall i: nat :: FullLookup(t2, h2, i) == FullLookup(t, h, i)
    ensures !t2.Hole?
  {
    var i := MappedBefore(t, h, first);
    assert FullLookup(t2, h2, i) != 0;
  }

  /** Allocate blocks past the end of a file of `size` bytes; if that fails at a data
      block, truncate the file to its size.  The truncation may be made, since the flag is
      set.  It meets the BUG_ON exactly if the file had a bare tree, or no tree and a size
      of 512 blocks or more; else the file maps what it mapped before, and everything
      taken is given back if the tree had the height its size asks for.  A failure
      elsewhere leaves no block past the end, and every mapping as it was, exactly if the
      first block asked for is missing. */
  method AllocOrGiveBack(sb: SbInfo, dev: Device, pi: Inode, fileBlock: nat, num: nat, zero: bool, nodes: bool, size: nat,
                         ghost t: Tree)
    returns (ok: bool, atData: bool, panic: bool, ghost t': Tree, ghost grown: Tree, ghost height: nat)
    requires HasTree(sb, dev, pi, t) && Tidy(t) && ExactCount(pi, t) && 0 < num && !pi.eofBlocks
    requires NoneFrom(t, pi.height, pi.btype, size) && BlocksFor(size, pi.btype) <= fileBlock / NumBlocks(pi.btype)
    modifies sb, dev, pi`root, pi`height, pi`iBlocks, pi`eofBlocks
    ensures sb.Valid() && sb.Total() == old(sb.Total()) && (atData || panic ==> !ok)
    ensures var n := NumBlocks(pi.btype); !ok ==> Flagged(grown, height, fileBlock / n, (fileBlock + num - 1) / n, false, atData)
    ensures var first := BlocksFor(size, pi.btype);
            atData ==> (panic <==> if t.Hole? then FANOUT <= first else BareBefore(t, old(pi.height), first))
    ensures !ok ==> Shape(grown, height) && var missing := FullLookup(grown, height, fileBlock / NumBlocks(pi.btype)) == 0;
              && (NoneFrom(grown, height, pi.btype, size) <==> missing)
              && (missing ==> forall i: nat :: FullLookup(grown, height, i) == FullLookup(t, old(pi.height), i))
    ensures !atData ==> t' == grown && pi.height == height && HasTree(sb, dev, pi, t') && !pi.eofBlocks
    ensures atData && !panic ==> HasTree(sb, dev, pi, t') && Tidy(t') && ExactCount(pi, t')
    ensures atData && !panic ==> forall i: nat :: FullLookup(t', pi.height, i) == FullLookup(t, old(pi.height), i)
    ensures atData && !panic && RightHeight(t, old(pi.height), BlocksFor(size, pi.btype)) ==>
              && t' == t && pi.root == old(pi.root) && pi.height == old(pi.height) && pi.iBlocks == old(pi.iBlocks)
              && sb.inuse == old(sb.inuse) && sb.numFree == old(sb.numFree)
  {
    hide Rep, Shape, Disjoint, Held, Canonical, Covered, Tidy, Count, NoneFrom, BlocksFor, Traceless, Flagged, CutTree, CutFrom,
         HitsBugOn, BareBefore, FullLookup, Allocated, Short, Spent, OutOfSpace, Enough, TooFar, LeastHeight, Untouched, Pow,
         RightHeight, Down, SameTally, Gained, LastToVisit, Under, SameBefore, Trunc, Unmapped, InTurn;
    var n := NumBlocks(pi.btype);
    ghost var f, l, first, h := fileBlock / n, (fileBlock + num - 1) / n, BlocksFor(size, pi.btype), pi.height;
    ghost var s0, b0 := Now(sb, dev), pi.iBlocks;
    DivMono(fileBlock, fileBlock + num - 1, n);
    NonePast(t, h, pi.btype, size);
    ok, t' := AllocBlocks(sb, dev, pi, fileBlock, num, zero, nodes, t);
    grown, height := t', pi.height;
    atData, panic := !ok && pi.eofBlocks, false;
    Leftover(s0, Now(sb, dev), b0, pi.iBlocks, t, h, grown, height, f, l, pi.btype, size, ok);
    if !atData { return; }
    ghost var s1 := Now(sb, dev);
    TreeOf(s0, s1, b0, pi.iBlocks, t, h, grown, height, f, l, n, ok);
    TallyKept(b0, t, pi.iBlocks, grown, n);
    DataFailed(grown, height, f, l);
    ghost var t1 := Grew(dev.data, t, h, grown, height, f, n, zero);
    MayCut(t, h, t1, grown, height, first, f, l, pi.btype, size);
    SameBareAs(t, h, t1, grown, height, first);
    CutMade(height, pi.btype, size, first, l);
    RootThere(dev.nodes, pi.root, grown, height);
    panic, t' := TruncateBlocks(sb, dev, pi, size, size, size, false, t');
    if panic { return; }
    GaveBack(s0.inuse, s1.inuse, sb.inuse, t, h, t1, grown, height, t', pi.height, first, f, sb.blockStart, sb.blockEnd, n);
    SameRoot(old(dev.nodes), dev.nodes, old(pi.root), pi.root, t);
  }

  /** Blocks past the end are left exactly if the first one asked for was had. */
  lemma Leftover(s0: State, s1: State, b: int, b': int, t: Tree, h: nat, t': Tree, h': nat, f: nat, l: nat, btype: BlockType,
                 size: nat, ok: bool)
    requires Allocated(s0, s1, b, b', t, h, t', h', f, l, NumBlocks(btype), ok) && InTurn(t, h, t', h', f)
    requires Shape(t, h) && NoneFrom(t, h, btype, size) && BlocksFor(size, btype) <= f
    ensures Shape(t', h') && (NoneFrom(t', h', btype, size) <==> FullLookup(t', h', f) == 0)
    ensures FullLookup(t', h', f) == 0 ==> forall i: nat :: FullLookup(t', h', i) == FullLookup(t, h, i)
  {
    var z := BlkSize(btype);
    if FullLookup(t', h', f) == 0 {
      forall i: nat ensures FullLookup(t', h', i) == FullLookup(t, h, i) {
        if f <= i { assert InTurn(t, h, t', h', f); }
      }
      forall i | 0 <= i < Pow(h') && Lookup(t', h', i) != 0 ensures i * z < size {
        assert FullLookup(t', h', i) == FullLookup(t, h, i);
      }
    } else {
      MulMono(BlocksFor(size, btype), f, z);
      assert size <= BlocksFor(size, btype) * z;
      assert Lookup(t', h', f) != 0;
    }
  }

  lemma SameBareAs(t: Tree, h: nat, t1: Tree, grown: Tree, gh: nat, first: nat)
    requires Under(t, h, t1, gh) && Shape(t, h) && Tidy(t) && SameBefore(t1, grown, gh, first) && first < Pow(gh)
    requires t.Hole? ==> h == 0 < gh
    ensures BareBefore(grown, gh, first) <==> if t.Hole? then FANOUT <= first else BareBefore(t, h, first)
  {
    hide BareBefore, Trunc;
    UnderTidy(t, h, t1, gh);
    SameBare(t1, grown, gh, first);
    UnderBare(t, h, t1, gh, first);
  }

  lemma CutMade(h: nat, btype: BlockType, size: nat, first: nat, l: nat)
    requires first == BlocksFor(size, btype) <= l < Pow(h)
    ensures LastToVisit(h, btype, true, size) == Some(Pow(h) - 1) && first <= Pow(h) - 1 && (size > 0 ==> first > 0)
  {
    if size > 0 {
      DivMono(BlkSize(btype), size + BlkSize(btype) - 1, BlkSize(btype));
      DivModUnique(BlkSize(btype), BlkSize(btype), 1, 0);
    }
  }

  lemma RootThere(n: map<nat, seq<nat>>, p: nat, t: Tree, h: nat)
    requires Rep(n, p, t) && Shape(t, h) && !t.Hole?
    ensures p != 0
  {
  }

  lemma SameRoot(n: map<nat, seq<nat>>, n': map<nat, seq<nat>>, p: nat, p': nat, t: Tree)
    requires Rep(n, p, t)
    ensures Rep(n', p', t) ==> p' == p
  {
  }
}
