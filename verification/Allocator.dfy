/** The block allocator (balloc.c): aligned first-fit allocation and freeing on
    the in-use list kept in the super-block info. */
module Allocator {
  import opened Arith
  import opened BlockList

  datatype Option<T> = None | Some(value: T)

  datatype BlockType = Block4K | Block2M | Block1G

  /** pmfs_get_numblocks */
  function NumBlocks(btype: BlockType): nat {
    match btype
    case Block4K => 1
    case Block2M => 512
    case Block1G => 0x40000
  }

  /** `(high + n) & ~(n - 1)` for a power of two n. */
  function AlignedAfter(high: nat, n: nat): nat
    requires 0 < n
  {
    (high + n) / n * n
  }

  lemma AlignedAfterIsAligned(high: nat, n: nat)
    requires 0 < n
    ensures AlignedAfter(high, n) % n == 0 && high < AlignedAfter(high, n)
  {
    var q := (high + n) / n;
    assert q * n <= high + n < q * n + n;
    DivModUnique(q * n, n, q, 0);
  }

  /** No multiple of n lies between `high` and it. */
  lemma AlignedAfterIsLeast(high: nat, n: nat, b: nat)
    requires 0 < n && b % n == 0 && high < b
    ensures AlignedAfter(high, n) <= b
  {
    assert b == b / n * n;
    DivMono(high + n, b + n - 1, n);
    DivModUnique(b + n - 1, n, b / n, n - 1);
    MulMono((high + n) / n, b / n, n);
  }

  // ---------------------------------------------------------------- allocation

  /** An aligned run of n free blocks starting at b, past the first node. */
  predicate Fits(l: seq<Interval>, end: nat, n: nat, b: nat)
    requires 0 < n
  {
    && l != [] && l[0].high < b && b % n == 0 && b + n <= end
    && RangeFree(l, b, b + n - 1)
  }

  /** No run of the given size fits anywhere. */
  ghost predicate OutOfSpace(l: seq<Interval>, end: nat, btype: BlockType) {
    forall b: nat :: !Fits(l, end, NumBlocks(btype), b)
  }

  /** The first place where a run of n blocks fits. */
  ghost predicate FirstFit(l: seq<Interval>, end: nat, n: nat, b: nat)
    requires 0 < n
  {
    Fits(l, end, n, b) && forall c: nat :: Fits(l, end, n, c) ==> b <= c
  }

  /** A run touches a node on either side, so that entering it takes no new node. */
  predicate Joins(l: seq<Interval>, low: nat, high: nat) {
    InUse(l, low - 1) || InUse(l, high + 1)
  }

  /** A used run has used blocks on both sides, so that freeing it takes a new node. */
  predicate Splits(l: seq<Interval>, low: nat, high: nat) {
    InUse(l, low - 1) && InUse(l, high + 1)
  }

  /** An allocation cannot be met: nothing fits, or the first fit needs a node that
      cannot be had. */
  ghost predicate NoRoom(l: seq<Interval>, end: nat, n: nat, nodeAvail: bool)
    requires 0 < n
  {
    forall b: nat :: FirstFit(l, end, n, b) ==> !nodeAvail && !Joins(l, b, b + n - 1)
  }

  lemma TakesFirstFit(l: seq<Interval>, end: nat, n: nat, b: nat, nodeAvail: bool)
    requires 0 < n && FirstFit(l, end, n, b)
    ensures NoRoom(l, end, n, nodeAvail) <==> !nodeAvail && !Joins(l, b, b + n - 1)
  {
    hide Fits, Joins;
  }

  lemma NothingFits(l: seq<Interval>, end: nat, n: nat, nodeAvail: bool)
    requires 0 < n && forall b: nat :: !Fits(l, end, n, b)
    ensures NoRoom(l, end, n, nodeAvail)
  {
  }

  lemma PastFirst(l: seq<Interval>, start: nat, end: nat, k: nat)
    requires Canonical(l, start, end) && k < |l|
    ensures l[0].high <= l[k].high
  {
  }

  lemma JoinsIff(l: seq<Interval>, k: nat, low: nat, high: nat, start: nat, end: nat)
    requires Canonical(l, start, end) && k < |l| && l[k].high < low <= high < NextLow(l, k, end)
    ensures Joins(l, low, high) <==> low == l[k].high + 1 || (k + 1 < |l| && high + 1 == l[k + 1].low)
  {
  }

  lemma SplitsIff(l: seq<Interval>, i: nat, low: nat, high: nat, start: nat, end: nat)
    requires Canonical(l, start, end) && Holds(l, i, low, high)
    ensures Splits(l, low, high) <==> l[i].low < low && high < l[i].high
  {
  }

  /** The list without [low, high], which one node holds. */
  function Removed(l: seq<Interval>, low: nat, high: nat): seq<Interval>
    requires low <= high
  {
    if l == [] then []
    else if l[0].low <= low && high <= l[0].high then Rest(l[0], low, high) + l[1..]
    else [l[0]] + Removed(l[1..], low, high)
  }

  lemma {:induction false} RemovedIsCut(l: seq<Interval>, i: nat, low: nat, high: nat, start: nat, end: nat)
    requires Canonical(l, start, end) && Holds(l, i, low, high)
    ensures Removed(l, low, high) == Cut(l, i, low, high)
    decreases |l|
  {
    hide Rest, Canonical, Cut;
    if i == 0 {
      CutFirst(l, low, high);
    } else {
      NotInFirst(l, i, low, high, start, end);
      RemovedIsCut(l[1..], i - 1, low, high, start, end);
      CutLater(l, i, low, high);
    }
  }

  lemma CutFirst(l: seq<Interval>, low: nat, high: nat)
    requires Holds(l, 0, low, high)
    ensures Cut(l, 0, low, high) == Rest(l[0], low, high) + l[1..]
  {
    hide Rest;
    assert l[..0] == [];
  }

  lemma CutLater(l: seq<Interval>, i: nat, low: nat, high: nat)
    requires 0 < i && Holds(l, i, low, high)
    ensures Cut(l, i, low, high) == [l[0]] + Cut(l[1..], i - 1, low, high)
  {
    hide Rest;
    assert l[..i] == [l[0]] + l[1..][..i - 1] && l[i + 1..] == l[1..][i..];
  }

  lemma NotInFirst(l: seq<Interval>, i: nat, low: nat, high: nat, start: nat, end: nat)
    requires Canonical(l, start, end) && 0 < i && Holds(l, i, low, high)
    ensures Canonical(l[1..], start, end) && Holds(l[1..], i - 1, low, high) && l[0].high < low
  {
    assert l[0].high + 1 < l[i].low;
  }

  /** The list after a sequence of frees, those of ranges not wholly in use failing. */
  function RemovedAll(l: seq<Interval>, frees: seq<(nat, BlockType)>): seq<Interval> {
    if frees == [] then l
    else var m := RemovedAll(l, frees[..|frees| - 1]);
         var (b, btype) := frees[|frees| - 1];
         if RangeUsed(m, b, b + NumBlocks(btype) - 1) then Removed(m, b, b + NumBlocks(btype) - 1) else m
  }

  /** Blocks from the first one in use to the end of the device that are free. */
  function Spare(l: seq<Interval>, end: nat): int {
    if l == [] then 0 else end - l[0].low - Covered(l)
  }

  /** Only a list that covers everything to the end has no room for a 4K block. */
  lemma NoSpare(l: seq<Interval>, start: nat, end: nat)
    requires Canonical(l, start, end) && l != [] && OutOfSpace(l, end, Block4K)
    ensures Covered(l) == end - l[0].low
  {
    RoomAfterFirst(l, start, end);
    assert l[0].high + 1 == end && |l| == 1;
    CoveredShort(l);
  }

  lemma RoomAfterFirst(l: seq<Interval>, start: nat, end: nat)
    requires Canonical(l, start, end) && l != []
    ensures l[0].high + 1 < end ==> Fits(l, end, NumBlocks(Block4K), l[0].high + 1)
    ensures |l| > 1 ==> l[0].high + 1 < end
  {
    if |l| > 1 { assert l[0].high + 1 < l[1].low; }
  }

  /** If a list that holds all of l0 has no room for a 4K block, then l0 had no
      more spare blocks than it took. */
  lemma SpareUsedUp(l0: seq<Interval>, l: seq<Interval>, start: nat, end: nat)
    requires Canonical(l0, start, end) && Canonical(l, start, end) && l0 != [] && OutOfSpace(l, end, Block4K)
    requires forall b :: InUse(l0, b) ==> InUse(l, b)
    ensures Spare(l0, end) <= Covered(l) - Covered(l0)
  {
    assert InUse(l0, l0[0].low);
    var k :| 0 <= k < |l| && l[k].low <= l0[0].low <= l[k].high;
    NoSpare(l, start, end);
  }

  /** If the aligned run after node k does not fit before the next node, every
      fitting run lies past that next node. */
  lemma SkipNode(l: seq<Interval>, start: nat, end: nat, n: nat, k: nat, b: nat)
    requires Canonical(l, start, end) && k < |l| && 0 < n
    requires NextLow(l, k, end) <= AlignedAfter(l[k].high, n) + n - 1
    requires Fits(l, end, n, b) && l[k].high < b
    ensures k + 1 < |l| && l[k + 1].high < b
  {
    AlignedAfterIsLeast(l[k].high, n, b);
    assert NextLow(l, k, end) <= b + n - 1;
    if l[k + 1].low <= l[k + 1].high {
      if b <= l[k + 1].low {
        assert InUse(l, l[k + 1].low);
      } else {
        assert !InUse(l, b);
      }
    }
  }

  /** Taking a held range out removes exactly its blocks. */
  lemma CutBlocks(l: seq<Interval>, i: nat, low: nat, high: nat, start: nat, end: nat)
    requires Holds(l, i, low, high) && Canonical(l, start, end)
    ensures Canonical(Cut(l, i, low, high), start, end)
    ensures Covered(Cut(l, i, low, high)) == Covered(l) - (high - low + 1)
    ensures forall b :: InUse(Cut(l, i, low, high), b) <==> InUse(l, b) && !(low <= b <= high)
  {
    var c := Cut(l, i, low, high);
    var p := if l[i].low < low then i + 1 else i;
    CutCanonical(l, i, low, high, start, end);
    PutUndoesCut(l, i, low, high, start, end);
    PutCanonical(c, p, low, high, start, end);
    GapFree(c, p, low, high, start, end);
  }

  lemma GapFree(l: seq<Interval>, p: nat, low: nat, high: nat, start: nat, end: nat)
    requires Canonical(l, start, end) && Gap(l, p, low, high)
    ensures RangeFree(l, low, high)
  {
  }

  lemma RunInside(l: seq<Interval>, k: nat, low: nat, high: nat, start: nat, end: nat)
    requires Canonical(l, start, end) && k < |l|
    requires l[k].high < low <= high < NextLow(l, k, end)
    ensures RangeFree(l, low, high) && start <= low && high < end
  {
    GapFree(l, k + 1, low, high, start, end);
    if k + 1 < |l| { assert l[k + 1].high < end; }
  }

  /** The blocks pmfs_init_blockmap deducts for the user-space file system. */
  const UFS_BLOCKS := 25 * 1024 * 1024

  /** Free blocks past the first node and inside the device. */
  predicate Insertable(l: seq<Interval>, end: nat, low: nat, high: nat) {
    l != [] && l[0].high < low && high < end && RangeFree(l, low, high)
  }

  lemma FreeRangeHasGap(l: seq<Interval>, low: nat, high: nat, start: nat, end: nat) returns (j: nat)
    requires Canonical(l, start, end) && low <= high && Insertable(l, end, low, high)
    ensures j < |l| && Gap(l, j + 1, low, high)
  {
    j := 0;
    while j + 1 < |l| && l[j + 1].low <= high
      invariant j < |l| && l[j].high < low
    {
      assert InUse(l, l[j + 1].low) && InUse(l, l[j + 1].high);
      assert !InUse(l, low);
      j := j + 1;
    }
  }

  datatype Op =
    | New(btype: BlockType, nodeAvail: bool)
    | Free(blocknr: nat, btype: BlockType, nodeAvail: bool)
    | Insert(low: nat, high: nat, nodeAvail: bool)

  /** struct pmfs_sb_info, the part the block allocator uses. */
  class SbInfo {
    var inuse: seq<Interval>   // block_inuse_head
    var numFree: int           // num_free_blocks
    var numNodes: int          // num_blocknode_allocated
    const blockStart: nat
    const blockEnd: nat

    ghost predicate Valid()
      reads this
    {
      Canonical(inuse, blockStart, blockEnd) && numNodes == |inuse|
    }

    /** The conserved quantity: free blocks plus blocks in use. */
    ghost function Total(): int
      reads this
    {
      numFree + Covered(inuse)
    }

    /** The four ways a run is entered after node k, shared by pmfs_new_block
        and pmfs_alloc_insert_blocknode_map.  Fails only when a list node is
        needed and none can be had. */
    method PlaceAfter(k: nat, low: nat, high: nat, nodeAvail: bool) returns (ok: bool)
      requires Valid() && k < |inuse|
      requires inuse[k].high < low <= high < NextLow(inuse, k, blockEnd)
      modifies this`inuse, this`numNodes
      ensures Gap(old(inuse), k + 1, low, high)
      ensures inuse == if ok then Put(old(inuse), k + 1, low, high) else old(inuse)
      ensures numNodes - |inuse| == old(numNodes - |inuse|)
      ensures ok <==> nodeAvail || low == old(inuse[k].high) + 1 || (k + 1 < |old(inuse)| && high + 1 == old(inuse)[k + 1].low)
      ensures low == old(inuse[k].high) + 1 ==> |inuse| <= old(|inuse|)
    {
      var nextLow := NextLow(inuse, k, blockEnd);
      var left := low == inuse[k].high + 1;
      ok := true;
      if left && high == nextLow - 1 && k + 1 < |inuse| {
        inuse := inuse[..k] + [Interval(inuse[k].low, inuse[k + 1].high)] + inuse[k + 2..];
        numNodes := numNodes - 1;
      } else if left {
        inuse := inuse[k := Interval(inuse[k].low, high)];
      } else if high == nextLow - 1 && k + 1 < |inuse| {
        inuse := inuse[k + 1 := Interval(low, inuse[k + 1].high)];
      } else if nodeAvail {
        inuse := inuse[..k + 1] + [Interval(low, high)] + inuse[k + 1..];
        numNodes := numNodes + 1;
      } else {
        ok := false;
      }
    }

    /** Enter a run that was found to fit after node k and charge it to the counter. */
    method TakeRun(k: nat, low: nat, n: nat, nodeAvail: bool) returns (r: Option<nat>)
      requires Valid() && k < |inuse| && 0 < n
      requires inuse[k].high < low && low + n - 1 < NextLow(inuse, k, blockEnd)
      modifies this
      ensures Valid() && Total() == old(Total())
      ensures RangeFree(old(inuse), low, low + n - 1) && low + n <= blockEnd
      ensures r.None? ==> inuse == old(inuse)
      ensures nodeAvail || low == old(inuse[k].high) + 1 ==> r.Some?
      ensures r.Some? <==> nodeAvail || Joins(old(inuse), low, low + n - 1)
      ensures low == old(inuse[k].high) + 1 ==> |inuse| <= old(|inuse|)
      ensures numFree == old(numFree) - if r.Some? then n else 0
      ensures r.Some? ==>
                && r.value == low
                && (forall b :: InUse(inuse, b) <==> InUse(old(inuse), b) || low <= b < low + n)
    {
      hide Put, Canonical, InUse, Covered, Joins;
      RunInside(inuse, k, low, low + n - 1, blockStart, blockEnd);
      JoinsIff(inuse, k, low, low + n - 1, blockStart, blockEnd);
      PutCanonical(inuse, k + 1, low, low + n - 1, blockStart, blockEnd);
      var ok := PlaceAfter(k, low, low + n - 1, nodeAvail);
      if ok {
        numFree := numFree - n;
        return Some(low);
      }
      return None;
    }

    /** pmfs_new_block without the zeroing of the block. */
    method NewBlock(btype: BlockType, nodeAvail: bool) returns (r: Option<nat>)
      requires Valid()
      modifies this
      ensures Valid() && Total() == old(Total())
      ensures r.None? ==> inuse == old(inuse)
      ensures nodeAvail || btype.Block4K? ==> (r.None? <==> OutOfSpace(old(inuse), blockEnd, btype))
      ensures r.None? <==> NoRoom(old(inuse), blockEnd, NumBlocks(btype), nodeAvail)
      ensures numFree == old(numFree) - if r.Some? then NumBlocks(btype) else 0
      ensures r.Some? ==> var n := NumBlocks(btype);
                && Fits(old(inuse), blockEnd, n, r.value)
                && (forall b: nat :: Fits(old(inuse), blockEnd, n, b) ==> r.value <= b)
                && (forall b :: InUse(inuse, b) <==> InUse(old(inuse), b) || r.value <= b < r.value + n)
      ensures btype.Block4K? ==> |inuse| <= old(|inuse|)
    {
      hide NoRoom, Joins, Canonical, Covered, InUse, RangeFree;
      var n := NumBlocks(btype);
      var k := 0;
      while k < |inuse|
        invariant 0 <= k <= |inuse| && inuse == old(inuse) && numFree == old(numFree) && numNodes == old(numNodes)
        invariant forall b: nat :: Fits(inuse, blockEnd, n, b) ==> k < |inuse| && inuse[k].high < b
      {
        var nextLow := NextLow(inuse, k, blockEnd);
        var low := AlignedAfter(inuse[k].high, n);
        var high := low + n - 1;
        AlignedAfterIsAligned(inuse[k].high, n);
        if nextLow <= high {
          forall b: nat | Fits(inuse, blockEnd, n, b) ensures k + 1 < |inuse| && inuse[k + 1].high < b {
            SkipNode(inuse, blockStart, blockEnd, n, k, b);
          }
          k := k + 1;
        } else {
          forall b: nat | Fits(inuse, blockEnd, n, b) ensures low <= b {
            AlignedAfterIsLeast(inuse[k].high, n, b);
          }
          r := TakeRun(k, low, n, nodeAvail);
          assert Fits(old(inuse), blockEnd, n, low) by { PastFirst(old(inuse), blockStart, blockEnd, k); }
          TakesFirstFit(old(inuse), blockEnd, n, low, nodeAvail);
          return;
        }
      }
      r := None;
      NothingFits(inuse, blockEnd, n, nodeAvail);
    }

    // -------------------------------------------------------------- freeing

    /** A start hint is null or names a node of the list. */
    predicate LiveHint(hint: Option<nat>)
      reads this
    {
      hint.Some? ==> hint.value < |inuse|
    }

    /** It names the first node past block b, if there is one. */
    static predicate FirstPast(l: seq<Interval>, hint: Option<nat>, b: nat) {
      var n := if hint.Some? then hint.value else |l|;
      n <= |l| && (n < |l| <==> hint.Some?) && (forall k :: 0 <= k < n ==> l[k].low <= b) && (n < |l| ==> b < l[n].low)
    }

    /** Take [low, high] out of node i, which holds it: the four matching cases
        of __pmfs_free_block. */
    method CutNode(i: nat, low: nat, high: nat, nodeAvail: bool) returns (ok: bool, hint: Option<nat>)
      requires Valid() && Holds(inuse, i, low, high)
      modifies this`inuse, this`numNodes
      ensures inuse == if ok then Cut(old(inuse), i, low, high) else old(inuse)
      ensures numNodes - |inuse| == old(numNodes - |inuse|)
      ensures ok <==> nodeAvail || low == old(inuse)[i].low || high == old(inuse)[i].high
      ensures ok ==> LiveHint(hint) && FirstPast(inuse, hint, low)
    {
      hide Cut;
      CutCases(inuse, i, low, high);
      var n := inuse[i];
      ok := true;
      if low == n.low && high == n.high {
        hint := if i + 1 < |inuse| then Some(i) else None;
        inuse := inuse[..i] + inuse[i + 1..];
        numNodes := numNodes - 1;
      } else if low == n.low {
        inuse := inuse[i := Interval(high + 1, n.high)];
        hint := Some(i);
      } else if high == n.high {
        inuse := inuse[i := Interval(n.low, low - 1)];
        hint := if i + 1 < |inuse| then Some(i + 1) else None;
      } else if nodeAvail {
        inuse := inuse[..i] + [Interval(n.low, low - 1), Interval(high + 1, n.high)] + inuse[i + 1..];
        numNodes := numNodes + 1;
        hint := Some(i + 1);
      } else {
        ok, hint := false, None;
      }
    }

    /** __pmfs_free_block.  `hint` and the returned hint are positions in the
        list before and after the call. */
    method FreeBlock(blocknr: nat, btype: BlockType, hint: Option<nat>, nodeAvail: bool)
      returns (ok: bool, hint': Option<nat>)
      requires Valid() && inuse != [] && LiveHint(hint)
      modifies this
      ensures Valid() && LiveHint(hint') && Total() == old(Total())
      ensures var low, high := blocknr, blocknr + NumBlocks(btype) - 1;
              && (ok <==> RangeUsed(old(inuse), low, high) && (nodeAvail || !Splits(old(inuse), low, high)))
              && inuse == (if ok then Removed(old(inuse), low, high) else old(inuse))
      ensures numFree == old(numFree) + if ok then NumBlocks(btype) else 0
      ensures ok ==> forall b :: InUse(inuse, b) <==>
                                 InUse(old(inuse), b) && !(blocknr <= b < blocknr + NumBlocks(btype))
      ensures if ok then FirstPast(inuse, hint', blocknr) else hint' == hint
    {
      var low, high := blocknr, blocknr + NumBlocks(btype) - 1;
      var i := 0;
      hint' := hint;
      if hint.Some? && inuse[hint.value].low <= low { i := hint.value; }
      while i < |inuse|
        invariant i <= |inuse| && inuse == old(inuse) && numFree == old(numFree) && numNodes == old(numNodes)
        invariant forall k: nat :: k < i ==> !Holds(inuse, k, low, high)
      {
        if inuse[i].low <= low && high <= inuse[i].high {
          ok, hint' := GiveBack(i, low, high, nodeAvail, hint);
          return;
        }
        i := i + 1;
      }
      if RangeUsed(inuse, low, high) {
        var k := UsedRangeIsHeld(inuse, low, high, blockStart, blockEnd);
        assert false;
      }
      ok := false;
    }

    method GiveBack(i: nat, low: nat, high: nat, nodeAvail: bool, hint: Option<nat>)
      returns (ok: bool, hint': Option<nat>)
      requires Valid() && Holds(inuse, i, low, high) && LiveHint(hint)
      modifies this
      ensures Valid() && LiveHint(hint') && Total() == old(Total())
      ensures ok <==> nodeAvail || !Splits(old(inuse), low, high)
      ensures inuse == if ok then Removed(old(inuse), low, high) else old(inuse)
      ensures numFree == old(numFree) + if ok then high - low + 1 else 0
      ensures RangeUsed(old(inuse), low, high)
      ensures ok ==> forall b :: InUse(inuse, b) <==> InUse(old(inuse), b) && !(low <= b <= high)
      ensures if ok then FirstPast(inuse, hint', low) else hint' == hint
    {
      hide Cut, Canonical, InUse, Covered, Removed, Splits, FirstPast;
      HeldIsUsed(inuse, i, low, high);
      SplitsIff(inuse, i, low, high, blockStart, blockEnd);
      RemovedIsCut(inuse, i, low, high, blockStart, blockEnd);
      ok, hint' := CutNode(i, low, high, nodeAvail);
      if ok {
        numFree := numFree + (high - low + 1);
        CutBlocks(old(inuse), i, low, high, blockStart, blockEnd);
      } else {
        hint' := hint;
      }
    }

    // -------------------------------------------------------------- rebuild

    /** pmfs_init_blockmap: the reserved prefix becomes the first node.  The
        counter also loses a constant number of blocks set aside for user space. */
    method InitBlockmap(numUsed: nat)
      requires inuse == [] && numNodes == 0 && 0 < numUsed && blockStart + numUsed <= blockEnd
      modifies this
      ensures Valid() && Total() == old(numFree) - UFS_BLOCKS
      ensures inuse == [Interval(blockStart, blockStart + numUsed - 1)]
    {
      inuse := [Interval(blockStart, blockStart + numUsed - 1)];
      numNodes := numNodes + 1;
      numFree := numFree - numUsed - UFS_BLOCKS;
      CoveredShort(inuse);
    }

    /** pmfs_alloc_insert_blocknode_map: enter a run found by the crash scan. */
    method InsertRange(low: nat, high: nat, nodeAvail: bool) returns (ok: bool)
      requires Valid() && low <= high
      modifies this
      ensures Valid() && Total() == old(Total())
      ensures ok <==> Insertable(old(inuse), blockEnd, low, high) && (nodeAvail || Joins(old(inuse), low, high))
      ensures !ok ==> inuse == old(inuse) && numFree == old(numFree)
      ensures ok ==> forall b :: InUse(inuse, b) <==> InUse(old(inuse), b) || low <= b <= high
    {
      var k := 0;
      while k < |inuse|
        invariant 0 <= k <= |inuse| && inuse == old(inuse) && numFree == old(numFree) && numNodes == old(numNodes)
        invariant forall p: nat :: 1 <= p <= k ==> !Gap(inuse, p, low, high) || blockEnd <= high
      {
        if high < NextLow(inuse, k, blockEnd) && inuse[k].high < low {
          var r := TakeRun(k, low, high - low + 1, nodeAvail);
          ok := r.Some?;
          return;
        }
        if k + 1 < |inuse| { assert inuse[k + 1].high < blockEnd; }
        k := k + 1;
      }
      if Insertable(inuse, blockEnd, low, high) {
        var j := FreeRangeHasGap(inuse, low, high, blockStart, blockEnd);
        assert false;
      }
      ok := false;
    }

    // -------------------------------------------------------------- sequences

    /** Frees one after another, as truncation does them, each starting from the hint
        of the one before or always from the head: the list comes out the same. */
    method FreeAll(frees: seq<(nat, BlockType)>, carry: bool, hint: Option<nat>) returns (oks: seq<bool>)
      requires Valid() && LiveHint(hint)
      modifies this
      ensures Valid() && Total() == old(Total()) && inuse == RemovedAll(old(inuse), frees)
      ensures |oks| == |frees|
      ensures forall i :: 0 <= i < |frees| ==>
                (oks[i] <==> RangeUsed(RemovedAll(old(inuse), frees[..i]), frees[i].0, frees[i].0 + NumBlocks(frees[i].1) - 1))
    {
      hide Canonical, Covered, Removed, RangeUsed, InUse, RemovedAll, Splits;
      oks := [];
      var h := hint;
      NoFrees(inuse, frees);
      for i := 0 to |frees|
        invariant Valid() && LiveHint(h) && Total() == old(Total()) && inuse == RemovedAll(old(inuse), frees[..i])
        invariant |oks| == i
        invariant forall k :: 0 <= k < i ==>
                    (oks[k] <==> RangeUsed(RemovedAll(old(inuse), frees[..k]), frees[k].0, frees[k].0 + NumBlocks(frees[k].1) - 1))
      {
        OneMoreFree(old(inuse), frees, i);
        var ok := false;
        if inuse != [] {
          ok, h := FreeBlock(frees[i].0, frees[i].1, if carry then h else None, true);
        } else {
          NothingUsed(frees[i].0, NumBlocks(frees[i].1));
        }
        oks := oks + [ok];
      }
      assert frees[..|frees|] == frees;
    }

    /** Freeing what an allocation returned restores the list and the counters. */
    method NewThenFree(btype: BlockType, nodeAvail: bool, hint: Option<nat>) returns (r: Option<nat>)
      requires Valid() && (hint.Some? ==> hint.value == 0)
      modifies this
      ensures Valid() && inuse == old(inuse) && numFree == old(numFree) && numNodes == old(numNodes)
      ensures r.None? <==> NoRoom(old(inuse), blockEnd, NumBlocks(btype), nodeAvail)
    {
      hide Canonical, Covered, Removed, NoRoom, Splits, Joins;
      ghost var l := inuse;
      r := NewBlock(btype, nodeAvail);
      if r.None? { return; }
      TakenIsUsed(l, inuse, r.value, NumBlocks(btype));
      var ok, h := FreeBlock(r.value, btype, hint, true);
      BackAgain(l, inuse, blockStart, blockEnd);
    }

    /** Any run of allocations, frees and insertions, each with or without a list node
        to hand, frees starting from the hint of the one before: every operation does
        what the list before it says, the list stays canonical, the node count exact and
        the total of free and used blocks constant.  lists[i] is the list before
        operation i. */
    method Run(ops: seq<Op>) returns (rs: seq<Outcome>, ghost lists: seq<seq<Interval>>)
      requires Valid()
      modifies this
      ensures Valid() && Total() == old(Total())
      ensures numFree + |UsedSet(inuse, blockStart, blockEnd)| ==
              old(numFree) + |UsedSet(old(inuse), blockStart, blockEnd)|
      ensures |rs| == |ops| && |lists| == |ops| + 1 && lists[0] == old(inuse) && lists[|ops|] == inuse
      ensures forall i :: 0 <= i < |ops| ==> Right(lists[i], blockEnd, ops[i], rs[i], lists[i + 1])
    {
      hide Canonical, Covered, Right, InUse, UsedSet;
      CoveredIsCount(inuse, blockStart, blockEnd);
      rs, lists := [], [inuse];
      var hint: Option<nat> := None;
      for i := 0 to |ops|
        invariant Valid() && Total() == old(Total()) && LiveHint(hint)
        invariant |rs| == i && |lists| == i + 1 && lists[0] == old(inuse) && lists[i] == inuse
        invariant forall k :: 0 <= k < i ==> Right(lists[k], blockEnd, ops[k], rs[k], lists[k + 1])
      {
        var r;
        r, hint := Apply(ops[i], hint);
        rs, lists := rs + [r], lists + [inuse];
      }
      CoveredIsCount(inuse, blockStart, blockEnd);
    }

    method Apply(op: Op, hint: Option<nat>) returns (r: Outcome, hint': Option<nat>)
      requires Valid() && LiveHint(hint)
      modifies this
      ensures Valid() && Total() == old(Total()) && LiveHint(hint') && Right(old(inuse), blockEnd, op, r, inuse)
    {
      hide Canonical, Covered, InUse, Removed, Fits;
      hint', r := None, Failed;
      match op {
        case New(btype, nodeAvail) =>
          var b := NewBlock(btype, nodeAvail);
          if b.Some? { r := Took(b.value); }
        case Free(blocknr, btype, nodeAvail) =>
          if inuse == [] {
            NothingUsed(blocknr, NumBlocks(btype));
          } else {
            var ok;
            ok, hint' := FreeBlock(blocknr, btype, hint, nodeAvail);
            if ok { r := Applied; }
          }
        case Insert(low, high, nodeAvail) =>
          if low <= high {
            var ok := InsertRange(low, high, nodeAvail);
            if ok { r := Applied; }
          }
      }
    }
  }

  // ---------------------------------------------------------------- laws

  datatype Outcome = Took(b: nat) | Applied | Failed

  /** l' is l with [low, low + n) added. */
  ghost predicate Added(l: seq<Interval>, l': seq<Interval>, low: nat, n: nat) {
    forall b :: InUse(l', b) <==> InUse(l, b) || low <= b < low + n
  }

  /** What an operation does to list l. */
  ghost predicate Right(l: seq<Interval>, end: nat, op: Op, r: Outcome, l': seq<Interval>) {
    match op
    case New(btype, nodeAvail) =>
      var n := NumBlocks(btype);
      if r.Took? then FirstFit(l, end, n, r.b) && (nodeAvail || Joins(l, r.b, r.b + n - 1)) && Added(l, l', r.b, n)
      else r.Failed? && NoRoom(l, end, n, nodeAvail) && l' == l
    case Free(blocknr, btype, nodeAvail) =>
      var low, high := blocknr, blocknr + NumBlocks(btype) - 1;
      if RangeUsed(l, low, high) && (nodeAvail || !Splits(l, low, high)) then r.Applied? && l' == Removed(l, low, high)
      else r.Failed? && l' == l
    case Insert(low, high, nodeAvail) =>
      if low <= high && Insertable(l, end, low, high) && (nodeAvail || Joins(l, low, high))
      then r.Applied? && Added(l, l', low, high + 1 - low)
      else r.Failed? && l' == l
  }

  lemma NoFrees(l: seq<Interval>, frees: seq<(nat, BlockType)>)
    ensures RemovedAll(l, frees[..0]) == l
  {
  }

  lemma OneMoreFree(l: seq<Interval>, frees: seq<(nat, BlockType)>, i: nat)
    requires i < |frees|
    ensures var m := RemovedAll(l, frees[..i]); var low, high := frees[i].0, frees[i].0 + NumBlocks(frees[i].1) - 1;
            RemovedAll(l, frees[..i + 1]) == if RangeUsed(m, low, high) then Removed(m, low, high) else m
  {
    hide Removed, RangeUsed;
    assert frees[..i + 1][..i] == frees[..i];
  }

  lemma NothingUsed(low: nat, n: nat)
    requires 0 < n
    ensures !RangeUsed([], low, low + n - 1)
  {
    assert !InUse([], low);
  }

  lemma TakenIsUsed(l: seq<Interval>, l': seq<Interval>, b: nat, n: nat)
    requires 0 < n && forall x :: InUse(l', x) <==> InUse(l, x) || b <= x < b + n
    ensures RangeUsed(l', b, b + n - 1) && l' != []
  {
    assert InUse(l', b);
  }

  lemma BackAgain(l: seq<Interval>, l': seq<Interval>, start: nat, end: nat)
    requires Canonical(l, start, end) && Canonical(l', start, end) && forall b :: InUse(l', b) <==> InUse(l, b)
    ensures l' == l
  {
    CanonicalUnique(l', l, start, end);
  }
}
