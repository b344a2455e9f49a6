/** Handing out and taking back inodes (inode.c): the free hint, the free count,
    and growth of the inode table.  Inodes 0, 1 and 2 are never handed out. */
module InodeTable {
  import opened Arith
  import opened Allocator
  import opened BlockTree
  import opened Rebuild

  const HINT_START: nat := 3

  /** Seconds are stored in 32 bits. */
  const SECONDS: nat := 0x1_0000_0000

  /** No inode in [a, b) is free. */
  ghost predicate NoneFree(recs: seq<InodeRec>, a: nat, b: nat) {
    b <= |recs| && forall i :: a <= i < b ==> !IsFree(recs[i])
  }

  /** Free inodes among those that may be handed out. */
  function FreeCount(recs: seq<InodeRec>): nat
    requires HINT_START <= |recs|
    decreases |recs|
  {
    if |recs| == HINT_START then 0
    else FreeCount(recs[..|recs| - 1]) + if IsFree(recs[|recs| - 1]) then 1 else 0
  }

  lemma {:induction false} FreeCountUpdate(recs: seq<InodeRec>, i: nat, r: InodeRec)
    requires HINT_START <= i < |recs|
    ensures FreeCount(recs[i := r]) == FreeCount(recs) - (if IsFree(recs[i]) then 1 else 0) + (if IsFree(r) then 1 else 0)
    decreases |recs|
  {
    var n := |recs| - 1;
    if i == n {
      assert recs[i := r][..n] == recs[..n];
    } else {
      assert recs[i := r][..n] == recs[..n][i := r];
      FreeCountUpdate(recs[..n], i, r);
    }
  }

  lemma {:induction false} FreeCountGrows(recs: seq<InodeRec>, more: seq<InodeRec>)
    requires HINT_START <= |recs| && forall i :: 0 <= i < |more| ==> IsFree(more[i])
    ensures FreeCount(recs + more) == FreeCount(recs) + |more|
    decreases |more|
  {
    if more == [] {
      assert recs + more == recs;
    } else {
      var m := more[..|more| - 1];
      assert (recs + more)[..|recs + more| - 1] == recs + m;
      FreeCountGrows(recs, m);
    }
  }

  /** Inodes `from` up to `to` have a link, or a mode and no deletion time. */
  predicate AllLive(recs: seq<InodeRec>, from: nat, to: nat) {
    forall k: nat :: from <= k < to && k < |recs| ==> recs[k].links > 0 || (recs[k].mode != 0 && recs[k].dtime == 0)
  }

  lemma NoneFreeLive(recs: seq<InodeRec>, from: nat, to: nat)
    requires to <= |recs| && NoneFree(recs, from, to)
    ensures AllLive(recs, from, to)
  {
  }

  /** A zeroed inode, as the table's new blocks hold them. */
  const ZERO := InodeRec(0, 0, 0, 0, 0, Block4K)

  class Inodes {
    var recs: seq<InodeRec>
    var hint: nat        // s_free_inode_hint
    var freeCount: int   // s_free_inodes_count
    const perBlock: nat  // INODES_PER_BLOCK of the table's block type

    ghost predicate Valid()
      reads this
    {
      && 0 < perBlock && |recs| % perBlock == 0 && HINT_START <= hint <= |recs|
      && freeCount == FreeCount(recs)
      && NoneFree(recs, HINT_START, hint)
    }

    /** The search of pmfs_new_inode, block of inodes by block of inodes, from i on. */
    method FindFree(from: nat) returns (i: nat)
      requires 0 < perBlock && |recs| % perBlock == 0 && from <= |recs|
      ensures from <= i <= |recs| && (forall k :: from <= k < i ==> !IsFree(recs[k])) && (i < |recs| ==> IsFree(recs[i]))
      ensures AllLive(recs, from, i)
      ensures i < |recs| ==> recs[i].links == 0 && (recs[i].mode == 0 || recs[i].dtime != 0)
    {
      i := from;
      while i < |recs|
        invariant from <= i <= |recs| && forall k :: from <= k < i ==> !IsFree(recs[k])
        decreases |recs| - i
      {
        var end := i + (perBlock - i % perBlock);
        BlockEnd(i, |recs|, perBlock);
        while i < end && !IsFree(recs[i])
          invariant from <= i <= end <= |recs| && forall k :: from <= k < i ==> !IsFree(recs[k])
          decreases end - i
        {
          i := i + 1;
        }
        if i < end { break; }
      }
    }

    /** pmfs_increase_inode_table_size; `allocOk` is the outcome of the block
        allocation, which zeroes the block. */
    method Grow(allocOk: bool) returns (ok: bool)
      requires Valid() && hint <= |recs| && NoneFree(recs, HINT_START, |recs|)
      modifies this
      ensures Valid() && ok == allocOk
      ensures recs == if ok then old(recs) + seq(perBlock, _ => ZERO) else old(recs)
      ensures ok ==> hint == |old(recs)| && freeCount == old(freeCount) + perBlock
      ensures !ok ==> hint == old(hint)
    {
      if !allocOk { return false; }
      var zeros := seq(perBlock, _ => ZERO);
      FreeCountGrows(recs, zeros);
      Grown(|recs|, perBlock);
      hint := |recs|;
      freeCount := freeCount + perBlock;
      recs := recs + zeros;
      return true;
    }

    /** The choice of an inode in pmfs_new_inode: the least free one, growing the
        table by one block, and looking once more, only when none is free.  `rec`
        is what the new inode is initialised to. */
    method NewInode(rec: InodeRec, allocOk: bool) returns (nr: Option<nat>)
      requires Valid() && !IsFree(rec)
      modifies this
      ensures Valid()
      ensures nr.None? <==> NoneFree(old(recs), HINT_START, |old(recs)|) && !allocOk
      ensures nr.None? ==> recs == old(recs)
      ensures nr.Some? && nr.value < |old(recs)| ==> old(recs)[nr.value].links == 0
      ensures AllLive(old(recs), HINT_START, if nr.Some? then nr.value else |old(recs)|)
      ensures nr.Some? ==> HINT_START <= nr.value < |recs| && recs[nr.value] == rec
      ensures hint == if nr.None? then old(hint) else if nr.value + 1 == |recs| then HINT_START else nr.value + 1
      ensures nr.Some? && nr.value < |old(recs)| ==>
                IsFree(old(recs)[nr.value]) && NoneFree(old(recs), HINT_START, nr.value) && recs == old(recs)[nr.value := rec]
      ensures nr.Some? && nr.value >= |old(recs)| ==>
                NoneFree(old(recs), HINT_START, |old(recs)|) && nr.value == |old(recs)|
                && recs == (old(recs) + seq(perBlock, _ => ZERO))[nr.value := rec]
    {
      hide IsFree, FreeCount, AllLive;
      var i := FindFree(hint);
      NoneFreeLive(recs, HINT_START, i);
      if i >= |recs| {
        var ok := Grow(allocOk);
        if !ok { return None; }
        FreeMeans(recs[i]);
        i := FindFree(i);
      }
      FreeCountUpdate(recs, i, rec);
      recs := recs[i := rec];
      freeCount := freeCount - 1;
      hint := if i < |recs| - 1 then i + 1 else HINT_START;
      return Some(i);
    }

    /** pmfs_free_inode for an inode whose last link is gone, at time `now`.  Its record
        looks free, and the count stays exact, unless the time stored happens to be 0. */
    method FreeInode(nr: nat, now: nat)
      requires Valid() && HINT_START <= nr < |recs| && recs[nr].links == 0 && !IsFree(recs[nr])
      modifies this
      ensures recs == old(recs)[nr := old(recs)[nr].(dtime := now % SECONDS, root := 0)]
      ensures freeCount == old(freeCount) + 1 && (Valid() <==> now % SECONDS != 0)
      ensures (IsFree(recs[nr]) <==> now % SECONDS != 0)
      ensures hint == if freeCount == |recs| - HINT_START then HINT_START else if nr < old(hint) then nr else old(hint)
    {
      var rec := recs[nr].(dtime := now % SECONDS, root := 0);
      FreeCountUpdate(recs, nr, rec);
      recs := recs[nr := rec];
      if nr < hint { hint := nr; }
      freeCount := freeCount + 1;
      if freeCount == |recs| - HINT_START { hint := HINT_START; }
    }
  }

  lemma Grown(n: nat, per: nat)
    requires 0 < per && n % per == 0
    ensures (n + per) % per == 0
  {
    DivModUnique(n + per, per, n / per + 1, 0);
  }

  /** The inodes of the table, in order. */
  function TableRecs(tb: Table, t: Tree): seq<InodeRec> {
    match t
    case Hole => []
    case Leaf(p) => if p in tb.recs then tb.recs[p] else []
    case Node(_, kids) => KidRecs(tb, kids)
  }

  function KidRecs(tb: Table, kids: seq<Tree>): seq<InodeRec> {
    if kids == [] then [] else KidRecs(tb, kids[..|kids| - 1]) + TableRecs(tb, kids[|kids| - 1])
  }

  lemma {:induction false} CountUsedAppend(a: seq<InodeRec>, b: seq<InodeRec>)
    ensures CountUsed(a + b) == CountUsed(a) + CountUsed(b)
    decreases |b|
  {
    if b == [] {
      assert a + b == a;
    } else {
      assert (a + b)[..|a + b| - 1] == a + b[..|b| - 1];
      CountUsedAppend(a, b[..|b| - 1]);
    }
  }

  /** The crawl counts them all, and those in use. */
  lemma {:induction false} CrawlCounts(tb: Table, t: Tree)
    ensures AllInodes(tb, t) == |TableRecs(tb, t)|
    ensures UsedInodes(tb, t) == CountUsed(TableRecs(tb, t)) == |LiveAt(TableRecs(tb, t))|
    decreases t, 1
  {
    CountUsedIs(TableRecs(tb, t));
    match t
    case Hole =>
    case Leaf(_) =>
    case Node(_, kids) => CrawlCountsKids(tb, t, kids);
  }

  lemma {:induction false} CrawlCountsKids(tb: Table, t: Tree, kids: seq<Tree>)
    requires forall i :: 0 <= i < |kids| ==> kids[i] < t
    ensures AllInKids(tb, kids) == |KidRecs(tb, kids)| && UsedInKids(tb, kids) == CountUsed(KidRecs(tb, kids))
    decreases t, 0, |kids|
  {
    if kids == [] {
    } else {
      var last := kids[|kids| - 1];
      CrawlCountsKids(tb, t, kids[..|kids| - 1]);
      CrawlCounts(tb, last);
      CountUsedAppend(KidRecs(tb, kids[..|kids| - 1]), TableRecs(tb, last));
    }
  }

  /** After a crash the free count is recomputed from the crawl's counts, with two inodes
      added to those in use: the result is the count that was kept, given that the root
      inode is in use and that inode 0 and the block-list inode are not. */
  lemma Recount(tb: Table, t: Tree)
    requires var recs := TableRecs(tb, t); HINT_START <= |recs| && IsFree(recs[0]) && !IsFree(recs[1]) && IsFree(recs[2])
    ensures AllInodes(tb, t) - (UsedInodes(tb, t) + 2) == FreeCount(TableRecs(tb, t))
  {
    hide UsedInodes, AllInodes, TableRecs, CountUsed, FreeCount;
    CrawlCounts(tb, t);
    UsedAndFree(TableRecs(tb, t));
  }

  lemma {:induction false} UsedAndFree(recs: seq<InodeRec>)
    requires HINT_START <= |recs| && IsFree(recs[0]) && !IsFree(recs[1]) && IsFree(recs[2])
    ensures CountUsed(recs) + FreeCount(recs) + 2 == |recs|
    decreases |recs|
  {
    var n := |recs| - 1;
    if |recs| == HINT_START {
      assert CountUsed(recs[..0]) == 0;
      assert recs[..1][..0] == recs[..0] && CountUsed(recs[..1]) == 0;
      assert recs[..2][..1] == recs[..1] && CountUsed(recs[..2]) == 1;
      assert recs[..n] == recs[..2];
    } else {
      UsedAndFree(recs[..n]);
    }
  }

  // ---------------------------------------------------------------- runs

  datatype Op = Create(rec: InodeRec, allocOk: bool) | Evict(nr: nat, now: nat)

  /** Inode numbers in use. */
  ghost function Used(recs: seq<InodeRec>): set<nat> {
    set i: nat | HINT_START <= i < |recs| && !IsFree(recs[i])
  }

  /** The inode number a creation must get: the least one not in use. */
  ghost predicate Least(used: set<nat>, nr: nat) {
    HINT_START <= nr && nr !in used && forall k :: HINT_START <= k < nr ==> k in used
  }

  /** An eviction of nr takes place. */
  predicate Evictable(recs: seq<InodeRec>, nr: nat) {
    HINT_START <= nr < |recs| && recs[nr].links == 0 && !IsFree(recs[nr])
  }

  /** The table with room for inode nr. */
  function Roomy(recs: seq<InodeRec>, nr: nat, per: nat): seq<InodeRec> {
    if nr < |recs| then recs else recs + seq(per, _ => ZERO)
  }

  /** What an operation does to the table: a creation gets the least number not in use,
      and fails exactly if all are in use and the table cannot grow; it grows only
      then. */
  ghost predicate Right(recs: seq<InodeRec>, op: Op, r: Option<nat>, per: nat, recs': seq<InodeRec>) {
    match op
    case Create(rec, allocOk) =>
      if r.None? then NoneFree(recs, HINT_START, |recs|) && !allocOk && recs' == recs
      else && Least(Used(recs), r.value) && (|recs| <= r.value ==> allocOk)
           && r.value < |Roomy(recs, r.value, per)| && recs' == Roomy(recs, r.value, per)[r.value := rec]
    case Evict(nr, now) =>
      if HINT_START <= nr < |recs| && recs[nr].links == 0 && recs[nr].mode != 0 && recs[nr].dtime == 0
      then r == Some(nr) && recs' == recs[nr := recs[nr].(dtime := now % SECONDS, root := 0)]
      else r.None? && recs' == recs
  }

  /** Creations make an inode that is in use, and evictions have a time that is not 0. */
  predicate Sensible(op: Op) {
    match op case Create(rec, _) => !IsFree(rec) case Evict(_, now) => now % SECONDS != 0
  }

  /** Any run of creations and evictions keeps hint and count exact, and every operation
      does what the table before it says.  tables[i] is the table before operation i. */
  method Run(t: Inodes, ops: seq<Op>) returns (rs: seq<Option<nat>>, ghost tables: seq<seq<InodeRec>>)
    requires t.Valid() && forall i :: 0 <= i < |ops| ==> Sensible(ops[i])
    modifies t
    ensures t.Valid() && t.freeCount == |t.recs| - HINT_START - |Used(t.recs)|
    ensures |rs| == |ops| && |tables| == |ops| + 1 && tables[0] == old(t.recs) && tables[|ops|] == t.recs
    ensures forall i :: 0 <= i < |ops| ==> Right(tables[i], ops[i], rs[i], t.perBlock, tables[i + 1])
  {
    hide Right;
    rs, tables := [], [t.recs];
    for n := 0 to |ops|
      invariant t.Valid() && |rs| == n && |tables| == n + 1 && tables[0] == old(t.recs) && tables[n] == t.recs
      invariant forall i :: 0 <= i < n ==> Right(tables[i], ops[i], rs[i], t.perBlock, tables[i + 1])
    {
      var r := Apply(t, ops[n]);
      rs, tables := rs + [r], tables + [t.recs];
    }
    UsedSize(t.recs);
  }

  method Apply(t: Inodes, op: Op) returns (r: Option<nat>)
    requires t.Valid() && Sensible(op)
    modifies t
    ensures t.Valid() && Right(old(t.recs), op, r, t.perBlock, t.recs)
  {
    match op {
      case Create(rec, allocOk) =>
        r := t.NewInode(rec, allocOk);
      case Evict(nr, now) =>
        r := None;
        if Evictable(t.recs, nr) {
          t.FreeInode(nr, now);
          r := Some(nr);
        }
    }
  }

  lemma {:induction false} UsedSize(recs: seq<InodeRec>)
    requires HINT_START <= |recs|
    ensures FreeCount(recs) == |recs| - HINT_START - |Used(recs)|
    decreases |recs|
  {
    if |recs| == HINT_START {
      assert Used(recs) == {};
    } else {
      var n := |recs| - 1;
      UsedSize(recs[..n]);
      assert Used(recs) == Used(recs[..n]) + if IsFree(recs[n]) then {} else {n};
    }
  }

  lemma BlockEnd(i: nat, n: nat, per: nat)
    requires 0 < per && n % per == 0 && i < n
    ensures i < i + (per - i % per) <= n
  {
    var q, m := i / per, n / per;
    assert i == q * per + i % per && n == m * per;
    if q >= m { MulMono(m, q, per); }
    MulMono(q + 1, m, per);
  }
}
