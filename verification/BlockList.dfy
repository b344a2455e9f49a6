/** The in-use list of the block allocator: a sorted list of block intervals,
    any two of them separated by at least one free block.  `Put` is the one
    list edit that both allocation and crash rebuild perform; freeing is its
    inverse. */
module BlockList {

  /** struct pmfs_blocknode without its list links. */
  datatype Interval = Interval(low: nat, high: nat)

  /** Block b is covered by some node of the list. */
  predicate InUse(l: seq<Interval>, b: int) {
    exists k :: 0 <= k < |l| && l[k].low <= b <= l[k].high
  }

  /** No block of [low, high] is in use. */
  predicate RangeFree(l: seq<Interval>, low: int, high: int) {
    forall b :: low <= b <= high ==> !InUse(l, b)
  }

  /** Every block of [low, high] is in use. */
  predicate RangeUsed(l: seq<Interval>, low: int, high: int) {
    forall b :: low <= b <= high ==> InUse(l, b)
  }

  /** Sorted, inside [start, end), and strictly separated. */
  predicate Canonical(l: seq<Interval>, start: int, end: int) {
    && (forall k :: 0 <= k < |l| ==> start <= l[k].low <= l[k].high < end)
    && (forall j, k :: 0 <= j < k < |l| ==> l[j].high + 1 < l[k].low)
  }

  /** Number of blocks the list covers, counted node by node. */
  function Covered(l: seq<Interval>): int {
    if l == [] then 0
    else Covered(l[..|l| - 1]) + l[|l| - 1].high - l[|l| - 1].low + 1
  }

  function NextLow(l: seq<Interval>, k: nat, end: nat): nat
    requires k < |l|
  {
    if k + 1 < |l| then l[k + 1].low else end
  }

  // ---------------------------------------------------------------- Put

  /** [low, high] lies strictly between nodes p-1 and p. */
  predicate Gap(l: seq<Interval>, p: nat, low: nat, high: nat) {
    && p <= |l| && low <= high
    && (0 < p ==> l[p - 1].high < low)
    && (p < |l| ==> high < l[p].low)
  }

  /** Add [low, high] at position p, joining it to whichever neighbours it touches. */
  function Put(l: seq<Interval>, p: nat, low: nat, high: nat): seq<Interval>
    requires Gap(l, p, low, high)
  {
    var left := 0 < p && l[p - 1].high + 1 == low;
    var right := p < |l| && high + 1 == l[p].low;
    if left && right then l[..p - 1] + [Interval(l[p - 1].low, l[p].high)] + l[p + 1..]
    else if left then l[p - 1 := Interval(l[p - 1].low, high)]
    else if right then l[p := Interval(low, l[p].high)]
    else l[..p] + [Interval(low, high)] + l[p..]
  }

  /** A point is covered by a concatenation iff one part covers it. */
  lemma InUseConcat(a: seq<Interval>, c: seq<Interval>, b: int)
    ensures InUse(a + c, b) <==> InUse(a, b) || InUse(c, b)
  {
    if InUse(a, b) {
      var k :| 0 <= k < |a| && a[k].low <= b <= a[k].high;
      assert (a + c)[k] == a[k];
    }
    if InUse(c, b) {
      var k :| 0 <= k < |c| && c[k].low <= b <= c[k].high;
      assert (a + c)[|a| + k] == c[k];
    }
  }

  lemma {:induction false} CoveredConcat(a: seq<Interval>, c: seq<Interval>)
    ensures Covered(a + c) == Covered(a) + Covered(c)
    decreases |c|
  {
    if c == [] {
      assert a + c == a;
    } else {
      assert (a + c)[..|a + c| - 1] == a + c[..|c| - 1];
      CoveredConcat(a, c[..|c| - 1]);
    }
  }

  /** Replacing the middle segment of a list changes coverage by that segment only. */
  lemma Splice(a: seq<Interval>, m: seq<Interval>, m': seq<Interval>, c: seq<Interval>, b: int)
    ensures InUse(a + m + c, b) <==> InUse(a, b) || InUse(m, b) || InUse(c, b)
    ensures Covered(a + m' + c) - Covered(a + m + c) == Covered(m') - Covered(m)
  {
    InUseConcat(a + m, c, b);
    InUseConcat(a, m, b);
    CoveredConcat(a + m, c);
    CoveredConcat(a, m);
    CoveredConcat(a + m', c);
    CoveredConcat(a, m');
  }

  /** The segment of l that Put replaces, and what it is replaced with. */
  function Segment(l: seq<Interval>, p: nat, low: nat, high: nat): (nat, nat, Interval)
    requires Gap(l, p, low, high)
  {
    var left := 0 < p && l[p - 1].high + 1 == low;
    var right := p < |l| && high + 1 == l[p].low;
    var i := if left then p - 1 else p;
    var j := if right then p + 1 else p;
    (i, j, Interval(if left then l[p - 1].low else low, if right then l[p].high else high))
  }

  lemma PutIsSplice(l: seq<Interval>, p: nat, low: nat, high: nat)
    requires Gap(l, p, low, high)
    ensures var (i, j, n) := Segment(l, p, low, high);
            && i <= p <= j <= |l|
            && l == l[..i] + l[i..j] + l[j..]
            && Put(l, p, low, high) == l[..i] + [n] + l[j..]
  {
  }

  /** Put adds exactly the blocks of the range. */
  lemma PutInUse(l: seq<Interval>, p: nat, low: nat, high: nat, start: int, end: int, b: int)
    requires Gap(l, p, low, high) && Canonical(l, start, end)
    ensures InUse(Put(l, p, low, high), b) <==> InUse(l, b) || low <= b <= high
  {
    var (i, j, n) := Segment(l, p, low, high);
    PutIsSplice(l, p, low, high);
    Splice(l[..i], l[i..j], [n], l[j..], b);
    Splice(l[..i], [n], l[i..j], l[j..], b);
    SegmentBlocks(l, p, low, high, start, end, b);
  }

  lemma SegmentBlocks(l: seq<Interval>, p: nat, low: nat, high: nat, start: int, end: int, b: int)
    requires Gap(l, p, low, high) && Canonical(l, start, end)
    ensures var (i, j, n) := Segment(l, p, low, high);
            && i <= p <= j <= |l|
            && (InUse([n], b) <==> InUse(l[i..j], b) || low <= b <= high)
            && Covered([n]) == Covered(l[i..j]) + high - low + 1
  {
    var (i, j, n) := Segment(l, p, low, high);
    CoveredShort([n]);
    CoveredShort(l[i..j]);
    assert [n][0] == n;
    if i < p { assert l[i..j][0] == l[p - 1]; }
    if p < j { assert l[i..j][j - i - 1] == l[p]; }
  }

  lemma CanonicalConcat(a: seq<Interval>, c: seq<Interval>, start: int, end: int)
    requires Canonical(a, start, end) && Canonical(c, start, end)
    requires a != [] && c != [] ==> a[|a| - 1].high + 1 < c[0].low
    ensures Canonical(a + c, start, end)
  {
    forall j, k | 0 <= j < k < |a + c| ensures (a + c)[j].high + 1 < (a + c)[k].low {
      if j < |a| <= k {
        assert a[j].high <= a[|a| - 1].high;
        assert c[0].low <= c[k - |a|].low;
      }
    }
  }

  lemma CanonicalSlices(l: seq<Interval>, i: nat, start: int, end: int)
    requires Canonical(l, start, end) && i <= |l|
    ensures Canonical(l[..i], start, end) && Canonical(l[i..], start, end)
  {
  }

  lemma SegmentApart(l: seq<Interval>, p: nat, low: nat, high: nat, start: int, end: int)
    requires Gap(l, p, low, high) && Canonical(l, start, end)
    requires start <= low && high < end
    ensures var (i, j, n) := Segment(l, p, low, high);
            && start <= n.low <= n.high < end
            && (0 < i ==> l[i - 1].high + 1 < n.low)
            && (j < |l| ==> n.high + 1 < l[j].low)
  {
  }

  lemma CanonicalAround(a: seq<Interval>, n: Interval, c: seq<Interval>, start: int, end: int)
    requires Canonical(a, start, end) && Canonical(c, start, end)
    requires start <= n.low <= n.high < end
    requires a != [] ==> a[|a| - 1].high + 1 < n.low
    requires c != [] ==> n.high + 1 < c[0].low
    ensures Canonical(a + [n] + c, start, end)
  {
    CanonicalConcat(a, [n], start, end);
    CanonicalConcat(a + [n], c, start, end);
  }

  lemma PutOrdered(l: seq<Interval>, p: nat, low: nat, high: nat, start: int, end: int)
    requires Gap(l, p, low, high) && Canonical(l, start, end)
    requires start <= low && high < end
    ensures Canonical(Put(l, p, low, high), start, end)
  {
    hide Put, Segment, Canonical;
    var (i, j, n) := Segment(l, p, low, high);
    PutIsSplice(l, p, low, high);
    CanonicalSlices(l, i, start, end);
    CanonicalSlices(l, j, start, end);
    SegmentApart(l, p, low, high, start, end);
    CanonicalAround(l[..i], n, l[j..], start, end);
  }

  /** Put keeps the list canonical, adds exactly the range, and accounts for every block. */
  lemma PutCanonical(l: seq<Interval>, p: nat, low: nat, high: nat, start: int, end: int)
    requires Gap(l, p, low, high) && Canonical(l, start, end)
    requires start <= low && high < end
    ensures Canonical(Put(l, p, low, high), start, end)
    ensures Covered(Put(l, p, low, high)) == Covered(l) + high - low + 1
    ensures forall b :: InUse(Put(l, p, low, high), b) <==> InUse(l, b) || low <= b <= high
  {
    PutOrdered(l, p, low, high, start, end);
    forall b ensures InUse(Put(l, p, low, high), b) <==> InUse(l, b) || low <= b <= high {
      PutInUse(l, p, low, high, start, end, b);
    }
    var (i, j, n) := Segment(l, p, low, high);
    PutIsSplice(l, p, low, high);
    Splice(l[..i], l[i..j], [n], l[j..], 0);
    SegmentBlocks(l, p, low, high, start, end, 0);
  }

  lemma CoveredShort(s: seq<Interval>)
    requires |s| <= 2
    ensures s == [] ==> Covered(s) == 0
    ensures |s| == 1 ==> Covered(s) == s[0].high - s[0].low + 1
    ensures |s| == 2 ==> Covered(s) == s[0].high - s[0].low + 1 + s[1].high - s[1].low + 1
  {
    if |s| == 2 { assert s[..1] == [s[0]]; assert s[..1][..0] == []; }
    if |s| == 1 { assert s[..0] == []; }
  }

  // ---------------------------------------------------------------- Cut

  /** Node i covers the whole of [low, high]. */
  predicate Holds(l: seq<Interval>, i: nat, low: nat, high: nat) {
    i < |l| && low <= high && l[i].low <= low && high <= l[i].high
  }

  /** What is left of node i once [low, high] is taken out of it. */
  function Rest(n: Interval, low: nat, high: nat): seq<Interval>
    requires n.low <= low <= high <= n.high
  {
    (if n.low < low then [Interval(n.low, low - 1)] else []) +
    (if high < n.high then [Interval(high + 1, n.high)] else [])
  }

  function Cut(l: seq<Interval>, i: nat, low: nat, high: nat): seq<Interval>
    requires Holds(l, i, low, high)
  {
    l[..i] + Rest(l[i], low, high) + l[i + 1..]
  }

  /** Cut, written as the list edits the four cases perform. */
  lemma CutCases(l: seq<Interval>, i: nat, low: nat, high: nat)
    requires Holds(l, i, low, high)
    ensures low == l[i].low && high == l[i].high ==> Cut(l, i, low, high) == l[..i] + l[i + 1..]
    ensures low == l[i].low && high < l[i].high ==>
              Cut(l, i, low, high) == l[i := Interval(high + 1, l[i].high)]
    ensures l[i].low < low && high == l[i].high ==>
              Cut(l, i, low, high) == l[i := Interval(l[i].low, low - 1)]
    ensures l[i].low < low && high < l[i].high ==>
              Cut(l, i, low, high) ==
              l[..i] + [Interval(l[i].low, low - 1), Interval(high + 1, l[i].high)] + l[i + 1..]
  {
  }

  lemma CutCanonical(l: seq<Interval>, i: nat, low: nat, high: nat, start: int, end: int)
    requires Holds(l, i, low, high) && Canonical(l, start, end)
    ensures Canonical(Cut(l, i, low, high), start, end)
  {
    var m := Rest(l[i], low, high);
    CanonicalSlices(l, i, start, end);
    CanonicalSlices(l, i + 1, start, end);
    RestBetween(l[..i], l[i], m, l[i + 1..], low, high, start, end);
  }

  lemma RestBetween(a: seq<Interval>, n: Interval, m: seq<Interval>, c: seq<Interval>,
                    low: nat, high: nat, start: int, end: int)
    requires Canonical(a, start, end) && Canonical(c, start, end)
    requires start <= n.low <= low <= high <= n.high < end && m == Rest(n, low, high)
    requires a != [] ==> a[|a| - 1].high + 1 < n.low
    requires c != [] ==> n.high + 1 < c[0].low
    ensures Canonical(a + m + c, start, end)
  {
    hide Canonical;
    if m == [] {
      assert a + m + c == a + c;
      CanonicalConcat(a, c, start, end);
    } else if |m| == 1 {
      assert m == [m[0]];
      CanonicalAround(a, m[0], c, start, end);
    } else {
      CanonicalAround([], m[1], c, start, end);
      assert [] + [m[1]] + c == [m[1]] + c;
      CanonicalAround(a, m[0], [m[1]] + c, start, end);
      assert a + m + c == a + [m[0]] + ([m[1]] + c);
    }
  }

  lemma CutSegment(l: seq<Interval>, i: nat, low: nat, high: nat, start: int, end: int)
    requires Holds(l, i, low, high) && Canonical(l, start, end)
    ensures var p := if l[i].low < low then i + 1 else i;
            var m := Rest(l[i], low, high);
            && Gap(Cut(l, i, low, high), p, low, high)
            && Segment(Cut(l, i, low, high), p, low, high) == (i, i + |m|, l[i])
  {
    var m := Rest(l[i], low, high);
    var c := Cut(l, i, low, high);
    if i + |m| < |c| { assert c[i + |m|] == l[i + 1]; }
    if 0 < i { assert c[i - 1] == l[i - 1]; }
    if m != [] { assert c[i] == m[0] && c[i + |m| - 1] == m[|m| - 1]; }
  }

  /** Cutting a range out of a node is undone by putting it back. */
  lemma PutUndoesCut(l: seq<Interval>, i: nat, low: nat, high: nat, start: int, end: int)
    requires Holds(l, i, low, high) && Canonical(l, start, end)
    ensures var p := if l[i].low < low then i + 1 else i;
            && Gap(Cut(l, i, low, high), p, low, high)
            && Put(Cut(l, i, low, high), p, low, high) == l
  {
    hide Put, Segment, Rest;
    var p := if l[i].low < low then i + 1 else i;
    var m := Rest(l[i], low, high);
    var c := Cut(l, i, low, high);
    CutSegment(l, i, low, high, start, end);
    PutIsSplice(c, p, low, high);
    assert c[..i] == l[..i] && c[i + |m|..] == l[i + 1..];
  }

  lemma HeldIsUsed(l: seq<Interval>, i: nat, low: nat, high: nat)
    requires Holds(l, i, low, high)
    ensures RangeUsed(l, low, high)
  {
  }

  /** The block after a node is free: the strict gap. */
  lemma AfterNodeIsFree(l: seq<Interval>, i: nat, start: int, end: int)
    requires Canonical(l, start, end) && i < |l|
    ensures !InUse(l, l[i].high + 1)
  {
  }

  /** So only a single node can hold a contiguous range of used blocks. */
  lemma UsedRangeIsHeld(l: seq<Interval>, low: nat, high: nat, start: int, end: int) returns (i: nat)
    requires Canonical(l, start, end) && low <= high && RangeUsed(l, low, high)
    ensures Holds(l, i, low, high)
  {
    assert InUse(l, low);
    i :| 0 <= i < |l| && l[i].low <= low <= l[i].high;
    AfterNodeIsFree(l, i, start, end);
  }

  // ---------------------------------------------------------------- uniqueness

  ghost predicate SameBlocks(l: seq<Interval>, m: seq<Interval>) {
    forall b :: InUse(l, b) <==> InUse(m, b)
  }

  /** The first node is determined by the blocks in use. */
  lemma FirstNode(l: seq<Interval>, start: int, end: int)
    requires Canonical(l, start, end) && l != []
    ensures !InUse(l, l[0].high + 1)
    ensures forall b :: b < l[0].low ==> !InUse(l, b)
    ensures forall b :: l[0].low <= b <= l[0].high ==> InUse(l, b)
  {
  }

  lemma TailBlocks(l: seq<Interval>, start: int, end: int, b: int)
    requires Canonical(l, start, end) && l != []
    ensures InUse(l[1..], b) <==> InUse(l, b) && l[0].high < b
  {
    assert l == [l[0]] + l[1..];
    InUseConcat([l[0]], l[1..], b);
  }

  lemma FirstNodesAgree(l: seq<Interval>, m: seq<Interval>, start: int, end: int)
    requires Canonical(l, start, end) && Canonical(m, start, end)
    requires SameBlocks(l, m) && l != [] && m != []
    ensures l[0] == m[0]
  {
    FirstNode(l, start, end);
    FirstNode(m, start, end);
    assert InUse(l, l[0].low) && InUse(m, m[0].low);
    assert l[0].low == m[0].low;
    assert !InUse(m, l[0].high + 1) && !InUse(l, m[0].high + 1);
  }

  /** Two canonical lists that cover the same blocks are the same list. */
  lemma {:induction false} CanonicalUnique(l: seq<Interval>, m: seq<Interval>, start: int, end: int)
    requires Canonical(l, start, end) && Canonical(m, start, end)
    requires SameBlocks(l, m)
    ensures l == m
    decreases |l|
  {
    if l != [] { assert InUse(l, l[0].low); }
    if m != [] { assert InUse(m, m[0].low); }
    if l == [] {
    } else {
      FirstNodesAgree(l, m, start, end);
      forall b ensures InUse(l[1..], b) <==> InUse(m[1..], b) {
        TailBlocks(l, start, end, b);
        TailBlocks(m, start, end, b);
      }
      CanonicalSlices(l, 1, start, end);
      CanonicalSlices(m, 1, start, end);
      CanonicalUnique(l[1..], m[1..], start, end);
    }
  }

  // ---------------------------------------------------------------- counting

  function Blocks(low: int, high: int): (r: set<int>)
    requires low <= high + 1
    ensures forall b :: b in r <==> low <= b <= high
    ensures |r| == high - low + 1
    decreases high - low
  {
    if low > high then {} else Blocks(low, high - 1) + {high}
  }

  /** The blocks in use, as a set. */
  ghost function UsedSet(l: seq<Interval>, start: int, end: int): set<int> {
    set b | start <= b < end && InUse(l, b)
  }

  lemma LastNode(l: seq<Interval>, start: int, end: int, b: int)
    requires Canonical(l, start, end) && l != []
    ensures InUse(l, b) <==> InUse(l[..|l| - 1], b) || l[|l| - 1].low <= b <= l[|l| - 1].high
    ensures InUse(l[..|l| - 1], b) ==> b < l[|l| - 1].low
  {
    var n := |l| - 1;
    assert l == l[..n] + [l[n]];
    InUseConcat(l[..n], [l[n]], b);
    assert [l[n]][0] == l[n];
  }

  /** The node-by-node count is the number of distinct blocks in use. */
  lemma {:induction false} CoveredIsCount(l: seq<Interval>, start: int, end: int)
    requires Canonical(l, start, end)
    ensures Covered(l) == |UsedSet(l, start, end)|
    decreases |l|
  {
    if l == [] {
      assert UsedSet(l, start, end) == {};
    } else {
      var n := |l| - 1;
      CanonicalSlices(l, n, start, end);
      CoveredIsCount(l[..n], start, end);
      forall b ensures b in UsedSet(l, start, end) <==>
                       b in UsedSet(l[..n], start, end) || b in Blocks(l[n].low, l[n].high)
               ensures b in UsedSet(l[..n], start, end) ==> b < l[n].low {
        LastNode(l, start, end, b);
      }
      assert UsedSet(l, start, end) == UsedSet(l[..n], start, end) + Blocks(l[n].low, l[n].high);
      assert UsedSet(l[..n], start, end) !! Blocks(l[n].low, l[n].high);
    }
  }
}
