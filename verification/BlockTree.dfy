/** The per-inode block tree as a value: a radix tree of fan-out 512 whose
    leaves are data blocks.  Its meaning is the partial map `Lookup` from file
    block to device block; its footprint is the set of device blocks it `Owns`. */
module BlockTree {
  import opened Arith

  const FANOUT: nat := 512   // 1 << META_BLK_SHIFT

  datatype Tree = Hole | Leaf(blk: nat) | Node(blk: nat, kids: seq<Tree>)

  /** Number of file blocks a tree of height h can map. */
  function Pow(h: nat): (r: nat)
    ensures 0 < r
  {
    if h == 0 then 1 else FANOUT * Pow(h - 1)
  }

  predicate Shape(t: Tree, h: nat) {
    match t
    case Hole => true
    case Leaf(b) => h == 0 && b != 0
    case Node(b, kids) =>
      h > 0 && b != 0 && |kids| == FANOUT && forall j :: 0 <= j < FANOUT ==> Shape(kids[j], h - 1)
  }

  /** The device block that file block i maps to, 0 for a hole. */
  function Lookup(t: Tree, h: nat, i: nat): nat
    requires Shape(t, h) && i < Pow(h)
  {
    match t
    case Hole => 0
    case Leaf(b) => b
    case Node(b, kids) =>
      SlotIndex(i, Pow(h - 1), FANOUT);
      Lookup(kids[i / Pow(h - 1)], h - 1, i % Pow(h - 1))
  }

  /** Device block b belongs to the tree; a data block spans `span` device blocks. */
  predicate Owns(t: Tree, span: nat, b: int) {
    match t
    case Hole => false
    case Leaf(p) => p <= b < p + span
    case Node(p, kids) => b == p || OwnedByKid(kids, span, b)
  }

  predicate OwnedByKid(kids: seq<Tree>, span: nat, b: int) {
    exists j :: 0 <= j < |kids| && Owns(kids[j], span, b)
  }

  /** No device block is used twice in the tree. */
  ghost predicate Disjoint(t: Tree, span: nat) {
    t.Node? ==>
      && (forall j :: 0 <= j < |t.kids| ==> Disjoint(t.kids[j], span) && !Owns(t.kids[j], span, t.blk))
      && Apart(t.kids, span)
  }

  ghost predicate Apart(kids: seq<Tree>, span: nat) {
    forall i, j, b :: 0 <= i < |kids| && 0 <= j < |kids| && Owns(kids[i], span, b) && Owns(kids[j], span, b) ==> i == j
  }

  predicate AllHoles(kids: seq<Tree>) {
    forall j :: 0 <= j < |kids| ==> kids[j].Hole?
  }

  /** No metadata node is empty. */
  predicate NoEmpty(t: Tree) {
    t.Node? ==> !AllHoles(t.kids) && forall j :: 0 <= j < |t.kids| ==> NoEmpty(t.kids[j])
  }

  /** Number of data blocks. */
  function Count(t: Tree): nat {
    match t
    case Hole => 0
    case Leaf(_) => 1
    case Node(_, kids) => CountAll(kids)
  }

  function CountAll(kids: seq<Tree>): nat {
    if kids == [] then 0 else CountAll(kids[..|kids| - 1]) + Count(kids[|kids| - 1])
  }

  /** The slot of a height-h node that file block i falls in. */
  function KidOf(i: nat, h: nat): nat
    requires h > 0
  {
    i / Pow(h - 1)
  }

  // ---------------------------------------------------------------- truncation

  /** Remove file blocks [f, l] and every metadata node this leaves empty. */
  function Trunc(t: Tree, h: nat, f: nat, l: nat): Tree
    requires Shape(t, h) && f <= l < Pow(h)
    decreases h, 1
  {
    if t.Node? then
      var kids := TruncKids(t.kids, h, f, l);
      if AllHoles(kids) then Hole else Node(t.blk, kids)
    else Hole
  }

  function TruncKids(kids: seq<Tree>, h: nat, f: nat, l: nat): (r: seq<Tree>)
    requires h > 0 && |kids| == FANOUT && f <= l < Pow(h)
    requires forall j :: 0 <= j < FANOUT ==> Shape(kids[j], h - 1)
    ensures |r| == FANOUT && forall j :: 0 <= j < FANOUT ==> r[j] == TruncKid(kids[j], h, f, l, j)
    decreases h, 0, 1
  {
    seq(FANOUT, j requires 0 <= j < FANOUT => TruncKid(kids[j], h, f, l, j))
  }

  function TruncKid(kid: Tree, h: nat, f: nat, l: nat, j: nat): Tree
    requires h > 0 && Shape(kid, h - 1) && f <= l < Pow(h)
    decreases h, 0, 0
  {
    var p := Pow(h - 1);
    if f / p <= j <= l / p then
      SlotRange(f, l, p, j);
      Trunc(kid, h - 1, SlotLo(f, p, j), SlotHi(l, p, j))
    else kid
  }

  lemma {:induction false} TruncShape(t: Tree, h: nat, f: nat, l: nat)
    requires Shape(t, h) && f <= l < Pow(h)
    ensures Shape(Trunc(t, h, f, l), h)
    decreases h
  {
    if !t.Node? {
    } else {
      var p := Pow(h - 1);
      forall j | 0 <= j < FANOUT ensures Shape(TruncKid(t.kids[j], h, f, l, j), h - 1) {
        if f / p <= j <= l / p {
          SlotRange(f, l, p, j);
          TruncShape(t.kids[j], h - 1, SlotLo(f, p, j), SlotHi(l, p, j));
        }
      }
    }
  }

  /** Truncation removes exactly the range from the map. */
  lemma {:induction false} TruncLookup(t: Tree, h: nat, f: nat, l: nat, i: nat)
    requires Shape(t, h) && f <= l < Pow(h) && i < Pow(h)
    ensures Shape(Trunc(t, h, f, l), h)
    ensures Lookup(Trunc(t, h, f, l), h, i) == if f <= i <= l then 0 else Lookup(t, h, i)
    decreases h
  {
    TruncShape(t, h, f, l);
    if !t.Node? {
    } else {
      var p := Pow(h - 1);
      var j := i / p;
      SlotIndex(i, p, FANOUT);
      SlotSplit(f, l, p, i);
      if f / p <= j <= l / p {
        SlotRange(f, l, p, j);
        TruncLookup(t.kids[j], h - 1, SlotLo(f, p, j), SlotHi(l, p, j), i % p);
      }
    }
  }

  /** Truncation keeps no block the tree did not own, and keeps its root in place. */
  lemma {:induction false} TruncOwns(t: Tree, h: nat, f: nat, l: nat, span: nat, b: int)
    requires Shape(t, h) && f <= l < Pow(h)
    ensures Owns(Trunc(t, h, f, l), span, b) ==> Owns(t, span, b)
    ensures Trunc(t, h, f, l).Hole? || (Trunc(t, h, f, l).Node? && t.Node? && Trunc(t, h, f, l).blk == t.blk)
    decreases h, 1
  {
    if t.Node? {
      var kids := TruncKids(t.kids, h, f, l);
      if OwnedByKid(kids, span, b) {
        var j :| 0 <= j < FANOUT && Owns(kids[j], span, b);
        TruncKidOwns(t.kids[j], h, f, l, j, span, b);
        assert OwnedByKid(t.kids, span, b);
      }
    }
  }

  lemma {:induction false} TruncKidOwns(kid: Tree, h: nat, f: nat, l: nat, j: nat, span: nat, b: int)
    requires h > 0 && Shape(kid, h - 1) && f <= l < Pow(h)
    ensures Owns(TruncKid(kid, h, f, l, j), span, b) ==> Owns(kid, span, b)
    decreases h, 0
  {
    var p := Pow(h - 1);
    if f / p <= j <= l / p {
      SlotRange(f, l, p, j);
      TruncOwns(kid, h - 1, SlotLo(f, p, j), SlotHi(l, p, j), span, b);
    }
  }

  lemma {:induction false} TruncDisjoint(t: Tree, h: nat, f: nat, l: nat, span: nat)
    requires Shape(t, h) && f <= l < Pow(h) && Disjoint(t, span)
    ensures Disjoint(Trunc(t, h, f, l), span)
    decreases h
  {
    if !t.Node? {
    } else {
      var p := Pow(h - 1);
      var kids := TruncKids(t.kids, h, f, l);
      forall j, b | 0 <= j < FANOUT && Owns(kids[j], span, b) ensures Owns(t.kids[j], span, b) {
        TruncKidOwns(t.kids[j], h, f, l, j, span, b);
      }
      forall j | 0 <= j < FANOUT ensures Disjoint(kids[j], span) {
        if f / p <= j <= l / p {
          SlotRange(f, l, p, j);
          TruncDisjoint(t.kids[j], h - 1, SlotLo(f, p, j), SlotHi(l, p, j), span);
        }
      }
    }
  }

  /** Truncation leaves no empty metadata node behind. */
  lemma {:induction false} TruncNoEmpty(t: Tree, h: nat, f: nat, l: nat)
    requires Shape(t, h) && f <= l < Pow(h) && NoEmpty(t)
    ensures NoEmpty(Trunc(t, h, f, l))
    decreases h
  {
    if !t.Node? {
    } else {
      var p := Pow(h - 1);
      forall j | 0 <= j < FANOUT ensures NoEmpty(TruncKid(t.kids[j], h, f, l, j)) {
        if f / p <= j <= l / p {
          SlotRange(f, l, p, j);
          TruncNoEmpty(t.kids[j], h - 1, SlotLo(f, p, j), SlotHi(l, p, j));
        }
      }
    }
  }

  /** Truncating the whole span of a tree removes it, empty nodes included. */
  lemma {:induction false} TruncWhole(t: Tree, h: nat)
    requires Shape(t, h)
    ensures Trunc(t, h, 0, Pow(h) - 1) == Hole
    decreases h
  {
    if !t.Node? {
    } else {
      var p := Pow(h - 1);
      SlotJoin(0, 0, p);
      SlotJoin(FANOUT - 1, p - 1, p);
      assert Pow(h) - 1 == (FANOUT - 1) * p + (p - 1);
      forall j | 0 <= j < FANOUT ensures TruncKid(t.kids[j], h, 0, Pow(h) - 1, j) == Hole {
        TruncWhole(t.kids[j], h - 1);
      }
    }
  }

  // ---------------------------------------------------------------- one kid changes

  lemma {:induction false} CountUpdate(kids: seq<Tree>, i: nat, k: Tree)
    requires i < |kids|
    ensures CountAll(kids[i := k]) == CountAll(kids) - Count(kids[i]) + Count(k)
    decreases |kids|
  {
    var n := |kids| - 1;
    if i == n {
      assert kids[i := k][..n] == kids[..n];
    } else {
      assert kids[i := k][..n] == kids[..n][i := k];
      CountUpdate(kids[..n], i, k);
    }
  }

  lemma {:induction false} CountHoles(kids: seq<Tree>)
    requires AllHoles(kids)
    ensures CountAll(kids) == 0
    decreases |kids|
  {
    if kids == [] {
    } else {
      CountHoles(kids[..|kids| - 1]);
    }
  }

  lemma TruncNode(t: Tree, h: nat, f: nat, l: nat)
    requires t.Node? && Shape(t, h) && f <= l < Pow(h)
    ensures var cur := TruncKids(t.kids, h, f, l);
            Trunc(t, h, f, l) == if AllHoles(cur) then Hole else Node(t.blk, cur)
  {
  }

  lemma TruncCount(t: Tree, h: nat, f: nat, l: nat)
    requires t.Node? && Shape(t, h) && f <= l < Pow(h)
    ensures Count(Trunc(t, h, f, l)) == CountAll(TruncKids(t.kids, h, f, l))
  {
    var kids := TruncKids(t.kids, h, f, l);
    if AllHoles(kids) { CountHoles(kids); }
  }

  /** A kid strictly inside the truncated range goes entirely. */
  lemma MiddleEmptied(kid: Tree, h: nat, f: nat, l: nat, j: nat)
    requires h > 0 && Shape(kid, h - 1) && f <= l < Pow(h)
    requires f / Pow(h - 1) < j < l / Pow(h - 1)
    ensures TruncKid(kid, h, f, l, j) == Hole
  {
    TruncWhole(kid, h - 1);
  }

  /** Shrinking one kid removes from the kids' blocks exactly what that kid gave up. */
  lemma OwnedUpdate(kids: seq<Tree>, i: nat, k: Tree, span: nat, b: int)
    requires i < |kids| && Apart(kids, span)
    requires Owns(k, span, b) ==> Owns(kids[i], span, b)
    ensures OwnedByKid(kids[i := k], span, b) <==>
            OwnedByKid(kids, span, b) && (Owns(kids[i], span, b) ==> Owns(k, span, b))
  {
    if OwnedByKid(kids[i := k], span, b) {
      var j :| 0 <= j < |kids| && Owns(kids[i := k][j], span, b);
      assert Owns(kids[j], span, b);
    }
    if OwnedByKid(kids, span, b) && (Owns(kids[i], span, b) ==> Owns(k, span, b)) {
      var j :| 0 <= j < |kids| && Owns(kids[j], span, b);
      assert Owns(kids[i := k][j], span, b);
    }
  }

  // ---------------------------------------------------------------- height

  lemma {:induction false} PowMono(a: nat, b: nat)
    requires a <= b
    ensures Pow(a) <= Pow(b)
    decreases b - a
  {
    if b <= a {
    } else {
      PowMono(a, b - 1);
    }
  }

  /** h is the least height whose tree reaches file block n. */
  ghost predicate LeastHeight(n: nat, h: nat) {
    n < Pow(h) && (h > 0 ==> Pow(h - 1) <= n)
  }

  lemma LeastHeightIsLeast(n: nat, h: nat, h': nat)
    requires LeastHeight(n, h) && n < Pow(h')
    ensures h <= h'
  {
    if h' < h { PowMono(h', h - 1); }
  }

  /** The map of an inode: nothing past the reach of its tree (pmfs_find_data_block). */
  function FullLookup(t: Tree, h: nat, i: nat): nat
    requires Shape(t, h)
  {
    if i < Pow(h) then Lookup(t, h, i) else 0
  }

  /** A tree without empty nodes maps something unless it is a hole. */
  lemma {:induction false} MapsSomething(t: Tree, h: nat) returns (i: nat)
    requires Shape(t, h) && NoEmpty(t) && !t.Hole?
    ensures i < Pow(h) && Lookup(t, h, i) != 0
    decreases h
  {
    if t.Leaf? {
      i := 0;
    } else {
      var j :| 0 <= j < FANOUT && !t.kids[j].Hole?;
      assert Shape(t.kids[j], h - 1);
      var r := MapsSomething(t.kids[j], h - 1);
      i := j * Pow(h - 1) + r;
      KidIndex(t, h, j, r);
    }
  }

  lemma LookupKid(t: Tree, h: nat, i: nat)
    requires t.Node? && Shape(t, h) && i < Pow(h)
    ensures KidOf(i, h) < FANOUT && i % Pow(h - 1) < Pow(h - 1) && Shape(t.kids[KidOf(i, h)], h - 1)
    ensures Lookup(t, h, i) == Lookup(t.kids[KidOf(i, h)], h - 1, i % Pow(h - 1))
  {
    SlotIndex(i, Pow(h - 1), FANOUT);
  }

  /** Slot j of a node maps file blocks j * Pow(h - 1) + r. */
  lemma KidIndex(t: Tree, h: nat, j: nat, r: nat)
    requires t.Node? && Shape(t, h) && j < FANOUT && r < Pow(h - 1)
    ensures Shape(t.kids[j], h - 1) && j * Pow(h - 1) + r < Pow(h)
    ensures Lookup(t, h, j * Pow(h - 1) + r) == Lookup(t.kids[j], h - 1, r)
  {
    SlotJoin(j, r, Pow(h - 1));
    MulMono(j, FANOUT, Pow(h - 1));
  }

  /** If a node maps nothing past the reach of its first kid but does map
      something, the first kid is all it has, and dropping the node changes no lookup. */
  lemma OnlyFirstKid(t: Tree, h: nat)
    requires t.Node? && Shape(t, h) && Tidy(t) && Count(t) > 0
    requires forall i :: Pow(h - 1) <= i < Pow(h) ==> Lookup(t, h, i) == 0
    ensures forall j :: 0 < j < FANOUT ==> t.kids[j] == Hole
    ensures !t.kids[0].Hole? && Shape(t.kids[0], h - 1) && Tidy(t.kids[0]) && Count(t.kids[0]) == Count(t)
    ensures forall i :: FullLookup(t.kids[0], h - 1, i) == FullLookup(t, h, i)
  {
    forall j | 0 < j < FANOUT ensures t.kids[j] == Hole {
      assert Shape(t.kids[j], h - 1) && NoEmpty(t.kids[j]);
      if !t.kids[j].Hole? {
        var r := MapsSomething(t.kids[j], h - 1);
        KidIndex(t, h, j, r);
        MulMono(1, j, Pow(h - 1));
      }
    }
    forall i: nat ensures FullLookup(t.kids[0], h - 1, i) == FullLookup(t, h, i) {
      if i < Pow(h - 1) { KidIndex(t, h, 0, i); }
    }
    OnlyFirstKidOwns(t, 0, 0);
  }

  /** With only its first kid, a node holds one block more than that kid. */
  lemma OnlyFirstKidOwns(t: Tree, span: nat, b: int)
    requires t.Node? && |t.kids| == FANOUT && forall j :: 0 < j < FANOUT ==> t.kids[j] == Hole
    ensures Owns(t, span, b) <==> b == t.blk || Owns(t.kids[0], span, b)
    ensures CountAll(t.kids) == Count(t.kids[0])
  {
    CountUpdate(t.kids, 0, Hole);
    CountHoles(t.kids[0 := Hole]);
    if OwnedByKid(t.kids, span, b) {
      var j :| 0 <= j < FANOUT && Owns(t.kids[j], span, b);
    }
  }

  /** A tree without empty nodes and without data blocks is a hole. */
  lemma {:induction false} CountZero(t: Tree, h: nat)
    requires Shape(t, h) && NoEmpty(t) && Count(t) == 0
    ensures t.Hole?
    decreases h
  {
    if !t.Node? {
    } else {
      var j :| 0 <= j < FANOUT && !t.kids[j].Hole?;
      assert Shape(t.kids[j], h - 1) && NoEmpty(t.kids[j]);
      CountUpdate(t.kids, j, Hole);
      CountZero(t.kids[j], h - 1);
    }
  }

  /** No file block of [a, b) is mapped. */
  ghost predicate Unmapped(t: Tree, h: nat, a: nat, b: nat)
    requires Shape(t, h)
  {
    forall i: nat :: a <= i < b && i < Pow(h) ==> Lookup(t, h, i) == 0
  }

  lemma {:induction false} CountZeroLookup(t: Tree, h: nat, i: nat)
    requires Shape(t, h) && i < Pow(h) && Count(t) == 0
    ensures Lookup(t, h, i) == 0
    decreases h
  {
    if !t.Node? {
    } else {
      LookupKid(t, h, i);
      CountAllZero(t.kids);
      CountZeroLookup(t.kids[KidOf(i, h)], h - 1, i % Pow(h - 1));
    }
  }

  lemma {:induction false} UnmappedCountZero(t: Tree, h: nat)
    requires Shape(t, h) && Unmapped(t, h, 0, Pow(h))
    ensures Count(t) == 0
    decreases h
  {
    if t.Node? {
      forall j: nat | j < FANOUT ensures Count(t.kids[j]) == 0 {
        assert Shape(t.kids[j], h - 1);
        var g: nat := h - 1;
        forall r: nat | r < Pow(g) ensures Lookup(t.kids[j], g, r) == 0 { KidIndex(t, h, j, r); }
        UnmappedCountZero(t.kids[j], h - 1);
      }
      CountAllZero(t.kids);
    } else {
      assert Lookup(t, h, 0) == 0;
    }
  }

  /** There are no data blocks exactly when nothing is mapped. */
  lemma CountZeroIff(t: Tree, h: nat)
    requires Shape(t, h)
    ensures Count(t) == 0 <==> Unmapped(t, h, 0, Pow(h))
  {
    if Count(t) == 0 {
      forall i: nat | i < Pow(h) ensures Lookup(t, h, i) == 0 { CountZeroLookup(t, h, i); }
    }
    if Unmapped(t, h, 0, Pow(h)) { UnmappedCountZero(t, h); }
  }

  lemma {:induction false} CountAllZero(kids: seq<Tree>)
    ensures CountAll(kids) == 0 <==> forall j :: 0 <= j < |kids| ==> Count(kids[j]) == 0
    decreases |kids|
  {
    if kids == [] {
    } else {
      var n := |kids| - 1;
      CountAllZero(kids[..n]);
      assert forall j :: 0 <= j < n ==> kids[..n][j] == kids[j];
    }
  }

  // ---------------------------------------------------------------- the leftmost spine

  /** Only the leftmost path may end in an empty node: raising the height of an
      empty file builds such a path before anything is mapped below it. */
  predicate Tidy(t: Tree) {
    t.Node? ==> |t.kids| > 0 && Tidy(t.kids[0]) && forall j :: 0 < j < |t.kids| ==> NoEmpty(t.kids[j])
  }

  /** How far the empty node at the end of the leftmost path reaches; 0 if none. */
  function SpineReach(t: Tree, h: nat): nat
    requires Shape(t, h)
  {
    if !t.Node? then 0 else if AllHoles(t.kids) then Pow(h) else SpineReach(t.kids[0], h - 1)
  }

  lemma {:induction false} TidyNoEmpty(t: Tree, h: nat)
    requires Shape(t, h) && Tidy(t)
    ensures NoEmpty(t) <==> SpineReach(t, h) == 0
    ensures SpineReach(t, h) <= Pow(h)
    decreases h
  {
    if !t.Node? {
    } else {
      assert Shape(t.kids[0], h - 1);
      TidyNoEmpty(t.kids[0], h - 1);
    }
  }

  lemma {:induction false} TruncTidy(t: Tree, h: nat, f: nat, l: nat)
    requires Shape(t, h) && f <= l < Pow(h) && Tidy(t)
    ensures Tidy(Trunc(t, h, f, l))
    decreases h
  {
    if !t.Node? {
    } else {
      forall j | 0 <= j < FANOUT ensures j == 0 ==> Tidy(TruncKid(t.kids[j], h, f, l, j))
                                 ensures j > 0 ==> NoEmpty(TruncKid(t.kids[j], h, f, l, j)) {
        var p := Pow(h - 1);
        if f / p <= j <= l / p {
          SlotRange(f, l, p, j);
          assert Shape(t.kids[j], h - 1);
          if j == 0 {
            TruncTidy(t.kids[j], h - 1, SlotLo(f, p, j), SlotHi(l, p, j));
          } else {
            TruncNoEmpty(t.kids[j], h - 1, SlotLo(f, p, j), SlotHi(l, p, j));
          }
        }
      }
    }
  }

  /** Truncation to file block f, with nothing mapped past l, leaves a root
      with no data below it. */
  ghost predicate LeavesBareRoot(t: Tree, h: nat, f: nat, l: nat)
    requires Shape(t, h) && f <= l < Pow(h)
  {
    !Trunc(t, h, f, l).Hole? && Count(Trunc(t, h, f, l)) == 0
  }

  /** The leftmost path ends in an empty node that lies before f, and nothing
      is mapped before f. */
  ghost predicate BareBefore(t: Tree, h: nat, f: nat)
    requires Shape(t, h)
  {
    0 < SpineReach(t, h) <= f && Unmapped(t, h, 0, f)
  }

  /** Exactly when that happens, in terms of the tree before truncation. */
  lemma BareRootIff(t: Tree, h: nat, f: nat, l: nat)
    requires Shape(t, h) && f <= l < Pow(h) && Unmapped(t, h, l + 1, Pow(h)) && Tidy(Trunc(t, h, f, l))
    ensures LeavesBareRoot(t, h, f, l) <==> BareBefore(t, h, f)
  {
    var t' := Trunc(t, h, f, l);
    TruncShape(t, h, f, l);
    CountZeroIff(t', h);
    assert Unmapped(t', h, 0, Pow(h)) <==> Unmapped(t, h, 0, f) by {
      forall i: nat | i < Pow(h) ensures Lookup(t', h, i) == if i < f then Lookup(t, h, i) else 0 {
        TruncLookup(t, h, f, l, i);
      }
    }
    if Unmapped(t, h, 0, f) { RootSurvives(t, h, f, l); }
  }

  /** If nothing mapped survives, the root survives exactly when an empty node
      before f ends the leftmost path. */
  lemma {:induction false} RootSurvives(t: Tree, h: nat, f: nat, l: nat)
    requires Shape(t, h) && f <= l < Pow(h) && Tidy(Trunc(t, h, f, l))
    requires Unmapped(t, h, 0, f) && Unmapped(t, h, l + 1, Pow(h))
    ensures !Trunc(t, h, f, l).Hole? <==> 0 < SpineReach(t, h) <= f
    decreases h
  {
    if !t.Node? {
    } else if AllHoles(t.kids) {
      TruncBarren(t, h, f, l);
    } else {
      assert Shape(t.kids[0], h - 1);
      OthersGo(t, h, f, l);
      assert Trunc(t, h, f, l).Hole? <==> TruncKid(t.kids[0], h, f, l, 0).Hole?;
      KidZeroUnmapped(t, h, f, l);
      KidZeroTidy(t, h, f, l);
      if f < Pow(h - 1) {
        var hi := if l < Pow(h - 1) then l else Pow(h - 1) - 1;
        TruncKidZero(t, h, f, l, hi);
        RootSurvives(t.kids[0], h - 1, f, hi);
      } else {
        FarFirst(t, h, f, l);
      }
    }
  }

  lemma KidZeroTidy(t: Tree, h: nat, f: nat, l: nat)
    requires t.Node? && Shape(t, h) && f <= l < Pow(h) && Tidy(Trunc(t, h, f, l))
    ensures Tidy(TruncKid(t.kids[0], h, f, l, 0))
  {
    assert TruncKids(t.kids, h, f, l)[0] == TruncKid(t.kids[0], h, f, l, 0);
  }

  /** Truncating an empty node removes it. */
  lemma TruncBarren(t: Tree, h: nat, f: nat, l: nat)
    requires t.Node? && Shape(t, h) && AllHoles(t.kids) && f <= l < Pow(h)
    ensures Trunc(t, h, f, l).Hole?
  {
    forall j | 0 <= j < FANOUT ensures TruncKid(t.kids[j], h, f, l, j).Hole? {
      if f / Pow(h - 1) <= j <= l / Pow(h - 1) { SlotRange(f, l, Pow(h - 1), j); }
    }
  }

  lemma LookupTruncKid(t: Tree, h: nat, f: nat, l: nat, j: nat, r: nat)
    requires t.Node? && Shape(t, h) && f <= l < Pow(h) && j < FANOUT && r < Pow(h - 1)
    ensures Shape(t.kids[j], h - 1) && Shape(TruncKid(t.kids[j], h, f, l, j), h - 1) && j * Pow(h - 1) + r < Pow(h)
    ensures var i := j * Pow(h - 1) + r;
            Lookup(TruncKid(t.kids[j], h, f, l, j), h - 1, r) == if f <= i <= l then 0 else Lookup(t, h, i)
  {
    var p := Pow(h - 1);
    KidIndex(t, h, j, r);
    SlotJoin(j, r, p);
    SlotSplit(f, l, p, j * p + r);
    if f / p <= j <= l / p {
      SlotRange(f, l, p, j);
      TruncLookup(t.kids[j], h - 1, SlotLo(f, p, j), SlotHi(l, p, j), r);
    }
  }

  /** Kids past the first do not survive. */
  lemma OthersGo(t: Tree, h: nat, f: nat, l: nat)
    requires t.Node? && Shape(t, h) && f <= l < Pow(h) && Tidy(Trunc(t, h, f, l))
    requires Unmapped(t, h, 0, f) && Unmapped(t, h, l + 1, Pow(h))
    ensures forall j :: 0 < j < FANOUT ==> TruncKids(t.kids, h, f, l)[j].Hole?
  {
    forall j: nat | 0 < j < FANOUT ensures TruncKids(t.kids, h, f, l)[j].Hole? { OtherGoes(t, h, f, l, j); }
  }

  lemma OtherGoes(t: Tree, h: nat, f: nat, l: nat, j: nat)
    requires t.Node? && Shape(t, h) && f <= l < Pow(h) && 0 < j < FANOUT && Tidy(Trunc(t, h, f, l))
    requires Unmapped(t, h, 0, f) && Unmapped(t, h, l + 1, Pow(h))
    ensures Shape(t.kids[j], h - 1) && TruncKid(t.kids[j], h, f, l, j).Hole?
  {
    var g: nat := h - 1;
    var k := TruncKid(t.kids[j], h, f, l, j);
    LookupTruncKid(t, h, f, l, j, 0);
    forall r: nat | r < Pow(g) ensures Lookup(k, g, r) == 0 { LookupTruncKid(t, h, f, l, j, r); }
    UnmappedCountZero(k, g);
    assert TruncKids(t.kids, h, f, l)[j] == k;
    assert NoEmpty(k);
    CountZero(k, g);
  }

  lemma KidZeroUnmapped(t: Tree, h: nat, f: nat, l: nat)
    requires t.Node? && Shape(t, h) && f <= l < Pow(h)
    requires Unmapped(t, h, 0, f) && Unmapped(t, h, l + 1, Pow(h))
    ensures Shape(t.kids[0], h - 1) && Unmapped(t.kids[0], h - 1, 0, f) && Unmapped(t.kids[0], h - 1, l + 1, Pow(h - 1))
  {
    var g: nat := h - 1;
    forall r: nat | r < Pow(g) && !(f <= r <= l) ensures Lookup(t.kids[0], g, r) == 0 { KidIndex(t, h, 0, r); }
  }

  lemma TruncKidZero(t: Tree, h: nat, f: nat, l: nat, hi: nat)
    requires t.Node? && Shape(t, h) && f <= l < Pow(h) && f < Pow(h - 1)
    requires hi == if l < Pow(h - 1) then l else Pow(h - 1) - 1
    ensures Shape(t.kids[0], h - 1) && TruncKid(t.kids[0], h, f, l, 0) == Trunc(t.kids[0], h - 1, f, hi)
  {
    var p := Pow(h - 1);
    DivModUnique(f, p, 0, f);
    DivMono(f, l, p);
    if l < p { DivModUnique(l, p, 0, l); } else { DivMono(p, l, p); DivModUnique(p, p, 1, 0); }
  }

  /** A range past the first kid leaves that kid alone. */
  lemma FarFirst(t: Tree, h: nat, f: nat, l: nat)
    requires t.Node? && Shape(t, h) && f <= l < Pow(h) && Pow(h - 1) <= f && Unmapped(t, h, 0, f)
    requires Shape(t.kids[0], h - 1) && Unmapped(t.kids[0], h - 1, 0, f) && Tidy(TruncKid(t.kids[0], h, f, l, 0))
    ensures TruncKid(t.kids[0], h, f, l, 0) == t.kids[0]
    ensures !t.kids[0].Hole? <==> 0 < SpineReach(t.kids[0], h - 1) <= f
  {
    var p := Pow(h - 1);
    DivMono(p, f, p);
    DivModUnique(p, p, 1, 0);
    TidyNoEmpty(t.kids[0], h - 1);
    UnmappedCountZero(t.kids[0], h - 1);
    if NoEmpty(t.kids[0]) { CountZero(t.kids[0], h - 1); }
  }

  /** A whole tree goes when everything mapped is at or before `last`. */
  lemma WholeTreeGoes(t: Tree, h: nat, last: nat)
    requires Shape(t, h) && last < Pow(h) && Unmapped(t, h, last + 1, Pow(h)) && Tidy(Trunc(t, h, 0, last))
    ensures Trunc(t, h, 0, last).Hole?
  {
    RootSurvives(t, h, 0, last);
  }

  lemma WholeTreeGoesIff(t: Tree, h: nat, last: nat)
    requires Shape(t, h) && Tidy(t) && last < Pow(h)
    ensures Trunc(t, h, 0, last).Hole? <==> Unmapped(t, h, last + 1, Pow(h))
    ensures t.Hole? ==> Unmapped(t, h, last + 1, Pow(h))
    ensures Count(Hole) == 0
  {
    if Unmapped(t, h, last + 1, Pow(h)) {
      TruncTidy(t, h, 0, last);
      WholeTreeGoes(t, h, last);
    } else {
      var i: nat :| last < i < Pow(h) && Lookup(t, h, i) != 0;
      TruncLookup(t, h, 0, last, i);
    }
  }

  // ---------------------------------------------------------------- going down the leftmost path

  /** The tree n levels down the leftmost path. */
  function Down(t: Tree, n: nat): Tree {
    if n == 0 then t else if t.Node? && |t.kids| > 0 then Down(t.kids[0], n - 1) else Hole
  }

  lemma {:induction false} DownMore(t: Tree, n: nat)
    ensures Down(t, n + 1) == Down(Down(t, n), 1)
    decreases n
  {
    if n == 0 {
    } else if t.Node? && |t.kids| > 0 {
      DownMore(t.kids[0], n - 1);
    }
  }

  // ---------------------------------------------------------------- mapped blocks

  lemma {:induction false} LookupOwned(t: Tree, h: nat, i: nat, span: nat)
    requires Shape(t, h) && i < Pow(h) && Lookup(t, h, i) != 0 && 0 < span
    ensures Owns(t, span, Lookup(t, h, i))
    decreases h
  {
    if !t.Node? {
    } else {
      LookupKid(t, h, i);
      LookupOwned(t.kids[KidOf(i, h)], h - 1, i % Pow(h - 1), span);
      assert OwnedByKid(t.kids, span, Lookup(t, h, i));
    }
  }

  /** Two file blocks never share a device block. */
  lemma {:induction false} LookupInjective(t: Tree, h: nat, i: nat, j: nat, span: nat)
    requires Shape(t, h) && Disjoint(t, span) && 0 < span && i < Pow(h) && j < Pow(h)
    requires Lookup(t, h, i) == Lookup(t, h, j) != 0
    ensures i == j
    decreases h
  {
    if !t.Node? {
    } else {
      var p := Pow(h - 1);
      LookupKid(t, h, i);
      LookupKid(t, h, j);
      LookupOwned(t.kids[KidOf(i, h)], h - 1, i % p, span);
      LookupOwned(t.kids[KidOf(j, h)], h - 1, j % p, span);
      assert KidOf(i, h) == KidOf(j, h);
      hide Lookup, Shape, Owns, Pow;
      LookupInjective(t.kids[KidOf(i, h)], h - 1, i % p, j % p, span);
      DivModEqual(i, j, p);
    }
  }
}
