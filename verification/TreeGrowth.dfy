/** What growing a block tree leaves behind, as facts about trees: new parts lie at or
    past the first block asked for, an allocation that stops leaves a first gap, and
    raising puts a tree under roots that have nothing else. */
module TreeGrowth {
  import opened Arith
  import opened BlockTree

  function EmptyKids(): seq<Tree> { seq(FANOUT, _ => Hole) }

  // ---------------------------------------------------------------- nothing new before f

  /** With everything from file block f on cut off, the two trees are the same. */
  ghost predicate SameBefore(t: Tree, t': Tree, h: nat, f: nat) {
    && Shape(t, h) && Shape(t', h)
    && if f < Pow(h) then Trunc(t, h, f, Pow(h) - 1) == Trunc(t', h, f, Pow(h) - 1) else t == t'
  }

  lemma SameBeforeRefl(t: Tree, h: nat, f: nat)
    requires Shape(t, h)
    ensures SameBefore(t, t, h, f)
  {
  }

  lemma SameBeforeTrans(t0: Tree, t1: Tree, t2: Tree, h: nat, f: nat)
    requires SameBefore(t0, t1, h, f) && SameBefore(t1, t2, h, f)
    ensures SameBefore(t0, t2, h, f)
  {
  }

  /** The last block of a node is the last block of its last slot. */
  lemma LastOf(h: nat, f: nat, i: nat)
    requires h > 0 && f < Pow(h) && KidOf(f, h) <= i < FANOUT
    ensures (Pow(h) - 1) / Pow(h - 1) == FANOUT - 1 && SlotHi(Pow(h) - 1, Pow(h - 1), i) == Pow(h - 1) - 1
    ensures SlotLo(f, Pow(h - 1), i) < Pow(h - 1)
  {
    var p := Pow(h - 1);
    DivModUnique(Pow(h) - 1, p, FANOUT - 1, p - 1);
    SlotRange(f, Pow(h) - 1, p, i);
  }

  /** A change of one kid past f is a change of the node past f. */
  lemma KidSameBefore(t: Tree, h: nat, i: nat, k: Tree, f: nat)
    requires t.Node? && Shape(t, h) && f < Pow(h) && KidOf(f, h) <= i < FANOUT
    requires SameBefore(t.kids[i], k, h - 1, SlotLo(f, Pow(h - 1), i))
    ensures SameBefore(t, Node(t.blk, t.kids[i := k]), h, f)
  {
    var t', l := Node(t.blk, t.kids[i := k]), Pow(h) - 1;
    LastOf(h, f, i);
    assert Shape(t', h);
    assert TruncKids(t.kids, h, f, l) == TruncKids(t'.kids, h, f, l) by {
      forall j | 0 <= j < FANOUT ensures TruncKid(t.kids[j], h, f, l, j) == TruncKid(t'.kids[j], h, f, l, j) {
        if j == i { assert f / Pow(h - 1) <= j <= l / Pow(h - 1); }
      }
    }
  }

  /** A new data block, or a new empty node, leaves no trace when cut off. */
  lemma NewLeafCut(b: nat, f: nat)
    requires b != 0 && f == 0
    ensures SameBefore(Hole, Leaf(b), 0, f)
  {
  }

  lemma NewNodeCut(b: nat, h: nat, f: nat)
    requires b != 0 && h > 0 && f < Pow(h)
    ensures SameBefore(Hole, Node(b, EmptyKids()), h, f)
  {
    var t := Node(b, EmptyKids());
    assert Shape(t, h);
    TruncBarren(t, h, f, Pow(h) - 1);
  }

  /** Cutting at f and then at an earlier block is cutting at the earlier one. */
  lemma {:induction false} CutTwice(t: Tree, h: nat, g: nat, f: nat)
    requires Shape(t, h) && g <= f < Pow(h)
    ensures Shape(Trunc(t, h, f, Pow(h) - 1), h)
    ensures Trunc(Trunc(t, h, f, Pow(h) - 1), h, g, Pow(h) - 1) == Trunc(t, h, g, Pow(h) - 1)
    decreases h
  {
    TruncShape(t, h, f, Pow(h) - 1);
    if !t.Node? {
    } else {
      var l := Pow(h) - 1;
      var kids := TruncKids(t.kids, h, f, l);
      forall j: nat | j < FANOUT ensures Shape(kids[j], h - 1) && TruncKid(kids[j], h, g, l, j) == TruncKid(t.kids[j], h, g, l, j) {
        CutKidTwice(t, h, g, f, j);
      }
      if AllHoles(kids) {
        assert TruncKids(t.kids, h, g, l) == TruncKids(kids, h, g, l);
        TruncBarren(Node(t.blk, kids), h, g, l);
      } else {
        assert TruncKids(t.kids, h, g, l) == TruncKids(kids, h, g, l);
      }
    }
  }

  lemma {:induction false} CutKidTwice(t: Tree, h: nat, g: nat, f: nat, j: nat)
    requires t.Node? && Shape(t, h) && g <= f < Pow(h) && j < FANOUT
    ensures var l := Pow(h) - 1; var k := TruncKid(t.kids[j], h, f, l, j);
            Shape(k, h - 1) && TruncKid(k, h, g, l, j) == TruncKid(t.kids[j], h, g, l, j)
    decreases h, 0
  {
    var l, p := Pow(h) - 1, Pow(h - 1);
    LastOf(h, f, FANOUT - 1);
    DivMono(g, f, p);
    if f / p <= j {
      LastOf(h, f, j);
      LastOf(h, g, j);
      SlotsOrdered(g, f, p, j);
      CutTwice(t.kids[j], h - 1, SlotLo(g, p, j), SlotLo(f, p, j));
    } else {
      assert Shape(t.kids[j], h - 1);
    }
  }

  lemma SlotsOrdered(g: nat, f: nat, p: nat, j: nat)
    requires 0 < p && g <= f && f / p <= j
    ensures SlotLo(g, p, j) <= SlotLo(f, p, j)
  {
    DivMono(g, f, p);
  }

  lemma SameBeforeEarlier(t: Tree, t': Tree, h: nat, g: nat, f: nat)
    requires SameBefore(t, t', h, f) && g <= f
    ensures SameBefore(t, t', h, g)
  {
    if f < Pow(h) {
      CutTwice(t, h, g, f);
      CutTwice(t', h, g, f);
    }
  }

  /** Cutting where nothing is mapped changes nothing, unless the leftmost path ends in
      an empty node there. */
  lemma {:induction false} CutNothing(t: Tree, h: nat, f: nat)
    requires Shape(t, h) && Tidy(t) && f < Pow(h) && Unmapped(t, h, f, Pow(h)) && SpineReach(t, h) <= f
    ensures Trunc(t, h, f, Pow(h) - 1) == t
    decreases h
  {
    if h == 0 {
      assert Lookup(t, h, 0) == 0;
    } else if t.Node? {
      var l, p := Pow(h) - 1, Pow(h - 1);
      TidyNoEmpty(t, h);
      assert !AllHoles(t.kids);
      LastOf(h, f, FANOUT - 1);
      forall j: nat | j < FANOUT ensures TruncKid(t.kids[j], h, f, l, j) == t.kids[j] {
        if f / p <= j { CutNothingKid(t, h, f, j); }
      }
      assert TruncKids(t.kids, h, f, l) == t.kids;
    }
  }

  lemma {:induction false} CutNothingKid(t: Tree, h: nat, f: nat, j: nat)
    requires t.Node? && Shape(t, h) && Tidy(t) && f < Pow(h) && Unmapped(t, h, f, Pow(h)) && SpineReach(t, h) <= f
    requires KidOf(f, h) <= j < FANOUT
    ensures Shape(t.kids[j], h - 1) && TruncKid(t.kids[j], h, f, Pow(h) - 1, j) == t.kids[j]
    decreases h, 0
  {
    var p, g: nat := Pow(h - 1), h - 1;
    LastOf(h, f, j);
    KidUnmappedFrom(t, h, f, j);
    if j == 0 {
      SpineOfKid(t, h, f);
    } else {
      TidyOf(t.kids[j], g);
    }
    hide Trunc, Tidy, SpineReach, Unmapped, SlotLo, SlotHi;
    CutNothing(t.kids[j], g, SlotLo(f, p, j));
  }

  lemma KidUnmappedFrom(t: Tree, h: nat, f: nat, j: nat)
    requires t.Node? && Shape(t, h) && f < Pow(h) && Unmapped(t, h, f, Pow(h)) && KidOf(f, h) <= j < FANOUT
    ensures Shape(t.kids[j], h - 1) && Unmapped(t.kids[j], h - 1, SlotLo(f, Pow(h - 1), j), Pow(h - 1))
  {
    var p, g: nat := Pow(h - 1), h - 1;
    assert Shape(t.kids[j], g);
    forall r: nat | SlotLo(f, p, j) <= r < p ensures Lookup(t.kids[j], g, r) == 0 {
      KidIndex(t, h, j, r);
      FromSlot(f, p, j, r);
    }
  }

  lemma SpineOfKid(t: Tree, h: nat, f: nat)
    requires t.Node? && Shape(t, h) && Tidy(t) && f < Pow(h) && SpineReach(t, h) <= f && KidOf(f, h) == 0
    ensures Shape(t.kids[0], h - 1) && Tidy(t.kids[0]) && SlotLo(f, Pow(h - 1), 0) == f && SpineReach(t.kids[0], h - 1) <= f
  {
    DivModUnique(f, Pow(h - 1), 0, f % Pow(h - 1));
  }

  lemma FromSlot(f: nat, p: nat, j: nat, r: nat)
    requires 0 < p && f / p <= j && SlotLo(f, p, j) <= r < p
    ensures f <= j * p + r
  {
    assert f == f / p * p + f % p;
    MulMono(f / p, j, p);
  }

  /** A tree without empty nodes is tidy, and nothing ends its leftmost path early. */
  lemma {:induction false} TidyOf(t: Tree, h: nat)
    requires Shape(t, h) && NoEmpty(t)
    ensures Tidy(t) && SpineReach(t, h) == 0
    decreases h
  {
    if !t.Node? {
    } else {
      assert Shape(t.kids[0], h - 1);
      TidyOf(t.kids[0], h - 1);
    }
  }

  // ---------------------------------------------------------------- where an allocation stopped

  /** i is the first block of [f, l] that is not mapped. */
  ghost predicate FirstGap(t: Tree, h: nat, f: nat, l: nat, i: nat) {
    && Shape(t, h) && f <= i <= l && FullLookup(t, h, i) == 0
    && forall j: nat :: f <= j < i ==> FullLookup(t, h, j) != 0
  }

  /** The metadata node that holds the pointer to file block i is there. */
  predicate HasSlotFor(t: Tree, h: nat, i: nat)
    requires Shape(t, h) && i < Pow(h)
  {
    h > 0 && t.Node? &&
    (h == 1 || (SlotIndex(i, Pow(h - 1), FANOUT); HasSlotFor(t.kids[i / Pow(h - 1)], h - 1, i % Pow(h - 1))))
  }

  /** The flag for blocks past the end, after an allocation of [f, l] has stopped: it is
      set when the tree was high enough and there was a place for the pointer to the
      first block still missing, so that what failed was a data block. */
  ghost predicate Flagged(t: Tree, h: nat, f: nat, l: nat, was: bool, now: bool) {
    exists i: nat :: FirstGap(t, h, f, l, i) && (now <==> was || (l < Pow(h) && HasSlotFor(t, h, i)))
  }

  lemma LeastGap(t: Tree, h: nat, f: nat, l: nat) returns (i: nat)
    requires Shape(t, h) && f <= l && FullLookup(t, h, l) == 0
    ensures FirstGap(t, h, f, l, i)
  {
    i := f;
    while FullLookup(t, h, i) != 0
      invariant f <= i <= l && forall j: nat :: f <= j < i ==> FullLookup(t, h, j) != 0
      decreases l - i
    {
      i := i + 1;
    }
  }

  /** An allocation that stopped before the tree was high enough. */
  lemma NotHighEnough(t: Tree, h: nat, f: nat, l: nat, flag: bool)
    requires Shape(t, h) && f <= l && Pow(h) <= l
    ensures Flagged(t, h, f, l, flag, flag)
  {
    var i := LeastGap(t, h, f, l);
  }

  lemma HoleGap(h: nat, f: nat, l: nat, flag: bool)
    requires f <= l
    ensures FirstGap(Hole, h, f, l, f) && Flagged(Hole, h, f, l, flag, flag)
  {
    assert FirstGap(Hole, h, f, l, f);
    assert f < Pow(h) ==> !HasSlotFor(Hole, h, f);
  }

  /** The gap of a kid is the gap of the node, if the slots before it are filled. */
  lemma KidGap(t: Tree, h: nat, f: nat, l: nat, i: nat, g: nat)
    requires t.Node? && Shape(t, h) && f <= l < Pow(h) && KidOf(f, h) <= i <= KidOf(l, h) < FANOUT
    requires forall j: nat :: f <= j <= l && KidOf(j, h) < i ==> Lookup(t, h, j) != 0
    requires FirstGap(t.kids[i], h - 1, SlotLo(f, Pow(h - 1), i), SlotHi(l, Pow(h - 1), i), g)
    ensures g < Pow(h - 1) && i * Pow(h - 1) + g < Pow(h) && FirstGap(t, h, f, l, i * Pow(h - 1) + g)
    ensures HasSlotFor(t, h, i * Pow(h - 1) + g) <==> h == 1 || HasSlotFor(t.kids[i], h - 1, g)
  {
    var p := Pow(h - 1);
    SlotRange(f, l, p, i);
    KidIndex(t, h, i, g);
    SlotJoin(i, g, p);
    SlotSplit(f, l, p, i * p + g);
    forall j: nat | f <= j < i * p + g ensures FullLookup(t, h, j) != 0 { BeforeKidGap(t, h, p, f, l, i, g, j); }
  }

  lemma BeforeKidGap(t: Tree, h: nat, p: nat, f: nat, l: nat, i: nat, g: nat, j: nat)
    requires h > 0 && t.Node? && Shape(t, h) && |t.kids| == FANOUT && i < FANOUT && p == Pow(h - 1)
    requires forall j: nat :: f <= j <= l && KidOf(j, h) < i ==> j < Pow(h) && Lookup(t, h, j) != 0
    requires Shape(t.kids[i], h - 1) && FirstGap(t.kids[i], h - 1, SlotLo(f, p, i), SlotHi(l, p, i), g) && g < p
    requires f <= j < i * p + g && j <= l && j < Pow(h)
    ensures Lookup(t, h, j) != 0
  {
    hide FirstGap, Shape, Lookup, SlotLo, SlotHi;
    LookupKid(t, h, j);
    InKid(f, p, i, g, j);
    if j / p == i { BeforeGap(t.kids[i], h - 1, SlotLo(f, p, i), SlotHi(l, p, i), g, j % p); }
  }

  lemma InKid(f: nat, p: nat, i: nat, g: nat, j: nat)
    requires 0 < p && f <= j < i * p + g && g < p
    ensures j / p <= i && (j / p == i ==> SlotLo(f, p, i) <= j % p < g)
  {
    SlotJoin(i, g, p);
    DivMono(j, i * p + g, p);
    assert j == j / p * p + j % p && f == f / p * p + f % p;
  }

  lemma BeforeGap(t: Tree, h: nat, f: nat, l: nat, g: nat, r: nat)
    requires FirstGap(t, h, f, l, g) && f <= r < g && r < Pow(h)
    ensures Lookup(t, h, r) != 0
  {
    assert FullLookup(t, h, r) != 0;
  }

  // ---------------------------------------------------------------- raising

  /** t1 is t under h' - h roots that have nothing else. */
  predicate Under(t: Tree, h: nat, t1: Tree, h': nat)
    decreases h'
  {
    if h' <= h then h' == h && t1 == t
    else t1.Node? && |t1.kids| == FANOUT && (forall j :: 0 < j < FANOUT ==> t1.kids[j].Hole?) && Under(t, h, t1.kids[0], h' - 1)
  }

  lemma {:induction false} UnderTidy(t: Tree, h: nat, t1: Tree, h': nat)
    requires Under(t, h, t1, h') && Tidy(t)
    ensures Tidy(t1)
    decreases h'
  {
    if h' <= h {
    } else {
      UnderTidy(t, h, t1.kids[0], h' - 1);
    }
  }

  /** Cutting the raised tree within reach of the old one is cutting the old one. */
  lemma {:induction false} DownCut(t: Tree, h: nat, t1: Tree, h': nat, f: nat)
    requires Under(t, h, t1, h') && Shape(t, h) && Shape(t1, h') && h <= h' && f <= Pow(h) && f < Pow(h')
    ensures Down(Trunc(t1, h', f, Pow(h') - 1), h' - h) == if f < Pow(h) then Trunc(t, h, f, Pow(h) - 1) else t
    decreases h'
  {
    if h' == h {
    } else {
      var g: nat := h' - 1;
      PowMono(h, g);
      OneDown(t1, h', f, g - h);
      hide Trunc, Pow, Shape;
      if f < Pow(g) {
        DownCut(t, h, t1.kids[0], g, f);
      } else if g > h {
        PowGrows(h, g);
      }
    }
  }

  lemma PowGrows(h: nat, g: nat)
    requires h < g
    ensures Pow(h) < Pow(g)
  {
    PowMono(h + 1, g);
  }

  /** Cutting a root that has only its first kid, one level down. */
  lemma OneDown(t1: Tree, h: nat, f: nat, n: nat)
    requires h > 0 && t1.Node? && Shape(t1, h) && f <= Pow(h - 1) && f < Pow(h)
    requires forall j :: 0 < j < FANOUT ==> t1.kids[j].Hole?
    ensures Shape(t1.kids[0], h - 1)
    ensures Down(Trunc(t1, h, f, Pow(h) - 1), n + 1) ==
            Down(if f < Pow(h - 1) then Trunc(t1.kids[0], h - 1, f, Pow(h - 1) - 1) else t1.kids[0], n)
  {
    var l, p := Pow(h) - 1, Pow(h - 1);
    assert Shape(t1.kids[0], h - 1);
    var kids := TruncKids(t1.kids, h, f, l);
    forall j: nat | 0 < j < FANOUT ensures kids[j].Hole? { HoleStays(h, f, l, j); }
    if f < p {
      TruncKidZero(t1, h, f, l, p - 1);
    } else {
      DivModUnique(f, p, 1, 0);
    }
    HoleDown(n);
  }

  lemma HoleStays(h: nat, f: nat, l: nat, j: nat)
    requires h > 0 && f <= l < Pow(h)
    ensures TruncKid(Hole, h, f, l, j).Hole?
  {
    if f / Pow(h - 1) <= j <= l / Pow(h - 1) { SlotRange(f, l, Pow(h - 1), j); }
  }

  lemma {:induction false} HoleDown(n: nat)
    ensures Down(Hole, n) == Hole
  {
  }

  /** From t to t', by raising and then by growth at or past f only. */
  ghost predicate GrewFrom(t: Tree, h: nat, t': Tree, h': nat, f: nat) {
    exists t1 :: Under(t, h, t1, h') && SameBefore(t1, t', h', f)
  }

  // ---------------------------------------------------------------- one block after the other

  /** From t to t' blocks at and past f were mapped in order: behind one that is missing
      nothing is new. */
  ghost predicate InOrder(t: Tree, t': Tree, h: nat, f: nat) {
    && Shape(t, h) && Shape(t', h)
    && forall i: nat, j: nat :: f <= i <= j < Pow(h) && Lookup(t', h, i) == 0 ==> Lookup(t', h, j) == Lookup(t, h, j)
  }

  lemma InOrderSame(t: Tree, t': Tree, h: nat, f: nat)
    requires Shape(t, h) && Shape(t', h) && forall j: nat :: j < Pow(h) ==> Lookup(t', h, j) == Lookup(t, h, j)
    ensures InOrder(t, t', h, f)
  {
  }

  lemma InOrderTrans(t: Tree, t1: Tree, t2: Tree, h: nat, f: nat)
    requires InOrder(t, t1, h, f) && InOrder(t1, t2, h, f)
    requires forall i: nat :: i < Pow(h) && Lookup(t1, h, i) != 0 ==> Lookup(t2, h, i) != 0
    ensures InOrder(t, t2, h, f)
  {
    forall i: nat, j: nat | f <= i <= j < Pow(h) && Lookup(t2, h, i) == 0 ensures Lookup(t2, h, j) == Lookup(t, h, j) {
      assert Lookup(t1, h, i) == 0;
    }
  }

  /** An order within kid s, the kids before it having no gap, is one of the node. */
  lemma InOrderKid(t: Tree, h: nat, f: nat, s: nat, k: Tree)
    requires t.Node? && Shape(t, h) && s < FANOUT && f < Pow(h) && f / Pow(h - 1) <= s
    requires forall i: nat :: f <= i < Pow(h) && i / Pow(h - 1) < s ==> Lookup(t, h, i) != 0
    requires InOrder(t.kids[s], k, h - 1, SlotLo(f, Pow(h - 1), s))
    ensures InOrder(t, Node(t.blk, t.kids[s := k]), h, f)
  {
    var t' := Node(t.blk, t.kids[s := k]);
    forall i: nat, j: nat | f <= i <= j < Pow(h) && Lookup(t', h, i) == 0 ensures Lookup(t', h, j) == Lookup(t, h, j) {
      InOrderAt(t, h, f, s, k, i, j);
    }
  }

  lemma InOrderAt(t: Tree, h: nat, f: nat, s: nat, k: Tree, i: nat, j: nat)
    requires t.Node? && Shape(t, h) && s < FANOUT && f <= i <= j < Pow(h) && f / Pow(h - 1) <= s
    requires i / Pow(h - 1) < s ==> Lookup(t, h, i) != 0
    requires InOrder(t.kids[s], k, h - 1, SlotLo(f, Pow(h - 1), s))
    requires Lookup(Node(t.blk, t.kids[s := k]), h, i) == 0
    ensures Lookup(Node(t.blk, t.kids[s := k]), h, j) == Lookup(t, h, j)
  {
    var t', p := Node(t.blk, t.kids[s := k]), Pow(h - 1);
    SlotIndex(i, p, FANOUT);
    SlotIndex(j, p, FANOUT);
    DivMono(i, j, p);
    DivMono(f, i, p);
    LookupKid(t, h, i);
    LookupKid(t', h, i);
    LookupKid(t, h, j);
    LookupKid(t', h, j);
    if j / p == s && i / p == s { SameSlot(f, i, j, s, p); }
  }

  lemma SameSlot(f: nat, i: nat, j: nat, s: nat, p: nat)
    requires 0 < p && f <= i <= j && i / p == j / p == s
    ensures i % p <= j % p < p && (f / p == s ==> f % p <= i % p)
  {
    assert i == s * p + i % p && j == s * p + j % p;
    assert f == f / p * p + f % p;
  }

  /** The same across heights. */
  ghost predicate InTurn(t: Tree, h: nat, t': Tree, h': nat, f: nat) {
    && Shape(t, h) && Shape(t', h')
    && forall i: nat, j: nat :: f <= i <= j && FullLookup(t', h', i) == 0 ==> FullLookup(t', h', j) == FullLookup(t, h, j)
  }

  lemma InTurnRefl(t: Tree, h: nat, f: nat)
    requires Shape(t, h)
    ensures InTurn(t, h, t, h, f)
  {
  }

  lemma InTurnRaised(t: Tree, h: nat, t1: Tree, t2: Tree, h': nat, f: nat)
    requires Shape(t, h) && InOrder(t1, t2, h', f) && forall i: nat :: FullLookup(t1, h', i) == FullLookup(t, h, i)
    ensures InTurn(t, h, t2, h', f)
  {
    forall i: nat, j: nat | f <= i <= j && FullLookup(t2, h', i) == 0 ensures FullLookup(t2, h', j) == FullLookup(t, h, j) {
      assert FullLookup(t1, h', j) == FullLookup(t, h, j);
      if j < Pow(h') { assert Lookup(t2, h', i) == 0; }
    }
  }
}
