/** Two things that only happen around generation 65535: invalidation takes log entries
    away while recovery runs, and the generation numbers start again. */
module LastGeneration {
  import opened Codec
  import opened Allocator
  import opened Power
  import opened Journal
  import opened LogShape
  import opened Transaction
  import opened Crash

  // ---------------------------------------------------------------- two open transactions

  /** The entries of r after its first k slots. */
  function After(slots: seq<LogEntry>, r: Tr, k: nat): seq<LogEntry>
    requires r.base + r.used <= |slots|
  {
    if k < r.used then slots[r.base + k..r.base + r.used] else []
  }

  lemma {:induction false} EntriesSplit(slots: seq<LogEntry>, g: nat, a: nat, b: nat, c: nat)
    requires a <= b <= c <= |slots|
    ensures Entries(slots, g, a, c) == Entries(slots, g, a, b) + Entries(slots, g, b, c)
    decreases c
  {
    if b == c {
    } else {
      EntriesSplit(slots, g, a, b, c - 1);
    }
  }

  /** With the first k slots of the upper one invalidated, the walk from its last
      entry runs on into the lower one. */
  lemma WalksOn(slots: seq<LogEntry>, z: seq<LogEntry>, g: nat, lo: nat, a: Tr, r: Tr, k: nat)
    requires 0 < g && lo <= a.base && Region(slots, g, a) && Region(slots, g, r) && a.base + a.size == r.base
    requires !a.ended && 0 < a.used && !r.ended && 0 < k < r.used && z == Zeroed(slots, r.base, r.base + k)
    ensures Bottom(z, g, lo, r.base + r.used - 1) == a.base
    ensures Entries(z, g, a.base, r.base + r.used) == Own(slots, a) + After(slots, r, k)
  {
    hide Bottom, Entries, Region, Own, After, Zeroed;
    CutRegion(slots, z, g, a, r, k);
    WalkReaches(z, g, lo, a.base, r.base + r.used - 1);
    EntriesSplit(z, g, a.base, a.base + a.used, r.base + r.used);
    EntriesSplit(z, g, a.base + a.used, r.base + k, r.base + r.used);
    AllValid(z, g, a.base, a.base + a.used);
    AllValid(z, g, r.base + k, r.base + r.used);
    NoneValid(z, g, a.base + a.used, a.base + a.used, r.base + k);
    NoEntries([], z, g, a.base + a.used);
  }

  lemma CutRegion(slots: seq<LogEntry>, z: seq<LogEntry>, g: nat, a: Tr, r: Tr, k: nat)
    requires 0 < g && Region(slots, g, a) && Region(slots, g, r) && a.base + a.size == r.base
    requires !a.ended && 0 < a.used && !r.ended && 0 < k < r.used && z == Zeroed(slots, r.base, r.base + k)
    ensures a.base + a.used <= r.base && r.base + r.used <= |z| == |slots| && StartsAt(z, g, a.base)
    ensures forall x :: a.base <= x < a.base + a.used || r.base + k <= x < r.base + r.used ==> z[x].gen == g
    ensures forall x :: a.base + a.used <= x < r.base + k ==> z[x].gen != g
    ensures forall x :: a.base <= x < r.base + r.used - 1 ==> !(z[x].gen == g && Ends(z[x]))
    ensures forall x :: a.base < x <= r.base + r.used - 1 ==> !StartsAt(z, g, x)
    ensures z[a.base..a.base + a.used] == Own(slots, a) && z[r.base + k..r.base + r.used] == After(slots, r, k)
  {
  }

  /** What a scan finds then. */
  lemma TwoOpenPlan(slots: seq<LogEntry>, z: seq<LogEntry>, g: nat, lo: nat, hi: nat, done: seq<Tr>, a: Tr, r: Tr, k: nat)
    requires 0 < g && Segment(slots, g, lo, hi, done + [a] + [r]) && Quiet(done) && !a.ended && 0 < a.used && !r.ended
    requires 0 < k <= r.size && z == Zeroed(slots, r.base, r.base + k)
    ensures hi <= |slots| && a.base + a.used <= |slots| && r.base + r.used <= |slots|
    ensures Plan(slots, g, lo, hi) == Own(slots, a) + Own(slots, r)
    ensures Plan(z, g, lo, hi) == Own(slots, a) + After(slots, r, k)
  {
    hide Segment, Plan, Calm, Own, After, Bottom, Entries, Quiet, Region, Zeroed;
    SegmentLast(slots, g, lo, hi, done + [a], r);
    SegmentLast(slots, g, lo, r.base, done, a);
    BelowUntouched(slots, z, g, lo, a, r, k, done);
    ScanRegion(slots, g, lo, a);
    ScanRegion(slots, g, lo, r);
    assert [] + Own(slots, a) == Own(slots, a);
    ScanCutRegion(slots, z, g, lo, hi, a, r, k);
  }

  lemma BelowUntouched(slots: seq<LogEntry>, z: seq<LogEntry>, g: nat, lo: nat, a: Tr, r: Tr, k: nat, done: seq<Tr>)
    requires Segment(slots, g, lo, a.base, done) && Quiet(done) && a.base <= r.base && z == Zeroed(slots, r.base, r.base + k)
    ensures a.base <= |slots| == |z| && Plan(slots, g, lo, a.base) == [] && Plan(z, g, lo, a.base) == []
  {
    hide Segment, Plan, Quiet, Closed;
    SegmentBound(slots, g, lo, a.base, done);
    SegmentFrame(slots, z, g, lo, a.base, done);
    QuietClosed(slots, g, lo, a.base, done);
    QuietClosed(z, g, lo, a.base, done);
    ClosedPlan(slots, g, lo, a.base);
    ClosedPlan(z, g, lo, a.base);
  }

  lemma ScanCutRegion(slots: seq<LogEntry>, z: seq<LogEntry>, g: nat, lo: nat, hi: nat, a: Tr, r: Tr, k: nat)
    requires 0 < g && lo <= a.base && Region(slots, g, a) && Region(slots, g, r) && a.base + a.size == r.base
    requires r.base + r.size == hi && !a.ended && 0 < a.used && !r.ended && 0 < k <= r.size
    requires z == Zeroed(slots, r.base, r.base + k)
    ensures Plan(z, g, lo, a.base) == [] ==> Plan(z, g, lo, hi) == Own(slots, a) + After(slots, r, k)
  {
    hide Plan, Calm, Bottom, Entries;
    if k < r.used {
      SkipUnused(z, g, lo, r.base + r.used, hi);
      WalksOn(slots, z, g, lo, a, r, k);
      LastPart(z, g, lo, r.base + r.used);
    } else {
      RegionFrame(slots, z, g, a, a.base, r.base);
      SkipUnused(z, g, lo, r.base, hi);
      ScanRegion(z, g, lo, a);
      assert Own(z, a) == Own(slots, a) && Own(slots, a) + [] == Own(slots, a);
    }
  }

  /** Entries of the upper one that still cover a byte the lower one did not log say
      the same as the whole upper one did. */
  ghost predicate SameFirst(own: seq<LogEntry>, upper: seq<LogEntry>, left: seq<LogEntry>, size: nat) {
    forall x: nat :: x < size && !Covered(own, x) && Covered(left, x) ==> FirstLogged(left, x, 0) == FirstLogged(upper, x, 0)
  }

  /** Undoing what is left of the upper one once more, with the lower one. */
  lemma UndoneAgainIff(bytes: seq<byte>, own: seq<LogEntry>, upper: seq<LogEntry>, left: seq<LogEntry>)
    requires Inside(own, |bytes|) && Inside(upper, |bytes|) && Inside(left, |bytes|)
    requires forall x :: Covered(left, x) ==> Covered(upper, x)
    ensures Inside(own + upper, |bytes|) && Inside(own + left, |bytes|)
    ensures Undo(Undo(bytes, upper), own + left) == Undo(bytes, own + upper) <==> SameFirst(own, upper, left, |bytes|)
  {
    hide Undo, FirstLogged, Covered, Inside;
    InsideBoth(own, upper, |bytes|);
    InsideBoth(own, left, |bytes|);
    var mid := Undo(bytes, upper);
    var again, right := Undo(mid, own + left), Undo(bytes, own + upper);
    forall x: nat | x < |bytes| ensures again[x] == right[x] <==>
      (!Covered(own, x) && Covered(left, x) ==> FirstLogged(left, x, 0) == FirstLogged(upper, x, 0))
    {
      UndoneByte(bytes, own, upper, left, x);
    }
    if SameFirst(own, upper, left, |bytes|) {
      assert again == right;
    }
  }

  lemma UndoneByte(bytes: seq<byte>, own: seq<LogEntry>, upper: seq<LogEntry>, left: seq<LogEntry>, x: nat)
    requires Inside(own, |bytes|) && Inside(upper, |bytes|) && Inside(left, |bytes|) && x < |bytes|
    requires Inside(own + upper, |bytes|) && Inside(own + left, |bytes|) && (Covered(left, x) ==> Covered(upper, x))
    ensures Undo(Undo(bytes, upper), own + left)[x] == Undo(bytes, own + upper)[x] <==>
            (!Covered(own, x) && Covered(left, x) ==> FirstLogged(left, x, 0) == FirstLogged(upper, x, 0))
  {
    hide Undo, FirstLogged, Covered, Inside;
    var mid := Undo(bytes, upper);
    UndoByte(bytes, upper, x);
    UndoByte(mid, own + left, x);
    UndoByte(bytes, own + upper, x);
    FirstLoggedAppend(own, left, x, mid[x]);
    FirstLoggedAppend(own, upper, x, bytes[x]);
    FirstLoggedCovered(own, x, FirstLogged(left, x, mid[x]), FirstLogged(upper, x, bytes[x]));
    FirstLoggedCovered(own, x, FirstLogged(upper, x, bytes[x]), FirstLogged(left, x, mid[x]));
    FirstLoggedCovered(left, x, mid[x], 0);
    FirstLoggedCovered(upper, x, bytes[x], 0);
  }

  lemma AfterInside(slots: seq<LogEntry>, a: Tr, r: Tr, k: nat, size: nat)
    requires a.base + a.used <= |slots| && r.base + r.used <= |slots| && !r.ended && Inside(slots, size)
    ensures Inside(Own(slots, a), size) && Inside(Own(slots, r), size) && Inside(After(slots, r, k), size)
    ensures forall x :: Covered(After(slots, r, k), x) ==> Covered(Own(slots, r), x)
  {
    forall x | Covered(After(slots, r, k), x) ensures Covered(Own(slots, r), x) {
      var i :| 0 <= i < |After(slots, r, k)| && Covers(After(slots, r, k)[i], x);
      assert Own(slots, r)[k + i] == After(slots, r, k)[i];
    }
  }

  /** Two transactions open in the last generation, power failing after recovery has
      undone the upper one and invalidated k of its slots: the next recovery gives the
      right image exactly if, on every byte that the lower one did not log, the
      entries left agree with what the upper one logged first. */
  lemma RestartTwoOpenIff(slots: seq<LogEntry>, z: seq<LogEntry>, head: nat, tail: nat, upper: seq<Tr>, done: seq<Tr>, a: Tr,
                          r: Tr, k: nat, bytes: seq<byte>)
    requires head < |slots| && tail < |slots| && Image(slots, MAX_GEN, head, tail, upper, done + [a] + [r])
    requires Quiet(upper) && Quiet(done) && !a.ended && 0 < a.used && !r.ended && 0 < k <= r.size
    requires z == Zeroed(slots, r.base, r.base + k) && Inside(slots, |bytes|)
    ensures a.base + a.used <= |slots| && r.base + r.used <= |slots| && Inside(Own(slots, r), |bytes|)
    ensures Inside(PlanAll(slots, MAX_GEN, head, tail), |bytes|) && Inside(PlanAll(z, MAX_GEN, head, tail), |bytes|)
    ensures Undo(Undo(bytes, Own(slots, r)), PlanAll(z, MAX_GEN, head, tail)) == Undo(bytes, PlanAll(slots, MAX_GEN, head, tail))
            <==> SameFirst(Own(slots, a), Own(slots, r), After(slots, r, k), |bytes|)
  {
    hide Image, PlanAll, Undo, Own, After, Covered, SameFirst, Inside, Quiet;
    TwoOpenPlanAll(slots, z, head, tail, upper, done, a, r, k);
    AfterInside(slots, a, r, k, |bytes|);
    UndoneAgainIff(bytes, Own(slots, a), Own(slots, r), After(slots, r, k));
  }

  lemma TwoOpenPlanAll(slots: seq<LogEntry>, z: seq<LogEntry>, head: nat, tail: nat, upper: seq<Tr>, done: seq<Tr>, a: Tr,
                       r: Tr, k: nat)
    requires head < |slots| && tail < |slots| && Image(slots, MAX_GEN, head, tail, upper, done + [a] + [r])
    requires Quiet(upper) && Quiet(done) && !a.ended && 0 < a.used && !r.ended && 0 < k <= r.size
    requires z == Zeroed(slots, r.base, r.base + k)
    ensures a.base + a.used <= |slots| && r.base + r.used <= |slots|
    ensures PlanAll(slots, MAX_GEN, head, tail) == Own(slots, a) + Own(slots, r)
    ensures PlanAll(z, MAX_GEN, head, tail) == Own(slots, a) + After(slots, r, k)
  {
    hide Segment, Plan, Own, After, Quiet, Closed, PrevGen, Zeroed, Region;
    var lo := if head <= tail then head else 0;
    TwoOpenPlan(slots, z, MAX_GEN, lo, tail, done, a, r, k);
    if tail < head {
      SegmentLast(slots, MAX_GEN, 0, tail, done + [a], r);
      SegmentFrame(slots, z, PrevGen(MAX_GEN), head, |slots|, upper);
      QuietClosed(slots, PrevGen(MAX_GEN), head, |slots|, upper);
      QuietClosed(z, PrevGen(MAX_GEN), head, |slots|, upper);
      ClosedPlan(slots, PrevGen(MAX_GEN), head, |slots|);
      ClosedPlan(z, PrevGen(MAX_GEN), head, |slots|);
    }
  }

  /** An entry of the example, in the last generation. */
  function Sample(addr: nat, tid: nat, start: bool, was: byte): LogEntry {
    LogEntry(addr, tid, MAX_GEN, start, false, false, [was])
  }

  /** Such a log: transaction 1 logged byte 1, transaction 2 logged byte 2 as 7, changed
      it, and logged it again as 8. */
  function SampleLog(): seq<LogEntry> {
    var unused := LogEntry(0, 0, 0, false, false, false, []);
    [unused, Sample(1, 1, true, 1), Sample(2, 2, true, 7), Sample(2, 2, false, 8), unused]
  }

  /** There the second recovery restores a wrong byte. */
  lemma RestartTwoOpen(bytes: seq<byte>)
    requires |bytes| == 3
    ensures var log := SampleLog(); var r := Tr(2, 2, 2, false); var z := Zeroed(log, 2, 3);
            && Image(log, MAX_GEN, 1, 4, [], [Tr(1, 1, 1, false), r]) && Inside(log, 3)
            && Inside(Own(log, r), 3) && Inside(PlanAll(log, MAX_GEN, 1, 4), 3) && Inside(PlanAll(z, MAX_GEN, 1, 4), 3)
            && Undo(Undo(bytes, Own(log, r)), PlanAll(z, MAX_GEN, 1, 4)) != Undo(bytes, PlanAll(log, MAX_GEN, 1, 4))
  {
    hide PlanAll, Undo, Image, Own, After, SameFirst, SampleLog, Inside, Quiet, Zeroed;
    var log, a, r := SampleLog(), Tr(1, 1, 1, false), Tr(2, 2, 2, false);
    SampleShape(a, r);
    SampleDiffers(a, r);
    QuietNone();
    assert [] + [a] + [r] == [a, r];
    RestartTwoOpenIff(log, Zeroed(log, 2, 3), 1, 4, [], [], a, r, 1, bytes);
  }

  lemma SampleShape(a: Tr, r: Tr)
    requires a == Tr(1, 1, 1, false) && r == Tr(2, 2, 2, false)
    ensures |SampleLog()| == 5 && Image(SampleLog(), MAX_GEN, 1, 4, [], [a, r]) && Inside(SampleLog(), 3)
  {
    var log := SampleLog();
    assert [a, r][..1] == [a] && [a][..0] == [];
    assert Region(log, MAX_GEN, a) && Region(log, MAX_GEN, r);
    hide SampleLog, Region;
    assert Segment(log, MAX_GEN, 1, 1, []);
    assert Segment(log, MAX_GEN, 1, 2, [a]);
  }

  lemma SampleDiffers(a: Tr, r: Tr)
    requires a == Tr(1, 1, 1, false) && r == Tr(2, 2, 2, false)
    ensures !SameFirst(Own(SampleLog(), a), Own(SampleLog(), r), After(SampleLog(), r, 1), 3)
  {
    var own, upper, left := [Sample(1, 1, true, 1)], [Sample(2, 2, true, 7), Sample(2, 2, false, 8)], [Sample(2, 2, false, 8)];
    assert Own(SampleLog(), a) == own && Own(SampleLog(), r) == upper && After(SampleLog(), r, 1) == left;
    hide Own, After, SampleLog;
    assert Covers(left[0], 2) && Covered(left, 2) && !Covered(own, 2);
    assert FirstLogged(left, 2, 0) == 8 && FirstLogged(upper, 2, 0) == 7;
  }

  // ---------------------------------------------------------------- the generation comes round

  /** An entry of generation 1 that nothing overwrote.  Recovery in generation 65534
      leaves it alone, a first reservation is made in generation 65535, and the next
      one wraps to slot 0 and generation 1: recovery now takes the old entry for one of
      the new transaction. */
  method OldEntryRevives(j: Log, mem: Memory, relic: LogEntry)
    requires Idle(j, |mem.bytes|, [], [Tr(3, 0, 1, false)], 0) && j.gen == 65534 && |j.slots| == 8 && j.head == 3
    requires j.tail == 4
    requires j.slots[0] == relic && relic.gen == 1 && relic.start && !Ends(relic)
    requires forall p :: 1 <= p < 8 ==> j.slots[p].gen == 0
    modifies j, mem
    ensures mem.bytes == old(mem.bytes) && HeaderOf(j) == Header(4, 3, 1) && j.slots == old(j.slots)
    ensures PlanAll(j.slots, j.gen, j.head, j.tail) == [relic]
  {
    hide PlanAll, Undo, Idle, Crashed, InUseSlot;
    IdleCrashes(j, mem, [], [Tr(3, 0, 1, false)], 0);
    var done;
    ghost var s;
    var mains := new Supply(Endless);
    done, s := Recover(j, mem, mains, mem.bytes, j.tail);
    mains := new Supply(Endless);
    var base, wrapped, cut := Reserve(j, 2, mains);
    base, wrapped, cut := Reserve(j, 2, mains);
    Revived(j.slots, relic);
  }

  lemma Revived(slots: seq<LogEntry>, relic: LogEntry)
    requires |slots| == 8 && slots[0] == relic && relic.gen == 1 && relic.start && !Ends(relic)
    requires forall p :: 1 <= p < 8 ==> slots[p].gen == 0
    ensures PlanAll(slots, 1, 4, 3) == [relic]
  {
    SkipUnused(slots, 1, 0, 1, 3);
    SkipUnused(slots, PrevGen(1), 4, 4, 8);
    AllValid(slots, 1, 0, 1);
    assert Plan(slots, 1, 0, 0) == [] && Plan(slots, PrevGen(1), 4, 4) == [];
  }
}
