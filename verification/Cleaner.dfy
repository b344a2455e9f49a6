/** The log cleaner (pmfs_clean_journal): it moves head past finished transactions, and
    past slots that hold nothing. */
module Cleaner {
  import opened Codec
  import opened Power
  import opened Journal
  import opened LogShape
  import opened Transaction
  import opened Crash

  // ---------------------------------------------------------------- rows from the front

  /** A row from its first reservation. */
  lemma {:induction false} SegmentFront(slots: seq<LogEntry>, g: nat, lo: nat, hi: nat, f: Tr, ts: seq<Tr>)
    ensures Segment(slots, g, lo, hi, [f] + ts) <==>
            f.base == lo && Region(slots, g, f) && lo + f.size <= hi && Segment(slots, g, lo + f.size, hi, ts)
    decreases |ts|
  {
    hide Region;
    if ts == [] {
      assert ([f] + ts)[..0] == [];
    } else {
      var t, rest := ts[|ts| - 1], ts[..|ts| - 1];
      assert ([f] + ts)[..|ts|] == [f] + rest;
      SegmentFront(slots, g, lo, t.base, f, rest);
      if Segment(slots, g, lo + f.size, hi, ts) { SegmentOrder(slots, g, lo + f.size, t.base, rest); }
    }
  }

  /** The row after its first n slots, which hold nothing unfinished, are given up. */
  function Trim(f: Tr, ts: seq<Tr>, n: nat): seq<Tr>
    requires n <= f.size
  {
    if n == f.size then ts else [Tr(f.base + n, 0, f.size - n, false)] + ts
  }

  lemma Trimmed(slots: seq<LogEntry>, g: nat, lo: nat, hi: nat, f: Tr, ts: seq<Tr>, n: nat)
    requires Segment(slots, g, lo, hi, [f] + ts) && f.used <= n <= f.size
    ensures Segment(slots, g, lo + n, hi, Trim(f, ts, n)) && lo + n <= hi && f.base == lo
    ensures Quiet(ts) ==> Quiet(Trim(f, ts, n))
  {
    hide Segment;
    SegmentFront(slots, g, lo, hi, f, ts);
    if n < f.size {
      SegmentFront(slots, g, lo + n, hi, Tr(f.base + n, 0, f.size - n, false), ts);
    }
  }

  // ---------------------------------------------------------------- one transaction

  /** The walk up from the START at head ends at q: there the transaction ends, or
      the journal, or the next one starts. */
  predicate Halts(slots: seq<LogEntry>, g: nat, tail: nat, q: nat)
    requires q < |slots|
  {
    || (slots[q].gen == g && Ends(slots[q]))
    || NextEntry(|slots|, q) == tail
    || (q + 1 < |slots| && StartsAt(slots, g, q + 1))
  }

  /** pmfs_process_transaction, as the cleaner calls it for the valid entry at head:
      past the commit or abort, or no further when there is none.  Its pointer must
      meet a reason to stop, q or an earlier one, before the end of the log. */
  method ProcessTransaction(slots: seq<LogEntry>, head: nat, tail: nat, ghost q: nat)
    returns (newHead: nat, handled: nat)
    requires head <= q < |slots| && slots[head].start ==> Halts(slots, slots[head].gen, tail, q)
    requires head < |slots| && (slots[head].start ==> head <= q < |slots|)
    ensures !slots[head].start ==> newHead == NextEntry(|slots|, head) && handled == 0
    ensures slots[head].start ==>
              && 0 < handled <= q + 1 - head
              && var e := head + handled - 1;
                 && Halts(slots, slots[head].gen, tail, e)
                 && (forall x :: head <= x < e ==> !Halts(slots, slots[head].gen, tail, x))
                 && newHead == if slots[e].gen == slots[head].gen && Ends(slots[e]) then NextEntry(|slots|, e) else head
  {
    var gen := slots[head].gen;
    if !slots[head].start { return NextEntry(|slots|, head), 0; }
    newHead, handled := head, 0;
    var at, le: nat := head, head;
    while true
      invariant head <= le <= q && at == le && newHead == head && handled == le - head
      invariant forall x :: head <= x < le ==> !Halts(slots, gen, tail, x)
      decreases |slots| - le
    {
      at := NextEntry(|slots|, at);
      handled := handled + 1;
      if gen == slots[le].gen && Ends(slots[le]) {
        newHead := at;
        break;
      }
      if at == tail { break; }
      le := le + 1;
      if slots[le].gen == gen && slots[le].start { break; }
    }
  }

  /** On a reservation as the writer leaves it, the walk ends at its commit or abort,
      or at the end of the journal. */
  lemma RegionHalts(slots: seq<LogEntry>, g: nat, head: nat, tail: nat, f: Tr)
    requires head < |slots| && tail < |slots| && head != tail && Region(slots, g, f) && f.base == head && 0 < f.used
    requires (f.ended && (tail < head || head + f.size <= tail)) || f.base + f.size == tail
    ensures slots[head].start && slots[head].gen == g && f.used <= f.size && head + f.size <= |slots|
    ensures var q := if f.ended then head + f.used - 1 else tail - 1;
            && head <= q < |slots| && Halts(slots, g, tail, q) && (forall x :: head <= x < q ==> !Halts(slots, g, tail, x))
            && (slots[q].gen == g && Ends(slots[q]) <==> f.ended)
  {
  }

  // ---------------------------------------------------------------- the cleaner

  /** The generation the cleaner expects at head. */
  function HeadGen(gen: nat, head: nat, tail: nat): nat {
    if tail < head then PrevGen(gen) else gen
  }

  /** The first reservation of a non-empty journal. */
  lemma FrontOf(slots: seq<LogEntry>, gen: nat, head: nat, tail: nat, upper: seq<Tr>, lower: seq<Tr>) 
    returns (f: Tr, ts: seq<Tr>)
    requires head < |slots| && tail < |slots| && head != tail && Image(slots, gen, head, tail, upper, lower)
    ensures (if head < tail then lower else upper) == [f] + ts && f.base == head && Region(slots, HeadGen(gen, head, tail), f)
    ensures if head < tail then head + f.size <= tail else head + f.size <= |slots|
    ensures ts == [] ==> head + f.size == if head < tail then tail else |slots|
  {
    hide Region;
    var row := if head < tail then lower else upper;
    assert row != [];
    f, ts := row[0], row[1..];
    assert row == [f] + ts;
    SegmentFront(slots, HeadGen(gen, head, tail), head, if head < tail then tail else |slots|, f, ts);
  }

  /** Giving up the first n slots of the journal. */
  lemma ImageTrim(slots: seq<LogEntry>, gen: nat, head: nat, tail: nat, upper: seq<Tr>, lower: seq<Tr>, f: Tr, ts: seq<Tr>,
                  n: nat, head': nat)
    requires head < |slots| && tail < |slots| && head != tail && Image(slots, gen, head, tail, upper, lower)
    requires (if head < tail then lower else upper) == [f] + ts && 0 < f.used + n && f.used <= n <= f.size
    requires head' == if head + n == |slots| then 0 else head + n
    ensures head' <= |slots| && if head < tail then Image(slots, gen, head', tail, upper, Trim(f, ts, n))
            else if head' == 0 then ts == [] && n == f.size && Image(slots, gen, head', tail, [], lower)
            else Image(slots, gen, head', tail, Trim(f, ts, n), lower)
  {
    hide Segment, PrevGen;
    Trimmed(slots, HeadGen(gen, head, tail), head, if head < tail then tail else |slots|, f, ts, n);
    if tail < head && head' == 0 {
      RowEnds(slots, PrevGen(gen), |slots|, Trim(f, ts, n));
    }
  }

  lemma RowEnds(slots: seq<LogEntry>, g: nat, hi: nat, ts: seq<Tr>)
    requires Segment(slots, g, hi, hi, ts)
    ensures ts == []
  {
  }

  lemma ImageFrame(a: seq<LogEntry>, b: seq<LogEntry>, gen: nat, head: nat, tail: nat, upper: seq<Tr>, lower: seq<Tr>)
    requires head < |a| && tail < |a| && Image(a, gen, head, tail, upper, lower) && SameLive(a, b, head, tail)
    ensures Image(b, gen, head, tail, upper, lower)
  {
    hide Segment, PrevGen;
    if head <= tail {
      SegmentFrame(a, b, gen, head, tail, lower);
    } else {
      SegmentFrame(a, b, PrevGen(gen), head, |a|, upper);
      SegmentFrame(a, b, gen, 0, tail, lower);
    }
  }

  /** Invalidating what has just been passed. */
  lemma Passed(slots0: seq<LogEntry>, a: seq<LogEntry>, b: seq<LogEntry>, gen: nat, head: nat, tail: nat, n: nat, head': nat,
               upper: seq<Tr>, lower: seq<Tr>)
    requires head < |a| && tail < |a| && head != tail && 0 < n && (if head < tail then head + n <= tail else head + n <= |a|)
    requires head' == if head + n == |a| then 0 else head + n
    requires b == a || b == Zeroed(a, head, head + n)
    requires Image(a, gen, head', tail, upper, lower) && Erased(slots0, a) && SameLive(slots0, a, head, tail)
    ensures head' < |a| && Image(b, gen, head', tail, upper, lower) && Erased(slots0, b) && SameLive(slots0, b, head', tail)
  {
    hide Image;
    ImageFrame(a, b, gen, head', tail, upper, lower);
  }

  /** Where something between head and tail was invalidated, so was all below it. */
  ghost predicate FromBelow(a: seq<LogEntry>, b: seq<LogEntry>, head: nat, tail: nat) {
    && |a| == |b|
    && forall p: nat :: p < |a| && InUseSlot(|a|, head, tail, p) && b[p] != a[p] ==> ZeroIn(b, ScanLo(head, p), p + 1)
  }

  /** The cleaner, started at h, has come to head. */
  predicate Between(h: nat, tail: nat, head: nat) {
    if h <= tail then h <= head <= tail else h <= head || head <= tail
  }

  lemma FromBelowOn(a: seq<LogEntry>, was: seq<LogEntry>, now: seq<LogEntry>, h: nat, tail: nat, head: nat, k: nat)
    requires FromBelow(a, was, h, tail) && Between(h, tail, head) && head != tail && now == Zeroed(was, head, head + k)
    requires ZeroIn(was, ScanLo(h, head), head) && (if head < tail then head + k <= tail else head + k <= |was|)
    ensures FromBelow(a, now, h, tail) && ZeroIn(now, ScanLo(h, head), head + k)
  {
    forall p: nat | p < |a| && InUseSlot(|a|, h, tail, p) && now[p] != a[p] ensures ZeroIn(now, ScanLo(h, p), p + 1) {
      if head <= p < head + k {
        assert ScanLo(h, p) == ScanLo(h, head);
      } else {
        assert ZeroIn(was, ScanLo(h, p), p + 1);
      }
    }
  }

  /** Which takes START entries first. */
  lemma FromBelowHeads(a: seq<LogEntry>, b: seq<LogEntry>, gen: nat, head: nat, tail: nat)
    requires FromBelow(a, b, head, tail) && head < |a| && tail < |a|
    ensures HeadFirst(a, b, gen, head, tail)
  {
    hide Bottom, PrevGen;
    forall p: nat | p < |a| && InUseSlot(|a|, head, tail, p) && a[p].gen == GenAt(gen, head, tail, p) != b[p].gen
      ensures b[Bottom(a, GenAt(gen, head, tail, p), ScanLo(head, p), p)].gen == 0
    {
      assert ZeroIn(b, ScanLo(head, p), p + 1);
    }
  }

  /** Where the cleaner stops: at the open transaction, or at the tail. */
  function StopAt(tail: nat, open: seq<Tr>): nat {
    if open == [] then tail else open[0].base
  }

  /** The slots passed so far, in the last generation, are the ones paid for. */
  ghost predicate Passing(a: seq<LogEntry>, b: seq<LogEntry>, h: nat, head: nat, tail: nat, gen: nat, stop: nat,
                          charge0: Charge,
                          charge: Charge)
    requires h < |a| && head < |a|
  {
    && Between(h, tail, head) && FromBelow(a, b, h, tail)
    && (HeadGen(gen, head, tail) == MAX_GEN ==> ZeroIn(b, ScanLo(h, head), head))
    && ToSweep(|a|, gen, head, stop) <= ToSweep(|a|, gen, h, stop)
    && var paid := ToSweep(|a|, gen, h, stop) - ToSweep(|a|, gen, head, stop);
       !Short(charge0, paid) && charge == Minus(charge0, paid)
  }

  lemma PassingStarts(a: seq<LogEntry>, head: nat, tail: nat, gen: nat, stop: nat, charge: Charge)
    requires head < |a|
    ensures Passing(a, a, head, head, tail, gen, stop, charge, charge)
  {
  }

  /** n more slots passed: invalidated, in the last generation, up to the k-th. */
  lemma PassingOn(a: seq<LogEntry>, was: seq<LogEntry>, now: seq<LogEntry>, h: nat, head: nat, head': nat, tail: nat,
                  gen: nat,
                  stop: nat, charge0: Charge, charge: Charge, n: nat, k: nat)
    requires h < |a| == |was| && head < |a| && tail < |a| && head != tail && 0 < gen <= MAX_GEN && 0 < n
    requires Passing(a, was, h, head, tail, gen, stop, charge0, charge)
    requires if head < tail then head + n <= stop <= tail else head + n <= |a| && stop <= tail
    requires head' == if head + n == |a| then 0 else head + n
    requires k <= n && (0 < k ==> HeadGen(gen, head, tail) == MAX_GEN) && now == Zeroed(was, head, head + k)
    ensures head' < |a| && FromBelow(a, now, h, tail)
    ensures Short(charge, Sweep(HeadGen(gen, head, tail), n)) ==> Short(charge0, ToSweep(|a|, gen, h, stop) + 1)
    ensures k == Sweep(HeadGen(gen, head, tail), n) && !Short(charge, k) ==>
              Passing(a, now, h, head', tail, gen, stop, charge0, Minus(charge, k))
  {
    hide PrevGen, NextGen, FromBelow, ZeroIn;
    if k == 0 {
      assert now == was;
    } else {
      FromBelowOn(a, was, now, h, tail, head, k);
    }
    ZeroNone(now);
    SweptOn(|a|, gen, head, head', tail, stop, n);
  }

  /** The slots still to be swept are fewer by those passed. */
  lemma SweptOn(size: nat, gen: nat, head: nat, head': nat, tail: nat, stop: nat, n: nat)
    requires head < size && tail < size && head != tail && 0 < gen <= MAX_GEN && 0 < n
    requires if head < tail then head + n <= stop <= tail else head + n <= size && stop <= tail
    requires head' == if head + n == size then 0 else head + n
    ensures ToSweep(size, gen, head, stop) == ToSweep(size, gen, head', stop) + Sweep(HeadGen(gen, head, tail), n)
    ensures head' != 0 ==> HeadGen(gen, head', tail) == HeadGen(gen, head, tail)
  {
    hide PrevGen;
  }

  lemma ZeroNone(slots: seq<LogEntry>)
    ensures forall x: nat :: ZeroIn(slots, x, x)
  {
  }

  /** pmfs_clean_journal: move head past finished transactions and past slots
      that hold nothing, invalidating them in the last generation.  `open` is the
      reservation of the open transaction, if it has logged an entry: the cleaner
      stops there.  Power may fail at any write. */
  method CleanJournal(j: Log, supply: Supply, ghost upper: seq<Tr>, ghost done: seq<Tr>, ghost open: seq<Tr>)
    returns (cut: bool, ghost upper': seq<Tr>, ghost done': seq<Tr>)
    requires j.Valid()
    requires Image(j.slots, j.gen, j.head, j.tail, upper, done + open) && Quiet(upper) && Quiet(done)
    requires open == [] || (|open| == 1 && !open[0].ended && 0 < open[0].used)
    modifies j`head, j`slots, supply
    ensures j.Valid() && Erased(old(j.slots), j.slots)
    ensures cut <==> Short(old(supply.charge), ToSweep(|old(j.slots)|, j.gen, old(j.head), StopAt(j.tail, open)) + 1)
    ensures cut ==> j.head == old(j.head) && FromBelow(old(j.slots), j.slots, j.head, j.tail)
    ensures SameSlots(old(j.slots), j.slots, StopAt(j.tail, open), j.tail)
    ensures !cut ==> Image(j.slots, j.gen, j.head, j.tail, upper', done' + open) && Quiet(upper') && Quiet(done')
    ensures !cut ==> SameLive(old(j.slots), j.slots, j.head, j.tail)
    ensures !cut && open == [] ==> j.head == j.tail
    ensures !cut && open != [] ==> j.head == open[0].base && upper' == done' == []
  {
    hide Image, Quiet, PrevGen, NextGen, Erased, SameLive, SameSlots, Passing, FromBelow;
    upper', done' := upper, done;
    GensInverse(j.gen);
    AllLive(j.slots, j.head, j.tail);
    ghost var h, stop, charge0 := j.head, StopAt(j.tail, open), supply.charge;
    PassingStarts(j.slots, h, j.tail, j.gen, stop, charge0);
    var head: nat, tail, going := j.head, j.tail, true;
    var g := if tail < head then PrevGen(j.gen) else j.gen;
    while head != tail && going
      invariant j.head == h && h < |old(j.slots)|
      invariant Cleaning(old(j.slots), j.slots, j.gen, h, head, tail, upper', done', open, stop, charge0, supply.charge)
      invariant g == HeadGen(j.gen, head, tail) && (!going ==> open != [] && head == stop && upper' == done' == [])
      decreases going, if head <= tail then tail - head else tail + |j.slots| - head
    {
      head, g, cut, going, upper', done' := CleanStep(j, supply, head, g, old(j.slots), h, charge0, upper', done', open);
      if cut { return; }
    }
    if head == tail { AtTail(j.slots, j.gen, head, upper', done', open); }
    PassingEnds(old(j.slots), j.slots, h, head, tail, j.gen, stop, charge0, supply.charge);
    AtStop(old(j.slots), j.slots, head, tail, stop);
    var m := supply.Draw(1);
    cut := m < 1;
    if cut { return; }
    j.head := head;
  }

  /** The state of a cleaning that started at h and has come to head. */
  ghost predicate Cleaning(slots0: seq<LogEntry>, slots: seq<LogEntry>, gen: nat, h: nat, head: nat, tail: nat,
                           upper: seq<Tr>,
                           done: seq<Tr>, open: seq<Tr>, stop: nat, charge0: Charge, charge: Charge)
    requires h < |slots0|
  {
    && head < |slots| == |slots0| && Image(slots, gen, head, tail, upper, done + open) && Quiet(upper) && Quiet(done)
    && Erased(slots0, slots) && SameLive(slots0, slots, head, tail)
    && Passing(slots0, slots, h, head, tail, gen, stop, charge0, charge)
  }

  /** The body of its loop. */
  method CleanStep(j: Log, supply: Supply, head: nat, g: nat, ghost slots0: seq<LogEntry>, ghost h: nat,
                   ghost charge0: Charge,
                   ghost upper: seq<Tr>, ghost done: seq<Tr>, ghost open: seq<Tr>)
    returns (head': nat, g': nat, cut: bool, going: bool, ghost upper': seq<Tr>, ghost done': seq<Tr>)
    requires j.Valid() && h < |slots0| && head != j.tail && g == HeadGen(j.gen, head, j.tail)
    requires open == [] || (|open| == 1 && !open[0].ended && 0 < open[0].used)
    requires Cleaning(slots0, j.slots, j.gen, h, head, j.tail, upper, done, open, StopAt(j.tail, open), charge0, supply.charge)
    modifies j`slots, supply
    ensures |j.slots| == |old(j.slots)|
    ensures cut ==> Erased(slots0, j.slots) && FromBelow(slots0, j.slots, h, j.tail)
    ensures cut ==> SameSlots(slots0, j.slots, StopAt(j.tail, open), j.tail)
    ensures cut ==> Short(charge0, ToSweep(|slots0|, j.gen, h, StopAt(j.tail, open)) + 1)
    ensures !cut ==> g' == HeadGen(j.gen, head', j.tail) &&
                     Cleaning(slots0, j.slots, j.gen, h, head', j.tail, upper', done', open, StopAt(j.tail, open), charge0,
                              supply.charge)
    ensures !cut && !going ==> head' == head && open != [] && head == StopAt(j.tail, open) && upper' == done' == []
    ensures !cut && going ==> if head < j.tail then head < head' <= j.tail else head < head' || head' == 0
  {
    hide Image, Quiet, Region, PrevGen, NextGen, Erased, SameLive, SameSlots, Passing, FromBelow, Zeroed, ToSweep, Halts;
    GensInverse(j.gen);
    var tail := j.tail;
    ghost var slots, charge, stop := j.slots, supply.charge, StopAt(j.tail, open);
    ghost var f, ts := FrontOf(slots, j.gen, head, tail, upper, done + open);
    ZeroedNone(slots, head);
    ghost var k := 0;
    g', cut, going, upper', done' := g, false, true, upper, done;
    var handled;
    head', handled := LookFront(j.slots, j.gen, head, tail, g, upper, done, open, f, ts);
    if head' == head {
      Stopped(slots, j.gen, head, tail, upper, done, open);
      going := false;
      return;
    }
    if g == MAX_GEN { cut, k := j.Invalidate(head, head + handled, supply); }
    PassingOn(slots0, slots, j.slots, h, head, head', tail, j.gen, stop, charge0, charge, handled, k);
    ErasedOn(slots0, slots, j.slots, head, head + k, tail, stop);
    if cut { return; }
    upper', done' := Moved(slots, j.gen, head, tail, upper, done, open, f, ts, handled, head');
    Passed(slots0, slots, j.slots, j.gen, head, tail, handled, head', upper', done' + open);
    if head' == 0 { g' := NextGen(g); }
  }

  /** How far the cleaner may move from the valid or empty slot at head: past the
      transaction there, by one slot, or, in front of the open transaction, not at all. */
  method LookFront(slots: seq<LogEntry>, ghost gen: nat, head: nat, tail: nat, g: nat, ghost upper: seq<Tr>,
                   ghost done: seq<Tr>,
                   ghost open: seq<Tr>, ghost f: Tr, ghost ts: seq<Tr>)
    returns (head': nat, handled: nat)
    requires head < |slots| && tail < |slots| && head != tail && g == HeadGen(gen, head, tail)
    requires Image(slots, gen, head, tail, upper, done + open) && Quiet(upper) && Quiet(done)
    requires open == [] || (|open| == 1 && !open[0].ended && 0 < open[0].used)
    requires (if head < tail then done + open else upper) == [f] + ts && f.base == head && Region(slots, g, f)
    requires if head < tail then head + f.size <= tail else head + f.size <= |slots|
    requires ts == [] ==> head + f.size == if head < tail then tail else |slots|
    ensures StopAt(tail, open) <= tail && 0 < handled
    ensures head' == head ==> head < tail && done == [] && |open| == 1
    ensures head' != head ==>
              && (f.ended || f.used == 0) && f.used <= handled <= f.size
              && head' == (if head + handled == |slots| then 0 else head + handled)
              && if head < tail then head + handled <= StopAt(tail, open) else head + handled <= |slots|
  {
    hide Image, Quiet, Region, PrevGen, Halts;
    FrontKind(slots, g, head, tail, upper, done, open, f, ts);
    StopAhead(slots, gen, head, tail, upper, done, open, f, ts);
    if g != slots[head].gen { return NextEntry(|slots|, head), 1; }
    RegionHalts(slots, g, head, tail, f);
    head', handled := ProcessTransaction(slots, head, tail, if f.ended then head + f.used - 1 else tail - 1);
    HandledIs(slots, g, head, tail, f, head', handled);
  }

  lemma AtTail(slots: seq<LogEntry>, gen: nat, tail: nat, upper: seq<Tr>, done: seq<Tr>, open: seq<Tr>)
    requires tail < |slots| && Image(slots, gen, tail, tail, upper, done + open)
    ensures open == []
  {
    Through(slots, gen, tail, upper, done + open);
  }

  lemma ZeroedNone(slots: seq<LogEntry>, a: nat)
    ensures Zeroed(slots, a, a) == slots
  {
  }

  lemma ErasedOn(slots0: seq<LogEntry>, was: seq<LogEntry>, now: seq<LogEntry>, head: nat, b: nat, tail: nat, stop: nat)
    requires Erased(slots0, was) && SameLive(slots0, was, head, tail) && head != tail && now == Zeroed(was, head, b)
    requires head < tail ==> head <= b <= stop
    ensures Erased(slots0, now) && SameSlots(slots0, now, stop, tail)
  {
  }

  lemma PassingEnds(a: seq<LogEntry>, b: seq<LogEntry>, h: nat, head: nat, tail: nat, gen: nat, stop: nat, charge0: Charge,
                    charge: Charge)
    requires h < |a| && head < |a| && Passing(a, b, h, head, tail, gen, stop, charge0, charge)
    ensures FromBelow(a, b, h, tail)
    ensures head == stop ==> (Short(charge, 1) <==> Short(charge0, ToSweep(|a|, gen, h, stop) + 1))
  {
    hide FromBelow, PrevGen;
  }

  lemma AtStop(a: seq<LogEntry>, b: seq<LogEntry>, head: nat, tail: nat, stop: nat)
    requires SameLive(a, b, head, tail) && head <= stop
    ensures SameSlots(a, b, stop, tail)
  {
  }

  /** The reservation at the front ends at or before the stop. */
  lemma StopAhead(slots: seq<LogEntry>, gen: nat, head: nat, tail: nat, upper: seq<Tr>, done: seq<Tr>, open: seq<Tr>, f: Tr,
                  ts: seq<Tr>)
    requires head < |slots| && tail < |slots| && head != tail && Image(slots, gen, head, tail, upper, done + open)
    requires (if head < tail then done + open else upper) == [f] + ts && Quiet(upper) && Quiet(done)
    requires open == [] || (|open| == 1 && !open[0].ended && 0 < open[0].used)
    ensures StopAt(tail, open) <= tail && (head < tail ==> head <= StopAt(tail, open))
    ensures head < tail && (f.ended || f.used == 0) ==> head + f.size <= StopAt(tail, open)
    ensures tail < head ==> head + f.size <= |slots|
  {
    hide Region, PrevGen, Quiet;
    var lo := if head <= tail then head else 0;
    if open != [] {
      assert open == [open[0]];
      SegmentLast(slots, gen, lo, tail, done, open[0]);
      if head < tail && (f.ended || f.used == 0) {
        assert done != [] by { assert (done + open)[0] == f; }
        assert done == [f] + done[1..] by { assert (done + open)[0] == done[0]; }
        SegmentFront(slots, gen, head, open[0].base, f, done[1..]);
      }
    } else if head < tail {
      assert done + open == done;
      SegmentFront(slots, gen, head, tail, f, ts);
    }
    if tail < head { SegmentFront(slots, PrevGen(gen), head, |slots|, f, ts); }
  }

  lemma HandledIs(slots: seq<LogEntry>, g: nat, head: nat, tail: nat, f: Tr, newHead: nat, handled: nat)
    requires head < |slots| && tail < |slots| && head != tail && Region(slots, g, f) && f.base == head && 0 < f.used
    requires (f.ended && (tail < head || head + f.size <= tail)) || f.base + f.size == tail
    requires 0 < handled <= |slots| - head && Halts(slots, g, tail, head + handled - 1)
    requires forall x :: head <= x < head + handled - 1 ==> !Halts(slots, g, tail, x)
    requires var e := head + handled - 1; newHead == if slots[e].gen == g && Ends(slots[e]) then NextEntry(|slots|, e) else head
    ensures f.ended ==> handled == f.used && newHead == (if head + f.used == |slots| then 0 else head + f.used) && newHead != head
    ensures !f.ended ==> newHead == head
  {
    hide Halts, Region;
    RegionHalts(slots, g, head, tail, f);
    var q, e := if f.ended then head + f.used - 1 else tail - 1, head + handled - 1;
    assert e == q;
  }

  lemma AllLive(slots: seq<LogEntry>, head: nat, tail: nat)
    ensures Erased(slots, slots) && SameLive(slots, slots, head, tail)
  {
  }

  /** What stands at head: the open transaction, or something the cleaner may pass. */
  lemma FrontKind(slots: seq<LogEntry>, g: nat, head: nat, tail: nat, upper: seq<Tr>, done: seq<Tr>, open: seq<Tr>, f: Tr,
                  ts: seq<Tr>)
    requires head < |slots| && head != tail && Region(slots, g, f) && f.base == head && Quiet(upper) && Quiet(done)
    requires (if head < tail then done + open else upper) == [f] + ts
    requires open == [] || (|open| == 1 && !open[0].ended && 0 < open[0].used)
    ensures f.used <= f.size && 0 < f.size && (slots[head].gen == g <==> 0 < f.used) && (0 < f.used ==> slots[head].start)
    ensures 0 < f.used && !f.ended ==> head < tail && done == [] && open == [f] && ts == []
  {
    if head < tail && done != [] {
      assert f == (done + open)[0] == done[0] && f in done;
    } else if head < tail {
      assert f == (done + open)[0] == open[0];
      assert |[f] + ts| == 1;
    } else {
      assert f == upper[0] && f in upper;
    }
  }

  lemma Moved(slots: seq<LogEntry>, gen: nat, head: nat, tail: nat, upper: seq<Tr>, done: seq<Tr>, open: seq<Tr>, f: Tr,
              ts: seq<Tr>, n: nat, head': nat)
    returns (upper': seq<Tr>, done': seq<Tr>)
    requires head < |slots| && tail < |slots| && head != tail && Image(slots, gen, head, tail, upper, done + open)
    requires Quiet(upper) && Quiet(done)
    requires (if head < tail then done + open else upper) == [f] + ts && (f.ended || f.used == 0) && 0 < n
    requires f.used <= n <= f.size
    requires open == [] || (|open| == 1 && !open[0].ended && 0 < open[0].used)
    requires head' == if head + n == |slots| then 0 else head + n
    ensures Image(slots, gen, head', tail, upper', done' + open) && Quiet(upper') && Quiet(done')
  {
    hide Image, PrevGen;
    ImageTrim(slots, gen, head, tail, upper, done + open, f, ts, n, head');
    if head < tail {
      assert done != [] by { assert (done + open)[0] == f; }
      assert done[0] == (done + open)[0] == f && ts == ([f] + ts)[1..] == (done + open)[1..] == done[1..] + open;
      upper', done' := upper, Trim(f, done[1..], n);
      assert done' + open == Trim(f, ts, n);
    } else {
      assert upper[1..] == ([f] + ts)[1..] == ts;
      upper', done' := if head' == 0 then [] else Trim(f, ts, n), done;
    }
  }

  lemma Stopped(slots: seq<LogEntry>, gen: nat, head: nat, tail: nat, upper: seq<Tr>, done: seq<Tr>, open: seq<Tr>)
    requires head < tail && Image(slots, gen, head, tail, upper, done + open) && done == [] && |open| == 1
    ensures upper == [] && open[0].base == head
  {
    assert done + open == open == [open[0]] + [];
    SegmentFront(slots, gen, head, tail, open[0], []);
  }

  lemma Through(slots: seq<LogEntry>, gen: nat, head: nat, upper: seq<Tr>, lower: seq<Tr>)
    requires head < |slots| && Image(slots, gen, head, head, upper, lower)
    ensures upper == lower == []
  {
    RowEnds(slots, gen, head, lower);
  }

  /** Cleaning between transactions empties the journal; a power failure in the middle
      costs nothing. */
  method CleanIdle(j: Log, mem: Memory, supply: Supply, ghost upper: seq<Tr>, ghost lower: seq<Tr>, ghost next: nat)
    returns (cut: bool)
    requires Idle(j, |mem.bytes|, upper, lower, next)
    modifies j`head, j`slots, supply
    ensures cut <==> Short(old(supply.charge), ToSweep(|old(j.slots)|, j.gen, old(j.head), j.tail) + 1)
    ensures if cut then j.head == old(j.head) && Crashed(j, mem, mem.bytes, j.tail)
            else j.head == j.tail && Idle(j, |mem.bytes|, [], [], 0)
    ensures Erased(old(j.slots), j.slots)
  {
    hide Image, Stale, Quiet, Inside, Erased, SameLive, Ids, FromBelow, Torn, Entries, Undo;
    QuietNone();
    assert lower + [] == lower;
    IdleCrashes(j, mem, upper, lower, next);
    ghost var upper', done';
    ghost var head0, slots0 := j.head, j.slots;
    cut, upper', done' := CleanJournal(j, supply, upper, lower, []);
    StaleErased(slots0, j.slots, j.gen, j.tail, |mem.bytes|);
    if cut {
      FromBelowHeads(slots0, j.slots, j.gen, head0, j.tail);
      TornErased(slots0, j.slots, j.gen, head0, j.tail, j.tail);
      NoEntries(mem.bytes, j.slots, j.gen, j.tail);
    } else {
      assert done' + [] == done';
      Through(j.slots, j.gen, j.head, upper', done');
      NoIds(j.slots, j.gen, j.head);
    }
  }

  lemma NoIds(slots: seq<LogEntry>, gen: nat, head: nat)
    requires head <= |slots|
    ensures Ids(slots, gen, head, head, 0, 0)
  {
  }

  /** Cleaning while a transaction is open keeps it recoverable if it has logged
      an entry: the cleaner stops in front of it, and if the power fails in the middle
      recovery still gives the image it started from. */
  method CleanOpen(j: Log, mem: Memory, t: Txn, supply: Supply, ghost upper: seq<Tr>, ghost done: seq<Tr>,
                   ghost stable: seq<byte>)
    returns (cut: bool, ghost s: nat)
    requires Open(j, mem, t, upper, done, stable) && 0 < t.used
    modifies j`head, j`slots, supply
    ensures cut <==> Short(old(supply.charge), ToSweep(|old(j.slots)|, j.gen, old(j.head), t.base) + 1)
    ensures if cut then Crashed(j, mem, stable, s) else Open(j, mem, t, [], [], stable) && j.head == t.base
  {
    hide Image, Stale, Quiet, Inside, Undo, Erased, SameLive, Ids, FromBelow, Torn, Entries;
    QuietNone();
    OpenBase(j, mem, t, upper, done, stable);
    s := OpenCrashes(j, mem, t, upper, done, stable);
    ghost var upper', done';
    ghost var head0, slots0 := j.head, j.slots;
    cut, upper', done' := CleanJournal(j, supply, upper, done, [Mine(t, false)]);
    StaleErased(slots0, j.slots, j.gen, j.tail, |mem.bytes|);
    if cut {
      FromBelowHeads(slots0, j.slots, j.gen, head0, j.tail);
      TornBounds(slots0, j.gen, head0, j.tail, s);
      TornErased(slots0, j.slots, j.gen, head0, j.tail, s);
    } else {
      SameLogged(slots0, j.slots, j.head, j.tail, t);
      IdsErased(slots0, j.slots, j.gen, head0, j.head, j.tail, t.tid);
    }
  }

  lemma OpenBase(j: Log, mem: Memory, t: Txn, upper: seq<Tr>, done: seq<Tr>, stable: seq<byte>)
    requires Open(j, mem, t, upper, done, stable)
    ensures (if j.head <= j.tail then j.head else 0) <= t.base <= j.tail
  {
    InLower(j.slots, j.gen, j.head, j.tail, upper, done, Mine(t, false));
  }

  lemma IdsErased(a: seq<LogEntry>, z: seq<LogEntry>, gen: nat, head: nat, head': nat, tail: nat, tid: nat)
    requires head < |a| && tail < |a| && 0 < gen && Erased(a, z) && Ids(a, gen, head, tail, tid, tid + 1)
    requires (if head <= tail then head else 0) <= head' <= tail
    ensures Ids(z, gen, head', tail, tid, tid + 1)
  {
  }

  lemma SameLogged(a: seq<LogEntry>, b: seq<LogEntry>, head: nat, tail: nat, t: Txn)
    requires SameLive(a, b, head, tail) && head == t.base && t.used <= t.size && t.base + t.size == tail < |a|
    ensures Logged(b, t) == Logged(a, t)
  {
  }

  /** If it has not logged an entry yet, the cleaner passes its reservation, and
      whatever the transaction logs there later is not part of the journal: no
      recovery will undo it. */
  method CleanTooEarly(j: Log, mem: Memory, t: Txn, ghost upper: seq<Tr>, ghost done: seq<Tr>, ghost stable: seq<byte>)
    requires Open(j, mem, t, upper, done, stable) && t.used == 0
    modifies j`head, j`slots
    ensures j.Valid() && j.head == j.tail
    ensures forall p :: t.base <= p < t.base + t.size ==> !InUseSlot(|j.slots|, j.head, j.tail, p)
    ensures forall later: seq<LogEntry> :: |later| == |j.slots| ==> PlanAll(later, j.gen, j.head, j.tail) == []
  {
    hide Image, Stale, Quiet, Inside, Undo, Erased, SameLive, Ids, FromBelow;
    QuietAdd(done, Mine(t, false));
    ghost var all := done + [Mine(t, false)];
    assert all + [] == all;
    var mains := new Supply(Endless);
    var cut;
    ghost var upper', done';
    cut, upper', done' := CleanJournal(j, mains, upper, all, []);
  }
}
