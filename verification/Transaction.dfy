/** Transactions on the undo journal (journal.c): reservation of log entries,
    the writer of log entries as its unreachable body intends it, commit, abort.
    Every operation may be cut short by a power failure at any of its writes. */
module Transaction {
  import opened Codec
  import opened Allocator
  import opened Power
  import opened Journal
  import opened LogShape

  // ---------------------------------------------------------------- reservation

  /** pmfs_transaction_t. */
  class Txn {
    const tid: nat
    const base: nat
    const size: nat
    const gen: nat
    var used: nat

    constructor (tid: nat, base: nat, size: nat, gen: nat)
      ensures this.tid == tid && this.base == base && this.size == size && this.gen == gen && used == 0
    {
      this.tid, this.base, this.size, this.gen, this.used := tid, base, size, gen, 0;
    }
  }

  /** avail_size, in entries. */
  function Avail(n: nat, head: nat, tail: nat): int {
    (if tail >= head then n - (tail - head) else head - tail) - 1
  }

  /** The tail would reach the end of the log. */
  predicate Wraps(n: nat, head: nat, tail: nat, req: nat) {
    req <= Avail(n, head, tail) && n <= tail + req
  }

  /** A request of req entries fits, at the tail or, if that wraps, at the front. */
  predicate HasRoom(n: nat, head: nat, tail: nat, req: nat) {
    req <= Avail(n, head, tail) && (Wraps(n, head, tail, req) ==> req <= Avail(n, head, 0))
  }

  /** Slots that hold no entry of a pending transaction. */
  function FreeSlots(n: nat, head: nat, tail: nat): set<nat> {
    set p: nat | p < n && !InUseSlot(n, head, tail, p)
  }

  /** req entries written from slot `at` on overwrite no slot in use, stay short of
      the end of the log and do not bring the tail onto the head. */
  predicate FreeRun(n: nat, head: nat, tail: nat, at: nat, req: nat) {
    at + req < n && forall p: nat :: at <= p < at + req ==> !InUseSlot(n, head, tail, p) && p + 1 != head
  }

  function Range(lo: nat, hi: nat): (r: set<nat>)
    ensures |r| == if lo < hi then hi - lo else 0
    ensures forall p: nat :: p in r <==> lo <= p < hi
    decreases hi
  {
    if hi <= lo then {} else Range(lo, hi - 1) + {hi - 1}
  }

  /** All free slots but one can be had. */
  lemma AvailIs(n: nat, head: nat, tail: nat)
    requires head < n && tail < n
    ensures Avail(n, head, tail) == |FreeSlots(n, head, tail)| - 1
  {
    if head <= tail {
      assert FreeSlots(n, head, tail) == Range(0, head) + Range(tail, n);
    } else {
      assert FreeSlots(n, head, tail) == Range(tail, head);
    }
  }

  /** A request is granted exactly if there is a free run for it at the tail or at
      the front, and the tail wraps exactly if it would pass the end of the log
      while free slots are left over. */
  lemma RoomIff(n: nat, head: nat, tail: nat, req: nat)
    requires head < n && tail < n && 0 < req
    ensures HasRoom(n, head, tail, req) <==> FreeRun(n, head, tail, tail, req) || FreeRun(n, head, tail, 0, req)
    ensures Wraps(n, head, tail, req) <==> n <= tail + req && req < |FreeSlots(n, head, tail)|
    ensures HasRoom(n, head, tail, req) ==> (Wraps(n, head, tail, req) <==> !FreeRun(n, head, tail, tail, req))
  {
    AvailIs(n, head, tail);
    var last := if head > 0 then head - 1 else 0;
    InRun(n, head, tail, 0, req, 0);
    InRun(n, head, tail, 0, req, last);
    InRun(n, head, tail, tail, req, last);
  }

  lemma InRun(n: nat, head: nat, tail: nat, at: nat, req: nat, p: nat)
    ensures FreeRun(n, head, tail, at, req) && at <= p < at + req ==> !InUseSlot(n, head, tail, p) && p + 1 != head
  {
  }

  /** Header writes of a reservation: tail and generation when it wraps, then the tail. */
  function ReserveWrites(n: nat, head: nat, tail: nat, req: nat): nat {
    (if Wraps(n, head, tail, req) then 1 else 0) + (if HasRoom(n, head, tail, req) then 1 else 0)
  }

  /** pmfs_new_transaction while the request fits without the log cleaner; base is
      None when the cleaner would have to run.  One entry is added for the commit. */
  method Reserve(j: Log, maxEntries: nat, supply: Supply) returns (base: Option<nat>, wrapped: bool, cut: bool)
    requires j.Valid()
    modifies j`tail, j`gen, supply
    ensures j.Valid()
    ensures base.Some? ==>
              && base.value + maxEntries + 1 == j.tail && j.tail != j.head
              && (forall p :: base.value <= p < base.value + maxEntries + 1 ==> !InUseSlot(|j.slots|, j.head, old(j.tail), p))
              && (forall p :: 0 <= p < |j.slots| ==> (InUseSlot(|j.slots|, j.head, j.tail, p) <==>
                    || InUseSlot(|j.slots|, j.head, old(j.tail), p)
                    || base.value <= p < base.value + maxEntries + 1
                    || (wrapped && old(j.tail) <= p)))
    ensures wrapped ==> j.head != 0 && j.head <= old(j.tail) && j.gen == NextGen(old(j.gen))
    ensures wrapped ==> j.tail == if base.Some? then maxEntries + 1 else 0
    ensures !wrapped ==> j.gen == old(j.gen) && j.tail == old(j.tail) + if base.Some? then maxEntries + 1 else 0
    ensures var n := |j.slots|; var req := maxEntries + 1;
            && (cut <==> Short(old(supply.charge), ReserveWrites(n, j.head, old(j.tail), req)))
            && (if cut then base.None? && (wrapped ==> Wraps(n, j.head, old(j.tail), req))
                else && (base.Some? <==> HasRoom(n, j.head, old(j.tail), req)) && (wrapped <==> Wraps(n, j.head, old(j.tail), req))
                     && supply.charge == Minus(old(supply.charge), ReserveWrites(n, j.head, old(j.tail), req)))
    ensures Short(old(supply.charge), 1) ==> j.tail == old(j.tail) && j.gen == old(j.gen)
    ensures var n := |j.slots|; var req := maxEntries + 1;
            && (!cut ==> (base.Some? <==> FreeRun(n, j.head, old(j.tail), old(j.tail), req) || FreeRun(n, j.head, old(j.tail), 0, req)))
            && (!cut ==> (wrapped <==> n <= old(j.tail) + req && req < |FreeSlots(n, j.head, old(j.tail))|))
  {
    hide FreeRun, FreeSlots;
    var req := maxEntries + 1;
    var tail := j.tail;
    RoomIff(|j.slots|, j.head, tail, req);
    wrapped := false;
    while true
      invariant j.Valid() && tail == j.tail && (wrapped ==> tail == 0)
      invariant !wrapped ==> tail == old(j.tail) && j.gen == old(j.gen) && supply.charge == old(supply.charge)
      invariant wrapped ==> 0 != j.head <= old(j.tail) && j.gen == NextGen(old(j.gen)) && Wraps(|j.slots|, j.head, old(j.tail), req)
      invariant wrapped ==> !Short(old(supply.charge), 1) && supply.charge == Minus(old(supply.charge), 1)
      decreases !wrapped
    {
      var avail := (if tail >= j.head then |j.slots| - (tail - j.head) else j.head - tail) - 1;
      if avail < req { return None, wrapped, false; }
      var at := tail;
      tail := tail + req;
      var m := supply.Draw(1);
      if m < 1 { return None, wrapped, true; }
      if tail >= |j.slots| {
        tail := 0;
        GensInverse(j.gen);
        j.tail, j.gen := 0, NextGen(j.gen);
        wrapped := true;
      } else {
        j.tail := tail;
        return Some(at), wrapped, false;
      }
    }
  }

  // ---------------------------------------------------------------- the journal between and inside transactions

  /** Nothing is open: the log holds finished transactions only, with ids below `next`. */
  ghost predicate Idle(j: Log, size: nat, upper: seq<Tr>, lower: seq<Tr>, next: nat)
    reads j
  {
    && j.Valid() && Inside(j.slots, size) && Stale(j.slots, j.gen, j.tail)
    && Image(j.slots, j.gen, j.head, j.tail, upper, lower) && Quiet(upper) && Quiet(lower)
    && Ids(j.slots, j.gen, j.head, j.tail, next, next)
  }

  /** The log as t sees it: its reservation is the last one, and undoing its
      entries gives back the image it started from. */
  ghost predicate Open(j: Log, mem: Memory, t: Txn, upper: seq<Tr>, done: seq<Tr>, stable: seq<byte>)
    reads j, mem, t
  {
    && j.Valid() && Inside(j.slots, |mem.bytes|) && Stale(j.slots, j.gen, j.tail)
    && t.gen == j.gen && t.used <= t.size && t.base + t.size == j.tail
    && Image(j.slots, j.gen, j.head, j.tail, upper, done + [Tr(t.base, t.used, t.size, false)]) && Quiet(upper) && Quiet(done)
    && Ids(j.slots, j.gen, j.head, j.tail, t.tid, t.tid + 1)
    && Inside(Logged(j.slots, t), |mem.bytes|) && Undo(mem.bytes, Logged(j.slots, t)) == stable
  }

  /** The entries t has written. */
  function Logged(slots: seq<LogEntry>, t: Txn): seq<LogEntry>
    requires t.base + t.used <= |slots|
    reads t
  {
    slots[t.base..t.base + t.used]
  }

  /** Changing the last reservation only. */
  lemma ImageLast(a: seq<LogEntry>, b: seq<LogEntry>, gen: nat, head: nat, tail: nat, upper: seq<Tr>, done: seq<Tr>, r: Tr,
                  r': Tr)
    requires head < |a| == |b| && tail < |a| && Image(a, gen, head, tail, upper, done + [r])
    requires r'.base == r.base && r'.size == r.size && Region(b, gen, r') && r.base + r.size == tail
    requires forall p :: 0 <= p < |a| && !(r.base <= p < tail) ==> a[p] == b[p]
    ensures Image(b, gen, head, tail, upper, done + [r'])
  {
    hide Segment, Region, PrevGen;
    var lo := if head <= tail then head else 0;
    SegmentLast(a, gen, lo, tail, done, r);
    SegmentFrame(a, b, gen, lo, r.base, done);
    SegmentSnoc(b, gen, lo, r.base, done, r');
    if tail < head { SegmentFrame(a, b, PrevGen(gen), head, |a|, upper); }
  }

  lemma UnusedRegion(slots: seq<LogEntry>, gen: nat, tail: nat, size: nat)
    requires 0 < size && tail + size <= |slots| && Stale(slots, gen, tail)
    ensures Region(slots, gen, Tr(tail, 0, size, false))
  {
  }

  lemma EmptyRow(slots: seq<LogEntry>, g: nat)
    ensures Segment(slots, g, 0, 0, [])
  {
  }

  /** One more reservation at the tail. */
  lemma ImageGrows(slots: seq<LogEntry>, gen: nat, head: nat, tail: nat, upper: seq<Tr>, lower: seq<Tr>, size: nat)
    requires head < |slots| && tail + size < |slots| && Image(slots, gen, head, tail, upper, lower) && Stale(slots, gen, tail)
    requires 0 < size && (tail < head ==> tail + size < head)
    ensures Image(slots, gen, head, tail + size, upper, lower + [Tr(tail, 0, size, false)])
  {
    hide Segment, PrevGen, Region, Stale;
    var lo := if head <= tail then head else 0;
    SegmentOrder(slots, gen, lo, tail, lower);
    UnusedRegion(slots, gen, tail, size);
    SegmentSnoc(slots, gen, lo, tail, lower, Tr(tail, 0, size, false));
  }

  /** The tail wraps to 0: what it skips counts as a reservation nobody uses. */
  lemma ImageWraps(slots: seq<LogEntry>, gen: nat, head: nat, tail: nat, upper: seq<Tr>, lower: seq<Tr>)
    requires 0 < head <= tail < |slots| && 0 < gen <= MAX_GEN && Image(slots, gen, head, tail, upper, lower)
    requires Stale(slots, gen, tail)
    ensures Image(slots, NextGen(gen), head, 0, lower + [Tr(tail, 0, |slots| - tail, false)], [])
    ensures NoneOf(slots, NextGen(gen)) ==> Stale(slots, NextGen(gen), 0)
  {
    hide NextGen, PrevGen, Region, Segment;
    GensInverse(gen);
    UnusedRegion(slots, gen, tail, |slots| - tail);
    SegmentSnoc(slots, gen, head, tail, lower, Tr(tail, 0, |slots| - tail, false));
    EmptyRow(slots, NextGen(gen));
  }

  /** Only slots below tail matter, so a larger tail changes nothing. */
  lemma IdsGrow(slots: seq<LogEntry>, gen: nat, head: nat, tail: nat, tail': nat, next: nat, own': nat, next': nat)
    requires head <= |slots| && tail <= tail' <= |slots| && (tail < head ==> tail' < head) && next <= own' <= next'
    requires Ids(slots, gen, head, tail, next, next) && Stale(slots, gen, tail)
    ensures Ids(slots, gen, head, tail', own', next')
  {
  }

  lemma IdsWrap(slots: seq<LogEntry>, gen: nat, head: nat, tail: nat, next: nat)
    requires 0 < gen <= MAX_GEN && 0 < head <= tail <= |slots| && Ids(slots, gen, head, tail, next, next)
    requires Stale(slots, gen, tail)
    ensures Ids(slots, NextGen(gen), head, 0, next, next)
  {
    hide NextGen, PrevGen;
    GensInverse(gen);
  }

  /** The header of the journal. */
  datatype Header = Header(head: nat, tail: nat, gen: nat)

  function HeaderOf(j: Log): Header
    reads j
  {
    Header(j.head, j.tail, j.gen)
  }

  /** The header after a request for req entries, granted or not. */
  function Reserved(n: nat, h: Header, req: nat): Header {
    var granted := if HasRoom(n, h.head, h.tail, req) then req else 0;
    if Wraps(n, h.head, h.tail, req) then Header(h.head, granted, NextGen(h.gen)) else Header(h.head, h.tail + granted, h.gen)
  }

  /** pmfs_new_transaction between transactions: None exactly if the request does
      not fit.  If it wraps, the generation it moves on to should not occur in the
      log; otherwise old entries count again, and something is left to undo
      exactly if one of them is a START that is not closed. */
  method Begin(j: Log, mem: Memory, maxEntries: nat, tid: nat, supply: Supply, ghost upper: seq<Tr>, ghost lower: seq<Tr>)
    returns (t: Option<Txn>, cut: bool, ghost upper': seq<Tr>, ghost lower': seq<Tr>)
    requires Idle(j, |mem.bytes|, upper, lower, tid)
    modifies j`tail, j`gen, supply
    ensures var n := ReserveWrites(|j.slots|, j.head, old(j.tail), maxEntries + 1);
            (cut <==> Short(old(supply.charge), n)) && (!cut ==> supply.charge == Minus(old(supply.charge), n))
    ensures !cut ==> (t.Some? <==> HasRoom(|j.slots|, j.head, old(j.tail), maxEntries + 1))
    ensures !cut ==> (t.Some? <==> || FreeRun(|j.slots|, j.head, old(j.tail), old(j.tail), maxEntries + 1)
                                   || FreeRun(|j.slots|, j.head, old(j.tail), 0, maxEntries + 1))
    ensures !cut ==> HeaderOf(j) == Reserved(|j.slots|, old(HeaderOf(j)), maxEntries + 1)
    ensures cut ==> t.None? && (|| HeaderOf(j) == old(HeaderOf(j))
                                || (Wraps(|j.slots|, j.head, old(j.tail), maxEntries + 1) &&
                                    HeaderOf(j) == Header(j.head, 0, NextGen(old(j.gen)))))
    ensures j.gen == old(j.gen) || NoneOf(j.slots, j.gen) ==>
              if t.None? then Idle(j, |mem.bytes|, upper', lower', tid)
              else fresh(t.value) && Open(j, mem, t.value, upper', lower', mem.bytes) &&
                   t.value.used == 0 && t.value.size == maxEntries + 1 && t.value.tid == tid
    ensures t.Some? ==> (PlanAll(j.slots, j.gen, j.head, j.tail) == [] <==>
                           j.gen == old(j.gen) || Closed(j.slots, j.gen, 0, j.tail))
  {
    hide Image, Stale, Quiet, NextGen, Inside, InUseSlot, NoneOf, Ids, PlanAll, Closed, Wraps, HasRoom, Avail, FreeRun,
         FreeSlots;
    GensInverse(j.gen);
    ghost var tail0, gen0 := j.tail, j.gen;
    var base, wrapped;
    base, wrapped, cut := Reserve(j, maxEntries, supply);
    upper', lower' := upper, lower;
    if wrapped {
      NoUpper(j.slots, gen0, j.head, tail0, upper, lower);
      ImageWraps(j.slots, gen0, j.head, tail0, upper, lower);
      QuietAdd(lower, Tr(tail0, 0, |j.slots| - tail0, false));
      IdsWrap(j.slots, gen0, j.head, tail0, tid);
      upper', lower' := lower + [Tr(tail0, 0, |j.slots| - tail0, false)], [];
      QuietNone();
    }
    match base {
      case None => t := None;
      case Some(b) =>
        var txn := new Txn(tid, b, maxEntries + 1, j.gen);
        t := Some(txn);
        RoomBelowHead(j.slots, j.head, tail0, j.tail, wrapped, maxEntries + 1);
        if wrapped { WrappedPlan(j.slots, j.gen, j.head, j.tail, upper'); }
        if !wrapped || NoneOf(j.slots, j.gen) {
          Granted(j, mem, txn, b, upper', lower');
          FreshPlan(j, mem, txn, upper', lower');
        }
    }
  }

  lemma RoomBelowHead(slots: seq<LogEntry>, head: nat, tail0: nat, tail: nat, wrapped: bool, req: nat)
    requires head < |slots| && tail0 < |slots| && HasRoom(|slots|, head, tail0, req) && 0 < req
    requires (wrapped <==> Wraps(|slots|, head, tail0, req))
    requires tail == if wrapped then req else tail0 + req
    ensures var b := if wrapped then 0 else tail0; b < head ==> tail < head
  {
  }

  /** The new reservation is the last one, and empty. */
  lemma Granted(j: Log, mem: Memory, t: Txn, b: nat, upper: seq<Tr>, lower: seq<Tr>)
    requires j.Valid() && b + t.size == j.tail && 0 < t.size && (b < j.head ==> j.tail < j.head)
    requires t.base == b && t.used == 0 && t.gen == j.gen
    requires Inside(j.slots, |mem.bytes|) && Stale(j.slots, j.gen, b) && Image(j.slots, j.gen, j.head, b, upper, lower)
    requires Quiet(upper) && Quiet(lower) && Ids(j.slots, j.gen, j.head, b, t.tid, t.tid)
    ensures Open(j, mem, t, upper, lower, mem.bytes)
  {
    hide Image, Stale, Quiet, Inside, Ids;
    ImageGrows(j.slots, j.gen, j.head, b, upper, lower, t.size);
    StaleGrows(j.slots, j.gen, b, j.tail);
    IdsGrow(j.slots, j.gen, j.head, b, j.tail, t.tid, t.tid, t.tid + 1);
    NothingLogged(j.slots, t, mem.bytes);
  }

  lemma FreshPlan(j: Log, mem: Memory, t: Txn, upper: seq<Tr>, done: seq<Tr>)
    requires Open(j, mem, t, upper, done, mem.bytes) && t.used == 0
    ensures PlanAll(j.slots, j.gen, j.head, j.tail) == []
    ensures j.tail < j.head ==> Closed(j.slots, j.gen, 0, j.tail)
  {
    hide PlanAll, Plan, Segment, Pending, Quiet, PrevGen, Inside, Ids, Closed, CalmAll, Stale;
    var r := Tr(t.base, t.used, t.size, false);
    QuietAdd(done, r);
    PlanOfImage(j.slots, j.gen, j.head, j.tail, upper, done + [r]);
    if j.head <= j.tail {
      QuietPending(j.slots, j.gen, j.head, j.tail, done + [r]);
    } else {
      QuietPending(j.slots, PrevGen(j.gen), j.head, |j.slots|, upper);
      QuietPending(j.slots, j.gen, 0, j.tail, done + [r]);
      QuietClosed(j.slots, j.gen, 0, j.tail, done + [r]);
    }
  }

  /** What a wrap to a generation that may occur in the log leaves to undo. */
  lemma WrappedPlan(slots: seq<LogEntry>, gen: nat, head: nat, tail: nat, upper: seq<Tr>)
    requires tail < head < |slots| && Image(slots, gen, head, 0, upper, []) && Quiet(upper)
    ensures PlanAll(slots, gen, head, tail) == [] <==> Closed(slots, gen, 0, tail)
  {
    hide Segment, Plan, Quiet, Closed, PrevGen;
    QuietClosed(slots, PrevGen(gen), head, |slots|, upper);
    ClosedPlan(slots, PrevGen(gen), head, |slots|);
    NothingToUndoIff(slots, gen, 0, tail);
  }

  lemma NoUpper(slots: seq<LogEntry>, gen: nat, head: nat, tail: nat, upper: seq<Tr>, lower: seq<Tr>)
    requires head <= tail && Image(slots, gen, head, tail, upper, lower)
    ensures upper == []
  {
  }

  lemma StaleGrows(slots: seq<LogEntry>, gen: nat, tail: nat, tail': nat)
    requires Stale(slots, gen, tail) && tail <= tail'
    ensures Stale(slots, gen, tail')
  {
  }

  lemma NothingLogged(slots: seq<LogEntry>, t: Txn, bytes: seq<byte>)
    requires t.used == 0 && t.base <= |slots|
    ensures Inside(Logged(slots, t), |bytes|) && Undo(bytes, Logged(slots, t)) == bytes
  {
  }

  // ---------------------------------------------------------------- writing log entries

  /** The reservation of t, ended or not. */
  ghost function Mine(t: Txn, ended: bool): Tr
    reads t
  {
    Tr(t.base, t.used, t.size, ended)
  }

  lemma OpenRegion(j: Log, mem: Memory, t: Txn, upper: seq<Tr>, done: seq<Tr>, stable: seq<byte>)
    requires Open(j, mem, t, upper, done, stable)
    ensures t.base + t.size == j.tail < |j.slots| && Region(j.slots, j.gen, Mine(t, false))
  {
    SegmentLast(j.slots, j.gen, if j.head <= j.tail then j.head else 0, j.tail, done, Mine(t, false));
  }

  /** A slot not yet valid may hold anything: a crash there is as if nothing had been written. */
  lemma Unfinished(a: seq<LogEntry>, b: seq<LogEntry>, gen: nat, r: Tr, e: LogEntry)
    requires Region(a, gen, r) && !r.ended && r.used < r.size && b == a[r.base + r.used := e] && e.gen != gen
    ensures Region(b, gen, r)
  {
  }

  /** Setting the generation makes the entry count. */
  lemma Validated(a: seq<LogEntry>, b: seq<LogEntry>, gen: nat, r: Tr, e: LogEntry)
    requires Region(a, gen, r) && !r.ended && r.used < r.size && b == a[r.base + r.used := e] && e.gen == gen
    requires (e.start <==> r.used == 0)
    ensures Region(b, gen, Tr(r.base, r.used + 1, r.size, Ends(e)))
  {
  }

  lemma StaleWrite(a: seq<LogEntry>, gen: nat, tail: nat, p: nat, e: LogEntry, size: nat)
    requires Stale(a, gen, tail) && p < tail <= |a| && Inside(a, size) && e.addr + |e.data| <= size
    ensures Stale(a[p := e], gen, tail) && Inside(a[p := e], size)
  {
  }

  /** Writing into the first free slot of the last reservation. */
  lemma IdsWrite(a: seq<LogEntry>, gen: nat, head: nat, tail: nat, p: nat, e: LogEntry, tid: nat)
    requires head <= |a| && tail <= |a| && (if head <= tail then head else 0) <= p < tail
    requires Ids(a, gen, head, tail, tid, tid + 1)
    requires forall x :: p <= x < tail ==> a[x].gen != gen
    requires e.gen == gen ==> e.tid == tid
    ensures Ids(a[p := e], gen, head, tail, if e.gen == gen && Ends(e) then tid + 1 else tid, tid + 1)
  {
    hide PrevGen;
  }

  /** The first of the two writes of an entry: all fields but the generation.  The
      slot may hold anything, also half an entry, and the journal is the same. */
  method WriteFields(j: Log, mem: Memory, t: Txn, e: LogEntry, ghost upper: seq<Tr>, ghost done: seq<Tr>,
                     ghost stable: seq<byte>)
    requires Open(j, mem, t, upper, done, stable) && t.used < t.size && e.addr + |e.data| <= |mem.bytes|
    modifies j`slots
    ensures Open(j, mem, t, upper, done, stable) && t.base + t.used < |j.slots| == |old(j.slots)|
    ensures var p := t.base + t.used; j.slots == old(j.slots)[p := e.(gen := old(j.slots)[p].gen)]
    ensures Logged(j.slots, t) == old(Logged(j.slots, t)) && NoNewGen(old(j.slots), j.slots, j.gen)
  {
    hide Image, Stale, Quiet, Inside, Undo, Region, Ids;
    OpenRegion(j, mem, t, upper, done, stable);
    ghost var a, r := j.slots, Mine(t, false);
    var p := t.base + t.used;
    var stub := e.(gen := j.slots[p].gen);
    StubStale(a, j.gen, r);
    InLower(j.slots, j.gen, j.head, j.tail, upper, done, r);
    j.slots := j.slots[p := stub];
    Unfinished(a, j.slots, j.gen, r, stub);
    ImageLast(a, j.slots, j.gen, j.head, j.tail, upper, done, r, r);
    StaleWrite(a, j.gen, j.tail, p, stub, |mem.bytes|);
    IdsWrite(a, j.gen, j.head, j.tail, p, stub, t.tid);
    assert Logged(j.slots, t) == a[t.base..p];
  }

  lemma InLower(slots: seq<LogEntry>, gen: nat, head: nat, tail: nat, upper: seq<Tr>, done: seq<Tr>, r: Tr)
    requires head < |slots| && tail < |slots| && Image(slots, gen, head, tail, upper, done + [r])
    ensures (if head <= tail then head else 0) <= r.base && r.base + r.size == tail && Region(slots, gen, r)
  {
    SegmentLast(slots, gen, if head <= tail then head else 0, tail, done, r);
  }

  /** Slot p after the two writes of entry e, as far as the charge reached. */
  ghost predicate Written(a: seq<LogEntry>, b: seq<LogEntry>, p: nat, e: LogEntry, charge: Charge) {
    p < |a| && b == if Short(charge, 1) then a else a[p := if Short(charge, 2) then e.(gen := a[p].gen) else e]
  }

  /** Write one entry: first the fields, then the generation that validates it. */
  method PutEntry(j: Log, mem: Memory, t: Txn, e: LogEntry, supply: Supply, ghost upper: seq<Tr>, ghost done: seq<Tr>,
                  ghost stable: seq<byte>)
    returns (cut: bool)
    requires Open(j, mem, t, upper, done, stable) && t.used < t.size
    requires e.gen == t.gen && e.tid == t.tid && (e.start <==> t.used == 0) && !Ends(e)
    requires e.addr + |e.data| <= |mem.bytes| && mem.bytes[e.addr..e.addr + |e.data|] == e.data
    modifies j`slots, t`used, supply
    ensures Open(j, mem, t, upper, done, stable) && NoNewGen(old(j.slots), j.slots, j.gen)
    ensures cut <==> Short(old(supply.charge), 2)
    ensures Written(old(j.slots), j.slots, t.base + old(t.used), e, old(supply.charge))
    ensures if cut then t.used == old(t.used) && Logged(j.slots, t) == old(Logged(j.slots, t))
            else && t.used == old(t.used) + 1 && Logged(j.slots, t) == old(Logged(j.slots, t)) + [e]
                 && supply.charge == Minus(old(supply.charge), 2)
  {
    hide Image, Stale, Quiet, Inside, Undo, Region, Ids;
    var m := supply.Draw(1);
    if m < 1 { return true; }
    WriteFields(j, mem, t, e, upper, done, stable);
    m := supply.Draw(1);
    if m < 1 { return true; }
    OpenGen(j, mem, t, upper, done, stable);
    ghost var es := Logged(j.slots, t);
    SetGeneration(j, mem, t, e, upper, done, stable);
    SameUndo(mem.bytes, es, e);
    cut := false;
  }

  /** The second write, which makes the entry count. */
  method SetGeneration(j: Log, mem: Memory, t: Txn, ghost e: LogEntry, ghost upper: seq<Tr>, ghost done: seq<Tr>,
                       ghost stable: seq<byte>)
    requires Open(j, mem, t, upper, done, stable) && t.used < t.size && t.base + t.used < |j.slots|
    requires e == j.slots[t.base + t.used].(gen := t.gen) && e.tid == t.tid && (e.start <==> t.used == 0)
    modifies j`slots, t`used
    ensures j.Valid() && t.used == old(t.used) + 1 && t.base + t.used <= |j.slots| && t.base + t.size == j.tail
    ensures j.slots == old(j.slots)[t.base + old(t.used) := e] && NoNewGen(old(j.slots), j.slots, j.gen)
    ensures Logged(j.slots, t) == old(Logged(j.slots, t)) + [e]
    ensures Inside(j.slots, |mem.bytes|) && Stale(j.slots, j.gen, j.tail)
    ensures Image(j.slots, j.gen, j.head, j.tail, upper, done + [Mine(t, Ends(e))])
    ensures Ids(j.slots, j.gen, j.head, j.tail, if Ends(e) then t.tid + 1 else t.tid, t.tid + 1)
  {
    hide Image, Stale, Quiet, Inside, Undo, Region, Ids;
    OpenRegion(j, mem, t, upper, done, stable);
    ghost var b, r := j.slots, Mine(t, false);
    var p := t.base + t.used;
    StubStale(b, j.gen, r);
    InLower(b, j.gen, j.head, j.tail, upper, done, r);
    FitsThere(b, p, |mem.bytes|);
    j.slots := j.slots[p := j.slots[p].(gen := t.gen)];
    Validated(b, j.slots, j.gen, r, e);
    t.used := t.used + 1;
    ImageLast(b, j.slots, j.gen, j.head, j.tail, upper, done, r, Mine(t, Ends(e)));
    StaleWrite(b, j.gen, j.tail, p, e, |mem.bytes|);
    IdsWrite(b, j.gen, j.head, j.tail, p, e, t.tid);
    assert Logged(j.slots, t) == b[t.base..p] + [e];
  }

  lemma FitsThere(slots: seq<LogEntry>, p: nat, size: nat)
    requires p < |slots| && Inside(slots, size)
    ensures slots[p].addr + |slots[p].data| <= size
  {
    assert slots[p] in slots;
  }

  lemma StubStale(slots: seq<LogEntry>, gen: nat, r: Tr)
    requires Region(slots, gen, r) && r.used < r.size
    ensures r.base + r.used < |slots| && forall x :: r.base + r.used <= x < r.base + r.size ==> slots[x].gen != gen
  {
  }

  /** Logging the bytes as they are adds nothing to undo. */
  lemma SameUndo(bytes: seq<byte>, es: seq<LogEntry>, e: LogEntry)
    requires Inside(es, |bytes|) && e.addr + |e.data| <= |bytes| && bytes[e.addr..e.addr + |e.data|] == e.data
    ensures Inside(es + [e], |bytes|) && Undo(bytes, es + [e]) == Undo(bytes, es)
  {
    hide Undo, Put, Inside;
    InsideSnoc(es, e, |bytes|);
    PutSame(bytes, e);
    UndoAppend(bytes, es, [e]);
    UndoOne(bytes, e);
  }

  lemma InsideSnoc(es: seq<LogEntry>, e: LogEntry, size: nat)
    requires Inside(es, size) && e.addr + |e.data| <= size
    ensures Inside(es + [e], size) && Inside([e], size)
  {
  }

  lemma PutSame(bytes: seq<byte>, e: LogEntry)
    requires e.addr + |e.data| <= |bytes| && bytes[e.addr..e.addr + |e.data|] == e.data
    ensures Put(bytes, e) == bytes
  {
    assert forall i :: e.addr <= i < e.addr + |e.data| ==> bytes[i] == bytes[e.addr..e.addr + |e.data|][i - e.addr];
  }

  /** The commit or abort record, which finishes t. */
  method PutRecord(j: Log, mem: Memory, t: Txn, e: LogEntry, supply: Supply, ghost upper: seq<Tr>, ghost done: seq<Tr>,
                   ghost stable: seq<byte>)
    returns (cut: bool)
    requires Open(j, mem, t, upper, done, stable) && t.used < t.size
    requires e.gen == t.gen && e.tid == t.tid && (e.start <==> t.used == 0) && Ends(e) && e.addr + |e.data| <= |mem.bytes|
    modifies j`slots, t`used, supply
    ensures NoNewGen(old(j.slots), j.slots, j.gen) && (cut <==> Short(old(supply.charge), 2))
    ensures Written(old(j.slots), j.slots, t.base + old(t.used), e, old(supply.charge))
    ensures if cut then Open(j, mem, t, upper, done, stable) else Idle(j, |mem.bytes|, upper, done + [Mine(t, true)], t.tid + 1)
  {
    hide Image, Stale, Quiet, Inside, Undo, Region, Ids;
    var m := supply.Draw(1);
    if m < 1 { return true; }
    WriteFields(j, mem, t, e, upper, done, stable);
    m := supply.Draw(1);
    if m < 1 { return true; }
    OpenGen(j, mem, t, upper, done, stable);
    SetGeneration(j, mem, t, e, upper, done, stable);
    QuietAdd(done, Mine(t, true));
    cut := false;
  }

  /** num_les for `size` bytes. */
  function EntriesFor(size: nat): nat { (size + MAX_DATA - 1) / MAX_DATA }

  /** As few as hold the bytes. */
  lemma EntriesLeast(size: nat, k: nat)
    ensures size <= EntriesFor(size) * MAX_DATA
    ensures size <= k * MAX_DATA ==> EntriesFor(size) <= k
  {
  }

  /** Every byte of [a, b) is logged. */
  ghost predicate LoggedRange(es: seq<LogEntry>, a: nat, b: nat) {
    forall x :: a <= x < b ==> Covered(es, x)
  }

  /** pmfs_add_logentry for data, as its body intends: the bytes at addr go into
      entries of at most 48, two writes each.  -ENOMEM when the reservation is too
      small.  Wherever it is cut, undoing the entries gives the same image. */
  method AddLogentry(j: Log, mem: Memory, t: Txn, addr: nat, size: nat, supply: Supply, ghost upper: seq<Tr>,
                     ghost done: seq<Tr>, ghost stable: seq<byte>)
    returns (ok: bool, cut: bool)
    requires Open(j, mem, t, upper, done, stable) && addr + size <= |mem.bytes|
    modifies j`slots, t`used, supply
    ensures Open(j, mem, t, upper, done, stable) && NoNewGen(old(j.slots), j.slots, j.gen)
    ensures ok <==> old(t.used) + EntriesFor(size) <= t.size
    ensures !ok ==> !cut && j.slots == old(j.slots) && t.used == old(t.used) && supply.charge == old(supply.charge)
    ensures ok ==> (cut <==> Short(old(supply.charge), 2 * EntriesFor(size)))
    ensures old(Logged(j.slots, t)) <= Logged(j.slots, t)
    ensures ok && !cut ==>
              && t.used == old(t.used) + EntriesFor(size) && supply.charge == Minus(old(supply.charge), 2 * EntriesFor(size))
              && LoggedRange(Logged(j.slots, t), addr, addr + size)
              && Size(Logged(j.slots, t)) == old(Size(Logged(j.slots, t))) + size
  {
    hide Open, LoggedRange, Size;
    OpenBounds(j, mem, t, upper, done, stable);
    var numLes := EntriesFor(size);
    cut := false;
    if t.used + numLes > t.size { return false, false; }
    ok := true;
    ghost var was, used := Logged(j.slots, t), t.used;
    NoneLogged(was, addr);
    var i, at: nat := 0, addr;
    while i < numLes
      invariant i <= numLes && t.used == used + i && at == (if i < numLes then addr + i * MAX_DATA else addr + size)
      invariant Open(j, mem, t, upper, done, stable) && t.base + t.used <= |j.slots|
      invariant was <= Logged(j.slots, t) && LoggedRange(Logged(j.slots, t), addr, at)
      invariant Size(Logged(j.slots, t)) == Size(was) + (at - addr) && NoNewGen(old(j.slots), j.slots, j.gen)
      invariant !Short(old(supply.charge), 2 * i) && supply.charge == Minus(old(supply.charge), 2 * i)
    {
      OpenBounds(j, mem, t, upper, done, stable);
      ChunkBounds(size, i);
      var len: nat := if i == numLes - 1 then addr + size - at else MAX_DATA;
      var e := LogEntry(at, t.tid, t.gen, t.used == 0, false, false, mem.bytes[at..at + len]);
      ghost var now := Logged(j.slots, t);
      OpenGen(j, mem, t, upper, done, stable);
      cut := PutEntry(j, mem, t, e, supply, upper, done, stable);
      OpenBounds(j, mem, t, upper, done, stable);
      if cut { return; }
      MoreLogged(now, e, addr, at);
      SizeAppend(now, [e]);
      SizeOne(e);
      at := at + len;
      i := i + 1;
    }
  }

  lemma OpenGen(j: Log, mem: Memory, t: Txn, upper: seq<Tr>, done: seq<Tr>, stable: seq<byte>)
    requires Open(j, mem, t, upper, done, stable)
    ensures t.gen == j.gen
  {
  }

  lemma OpenBounds(j: Log, mem: Memory, t: Txn, upper: seq<Tr>, done: seq<Tr>, stable: seq<byte>)
    requires Open(j, mem, t, upper, done, stable)
    ensures t.used <= t.size && t.base + t.size < |j.slots| && t.base + t.used <= |j.slots| && |stable| == |mem.bytes|
  {
  }

  lemma ChunkBounds(size: nat, i: nat)
    requires i < EntriesFor(size)
    ensures i * MAX_DATA < size
    ensures i == EntriesFor(size) - 1 <==> size - i * MAX_DATA <= MAX_DATA
  {
  }

  lemma NoneLogged(es: seq<LogEntry>, a: nat)
    ensures LoggedRange(es, a, a)
  {
  }

  lemma MoreLogged(es: seq<LogEntry>, e: LogEntry, a: nat, b: nat)
    requires LoggedRange(es, a, b) && e.addr == b
    ensures LoggedRange(es + [e], a, b + |e.data|)
  {
    forall x | a <= x < b + |e.data| ensures Covered(es + [e], x) {
      if x < b {
        assert Covered(es, x);
        CoveredPrefix(es, es + [e], x);
      } else {
        assert Covers((es + [e])[|es|], x);
      }
    }
  }

  lemma CoveredPrefix(a: seq<LogEntry>, b: seq<LogEntry>, x: nat)
    requires a <= b && Covered(a, x)
    ensures Covered(b, x)
  {
    var i :| 0 <= i < |a| && Covers(a[i], x);
    assert b[i] == a[i];
  }

  /** A store by the file system into bytes the transaction has logged, cut after
      any byte. */
  method Store(j: Log, mem: Memory, t: Txn, addr: nat, data: seq<byte>, supply: Supply, ghost upper: seq<Tr>,
               ghost done: seq<Tr>, ghost stable: seq<byte>)
    returns (cut: bool)
    requires Open(j, mem, t, upper, done, stable) && addr + |data| <= |mem.bytes| && t.base + t.used <= |j.slots|
    requires LoggedRange(Logged(j.slots, t), addr, addr + |data|)
    modifies mem, supply
    ensures Open(j, mem, t, upper, done, stable) && (cut <==> Short(old(supply.charge), |data|))
    ensures !cut ==> mem.bytes == Patch(old(mem.bytes), addr, data) && supply.charge == Minus(old(supply.charge), |data|)
  {
    hide Undo, Image, Stale, Quiet, Inside, Covered, Ids;
    ghost var es := Logged(j.slots, t);
    var m := supply.Draw(|data|);
    UndoAgrees(mem.bytes, Patch(mem.bytes, addr, data[..m]), es);
    mem.bytes := Patch(mem.bytes, addr, data[..m]);
    assert m == |data| ==> data[..m] == data;
    cut := m < |data|;
  }

  /** pmfs_commit_transaction: not ok when no entry is left for the record. */
  method Commit(j: Log, mem: Memory, t: Txn, supply: Supply, ghost upper: seq<Tr>, ghost done: seq<Tr>,
                ghost stable: seq<byte>) returns (ok: bool, cut: bool)
    requires Open(j, mem, t, upper, done, stable)
    modifies j`slots, t`used, supply
    ensures ok <==> old(t.used) < t.size
    ensures cut <==> ok && Short(old(supply.charge), 2)
    ensures if !ok then j.slots == old(j.slots)
            else var p := t.base + old(t.used); var record := LogEntry(0, t.tid, t.gen, old(t.used) == 0, true, false, []);
                 Written(old(j.slots), j.slots, p, record, old(supply.charge))
    ensures if ok && !cut then Idle(j, |mem.bytes|, upper, done + [Mine(t, true)], t.tid + 1)
            else Open(j, mem, t, upper, done, stable)
    ensures NoNewGen(old(j.slots), j.slots, j.gen)
  {
    hide Open, Idle;
    OpenBounds(j, mem, t, upper, done, stable);
    if t.used + 1 > t.size { return false, false; }
    OpenGen(j, mem, t, upper, done, stable);
    cut := PutRecord(j, mem, t, LogEntry(0, t.tid, t.gen, t.used == 0, true, false, []), supply, upper, done, stable);
    ok := true;
  }

  /** pmfs_abort_transaction: undo, then write the abort record.  Wherever it is
      cut, undoing the entries gives the same image. */
  method Abort(j: Log, mem: Memory, t: Txn, supply: Supply, ghost upper: seq<Tr>, ghost done: seq<Tr>,
               ghost stable: seq<byte>) returns (ok: bool, cut: bool)
    requires Open(j, mem, t, upper, done, stable)
    modifies j`slots, t`used, mem, supply
    ensures ok <==> old(t.used) < t.size
    ensures cut <==> Short(old(supply.charge), old(Size(Logged(j.slots, t))) + if ok then 2 else 0)
    ensures !cut ==> mem.bytes == stable
    ensures ok && !cut ==> var p := t.base + old(t.used);
              p < |old(j.slots)| && j.slots == old(j.slots)[p := LogEntry(0, t.tid, t.gen, old(t.used) == 0, false, true, [])]
    ensures Short(old(supply.charge), old(Size(Logged(j.slots, t)))) ==> j.slots == old(j.slots)
    ensures if ok && !cut then Idle(j, |mem.bytes|, upper, done + [Mine(t, true)], t.tid + 1)
            else Open(j, mem, t, upper, done, stable)
    ensures NoNewGen(old(j.slots), j.slots, j.gen)
  {
    hide Undo, Image, Stale, Quiet, Inside, Region, Idle, Entries, Ids, AgreeOff, Size;
    OpenRegion(j, mem, t, upper, done, stable);
    RegionEntries(j.slots, j.gen, Mine(t, false));
    ghost var es, bytes := Logged(j.slots, t), mem.bytes;
    cut := UndoTransaction(mem, j.slots, t.base, t.used, t.gen, supply);
    UndoAgrees(bytes, mem.bytes, es);
    UndoneIs(bytes, mem.bytes, es);
    ok := t.used < t.size;
    if cut || t.used + 1 > t.size { return; }
    cut := PutRecord(j, mem, t, LogEntry(0, t.tid, t.gen, t.used == 0, false, true, []), supply, upper, done, stable);
  }

  lemma UndoneIs(a: seq<byte>, b: seq<byte>, es: seq<LogEntry>)
    ensures AgreeOff(a, b, es) ==> |a| == |b|
  {
  }

  lemma RegionEntries(slots: seq<LogEntry>, g: nat, r: Tr)
    requires Region(slots, g, r)
    ensures r.base + r.used <= |slots| && Entries(slots, g, r.base, r.base + r.used) == slots[r.base..r.base + r.used]
  {
    AllValid(slots, g, r.base, r.base + r.used);
  }
}
