/** Power failures and recovery (journal.c): whatever state a failure leaves, also one
    during recovery itself, a recovery that completes gives the image before the
    transaction that was open. */
module Crash {
  import opened Codec
  import opened Allocator
  import opened Power
  import opened Journal
  import opened LogShape
  import opened Transaction

  /** The log after a power failure: everything closed but at most the last
      transaction, which starts at s (s == tail if there is none). */
  ghost predicate Torn(slots: seq<LogEntry>, gen: nat, head: nat, tail: nat, s: nat)
    requires head < |slots| && tail < |slots|
  {
    && Sound(slots, gen, if head <= tail then head else 0, tail, s)
    && NoReuse(slots, gen, if head <= tail then head else 0, tail)
    && (tail < head ==> Closed(slots, PrevGen(gen), head, |slots|) && NoReuse(slots, PrevGen(gen), head, |slots|))
  }

  /** Undoing that transaction gives the image `stable`. */
  ghost predicate Crashed(j: Log, mem: Memory, stable: seq<byte>, s: nat)
    reads j, mem
  {
    && j.Valid() && Inside(j.slots, |mem.bytes|) && Stale(j.slots, j.gen, j.tail)
    && Torn(j.slots, j.gen, j.head, j.tail, s)
    && Undo(mem.bytes, Entries(j.slots, j.gen, s, j.tail)) == stable
  }

  lemma TornPlan(slots: seq<LogEntry>, gen: nat, head: nat, tail: nat, s: nat)
    requires head < |slots| && tail < |slots| && Torn(slots, gen, head, tail, s)
    ensures CalmAll(slots, gen, head, tail) && PlanAll(slots, gen, head, tail) == Entries(slots, gen, s, tail)
    ensures s == tail || PlanAll(slots, gen, head, s) == []
  {
    hide Plan, Calm, Entries, Closed, NoReuse, PrevGen, Sound;
    var lo := if head <= tail then head else 0;
    SoundPlan(slots, gen, lo, tail, s);
    CalmWithoutReuse(slots, gen, lo, tail);
    if tail < head {
      ClosedPlan(slots, PrevGen(gen), head, |slots|);
      CalmWithoutReuse(slots, PrevGen(gen), head, |slots|);
    }
    BelowOpen(slots, gen, lo, tail, s);
  }

  lemma BelowOpen(slots: seq<LogEntry>, gen: nat, lo: nat, hi: nat, s: nat)
    requires Sound(slots, gen, lo, hi, s)
    ensures lo <= s <= hi <= |slots| && Plan(slots, gen, lo, s) == []
  {
    ClosedPlan(slots, gen, lo, s);
  }

  // ---------------------------------------------------------------- failures outside recovery

  /** Power fails between transactions. */
  lemma IdleCrashes(j: Log, mem: Memory, upper: seq<Tr>, lower: seq<Tr>, next: nat)
    requires Idle(j, |mem.bytes|, upper, lower, next)
    ensures Crashed(j, mem, mem.bytes, j.tail)
  {
    hide Segment, Entries, Closed, NoReuse, PrevGen, Sound, Quiet, Inside, Stale;
    QuietSound(j.slots, j.gen, if j.head <= j.tail then j.head else 0, j.tail, lower);
    if j.tail < j.head { QuietClosed(j.slots, PrevGen(j.gen), j.head, |j.slots|, upper); }
    NoEntries(mem.bytes, j.slots, j.gen, j.tail);
  }

  /** Power fails inside a transaction, at any of its writes. */
  lemma OpenCrashes(j: Log, mem: Memory, t: Txn, upper: seq<Tr>, done: seq<Tr>, stable: seq<byte>) returns (s: nat)
    requires Open(j, mem, t, upper, done, stable)
    ensures Crashed(j, mem, stable, s) && s == if t.used == 0 then j.tail else t.base
  {
    hide Segment, Entries, Closed, NoReuse, PrevGen, Sound, Quiet, Inside, Stale, Undo;
    s := OpenSound(j.slots, j.gen, if j.head <= j.tail then j.head else 0, j.tail, done, Mine(t, false));
    if j.tail < j.head { QuietClosed(j.slots, PrevGen(j.gen), j.head, |j.slots|, upper); }
  }

  // ---------------------------------------------------------------- failures during recovery

  /** Invalidation that takes START entries first keeps the open transaction whole,
      or leaves a log with nothing to undo. */
  lemma TornErased(a: seq<LogEntry>, z: seq<LogEntry>, gen: nat, head: nat, tail: nat, s: nat)
    requires head < |a| && tail < |a| && 0 < gen <= MAX_GEN && Torn(a, gen, head, tail, s)
    requires Erased(a, z) && HeadFirst(a, z, gen, head, tail)
    ensures s < tail && z[s].gen == gen ==> Torn(z, gen, head, tail, s) && Entries(z, gen, s, tail) == Entries(a, gen, s, tail)
    ensures s == tail || z[s].gen != gen ==> Torn(z, gen, head, tail, tail)
  {
    hide Entries, Closed, PrevGen, Sound, Bottom;
    GensInverse(gen);
    var lo := if head <= tail then head else 0;
    SoundBounds(a, gen, lo, tail, s);
    SoundErased(a, z, gen, lo, tail, s);
    if tail < head { ClosedErased(a, z, PrevGen(gen), head, |a|); }
  }

  lemma SoundBounds(slots: seq<LogEntry>, g: nat, lo: nat, hi: nat, s: nat)
    requires Sound(slots, g, lo, hi, s)
    ensures lo <= s <= hi
  {
  }

  lemma StaleErased(a: seq<LogEntry>, z: seq<LogEntry>, gen: nat, tail: nat, size: nat)
    requires Erased(a, z) && 0 < gen && Inside(a, size)
    ensures Stale(a, gen, tail) ==> Stale(z, gen, tail)
    ensures Inside(z, size)
  {
    ErasedInside(a, z, size);
  }

  /** What is left after a recovery that was cut: the same image to come. */
  lemma StillTorn(a: seq<LogEntry>, z: seq<LogEntry>, bytes: seq<byte>, bytes': seq<byte>, gen: nat, head: nat, tail: nat,
                  g: nat, t: nat, s: nat) returns (s': nat)
    requires head < |a| && tail < |a| && 0 < gen <= MAX_GEN && Torn(a, gen, head, tail, s) && Inside(a, |bytes|)
    requires Halted(a, z, bytes, bytes', gen, head, tail, g, t)
    ensures |z| == |a| && |bytes'| == |bytes| && Torn(z, gen, head, tail, s')
    ensures Inside(Entries(z, gen, s', tail), |bytes|) && Inside(Entries(a, gen, s, tail), |bytes|)
    ensures Undo(bytes', Entries(z, gen, s', tail)) == Undo(bytes, Entries(a, gen, s, tail))
  {
    hide Entries, PrevGen, Torn, Undo, AgreeOff, HeadFirst, SameLive, Inside, PlanAll, Behind;
    TornPlan(a, gen, head, tail, s);
    TornErased(a, z, gen, head, tail, s);
    SameLength(bytes, bytes', PlanAll(a, gen, head, tail));
    TornBounds(a, gen, head, tail, s);
    if s < tail && z[s].gen == gen {
      s' := s;
      UndoAgrees(bytes, bytes', PlanAll(a, gen, head, tail));
    } else {
      s' := tail;
      NoEntries(bytes', z, gen, tail);
      if s < tail { LostBehind(a, z, gen, head, tail, g, t, s); }
      assert PlanAll(z, g, head, t) == [] by {
        PlanKept(a, z, gen, g, head, t);
        assert s == tail ==> PlanAll(a, gen, head, tail) == [] by { NoEntries(bytes, a, gen, tail); }
      }
    }
  }

  lemma SameLength(a: seq<byte>, b: seq<byte>, es: seq<LogEntry>)
    requires AgreeOff(a, b, es)
    ensures |a| == |b|
  {
  }

  lemma TornBounds(slots: seq<LogEntry>, gen: nat, head: nat, tail: nat, s: nat)
    requires head < |slots| && tail < |slots| && Torn(slots, gen, head, tail, s)
    ensures (if head <= tail then head else 0) <= s <= tail && (s < tail ==> StartsAt(slots, gen, s))
  {
  }

  lemma LostBehind(a: seq<LogEntry>, z: seq<LogEntry>, gen: nat, head: nat, tail: nat, g: nat, t: nat, s: nat)
    requires head < |a| == |z| && tail < |a| && t < |a| && (if head <= tail then head else 0) <= s < tail
    requires StartsAt(a, gen, s) && z[s].gen != gen && Behind(a, z, gen, head, tail, g, t)
    ensures PlanAll(a, g, head, t) <= PlanAll(a, gen, head, s)
  {
    hide PlanAll, PrevGen;
    assert GenAt(gen, head, tail, s) == gen && InUseSlot(|a|, head, tail, s);
  }

  /** No entry carries the generation that a recovery moves on to; in the last
      generation recovery sees to that itself. */
  predicate Unused(slots: seq<LogEntry>, gen: nat) {
    gen == MAX_GEN || NoneOf(slots, NextGen(gen))
  }

  lemma Emptied(a: seq<LogEntry>, z: seq<LogEntry>, gen: nat, head: nat, tail: nat)
    requires head < |a| && tail < |a| && 0 < gen <= MAX_GEN && Erased(a, z) && Stale(a, gen, tail) && Unused(a, gen)
    requires gen == MAX_GEN ==> ZeroIn(z, ScanLo(head, tail), |z|)
    ensures Stale(z, NextGen(gen), tail) && Image(z, NextGen(gen), tail, tail, [], []) && Quiet([])
    ensures Ids(z, NextGen(gen), tail, tail, 0, 0) && Torn(z, NextGen(gen), head, tail, tail)
  {
    GensInverse(gen);
    hide NextGen, PrevGen;
    assert forall p :: ScanLo(head, tail) <= p < |z| && p < tail ==> !StartsAt(z, NextGen(gen), p);
  }

  /** pmfs_recover_journal.  If it completes, memory holds the stable image and the
      journal is empty; if the power fails, at any write, the next recovery will give
      the same image.  The journal can be used again if no entry carries the next generation. */
  method Recover(j: Log, mem: Memory, supply: Supply, ghost stable: seq<byte>, ghost s: nat) returns (done: bool,
                 ghost s': nat)
    requires Crashed(j, mem, stable, s)
    modifies j, mem, supply
    ensures done <==> old(j.head) == old(j.tail) ||
                      !Short(old(supply.charge), RecoveryWrites(old(j.slots), old(j.gen), old(j.head), old(j.tail)) + 2)
    ensures done ==> mem.bytes == stable && j.Valid() && j.head == j.tail == old(j.tail)
    ensures done ==> j.gen == if old(j.head) == old(j.tail) then old(j.gen) else NextGen(old(j.gen))
    ensures old(j.head) == old(j.tail) || Unused(old(j.slots), old(j.gen)) ==>
              if done then Idle(j, |mem.bytes|, [], [], 0) else Crashed(j, mem, stable, s')
    ensures !done && j.gen == old(j.gen) ==> Crashed(j, mem, stable, s')
    ensures Erased(old(j.slots), j.slots) && (!Recycles(old(j.gen), old(j.head), old(j.tail)) ==> j.slots == old(j.slots))
    ensures j.tail == old(j.tail) && (j.gen == old(j.gen) || j.gen == NextGen(old(j.gen)))
  {
    hide Recycles, Undo, Image, Stale, Quiet, Inside, CalmAll, PlanAll, Erased, ZeroIn, NextGen, NoneOf, Torn, Halted,
         Entries, Ids, Unused, RecoveryWrites;
    s' := s;
    TornPlan(j.slots, j.gen, j.head, j.tail, s);
    GensInverse(j.gen);
    if j.head == j.tail {
      AlreadyEmpty(j, mem, stable, s);
      return true, s;
    }
    ghost var slots, gen := j.slots, j.gen;
    AllInside(slots, gen, j.head, j.tail, |mem.bytes|);
    ghost var g, t;
    var r;
    r, g, t := j.RecoverUndoJournal(mem, supply);
    done := r.Finished?;
    if r.Cut? {
      s' := StillTorn(slots, j.slots, old(mem.bytes), mem.bytes, gen, j.head, j.tail, g, t, s);
      HaltedErased(slots, j.slots, old(mem.bytes), mem.bytes, gen, j.head, j.tail, g, t);
      StaleErased(slots, j.slots, gen, j.tail, |mem.bytes|);
    } else {
      s' := j.tail;
      StaleErased(slots, j.slots, gen, j.tail, |mem.bytes|);
      NoEntries(mem.bytes, j.slots, j.gen, j.tail);
      if Unused(slots, gen) { Emptied(slots, j.slots, gen, old(j.head), j.tail); }
    }
  }

  lemma HaltedErased(a: seq<LogEntry>, z: seq<LogEntry>, bytes: seq<byte>, bytes': seq<byte>, gen: nat, head: nat, tail: nat,
                     g: nat, t: nat)
    requires head < |a| && tail < |a| && Halted(a, z, bytes, bytes', gen, head, tail, g, t)
    ensures Erased(a, z) && (!Recycles(gen, head, tail) ==> z == a)
  {
  }

  lemma AlreadyEmpty(j: Log, mem: Memory, stable: seq<byte>, s: nat)
    requires Crashed(j, mem, stable, s) && j.head == j.tail
    ensures mem.bytes == stable && Idle(j, |mem.bytes|, [], [], 0) && Erased(j.slots, j.slots)
  {
  }
}
