/** What a log looks like to recovery: rows of reservations, transactions that are
    closed, and one that may be open, also after part of it was invalidated. */
module LogShape {
  import opened Codec
  import opened Journal

  /** No slot from tail on can be mistaken for an entry of the current generation. */
  ghost predicate Stale(slots: seq<LogEntry>, gen: nat, tail: nat) {
    forall p :: tail <= p < |slots| ==> slots[p].gen != gen
  }

  /** No slot carries generation g. */
  predicate NoneOf(slots: seq<LogEntry>, g: nat) {
    forall p :: 0 <= p < |slots| ==> slots[p].gen != g
  }

  /** The log gained no generation but gen. */
  ghost predicate NoNewGen(a: seq<LogEntry>, b: seq<LogEntry>, gen: nat) {
    |a| == |b| && forall p :: 0 <= p < |a| ==> b[p].gen == a[p].gen || b[p].gen == gen || b[p].gen == 0
  }

  // ---------------------------------------------------------------- rows of reservations

  lemma SegmentSnoc(slots: seq<LogEntry>, g: nat, lo: nat, hi: nat, ts: seq<Tr>, t: Tr)
    requires Segment(slots, g, lo, hi, ts) && lo <= hi == t.base && Region(slots, g, t)
    ensures Segment(slots, g, lo, hi + t.size, ts + [t])
    ensures Pending(slots, g, lo, hi + t.size, ts + [t]) == Pending(slots, g, lo, hi, ts) + Own(slots, t)
  {
    assert (ts + [t])[..|ts|] == ts;
  }

  lemma SegmentLast(slots: seq<LogEntry>, g: nat, lo: nat, hi: nat, ts: seq<Tr>, t: Tr)
    requires Segment(slots, g, lo, hi, ts + [t])
    ensures lo <= t.base && t.base + t.size == hi && Region(slots, g, t) && Segment(slots, g, lo, t.base, ts)
  {
    assert (ts + [t])[..|ts|] == ts;
  }

  lemma {:induction false} SegmentOrder(slots: seq<LogEntry>, g: nat, lo: nat, hi: nat, ts: seq<Tr>)
    requires Segment(slots, g, lo, hi, ts)
    ensures lo <= hi
    decreases |ts|
  {
    if ts == [] {
    } else {
      SegmentOrder(slots, g, lo, ts[|ts| - 1].base, ts[..|ts| - 1]);
    }
  }

  lemma {:induction false} SegmentFrame(a: seq<LogEntry>, b: seq<LogEntry>, g: nat, lo: nat, hi: nat, ts: seq<Tr>)
    requires Segment(a, g, lo, hi, ts) && SameSlots(a, b, lo, hi)
    ensures Segment(b, g, lo, hi, ts)
    decreases |ts|
  {
    if ts == [] {
    } else {
      var t := ts[|ts| - 1];
      RegionFrame(a, b, g, t, lo, hi);
      SegmentFrame(a, b, g, lo, t.base, ts[..|ts| - 1]);
    }
  }

  lemma RegionFrame(a: seq<LogEntry>, b: seq<LogEntry>, g: nat, t: Tr, lo: nat, hi: nat)
    requires Region(a, g, t) && SameSlots(a, b, lo, hi) && lo <= t.base && t.base + t.size <= hi <= |a|
    ensures Region(b, g, t)
  {
  }

  /** Every transaction is finished, or has logged nothing. */
  predicate Quiet(ts: seq<Tr>) {
    forall t :: t in ts ==> t.ended || t.used == 0
  }

  lemma {:induction false} QuietPending(slots: seq<LogEntry>, g: nat, lo: nat, hi: nat, ts: seq<Tr>)
    requires Segment(slots, g, lo, hi, ts) && Quiet(ts)
    ensures Pending(slots, g, lo, hi, ts) == []
    decreases |ts|
  {
    if ts == [] {
    } else {
      var t := ts[|ts| - 1];
      assert t in ts;
      QuietPending(slots, g, lo, t.base, ts[..|ts| - 1]);
    }
  }

  lemma QuietAdd(ts: seq<Tr>, t: Tr)
    requires Quiet(ts) && (t.ended || t.used == 0)
    ensures Quiet(ts + [t])
  {
  }

  lemma QuietNone()
    ensures Quiet([])
  {
  }

  // ---------------------------------------------------------------- closed transactions

  /** q is a valid commit or abort that closes the transaction started at p. */
  predicate Closes(slots: seq<LogEntry>, g: nat, p: nat, q: nat)
    requires p <= q < |slots|
  {
    slots[q].gen == g && Ends(slots[q]) && forall x :: p < x <= q ==> !StartsAt(slots, g, x)
  }

  /** Every valid START in [lo, hi) is closed there. */
  ghost predicate Closed(slots: seq<LogEntry>, g: nat, lo: nat, hi: nat)
    requires hi <= |slots|
  {
    forall p :: lo <= p < hi && StartsAt(slots, g, p) ==> exists q :: p <= q < hi && Closes(slots, g, p, q)
  }

  /** The walk back passes no valid commit or abort on its way. */
  lemma {:induction false} WalkPasses(slots: seq<LogEntry>, g: nat, lo: nat, p: nat)
    requires lo <= p < |slots|
    ensures var s := Bottom(slots, g, lo, p);
            && (forall x :: s <= x < p ==> !(slots[x].gen == g && Ends(slots[x])))
            && (forall x :: s < x <= p ==> !StartsAt(slots, g, x))
            && (StartsAt(slots, g, s) || s == lo || (slots[s - 1].gen == g && Ends(slots[s - 1])))
    decreases p
  {
    if StartsAt(slots, g, p) || p == lo || (slots[p - 1].gen == g && Ends(slots[p - 1])) {
    } else {
      WalkPasses(slots, g, lo, p - 1);
    }
  }

  /** And it gets to any slot it can reach that way. */
  lemma {:induction false} WalkReaches(slots: seq<LogEntry>, g: nat, lo: nat, s: nat, p: nat)
    requires lo <= s <= p < |slots| && StartsAt(slots, g, s)
    requires forall x :: s <= x < p ==> !(slots[x].gen == g && Ends(slots[x]))
    requires forall x :: s < x <= p ==> !StartsAt(slots, g, x)
    ensures Bottom(slots, g, lo, p) == s
    decreases p
  {
    if p == s {
    } else {
      assert !StartsAt(slots, g, p) && !(slots[p - 1].gen == g && Ends(slots[p - 1]));
      WalkReaches(slots, g, lo, s, p - 1);
    }
  }

  lemma ClosedBelow(slots: seq<LogEntry>, g: nat, lo: nat, hi: nat, s: nat)
    requires lo <= s <= hi <= |slots| && Closed(slots, g, lo, hi)
    requires s == hi || StartsAt(slots, g, s) || s == lo || (slots[s - 1].gen == g && Ends(slots[s - 1]))
    ensures Closed(slots, g, lo, s)
  {
    forall p | lo <= p < s && StartsAt(slots, g, p) ensures exists q :: p <= q < s && Closes(slots, g, p, q) {
      var q :| p <= q < hi && Closes(slots, g, p, q);
      if q >= s && s < hi {
        assert !StartsAt(slots, g, s);
        assert Closes(slots, g, p, s - 1);
      }
    }
  }

  /** The exact condition for recovery to undo nothing: every START is closed. */
  lemma {:induction false} NothingToUndoIff(slots: seq<LogEntry>, g: nat, lo: nat, hi: nat)
    requires hi <= |slots|
    ensures Plan(slots, g, lo, hi) == [] <==> Closed(slots, g, lo, hi)
    decreases hi
  {
    if hi <= lo {
    } else if slots[hi - 1].gen != g {
      NothingToUndoIff(slots, g, lo, hi - 1);
      if Closed(slots, g, lo, hi) { ClosedShrinks(slots, g, lo, hi); }
      if Closed(slots, g, lo, hi - 1) { ClosedGrows(slots, g, lo, hi - 1, hi); }
    } else {
      NothingToUndoIff(slots, g, lo, Bottom(slots, g, lo, hi - 1));
      LastClosedIff(slots, g, lo, hi);
    }
  }

  lemma ClosedPlan(slots: seq<LogEntry>, g: nat, lo: nat, hi: nat)
    requires hi <= |slots| && Closed(slots, g, lo, hi)
    ensures Plan(slots, g, lo, hi) == []
  {
    NothingToUndoIff(slots, g, lo, hi);
  }

  /** The last transaction adds something to undo exactly if it is not closed. */
  lemma LastClosedIff(slots: seq<LogEntry>, g: nat, lo: nat, hi: nat)
    requires lo < hi <= |slots| && slots[hi - 1].gen == g
    ensures Closed(slots, g, lo, hi) <==> Closed(slots, g, lo, Bottom(slots, g, lo, hi - 1)) && Part(slots, g, lo, hi - 1) == []
  {
    hide Entries, Bottom;
    var s := Bottom(slots, g, lo, hi - 1);
    WalkPasses(slots, g, lo, hi - 1);
    LastIsThere(slots, g, s, hi);
    if Closed(slots, g, lo, hi) {
      ClosedBelow(slots, g, lo, hi, s);
      if StartsAt(slots, g, s) {
        var q :| s <= q < hi && Closes(slots, g, s, q);
        assert q == hi - 1;
      }
    }
    if Closed(slots, g, lo, s) && (!StartsAt(slots, g, s) || Ends(slots[hi - 1])) {
      forall p | lo <= p < hi && StartsAt(slots, g, p) ensures exists q :: p <= q < hi && Closes(slots, g, p, q) {
        if p < s {
          var q :| p <= q < s && Closes(slots, g, p, q);
        } else {
          assert Closes(slots, g, p, hi - 1);
        }
      }
    }
  }

  lemma LastIsThere(slots: seq<LogEntry>, g: nat, a: nat, b: nat)
    requires a < b <= |slots| && slots[b - 1].gen == g
    ensures Entries(slots, g, a, b) != []
  {
  }

  lemma ClosedShrinks(slots: seq<LogEntry>, g: nat, lo: nat, hi: nat)
    requires 0 < hi <= |slots| && Closed(slots, g, lo, hi) && slots[hi - 1].gen != g
    ensures Closed(slots, g, lo, hi - 1)
  {
    forall p | lo <= p < hi - 1 && StartsAt(slots, g, p) ensures exists q :: p <= q < hi - 1 && Closes(slots, g, p, q) {
      var q :| p <= q < hi && Closes(slots, g, p, q);
      assert q != hi - 1;
    }
  }

  lemma ClosedGrows(slots: seq<LogEntry>, g: nat, lo: nat, mid: nat, hi: nat)
    requires mid <= hi <= |slots| && Closed(slots, g, lo, mid) && forall p :: mid <= p < hi ==> !StartsAt(slots, g, p)
    ensures Closed(slots, g, lo, hi)
  {
    forall p | lo <= p < hi && StartsAt(slots, g, p) ensures exists q :: p <= q < hi && Closes(slots, g, p, q) {
      var q :| p <= q < mid && Closes(slots, g, p, q);
    }
  }

  lemma {:induction false} QuietClosed(slots: seq<LogEntry>, g: nat, lo: nat, hi: nat, ts: seq<Tr>)
    requires Segment(slots, g, lo, hi, ts) && Quiet(ts)
    ensures Closed(slots, g, lo, hi)
    decreases |ts|
  {
    if ts == [] {
    } else {
      var t := ts[|ts| - 1];
      assert t in ts;
      QuietClosed(slots, g, lo, t.base, ts[..|ts| - 1]);
      LastClosed(slots, slots, g, lo, hi, t);
    }
  }

  /** One more reservation, or what is left of it. */
  lemma LastClosed(slots: seq<LogEntry>, z: seq<LogEntry>, g: nat, lo: nat, hi: nat, t: Tr)
    requires Region(slots, g, t) && t.base + t.size == hi && Erased(slots, z) && (slots == z || 0 < g)
    requires Closed(z, g, lo, t.base)
    requires 0 < t.used ==> z[t.base].gen != g || (t.ended && z[t.base + t.used - 1].gen == g)
    ensures Closed(z, g, lo, hi)
  {
    forall p | lo <= p < hi && StartsAt(z, g, p) ensures exists q :: p <= q < hi && Closes(z, g, p, q) {
      if p < t.base {
        var q :| p <= q < t.base && Closes(z, g, p, q);
      } else {
        assert p == t.base && t.used > 0;
        assert Closes(z, g, p, t.base + t.used - 1);
      }
    }
  }

  // ---------------------------------------------------------------- one open transaction

  /** [lo, s) is closed, and [s, hi) is one open transaction, or nothing if s == hi. */
  ghost predicate Sound(slots: seq<LogEntry>, g: nat, lo: nat, hi: nat, s: nat) {
    && lo <= s <= hi <= |slots| && Closed(slots, g, lo, s) && (s < hi ==> StartsAt(slots, g, s))
    && forall p: nat :: s <= p < hi && slots[p].gen == g ==> !Ends(slots[p]) && (slots[p].start ==> p == s)
  }

  /** Recovery undoes that one. */
  lemma {:induction false} SoundPlan(slots: seq<LogEntry>, g: nat, lo: nat, hi: nat, s: nat)
    requires Sound(slots, g, lo, hi, s)
    ensures Plan(slots, g, lo, hi) == Entries(slots, g, s, hi)
    decreases hi
  {
    hide Closed, Plan, Bottom, Entries;
    if s == hi {
      ClosedPlan(slots, g, lo, hi);
      NoEntries([], slots, g, hi);
    } else if slots[hi - 1].gen != g {
      SoundPlan(slots, g, lo, hi - 1, s);
      SkipUnused(slots, g, lo, hi - 1, hi);
      NoneValid(slots, g, s, hi - 1, hi);
    } else {
      WalkReaches(slots, g, lo, s, hi - 1);
      ClosedPlan(slots, g, lo, s);
      LastPart(slots, g, lo, hi);
    }
  }

  lemma LastPart(z: seq<LogEntry>, g: nat, lo: nat, hi: nat)
    requires lo < hi <= |z| && z[hi - 1].gen == g && !Ends(z[hi - 1])
    ensures var s := Bottom(z, g, lo, hi - 1); StartsAt(z, g, s) ==> Plan(z, g, lo, hi) == Plan(z, g, lo, s) + Entries(z, g, s, hi)
  {
    hide Bottom, Entries;
  }

  lemma QuietSound(slots: seq<LogEntry>, g: nat, lo: nat, hi: nat, ts: seq<Tr>)
    requires Segment(slots, g, lo, hi, ts) && Quiet(ts)
    ensures Sound(slots, g, lo, hi, hi)
  {
    hide Closed, Segment;
    QuietClosed(slots, g, lo, hi, ts);
    SegmentOrder(slots, g, lo, hi, ts);
    assert hi <= |slots| by { SegmentBound(slots, g, lo, hi, ts); }
  }

  lemma SegmentBound(slots: seq<LogEntry>, g: nat, lo: nat, hi: nat, ts: seq<Tr>)
    requires Segment(slots, g, lo, hi, ts)
    ensures hi <= |slots|
  {
  }

  /** A row whose last reservation is open. */
  lemma OpenSound(slots: seq<LogEntry>, g: nat, lo: nat, hi: nat, done: seq<Tr>, r: Tr) returns (s: nat)
    requires Segment(slots, g, lo, hi, done + [r]) && Quiet(done) && !r.ended
    ensures Sound(slots, g, lo, hi, s) && r.base + r.used <= hi <= |slots|
    ensures Entries(slots, g, s, hi) == slots[r.base..r.base + r.used] && s == if r.used == 0 then hi else r.base
  {
    hide Closed, Segment, Entries;
    SegmentLast(slots, g, lo, hi, done, r);
    QuietSound(slots, g, lo, r.base, done);
    if r.used == 0 {
      s := hi;
      ClosedGrows(slots, g, lo, r.base, hi);
      assert Entries(slots, g, hi, hi) == [] by { NoEntries([], slots, g, hi); }
    } else {
      s := r.base;
      AllValid(slots, g, r.base, r.base + r.used);
      NoneValid(slots, g, r.base, r.base + r.used, hi);
    }
  }

  lemma {:induction false} NoneValid(slots: seq<LogEntry>, g: nat, a: nat, b: nat, c: nat)
    requires a <= b <= c <= |slots| && forall p :: b <= p < c ==> slots[p].gen != g
    ensures Entries(slots, g, a, c) == Entries(slots, g, a, b)
    decreases c
  {
    if b == c {
    } else {
      NoneValid(slots, g, a, b, c - 1);
    }
  }

  // ---------------------------------------------------------------- after invalidation

  /** Where a valid entry of [lo, hi) was invalidated, so was the lowest slot of its transaction. */
  ghost predicate HeadsGo(a: seq<LogEntry>, z: seq<LogEntry>, g: nat, lo: nat, hi: nat)
    requires hi <= |a|
  {
    && Erased(a, z)
    && forall p: nat :: lo <= p < hi && a[p].gen == g != z[p].gen ==> z[Bottom(a, g, lo, p)].gen == 0
  }

  /** The first commit or abort above a START that is closed. */
  lemma {:induction false} FirstEnd(slots: seq<LogEntry>, g: nat, p: nat, q: nat) returns (e: nat)
    requires p <= q < |slots| && Closes(slots, g, p, q)
    ensures p <= e <= q && Closes(slots, g, p, e) && forall x :: p <= x < e ==> !(slots[x].gen == g && Ends(slots[x]))
    decreases q
  {
    if x :| p <= x < q && slots[x].gen == g && Ends(slots[x]) {
      e := FirstEnd(slots, g, p, x);
    } else {
      e := q;
    }
  }

  /** Invalidation that takes START entries first leaves a closed log closed. */
  lemma ClosedErased(a: seq<LogEntry>, z: seq<LogEntry>, g: nat, lo: nat, hi: nat)
    requires 0 < g && hi <= |a| && Closed(a, g, lo, hi) && HeadsGo(a, z, g, lo, hi)
    ensures Closed(z, g, lo, hi)
  {
    hide Bottom;
    forall p | lo <= p < hi && StartsAt(z, g, p) ensures exists q :: p <= q < hi && Closes(z, g, p, q) {
      assert StartsAt(a, g, p);
      var q :| p <= q < hi && Closes(a, g, p, q);
      var e := FirstEnd(a, g, p, q);
      WalkReaches(a, g, lo, p, e);
      assert z[e].gen == g;
      forall x | p < x <= e ensures !StartsAt(z, g, x) { assert !StartsAt(a, g, x); }
      assert Closes(z, g, p, e);
    }
  }

  /** A log with one open transaction keeps it whole, or loses its START. */
  lemma SoundErased(a: seq<LogEntry>, z: seq<LogEntry>, g: nat, lo: nat, hi: nat, s: nat)
    requires 0 < g && Sound(a, g, lo, hi, s) && HeadsGo(a, z, g, lo, hi)
    ensures s < hi && z[s].gen == g ==> Sound(z, g, lo, hi, s) && Entries(z, g, s, hi) == Entries(a, g, s, hi)
    ensures s == hi || z[s].gen != g ==> Sound(z, g, lo, hi, hi)
  {
    hide Bottom, Closed, Entries;
    ClosedErased(a, z, g, lo, s);
    if s < hi && z[s].gen == g {
      forall p: nat | s <= p < hi && a[p].gen == g ensures z[p] == a[p] { WalkReaches(a, g, lo, s, p); }
      SameValid(a, z, g, s, hi);
    } else {
      assert forall p :: s <= p < hi ==> !StartsAt(z, g, p);
      ClosedGrows(z, g, lo, s, hi);
    }
  }

  lemma {:induction false} SameValid(a: seq<LogEntry>, z: seq<LogEntry>, g: nat, lo: nat, hi: nat)
    requires 0 < g && hi <= |a| && Erased(a, z) && forall p: nat :: lo <= p < hi && a[p].gen == g ==> z[p] == a[p]
    ensures Entries(z, g, lo, hi) == Entries(a, g, lo, hi)
    decreases hi
  {
    if hi <= lo {
    } else {
      SameValid(a, z, g, lo, hi - 1);
    }
  }

  /** A row of reservations in which each has lost its START, or is finished and has
      kept its last entry, leaves nothing to undo, whatever else was invalidated. */
  lemma RestartInvalidated(slots: seq<LogEntry>, z: seq<LogEntry>, g: nat, lo: nat, hi: nat, ts: seq<Tr>)
    requires 0 < g && Segment(slots, g, lo, hi, ts) && Erased(slots, z) && Harmless(z, g, ts)
    ensures hi <= |z| && Plan(z, g, lo, hi) == []
    ensures NoReuse(slots, g, lo, hi) ==> Calm(z, g, lo, hi)
  {
    hide Segment, Plan, Calm, Closed;
    SegmentBound(slots, g, lo, hi, ts);
    RestInvalidated(slots, z, g, lo, hi, ts);
    ClosedPlan(z, g, lo, hi);
    if NoReuse(slots, g, lo, hi) { CalmWithoutReuse(z, g, lo, hi); }
  }

  /** Each reservation has written nothing, lost its START, or is finished and has kept its last entry. */
  ghost predicate Harmless(z: seq<LogEntry>, g: nat, ts: seq<Tr>) {
    forall r :: r in ts && 0 < r.used && r.base + r.used <= |z| ==>
      z[r.base].gen != g || (r.ended && z[r.base + r.used - 1].gen == g)
  }

  lemma {:induction false} RestInvalidated(slots: seq<LogEntry>, z: seq<LogEntry>, g: nat, lo: nat, hi: nat, ts: seq<Tr>)
    requires 0 < g && Segment(slots, g, lo, hi, ts) && Erased(slots, z) && Harmless(z, g, ts)
    ensures Closed(z, g, lo, hi)
    decreases |ts|
  {
    if ts == [] {
    } else {
      var t := ts[|ts| - 1];
      assert t in ts;
      RestInvalidated(slots, z, g, lo, t.base, ts[..|ts| - 1]);
      LastClosed(slots, z, g, lo, hi, t);
    }
  }

  // ---------------------------------------------------------------- transaction ids

  /** No valid entry carries the id of a transaction that ended below it. */
  ghost predicate NoReuse(slots: seq<LogEntry>, g: nat, lo: nat, hi: nat)
    requires hi <= |slots|
  {
    forall q, p :: lo <= q < p < hi && slots[q].gen == g && slots[p].gen == g && Ends(slots[q]) ==> slots[q].tid != slots[p].tid
  }

  /** Then recovery meets no BUG_ON, however the log looks otherwise. */
  lemma {:induction false} CalmWithoutReuse(slots: seq<LogEntry>, g: nat, lo: nat, hi: nat)
    requires hi <= |slots| && NoReuse(slots, g, lo, hi)
    ensures Calm(slots, g, lo, hi)
    decreases hi
  {
    if hi <= lo {
    } else if slots[hi - 1].gen != g {
      CalmWithoutReuse(slots, g, lo, hi - 1);
    } else {
      WalkPasses(slots, g, lo, hi - 1);
      CalmWithoutReuse(slots, g, lo, Bottom(slots, g, lo, hi - 1));
    }
  }

  /** Ids in [lo, hi) are below `next`, those of finished transactions below `own`, and none is used again. */
  ghost predicate IdsIn(slots: seq<LogEntry>, g: nat, lo: nat, hi: nat, own: nat, next: nat)
    requires hi <= |slots|
  {
    && NoReuse(slots, g, lo, hi)
    && forall p :: lo <= p < hi && slots[p].gen == g ==> slots[p].tid < next && (Ends(slots[p]) ==> slots[p].tid < own)
  }

  /** The same for the journal between head and tail. */
  ghost predicate Ids(slots: seq<LogEntry>, gen: nat, head: nat, tail: nat, own: nat, next: nat)
    requires head <= |slots| && tail <= |slots|
  {
    && IdsIn(slots, gen, if head <= tail then head else 0, tail, own, next)
    && (tail < head ==> NoReuse(slots, PrevGen(gen), head, |slots|))
  }
}
