/** Undo-journal recovery (journal.c).  Offsets count log entries, so an offset
    here is the source's byte offset divided by LOGENTRY_SIZE. */
module Journal {
  import opened Codec
  import opened Power

  const MAX_GEN: nat := 65535
  const MAX_DATA: nat := 48

  /** pmfs_logentry_t; the three flags are the bits of its type. */
  datatype LogEntry = LogEntry(addr: nat, tid: nat, gen: nat, start: bool, commit: bool, abort: bool, data: seq<byte>)

  predicate Ends(le: LogEntry) { le.commit || le.abort }

  // ---------------------------------------------------------------- offsets and generations

  function NextEntry(jsize: nat, off: nat): nat {
    if off + 1 >= jsize then 0 else off + 1
  }

  function PrevEntry(jsize: nat, off: nat): nat
    requires 0 < jsize
  {
    if off == 0 then jsize - 1 else off - 1
  }

  lemma EntriesInverse(jsize: nat, off: nat)
    requires off < jsize
    ensures NextEntry(jsize, off) < jsize && PrevEntry(jsize, off) < jsize
    ensures PrevEntry(jsize, NextEntry(jsize, off)) == off && NextEntry(jsize, PrevEntry(jsize, off)) == off
  {
  }

  /** 16-bit generation numbers; 0 marks an invalid entry and is skipped. */
  function NextGen(gen: nat): nat {
    var g := (gen + 1) % 65536; if g == 0 then 1 else g
  }

  function PrevGen(gen: nat): nat {
    var g := (gen + 65535) % 65536; if g == 0 then 65535 else g
  }

  lemma GensInverse(gen: nat)
    requires 0 < gen <= MAX_GEN
    ensures 0 < NextGen(gen) <= MAX_GEN && 0 < PrevGen(gen) <= MAX_GEN
    ensures PrevGen(NextGen(gen)) == gen && NextGen(PrevGen(gen)) == gen && NextGen(gen) != gen
    ensures (gen < MAX_GEN ==> NextGen(gen) == gen + 1) && (1 < gen ==> PrevGen(gen) == gen - 1)
  {
  }

  // ---------------------------------------------------------------- undoing entries

  /** pmfs_undo_logentry: put the logged bytes back. */
  function Put(bytes: seq<byte>, le: LogEntry): (r: seq<byte>)
    requires le.addr + |le.data| <= |bytes|
    ensures |r| == |bytes|
  {
    Patch(bytes, le.addr, le.data)
  }

  predicate Inside(es: seq<LogEntry>, size: nat) {
    forall e :: e in es ==> e.addr + |e.data| <= size
  }

  /** Undo entries, last one first. */
  function Undo(bytes: seq<byte>, es: seq<LogEntry>): (r: seq<byte>)
    requires Inside(es, |bytes|)
    ensures |r| == |bytes|
    decreases |es|
  {
    if es == [] then bytes else Undo(Put(bytes, es[|es| - 1]), es[..|es| - 1])
  }

  predicate Covers(le: LogEntry, x: nat) { le.addr <= x < le.addr + |le.data| }

  predicate Covered(es: seq<LogEntry>, x: nat) {
    exists i :: 0 <= i < |es| && Covers(es[i], x)
  }

  /** What the earliest entry that logged byte x says it was, else `now`. */
  function FirstLogged(es: seq<LogEntry>, x: nat, now: byte): byte {
    if es == [] then now
    else if Covers(es[0], x) then es[0].data[x - es[0].addr]
    else FirstLogged(es[1..], x, now)
  }

  lemma {:induction false} UndoAppend(bytes: seq<byte>, a: seq<LogEntry>, b: seq<LogEntry>)
    requires Inside(a + b, |bytes|)
    ensures Inside(a, |bytes|) && Inside(b, |bytes|)
    ensures Undo(bytes, a + b) == Undo(Undo(bytes, b), a)
    decreases |b|
  {
    hide Put;
    assert forall e :: e in a ==> e in a + b;
    assert forall e :: e in b ==> e in a + b;
    if b == [] {
      assert a + b == a;
    } else {
      var n := |b| - 1;
      assert (a + b)[..|a + b| - 1] == a + b[..n];
      UndoAppend(Put(bytes, b[n]), a, b[..n]);
    }
  }

  /** Undoing in reverse order restores, at every byte, what was logged first. */
  lemma {:induction false} UndoByte(bytes: seq<byte>, es: seq<LogEntry>, x: nat)
    requires Inside(es, |bytes|) && x < |bytes|
    ensures Undo(bytes, es)[x] == FirstLogged(es, x, bytes[x])
    decreases |es|
  {
    if es == [] {
    } else {
      var e, rest := es[0], es[1..];
      assert es == [e] + rest;
      UndoAppend(bytes, [e], rest);
      assert Undo(Undo(bytes, rest), [e]) == Put(Undo(bytes, rest), e);
      UndoByte(bytes, rest, x);
    }
  }

  lemma {:induction false} FirstLoggedCovered(es: seq<LogEntry>, x: nat, now: byte, was: byte)
    ensures Covered(es, x) ==> FirstLogged(es, x, now) == FirstLogged(es, x, was)
    ensures !Covered(es, x) ==> FirstLogged(es, x, now) == now
    decreases |es|
  {
    if es == [] {
    } else {
      FirstLoggedCovered(es[1..], x, now, was);
      if Covered(es, x) && !Covers(es[0], x) {
        var i :| 0 <= i < |es| && Covers(es[i], x);
        assert es[1..][i - 1] == es[i];
      }
      if Covered(es[1..], x) {
        var i :| 0 <= i < |es[1..]| && Covers(es[1..][i], x);
        assert es[i + 1] == es[1..][i];
      }
    }
  }

  /** a and b are the same outside the logged bytes. */
  ghost predicate AgreeOff(a: seq<byte>, b: seq<byte>, es: seq<LogEntry>) {
    |a| == |b| && forall x: nat :: x < |a| && !Covered(es, x) ==> a[x] == b[x]
  }

  /** Images that agree outside the logged bytes are undone to the same image. */
  lemma UndoAgrees(a: seq<byte>, b: seq<byte>, es: seq<LogEntry>)
    requires AgreeOff(a, b, es) && Inside(es, |a|)
    ensures Undo(a, es) == Undo(b, es)
  {
    hide Undo, FirstLogged;
    forall x | 0 <= x < |a| ensures Undo(a, es)[x] == Undo(b, es)[x] {
      UndoByte(a, es, x);
      UndoByte(b, es, x);
      FirstLoggedCovered(es, x, a[x], b[x]);
    }
  }

  /** Undoing changes logged bytes only. */
  lemma UndoStays(bytes: seq<byte>, es: seq<LogEntry>)
    requires Inside(es, |bytes|)
    ensures AgreeOff(bytes, Undo(bytes, es), es)
  {
    hide Undo, FirstLogged;
    forall x: nat | x < |bytes| && !Covered(es, x) ensures Undo(bytes, es)[x] == bytes[x] {
      UndoByte(bytes, es, x);
      FirstLoggedCovered(es, x, bytes[x], bytes[x]);
    }
  }

  /** Agreement outside part of a log is agreement outside all of it. */
  lemma AgreeOffMore(a: seq<byte>, b: seq<byte>, before: seq<LogEntry>, es: seq<LogEntry>, after: seq<LogEntry>)
    requires AgreeOff(a, b, es)
    ensures AgreeOff(a, b, before + es + after)
  {
    forall x: nat | x < |a| && !Covered(before + es + after, x) ensures a[x] == b[x] { CoveredMore(before, es, after, x); }
  }

  lemma CoveredMore(before: seq<LogEntry>, es: seq<LogEntry>, after: seq<LogEntry>, x: nat)
    ensures Covered(es, x) ==> Covered(before + es + after, x)
  {
    if Covered(es, x) {
      var i :| 0 <= i < |es| && Covers(es[i], x);
      assert (before + es + after)[|before| + i] == es[i];
    }
  }

  lemma AgreeOffTwice(a: seq<byte>, b: seq<byte>, c: seq<byte>, es: seq<LogEntry>)
    requires AgreeOff(a, b, es) && AgreeOff(b, c, es)
    ensures AgreeOff(a, c, es)
  {
  }

  /** An undo cut short in the middle of an entry, with the entries after it and the
      first m of its bytes put back, and started again ends in the same image as one
      that ran through. */
  lemma RestartUndo(bytes: seq<byte>, front: seq<LogEntry>, e: LogEntry, rest: seq<LogEntry>, m: nat)
    requires Inside(front + [e] + rest, |bytes|) && m <= |e.data|
    ensures Inside(rest, |bytes|) && e.addr + |e.data| <= |bytes|
    ensures Undo(Patch(Undo(bytes, rest), e.addr, e.data[..m]), front + [e] + rest) == Undo(bytes, front + [e] + rest)
  {
    hide Undo, AgreeOff, Covered, Inside, Patch;
    var es := front + [e] + rest;
    InsideParts(front, e, rest, |bytes|);
    var part := Undo(bytes, rest);
    var torn := Patch(part, e.addr, e.data[..m]);
    UndoStays(bytes, rest);
    AgreeOffMore(bytes, part, front + [e], rest, []);
    assert es + [] == es && es[|front|] == e;
    TornAgrees(part, es, |front|, m);
    AgreeOffTwice(bytes, part, torn, es);
    UndoAgrees(bytes, torn, es);
  }

  lemma InsideParts(front: seq<LogEntry>, e: LogEntry, rest: seq<LogEntry>, size: nat)
    requires Inside(front + [e] + rest, size)
    ensures Inside(rest, size) && e.addr + |e.data| <= size
  {
    var es := front + [e] + rest;
    assert e in es;
    assert forall x :: x in rest ==> x in es;
  }

  lemma TornAgrees(bytes: seq<byte>, es: seq<LogEntry>, k: nat, m: nat)
    requires k < |es| && m <= |es[k].data| && es[k].addr + |es[k].data| <= |bytes|
    ensures AgreeOff(bytes, Patch(bytes, es[k].addr, es[k].data[..m]), es)
  {
    var torn := Patch(bytes, es[k].addr, es[k].data[..m]);
    forall x: nat | x < |bytes| && !Covered(es, x) ensures bytes[x] == torn[x] { assert !Covers(es[k], x); }
  }

  lemma {:induction false} FirstLoggedAppend(a: seq<LogEntry>, b: seq<LogEntry>, x: nat, now: byte)
    ensures FirstLogged(a + b, x, now) == FirstLogged(a, x, FirstLogged(b, x, now))
    decreases |a|
  {
    if a == [] {
      assert a + b == b;
    } else {
      assert (a + b)[1..] == a[1..] + b;
      FirstLoggedAppend(a[1..], b, x, now);
    }
  }

  /** A byte that one transaction logged and no earlier undone one did becomes
      what that transaction logged first, however often it logged it. */
  lemma RestoresFirst(bytes: seq<byte>, before: seq<LogEntry>, own: seq<LogEntry>, after: seq<LogEntry>, x: nat)
    requires Inside(before + own + after, |bytes|) && x < |bytes| && Covered(own, x) && !Covered(before, x)
    ensures Undo(bytes, before + own + after)[x] == FirstLogged(own, x, bytes[x])
  {
    hide Undo, FirstLogged, Covered;
    UndoByte(bytes, before + own + after, x);
    var rest := FirstLogged(after, x, bytes[x]);
    FirstLoggedAppend(before + own, after, x, bytes[x]);
    FirstLoggedAppend(before, own, x, rest);
    FirstLoggedCovered(before, x, FirstLogged(own, x, rest), rest);
    FirstLoggedCovered(own, x, rest, bytes[x]);
  }

  /** A byte no undone entry covers is left alone. */
  lemma LeavesOthers(bytes: seq<byte>, es: seq<LogEntry>, x: nat)
    requires Inside(es, |bytes|) && x < |bytes| && !Covered(es, x)
    ensures Undo(bytes, es)[x] == bytes[x]
  {
    UndoByte(bytes, es, x);
    FirstLoggedCovered(es, x, bytes[x], bytes[x]);
  }

  // ---------------------------------------------------------------- one transaction

  class Memory {
    var bytes: seq<byte>
  }

  /** The valid entries of generation g in slots [a, b), in log order. */
  function Entries(slots: seq<LogEntry>, g: nat, a: nat, b: nat): (r: seq<LogEntry>)
    requires b <= |slots|
    ensures forall e :: e in r ==> e in slots
    decreases b
  {
    if b <= a then []
    else Entries(slots, g, a, b - 1) + if slots[b - 1].gen == g then [slots[b - 1]] else []
  }

  /** Bytes that undoing the entries writes. */
  function Size(es: seq<LogEntry>): nat {
    if es == [] then 0 else Size(es[..|es| - 1]) + |es[|es| - 1].data|
  }

  lemma {:induction false} SizeAppend(a: seq<LogEntry>, b: seq<LogEntry>)
    ensures Size(a + b) == Size(a) + Size(b)
    decreases |b|
  {
    if b == [] {
      assert a + b == a;
    } else {
      assert (a + b)[..|a + b| - 1] == a + b[..|b| - 1];
      SizeAppend(a, b[..|b| - 1]);
    }
  }

  /** pmfs_undo_transaction.  Power may fail after any byte of any entry; what has
      been done by then does not change where a later undo ends. */
  method UndoTransaction(mem: Memory, slots: seq<LogEntry>, start: nat, num: nat, g: nat, supply: Supply) returns (cut: bool)
    requires start + num <= |slots| && Inside(slots, |mem.bytes|)
    modifies mem, supply
    ensures cut <==> Short(old(supply.charge), Size(Entries(slots, g, start, start + num)))
    ensures !cut ==> mem.bytes == Undo(old(mem.bytes), Entries(slots, g, start, start + num))
    ensures !cut ==> supply.charge == Minus(old(supply.charge), Size(Entries(slots, g, start, start + num)))
    ensures AgreeOff(old(mem.bytes), mem.bytes, Entries(slots, g, start, start + num))
  {
    hide Undo, Entries, Inside, Size, AgreeOff, Covered;
    var i: nat := num;
    ghost var es, rest := Entries(slots, g, start, start + num), [];
    NoEntries(mem.bytes, slots, g, start);
    EntriesInside(slots, g, start, start + num, |mem.bytes|);
    while i > 0
      invariant i <= num && |mem.bytes| == |old(mem.bytes)| && es == Entries(slots, g, start, start + i) + rest
      invariant Inside(es, |mem.bytes|) && Inside(rest, |mem.bytes|) && mem.bytes == Undo(old(mem.bytes), rest)
      invariant !Short(old(supply.charge), Size(rest)) && supply.charge == Minus(old(supply.charge), Size(rest))
    {
      i := i - 1;
      var le := slots[start + i];
      TakeEntry(old(mem.bytes), slots, g, start, start + i, rest, es);
      if g == le.gen {
        var m := supply.Draw(|le.data|);
        TornEntry(old(mem.bytes), slots, g, start, start + i, rest, es, m);
        mem.bytes := Patch(mem.bytes, le.addr, le.data[..m]);
        if m < |le.data| {
          SizeOfRest(slots, g, start, start + i, rest, es);
          return true;
        }
        assert le.data[..m] == le.data;
        rest := [le] + rest;
      }
    }
    assert es == rest by { NoEntries(mem.bytes, slots, g, start); }
    UndoStays(old(mem.bytes), es);
    cut := false;
  }

  /** One entry further back. */
  lemma TakeEntry(bytes: seq<byte>, slots: seq<LogEntry>, g: nat, a: nat, b: nat, rest: seq<LogEntry>, es: seq<LogEntry>)
    requires a <= b < |slots| && Inside(slots, |bytes|) && Inside(rest, |bytes|) && es == Entries(slots, g, a, b + 1) + rest
    ensures slots[b].addr + |slots[b].data| <= |bytes|
    ensures slots[b].gen != g ==> es == Entries(slots, g, a, b) + rest
    ensures slots[b].gen == g ==>
              && es == Entries(slots, g, a, b) + ([slots[b]] + rest) && Inside([slots[b]] + rest, |bytes|)
              && Size([slots[b]] + rest) == Size(rest) + |slots[b].data|
              && Undo(bytes, [slots[b]] + rest) == Put(Undo(bytes, rest), slots[b])
  {
    var le := slots[b];
    assert le in slots;
    if le.gen == g {
      assert Entries(slots, g, a, b) + [le] + rest == Entries(slots, g, a, b) + ([le] + rest);
      hide Undo, Size, Entries, Put;
      SizeAppend([le], rest);
      UndoAppend(bytes, [le], rest);
      UndoOne(Undo(bytes, rest), le);
      SizeOne(le);
    }
  }

  lemma SizeOne(le: LogEntry)
    ensures Size([le]) == |le.data|
  {
    assert [le][..0] == [];
  }

  lemma UndoOne(bytes: seq<byte>, e: LogEntry)
    requires Inside([e], |bytes|)
    ensures e.addr + |e.data| <= |bytes| && Undo(bytes, [e]) == Put(bytes, e)
  {
    assert e in [e];
    assert Undo(Put(bytes, e), [e][..0]) == Put(bytes, e);
  }

  /** With m bytes of one entry put back on top of `rest`, only logged bytes differ. */
  lemma TornEntry(bytes: seq<byte>, slots: seq<LogEntry>, g: nat, a: nat, b: nat, rest: seq<LogEntry>, es: seq<LogEntry>,
                  m: nat)
    requires a <= b < |slots| && slots[b].gen == g && m <= |slots[b].data| && Inside(rest, |bytes|)
    requires slots[b].addr + |slots[b].data| <= |bytes| && es == Entries(slots, g, a, b) + ([slots[b]] + rest)
    ensures AgreeOff(bytes, Patch(Undo(bytes, rest), slots[b].addr, slots[b].data[..m]), es)
  {
    hide Undo, Entries, AgreeOff;
    var le, now := slots[b], Undo(bytes, rest);
    UndoStays(bytes, rest);
    var front := Entries(slots, g, a, b) + [le];
    AgreeOffMore(bytes, now, front, rest, []);
    assert front + rest + [] == es && es[|front| - 1] == le;
    TornAgrees(now, es, |front| - 1, m);
    AgreeOffTwice(bytes, now, Patch(now, le.addr, le.data[..m]), es);
  }

  lemma SizeOfRest(slots: seq<LogEntry>, g: nat, a: nat, b: nat, rest: seq<LogEntry>, es: seq<LogEntry>)
    requires a <= b < |slots| && slots[b].gen == g && es == Entries(slots, g, a, b) + ([slots[b]] + rest)
    ensures Size(es) >= Size(rest) + |slots[b].data|
  {
    hide Entries, Size;
    SizeAppend(Entries(slots, g, a, b), [slots[b]] + rest);
    SizeAppend([slots[b]], rest);
    SizeOne(slots[b]);
  }

  lemma EntriesInside(slots: seq<LogEntry>, g: nat, a: nat, b: nat, size: nat)
    requires b <= |slots| && Inside(slots, size)
    ensures Inside(Entries(slots, g, a, b), size)
  {
  }

  lemma NoEntries(bytes: seq<byte>, slots: seq<LogEntry>, g: nat, a: nat)
    requires a <= |slots|
    ensures Entries(slots, g, a, a) == [] && Inside([], |bytes|) && Undo(bytes, []) == bytes && Size([]) == 0
    ensures AgreeOff(bytes, bytes, [])
  {
  }

  /** The lowest slot that the backward walk from p takes: a valid START, the
      lower end, or the slot above a valid commit or abort. */
  function Bottom(slots: seq<LogEntry>, g: nat, lo: nat, p: nat): (s: nat)
    requires lo <= p < |slots|
    ensures lo <= s <= p
    decreases p
  {
    if slots[p].gen == g && slots[p].start then p
    else if p == lo then p
    else if slots[p - 1].gen == g && Ends(slots[p - 1]) then p
    else Bottom(slots, g, lo, p - 1)
  }

  predicate StartsAt(slots: seq<LogEntry>, g: nat, s: nat)
    requires s < |slots|
  {
    slots[s].gen == g && slots[s].start
  }

  /** The walk from p stops at a commit or abort of its own transaction, which is a BUG_ON. */
  predicate Collides(slots: seq<LogEntry>, g: nat, lo: nat, p: nat)
    requires lo <= p < |slots|
  {
    var s := Bottom(slots, g, lo, p);
    !StartsAt(slots, g, s) && lo < s && slots[s - 1].tid == slots[p].tid
  }

  /** What recovering the transaction that ends at p puts back. */
  function Part(slots: seq<LogEntry>, g: nat, lo: nat, p: nat): seq<LogEntry>
    requires lo <= p < |slots|
  {
    var s := Bottom(slots, g, lo, p);
    if StartsAt(slots, g, s) && !Ends(slots[p]) then Entries(slots, g, s, p + 1) else []
  }

  /** pmfs_invalidate_logentries over slots [a, b). */
  function Zeroed(slots: seq<LogEntry>, a: nat, b: nat): (r: seq<LogEntry>)
    ensures |r| == |slots| && forall i :: 0 <= i < |slots| ==> r[i] == if a <= i < b then slots[i].(gen := 0) else slots[i]
  {
    seq(|slots|, i requires 0 <= i < |slots| => if a <= i < b then slots[i].(gen := 0) else slots[i])
  }

  /** What a backward scan of slots [lo, hi), all of generation g, puts back. */
  function Plan(slots: seq<LogEntry>, g: nat, lo: nat, hi: nat): (r: seq<LogEntry>)
    requires hi <= |slots|
    decreases hi
  {
    if hi <= lo then []
    else if slots[hi - 1].gen != g then Plan(slots, g, lo, hi - 1)
    else Plan(slots, g, lo, Bottom(slots, g, lo, hi - 1)) + Part(slots, g, lo, hi - 1)
  }

  /** The scan meets no BUG_ON. */
  predicate Calm(slots: seq<LogEntry>, g: nat, lo: nat, hi: nat)
    requires hi <= |slots|
    decreases hi
  {
    hi <= lo ||
    if slots[hi - 1].gen != g then Calm(slots, g, lo, hi - 1)
    else !Collides(slots, g, lo, hi - 1) && Calm(slots, g, lo, Bottom(slots, g, lo, hi - 1))
  }

  /** The journal between head and tail: one run of slots of the current
      generation, or, once the tail has wrapped, the slots from head to the end
      in the previous generation and those from 0 to tail in the current one. */
  function PlanAll(slots: seq<LogEntry>, gen: nat, head: nat, tail: nat): seq<LogEntry>
    requires head <= |slots| && tail <= |slots|
  {
    if head <= tail then Plan(slots, gen, head, tail)
    else Plan(slots, PrevGen(gen), head, |slots|) + Plan(slots, gen, 0, tail)
  }

  predicate CalmAll(slots: seq<LogEntry>, gen: nat, head: nat, tail: nat)
    requires head <= |slots| && tail <= |slots|
  {
    if head <= tail then Calm(slots, gen, head, tail)
    else Calm(slots, PrevGen(gen), head, |slots|) && Calm(slots, gen, 0, tail)
  }

  lemma {:induction false} PlanFrom(slots: seq<LogEntry>, g: nat, lo: nat, hi: nat, size: nat)
    requires hi <= |slots| && Inside(slots, size)
    ensures Inside(Plan(slots, g, lo, hi), size)
    decreases hi
  {
    if hi <= lo {
    } else {
      if slots[hi - 1].gen != g {
        PlanFrom(slots, g, lo, hi - 1, size);
      } else {
        PlanFrom(slots, g, lo, Bottom(slots, g, lo, hi - 1), size);
        EntriesInside(slots, g, Bottom(slots, g, lo, hi - 1), hi, size);
      }
    }
  }

  /** The plan depends only on the scanned slots. */
  ghost predicate SameSlots(a: seq<LogEntry>, b: seq<LogEntry>, lo: nat, hi: nat) {
    |a| == |b| && forall i :: lo <= i < hi <= |a| ==> a[i] == b[i]
  }

  lemma {:induction false} EntriesSame(a: seq<LogEntry>, b: seq<LogEntry>, g: nat, lo: nat, hi: nat)
    requires hi <= |a| && SameSlots(a, b, lo, hi)
    ensures Entries(a, g, lo, hi) == Entries(b, g, lo, hi)
    decreases hi
  {
    if hi <= lo {
    } else {
      EntriesSame(a, b, g, lo, hi - 1);
    }
  }

  lemma {:induction false} BottomSame(a: seq<LogEntry>, b: seq<LogEntry>, g: nat, lo: nat, p: nat)
    requires lo <= p < |a| && SameSlots(a, b, lo, p + 1)
    ensures Bottom(a, g, lo, p) == Bottom(b, g, lo, p)
    decreases p
  {
    if p <= lo {
    } else {
      BottomSame(a, b, g, lo, p - 1);
    }
  }

  lemma {:induction false} PlanSame(a: seq<LogEntry>, b: seq<LogEntry>, g: nat, lo: nat, hi: nat)
    requires hi <= |a| && SameSlots(a, b, lo, hi)
    ensures Plan(a, g, lo, hi) == Plan(b, g, lo, hi) && Calm(a, g, lo, hi) == Calm(b, g, lo, hi)
    decreases hi
  {
    if hi <= lo {
    } else {
      if a[hi - 1].gen != g {
        PlanSame(a, b, g, lo, hi - 1);
      } else {
        BottomSame(a, b, g, lo, hi - 1);
        var s := Bottom(a, g, lo, hi - 1);
        PlanSame(a, b, g, lo, s);
        EntriesSame(a, b, g, s, hi);
      }
    }
  }

  /** Where a scan standing at t looks next: the slots [lo, hi), in generation g. */
  function ScanHi(n: nat, t: nat): nat { if t == 0 then n else t }
  function ScanGen(gen: nat, t: nat): nat { if t == 0 then PrevGen(gen) else gen }
  function ScanLo(head: nat, p: nat): nat { if head <= p then head else 0 }

  /** The part of the journal the scan reaches only after passing offset 0. */
  function Upper(slots: seq<LogEntry>, gen: nat, head: nat, t: nat): seq<LogEntry>
    requires head <= |slots|
  {
    if 0 < t < head then Plan(slots, PrevGen(gen), head, |slots|) else []
  }

  predicate UpperCalm(slots: seq<LogEntry>, gen: nat, head: nat, t: nat)
    requires head <= |slots|
  {
    0 < t < head ==> Calm(slots, PrevGen(gen), head, |slots|)
  }

  lemma PlanSplit(slots: seq<LogEntry>, gen: nat, head: nat, t: nat)
    requires head < |slots| && t < |slots| && head != t
    ensures var hi, g := ScanHi(|slots|, t), ScanGen(gen, t); var lo := ScanLo(head, hi - 1);
            && lo < hi
            && PlanAll(slots, gen, head, t) == Upper(slots, gen, head, t) + Plan(slots, g, lo, hi)
            && (CalmAll(slots, gen, head, t) <==> UpperCalm(slots, gen, head, t) && Calm(slots, g, lo, hi))
  {
    hide Calm, PrevGen;
    assert Plan(slots, gen, 0, 0) == [];
    assert Calm(slots, gen, 0, 0) by { CalmEmpty(slots, gen, 0); }
  }

  lemma CalmEmpty(slots: seq<LogEntry>, g: nat, a: nat)
    requires a <= |slots|
    ensures Calm(slots, g, a, a) && Plan(slots, g, a, a) == []
  {
  }

  lemma PlanJoin(slots: seq<LogEntry>, gen: nat, head: nat, t: nat, t': nat)
    requires head < |slots| && t < |slots| && head != t && ScanLo(head, ScanHi(|slots|, t) - 1) <= t' < ScanHi(|slots|, t)
    ensures var g := ScanGen(gen, t); var lo := ScanLo(head, ScanHi(|slots|, t) - 1);
            && PlanAll(slots, g, head, t') == Upper(slots, gen, head, t) + Plan(slots, g, lo, t')
            && (CalmAll(slots, g, head, t') <==> UpperCalm(slots, gen, head, t) && Calm(slots, g, lo, t'))
  {
    hide Calm, PrevGen, Plan;
  }

  /** One step of the scan takes `part` off the end of the plan. */
  lemma OneBack(slots: seq<LogEntry>, gen: nat, head: nat, t: nat, t': nat, part: seq<LogEntry>)
    requires head < |slots| && t < |slots| && head != t
    requires var hi := ScanHi(|slots|, t); Stepped(slots, ScanGen(gen, t), ScanLo(head, hi - 1), hi, t', part)
    ensures t' < |slots| && PlanAll(slots, gen, head, t) == PlanAll(slots, ScanGen(gen, t), head, t') + part
    ensures CalmAll(slots, gen, head, t) == CalmAll(slots, ScanGen(gen, t), head, t')
  {
    hide Calm, PrevGen, Plan, PlanAll, CalmAll, Bottom;
    var hi, g := ScanHi(|slots|, t), ScanGen(gen, t);
    var lo := ScanLo(head, hi - 1);
    PlanSplit(slots, gen, head, t);
    PlanJoin(slots, gen, head, t, t');
    assert Upper(slots, gen, head, t) + (Plan(slots, g, lo, t') + part) == Upper(slots, gen, head, t) + Plan(slots, g, lo, t') + part;
  }

  /** Slot p lies between head and tail. */
  predicate InUseSlot(n: nat, head: nat, tail: nat, p: nat) {
    if head <= tail then head <= p < tail else p < tail || head <= p < n
  }

  /** The slots between head and tail are the same. */
  ghost predicate SameLive(a: seq<LogEntry>, b: seq<LogEntry>, head: nat, tail: nat) {
    |a| == |b| && forall p :: 0 <= p < |a| && InUseSlot(|a|, head, tail, p) ==> a[p] == b[p]
  }

  /** b is a with some entries invalidated. */
  ghost predicate Erased(a: seq<LogEntry>, b: seq<LogEntry>) {
    |a| == |b| && forall i :: 0 <= i < |a| ==> b[i] == a[i] || b[i] == a[i].(gen := 0)
  }

  ghost predicate ZeroIn(slots: seq<LogEntry>, a: nat, b: nat) {
    forall i :: a <= i < b && i < |slots| ==> slots[i].gen == 0
  }

  /** The generation that counts at slot p. */
  function GenAt(gen: nat, head: nat, tail: nat, p: nat): nat {
    if tail < head <= p then PrevGen(gen) else gen
  }

  /** Wherever a valid entry was invalidated, so was the lowest slot of its
      transaction: the START goes first. */
  ghost predicate HeadFirst(a: seq<LogEntry>, b: seq<LogEntry>, gen: nat, head: nat, tail: nat) {
    && |a| == |b|
    && forall p: nat :: p < |a| && InUseSlot(|a|, head, tail, p) && a[p].gen == GenAt(gen, head, tail, p) != b[p].gen ==>
         b[Bottom(a, GenAt(gen, head, tail, p), ScanLo(head, p), p)].gen == 0
  }

  /** A START that was invalidated has been dealt with: what a scan that stands at t in
      generation g has left to undo lies below it. */
  ghost predicate Behind(a: seq<LogEntry>, b: seq<LogEntry>, gen: nat, head: nat, tail: nat, g: nat, t: nat)
    requires head <= |a| && t <= |a| == |b|
  {
    forall p: nat :: p < |a| && InUseSlot(|a|, head, tail, p) && StartsAt(a, GenAt(gen, head, tail, p), p) && b[p].gen != a[p].gen ==>
      PlanAll(a, g, head, t) <= PlanAll(a, GenAt(gen, head, tail, p), head, p)
  }

  /** Writes that invalidating n slots of generation g takes: only the last
      generation is invalidated. */
  function Sweep(g: nat, n: nat): nat {
    if g == MAX_GEN then n else 0
  }

  /** Part of the journal is in the last generation. */
  predicate Recycles(gen: nat, head: nat, tail: nat) {
    gen == MAX_GEN || (tail < head && PrevGen(gen) == MAX_GEN)
  }

  /** What a scan has done with slots [low, hi), whose entries to undo are `part`:
      first undone, then invalidated from below, up to where the power failed. */
  ghost predicate Worked(slots: seq<LogEntry>, slots': seq<LogEntry>, bytes: seq<byte>, bytes': seq<byte>, g: nat, low: nat,
                         hi: nat, part: seq<LogEntry>, k: nat, cut: bool) {
    && Inside(part, |bytes|) && low + k <= hi <= |slots| && slots' == Zeroed(slots, low, low + k)
    && (0 < k ==> g == MAX_GEN) && (!cut ==> k == Sweep(g, hi - low))
    && if 0 < k || !cut then bytes' == Undo(bytes, part) else AgreeOff(bytes, bytes', part)
  }

  /** How a recovery ended: completed, on a BUG_ON, or by a power failure, the
      last possible one between the two header writes. */
  datatype Recovery = Finished | Bug | Cut | CutBeforeHead

  /** Slots still to be invalidated by a scan that stands at t in generation g. */
  function ToSweep(n: nat, g: nat, head: nat, t: nat): nat
    requires head <= n
  {
    if head <= t then Sweep(g, t - head) else Sweep(g, t) + Sweep(PrevGen(g), n - head)
  }

  /** Writes of a recovery before the two header writes. */
  function RecoveryWrites(slots: seq<LogEntry>, gen: nat, head: nat, tail: nat): nat
    requires head <= |slots| && tail <= |slots|
  {
    Size(PlanAll(slots, gen, head, tail)) + ToSweep(|slots|, gen, head, tail) + Sweep(gen, |slots| - tail)
  }

  /** Where a scan from (tail, gen) can stand: at t in generation g. */
  predicate Reached(gen: nat, head: nat, tail: nat, g: nat, t: nat) {
    || (g == gen && t <= tail && (head <= tail ==> head <= t))
    || (g == PrevGen(gen) && tail < head <= t)
  }

  /** The medium after a recovery that the power failed during, with the scan at t in
      generation g: bytes that were not logged are as before; undoing what lies
      below t gives the image the whole recovery would give; below t nothing was
      invalidated, and above it START entries first. */
  ghost predicate Halted(slots: seq<LogEntry>, slots': seq<LogEntry>, bytes: seq<byte>, bytes': seq<byte>, gen: nat,
                         head: nat,
                         tail: nat, g: nat, t: nat)
    requires head < |slots| && tail < |slots|
  {
    && Erased(slots, slots') && HeadFirst(slots, slots', gen, head, tail) && t < |slots| && SameLive(slots, slots', head, t)
    && Behind(slots, slots', gen, head, tail, g, t) && PlanAll(slots', g, head, t) <= PlanAll(slots, gen, head, tail)
    && Reached(gen, head, tail, g, t) && (!Recycles(gen, head, tail) ==> slots' == slots)
    && AgreeOff(bytes, bytes', PlanAll(slots, gen, head, tail))
    && Inside(PlanAll(slots, gen, head, tail), |bytes|) && Inside(PlanAll(slots', g, head, t), |bytes|)
    && Undo(bytes', PlanAll(slots', g, head, t)) == Undo(bytes, PlanAll(slots, gen, head, tail))
  }

  class Log {
    var slots: seq<LogEntry>
    var head: nat
    var tail: nat
    var gen: nat

    predicate Valid()
      reads this
    {
      head < |slots| && tail < |slots| && 0 < gen <= MAX_GEN
    }

    /** pmfs_invalidate_logentries over slots [a, b). */
    method Invalidate(a: nat, b: nat, supply: Supply) returns (cut: bool, ghost k: nat)
      requires a <= b <= |slots|
      modifies this`slots, supply
      ensures a + k <= b && slots == Zeroed(old(slots), a, a + k)
      ensures cut <==> Short(old(supply.charge), b - a)
      ensures !cut ==> k == b - a && supply.charge == Minus(old(supply.charge), b - a)
    {
      k := 0;
      var i := a;
      while i < b
        invariant a <= i <= b && k == i - a && slots == Zeroed(old(slots), a, i)
        invariant !Short(old(supply.charge), k) && supply.charge == Minus(old(supply.charge), k)
      {
        var m := supply.Draw(1);
        if m < 1 { return true, k; }
        slots := slots[i := slots[i].(gen := 0)];
        i, k := i + 1, k + 1;
      }
      cut := false;
    }

    /** pmfs_recover_transaction, for the valid entry at `top`. */
    method RecoverTransaction(mem: Memory, top: nat, supply: Supply) returns (low: nat, panic: bool, cut: bool, ghost k: nat)
      requires Valid() && top < |slots| && Inside(slots, |mem.bytes|)
      modifies mem, this`slots, supply
      ensures var lo := ScanLo(head, top); var g := old(slots)[top].gen; var part := Part(old(slots), g, lo, top);
              && panic == Collides(old(slots), g, lo, top)
              && (panic ==> slots == old(slots) && mem.bytes == old(mem.bytes) && supply.charge == old(supply.charge))
              && (!panic ==>
                  && low == Bottom(old(slots), g, lo, top)
                  && Worked(old(slots), slots, old(mem.bytes), mem.bytes, g, low, top + 1, part, k, cut)
                  && (cut <==> Short(old(supply.charge), Size(part) + Sweep(g, top + 1 - low)))
                  && (!cut ==> supply.charge == Minus(old(supply.charge), Size(part) + Sweep(g, top + 1 - low))))
    {
      hide Undo, Bottom, Entries, Inside, Collides, AgreeOff, Size;
      var g := slots[top].gen;
      var startFound, cmtOrAbrt;
      low, startFound, cmtOrAbrt, panic := WalkBack(slots, head, top);
      k, cut := 0, false;
      if panic { return; }
      assert Zeroed(slots, low, low) == slots;
      EntriesInside(slots, g, low, top + 1, |mem.bytes|);
      NoEntries(mem.bytes, slots, g, 0);
      if startFound && !cmtOrAbrt {
        cut := UndoTransaction(mem, slots, low, top + 1 - low, g, supply);
        if cut { return; }
      }
      if g == MAX_GEN {
        cut, k := Invalidate(low, top + 1, supply);
      }
    }

    /** The body of pmfs_recover_undo_journal's loop, for a scan that stands at t. */
    method ScanStep(mem: Memory, t: nat, g: nat, supply: Supply)
      returns (t': nat, panic: bool, cut: bool, ghost part: seq<LogEntry>, ghost k: nat)
      requires Valid() && t < |slots| && head != t && Inside(slots, |mem.bytes|)
      modifies mem, this`slots, supply
      ensures var hi, g' := ScanHi(|old(slots)|, t), ScanGen(g, t); var lo := ScanLo(head, hi - 1);
              && (panic ==> !Calm(old(slots), g', lo, hi))
              && (panic ==> slots == old(slots) && mem.bytes == old(mem.bytes) && supply.charge == old(supply.charge))
              && (!panic ==>
                  && Stepped(old(slots), g', lo, hi, t', part)
                  && Worked(old(slots), slots, old(mem.bytes), mem.bytes, g', t', hi, part, k, cut)
                  && (cut <==> Short(old(supply.charge), Size(part) + Sweep(g', hi - t')))
                  && (!cut ==> supply.charge == Minus(old(supply.charge), Size(part) + Sweep(g', hi - t'))))
    {
      hide Undo, Bottom, Collides, Part, PrevGen, Inside, AgreeOff, Size, Plan, Calm, Stepped, Zeroed;
      ghost var hi := ScanHi(|slots|, t);
      var g' := if t == 0 then PrevGen(g) else g;
      t' := PrevEntry(|slots|, t);
      ghost var lo := ScanLo(head, t');
      PartInside(slots, g', lo, t', |mem.bytes|);
      StepBack(slots, g', lo, hi);
      if g' == slots[t'].gen {
        part := Part(slots, g', lo, t');
        t', panic, cut, k := RecoverTransaction(mem, t', supply);
      } else {
        part, panic, cut, k := [], false, false, 0;
        assert Zeroed(slots, t', t') == slots;
        NoEntries(mem.bytes, slots, g', 0);
        if g' == MAX_GEN {
          cut, k := Invalidate(t', t' + 1, supply);
        }
      }
    }

    /** pmfs_recover_undo_journal: scan backwards from tail to head, undoing what
        was not committed, then bump the generation and empty the journal.  Power may
        fail at any write. */
    method RecoverUndoJournal(mem: Memory, supply: Supply) returns (r: Recovery, ghost g: nat, ghost t: nat)
      requires Valid() && Inside(slots, |mem.bytes|)
      modifies mem, this, supply
      ensures r.Bug? ==> !CalmAll(old(slots), old(gen), old(head), old(tail))
      ensures r.Finished? || r.CutBeforeHead? ==>
                && CalmAll(old(slots), old(gen), old(head), old(tail))
                && Inside(PlanAll(old(slots), old(gen), old(head), old(tail)), |old(mem.bytes)|)
                && mem.bytes == Undo(old(mem.bytes), PlanAll(old(slots), old(gen), old(head), old(tail)))
                && Valid() && tail == old(tail) && gen == NextGen(old(gen)) && head == (if r.Finished? then tail else old(head))
                && Erased(old(slots), slots) && (!Recycles(old(gen), old(head), old(tail)) ==> slots == old(slots))
                && (old(gen) == MAX_GEN ==> ZeroIn(slots, ScanLo(old(head), old(tail)), |slots|))
      ensures r.Cut? ==> Valid() && head == old(head) && tail == old(tail) && gen == old(gen) &&
                         Halted(old(slots), slots, old(mem.bytes), mem.bytes, gen, head, tail, g, t)
      ensures CalmAll(old(slots), old(gen), old(head), old(tail)) ==>
                var n := RecoveryWrites(old(slots), old(gen), old(head), old(tail));
                !r.Bug? && (r.Cut? <==> Short(old(supply.charge), n + 1)) && (r.Finished? <==> !Short(old(supply.charge), n + 2))
    {
      hide Undo, Plan, PlanAll, Calm, CalmAll, Inside, PrevGen, NextGen, Erased, ZeroIn, Scanning, Paid, Worked, Stepped,
           Halted, Size, ToSweep;
      ghost var slots0, bytes0, charge0, rest, crossed := slots, mem.bytes, supply.charge, [], false;
      var at: nat, gAt: nat := tail, gen;
      GensInverse(gen);
      ScanStarts(slots, mem.bytes, gen, head, tail, charge0);
      while head != at
        invariant head == old(head) && tail == old(tail) && gen == old(gen) && Valid() && |slots| == |slots0| && at < |slots|
        invariant Scanning(slots0, slots, bytes0, mem.bytes, gen, head, tail, gAt, at, rest, crossed)
        invariant Paid(charge0, supply.charge, slots0, gen, head, tail, gAt, at)
        decreases if head <= at then at - head else at + |slots| - head
      {
        ghost var was, b, charge, g0 := slots, mem.bytes, supply.charge, gAt;
        var t0 := at;
        ghost var part, k;
        var panic, cut;
        ScanInside(slots0, was, bytes0, b, gen, head, tail, g0, t0, rest, crossed);
        at, panic, cut, part, k := ScanStep(mem, at, gAt, supply);
        if panic {
          ScanPanics(slots0, was, bytes0, b, gen, head, tail, g0, t0, rest, crossed);
          return Bug, g0, t0;
        }
        SameStep(slots0, was, bytes0, b, gen, head, tail, g0, t0, rest, crossed, at, part);
        PaidStep(charge0, charge, supply.charge, slots0, gen, head, tail, g0, t0, at, part,
                 Size(part) + Sweep(ScanGen(g0, t0), ScanHi(|slots0|, t0) - at), cut);
        if cut {
          g, t := ScanCut(slots0, was, slots, bytes0, b, mem.bytes, gen, head, tail, g0, t0, rest, crossed, at, part, k);
          return Cut, g, t;
        }
        ScanOn(slots0, was, slots, bytes0, b, mem.bytes, gen, head, tail, g0, t0, rest, crossed, at, part, k);
        if t0 == 0 { gAt := PrevGen(gAt); crossed := true; }
        rest := part + rest;
      }
      g, t := gAt, at;
      ghost var scanned, charge := slots, supply.charge;
      ghost var k;
      r, k := ForwardJournal(supply);
      PaidUp(charge0, charge, slots0, old(gen), old(head), tail, g);
      ScanEnds(slots0, scanned, slots, bytes0, mem.bytes, old(gen), old(head), tail, g, rest, crossed, k);
    }

    /** pmfs_forward_journal: the generation is written before the head. */
    method ForwardJournal(supply: Supply) returns (r: Recovery, ghost k: nat)
      requires Valid()
      modifies this, supply
      ensures Valid() && !r.Bug? && tail == old(tail)
      ensures tail + k <= |slots| && slots == Zeroed(old(slots), tail, tail + k) && (0 < k ==> old(gen) == MAX_GEN)
      ensures r.Cut? ==> gen == old(gen) && head == old(head)
      ensures !r.Cut? ==> gen == NextGen(old(gen)) && k == Sweep(old(gen), |slots| - tail)
      ensures !r.Cut? ==> head == if r.Finished? then tail else old(head)
      ensures r.Cut? <==> Short(old(supply.charge), Sweep(old(gen), |old(slots)| - old(tail)) + 1)
      ensures r.Finished? <==> !Short(old(supply.charge), Sweep(old(gen), |old(slots)| - old(tail)) + 2)
    {
      GensInverse(gen);
      k := 0;
      if gen == MAX_GEN {
        var cut;
        cut, k := Invalidate(tail, |slots|, supply);
        if cut { return Cut, k; }
      }
      var m := supply.Draw(1);
      if m < 1 { return Cut, k; }
      gen := NextGen(gen);
      m := supply.Draw(1);
      if m < 1 { return CutBeforeHead, k; }
      head := tail;
      r := Finished;
    }
  }

  /** A recovery that the power failed during, started again, gives the image it would
      have given: for every log outside the last generation, wherever it stopped. */
  lemma RestartRecovery(slots: seq<LogEntry>, slots': seq<LogEntry>, bytes: seq<byte>, bytes': seq<byte>, gen: nat, head: nat,
                        tail: nat, g: nat, t: nat)
    requires head < |slots| && tail < |slots| && !Recycles(gen, head, tail)
    requires Halted(slots, slots', bytes, bytes', gen, head, tail, g, t)
    ensures |slots'| == |slots| && Inside(PlanAll(slots', gen, head, tail), |bytes'|)
    ensures Undo(bytes', PlanAll(slots', gen, head, tail)) == Undo(bytes, PlanAll(slots, gen, head, tail))
  {
    hide Undo, PlanAll, AgreeOff;
    UndoAgrees(bytes, bytes', PlanAll(slots, gen, head, tail));
  }

  /** The lowest slot of a transaction is the same for all its entries. */
  lemma {:induction false} BottomFlat(slots: seq<LogEntry>, g: nat, lo: nat, p: nat, top: nat)
    requires lo <= p <= top < |slots| && Bottom(slots, g, lo, top) <= p
    ensures Bottom(slots, g, lo, p) == Bottom(slots, g, lo, top)
    decreases top
  {
    if p == top {
    } else {
      BottomFlat(slots, g, lo, p, top - 1);
    }
  }

  /** A step of the scan over [lo, hi) to t', taking `part` off the end of the plan. */
  ghost predicate Stepped(slots: seq<LogEntry>, g: nat, lo: nat, hi: nat, t': nat, part: seq<LogEntry>) {
    && lo <= t' < hi <= |slots| && Plan(slots, g, lo, hi) == Plan(slots, g, lo, t') + part
    && Calm(slots, g, lo, hi) == Calm(slots, g, lo, t')
    && forall p: nat :: t' <= p < hi && slots[p].gen == g ==> Bottom(slots, g, lo, p) == t'
  }

  lemma StepBack(slots: seq<LogEntry>, g: nat, lo: nat, hi: nat)
    requires lo < hi <= |slots|
    ensures slots[hi - 1].gen != g ==> Stepped(slots, g, lo, hi, hi - 1, [])
    ensures slots[hi - 1].gen == g && !Collides(slots, g, lo, hi - 1) ==>
              Stepped(slots, g, lo, hi, Bottom(slots, g, lo, hi - 1), Part(slots, g, lo, hi - 1))
    ensures slots[hi - 1].gen == g && Collides(slots, g, lo, hi - 1) ==> !Calm(slots, g, lo, hi)
  {
    hide Bottom, Collides, Part;
    var s := Bottom(slots, g, lo, hi - 1);
    forall p: nat | s <= p < hi ensures Bottom(slots, g, lo, p) == s { BottomFlat(slots, g, lo, p, hi - 1); }
    assert Plan(slots, g, lo, hi - 1) + [] == Plan(slots, g, lo, hi - 1);
  }

  lemma SteppedSame(a: seq<LogEntry>, b: seq<LogEntry>, g: nat, lo: nat, hi: nat, t': nat, part: seq<LogEntry>)
    requires Stepped(a, g, lo, hi, t', part) && SameSlots(a, b, lo, hi)
    ensures Stepped(b, g, lo, hi, t', part)
  {
    hide Plan, Calm, Bottom;
    PlanSame(a, b, g, lo, hi);
    PlanSame(a, b, g, lo, t');
    forall p: nat | t' <= p < hi && b[p].gen == g ensures Bottom(b, g, lo, p) == t' {
      assert a[p].gen == g;
      BottomSame(a, b, g, lo, p);
    }
  }

  /** The state of a scan that stands at t in generation g, having put back `rest`. */
  ghost predicate Scanning(slots0: seq<LogEntry>, slots: seq<LogEntry>, bytes0: seq<byte>, bytes: seq<byte>, gen: nat,
                           head: nat,
                           tail: nat, g: nat, t: nat, rest: seq<LogEntry>, crossed: bool) {
    && head < |slots0| && tail < |slots0| && t < |slots0| && Inside(slots0, |bytes0|) && Inside(rest, |bytes0|)
    && (if crossed then g == PrevGen(gen) && tail < head <= t else g == gen && t <= tail && (head <= tail ==> head <= t))
    && PlanAll(slots0, gen, head, tail) == PlanAll(slots0, g, head, t) + rest && bytes == Undo(bytes0, rest)
    && CalmAll(slots0, gen, head, tail) == CalmAll(slots0, g, head, t)
    && Kept(slots0, slots, gen, head, tail, t, crossed) && Behind(slots0, slots, gen, head, tail, g, t)
  }

  /** What a scan has left of the log. */
  ghost predicate Kept(slots0: seq<LogEntry>, slots: seq<LogEntry>, gen: nat, head: nat, tail: nat, t: nat, crossed: bool) {
    && Erased(slots0, slots) && HeadFirst(slots0, slots, gen, head, tail) && SameLive(slots0, slots, head, t)
    && (!Recycles(gen, head, tail) ==> slots == slots0) && (gen == MAX_GEN ==> ZeroIn(slots, if crossed then 0 else t, tail))
  }

  /** Writes still to come, the invalidation past tail and the header apart. */
  function Remaining(slots: seq<LogEntry>, g: nat, head: nat, t: nat): nat
    requires head <= |slots| && t <= |slots|
  {
    Size(PlanAll(slots, g, head, t)) + ToSweep(|slots|, g, head, t)
  }

  ghost predicate Paid(charge0: Charge, charge: Charge, slots: seq<LogEntry>, gen: nat, head: nat, tail: nat, g: nat, t: nat)
    requires head <= |slots| && tail <= |slots| && t <= |slots|
  {
    && Remaining(slots, g, head, t) <= Remaining(slots, gen, head, tail)
    && var n := Remaining(slots, gen, head, tail) - Remaining(slots, g, head, t);
       !Short(charge0, n) && charge == Minus(charge0, n)
  }

  lemma ScanStarts(slots: seq<LogEntry>, bytes: seq<byte>, gen: nat, head: nat, tail: nat, charge: Charge)
    requires head < |slots| && tail < |slots| && Inside(slots, |bytes|)
    ensures Scanning(slots, slots, bytes, bytes, gen, head, tail, gen, tail, [], false)
    ensures Paid(charge, charge, slots, gen, head, tail, gen, tail)
  {
    hide Plan, Calm, CalmAll, PlanAll, Bottom;
    assert PlanAll(slots, gen, head, tail) + [] == PlanAll(slots, gen, head, tail);
  }

  lemma ScanInside(slots0: seq<LogEntry>, slots: seq<LogEntry>, bytes0: seq<byte>, bytes: seq<byte>, gen: nat, head: nat,
                   tail: nat, g: nat, t: nat, rest: seq<LogEntry>, crossed: bool)
    requires Scanning(slots0, slots, bytes0, bytes, gen, head, tail, g, t, rest, crossed)
    ensures |slots| == |slots0| && |bytes| == |bytes0| && Inside(slots, |bytes|)
  {
    hide PlanAll, CalmAll, Undo, HeadFirst, SameLive;
    ErasedInside(slots0, slots, |bytes0|);
  }

  lemma ErasedInside(a: seq<LogEntry>, b: seq<LogEntry>, size: nat)
    requires Erased(a, b) && Inside(a, size)
    ensures Inside(b, size)
  {
    forall e | e in b ensures e.addr + |e.data| <= size {
      var i :| 0 <= i < |b| && b[i] == e;
      assert a[i] in a;
    }
  }

  /** The slots of the next step are as they were. */
  lemma StillThere(slots0: seq<LogEntry>, slots: seq<LogEntry>, head: nat, t: nat)
    requires SameLive(slots0, slots, head, t) && head < |slots0| && t < |slots0| && head != t
    ensures var hi := ScanHi(|slots0|, t); SameSlots(slots0, slots, ScanLo(head, hi - 1), hi)
  {
  }

  lemma ScanPanics(slots0: seq<LogEntry>, slots: seq<LogEntry>, bytes0: seq<byte>, bytes: seq<byte>, gen: nat, head: nat,
                   tail: nat, g: nat, t: nat, rest: seq<LogEntry>, crossed: bool)
    requires Scanning(slots0, slots, bytes0, bytes, gen, head, tail, g, t, rest, crossed) && head != t && |slots| == |slots0|
    requires var hi := ScanHi(|slots|, t); !Calm(slots, ScanGen(g, t), ScanLo(head, hi - 1), hi)
    ensures !CalmAll(slots0, gen, head, tail)
  {
    hide Calm, Plan, PlanAll, CalmAll, Undo, HeadFirst, SameLive, Inside, PrevGen;
    var hi := ScanHi(|slots|, t);
    StillThere(slots0, slots, head, t);
    PlanSame(slots0, slots, ScanGen(g, t), ScanLo(head, hi - 1), hi);
    PlanSplit(slots0, g, head, t);
  }

  lemma SameStep(slots0: seq<LogEntry>, slots: seq<LogEntry>, bytes0: seq<byte>, bytes: seq<byte>, gen: nat, head: nat,
                 tail: nat, g: nat, t: nat, rest: seq<LogEntry>, crossed: bool, t': nat, part: seq<LogEntry>)
    requires Scanning(slots0, slots, bytes0, bytes, gen, head, tail, g, t, rest, crossed) && head != t && |slots| == |slots0|
    requires var hi := ScanHi(|slots|, t); Stepped(slots, ScanGen(g, t), ScanLo(head, hi - 1), hi, t', part)
    ensures var hi := ScanHi(|slots|, t); Stepped(slots0, ScanGen(g, t), ScanLo(head, hi - 1), hi, t', part)
    ensures ScanLo(head, ScanHi(|slots|, t) - 1) <= t' < ScanHi(|slots|, t) <= |slots0|
    ensures PlanAll(slots0, g, head, t) == PlanAll(slots0, ScanGen(g, t), head, t') + part
    ensures CalmAll(slots0, g, head, t) == CalmAll(slots0, ScanGen(g, t), head, t')
  {
    hide Calm, Plan, PlanAll, CalmAll, Undo, HeadFirst, SameLive, Inside, PrevGen, Bottom;
    var hi := ScanHi(|slots|, t);
    StillThere(slots0, slots, head, t);
    SteppedSame(slots, slots0, ScanGen(g, t), ScanLo(head, hi - 1), hi, t', part);
    OneBack(slots0, g, head, t, t', part);
  }

  lemma PaidStep(charge0: Charge, charge: Charge, charge': Charge, slots: seq<LogEntry>, gen: nat, head: nat, tail: nat,
                 g: nat, t: nat, t': nat, part: seq<LogEntry>, n: nat, cut: bool)
    requires head < |slots| && tail < |slots| && t < |slots| && head != t && t' < |slots|
    requires Paid(charge0, charge, slots, gen, head, tail, g, t)
    requires ScanLo(head, ScanHi(|slots|, t) - 1) <= t' < ScanHi(|slots|, t)
    requires PlanAll(slots, g, head, t) == PlanAll(slots, ScanGen(g, t), head, t') + part
    requires n == Size(part) + Sweep(ScanGen(g, t), ScanHi(|slots|, t) - t')
    requires (cut <==> Short(charge, n)) && (!cut ==> charge' == Minus(charge, n))
    ensures cut ==> Short(charge0, RecoveryWrites(slots, gen, head, tail) + 1)
    ensures !cut ==> Paid(charge0, charge', slots, gen, head, tail, ScanGen(g, t), t')
  {
    hide PlanAll, Size, PrevGen;
    SizeAppend(PlanAll(slots, ScanGen(g, t), head, t'), part);
  }

  lemma PaidUp(charge0: Charge, charge: Charge, slots: seq<LogEntry>, gen: nat, head: nat, tail: nat, g: nat)
    requires head < |slots| && tail < |slots| && Paid(charge0, charge, slots, gen, head, tail, g, head)
    ensures forall n: nat :: Short(charge, n) <==> Short(charge0, Remaining(slots, gen, head, tail) + n)
  {
    hide Plan, Size, PrevGen;
    Scanned(slots, g, head);
    NoEntries([], slots, g, head);
  }

  lemma ScanOn(slots0: seq<LogEntry>, was: seq<LogEntry>, now: seq<LogEntry>, bytes0: seq<byte>, b: seq<byte>, b': seq<byte>,
               gen: nat, head: nat, tail: nat, g: nat, t: nat, rest: seq<LogEntry>, crossed: bool, t': nat,
               part: seq<LogEntry>, k: nat)
    requires Scanning(slots0, was, bytes0, b, gen, head, tail, g, t, rest, crossed) && head != t && |was| == |slots0|
    requires 0 < gen <= MAX_GEN && t' < |slots0|
    requires PlanAll(slots0, g, head, t) == PlanAll(slots0, ScanGen(g, t), head, t') + part
    requires CalmAll(slots0, g, head, t) == CalmAll(slots0, ScanGen(g, t), head, t')
    requires var hi := ScanHi(|was|, t);
             && Stepped(slots0, ScanGen(g, t), ScanLo(head, hi - 1), hi, t', part)
             && Worked(was, now, b, b', ScanGen(g, t), t', hi, part, k, false)
    ensures |now| == |was|
    ensures Scanning(slots0, now, bytes0, b', gen, head, tail, ScanGen(g, t), t', part + rest, crossed || t == 0)
  {
    hide Calm, Plan, PlanAll, CalmAll, Undo, Inside, Kept, PrevGen, Bottom, Behind;
    InsideBoth(part, rest, |bytes0|);
    UndoAppend(bytes0, part, rest);
    assert PlanAll(slots0, ScanGen(g, t), head, t') + part + rest == PlanAll(slots0, ScanGen(g, t), head, t') + (part + rest);
    KeptOn(slots0, was, now, gen, head, tail, g, t, crossed, t', part, k);
    BehindOn(slots0, was, now, gen, head, tail, g, t, crossed, t', part, k);
  }

  lemma BehindOn(slots0: seq<LogEntry>, was: seq<LogEntry>, now: seq<LogEntry>, gen: nat, head: nat, tail: nat, g: nat,
                 t: nat,
                 crossed: bool, t': nat, part: seq<LogEntry>, k: nat)
    requires head < |slots0| == |was| && tail < |slots0| && t < |slots0| && head != t
    requires Behind(slots0, was, gen, head, tail, g, t)
    requires if crossed then g == PrevGen(gen) && tail < head <= t else g == gen && t <= tail && (head <= tail ==> head <= t)
    requires var hi := ScanHi(|was|, t);
             && Stepped(slots0, ScanGen(g, t), ScanLo(head, hi - 1), hi, t', part)
             && t' + k <= hi && now == Zeroed(was, t', t' + k)
    requires PlanAll(slots0, g, head, t) == PlanAll(slots0, ScanGen(g, t), head, t') + part
    ensures Behind(slots0, now, gen, head, tail, ScanGen(g, t), t')
  {
    hide Plan, Calm, PrevGen, PlanAll, Bottom;
    forall p: nat | p < |slots0| && InUseSlot(|slots0|, head, tail, p) && StartsAt(slots0, GenAt(gen, head, tail, p), p) &&
                    now[p].gen != slots0[p].gen
      ensures PlanAll(slots0, ScanGen(g, t), head, t') <= PlanAll(slots0, GenAt(gen, head, tail, p), head, p)
    {
      if t' <= p < t' + k {
        assert GenAt(gen, head, tail, p) == ScanGen(g, t);
        StartIsBottom(slots0, ScanGen(g, t), ScanLo(head, p), p);
      } else {
        assert PlanAll(slots0, g, head, t) <= PlanAll(slots0, GenAt(gen, head, tail, p), head, p);
      }
    }
  }

  lemma StartIsBottom(slots: seq<LogEntry>, g: nat, lo: nat, p: nat)
    requires lo <= p < |slots| && StartsAt(slots, g, p)
    ensures Bottom(slots, g, lo, p) == p
  {
  }

  lemma InsideBoth(a: seq<LogEntry>, b: seq<LogEntry>, size: nat)
    requires Inside(a, size) && Inside(b, size)
    ensures Inside(a + b, size)
  {
  }

  /** Invalidating the slots of a step from below. */
  lemma KeptOn(slots0: seq<LogEntry>, was: seq<LogEntry>, now: seq<LogEntry>, gen: nat, head: nat, tail: nat, g: nat, t: nat,
               crossed: bool, t': nat, part: seq<LogEntry>, k: nat)
    requires head < |slots0| && tail < |slots0| && t < |slots0| && head != t && Kept(slots0, was, gen, head, tail, t, crossed)
    requires if crossed then g == PrevGen(gen) && tail < head <= t else g == gen && t <= tail && (head <= tail ==> head <= t)
    requires 0 < gen <= MAX_GEN
    requires var hi := ScanHi(|was|, t);
             && Stepped(slots0, ScanGen(g, t), ScanLo(head, hi - 1), hi, t', part)
             && t' + k <= hi && now == Zeroed(was, t', t' + k) && (0 < k ==> ScanGen(g, t) == MAX_GEN)
    ensures Erased(slots0, now) && HeadFirst(slots0, now, gen, head, tail) && SameLive(slots0, now, head, t')
    ensures !Recycles(gen, head, tail) ==> now == slots0
    ensures k == Sweep(ScanGen(g, t), ScanHi(|was|, t) - t') ==> Kept(slots0, now, gen, head, tail, t', crossed || t == 0)
  {
    hide Plan, Calm, HeadFirst, PrevGen, Bottom;
    HeadsOn(slots0, was, now, gen, head, tail, g, t, crossed, t', part, k);
    GensInverse(gen);
  }

  lemma HeadsOn(slots0: seq<LogEntry>, was: seq<LogEntry>, now: seq<LogEntry>, gen: nat, head: nat, tail: nat, g: nat, t: nat,
                crossed: bool, t': nat, part: seq<LogEntry>, k: nat)
    requires head < |slots0| && tail < |slots0| && t < |slots0| && head != t && HeadFirst(slots0, was, gen, head, tail)
    requires if crossed then g == PrevGen(gen) && tail < head <= t else g == gen && t <= tail && (head <= tail ==> head <= t)
    requires var hi := ScanHi(|was|, t);
             && Stepped(slots0, ScanGen(g, t), ScanLo(head, hi - 1), hi, t', part)
             && t' + k <= hi && now == Zeroed(was, t', t' + k)
    ensures HeadFirst(slots0, now, gen, head, tail)
  {
    hide Plan, Calm, PrevGen, Bottom;
    forall p: nat | p < |slots0| && InUseSlot(|slots0|, head, tail, p) && slots0[p].gen == GenAt(gen, head, tail, p) != now[p].gen
      ensures now[Bottom(slots0, GenAt(gen, head, tail, p), ScanLo(head, p), p)].gen == 0
    {
      if t' <= p < t' + k {
        assert GenAt(gen, head, tail, p) == ScanGen(g, t) && ScanLo(head, p) == ScanLo(head, ScanHi(|was|, t) - 1);
      } else {
        assert was[Bottom(slots0, GenAt(gen, head, tail, p), ScanLo(head, p), p)].gen == 0;
      }
    }
  }

  /** Power fails in the middle of a step. */
  lemma ScanCut(slots0: seq<LogEntry>, was: seq<LogEntry>, now: seq<LogEntry>, bytes0: seq<byte>, b: seq<byte>, b': seq<byte>,
                gen: nat, head: nat, tail: nat, g: nat, t: nat, rest: seq<LogEntry>, crossed: bool, t': nat,
                part: seq<LogEntry>, k: nat) returns (g1: nat, t1: nat)
    requires Scanning(slots0, was, bytes0, b, gen, head, tail, g, t, rest, crossed) && head != t && |was| == |slots0|
    requires 0 < gen <= MAX_GEN && t' < |slots0|
    requires PlanAll(slots0, g, head, t) == PlanAll(slots0, ScanGen(g, t), head, t') + part
    requires var hi := ScanHi(|was|, t);
             && Stepped(slots0, ScanGen(g, t), ScanLo(head, hi - 1), hi, t', part)
             && Worked(was, now, b, b', ScanGen(g, t), t', hi, part, k, true)
    ensures |now| == |was| && Halted(slots0, now, bytes0, b', gen, head, tail, g1, t1)
  {
    hide Calm, Plan, PlanAll, CalmAll, Undo, Inside, PrevGen, Bottom, AgreeOff, HeadFirst, SameLive, Behind;
    var plan, above := PlanAll(slots0, gen, head, tail), PlanAll(slots0, ScanGen(g, t), head, t');
    AllInside(slots0, gen, head, tail, |bytes0|);
    KeptOn(slots0, was, now, gen, head, tail, g, t, crossed, t', part, k);
    UndoStays(bytes0, rest);
    assert plan == above + part + rest && above + part + rest == above + (part + rest);
    BehindOn(slots0, was, now, gen, head, tail, g, t, crossed, t', part, k);
    if k == 0 {
      g1, t1 := g, t;
      assert now == was;
      CutUndoing(bytes0, b, b', above, part, rest);
      PlanKept(slots0, now, gen, g, head, t);
    } else {
      g1, t1 := ScanGen(g, t), t';
      CutErasing(bytes0, b, b', above, part, rest);
      PlanKept(slots0, now, gen, g1, head, t1);
    }
  }

  lemma CutUndoing(bytes0: seq<byte>, b: seq<byte>, b': seq<byte>, above: seq<LogEntry>, part: seq<LogEntry>,
                   rest: seq<LogEntry>)
    requires Inside(above + part + rest, |bytes0|) && Inside(rest, |bytes0|) && b == Undo(bytes0, rest)
    requires AgreeOff(b, b', part)
    ensures Inside(above + part, |bytes0|) && Undo(b', above + part) == Undo(bytes0, above + part + rest)
    ensures AgreeOff(bytes0, b', above + part + rest)
  {
    hide Undo, AgreeOff;
    UndoAppend(bytes0, above + part, rest);
    AgreeOffMore(b, b', above, part, []);
    assert above + part + [] == above + part;
    UndoAgrees(b, b', above + part);
    UndoStays(bytes0, rest);
    AgreeOffMore(bytes0, b, above + part, rest, []);
    assert above + part + rest + [] == above + part + rest;
    AgreeOffMore(b, b', above, part, rest);
    AgreeOffTwice(bytes0, b, b', above + part + rest);
  }

  lemma CutErasing(bytes0: seq<byte>, b: seq<byte>, b': seq<byte>, above: seq<LogEntry>, part: seq<LogEntry>,
                   rest: seq<LogEntry>)
    requires Inside(above + part + rest, |bytes0|) && Inside(rest, |bytes0|) && b == Undo(bytes0, rest)
    requires Inside(part, |b|) && b' == Undo(b, part)
    ensures Inside(above, |bytes0|) && Undo(b', above) == Undo(bytes0, above + part + rest)
    ensures AgreeOff(bytes0, b', above + part + rest)
  {
    hide Undo, AgreeOff;
    UndoAppend(bytes0, above + part, rest);
    UndoAppend(b, above, part);
    UndoStays(b, part);
    CutUndoing(bytes0, b, b', above, part, rest);
  }

  /** The plan below t depends on the slots below t. */
  lemma PlanKept(slots0: seq<LogEntry>, now: seq<LogEntry>, gen: nat, g: nat, head: nat, t: nat)
    requires head < |slots0| && t < |slots0| && SameLive(slots0, now, head, t)
    ensures PlanAll(now, g, head, t) == PlanAll(slots0, g, head, t)
  {
    hide Plan, Calm, PrevGen;
    if head <= t {
      PlanSame(slots0, now, g, head, t);
    } else {
      PlanSame(slots0, now, PrevGen(g), head, |now|);
      PlanSame(slots0, now, g, 0, t);
    }
  }

  lemma ScanEnds(slots0: seq<LogEntry>, scanned: seq<LogEntry>, now: seq<LogEntry>, bytes0: seq<byte>, bytes: seq<byte>,
                 gen: nat, head: nat, tail: nat, g: nat, rest: seq<LogEntry>, crossed: bool, k: nat)
    requires Scanning(slots0, scanned, bytes0, bytes, gen, head, tail, g, head, rest, crossed)
    requires tail + k <= |scanned| && now == Zeroed(scanned, tail, tail + k) && (0 < k ==> gen == MAX_GEN)
    ensures CalmAll(slots0, gen, head, tail) && Inside(PlanAll(slots0, gen, head, tail), |bytes0|)
    ensures bytes == Undo(bytes0, PlanAll(slots0, gen, head, tail))
    ensures Halted(slots0, now, bytes0, bytes, gen, head, tail, g, head)
    ensures Erased(slots0, now) && (!Recycles(gen, head, tail) ==> now == slots0)
    ensures gen == MAX_GEN && k == |scanned| - tail ==> ZeroIn(now, ScanLo(head, tail), |now|)
  {
    hide Calm, Plan, PlanAll, CalmAll, Undo, Inside, PrevGen, Bottom, AgreeOff, HeadFirst, Behind, SameLive;
    Scanned(slots0, g, head);
    Scanned(now, g, head);
    NothingLeft(slots0, now, gen, head, tail, g);
    assert [] + rest == rest;
    NoEntries(bytes, slots0, g, head);
    UndoStays(bytes0, rest);
    HeadsPast(slots0, scanned, now, gen, head, tail, k);
  }

  lemma NothingLeft(slots0: seq<LogEntry>, now: seq<LogEntry>, gen: nat, head: nat, tail: nat, g: nat)
    requires head < |slots0| == |now|
    ensures Behind(slots0, now, gen, head, tail, g, head) && SameLive(slots0, now, head, head)
  {
    hide Plan, PlanAll, PrevGen;
    Scanned(slots0, g, head);
  }

  /** Invalidation from tail on takes whole prefixes of what lies there. */
  lemma HeadsPast(slots0: seq<LogEntry>, was: seq<LogEntry>, now: seq<LogEntry>, gen: nat, head: nat, tail: nat, k: nat)
    requires head < |slots0| && tail < |slots0| && HeadFirst(slots0, was, gen, head, tail)
    requires tail + k <= |was| && now == Zeroed(was, tail, tail + k)
    ensures HeadFirst(slots0, now, gen, head, tail)
  {
    hide PrevGen, Bottom;
  }

  lemma AllInside(slots: seq<LogEntry>, gen: nat, head: nat, tail: nat, size: nat)
    requires head <= |slots| && tail <= |slots| && Inside(slots, size)
    ensures Inside(PlanAll(slots, gen, head, tail), size)
  {
    hide Plan;
    PlanFrom(slots, gen, head, tail, size);
    PlanFrom(slots, PrevGen(gen), head, |slots|, size);
    PlanFrom(slots, gen, 0, tail, size);
  }

  lemma Scanned(slots: seq<LogEntry>, g: nat, head: nat)
    requires head <= |slots|
    ensures CalmAll(slots, g, head, head) && PlanAll(slots, g, head, head) == []
  {
  }

  lemma PartInside(slots: seq<LogEntry>, g: nat, lo: nat, p: nat, size: nat)
    requires lo <= p < |slots| && Inside(slots, size)
    ensures Inside(Part(slots, g, lo, p), size)
  {
    EntriesInside(slots, g, Bottom(slots, g, lo, p), p + 1, size);
  }

  /** The do-while of pmfs_recover_transaction. */
  method WalkBack(slots: seq<LogEntry>, head: nat, top: nat)
    returns (low: nat, startFound: bool, cmtOrAbrt: bool, panic: bool)
    requires top < |slots|
    ensures var lo := if head <= top then head else 0; var g := slots[top].gen;
            && panic == Collides(slots, g, lo, top)
            && low == Bottom(slots, g, lo, top)
            && (!panic ==> startFound == StartsAt(slots, g, low) && cmtOrAbrt == Ends(slots[top]))
  {
    ghost var lo := if head <= top then head else 0;
    var g := slots[top].gen;
    low, startFound, cmtOrAbrt, panic := top, false, false, false;
    while true
      invariant lo <= low <= top && !startFound && !panic
      invariant Bottom(slots, g, lo, top) == Bottom(slots, g, lo, low)
      invariant cmtOrAbrt == (low < top && Ends(slots[top]))
      invariant low < top ==> !(slots[low].gen == g && Ends(slots[low]))
      decreases low
    {
      if g == slots[low].gen {
        if Ends(slots[low]) { cmtOrAbrt := true; }
        if slots[low].start {
          startFound := true;
          break;
        }
      }
      if low == 0 || low == head { break; }
      if g == slots[low - 1].gen && Ends(slots[low - 1]) {
        panic := slots[top].tid == slots[low - 1].tid;
        break;
      }
      low := PrevEntry(|slots|, low);
    }
  }

  // ---------------------------------------------------------------- well-formed logs

  /** A reservation of `size` slots at `base`, the first `used` of them written;
      `ended` once its last entry is a commit or an abort. */
  datatype Tr = Tr(base: nat, used: nat, size: nat, ended: bool)

  /** The reservation as it stands in the log: valid entries, the first marked
      START, then slots that hold nothing of this generation. */
  ghost predicate Region(slots: seq<LogEntry>, g: nat, t: Tr) {
    && t.used <= t.size && 0 < t.size && t.base + t.size <= |slots| && (t.ended ==> 0 < t.used)
    && (forall p :: t.base <= p < t.base + t.used ==>
          && slots[p].gen == g
          && (slots[p].start <==> p == t.base)
          && (Ends(slots[p]) <==> t.ended && p == t.base + t.used - 1))
    && (forall p :: t.base + t.used <= p < t.base + t.size ==> slots[p].gen != g)
  }

  /** Slots [lo, hi) are a row of reservations. */
  ghost predicate Segment(slots: seq<LogEntry>, g: nat, lo: nat, hi: nat, ts: seq<Tr>) {
    hi <= |slots| &&
    if ts == [] then lo == hi
    else var t := ts[|ts| - 1];
         lo <= t.base && t.base + t.size == hi && Region(slots, g, t) && Segment(slots, g, lo, t.base, ts[..|ts| - 1])
  }

  function Own(slots: seq<LogEntry>, t: Tr): seq<LogEntry>
    requires t.base + t.used <= |slots|
  {
    if t.ended then [] else slots[t.base..t.base + t.used]
  }

  /** The entries of the transactions that neither committed nor aborted. */
  ghost function Pending(slots: seq<LogEntry>, g: nat, lo: nat, hi: nat, ts: seq<Tr>): seq<LogEntry>
    requires Segment(slots, g, lo, hi, ts)
  {
    if ts == [] then []
    else var t := ts[|ts| - 1]; Pending(slots, g, lo, t.base, ts[..|ts| - 1]) + Own(slots, t)
  }

  /** A scan of a row of reservations undoes exactly the unfinished ones. */
  lemma {:induction false} PlanIsPending(slots: seq<LogEntry>, g: nat, lo: nat, hi: nat, ts: seq<Tr>)
    requires Segment(slots, g, lo, hi, ts)
    ensures Calm(slots, g, lo, hi) && Plan(slots, g, lo, hi) == Pending(slots, g, lo, hi, ts)
    decreases |ts|
  {
    hide Plan, Calm, Region, Own;
    if ts == [] {
      CalmEmpty(slots, g, lo);
    } else {
      var t := ts[|ts| - 1];
      PlanIsPending(slots, g, lo, t.base, ts[..|ts| - 1]);
      ScanRegion(slots, g, lo, t);
    }
  }

  lemma ScanRegion(slots: seq<LogEntry>, g: nat, lo: nat, t: Tr)
    requires Region(slots, g, t) && lo <= t.base
    ensures t.used <= t.size && t.base + t.size <= |slots|
    ensures Plan(slots, g, lo, t.base + t.size) == Plan(slots, g, lo, t.base) + Own(slots, t)
    ensures Calm(slots, g, lo, t.base + t.size) == Calm(slots, g, lo, t.base)
  {
    hide Plan, Calm;
    SkipUnused(slots, g, lo, t.base + t.used, t.base + t.size);
    if t.used > 0 {
      TakeRegion(slots, g, lo, t);
    } else {
      assert Own(slots, t) == [];
    }
  }

  lemma {:induction false} SkipUnused(slots: seq<LogEntry>, g: nat, lo: nat, a: nat, b: nat)
    requires lo <= a <= b <= |slots| && forall p :: a <= p < b ==> slots[p].gen != g
    ensures Plan(slots, g, lo, b) == Plan(slots, g, lo, a) && Calm(slots, g, lo, b) == Calm(slots, g, lo, a)
    decreases b
  {
    if b <= a {
    } else {
      SkipUnused(slots, g, lo, a, b - 1);
    }
  }

  lemma TakeRegion(slots: seq<LogEntry>, g: nat, lo: nat, t: Tr)
    requires Region(slots, g, t) && lo <= t.base && 0 < t.used
    ensures Plan(slots, g, lo, t.base + t.used) == Plan(slots, g, lo, t.base) + Own(slots, t)
    ensures Calm(slots, g, lo, t.base + t.used) == Calm(slots, g, lo, t.base)
  {
    hide Bottom, Entries, Region;
    var p := t.base + t.used - 1;
    RegionEnds(slots, g, t);
    WalkToStart(slots, g, lo, t, p);
    AllValid(slots, g, t.base, p + 1);
  }

  lemma RegionEnds(slots: seq<LogEntry>, g: nat, t: Tr)
    requires Region(slots, g, t) && 0 < t.used
    ensures t.base + t.used <= |slots| && StartsAt(slots, g, t.base)
    ensures forall p :: t.base <= p < t.base + t.used ==> slots[p].gen == g
    ensures Ends(slots[t.base + t.used - 1]) <==> t.ended
  {
  }

  lemma {:induction false} WalkToStart(slots: seq<LogEntry>, g: nat, lo: nat, t: Tr, p: nat)
    requires Region(slots, g, t) && lo <= t.base <= p < t.base + t.used
    ensures Bottom(slots, g, lo, p) == t.base
    decreases p
  {
    if p == t.base {
    } else {
      WalkToStart(slots, g, lo, t, p - 1);
    }
  }

  lemma {:induction false} AllValid(slots: seq<LogEntry>, g: nat, a: nat, b: nat)
    requires a <= b <= |slots| && forall p :: a <= p < b ==> slots[p].gen == g
    ensures Entries(slots, g, a, b) == slots[a..b]
    decreases b
  {
    if b <= a {
    } else {
      AllValid(slots, g, a, b - 1);
      assert slots[a..b] == slots[a..b - 1] + [slots[b - 1]];
    }
  }

  /** The whole journal: `lower` ends at tail; `upper` is what lies before the wrap. */
  ghost predicate Image(slots: seq<LogEntry>, gen: nat, head: nat, tail: nat, upper: seq<Tr>, lower: seq<Tr>) {
    if head <= tail then upper == [] && Segment(slots, gen, head, tail, lower)
    else Segment(slots, PrevGen(gen), head, |slots|, upper) && Segment(slots, gen, 0, tail, lower)
  }

  ghost function AllPending(slots: seq<LogEntry>, gen: nat, head: nat, tail: nat, upper: seq<Tr>,
                            lower: seq<Tr>): seq<LogEntry>
    requires Image(slots, gen, head, tail, upper, lower)
  {
    if head <= tail then Pending(slots, gen, head, tail, lower)
    else Pending(slots, PrevGen(gen), head, |slots|, upper) + Pending(slots, gen, 0, tail, lower)
  }

  /** On a well-formed log recovery meets no BUG_ON and undoes exactly the
      transactions that are not finished, as one sequence in log order. */
  lemma PlanOfImage(slots: seq<LogEntry>, gen: nat, head: nat, tail: nat, upper: seq<Tr>, lower: seq<Tr>)
    requires head < |slots| && tail < |slots| && Image(slots, gen, head, tail, upper, lower)
    ensures CalmAll(slots, gen, head, tail)
    ensures PlanAll(slots, gen, head, tail) == AllPending(slots, gen, head, tail, upper, lower)
  {
    hide Plan, Calm, Segment, Pending, PrevGen;
    if head <= tail {
      PlanIsPending(slots, gen, head, tail, lower);
    } else {
      PlanIsPending(slots, PrevGen(gen), head, |slots|, upper);
      PlanIsPending(slots, gen, 0, tail, lower);
    }
  }
}
