/** Whole runs of the journal: any sequence of transactions, cleanings and restarts,
    with the file system obeying the undo discipline (log before store) and the power
    failing at any single write, in transactions, cleanings and recoveries alike. */
module JournalRun {
  import opened Codec
  import opened Allocator
  import opened Power
  import opened Journal
  import opened LogShape
  import opened Transaction
  import opened Crash
  import opened Cleaner

  /** What a transaction does: log a range of bytes, or store into logged bytes. */
  datatype Step = LogRange(addr: nat, len: nat) | Write(addr: nat, data: seq<byte>)

  /** A transaction that commits or aborts, a cleaning, or a mount after a reboot; each
      with the charge left for it. */
  datatype Op = Script(max: nat, steps: seq<Step>, commits: bool, charge: Charge) | Clean(charge: Charge) | Restart(charge: Charge)

  /** Completed, refused for want of room, cut by a power failure, or not possible
      before recovery has completed. */
  datatype Outcome = Ran | Full | PowerCut | Off

  // ---------------------------------------------------------------- scripts

  /** Entries the steps need. */
  function Needs(steps: seq<Step>): nat {
    if steps == [] then 0
    else Needs(steps[..|steps| - 1]) + match steps[|steps| - 1] case LogRange(_, len) => EntriesFor(len) case Write(_, _) => 0
  }

  /** Byte x is in a range logged by the first n steps. */
  predicate LoggedBy(steps: seq<Step>, n: nat, x: nat)
    requires n <= |steps|
  {
    exists i :: 0 <= i < n && steps[i].LogRange? && steps[i].addr <= x < steps[i].addr + steps[i].len
  }

  /** Ranges lie in memory, and every store goes to bytes logged before. */
  ghost predicate Disciplined(steps: seq<Step>, size: nat) {
    forall n :: 0 <= n < |steps| ==> StepOK(steps, n, size)
  }

  ghost predicate StepOK(steps: seq<Step>, n: nat, size: nat)
    requires n < |steps|
  {
    match steps[n]
    case LogRange(addr, len) => addr + len <= size
    case Write(addr, data) => addr + |data| <= size && forall x :: addr <= x < addr + |data| ==> LoggedBy(steps, n, x)
  }

  /** The image after the stores of a transaction. */
  function AfterSteps(bytes: seq<byte>, steps: seq<Step>): (r: seq<byte>)
    ensures |r| == |bytes|
    decreases |steps|
  {
    if steps == [] then bytes
    else var b := AfterSteps(bytes, steps[..|steps| - 1]);
         match steps[|steps| - 1]
         case LogRange(_, _) => b
         case Write(addr, data) => if addr + |data| <= |b| then Patch(b, addr, data) else b
  }

  /** Writes of one step: two for each log entry, one for each byte stored. */
  function StepWrites(step: Step): nat {
    match step case LogRange(_, len) => 2 * EntriesFor(len) case Write(_, data) => |data|
  }

  function StepsWrites(steps: seq<Step>): nat {
    if steps == [] then 0 else StepsWrites(steps[..|steps| - 1]) + StepWrites(steps[|steps| - 1])
  }

  /** Bytes logged in all. */
  function LoggedBytes(steps: seq<Step>): nat {
    if steps == [] then 0
    else LoggedBytes(steps[..|steps| - 1]) + match steps[|steps| - 1] case LogRange(_, len) => len case Write(_, _) => 0
  }

  /** Writes of a whole transaction: the reservation, the steps, the undo of an
      abort, and the two of the final record. */
  function ScriptWrites(n: nat, h: Header, op: Op): nat
    requires op.Script?
  {
    ReserveWrites(n, h.head, h.tail, op.max + 1) +
    if HasRoom(n, h.head, h.tail, op.max + 1)
    then StepsWrites(op.steps) + (if op.commits then 0 else LoggedBytes(op.steps)) + 2 else 0
  }

  // ---------------------------------------------------------------- what a run should do

  /** How an operation ends, from the log, its header, and whether the journal is up. */
  function ResultOf(slots: seq<LogEntry>, h: Header, up: bool, op: Op): Outcome
    requires h.head < |slots| && h.tail < |slots|
  {
    match op
    case Script(max, _, _, charge) =>
      if !up then Off
      else if Short(charge, ScriptWrites(|slots|, h, op)) then PowerCut
      else if HasRoom(|slots|, h.head, h.tail, max + 1) then Ran else Full
    case Clean(charge) =>
      if !up then Off else if Short(charge, ToSweep(|slots|, h.gen, h.head, h.tail) + 1) then PowerCut else Ran
    case Restart(charge) =>
      if h.head != h.tail && Short(charge, RecoveryWrites(slots, h.gen, h.head, h.tail) + 2) then PowerCut else Ran
  }

  /** Whether the journal is up afterwards. */
  predicate UpAfter(up: bool, op: Op, r: Outcome) {
    if op.Restart? then r.Ran? else up && !r.PowerCut?
  }

  /** The header after an operation that was not cut. */
  function HeaderAfter(n: nat, h: Header, op: Op, r: Outcome): Header {
    if r.Off? then h
    else match op
         case Script(max, _, _, _) => Reserved(n, h, max + 1)
         case Clean(_) => Header(h.tail, h.tail, h.gen)
         case Restart(_) => Header(h.tail, h.tail, if h.head == h.tail then h.gen else NextGen(h.gen))
  }

  /** All or nothing: only a transaction that ran to its commit changes the image. */
  function After(bytes: seq<byte>, op: Op, r: Outcome): (b: seq<byte>)
    ensures |b| == |bytes|
  {
    if op.Script? && op.commits && r.Ran? then AfterSteps(bytes, op.steps) else bytes
  }

  function AfterAll(bytes: seq<byte>, ops: seq<Op>, rs: seq<Outcome>): (b: seq<byte>)
    requires |ops| == |rs|
    ensures |b| == |bytes|
    decreases |ops|
  {
    if ops == [] then bytes else After(AfterAll(bytes, ops[..|ops| - 1], rs[..|rs| - 1]), ops[|ops| - 1], rs[|rs| - 1])
  }

  ghost predicate Acceptable(op: Op, size: nat) {
    op.Script? ==> Needs(op.steps) <= op.max && Disciplined(op.steps, size)
  }

  /** The journal between two operations. */
  datatype Point = Point(slots: seq<LogEntry>, header: Header, up: bool)

  ghost function PointOf(j: Log, up: bool): Point
    reads j
  {
    Point(j.slots, HeaderOf(j), up)
  }

  /** From one point to the next. */
  ghost predicate Follows(a: Point, op: Op, r: Outcome, b: Point) {
    && a.header.head < |a.slots| && a.header.tail < |a.slots|
    && r == ResultOf(a.slots, a.header, a.up, op) && b.up == UpAfter(a.up, op, r)
    && (!r.PowerCut? ==> b.header == HeaderAfter(|a.slots|, a.header, op, r))
  }

  /** Recovery, or a wrap of the tail, would move on to a generation that occurs in the log. */
  predicate Worn(slots: seq<LogEntry>, h: Header, up: bool, op: Op) {
    match op
    case Script(max, _, _, _) => up && Wraps(|slots|, h.head, h.tail, max + 1) && !NoneOf(slots, NextGen(h.gen))
    case Clean(_) => false
    case Restart(_) => h.head != h.tail && !Unused(slots, h.gen)
  }

  /** That is: some slot carries the next generation already, and the operation is a
      recovery, outside the last generation, with something to recover, or a request that
      passes the end of the log while more slots are free than it asks for. */
  lemma WornIff(slots: seq<LogEntry>, h: Header, up: bool, op: Op)
    requires h.head < |slots| && h.tail < |slots|
    ensures Worn(slots, h, up, op) <==>
              && (exists p :: 0 <= p < |slots| && slots[p].gen == NextGen(h.gen))
              && match op
                 case Script(max, _, _, _) => up && |slots| <= h.tail + max + 1 && max + 1 < |FreeSlots(|slots|, h.head, h.tail)|
                 case Clean(_) => false
                 case Restart(_) => h.head != h.tail && h.gen != MAX_GEN
  {
    if op.Script? { RoomIff(|slots|, h.head, h.tail, op.max + 1); }
  }

  /** No slot carries a later generation than the current one. */
  ghost predicate NoLater(slots: seq<LogEntry>, gen: nat) {
    forall p :: 0 <= p < |slots| ==> slots[p].gen <= gen
  }

  /** That is so up to the end of the first round of the counter, and then nothing is worn. */
  lemma NotWornYet(slots: seq<LogEntry>, h: Header, up: bool, op: Op)
    requires 0 < h.gen < MAX_GEN && NoLater(slots, h.gen)
    ensures !Worn(slots, h, up, op)
  {
    GensInverse(h.gen);
  }

  lemma StillNoLater(a: seq<LogEntry>, b: seq<LogEntry>, gen: nat, gen': nat)
    requires 0 < gen < MAX_GEN && NoLater(a, gen) && NoNewGen(a, b, gen') && (gen' == gen || gen' == NextGen(gen))
    ensures NoLater(b, gen') && gen <= gen' <= gen + 1
  {
    GensInverse(gen);
  }

  // ---------------------------------------------------------------- one transaction

  /** Every range logged so far is covered by the entries of t. */
  ghost predicate Covering(es: seq<LogEntry>, steps: seq<Step>, n: nat)
    requires n <= |steps|
  {
    forall x: nat :: LoggedBy(steps, n, x) ==> Covered(es, x)
  }

  lemma CoveringNone(es: seq<LogEntry>, steps: seq<Step>)
    ensures Covering(es, steps, 0)
  {
  }

  lemma CoveringMore(a: seq<LogEntry>, b: seq<LogEntry>, steps: seq<Step>, n: nat)
    requires n < |steps| && Covering(a, steps, n) && a <= b
    requires steps[n].LogRange? ==> LoggedRange(b, steps[n].addr, steps[n].addr + steps[n].len)
    ensures Covering(b, steps, n + 1)
  {
    forall x: nat | LoggedBy(steps, n + 1, x) ensures Covered(b, x) {
      var i :| 0 <= i < n + 1 && steps[i].LogRange? && steps[i].addr <= x < steps[i].addr + steps[i].len;
      if i < n {
        assert LoggedBy(steps, n, x);
        CoveredPrefix(a, b, x);
      }
    }
  }

  lemma MayStore(es: seq<LogEntry>, steps: seq<Step>, n: nat, size: nat)
    requires n < |steps| && StepOK(steps, n, size) && steps[n].Write? && Covering(es, steps, n)
    ensures LoggedRange(es, steps[n].addr, steps[n].addr + |steps[n].data|)
  {
  }

  /** One step of a transaction. */
  method DoStep(j: Log, mem: Memory, t: Txn, steps: seq<Step>, n: nat, supply: Supply, ghost upper: seq<Tr>,
                ghost done: seq<Tr>,
                ghost stable: seq<byte>)
    returns (cut: bool)
    requires n < |steps| && Open(j, mem, t, upper, done, stable) && t.base + t.used <= |j.slots|
    requires StepOK(steps, n, |mem.bytes|)
    requires Covering(Logged(j.slots, t), steps, n) && (steps[n].LogRange? ==> t.used + EntriesFor(steps[n].len) <= t.size)
    modifies j`slots, t`used, mem, supply
    ensures Open(j, mem, t, upper, done, stable) && t.base + t.used <= |j.slots| && NoNewGen(old(j.slots), j.slots, j.gen)
    ensures cut <==> Short(old(supply.charge), StepWrites(steps[n]))
    ensures !cut ==>
              && supply.charge == Minus(old(supply.charge), StepWrites(steps[n])) && Covering(Logged(j.slots, t), steps, n + 1)
              && t.used == old(t.used) + (if steps[n].LogRange? then EntriesFor(steps[n].len) else 0)
              && Size(Logged(j.slots, t)) == old(Size(Logged(j.slots, t))) + (if steps[n].LogRange? then steps[n].len else 0)
              && if steps[n].LogRange? then mem.bytes == old(mem.bytes)
                 else steps[n].addr + |steps[n].data| <= |old(mem.bytes)| &&
                      mem.bytes == Patch(old(mem.bytes), steps[n].addr, steps[n].data)
  {
    hide Open, Covering, LoggedBy, LoggedRange, Patch, EntriesFor, Size;
    ghost var es := Logged(j.slots, t);
    match steps[n] {
      case LogRange(addr, len) =>
        var ok;
        ok, cut := AddLogentry(j, mem, t, addr, len, supply, upper, done, stable);
      case Write(addr, data) =>
        MayStore(es, steps, n, |mem.bytes|);
        cut := Store(j, mem, t, addr, data, supply, upper, done, stable);
        SameGens(j.slots, j.gen);
    }
    OpenBounds(j, mem, t, upper, done, stable);
    if !cut { CoveringMore(es, Logged(j.slots, t), steps, n); }
  }

  lemma SameGens(slots: seq<LogEntry>, gen: nat)
    ensures NoNewGen(slots, slots, gen)
  {
  }

  /** All steps of a transaction, up to where the power fails. */
  method DoSteps(j: Log, mem: Memory, t: Txn, op: Op, supply: Supply, ghost upper: seq<Tr>, ghost done: seq<Tr>,
                 ghost stable: seq<byte>)
    returns (cut: bool)
    requires op.Script? && Acceptable(op, |mem.bytes|) && Open(j, mem, t, upper, done, stable) && t.base + t.used <= |j.slots|
    requires t.used == 0 && t.size == op.max + 1 && mem.bytes == stable
    modifies j`slots, t`used, mem, supply
    ensures Open(j, mem, t, upper, done, stable) && t.base + t.used <= |j.slots| && NoNewGen(old(j.slots), j.slots, j.gen)
    ensures cut <==> Short(old(supply.charge), StepsWrites(op.steps))
    ensures !cut ==> supply.charge == Minus(old(supply.charge), StepsWrites(op.steps)) && t.used <= op.max
    ensures !cut ==> Size(Logged(j.slots, t)) == LoggedBytes(op.steps) && mem.bytes == AfterSteps(stable, op.steps)
  {
    hide Open, Covering, StepOK, LoggedBy, Needs, AfterSteps, Patch, EntriesFor, NoNewGen, Size, StepsWrites, StepWrites,
         LoggedBytes;
    var steps := op.steps;
    CoveringNone(Logged(j.slots, t), steps);
    NoSteps(stable, steps);
    SameGens(j.slots, j.gen);
    NoEntries(mem.bytes, j.slots, j.gen, t.base);
    assert Logged(j.slots, t) == [];
    OpenBounds(j, mem, t, upper, done, stable);
    for i := 0 to |steps|
      invariant Open(j, mem, t, upper, done, stable) && t.base + t.used <= |j.slots| && t.used == Needs(steps[..i])
      invariant |mem.bytes| == |stable| && NoNewGen(old(j.slots), j.slots, j.gen)
      invariant mem.bytes == AfterSteps(stable, steps[..i]) && Covering(Logged(j.slots, t), steps, i)
      invariant Size(Logged(j.slots, t)) == LoggedBytes(steps[..i])
      invariant !Short(old(supply.charge), StepsWrites(steps[..i]))
      invariant supply.charge == Minus(old(supply.charge), StepsWrites(steps[..i]))
    {
      NextStep(stable, steps, i);
      ghost var slots := j.slots;
      cut := DoStep(j, mem, t, steps, i, supply, upper, done, stable);
      NoNewGenTwice(old(j.slots), slots, j.slots, j.gen);
      if cut { return; }
      OpenBounds(j, mem, t, upper, done, stable);
    }
    assert steps[..|steps|] == steps;
    cut := false;
  }

  method RunScript(j: Log, mem: Memory, op: Op, tid: nat, ghost upper: seq<Tr>, ghost lower: seq<Tr>)
    returns (r: Outcome, ghost upper': seq<Tr>, ghost lower': seq<Tr>, ghost s: nat)
    requires op.Script? && Idle(j, |mem.bytes|, upper, lower, tid) && Acceptable(op, |mem.bytes|)
    requires !Worn(j.slots, HeaderOf(j), true, op)
    modifies j, mem
    ensures r == ResultOf(old(j.slots), old(HeaderOf(j)), true, op)
    ensures !r.PowerCut? ==> Idle(j, |mem.bytes|, upper', lower', tid + 1) && mem.bytes == After(old(mem.bytes), op, r)
    ensures !r.PowerCut? ==> HeaderOf(j) == HeaderAfter(|old(j.slots)|, old(HeaderOf(j)), op, r)
    ensures r.PowerCut? ==> Crashed(j, mem, old(mem.bytes), s)
    ensures NoNewGen(old(j.slots), j.slots, j.gen) && (j.gen == old(j.gen) || j.gen == NextGen(old(j.gen)))
  {
    hide Idle, Open, NoneOf, NoNewGen, NextGen, Wraps, HasRoom, StepsWrites, LoggedBytes, AfterSteps, Size, PlanAll, Closed,
         Crashed, Acceptable, ReserveWrites;
    ghost var bytes := mem.bytes;
    IdleValid(j, |mem.bytes|, upper, lower, tid);
    SameGens(j.slots, j.gen);
    SameGens(j.slots, NextGen(j.gen));
    var supply := new Supply(op.charge);
    var t, cut;
    t, cut, upper', lower' := Begin(j, mem, op.max, tid, supply, upper, lower);
    s := j.tail;
    if t.None? {
      if cut {
        IdleCrashes(j, mem, upper', lower', tid);
        return PowerCut, upper', lower', s;
      }
      IdleLater(j, |mem.bytes|, upper', lower', tid);
      return Full, upper', lower', s;
    }
    var txn := t.value;
    ghost var done := lower';
    OpenBounds(j, mem, txn, upper', done, bytes);
    cut := DoSteps(j, mem, txn, op, supply, upper', done, bytes);
    if cut {
      s := OpenCrashes(j, mem, txn, upper', done, bytes);
      return PowerCut, upper', lower', s;
    }
    ghost var slots := j.slots;
    var ok;
    if op.commits {
      ok, cut := Commit(j, mem, txn, supply, upper', done, bytes);
    } else {
      ok, cut := Abort(j, mem, txn, supply, upper', done, bytes);
    }
    NoNewGenTwice(old(j.slots), slots, j.slots, j.gen);
    if cut {
      s := OpenCrashes(j, mem, txn, upper', done, bytes);
      return PowerCut, upper', lower', s;
    }
    lower' := done + [Mine(txn, true)];
    r := Ran;
  }

  lemma IdleValid(j: Log, size: nat, upper: seq<Tr>, lower: seq<Tr>, next: nat)
    requires Idle(j, size, upper, lower, next)
    ensures j.Valid()
  {
  }

  lemma IdleLater(j: Log, size: nat, upper: seq<Tr>, lower: seq<Tr>, next: nat)
    requires Idle(j, size, upper, lower, next)
    ensures forall next': nat :: next <= next' ==> Idle(j, size, upper, lower, next')
  {
    hide Image, Quiet, Inside, Stale;
  }

  lemma NoNewGenTwice(a: seq<LogEntry>, b: seq<LogEntry>, c: seq<LogEntry>, gen: nat)
    requires NoNewGen(a, b, gen) && NoNewGen(b, c, gen)
    ensures NoNewGen(a, c, gen)
  {
  }

  lemma NoSteps(bytes: seq<byte>, steps: seq<Step>)
    ensures Needs(steps[..0]) == 0 && AfterSteps(bytes, steps[..0]) == bytes
    ensures StepsWrites(steps[..0]) == 0 && LoggedBytes(steps[..0]) == 0
  {
  }

  lemma NextStep(bytes: seq<byte>, steps: seq<Step>, n: nat)
    requires n < |steps|
    ensures Needs(steps[..n + 1]) == Needs(steps[..n]) + (if steps[n].LogRange? then EntriesFor(steps[n].len) else 0) <= Needs(steps)
    ensures StepsWrites(steps[..n + 1]) == StepsWrites(steps[..n]) + StepWrites(steps[n]) <= StepsWrites(steps)
    ensures LoggedBytes(steps[..n + 1]) == LoggedBytes(steps[..n]) + if steps[n].LogRange? then steps[n].len else 0
    ensures steps[n].LogRange? ==> AfterSteps(bytes, steps[..n + 1]) == AfterSteps(bytes, steps[..n])
    ensures steps[n].Write? && steps[n].addr + |steps[n].data| <= |bytes| ==>
              AfterSteps(bytes, steps[..n + 1]) == Patch(AfterSteps(bytes, steps[..n]), steps[n].addr, steps[n].data)
  {
    assert steps[..n + 1][..n] == steps[..n];
    NeedsPrefix(steps, n + 1);
  }

  lemma {:induction false} NeedsPrefix(steps: seq<Step>, n: nat)
    requires n <= |steps|
    ensures Needs(steps[..n]) <= Needs(steps) && StepsWrites(steps[..n]) <= StepsWrites(steps)
    decreases |steps|
  {
    if n == |steps| {
      assert steps[..n] == steps;
    } else {
      NeedsPrefix(steps[..|steps| - 1], n);
      assert steps[..|steps| - 1][..n] == steps[..n];
    }
  }

  // ---------------------------------------------------------------- runs

  /** The journal is up and holds nothing open, or a recovery that completes will
      give `stable`. */
  ghost predicate Consistent(j: Log, mem: Memory, stable: seq<byte>, up: bool, upper: seq<Tr>, lower: seq<Tr>, next: nat,
                             s: nat)
    reads j, mem
  {
    if up then mem.bytes == stable && Idle(j, |mem.bytes|, upper, lower, next) else Crashed(j, mem, stable, s)
  }

  method RunOp(j: Log, mem: Memory, op: Op, up: bool, tid: nat, ghost stable: seq<byte>, ghost upper: seq<Tr>,
               ghost lower: seq<Tr>,
               ghost s: nat)
    returns (r: Outcome, up': bool, tid': nat, ghost upper': seq<Tr>, ghost lower': seq<Tr>, ghost s': nat)
    requires Consistent(j, mem, stable, up, upper, lower, tid, s) && !Worn(j.slots, HeaderOf(j), up, op)
    requires Acceptable(op, |mem.bytes|)
    modifies j, mem
    ensures Follows(old(PointOf(j, up)), op, r, PointOf(j, up'))
    ensures Consistent(j, mem, After(stable, op, r), up', upper', lower', tid', s')
    ensures NoNewGen(old(j.slots), j.slots, j.gen) && (j.gen == old(j.gen) || j.gen == NextGen(old(j.gen)))
  {
    hide Idle, Acceptable, AfterSteps, Worn, NoneOf, NextGen, NoNewGen, ToSweep, RecoveryWrites, ScriptWrites, HasRoom, Wraps,
         Reserved, Erased, Unused, Torn, Undo, Entries, Inside, Stale;
    tid', upper', lower', s' := tid, upper, lower, s;
    if up { IdleValid(j, |mem.bytes|, upper, lower, tid); }
    SameGens(j.slots, j.gen);
    match op {
      case Script(_, _, _, _) =>
        if !up { return Off, up, tid, upper, lower, s; }
        r, upper', lower', s' := RunScript(j, mem, op, tid, upper, lower);
        up', tid' := !r.PowerCut?, tid + 1;
      case Clean(charge) =>
        if !up { return Off, up, tid, upper, lower, s; }
        var supply := new Supply(charge);
        ghost var slots := j.slots;
        var cut := CleanIdle(j, mem, supply, upper, lower, tid);
        ErasedGens(slots, j.slots, j.gen);
        s' := j.tail;
        r, up' := if cut then PowerCut else Ran, !cut;
        if !cut {
          IdleLater(j, |mem.bytes|, [], [], 0);
          upper', lower' := [], [];
        }
      case Restart(charge) =>
        var supply := new Supply(charge);
        ghost var slots := j.slots;
        if up {
          IdleCrashes(j, mem, upper, lower, tid);
          s' := j.tail;
        }
        NotWornRestart(j.slots, HeaderOf(j), up, op);
        up', s' := Recover(j, mem, supply, stable, s');
        ErasedGens(slots, j.slots, j.gen);
        r := if up' then Ran else PowerCut;
        if up' { tid', upper', lower' := 0, [], []; }
    }
  }

  lemma NotWornRestart(slots: seq<LogEntry>, h: Header, up: bool, op: Op)
    requires op.Restart? && !Worn(slots, h, up, op)
    ensures h.head == h.tail || Unused(slots, h.gen)
  {
  }

  lemma ErasedGens(a: seq<LogEntry>, b: seq<LogEntry>, gen: nat)
    requires Erased(a, b)
    ensures NoNewGen(a, b, gen)
  {
  }

  /** Every run: each operation ends as the log, its header and its charge say; while
      the journal is up, memory holds what the committed transactions stored, in order,
      and nothing of the others; while it is down, recovery will give that image.  The
      run stops early only if the generation counter has come round and meets its own
      traces, which takes more than 65534 operations on a fresh log. */
  method Run(j: Log, mem: Memory, ops: seq<Op>, ghost upper: seq<Tr>, ghost lower: seq<Tr>)
    returns (rs: seq<Outcome>, up: bool, ghost trace: seq<Point>, ghost upper': seq<Tr>, ghost lower': seq<Tr>, ghost next: nat,
             ghost s: nat)
    requires Idle(j, |mem.bytes|, upper, lower, 0)
    requires forall i :: 0 <= i < |ops| ==> Acceptable(ops[i], |mem.bytes|)
    modifies j, mem
    ensures |rs| <= |ops| && Consistent(j, mem, AfterAll(old(mem.bytes), ops[..|rs|], rs), up, upper', lower', next, s)
    ensures |trace| == |rs| + 1 && trace[0] == old(PointOf(j, true)) && trace[|rs|] == PointOf(j, up)
    ensures forall i :: 0 <= i < |rs| ==> Follows(trace[i], ops[i], rs[i], trace[i + 1])
    ensures |rs| < |ops| ==> Worn(j.slots, HeaderOf(j), up, ops[|rs|])
    ensures NoLater(old(j.slots), old(j.gen)) && old(j.gen) + |ops| <= MAX_GEN ==> |rs| == |ops|
  {
    hide Idle, Acceptable, After, Worn, AfterAll, Consistent, Follows, NoLater, NoNewGen, NextGen;
    ghost var stable, gen0, fresh0 := mem.bytes, j.gen, NoLater(j.slots, j.gen) && j.gen + |ops| <= MAX_GEN;
    var tid := 0;
    rs, up, trace, upper', lower', s := [], true, [PointOf(j, true)], upper, lower, 0;
    NoOps(mem.bytes, ops);
    UpToStart(j, mem, upper, lower);
    ConsistentSize(j, mem, mem.bytes, true, upper, lower, 0, 0);
    while |rs| < |ops|
      invariant |rs| <= |ops| && |mem.bytes| == |old(mem.bytes)|
      invariant Consistent(j, mem, AfterAll(old(mem.bytes), ops[..|rs|], rs), up, upper', lower', tid, s)
      invariant |trace| == |rs| + 1 && trace[0] == old(PointOf(j, true)) && trace[|rs|] == PointOf(j, up)
      invariant forall i :: 0 <= i < |rs| ==> Follows(trace[i], ops[i], rs[i], trace[i + 1])
      invariant fresh0 ==> NoLater(j.slots, j.gen) && 0 < j.gen <= gen0 + |rs|
      decreases |ops| - |rs|
    {
      if fresh0 { NotWornYet(j.slots, HeaderOf(j), up, ops[|rs|]); }
      if Worn(j.slots, HeaderOf(j), up, ops[|rs|]) { break; }
      ghost var slots, gen := j.slots, j.gen;
      var r;
      stable := AfterAll(old(mem.bytes), ops[..|rs|], rs);
      r, up, tid, upper', lower', s := RunOp(j, mem, ops[|rs|], up, tid, stable, upper', lower', s);
      OneMoreOp(old(mem.bytes), ops, rs, r);
      if fresh0 { StillNoLater(slots, j.slots, gen, j.gen); }
      rs := rs + [r];
      trace := trace + [PointOf(j, up)];
      ConsistentSize(j, mem, AfterAll(old(mem.bytes), ops[..|rs|], rs), up, upper', lower', tid, s);
    }
    next := tid;
  }

  lemma UpToStart(j: Log, mem: Memory, upper: seq<Tr>, lower: seq<Tr>)
    requires Idle(j, |mem.bytes|, upper, lower, 0)
    ensures Consistent(j, mem, mem.bytes, true, upper, lower, 0, 0) && 0 < j.gen
  {
  }

  lemma ConsistentSize(j: Log, mem: Memory, stable: seq<byte>, up: bool, upper: seq<Tr>, lower: seq<Tr>, next: nat, s: nat)
    requires Consistent(j, mem, stable, up, upper, lower, next, s)
    ensures |mem.bytes| == |stable|
  {
  }

  lemma NoOps(bytes: seq<byte>, ops: seq<Op>)
    ensures AfterAll(bytes, ops[..0], []) == bytes
  {
  }

  lemma OneMoreOp(bytes: seq<byte>, ops: seq<Op>, rs: seq<Outcome>, r: Outcome)
    requires |rs| < |ops|
    ensures AfterAll(bytes, ops[..|rs| + 1], rs + [r]) == After(AfterAll(bytes, ops[..|rs|], rs), ops[|rs|], r)
  {
    hide After;
    assert ops[..|rs| + 1][..|rs|] == ops[..|rs|] && (rs + [r])[..|rs|] == rs;
  }
}
