/** The truncate list (inode.c, super.c): inodes whose truncation or deletion a
    mount has to finish, kept as a persistent chain and an in-memory list. */
module TruncateList {

  /** struct pmfs_inode_truncate_item. */
  datatype Item = Item(size: nat, next: nat)

  /** What a power failure leaves: the head pointer and the items. */
  datatype Disk = Disk(head: nat, items: map<nat, Item>)

  /** The chain from `first` runs through exactly these inodes, in order, to 0. */
  predicate Chain(items: map<nat, Item>, first: nat, inos: seq<nat>)
    decreases |inos|
  {
    if inos == [] then first == 0
    else first == inos[0] != 0 && first in items && Chain(items, items[first].next, inos[1..])
  }

  predicate NoDup(inos: seq<nat>) {
    forall i, j :: 0 <= i < j < |inos| ==> inos[i] != inos[j]
  }

  /** A chain determines its inodes, so two chains on one disk are the same. */
  lemma {:induction false} ChainUnique(items: map<nat, Item>, first: nat, a: seq<nat>, b: seq<nat>)
    requires Chain(items, first, a) && Chain(items, first, b)
    ensures a == b
    decreases |a|
  {
    if a == [] || b == [] {
    } else {
      ChainUnique(items, items[first].next, a[1..], b[1..]);
      assert a == [a[0]] + a[1..] && b == [b[0]] + b[1..];
    }
  }

  /** It visits no inode twice: a chain that ends cannot contain a cycle. */
  lemma {:induction false} ChainAcyclic(items: map<nat, Item>, first: nat, inos: seq<nat>)
    requires Chain(items, first, inos)
    ensures NoDup(inos)
    decreases |inos|
  {
    if inos == [] {
    } else {
      var rest := inos[1..];
      ChainAcyclic(items, items[first].next, rest);
      forall j | 0 <= j < |rest| ensures rest[j] != first {
        ChainFrom(items, items[first].next, rest, j);
        if rest[j] == first {
          ChainUnique(items, first, inos, rest[j..]);
        }
      }
      forall i, j | 0 <= i < j < |inos| ensures inos[i] != inos[j] {
        assert inos[j] == rest[j - 1] && (i > 0 ==> inos[i] == rest[i - 1]);
      }
    }
  }

  lemma {:induction false} ChainFrom(items: map<nat, Item>, first: nat, inos: seq<nat>, k: nat)
    requires Chain(items, first, inos) && k < |inos|
    ensures Chain(items, inos[k], inos[k..]) && inos[k] in items && inos[k] != 0
    decreases k
  {
    if k == 0 {
      assert inos[0..] == inos;
    } else {
      ChainFrom(items, items[first].next, inos[1..], k - 1);
      assert inos[1..][k - 1..] == inos[k..];
    }
  }

  /** Items outside the chain do not matter. */
  lemma {:induction false} ChainFrame(items: map<nat, Item>, items': map<nat, Item>, first: nat, inos: seq<nat>)
    requires Chain(items, first, inos) && forall i :: i in inos ==> i in items && i in items' && items'[i].next == items[i].next
    ensures Chain(items', first, inos)
    decreases |inos|
  {
    if inos == [] {
    } else {
      ChainFrame(items, items', items[first].next, inos[1..]);
    }
  }

  lemma {:induction false} ChainHas(items: map<nat, Item>, first: nat, inos: seq<nat>)
    requires Chain(items, first, inos)
    ensures forall i :: i in inos ==> i in items && i != 0
    decreases |inos|
  {
    if inos == [] {
    } else {
      ChainHas(items, items[first].next, inos[1..]);
      assert inos == [inos[0]] + inos[1..];
    }
  }

  /** Unlinking position k > 0 by its predecessor's pointer. */
  lemma {:induction false} Unlinked(items: map<nat, Item>, items': map<nat, Item>, first: nat, inos: seq<nat>, k: nat)
    requires Chain(items, first, inos) && 0 < k < |inos| && inos[k] in items && inos[k - 1] in items
    requires items' == items[inos[k - 1] := items[inos[k - 1]].(next := items[inos[k]].next)]
    ensures Chain(items', first, inos[..k] + inos[k + 1..])
    decreases k
  {
    ChainAcyclic(items, first, inos);
    ChainHas(items, first, inos);
    ChainFrom(items, first, inos, k);
    var rest := inos[1..];
    if k == 1 {
      assert inos[..k] + inos[k + 1..] == [inos[0]] + inos[2..];
      ChainFrom(items, first, inos, 1);
      assert inos[1..][1..] == inos[2..];
      assert forall i :: i in inos[2..] ==> i != inos[0];
      ChainFrame(items, items', items[inos[1]].next, inos[2..]);
      assert ([inos[0]] + inos[2..])[1..] == inos[2..];
    } else {
      Unlinked(items, items', items[first].next, rest, k - 1);
      assert rest[..k - 1] + rest[k..] == (inos[..k] + inos[k + 1..])[1..];
      assert inos[k - 1] != inos[0];
    }
  }

  /** An entry of the list: the inode and the size it is to be cut to. */
  datatype Entry = Entry(ino: nat, size: nat)

  function Entries(items: map<nat, Item>, inos: seq<nat>): seq<Entry>
    requires forall i :: i in inos ==> i in items
  {
    seq(|inos|, k requires 0 <= k < |inos| => Entry(inos[k], items[inos[k]].size))
  }

  lemma EntriesCut(items: map<nat, Item>, items': map<nat, Item>, inos: seq<nat>, k: nat)
    requires k < |inos| && forall i :: i in inos ==> i in items && i in items' && items'[i].size == items[i].size
    ensures forall i :: i in inos[..k] + inos[k + 1..] ==> i in items'
    ensures Entries(items', inos[..k] + inos[k + 1..]) == Entries(items, inos)[..k] + Entries(items, inos)[k + 1..]
  {
    var cut := inos[..k] + inos[k + 1..];
    assert forall i :: 0 <= i < |cut| ==> cut[i] == if i < k then inos[i] else inos[i + 1];
  }

  function Inos(l: seq<Entry>): seq<nat> {
    seq(|l|, k requires 0 <= k < |l| => l[k].ino)
  }

  /** The disk holds list l: the chain runs through its inodes, with their sizes. */
  ghost predicate Holds(d: Disk, l: seq<Entry>) {
    && Chain(d.items, d.head, Inos(l))
    && forall k :: 0 <= k < |l| ==> l[k].ino in d.items && d.items[l[k].ino].size == l[k].size
  }

  /** b is a after one field was written. */
  ghost predicate OneWrite(a: Disk, b: Disk) {
    || b == a.(head := b.head)
    || exists i :: i in a.items && i in b.items &&
         (b == a.(items := a.items[i := a.items[i].(next := b.items[i].next)]) ||
          b == a.(items := a.items[i := a.items[i].(size := b.items[i].size)]))
  }

  /** d becomes d' by single writes, with `crashes` the disk after each. */
  ghost predicate Written(d: Disk, crashes: seq<Disk>, d': Disk)
    decreases |crashes|
  {
    if crashes == [] then d' == d else OneWrite(d, crashes[0]) && Written(crashes[0], crashes[1..], d')
  }

  lemma WrittenThree(d: Disk, a: Disk, b: Disk, c: Disk)
    requires OneWrite(d, a) && OneWrite(a, b) && OneWrite(b, c)
    ensures Written(d, [a, b, c], c)
  {
    hide OneWrite;
    assert [a, b, c][1..] == [b, c] && [b, c][1..] == [c] && [c][1..] == [];
    assert Written(c, [], c) && Written(b, [c], c) && Written(a, [b, c], c);
  }

  /** What a power failure leaves in the middle of an operation: the list before it,
      until the last write. */
  ghost predicate AllOrNothing(crashes: seq<Disk>, before: seq<Entry>, after: seq<Entry>) {
    forall i :: 0 <= i < |crashes| ==> Holds(crashes[i], if i + 1 < |crashes| then before else after)
  }

  class Truncated {
    var disk: Disk
    var list: seq<nat>   // s_truncate, most recent first

    ghost predicate Valid()
      reads this
    {
      Chain(disk.items, disk.head, list) && forall i :: i in list ==> i in disk.items
    }

    ghost function Contents(): seq<Entry>
      requires Valid()
      reads this
    {
      Entries(disk.items, list)
    }

    lemma DiskHolds()
      requires Valid()
      ensures Holds(disk, Contents()) && Inos(Contents()) == list
    {
      assert Inos(Contents()) == list;
    }

    /** pmfs_truncate_add.  `crashes` are the disks a power failure can leave, one
        after each persistent write. */
    method Add(ino: nat, size: nat) returns (ghost crashes: seq<Disk>)
      requires Valid() && ino != 0 && ino in disk.items
      modifies this
      ensures Valid() && disk.items.Keys == old(disk.items.Keys)
      ensures Contents() == if ino in old(list) then old(Contents()) else [Entry(ino, size)] + old(Contents())
      ensures |crashes| == (if ino in old(list) then 0 else 3) && Written(old(disk), crashes, disk)
      ensures AllOrNothing(crashes, old(Contents()), Contents())
    {
      hide Holds, Written, OneWrite, Inos;
      crashes := [];
      ChainHas(disk.items, disk.head, list);
      DiskHolds();
      ghost var d0, l := disk, Contents();
      if ino in list {
        NothingWritten(disk);
        return;
      }
      disk := disk.(items := disk.items[ino := disk.items[ino].(next := disk.head)]);
      ghost var d1 := disk;
      FieldWrite(d0, d1, ino);
      StillHolds(d0, d1, l, ino);
      disk := disk.(items := disk.items[ino := disk.items[ino].(size := size)]);
      ghost var d2 := disk;
      FieldWrite(d1, d2, ino);
      StillHolds(d1, d2, l, ino);
      disk := disk.(head := ino);
      FieldWrite(d2, disk, ino);
      ChainFrame(d0.items, disk.items, d0.head, list);
      assert ([ino] + list)[1..] == list;
      list := [ino] + list;
      crashes := [d1, d2, disk];
      WrittenThree(d0, d1, d2, disk);
      DiskHolds();
      assert Contents() == [Entry(ino, size)] + l;
    }

    /** pmfs_truncate_del: one write. */
    method Del(ino: nat) returns (ghost crashes: seq<Disk>)
      requires Valid()
      modifies this
      ensures Valid() && disk.items.Keys == old(disk.items.Keys) && ino !in list
      ensures ino !in old(list) ==> disk == old(disk) && list == old(list)
      ensures ino in old(list) ==> exists k :: 0 <= k < |old(list)| && old(list)[k] == ino
                                               && Contents() == old(Contents())[..k] + old(Contents())[k + 1..]
      ensures |crashes| == (if ino in old(list) then 1 else 0) && Written(old(disk), crashes, disk)
      ensures AllOrNothing(crashes, old(Contents()), Contents())
    {
      hide Holds;
      crashes := [];
      if ino !in list { return; }
      ChainAcyclic(disk.items, disk.head, list);
      var k := Position(list, ino);
      ghost var inos, was, d0 := list, disk.items, disk;
      ChainFrom(disk.items, disk.head, list, k);
      var next := disk.items[ino].next;
      var prev := if k == 0 then 0 else list[k - 1];
      list := list[..k] + list[k + 1..];
      if k == 0 {
        disk := disk.(head := next);
        assert inos[0..][1..] == list;
      } else {
        disk := disk.(items := disk.items[prev := disk.items[prev].(next := next)]);
        Unlinked(was, disk.items, disk.head, inos, k);
      }
      FieldWrite(d0, disk, prev);
      crashes := [disk];
      assert Written(disk, crashes[1..], disk);
      EntriesCut(was, disk.items, inos, k);
      DiskHolds();
    }

    /** The walk of pmfs_recover_truncate_list, from the disk alone: every entry of
        the list once, in order; then the chain is empty. */
    method Recover(ghost l: seq<Entry>) returns (visited: seq<Entry>)
      requires Holds(disk, l)
      modifies this
      ensures visited == l && disk == old(disk).(head := 0) && list == [] && Valid()
    {
      visited := [];
      var ino := disk.head;
      ghost var left := Inos(l);
      while ino != 0
        invariant |visited| + |left| == |l| && left == Inos(l)[|visited|..] && Chain(disk.items, ino, left)
        invariant visited == l[..|visited|] && disk == old(disk)
        decreases |left|
      {
        assert l[|visited|].ino == ino;
        visited := visited + [Entry(ino, disk.items[ino].size)];
        ino, left := disk.items[ino].next, left[1..];
      }
      disk := disk.(head := 0);
      list := [];
    }
  }

  lemma NothingWritten(d: Disk)
    ensures Written(d, [], d)
  {
  }

  lemma FieldWrite(a: Disk, b: Disk, i: nat)
    requires || b == a.(head := b.head)
             || (i in a.items && i in b.items &&
                 (b == a.(items := a.items[i := a.items[i].(next := b.items[i].next)]) ||
                  b == a.(items := a.items[i := a.items[i].(size := b.items[i].size)])))
    ensures OneWrite(a, b)
  {
  }

  /** A write to an item off the list leaves the list. */
  lemma StillHolds(a: Disk, b: Disk, l: seq<Entry>, ino: nat)
    requires Holds(a, l) && ino !in Inos(l) && b.head == a.head && ino in a.items && ino in b.items
    requires b.items == a.items[ino := b.items[ino]]
    ensures Holds(b, l)
  {
    ChainHas(a.items, a.head, Inos(l));
    ChainFrame(a.items, b.items, a.head, Inos(l));
    forall k | 0 <= k < |l| ensures l[k].ino in b.items && b.items[l[k].ino].size == l[k].size {
      assert Inos(l)[k] == l[k].ino;
    }
  }

  method Position(inos: seq<nat>, ino: nat) returns (k: nat)
    requires ino in inos
    ensures k < |inos| && inos[k] == ino
  {
    k := 0;
    while inos[k] != ino
      invariant k < |inos| && ino !in inos[..k]
      decreases |inos| - k
    {
      k := k + 1;
    }
  }

  // ---------------------------------------------------------------- runs

  datatype Op = AddOp(ino: nat, size: nat) | DelOp(ino: nat)

  /** The list without the entry of an inode. */
  function Without(l: seq<Entry>, ino: nat): seq<Entry> {
    if l == [] then [] else if l[0].ino == ino then l[1..] else [l[0]] + Without(l[1..], ino)
  }

  predicate Listed(l: seq<Entry>, ino: nat) {
    exists k :: 0 <= k < |l| && l[k].ino == ino
  }

  lemma {:induction false} WithoutAt(l: seq<Entry>, ino: nat, k: nat)
    requires k < |l| && l[k].ino == ino && forall i :: 0 <= i < k ==> l[i].ino != ino
    ensures Without(l, ino) == l[..k] + l[k + 1..]
    decreases k
  {
    if k == 0 {
    } else {
      WithoutAt(l[1..], ino, k - 1);
      assert l[..k] + l[k + 1..] == [l[0]] + (l[1..][..k - 1] + l[1..][k..]);
    }
  }

  lemma {:induction false} WithoutNone(l: seq<Entry>, ino: nat)
    requires forall i :: 0 <= i < |l| ==> l[i].ino != ino
    ensures Without(l, ino) == l
    decreases |l|
  {
    if l == [] {
    } else {
      WithoutNone(l[1..], ino);
    }
  }

  function After(l: seq<Entry>, op: Op): seq<Entry> {
    match op
    case AddOp(ino, size) => if Listed(l, ino) then l else [Entry(ino, size)] + l
    case DelOp(ino) => Without(l, ino)
  }

  function AfterAll(l: seq<Entry>, ops: seq<Op>): seq<Entry> {
    if ops == [] then l else After(AfterAll(l, ops[..|ops| - 1]), ops[|ops| - 1])
  }

  /** Persistent writes of an operation. */
  function WritesOf(l: seq<Entry>, op: Op): nat {
    match op
    case AddOp(ino, _) => if Listed(l, ino) then 0 else 3
    case DelOp(ino) => if Listed(l, ino) then 1 else 0
  }

  method Apply(t: Truncated, op: Op) returns (ghost crashes: seq<Disk>)
    requires t.Valid() && (op.AddOp? ==> op.ino != 0 && op.ino in t.disk.items)
    modifies t
    ensures t.Valid() && t.disk.items.Keys == old(t.disk.items.Keys) && t.Contents() == After(old(t.Contents()), op)
    ensures |crashes| == WritesOf(old(t.Contents()), op) && Written(old(t.disk), crashes, t.disk)
    ensures AllOrNothing(crashes, old(t.Contents()), t.Contents())
  {
    hide Written, AllOrNothing;
    ghost var l, inos := t.Contents(), t.list;
    ListedIff(l, inos, op.ino);
    match op {
      case AddOp(ino, size) =>
        crashes := t.Add(ino, size);
      case DelOp(ino) =>
        ChainAcyclic(t.disk.items, t.disk.head, t.list);
        crashes := t.Del(ino);
        if ino in inos {
          ghost var k :| 0 <= k < |inos| && inos[k] == ino && t.Contents() == l[..k] + l[k + 1..];
          assert forall i :: 0 <= i < k ==> l[i].ino == inos[i] != ino;
          WithoutAt(l, ino, k);
        } else {
          assert forall i :: 0 <= i < |l| ==> l[i].ino == inos[i] && inos[i] in inos;
          WithoutNone(l, ino);
        }
    }
  }

  lemma ListedIff(l: seq<Entry>, inos: seq<nat>, ino: nat)
    requires |l| == |inos| && forall i :: 0 <= i < |l| ==> l[i].ino == inos[i]
    ensures Listed(l, ino) <==> ino in inos
  {
    if ino in inos {
      var k :| 0 <= k < |inos| && inos[k] == ino;
      assert l[k].ino == ino;
    }
  }

  /** Over any run the chain on disk is the list in memory, entry by entry.  disks[n]
      is the disk before operation n, crashes[n] the disks after each of its writes: they
      hold the list before or after it. */
  method Run(t: Truncated, ops: seq<Op>) returns (ghost disks: seq<Disk>, ghost crashes: seq<seq<Disk>>)
    requires t.Valid() && forall i :: 0 <= i < |ops| && ops[i].AddOp? ==> ops[i].ino != 0 && ops[i].ino in t.disk.items
    modifies t
    ensures t.Valid() && NoDup(t.list) && t.Contents() == AfterAll(old(t.Contents()), ops)
    ensures |disks| == |ops| + 1 && disks[0] == old(t.disk) && disks[|ops|] == t.disk && |crashes| == |ops|
    ensures forall n :: 0 <= n <= |ops| ==> Holds(disks[n], AfterAll(old(t.Contents()), ops[..n]))
    ensures forall n :: 0 <= n < |ops| ==> Survives(old(t.Contents()), ops, n, disks[n], crashes[n], disks[n + 1])
  {
    hide After, AfterAll, Holds, Survives;
    disks, crashes := [t.disk], [];
    t.DiskHolds();
    NoOps(t.Contents(), ops);
    for n := 0 to |ops|
      invariant t.Valid() && t.disk.items.Keys == old(t.disk.items.Keys)
      invariant t.Contents() == AfterAll(old(t.Contents()), ops[..n])
      invariant |disks| == n + 1 && disks[0] == old(t.disk) && disks[n] == t.disk && |crashes| == n
      invariant forall i :: 0 <= i <= n ==> Holds(disks[i], AfterAll(old(t.Contents()), ops[..i]))
      invariant forall i :: 0 <= i < n ==> Survives(old(t.Contents()), ops, i, disks[i], crashes[i], disks[i + 1])
    {
      OneMoreOp(old(t.Contents()), ops, n);
      ghost var c := Apply(t, ops[n]);
      t.DiskHolds();
      IsSurvived(old(t.Contents()), ops, n, disks[n], c, t.disk);
      disks, crashes := disks + [t.disk], crashes + [c];
    }
    assert ops[..|ops|] == ops;
    ChainAcyclic(t.disk.items, t.disk.head, t.list);
  }

  /** Operation n of a run, write by write. */
  ghost predicate Survives(l: seq<Entry>, ops: seq<Op>, n: nat, d: Disk, crashes: seq<Disk>, d': Disk)
    requires n < |ops|
  {
    && |crashes| == WritesOf(AfterAll(l, ops[..n]), ops[n]) && Written(d, crashes, d')
    && AllOrNothing(crashes, AfterAll(l, ops[..n]), AfterAll(l, ops[..n + 1]))
  }

  lemma IsSurvived(l: seq<Entry>, ops: seq<Op>, n: nat, d: Disk, crashes: seq<Disk>, d': Disk)
    requires n < |ops| && |crashes| == WritesOf(AfterAll(l, ops[..n]), ops[n]) && Written(d, crashes, d')
    requires AllOrNothing(crashes, AfterAll(l, ops[..n]), AfterAll(l, ops[..n + 1]))
    ensures Survives(l, ops, n, d, crashes, d')
  {
  }

  lemma NoOps(l: seq<Entry>, ops: seq<Op>)
    ensures AfterAll(l, ops[..0]) == l
  {
  }

  lemma OneMoreOp(l: seq<Entry>, ops: seq<Op>, n: nat)
    requires n < |ops|
    ensures AfterAll(l, ops[..n + 1]) == After(AfterAll(l, ops[..n]), ops[n])
  {
    hide After;
    assert ops[..n + 1][..n] == ops[..n];
  }
}
