/** A directory (dir.c, namei.c): a run of directory blocks that together bind
    names to inode numbers. */
module Directory {
  import opened Codec
  import opened Allocator
  import opened InodeTree
  import opened DirBlock

  ghost predicate Sound(blocks: seq<seq<byte>>) {
    forall i :: 0 <= i < |blocks| ==> WellFormed(blocks[i])
  }

  /** The bindings of blocks k onwards, in order. */
  function From(blocks: seq<seq<byte>>, k: nat): seq<Entry>
    requires Sound(blocks)
    decreases |blocks| - k
  {
    if k >= |blocks| then [] else Names(blocks[k]) + From(blocks, k + 1)
  }

  /** All bindings, with multiplicity. */
  function Bindings(blocks: seq<seq<byte>>): multiset<Entry>
    requires Sound(blocks)
  {
    multiset(From(blocks, 0))
  }

  predicate Bound(m: multiset<Entry>, name: seq<byte>) {
    exists e :: e in m && e.name == name
  }

  predicate HasRoom(blocks: seq<seq<byte>>, n: nat, need: nat)
    requires Sound(blocks) && n <= |blocks|
  {
    exists i :: 0 <= i < n && Room(blocks[i], 0, BLOCK, need)
  }

  // ---------------------------------------------------------------- one block changes

  lemma {:induction false} FromSuffix(a: seq<seq<byte>>, b: seq<seq<byte>>, k: nat)
    requires Sound(a) && Sound(b) && |a| == |b| && forall i :: k <= i < |a| ==> a[i] == b[i]
    ensures From(a, k) == From(b, k)
    decreases |a| - k
  {
    hide Names, WellFormed;
    if |a| <= k {
    } else {
      FromSuffix(a, b, k + 1);
    }
  }

  /** Exchanging block i for c changes the bindings by what c has more or less. */
  lemma {:induction false} Exchanged(a: seq<seq<byte>>, b: seq<seq<byte>>, k: nat, i: nat, more: multiset<Entry>,
                                     less: multiset<Entry>)
    requires Sound(a) && Sound(b) && k <= i < |a| == |b| && forall j :: 0 <= j < |a| && j != i ==> a[j] == b[j]
    requires multiset(Names(a[i])) + more == multiset(Names(b[i])) + less
    ensures multiset(From(a, k)) + more == multiset(From(b, k)) + less
    decreases |a| - k
  {
    hide Names, WellFormed;
    if k == i {
      FromSuffix(a, b, k + 1);
      Exchange2(Names(a[i]), Names(b[i]), From(a, k + 1), more, less);
    } else {
      Exchanged(a, b, k + 1, i, more, less);
      Exchange3(Names(a[k]), From(a, k + 1), From(b, k + 1), more, less);
    }
  }

  lemma Exchange2(x: seq<Entry>, y: seq<Entry>, z: seq<Entry>, more: multiset<Entry>, less: multiset<Entry>)
    requires multiset(x) + more == multiset(y) + less
    ensures multiset(x + z) + more == multiset(y + z) + less
  {
    assert multiset(x + z) + more == multiset(x) + more + multiset(z);
  }

  lemma Exchange3(x: seq<Entry>, y: seq<Entry>, z: seq<Entry>, more: multiset<Entry>, less: multiset<Entry>)
    requires multiset(y) + more == multiset(z) + less
    ensures multiset(x + y) + more == multiset(x + z) + less
  {
    assert multiset(x + y) + more == multiset(x) + (multiset(y) + more);
  }

  lemma {:induction false} Appended(a: seq<seq<byte>>, c: seq<byte>, k: nat)
    requires Sound(a) && WellFormed(c) && k <= |a| && Sound(a + [c])
    ensures From(a + [c], k) == From(a, k) + Names(c)
    decreases |a| - k
  {
    hide Names, WellFormed;
    if k == |a| {
      assert From(a + [c], k + 1) == [];
    } else {
      Appended(a, c, k + 1);
      assert (a + [c])[k] == a[k];
    }
  }

  /** What a block binds is bound, and what is bound some block binds. */
  lemma {:induction false} InFrom(blocks: seq<seq<byte>>, k: nat, i: nat, e: Entry)
    requires Sound(blocks) && k <= i < |blocks| && e in Names(blocks[i])
    ensures e in From(blocks, k)
    decreases i - k
  {
    hide Names, WellFormed;
    if i <= k {
    } else {
      InFrom(blocks, k + 1, i, e);
    }
  }

  lemma {:induction false} FromIn(blocks: seq<seq<byte>>, k: nat, e: Entry) returns (i: nat)
    requires Sound(blocks) && e in From(blocks, k)
    ensures k <= i < |blocks| && e in Names(blocks[i])
    decreases |blocks| - k
  {
    hide Names, WellFormed;
    if e in Names(blocks[k]) {
      i := k;
    } else {
      i := FromIn(blocks, k + 1, e);
    }
  }

  lemma AllUnbound(blocks: seq<seq<byte>>, name: seq<byte>)
    requires Sound(blocks) && forall i :: 0 <= i < |blocks| ==> Unbound(Names(blocks[i]), name)
    ensures !Bound(Bindings(blocks), name)
  {
    hide Names, WellFormed, From;
    forall e | e in Bindings(blocks) ensures e.name != name {
      var i := FromIn(blocks, 0, e);
    }
  }

  lemma BoundBy(blocks: seq<seq<byte>>, i: nat, e: Entry)
    requires Sound(blocks) && i < |blocks| && e in Names(blocks[i])
    ensures e in Bindings(blocks) && Bound(Bindings(blocks), e.name)
  {
    hide Names, WellFormed, From;
    InFrom(blocks, 0, i, e);
  }

  // ---------------------------------------------------------------- the directory

  datatype Status = Done | EInval | ENoSpace

  class Dir {
    var blocks: seq<seq<byte>>
    var startLookup: nat   // i_dir_start_lookup

    ghost predicate Valid()
      reads this`blocks
    {
      Sound(blocks)
    }

    ghost function Contents(): multiset<Entry>
      requires Valid()
      reads this`blocks
    {
      Bindings(blocks)
    }

    /** pmfs_add_entry.  `allocOk` is the outcome of pmfs_alloc_blocks, which the
        function calls only when no block has room; `garbage` is what the new
        block holds. */
    method AddEntry(name: seq<byte>, ino: nat, allocOk: bool, garbage: seq<byte>) returns (r: Status)
      requires Valid() && |name| <= NAME_LEN && ino < Pow256(8) && |garbage| == BLOCK
      modifies this`blocks
      ensures Valid()
      ensures r.EInval? <==> name == []
      ensures r.ENoSpace? <==> name != [] && !allocOk && !old(HasRoom(blocks, |blocks|, RecLen(|name|)))
      ensures r.Done? ==> Contents() == old(Contents()) + multiset(LiveOf(name, ino))
      ensures r.Done? ==> |blocks| == old(|blocks|) + if old(HasRoom(blocks, |blocks|, RecLen(|name|))) then 0 else 1
      ensures !r.Done? ==> blocks == old(blocks)
      ensures KeepsDot(old(blocks), blocks)
    {
      hide WellFormed, Names, LiveOf, Room, RecLen, Padded, HasSlack, Ino, DeLen, Boundary, KeepsDots;
      DotsStay(blocks);
      if |name| == 0 { return EInval; }
      ghost var was := blocks;
      var block := 0;
      while block < |blocks|
        invariant 0 <= block <= |blocks| && blocks == was && !HasRoom(was, block, RecLen(|name|))
      {
        var ok, c := AddDirentToBuf(blocks[block], name, ino);
        if ok {
          blocks := blocks[block := c];
          Exchanged(was, blocks, 0, block, multiset(LiveOf(name, ino)), multiset{});
          return Done;
        }
        block := block + 1;
      }
      if !allocOk { return ENoSpace; }
      var b := FormatBlock(garbage);
      NewBlockRoom(b, |name|);
      var c := WriteDirent(b, 0, name, ino);
      blocks := blocks + [c];
      Appended(was, c, 0);
      return Done;
    }

    /** pmfs_remove_entry; `gone` is the binding that went. */
    method RemoveEntry(name: seq<byte>, beyond: seq<byte>) returns (r: Status, ghost gone: Entry)
      requires Valid() && 12 + NAME_LEN <= |beyond|
      modifies this`blocks
      ensures Valid() && !r.ENoSpace?
      ensures r.EInval? <==> !Bound(old(Contents()), name)
      ensures r.Done? ==> gone.name == name && gone in old(Contents()) && old(Contents()) == Contents() + multiset{gone}
      ensures r.Done? ==> |blocks| == old(|blocks|) && HasRoom(blocks, |blocks|, RecLen(|name|))
      ensures !r.Done? ==> blocks == old(blocks)
      ensures name != [DOT] && name != [DOT, DOT] ==> KeepsDot(old(blocks), blocks)
    {
      hide WellFormed, Names, LiveAt, Boundary, Precedes, HitIn, Unbound, Match, CheckEntry, Bound, KeepsDots, Room,
           RecLen, Padded, NameLen;
      DotsStay(blocks);
      gone := Entry([], 0);
      OddNames(blocks, name);
      if |name| == 0 { return EInval, gone; }
      ghost var was := blocks;
      var block := 0;
      while block < |blocks|
        invariant 0 <= block <= |blocks| && blocks == was && forall i :: 0 <= i < block ==> Unbound(Names(was[i]), name)
      {
        BlockSize(blocks, block);
        var res := SearchDirblock(blocks[block], beyond, name);
        if res.Hit? {
          gone := HitEntry(blocks[block], res, name);
          BoundBy(was, block, gone);
          var c := RemoveDirent(blocks[block], res.de, res.prev);
          HitPlace(blocks[block], c, res, name);
          blocks := blocks[block := c];
          Exchanged(was, blocks, 0, block, multiset{}, multiset{gone});
          return Done, gone;
        }
        block := block + 1;
      }
      AllUnbound(was, name);
      return EInval, gone;
    }

    /** pmfs_inode_by_name: the inode number bound to the name, or 0.  The search
        starts at the block of the last hit and wraps around; "." and ".." are
        looked for in the first block before the others. */
    method InodeByName(name: seq<byte>, beyond: seq<byte>) returns (ino: nat)
      requires Valid() && 12 + NAME_LEN <= |beyond|
      modifies this`startLookup
      ensures ino != 0 ==> Entry(name, ino) in Contents()
      ensures ino == 0 <==> !Bound(Contents(), name)
      ensures if ino == 0 then startLookup == old(startLookup)
              else startLookup < |blocks| && Entry(name, ino) in Names(blocks[startLookup])
    {
      hide Names, WellFormed, Unbound, Bound;
      OddNames(blocks, name);
      if |name| > NAME_LEN { return 0; }
      var nblocks, start;
      if Dots(name) {
        start, nblocks := 0, 1;
      } else {
        nblocks, start := |blocks|, startLookup;
        if start >= nblocks { start := 0; }
      }
      var done;
      ino, done := Scan(name, beyond, start, start, nblocks);
      if done { return; }
      var block := nblocks;
      nblocks := |blocks|;
      if block < nblocks {
        ino, done := Scan(name, beyond, block, 0, nblocks);
        if done { return; }
      }
      AllUnbound(blocks, name);
      return 0;
    }

    /** The do-while of pmfs_inode_by_name, from `block` round to `start`. */
    method Scan(name: seq<byte>, beyond: seq<byte>, first: nat, start: nat, nblocks: nat) returns (ino: nat, done: bool)
      requires Valid() && 12 + NAME_LEN <= |beyond| && start <= first
      requires first < nblocks <= |blocks| || (first == 0 && |blocks| == 0)
      modifies this`startLookup
      ensures done && ino != 0 ==> Entry(name, ino) in Contents() && Bound(Contents(), name)
      ensures done && ino == 0 ==> !Bound(Contents(), name)
      ensures if done && ino != 0 then startLookup < |blocks| && Entry(name, ino) in Names(blocks[startLookup])
              else startLookup == old(startLookup)
      ensures !done ==> nblocks <= |blocks| && forall i :: 0 <= i < nblocks && (first <= i || i < start) ==> Unbound(Names(blocks[i]), name)
    {
      hide Names, WellFormed, Unbound, Bound, LiveAt, Boundary, HitIn, Match, CheckEntry, Precedes;
      var block: nat := first;
      var wrapped := false;
      while true
        invariant if wrapped then block < start else first <= block
        invariant block < nblocks <= |blocks| || (block == 0 && |blocks| == 0 && !wrapped)
        invariant startLookup == old(startLookup)
        invariant !wrapped ==> forall i :: first <= i < block ==> Unbound(Names(blocks[i]), name)
        invariant wrapped ==> forall i :: 0 <= i < nblocks && (first <= i || i < block) ==> Unbound(Names(blocks[i]), name)
        decreases !wrapped, nblocks - block
      {
        if block >= |blocks| {
          AllUnbound(blocks, name);
          return 0, true;
        }
        BlockSize(blocks, block);
        var r := SearchDirblock(blocks[block], beyond, name);
        if r.Hit? {
          startLookup := block;
          ghost var e := HitEntry(blocks[block], r, name);
          BoundBy(blocks, block, e);
          ino := Ino(blocks[block], r.de);
          return ino, true;
        }
        block := block + 1;
        if block >= nblocks {
          block := 0;
          wrapped := true;
        }
        if block == start { break; }
      }
      return 0, false;
    }

    /** pmfs_readdir from byte position `from`, with a buffer that takes `room`
        entries.  `stuck` says that the loop would never leave the block it is in: given
        room, exactly if a block from there on begins with a bad record. */
    method Readdir(from: nat, room: nat, beyond: seq<byte>) returns (pos: nat, emitted: seq<Entry>, stuck: bool)
      requires 12 <= |beyond| && forall i :: 0 <= i < |blocks| ==> |blocks[i]| == BLOCK
      ensures |emitted| <= room && from + 16 * |emitted| <= pos && (pos == from || pos <= |blocks| * BLOCK)
      ensures NoBadStart(blocks, from, pos) && (stuck ==> BadStart(blocks, pos))
      ensures !stuck ==> |emitted| == room || |blocks| * BLOCK <= pos
      ensures |emitted| < room || |blocks| * BLOCK < 16 * room ==> (stuck <==> AnyBadStart(blocks, from))
      ensures Reading(blocks, from) ==>
                && !stuck && OnBoundary(blocks, pos) && Rest(blocks, from) == emitted + Rest(blocks, pos)
                && (|emitted| == room || pos == |blocks| * BLOCK)
    {
      hide WellFormed, Names, CheckEntry, NoBadStart, BadStart, AnyBadStart, ReadUpTo, Reading, Ino, DeLen, NameLen, Align;
      pos, emitted, stuck := from, [], false;
      var offset: nat := pos % BLOCK;
      NothingRead(blocks, from);
      while pos < |blocks| * BLOCK
        invariant offset == pos % BLOCK && from + 16 * |emitted| <= pos && |emitted| <= room && !stuck
        invariant pos == from || pos <= |blocks| * BLOCK
        invariant ReadUpTo(blocks, from, pos, emitted) && NoBadStart(blocks, from, pos)
        decreases |blocks| * BLOCK - pos
      {
        var blk := pos / BLOCK;
        Inside(pos, |blocks|);
        var mem := blocks[blk] + beyond;
        ghost var enter := pos;
        while pos < |blocks| * BLOCK && offset < BLOCK
          invariant pos == blk * BLOCK + offset && offset <= BLOCK && enter <= pos && |emitted| <= room && !stuck
          invariant from + 16 * |emitted| <= pos <= |blocks| * BLOCK
          invariant ReadUpTo(blocks, from, pos, emitted) && NoBadStart(blocks, from, pos)
          decreases |blocks| * BLOCK - pos
        {
          Readable(blocks[blk], mem, offset);
          ReadMore(blocks, mem, from, blk, offset, emitted);
          NoBadMore(blocks, mem, from, blk, offset);
          if !CheckEntry(mem, offset) {
            pos := Align(pos);
            stuck := offset == 0;
            break;
          }
          var len := DeLen(mem, offset);
          if Ino(mem, offset) != 0 {
            if |emitted| == room {
              ReadEnd(blocks, from, pos, emitted);
              return;
            }
            emitted := emitted + [Entry(NameAt(mem, offset), Ino(mem, offset))];
          } else {
            emitted := emitted + [];
          }
          offset := offset + len;
          pos := pos + len;
        }
        if stuck {
          BadHere(blocks, from, pos);
          ReadEnd(blocks, from, pos, emitted);
          return;
        }
        Wrapped(blk, pos, offset);
        offset := 0;
      }
      NoBadEnd(blocks, from, pos);
      ReadEnd(blocks, from, pos, emitted);
    }

    /** Reading a directory to its end in calls of any buffer size, each taking
        up where the one before stopped: every binding, once. */
    method ReaddirAll(room: nat, beyond: seq<byte>) returns (all: seq<Entry>)
      requires Valid() && 0 < room && 12 <= |beyond|
      ensures multiset(all) == Contents()
    {
      hide WellFormed, Names, OnBoundary, Rest, From;
      Opening(blocks);
      var pos: nat, stuck := 0, false;
      all := [];
      while pos < |blocks| * BLOCK
        invariant Reading(blocks, pos) && From(blocks, 0) == all + Rest(blocks, pos)
        decreases |Rest(blocks, pos)|, |blocks| * BLOCK - pos
      {
        BlockSizes(blocks);
        var part;
        ghost var before := Rest(blocks, pos);
        pos, part, stuck := Readdir(pos, room, beyond);
        assert all + before == all + part + Rest(blocks, pos);
        all := all + part;
      }
      Closing(blocks, pos);
    }

    /** pmfs_empty_dir for the directory with inode number `self`: a directory
        without "." and ".." counts as empty; otherwise it is empty exactly if it
        binds nothing else. */
    method EmptyDir(self: nat, beyond: seq<byte>) returns (r: bool)
      requires Valid() && BLOCK <= |beyond| && self != 0
      ensures blocks == [] || !Header(blocks[0] + beyond, self) ==> r
      ensures blocks != [] && Header(blocks[0] + beyond, self) && DeLen(blocks[0] + beyond, 0) < BLOCK ==>
                (r <==> |From(blocks, 0)| == 2)
      ensures blocks != [] && Dotted(blocks[0]) && Ino(blocks[0], 0) == self ==> (r <==> |From(blocks, 0)| == 2)
      ensures blocks != [] && |blocks[0]| == BLOCK && Ino(blocks[0], 0) != self ==> r
    {
      hide WellFormed, Names, From, CheckEntry, ReadUpTo, Ino, DeLen, NameLen, Rest, OnBoundary, Header, Dotted;
      if |blocks| * BLOCK < RecLen(1) + RecLen(2) { return true; }
      BlockSizes(blocks);
      var mem := blocks[0] + beyond;
      HeaderIf(blocks[0], beyond, self);
      if !Header(mem, self) { return true; }
      HeaderBounds(mem, self);
      var o1 := DeLen(mem, 0);
      var pos: nat := o1 + DeLen(mem, o1);
      var off: nat, blk: nat := pos, 0;
      ghost var sound, from := o1 < BLOCK, pos;
      if sound { PastHeader(blocks, mem, self); }
      NothingRead(blocks, from);
      while pos < |blocks| * BLOCK
        invariant sound ==> ReadUpTo(blocks, from, pos, []) && (pos == blk * BLOCK + off) && off <= BLOCK
        invariant blk < |blocks| && mem == blocks[blk] + beyond
        decreases |blocks| * BLOCK - pos
      {
        if off >= BLOCK {
          Inside(pos, |blocks|);
          NextStart(blk, pos, off);
          blk, off := pos / BLOCK, 0;
          mem := blocks[blk] + beyond;
        }
        Readable(blocks[blk], mem, off);
        if sound { ReadMore(blocks, mem, from, blk, off, []); }
        if !CheckEntry(mem, off) {
          AfterBlock(pos);
          off := BLOCK;
          pos := pos / BLOCK * BLOCK + BLOCK;
          continue;
        }
        if Ino(mem, off) != 0 {
          if sound { Occupied(blocks, mem, from, blk, off); }
          return false;
        }
        assert [] + LiveOf(NameAt(mem, off), Ino(mem, off)) == [];
        pos := pos + DeLen(mem, off);
        off := off + DeLen(mem, off);
      }
      if sound { ReadEnd(blocks, from, pos, []); Closing(blocks, pos); }
      return true;
    }
  }

  /** The first two records are "." for the directory itself and ".."; names are
      compared up to their NUL. */
  predicate Header(mem: seq<byte>, self: nat)
    requires 2 * BLOCK <= |mem|
  {
    && Ino(mem, 0) == self && DeLen(mem, 0) <= BLOCK && Ino(mem, DeLen(mem, 0)) != 0
    && mem[12..14] == [DOT, 0] && mem[DeLen(mem, 0) + 12..DeLen(mem, 0) + 15] == [DOT, DOT, 0]
  }

  lemma HeaderIf(b: seq<byte>, beyond: seq<byte>, self: nat)
    requires |b| == BLOCK <= |beyond|
    ensures Dotted(b) && Ino(b, 0) == self ==> Header(b + beyond, self) && DeLen(b + beyond, 0) < BLOCK
    ensures Ino(b, 0) != self ==> !Header(b + beyond, self)
  {
    hide FromLE;
    var mem := b + beyond;
    assert mem[0..8] == b[0..8] && mem[8..10] == b[8..10] && mem[12..14] == b[12..14];
    if Dotted(b) {
      var o := DeLen(b, 0);
      assert mem[o..o + 8] == b[o..o + 8] && mem[o + 12..o + 15] == b[o + 12..o + 15];
    }
  }

  lemma HeaderBounds(mem: seq<byte>, self: nat)
    requires 2 * BLOCK <= |mem| && Header(mem, self)
    ensures DeLen(mem, 0) <= BLOCK
  {
  }

  /** Both records are bindings, so what the walk sees is all but two. */
  lemma PastHeader(blocks: seq<seq<byte>>, mem: seq<byte>, self: nat)
    requires Sound(blocks) && blocks != [] && |blocks[0]| == BLOCK && 2 * BLOCK <= |mem| && mem[..BLOCK] == blocks[0]
    requires self != 0
    requires Header(mem, self) && DeLen(mem, 0) < BLOCK
    ensures var o2 := DeLen(mem, 0) + DeLen(mem, DeLen(mem, 0));
            o2 <= BLOCK && Reading(blocks, o2) && |From(blocks, 0)| == 2 + |Rest(blocks, o2)|
  {
    hide From, Rest, OnBoundary, CheckEntry, DeLen, NameLen, Ino, WellFormed;
    Opening(blocks);
    SoundStep(blocks, mem, 0, 0, 0);
    var o1 := DeLen(mem, 0);
    SoundStep(blocks, mem, 0, o1, o1);
    Readable(blocks[0], mem, o1);
  }

  lemma Occupied(blocks: seq<seq<byte>>, mem: seq<byte>, from: nat, blk: nat, off: nat)
    requires blk < |blocks| && |blocks[blk]| == BLOCK && off < BLOCK && BLOCK + 12 <= |mem| && mem[..BLOCK] == blocks[blk]
    requires Reading(blocks, from) && ReadUpTo(blocks, from, blk * BLOCK + off, []) && Ino(mem, off) != 0
    ensures |Rest(blocks, from)| > 0
  {
    hide OnBoundary, Rest, CheckEntry, Ino, DeLen, NameLen, WellFormed;
    SoundStep(blocks, mem, blk, off, blk * BLOCK + off);
  }

  lemma NextStart(blk: nat, pos: nat, off: nat)
    ensures pos == blk * BLOCK + off && off == BLOCK ==> pos == pos / BLOCK * BLOCK
  {
  }

  lemma AfterBlock(pos: nat)
    ensures pos < pos / BLOCK * BLOCK + BLOCK
  {
  }

  /** A read from the start covers the whole directory. */
  lemma Opening(blocks: seq<seq<byte>>)
    requires Sound(blocks)
    ensures OnBoundary(blocks, 0) && Rest(blocks, 0) == From(blocks, 0)
  {
    hide Tiled, Live;
    if |blocks| > 0 {
      RestIs(blocks, 0, 0);
      assert WellFormed(blocks[0]);
    }
  }

  lemma Closing(blocks: seq<seq<byte>>, pos: nat)
    requires Sound(blocks) && OnBoundary(blocks, pos) && |blocks| * BLOCK <= pos
    ensures Rest(blocks, pos) == []
  {
  }

  lemma BlockSizes(blocks: seq<seq<byte>>)
    requires Sound(blocks)
    ensures forall i :: 0 <= i < |blocks| ==> |blocks[i]| == BLOCK
  {
  }

  /** ALIGN(pos, blocksize). */
  function Align(pos: nat): nat { (pos + BLOCK - 1) / BLOCK * BLOCK }

  lemma Wrapped(blk: nat, pos: nat, offset: nat)
    ensures pos == blk * BLOCK + BLOCK ==> pos % BLOCK == 0
    ensures Align(pos) % BLOCK == 0
  {
  }

  /** A block from `from` on begins with a bad record. */
  ghost predicate AnyBadStart(blocks: seq<seq<byte>>, from: nat) {
    exists k: nat :: from <= k * BLOCK && BadStart(blocks, k * BLOCK)
  }

  lemma BadHere(blocks: seq<seq<byte>>, from: nat, pos: nat)
    requires from <= pos && BadStart(blocks, pos)
    ensures AnyBadStart(blocks, from)
  {
    assert BadStart(blocks, pos / BLOCK * BLOCK);
  }

  /** pos is the start of a block whose first record fails pmfs_check_dir_entry. */
  predicate BadStart(blocks: seq<seq<byte>>, pos: nat) {
    pos % BLOCK == 0 && pos / BLOCK < |blocks| && |blocks[pos / BLOCK]| == BLOCK && !CheckEntry(blocks[pos / BLOCK], 0)
  }

  /** pos is a record boundary, or the end of the directory. */
  ghost predicate OnBoundary(blocks: seq<seq<byte>>, pos: nat)
    requires Sound(blocks)
  {
    pos == |blocks| * BLOCK || (pos < |blocks| * BLOCK && pos / BLOCK < |blocks| && Tiled(blocks[pos / BLOCK], pos % BLOCK, BLOCK))
  }

  /** The bindings from pos on. */
  function Rest(blocks: seq<seq<byte>>, pos: nat): seq<Entry>
    requires Sound(blocks) && OnBoundary(blocks, pos)
  {
    if pos == |blocks| * BLOCK then [] else Live(blocks[pos / BLOCK], pos % BLOCK, BLOCK) + From(blocks, pos / BLOCK + 1)
  }

  lemma Inside(pos: nat, n: nat)
    requires pos < n * BLOCK
    ensures pos / BLOCK < n && pos == pos / BLOCK * BLOCK + pos % BLOCK
  {
  }

  /** The call promises something: it starts at a record of a sound directory. */
  ghost predicate Reading(blocks: seq<seq<byte>>, from: nat) {
    Sound(blocks) && OnBoundary(blocks, from)
  }

  /** What was emitted is what lies between from and pos. */
  ghost predicate ReadUpTo(blocks: seq<seq<byte>>, from: nat, pos: nat, emitted: seq<Entry>) {
    Reading(blocks, from) ==> OnBoundary(blocks, pos) && Rest(blocks, from) == emitted + Rest(blocks, pos)
  }

  ghost predicate NoBadStart(blocks: seq<seq<byte>>, from: nat, pos: nat) {
    forall k: nat :: from <= k * BLOCK < pos ==> !BadStart(blocks, k * BLOCK)
  }

  lemma NothingRead(blocks: seq<seq<byte>>, from: nat)
    ensures ReadUpTo(blocks, from, from, []) && NoBadStart(blocks, from, from)
  {
  }

  lemma ReadEnd(blocks: seq<seq<byte>>, from: nat, pos: nat, emitted: seq<Entry>)
    requires ReadUpTo(blocks, from, pos, emitted)
    ensures Reading(blocks, from) ==>
              OnBoundary(blocks, pos) && Rest(blocks, from) == emitted + Rest(blocks, pos) && pos <= |blocks| * BLOCK
  {
  }

  lemma Readable(b: seq<byte>, mem: seq<byte>, o: nat)
    requires |b| == BLOCK && BLOCK + 12 <= |mem| && mem[..BLOCK] == b && o < BLOCK
    ensures CheckEntry(mem, o) ==> 16 <= DeLen(mem, o) <= BLOCK - o && o + 12 + NameLen(mem, o) <= BLOCK
  {
  }

  /** One record of the walk; in a sound directory it passes the check. */
  lemma ReadMore(blocks: seq<seq<byte>>, mem: seq<byte>, from: nat, blk: nat, offset: nat, emitted: seq<Entry>)
    requires blk < |blocks| && |blocks[blk]| == BLOCK && offset < BLOCK && BLOCK + 12 <= |mem| && mem[..BLOCK] == blocks[blk]
    requires ReadUpTo(blocks, from, blk * BLOCK + offset, emitted)
    ensures Reading(blocks, from) ==> CheckEntry(mem, offset)
    ensures CheckEntry(mem, offset) ==> offset + 12 + NameLen(mem, offset) <= BLOCK
    ensures CheckEntry(mem, offset) ==>
              ReadUpTo(blocks, from, blk * BLOCK + offset + DeLen(mem, offset), emitted + LiveOf(NameAt(mem, offset), Ino(mem, offset)))
    ensures !CheckEntry(mem, offset) ==> ReadUpTo(blocks, from, Align(blk * BLOCK + offset), emitted)
  {
    hide OnBoundary, Rest, CheckEntry, Ino, DeLen, NameLen, WellFormed, LiveOf, Align;
    Readable(blocks[blk], mem, offset);
    if Reading(blocks, from) {
      SoundStep(blocks, mem, blk, offset, blk * BLOCK + offset);
    }
  }

  /** In a sound directory the record at pos passes the check, and what is left
      after it starts at the next one. */
  lemma SoundStep(blocks: seq<seq<byte>>, mem: seq<byte>, blk: nat, offset: nat, pos: nat)
    requires Sound(blocks) && blk < |blocks| && offset < BLOCK && pos == blk * BLOCK + offset && OnBoundary(blocks, pos)
    requires BLOCK + 12 <= |mem| && |blocks[blk]| == BLOCK && mem[..BLOCK] == blocks[blk]
    ensures CheckEntry(mem, offset) && offset + 12 + NameLen(mem, offset) <= BLOCK
    ensures OnBoundary(blocks, pos + DeLen(mem, offset))
    ensures Rest(blocks, pos) == LiveOf(NameAt(mem, offset), Ino(mem, offset)) + Rest(blocks, pos + DeLen(mem, offset))
  {
    hide Tiled, Live, Names, From, Ino, DeLen, NameLen, RecLen, Padded, WellFormed, OnBoundary, Rest, Good,
         CheckEntry, LiveOf;
    var b := blocks[blk];
    RestIs(blocks, blk, offset);
    FirstRecord(b, mem, offset);
    var q := offset + DeLen(b, offset);
    if q < BLOCK {
      RestIs(blocks, blk, q);
    } else {
      NextBlock(blocks, blk);
    }
  }

  lemma RestIs(blocks: seq<seq<byte>>, blk: nat, offset: nat)
    requires Sound(blocks) && blk < |blocks| && offset < BLOCK
    ensures |blocks[blk]| == BLOCK && (OnBoundary(blocks, blk * BLOCK + offset) <==> Tiled(blocks[blk], offset, BLOCK))
    ensures Tiled(blocks[blk], offset, BLOCK) ==>
              Rest(blocks, blk * BLOCK + offset) == Live(blocks[blk], offset, BLOCK) + From(blocks, blk + 1)
  {
    hide Tiled, Live, From, Names;
    Position(blk * BLOCK + offset, blk, offset, |blocks|);
  }

  lemma Position(pos: nat, blk: nat, offset: nat, n: nat)
    requires pos == blk * BLOCK + offset && offset < BLOCK && blk < n
    ensures pos / BLOCK == blk && pos % BLOCK == offset && pos < n * BLOCK
  {
  }

  lemma FirstRecord(b: seq<byte>, mem: seq<byte>, o: nat)
    requires |b| == BLOCK && o < BLOCK && Tiled(b, o, BLOCK) && BLOCK + 12 <= |mem| && mem[..BLOCK] == b
    ensures Good(b, o) && o + 12 + NameLen(b, o) <= o + DeLen(b, o) <= BLOCK && Tiled(b, o + DeLen(b, o), BLOCK)
    ensures CheckEntry(mem, o) && DeLen(mem, o) == DeLen(b, o) && NameLen(mem, o) == NameLen(b, o)
    ensures Live(b, o, BLOCK) == LiveOf(NameAt(mem, o), Ino(mem, o)) + Live(b, o + DeLen(b, o), BLOCK)
    ensures Live(b, BLOCK, BLOCK) == []
  {
    SameRecord(b, mem, o);
    assert mem[o + 10] == b[o + 10];
  }

  lemma FromNext(blocks: seq<seq<byte>>, k: nat)
    requires Sound(blocks) && k < |blocks|
    ensures |blocks[k]| == BLOCK && From(blocks, k) == Live(blocks[k], 0, BLOCK) + From(blocks, k + 1)
  {
    hide Live, Tiled;
  }

  lemma NoneAfter(blocks: seq<seq<byte>>)
    requires Sound(blocks)
    ensures From(blocks, |blocks|) == []
  {
    hide Live, Tiled;
  }

  lemma NextBlock(blocks: seq<seq<byte>>, blk: nat)
    requires Sound(blocks) && blk < |blocks|
    ensures OnBoundary(blocks, blk * BLOCK + BLOCK) && Rest(blocks, blk * BLOCK + BLOCK) == From(blocks, blk + 1)
  {
    hide Live, Tiled, Names, From;
    if blk + 1 < |blocks| {
      RestIs(blocks, blk + 1, 0);
      assert WellFormed(blocks[blk + 1]);
      FromNext(blocks, blk + 1);
    } else {
      NoneAfter(blocks);
    }
  }

  lemma NoBadMore(blocks: seq<seq<byte>>, mem: seq<byte>, from: nat, blk: nat, offset: nat)
    requires blk < |blocks| && |blocks[blk]| == BLOCK && offset < BLOCK && BLOCK + 12 <= |mem| && mem[..BLOCK] == blocks[blk]
    requires from <= blk * BLOCK + offset && NoBadStart(blocks, from, blk * BLOCK + offset)
    ensures CheckEntry(mem, offset) ==> NoBadStart(blocks, from, blk * BLOCK + offset + DeLen(mem, offset))
    ensures !CheckEntry(mem, offset) ==> if offset == 0 then BadStart(blocks, blk * BLOCK) && Align(blk * BLOCK) == blk * BLOCK
                                         else Align(blk * BLOCK + offset) == blk * BLOCK + BLOCK && NoBadStart(blocks, from, blk * BLOCK + BLOCK)
  {
    Readable(blocks[blk], mem, offset);
    assert mem[8..10] == blocks[blk][8..10] && mem[10] == blocks[blk][10];
    assert offset == 0 ==> (CheckEntry(mem, 0) <==> CheckEntry(blocks[blk], 0));
    hide CheckEntry, DeLen, NameLen;
    forall k: nat | from <= k * BLOCK < blk * BLOCK + BLOCK && !(offset == 0 && k == blk) ensures !BadStart(blocks, k * BLOCK) {
      assert k <= blk;
    }
  }

  lemma NoBadEnd(blocks: seq<seq<byte>>, from: nat, pos: nat)
    requires NoBadStart(blocks, from, pos) && |blocks| * BLOCK <= pos
    ensures !AnyBadStart(blocks, from)
  {
  }

  /** The test for "." and "..", on a NUL-terminated name. */
  predicate Dots(name: seq<byte>) {
    (|name| == 1 && name[0] == DOT) || (|name| == 2 && name[0] == DOT && (name[1] == DOT || name[1] == 0))
  }

  lemma BlockSize(blocks: seq<seq<byte>>, i: nat)
    requires Sound(blocks) && i < |blocks|
    ensures |blocks[i]| == BLOCK && WellFormed(blocks[i])
  {
  }

  /** Only names of 1 to 255 bytes are bound. */
  lemma OddNames(blocks: seq<seq<byte>>, name: seq<byte>)
    requires Sound(blocks)
    ensures name == [] || |name| > NAME_LEN ==> !Bound(Bindings(blocks), name)
  {
    hide WellFormed, Live;
    if name == [] || |name| > NAME_LEN {
      forall i | 0 <= i < |blocks| ensures Unbound(Names(blocks[i]), name) {
        BlockSize(blocks, i);
        ProperNames(blocks[i], 0, name);
      }
      AllUnbound(blocks, name);
    }
  }

  lemma {:induction false} ProperNames(b: seq<byte>, p: nat, name: seq<byte>)
    requires |b| == BLOCK && p <= BLOCK && Tiled(b, p, BLOCK) && (name == [] || |name| > NAME_LEN)
    ensures Unbound(Live(b, p, BLOCK), name)
    decreases BLOCK - p
  {
    if BLOCK <= p {
    } else {
      ProperNames(b, p + DeLen(b, p), name);
    }
  }

  lemma NewBlockRoom(b: seq<byte>, n: nat)
    requires Boundary(b, 0) && Ino(b, 0) == 0 && DeLen(b, 0) == BLOCK && n <= NAME_LEN
    ensures HasSlack(b, 0, RecLen(n))
  {
  }

  lemma HitEntry(b: seq<byte>, r: Found, name: seq<byte>) returns (e: Entry)
    requires WellFormed(b) && r.Hit? && HitIn(b, r, name)
    ensures e.name == name && e in Names(b) && Boundary(b, r.de) && Precedes(b, r.prev, r.de) && LiveAt(b, r.de) == [e]
    ensures r.de + 8 <= |b| && Ino(b, r.de) == e.ino && e.ino != 0
  {
    e := Entry(name, Ino(b, r.de));
    Around(b, r.de);
  }

  /** Only "." and ".." are found at the first two records. */
  lemma HitPlace(b: seq<byte>, c: seq<byte>, r: Found, name: seq<byte>)
    requires WellFormed(b) && r.Hit? && HitIn(b, r, name) && (32 <= r.de ==> KeepsDots(b, c))
    ensures r.de + 12 <= |b| && NameLen(b, r.de) == |name|
    ensures name != [DOT] && name != [DOT, DOT] ==> KeepsDots(b, c)
  {
    hide FromLE, Tiled, Live, RecLen, Padded;
    InBlock(b, r.de);
    if Dotted(b) && DeLen(b, 0) == RecLen(1) { DotBoundary(b, r.de); }
  }

  /** The first block keeps its "." and "..". */
  ghost predicate KeepsDot(a: seq<seq<byte>>, b: seq<seq<byte>>) {
    a != [] ==> b != [] && KeepsDots(a[0], b[0])
  }

  lemma DotsStay(a: seq<seq<byte>>)
    ensures KeepsDot(a, a)
  {
  }

  // ---------------------------------------------------------------- directories as maps

  /** The bindings are exactly those of m, so no name is bound twice. */
  ghost predicate Models(bindings: multiset<Entry>, m: map<seq<byte>, nat>) {
    forall e :: bindings[e] == if e.name in m && m[e.name] == e.ino then 1 else 0
  }

  lemma ModelsBound(bindings: multiset<Entry>, m: map<seq<byte>, nat>, name: seq<byte>)
    requires Models(bindings, m)
    ensures Bound(bindings, name) <==> name in m
    ensures forall ino :: Entry(name, ino) in bindings ==> name in m && m[name] == ino
  {
    if name in m { assert bindings[Entry(name, m[name])] == 1; }
  }

  lemma ModelsAdd(bindings: multiset<Entry>, m: map<seq<byte>, nat>, name: seq<byte>, ino: nat)
    requires Models(bindings, m) && name !in m && ino != 0
    ensures Models(bindings + multiset(LiveOf(name, ino)), m[name := ino])
  {
    var m' := m[name := ino];
    assert LiveOf(name, ino) == [Entry(name, ino)];
    forall e ensures (bindings + multiset(LiveOf(name, ino)))[e] == if e.name in m' && m'[e.name] == e.ino then 1 else 0 {
      assert bindings[e] == if e.name in m && m[e.name] == e.ino then 1 else 0;
    }
  }

  lemma ModelsRemove(bindings: multiset<Entry>, rest: multiset<Entry>, m: map<seq<byte>, nat>, gone: Entry)
    requires Models(bindings, m) && bindings == rest + multiset{gone}
    ensures Models(rest, m - {gone.name})
  {
    var m' := m - {gone.name};
    assert bindings[gone] == if gone.name in m && m[gone.name] == gone.ino then 1 else 0;
    forall e ensures rest[e] == if e.name in m' && m'[e.name] == e.ino then 1 else 0 {
      assert bindings[e] == if e.name in m && m[e.name] == e.ino then 1 else 0;
    }
  }

  /** What the VFS asks of a directory; create and unlink look the name up first. */
  datatype Op = Create(name: seq<byte>, ino: nat, allocOk: bool, garbage: seq<byte>) | Unlink(name: seq<byte>) | Find(name: seq<byte>)

  datatype Outcome = Ok | Exists | Missing | NoSpace | Is(ino: nat)

  predicate Acceptable(op: Op) {
    op.Create? ==> 0 < |op.name| <= NAME_LEN && 0 < op.ino < Pow256(8) && |op.garbage| == BLOCK
  }

  predicate LeavesDots(op: Op) {
    op.Unlink? ==> op.name != [DOT] && op.name != [DOT, DOT]
  }

  function After(m: map<seq<byte>, nat>, op: Op, r: Outcome): map<seq<byte>, nat> {
    if r.Ok? && op.Create? then m[op.name := op.ino]
    else if r.Ok? && op.Unlink? then m - {op.name}
    else m
  }

  /** The outcome a map would give; only lack of space is not decided by it. */
  predicate Right(m: map<seq<byte>, nat>, op: Op, r: Outcome) {
    match op
    case Create(name, _, allocOk, _) => if name in m then r.Exists? else r.Ok? || (r.NoSpace? && !allocOk)
    case Unlink(name) => if name in m then r.Ok? else r.Missing?
    case Find(name) => r == Is(if name in m then m[name] else 0)
  }

  /** And that is decided by the blocks: a creation fails exactly if no block has room
      and none can be had. */
  ghost predicate SpaceRight(blocks: seq<seq<byte>>, op: Op, r: Outcome) {
    Sound(blocks) && (op.Create? && !r.Exists? ==> (r.NoSpace? <==> !op.allocOk && !HasRoom(blocks, |blocks|, RecLen(|op.name|))))
  }

  function AfterAll(m: map<seq<byte>, nat>, ops: seq<Op>, rs: seq<Outcome>): map<seq<byte>, nat>
    requires |ops| == |rs|
  {
    if ops == [] then m else After(AfterAll(m, ops[..|ops| - 1], rs[..|rs| - 1]), ops[|ops| - 1], rs[|rs| - 1])
  }

  predicate AllRight(m: map<seq<byte>, nat>, ops: seq<Op>, rs: seq<Outcome>)
    requires |ops| == |rs|
  {
    ops == [] || var n := |ops| - 1; AllRight(m, ops[..n], rs[..n]) && Right(AfterAll(m, ops[..n], rs[..n]), ops[n], rs[n])
  }

  method Apply(d: Dir, op: Op, beyond: seq<byte>, ghost m: map<seq<byte>, nat>) returns (r: Outcome)
    requires d.Valid() && 12 + NAME_LEN <= |beyond| && Acceptable(op) && Models(d.Contents(), m)
    modifies d
    ensures d.Valid() && Right(m, op, r) && Models(d.Contents(), After(m, op, r)) && SpaceRight(old(d.blocks), op, r)
    ensures LeavesDots(op) ==> KeepsDot(old(d.blocks), d.blocks)
  {
    hide Bindings, Sound, Models, LiveOf, Bound, HasRoom, RecLen, Pow256, KeepsDot;
    DotsStay(d.blocks);
    var ino := d.InodeByName(op.name, beyond);
    ModelsBound(d.Contents(), m, op.name);
    ghost var was := d.Contents();
    match op {
      case Find(name) => r := Is(ino);
      case Create(name, newIno, allocOk, garbage) =>
        if ino != 0 { return Exists; }
        ModelsAdd(was, m, name, newIno);
        var st := d.AddEntry(name, newIno, allocOk, garbage);
        r := if st.Done? then Ok else NoSpace;
      case Unlink(name) =>
        var st, gone := d.RemoveEntry(name, beyond);
        if st.Done? { ModelsRemove(was, d.Contents(), m, gone); }
        r := if st.Done? then Ok else Missing;
    }
  }

  /** Any run of operations behaves as on a map; dirs[i] are the blocks before operation i. */
  method Run(d: Dir, ops: seq<Op>, beyond: seq<byte>, ghost m: map<seq<byte>, nat>)
    returns (rs: seq<Outcome>, ghost dirs: seq<seq<seq<byte>>>)
    requires d.Valid() && 12 + NAME_LEN <= |beyond| && (forall i :: 0 <= i < |ops| ==> Acceptable(ops[i]))
    requires Models(d.Contents(), m)
    modifies d
    ensures |rs| == |ops| && AllRight(m, ops, rs)
    ensures d.Valid() && Models(d.Contents(), AfterAll(m, ops, rs))
    ensures |dirs| == |ops| + 1 && dirs[0] == old(d.blocks) && dirs[|ops|] == d.blocks
    ensures Traced(m, ops, rs, dirs)
    ensures (forall i :: 0 <= i < |ops| ==> LeavesDots(ops[i])) ==> KeepsDot(old(d.blocks), d.blocks)
  {
    hide Bindings, Sound, Models, Right, After, Acceptable, SpaceRight, AfterAll, Shows, KeepsDot, LeavesDots,
         Traced, AllRight;
    rs, dirs := [], [d.blocks];
    DotsStay(d.blocks);
    NoneYet(m, ops, d.blocks);
    for i := 0 to |ops|
      invariant |rs| == i && d.Valid() && AllRight(m, ops[..i], rs) && Models(d.Contents(), AfterAll(m, ops[..i], rs))
      invariant |dirs| == i + 1 && dirs[0] == old(d.blocks) && dirs[i] == d.blocks
      invariant (forall k :: 0 <= k < i ==> LeavesDots(ops[k])) ==> KeepsDot(old(d.blocks), d.blocks)
      invariant Traced(m, ops, rs, dirs)
    {
      Shown(d.blocks, AfterAll(m, ops[..i], rs));
      ghost var before := AfterAll(m, ops[..i], rs);
      var r := Apply(d, ops[i], beyond, before);
      DotsThrough(old(d.blocks), dirs[i], d.blocks);
      OneMore(m, ops, rs, r);
      TracedMore(m, ops, rs, dirs, r, d.blocks);
      rs, dirs := rs + [r], dirs + [d.blocks];
    }
    assert ops[..|ops|] == ops;
  }

  lemma DotsThrough(a: seq<seq<byte>>, b: seq<seq<byte>>, c: seq<seq<byte>>)
    ensures KeepsDot(a, b) && KeepsDot(b, c) ==> KeepsDot(a, c)
  {
  }

  // ---------------------------------------------------------------- life of a directory

  /** No name is bound twice, so there are as many bindings as names. */
  lemma {:induction false} ModelsSize(bindings: multiset<Entry>, m: map<seq<byte>, nat>)
    requires Models(bindings, m)
    ensures |bindings| == |m|
    decreases |m|
  {
    if m == map[] {
      assert bindings == multiset{} by {
        forall e ensures e !in bindings { assert bindings[e] == 0; }
      }
    } else {
      var k :| k in m;
      var gone := Entry(k, m[k]);
      assert bindings[gone] == 1;
      var rest := bindings - multiset{gone};
      assert bindings == rest + multiset{gone};
      ModelsRemove(bindings, rest, m, gone);
      assert |m - {k}| == |m| - 1 by { assert m == (m - {k})[k := m[k]]; }
      ModelsSize(rest, m - {k});
    }
  }

  /** pmfs_mkdir, then any run of creations, removals and lookups that leaves "."
      and ".." alone: pmfs_rmdir finds the directory empty exactly if every other
      name has gone again. */
  method MakeUseEmpty(garbage: seq<byte>, self: nat, parent: nat, ops: seq<Op>, beyond: seq<byte>)
    returns (d: Dir, rs: seq<Outcome>, empty: bool)
    requires |garbage| == BLOCK && 0 < self < Pow256(8) && 0 < parent < Pow256(8) && BLOCK <= |beyond|
    requires forall i :: 0 <= i < |ops| ==> Acceptable(ops[i]) && LeavesDots(ops[i])
    ensures fresh(d) && |rs| == |ops|
    ensures var m := map[[DOT] := self, [DOT, DOT] := parent];
            AllRight(m, ops, rs) && (empty <==> AfterAll(m, ops, rs).Keys == {[DOT], [DOT, DOT]})
  {
    hide Acceptable, LeavesDots, AllRight, AfterAll, Models, KeepsDots, Dotted, Names, WellFormed, Pow256, Ino, DeLen, From;
    var b := MakeDirBlock(garbage, self, parent);
    d := new Dir;
    d.blocks := [b];
    ghost var m := map[[DOT] := self, [DOT, DOT] := parent];
    NewDirModels(b, self, parent);
    ghost var dirs;
    rs, dirs := Run(d, ops, beyond, m);
    DotsKept(b, d.blocks);
    empty := d.EmptyDir(self, beyond);
    ModelsSize(d.Contents(), AfterAll(m, ops, rs));
    DotsBound(d.blocks, AfterAll(m, ops, rs));
    JustDots(AfterAll(m, ops, rs));
  }

  lemma NewDirModels(b: seq<byte>, self: nat, parent: nat)
    requires WellFormed(b) && Names(b) == [Entry([DOT], self), Entry([DOT, DOT], parent)]
    ensures Sound([b]) && Models(Bindings([b]), map[[DOT] := self, [DOT, DOT] := parent])
  {
    hide WellFormed, Names;
    assert From([b], 1) == [];
    assert From([b], 0) == Names(b) + [];
    assert Bindings([b]) == multiset{Entry([DOT], self), Entry([DOT, DOT], parent)};
    assert |[DOT]| != |[DOT, DOT]|;
  }

  lemma DotsKept(b: seq<byte>, now: seq<seq<byte>>)
    requires KeepsDot([b], now) && Dotted(b) && DeLen(b, 0) == RecLen(1)
    ensures now != [] && Dotted(now[0]) && DeLen(now[0], 0) == RecLen(1) && Ino(now[0], 0) == Ino(b, 0)
  {
    hide Dotted;
  }

  lemma DotsBound(blocks: seq<seq<byte>>, m: map<seq<byte>, nat>)
    requires Sound(blocks) && blocks != [] && Dotted(blocks[0]) && DeLen(blocks[0], 0) == RecLen(1)
    requires Models(Bindings(blocks), m)
    ensures [DOT] in m && [DOT, DOT] in m
  {
    hide Models, Dotted, From, RecLen, Padded;
    var b := blocks[0];
    DotEntries(b);
    BoundBy(blocks, 0, Entry([DOT], Ino(b, 0)));
    BoundBy(blocks, 0, Entry([DOT, DOT], Ino(b, 16)));
    ModelsBound(Bindings(blocks), m, [DOT]);
    ModelsBound(Bindings(blocks), m, [DOT, DOT]);
  }

  lemma DotEntries(b: seq<byte>)
    requires WellFormed(b) && Dotted(b) && DeLen(b, 0) == RecLen(1)
    ensures Entry([DOT], Ino(b, 0)) in Names(b) && Entry([DOT, DOT], Ino(b, 16)) in Names(b)
  {
    hide FromLE, Live;
    assert Boundary(b, 0) && Boundary(b, 16);
    DotBoundary(b, 0);
    DotBoundary(b, 16);
    Around(b, 0);
    Around(b, 16);
  }

  lemma JustDots(m: map<seq<byte>, nat>)
    requires [DOT] in m && [DOT, DOT] in m
    ensures |m| == 2 <==> m.Keys == {[DOT], [DOT, DOT]}
  {
    var two := {[DOT], [DOT, DOT]};
    assert |[DOT]| != |[DOT, DOT]|;
    assert |two| == 2;
    assert |m| == |m.Keys|;
    assert m.Keys == two + (m.Keys - two);
  }

  /** Removing a name and adding it again needs no new block. */
  method TakeBack(d: Dir, name: seq<byte>, ino: nat, beyond: seq<byte>) returns (removed: Status, added: Status,
                  ghost gone: Entry)
    requires d.Valid() && 12 + NAME_LEN <= |beyond| && ino < Pow256(8)
    modifies d`blocks
    ensures d.Valid() && |d.blocks| == old(|d.blocks|)
    ensures removed.Done? <==> Bound(old(d.Contents()), name)
    ensures removed.Done? ==> added.Done? && gone.name == name &&
                              d.Contents() + multiset{gone} == old(d.Contents()) + multiset(LiveOf(name, ino))
  {
    hide Bindings, Sound, LiveOf, Bound, HasRoom, RecLen, Pow256, KeepsDot;
    OddNames(d.blocks, name);
    removed, gone := d.RemoveEntry(name, beyond);
    added := removed;
    if removed.Done? {
      var scratch := seq(BLOCK, _ => 0);
      added := d.AddEntry(name, ino, false, scratch);
    }
  }

  /** The blocks hold the bindings of map m. */
  ghost predicate Shows(blocks: seq<seq<byte>>, m: map<seq<byte>, nat>) {
    Sound(blocks) && Models(Bindings(blocks), m)
  }

  lemma Shown(blocks: seq<seq<byte>>, m: map<seq<byte>, nat>)
    requires Sound(blocks) && Models(Bindings(blocks), m)
    ensures Shows(blocks, m)
  {
  }

  /** Before each operation the blocks hold what the map then holds, and want of space
      is judged by them. */
  ghost predicate Traced(m: map<seq<byte>, nat>, ops: seq<Op>, rs: seq<Outcome>, dirs: seq<seq<seq<byte>>>) {
    |rs| <= |ops| && |dirs| == |rs| + 1 &&
    forall i :: 0 <= i < |rs| ==> SpaceRight(dirs[i], ops[i], rs[i]) && Shows(dirs[i], AfterAll(m, ops[..i], rs[..i]))
  }

  lemma TracedMore(m: map<seq<byte>, nat>, ops: seq<Op>, rs: seq<Outcome>, dirs: seq<seq<seq<byte>>>, r: Outcome,
                   now: seq<seq<byte>>)
    requires Traced(m, ops, rs, dirs) && |rs| < |ops|
    requires SpaceRight(dirs[|rs|], ops[|rs|], r) && Shows(dirs[|rs|], AfterAll(m, ops[..|rs|], rs))
    ensures Traced(m, ops, rs + [r], dirs + [now])
  {
    hide SpaceRight, Shows, AfterAll;
    var rs', dirs' := rs + [r], dirs + [now];
    forall i | 0 <= i < |rs'| ensures SpaceRight(dirs'[i], ops[i], rs'[i]) && Shows(dirs'[i], AfterAll(m, ops[..i], rs'[..i])) {
      assert rs'[..i] == rs[..i];
      assert rs[..|rs|] == rs;
    }
  }

  lemma NoneYet(m: map<seq<byte>, nat>, ops: seq<Op>, now: seq<seq<byte>>)
    ensures AfterAll(m, ops[..0], []) == m && AllRight(m, ops[..0], []) && Traced(m, ops, [], [now])
  {
  }

  lemma OneMore(m: map<seq<byte>, nat>, ops: seq<Op>, rs: seq<Outcome>, r: Outcome)
    requires |rs| < |ops| && AllRight(m, ops[..|rs|], rs) && Right(AfterAll(m, ops[..|rs|], rs), ops[|rs|], r)
    ensures AllRight(m, ops[..|rs| + 1], rs + [r])
    ensures AfterAll(m, ops[..|rs| + 1], rs + [r]) == After(AfterAll(m, ops[..|rs|], rs), ops[|rs|], r)
  {
    hide Right, After;
    assert ops[..|rs| + 1][..|rs|] == ops[..|rs|] && (rs + [r])[..|rs|] == rs;
  }

  /** A block of zeros starts with a record of length 0: readdir never leaves it. */
  method ZeroBlockSticks(d: Dir, room: nat, beyond: seq<byte>) returns (stuck: bool)
    requires d.blocks == [seq(BLOCK, _ => 0)] && 0 < room && 12 <= |beyond|
    ensures stuck
  {
    ZeroBlockIsBad();
    var pos, emitted;
    pos, emitted, stuck := d.Readdir(0, room, beyond);
    assert BadStart(d.blocks, 0 * BLOCK);
  }

  lemma ZeroBlockIsBad()
    ensures BadStart([seq(BLOCK, _ => 0)], 0)
  {
    var b: seq<byte> := seq(BLOCK, _ => 0);
    assert b[8..10] == [0, 0];
    assert FromLE([0, 0]) == 0 by { assert FromLE([0]) == 0; }
  }
}
