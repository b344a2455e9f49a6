/** File data (xip.c, and pmfs_setsize of inode.c) for files of 4K blocks:
    read, write and truncate on a file that behaves as one zero-filled byte array. */
module FileContents {
  import opened Arith
  import opened BlockList
  import opened Allocator
  import opened BlockTree
  import opened TreeGrowth
  import opened Codec
  import opened InodeTree
  import opened InodeOps
  import opened InodeAlloc

  /** Byte k of the file: a byte of its data block, or 0 in a hole. */
  function ByteAt(d: map<nat, seq<byte>>, t: Tree, h: nat, k: nat): byte
    requires Shape(t, h)
  {
    var b := FullLookup(t, h, k / BLOCK);
    if b != 0 && b in d && |d[b]| == BLOCK then d[b][k % BLOCK] else 0
  }

  /** Every device block holds BLOCK bytes. */
  ghost predicate Formatted(d: map<nat, seq<byte>>, end: nat) {
    forall b :: 0 <= b < end ==> b in d && |d[b]| == BLOCK
  }

  /** Writing into the block of file block i changes those bytes of the file and no others. */
  lemma PatchByte(d: map<nat, seq<byte>>, t: Tree, h: nat, i: nat, at: nat, bs: seq<byte>, k: nat)
    requires Shape(t, h) && Disjoint(t, 1) && at + |bs| <= BLOCK
    requires var b := FullLookup(t, h, i); b != 0 && b in d && |d[b]| == BLOCK
    ensures var b := FullLookup(t, h, i);
            ByteAt(d[b := Patch(d[b], at, bs)], t, h, k) ==
            if i * BLOCK + at <= k < i * BLOCK + at + |bs| then bs[k - i * BLOCK - at] else ByteAt(d, t, h, k)
  {
    hide Patch, Lookup, Shape, Disjoint, FullLookup;
    OneHome(t, h, i, k / BLOCK);
  }

  lemma OneHome(t: Tree, h: nat, i: nat, k: nat)
    requires Shape(t, h) && Disjoint(t, 1)
    ensures FullLookup(t, h, k) == FullLookup(t, h, i) != 0 ==> k == i
  {
    hide Shape, Disjoint, Lookup, Pow;
    if FullLookup(t, h, k) == FullLookup(t, h, i) != 0 { LookupInjective(t, h, i, k, 1); }
  }

  /** A mapped block lies in the device. */
  lemma MappedInDevice(l: seq<Interval>, start: nat, end: nat, t: Tree, h: nat, i: nat)
    requires Canonical(l, start, end) && Shape(t, h) && Held(l, t, 1) && FullLookup(t, h, i) != 0
    ensures FullLookup(t, h, i) < end && InUse(l, FullLookup(t, h, i))
  {
    LookupOwned(t, h, i, 1);
    assert InUse(l, FullLookup(t, h, i));
  }

  // ---------------------------------------------------------------- the abstract file

  /** Bytes `bs` written at `pos`; a gap before them reads as zeros. */
  function Overwrite(c: seq<byte>, pos: nat, bs: seq<byte>): seq<byte> {
    if bs == [] then c
    else seq(if |c| < pos + |bs| then pos + |bs| else |c|,
             k requires 0 <= k => if pos <= k < pos + |bs| then bs[k - pos] else if k < |c| then c[k] else 0)
  }

  /** The file cut or zero-extended to n bytes. */
  function Resize(c: seq<byte>, n: nat): seq<byte> {
    seq(n, k requires 0 <= k => if k < |c| then c[k] else 0)
  }

  /** What a read of `len` bytes at `pos` returns. */
  function Slice(c: seq<byte>, pos: nat, len: nat): seq<byte> {
    if |c| <= pos then [] else if |c| <= pos + len then c[pos..] else c[pos..pos + len]
  }

  /** No byte of the file from n on is anything but 0, mapped or not. */
  ghost predicate ZeroFrom(d: map<nat, seq<byte>>, t: Tree, h: nat, n: nat)
    requires Shape(t, h)
  {
    forall k: nat :: n <= k ==> ByteAt(d, t, h, k) == 0
  }

  ghost predicate FileOK(sb: SbInfo, dev: Device, pi: Inode, t: Tree)
    reads sb, dev, pi
  {
    && HasTree(sb, dev, pi, t) && Tidy(t) && ExactCount(pi, t) && pi.btype.Block4K?
    && Formatted(dev.data, sb.blockEnd)
    && (pi.eofBlocks || NoneFrom(t, pi.height, Block4K, pi.size))
    && ZeroFrom(dev.data, t, pi.height, pi.size)
  }

  /** The first n bytes of the file. */
  function Bytes(d: map<nat, seq<byte>>, t: Tree, h: nat, n: nat): seq<byte>
    requires Shape(t, h)
  {
    seq(n, k requires 0 <= k => ByteAt(d, t, h, k))
  }

  /** The file as one byte sequence. */
  ghost function Content(dev: Device, pi: Inode, t: Tree): seq<byte>
    requires Shape(t, pi.height)
    reads dev, pi
  {
    Bytes(dev.data, t, pi.height, pi.size)
  }

  // ---------------------------------------------------------------- blocks

  /** d' is d with the file's bytes [at, at + |bs|) set to bs. */
  ghost predicate Stored(d: map<nat, seq<byte>>, d': map<nat, seq<byte>>, t: Tree, h: nat, at: nat, bs: seq<byte>)
    requires Shape(t, h)
  {
    forall k: nat :: ByteAt(d', t, h, k) == if at <= k < at + |bs| then bs[k - at] else ByteAt(d, t, h, k)
  }

  lemma PatchStored(d: map<nat, seq<byte>>, t: Tree, h: nat, i: nat, at: nat, bs: seq<byte>)
    requires Shape(t, h) && Disjoint(t, 1) && at + |bs| <= BLOCK
    requires var b := FullLookup(t, h, i); b != 0 && b in d && |d[b]| == BLOCK
    ensures var b := FullLookup(t, h, i); Stored(d, d[b := Patch(d[b], at, bs)], t, h, i * BLOCK + at, bs)
  {
    hide ByteAt, Shape, Disjoint, FullLookup, Patch;
    var d' := d[FullLookup(t, h, i) := Patch(d[FullLookup(t, h, i)], at, bs)];
    forall k: nat ensures ByteAt(d', t, h, k) ==
                          if i * BLOCK + at <= k < i * BLOCK + at + |bs| then bs[k - i * BLOCK - at] else ByteAt(d, t, h, k) {
      PatchByte(d, t, h, i, at, bs, k);
    }
  }

  /** Every file block that [at, at + n) touches is mapped. */
  ghost predicate Mapped(t: Tree, h: nat, at: nat, n: nat)
    requires Shape(t, h)
  {
    forall i :: 0 <= i && at < (i + 1) * BLOCK && i * BLOCK < at + n ==> FullLookup(t, h, i) != 0
  }

  /** Copy bytes into one mapped block of the file. */
  method StoreInBlock(sb: SbInfo, dev: Device, pi: Inode, i: nat, at: nat, bs: seq<byte>, ghost t: Tree)
    requires HasTree(sb, dev, pi, t) && pi.btype.Block4K? && Formatted(dev.data, sb.blockEnd)
    requires at + |bs| <= BLOCK && FullLookup(t, pi.height, i) != 0
    modifies dev`data
    ensures Formatted(dev.data, sb.blockEnd)
    ensures Stored(old(dev.data), dev.data, t, pi.height, i * BLOCK + at, bs)
    ensures forall b :: b in old(dev.data) && !Owns(t, 1, b) ==> b in dev.data && dev.data[b] == old(dev.data)[b]
  {
    hide Patch, Shape, Rep, Disjoint, Lookup, ByteAt, Canonical, Owns, Held, Pow, Covered;
    MappedInDevice(sb.inuse, sb.blockStart, sb.blockEnd, t, pi.height, i);
    LookupOwned(t, pi.height, i, 1);
    var b := FindDataBlock(dev, pi, i, t);
    PatchStored(dev.data, t, pi.height, i, at, bs);
    dev.data := dev.data[b := Patch(dev.data[b], at, bs)];
  }

  lemma StoredTwice(d0: map<nat, seq<byte>>, d1: map<nat, seq<byte>>, d2: map<nat, seq<byte>>, t: Tree, h: nat, at: nat,
                    bs: seq<byte>, m: nat, n: nat)
    requires Shape(t, h) && m <= n <= |bs|
    requires Stored(d0, d1, t, h, at, bs[..m]) && Stored(d1, d2, t, h, at + m, bs[m..n])
    ensures Stored(d0, d2, t, h, at, bs[..n])
  {
    hide ByteAt, Shape;
  }

  /** __pmfs_xip_file_write without the size update: copy block by block. */
  method CopyBlocks(sb: SbInfo, dev: Device, pi: Inode, pos: nat, buf: seq<byte>, ghost t: Tree)
    requires HasTree(sb, dev, pi, t) && pi.btype.Block4K? && Formatted(dev.data, sb.blockEnd)
    requires Mapped(t, pi.height, pos, |buf|)
    modifies dev`data
    ensures Formatted(dev.data, sb.blockEnd)
    ensures Stored(old(dev.data), dev.data, t, pi.height, pos, buf)
    ensures forall b :: b in old(dev.data) && !Owns(t, 1, b) ==> b in dev.data && dev.data[b] == old(dev.data)[b]
  {
    hide Shape, Rep, Disjoint, Lookup, ByteAt, Canonical, Owns, Held, FullLookup, Formatted, Stored, Covered;
    var written: nat := 0;
    NothingStored(dev.data, t, pi.height, pos, buf);
    while written < |buf|
      invariant written <= |buf| && Formatted(dev.data, sb.blockEnd)
      invariant Stored(old(dev.data), dev.data, t, pi.height, pos, buf[..written])
      invariant forall b :: b in old(dev.data) && !Owns(t, 1, b) ==> b in dev.data && dev.data[b] == old(dev.data)[b]
    {
      var offset, index := (pos + written) % BLOCK, (pos + written) / BLOCK;
      var bytes := if |buf| - written < BLOCK - offset then |buf| - written else BLOCK - offset;
      ghost var d := dev.data;
      assert FullLookup(t, pi.height, index) != 0;
      StoreInBlock(sb, dev, pi, index, offset, buf[written..written + bytes], t);
      StoredTwice(old(dev.data), d, dev.data, t, pi.height, pos, buf, written, written + bytes);
      written := written + bytes;
    }
    assert buf[..written] == buf;
  }

  lemma NothingStored(d: map<nat, seq<byte>>, t: Tree, h: nat, at: nat, bs: seq<byte>)
    requires Shape(t, h)
    ensures Stored(d, d, t, h, at, bs[..0])
  {
  }

  /** pmfs_clear_edge_blk: zero the part of a new edge block that will not be
      written, rounded to 8 bytes. */
  method ClearEdge(sb: SbInfo, dev: Device, pi: Inode, isNew: bool, block: nat, off: nat, isEnd: bool, ghost t: Tree)
    requires HasTree(sb, dev, pi, t) && pi.btype.Block4K? && Formatted(dev.data, sb.blockEnd)
    requires off < BLOCK && FullLookup(t, pi.height, block) != 0
    modifies dev`data
    ensures Formatted(dev.data, sb.blockEnd)
    ensures var lo, hi := EdgeLo(off, isEnd), EdgeHi(off, isEnd);
            if isNew then Stored(old(dev.data), dev.data, t, pi.height, block * BLOCK + lo, seq(hi - lo, _ => 0))
            else dev.data == old(dev.data)
    ensures forall b :: b in old(dev.data) && !Owns(t, 1, b) ==> b in dev.data && dev.data[b] == old(dev.data)[b]
  {
    if isNew {
      var lo, hi := EdgeLo(off, isEnd), EdgeHi(off, isEnd);
      StoreInBlock(sb, dev, pi, block, lo, seq(hi - lo, _ => 0), t);
    }
  }

  function EdgeLo(off: nat, isEnd: bool): nat { if isEnd then off - off % 8 else 0 }

  function EdgeHi(off: nat, isEnd: bool): (r: nat)
    requires off < BLOCK
    ensures EdgeLo(off, isEnd) <= r <= BLOCK
  {
    if isEnd then BLOCK else off + (8 - off % 8)
  }

  // ---------------------------------------------------------------- write

  /** Allocation leaves every byte alone except in blocks it newly maps. */
  lemma AllocKeepsByte(s: State, s': State, end: nat, t: Tree, h: nat, t': Tree, h': nat, f: nat, l: nat, k: nat)
    requires Enlarged(s, s', t, h, t', h', f, l, 1) && Held(s.inuse, t, 1) && Formatted(s.data, end)
    requires Formatted(s'.data, end)
    requires FullLookup(t, h, k / BLOCK) == 0 || FullLookup(t, h, k / BLOCK) < end
    requires FullLookup(t, h, k / BLOCK) != 0 || !(f <= k / BLOCK <= l)
    ensures ByteAt(s'.data, t', h', k) == ByteAt(s.data, t, h, k)
  {
    var b := FullLookup(t, h, k / BLOCK);
    if b != 0 { LookupOwned(t, h, k / BLOCK, 1); }
  }

  /** State while [pos, pos + n) is about to be written: every other byte reads as before. */
  ghost predicate ElsewhereSame(d: map<nat, seq<byte>>, t: Tree, h: nat, d': map<nat, seq<byte>>, t': Tree, h': nat,
                                pos: nat, n: nat)
    requires Shape(t, h) && Shape(t', h')
  {
    forall k: nat :: !(pos <= k < pos + n) ==> ByteAt(d', t', h', k) == ByteAt(d, t, h, k)
  }

  /** Clearing the new edge blocks makes the rest of them read as the holes they were. */
  lemma EdgesCleared(s: State, s': State, d2: map<nat, seq<byte>>, d3: map<nat, seq<byte>>, start: nat, end: nat,
                     t: Tree, h: nat, t': Tree, h': nat, pos: nat, n: nat, newS: bool, newE: bool)
    requires 0 < n && Canonical(s.inuse, start, end) && Held(s.inuse, t, 1) && Formatted(s.data, end)
    requires Formatted(s'.data, end)
    requires Enlarged(s, s', t, h, t', h', pos / BLOCK, (pos + n - 1) / BLOCK, 1)
    requires newS <==> pos % BLOCK != 0 && FullLookup(t, h, pos / BLOCK) == 0
    requires newE <==> (pos + n) % BLOCK != 0 && FullLookup(t, h, (pos + n - 1) / BLOCK) == 0
    requires var o := pos % BLOCK;
             var lo, hi := EdgeLo(o, false), EdgeHi(o, false);
             if newS then Stored(s'.data, d2, t', h', pos / BLOCK * BLOCK + lo, seq(hi - lo, _ => 0)) else d2 == s'.data
    requires var o := (pos + n) % BLOCK;
             var lo, hi := EdgeLo(o, true), EdgeHi(o, true);
             if newE then Stored(d2, d3, t', h', (pos + n - 1) / BLOCK * BLOCK + lo, seq(hi - lo, _ => 0)) else d3 == d2
    ensures ElsewhereSame(s.data, t, h, d3, t', h', pos, n)
  {
    forall k: nat | !(pos <= k < pos + n) ensures ByteAt(d3, t', h', k) == ByteAt(s.data, t, h, k) {
      var i := k / BLOCK;
      if FullLookup(t, h, i) != 0 {
        MappedInDevice(s.inuse, start, end, t, h, i);
        AllocKeepsByte(s, s', end, t, h, t', h', pos / BLOCK, (pos + n - 1) / BLOCK, k);
      } else if !(pos / BLOCK <= i <= (pos + n - 1) / BLOCK) {
        AllocKeepsByte(s, s', end, t, h, t', h', pos / BLOCK, (pos + n - 1) / BLOCK, k);
      }
      EdgeByte(s'.data, d2, d3, t, h, t', h', pos, n, newS, newE, k);
    }
  }

  lemma EdgeByte(d1: map<nat, seq<byte>>, d2: map<nat, seq<byte>>, d3: map<nat, seq<byte>>,
                 t: Tree, h: nat, t': Tree, h': nat, pos: nat, n: nat, newS: bool, newE: bool, k: nat)
    requires 0 < n && Shape(t, h) && Shape(t', h') && !(pos <= k < pos + n)
    requires newS <==> pos % BLOCK != 0 && FullLookup(t, h, pos / BLOCK) == 0
    requires newE <==> (pos + n) % BLOCK != 0 && FullLookup(t, h, (pos + n - 1) / BLOCK) == 0
    requires var o := pos % BLOCK;
             var lo, hi := EdgeLo(o, false), EdgeHi(o, false);
             if newS then Stored(d1, d2, t', h', pos / BLOCK * BLOCK + lo, seq(hi - lo, _ => 0)) else d2 == d1
    requires var o := (pos + n) % BLOCK;
             var lo, hi := EdgeLo(o, true), EdgeHi(o, true);
             if newE then Stored(d2, d3, t', h', (pos + n - 1) / BLOCK * BLOCK + lo, seq(hi - lo, _ => 0)) else d3 == d2
    ensures var i := k / BLOCK;
            if FullLookup(t, h, i) != 0 || !(pos / BLOCK <= i <= (pos + n - 1) / BLOCK)
            then ByteAt(d3, t', h', k) == ByteAt(d1, t', h', k)
            else ByteAt(d3, t', h', k) == 0
  {
    hide ByteAt, Shape, FullLookup;
  }

  /** The file at one moment. */
  datatype Snapshot = Snapshot(inuse: seq<Interval>, data: map<nat, seq<byte>>, t: Tree, h: nat, eof: bool, size: nat)

  ghost function Snap(sb: SbInfo, dev: Device, pi: Inode, t: Tree): Snapshot
    reads sb, dev, pi
  {
    Snapshot(sb.inuse, dev.data, t, pi.height, pi.eofBlocks, pi.size)
  }

  /** Why a write of n bytes at pos can fail: the last block is out of reach of any
      tree, or space ran out, and then there were too few spare blocks for it. */
  ghost predicate Refused(h: nat, l: seq<Interval>, l': seq<Interval>, end: nat, pos: nat, n: nat) {
    && 0 < n
    && var first, last := pos / BLOCK, (pos + n - 1) / BLOCK;
       || TooFar(last, h)
       || (OutOfSpace(l', end, Block4K) && (l != [] ==> Spare(l, end) <= Enough(last - first + 1, h, 1)))
  }

  /** What a refused write to file blocks [first, last] leaves of the file: the size as it
      was, every mapping as it was, more blocks only in that range and taken from the free
      ones, and every byte as it was but those of blocks it began to map; the flag tells
      whether a data block was what failed. */
  ghost predicate Interrupted(a: Snapshot, b: Snapshot, first: nat, last: nat) {
    && b.size == a.size && Shape(a.t, a.h) && Shape(b.t, b.h) && a.h <= b.h
    && (forall i: nat :: FullLookup(b.t, b.h, i) == FullLookup(a.t, a.h, i) || (FullLookup(a.t, a.h, i) == 0 && first <= i <= last))
    && Gained(a.inuse, b.inuse, a.t, b.t, 1) && GrewFrom(a.t, a.h, b.t, b.h, first)
    && Flagged(b.t, b.h, first, last, a.eof, b.eof) && InTurn(a.t, a.h, b.t, b.h, first)
    && forall k: nat :: FullLookup(a.t, a.h, k / BLOCK) != 0 || !(first <= k / BLOCK <= last) ==>
         ByteAt(b.data, b.t, b.h, k) == ByteAt(a.data, a.t, a.h, k)
  }

  /** pmfs_xip_file_write, with pmfs_file_write_fast as its first branch.
      `ok` is false when an allocation failed. */
  method Write(sb: SbInfo, dev: Device, pi: Inode, pos: nat, buf: seq<byte>, ghost t: Tree) returns (ok: bool, ghost t': Tree)
    requires FileOK(sb, dev, pi, t)
    modifies sb, dev, pi`root, pi`height, pi`iBlocks, pi`eofBlocks, pi`size
    ensures sb.Valid() && sb.Total() == old(sb.Total()) && HasTree(sb, dev, pi, t')
    ensures ok ==> FileOK(sb, dev, pi, t') && Content(dev, pi, t') == Overwrite(old(Content(dev, pi, t)), pos, buf)
    ensures ok ==> pi.eofBlocks == old(pi.eofBlocks) && (buf == [] ==> t' == t && unchanged(sb) && unchanged(dev) && unchanged(pi))
    ensures ok && buf != [] ==>
              Remapped(old(sb.inuse), sb.inuse, t, old(pi.height), t', pi.height, pos / BLOCK, (pos + |buf| - 1) / BLOCK, 1)
    ensures !ok ==> Refused(old(pi.height), old(sb.inuse), sb.inuse, sb.blockEnd, pos, |buf|)
    ensures !ok ==> Interrupted(old(Snap(sb, dev, pi, t)), Snap(sb, dev, pi, t'), pos / BLOCK, (pos + |buf| - 1) / BLOCK)
    ensures !ok ==> ExactCount(pi, t') && Formatted(dev.data, sb.blockEnd)
  {
    hide Interrupted, Refused, Remapped, Rep, Disjoint, Held, Canonical, Covered, Shape, ByteAt, Tidy, Written, NoneFrom, ZeroFrom,
         FullLookup, Owns, Count, Stored, Formatted, Bytes, Overwrite, NewlyMapped;
    if buf == [] {
      EmptyWrite(Content(dev, pi, t), pos);
      return true, t;
    }
    ghost var d0, h0, size0, eof0 := dev.data, pi.height, pi.size, pi.eofBlocks;
    var count := |buf|;
    var offset := pos % BLOCK;
    var numBlocks := (count + offset - 1) / BLOCK + 1;
    var startBlk := pos / BLOCK;
    var endBlk := startBlk + numBlocks - 1;
    LastBlock(pos, count);
    var block := FindDataBlock(dev, pi, startBlk, t);
    var sameBlock := (count + offset - 1) / BLOCK == 0;
    if block != 0 && sameBlock {
      t' := t;
      StoreInBlock(sb, dev, pi, startBlk, offset, buf, t);
      FastWritten(d0, dev.data, t, pi.height, pos, buf);
      SameMapping(sb.inuse, t, pi.height, startBlk, endBlk);
    } else {
      ok, t' := WriteSlow(sb, dev, pi, pos, buf, startBlk, endBlk, t);
      if !ok { return; }
    }
    if pos + count > pi.size { pi.size := pos + count; }
    WriteDone(d0, t, h0, size0, dev.data, t', pi.height, pi.size, pos, buf, eof0);
    ok := true;
  }

  /** Nothing is mapped anew when the one block is there. */
  lemma SameMapping(l: seq<Interval>, t: Tree, h: nat, first: nat, last: nat)
    requires Shape(t, h) && Held(l, t, 1) && first == last && FullLookup(t, h, first) != 0
    ensures Remapped(l, l, t, h, t, h, first, last, 1)
  {
    hide Shape, NoEmpty, SpineReach, Owns;
  }

  lemma EmptyWrite(c: seq<byte>, pos: nat)
    ensures Overwrite(c, pos, []) == c
  {
  }

  lemma LastBlock(pos: nat, count: nat)
    requires 0 < count
    ensures pos / BLOCK + ((count + pos % BLOCK - 1) / BLOCK + 1) - 1 == (pos + count - 1) / BLOCK
    ensures (count + pos % BLOCK - 1) / BLOCK == 0 ==> pos % BLOCK + count <= BLOCK
    ensures pos / BLOCK * BLOCK + pos % BLOCK == pos
  {
  }

  lemma FastWritten(d: map<nat, seq<byte>>, d': map<nat, seq<byte>>, t: Tree, h: nat, pos: nat, buf: seq<byte>)
    requires Shape(t, h) && Stored(d, d', t, h, pos, buf)
    ensures Written(d, t, h, d', t, h, pos, buf) && NewlyMapped(t, h, t, h, pos / BLOCK, (pos + |buf| - 1) / BLOCK)
  {
    hide ByteAt, Shape;
  }

  /** Whatever t' maps, t mapped or lies in [f, l]. */
  ghost predicate NewlyMapped(t: Tree, h: nat, t': Tree, h': nat, f: int, l: int)
    requires Shape(t, h) && Shape(t', h')
  {
    forall i: nat :: FullLookup(t', h', i) != 0 ==> FullLookup(t, h, i) != 0 || f <= i <= l
  }

  /** What a write of buf at pos means for the file as a whole. */
  lemma WriteDone(d: map<nat, seq<byte>>, t: Tree, h: nat, size: nat, d': map<nat, seq<byte>>, t': Tree, h': nat, size': nat,
                  pos: nat, buf: seq<byte>, eof: bool)
    requires Shape(t, h) && Shape(t', h') && buf != [] && Written(d, t, h, d', t', h', pos, buf)
    requires NewlyMapped(t, h, t', h', pos / BLOCK, (pos + |buf| - 1) / BLOCK)
    requires ZeroFrom(d, t, h, size) && (eof || NoneFrom(t, h, Block4K, size))
    requires size' == if pos + |buf| > size then pos + |buf| else size
    ensures ZeroFrom(d', t', h', size') && (eof || NoneFrom(t', h', Block4K, size'))
    ensures Bytes(d', t', h', size') == Overwrite(Bytes(d, t, h, size), pos, buf)
  {
    hide ByteAt, Shape, Lookup, Bytes, Written, ZeroFrom, NewlyMapped, NoneFrom;
    WriteZeros(d, t, h, size, d', t', h', size', pos, buf);
    if !eof { WriteInside(t, h, size, t', h', size', pos, |buf|); }
    WriteBytes(d, t, h, size, d', t', h', size', pos, buf);
  }

  lemma WriteZeros(d: map<nat, seq<byte>>, t: Tree, h: nat, size: nat, d': map<nat, seq<byte>>, t': Tree, h': nat,
                   size': nat, pos: nat, buf: seq<byte>)
    requires Shape(t, h) && Shape(t', h') && Written(d, t, h, d', t', h', pos, buf) && ZeroFrom(d, t, h, size)
    requires size <= size' && pos + |buf| <= size'
    ensures ZeroFrom(d', t', h', size')
  {
    hide ByteAt, Shape;
  }

  lemma WriteInside(t: Tree, h: nat, size: nat, t': Tree, h': nat, size': nat, pos: nat, n: nat)
    requires Shape(t, h) && Shape(t', h') && 0 < n && NewlyMapped(t, h, t', h', pos / BLOCK, (pos + n - 1) / BLOCK)
    requires NoneFrom(t, h, Block4K, size) && size <= size' && pos + n <= size'
    ensures NoneFrom(t', h', Block4K, size')
  {
    hide Shape, Lookup;
    forall i | 0 <= i < Pow(h') && Lookup(t', h', i) != 0 ensures i * BlkSize(Block4K) < size' {
      assert FullLookup(t', h', i) != 0;
      assert FullLookup(t, h, i) != 0 ==> i * BlkSize(Block4K) < size;
    }
  }

  lemma WriteBytes(d: map<nat, seq<byte>>, t: Tree, h: nat, size: nat, d': map<nat, seq<byte>>, t': Tree, h': nat,
                   size': nat, pos: nat, buf: seq<byte>)
    requires Shape(t, h) && Shape(t', h') && buf != [] && Written(d, t, h, d', t', h', pos, buf) && ZeroFrom(d, t, h, size)
    requires size' == if pos + |buf| > size then pos + |buf| else size
    ensures Bytes(d', t', h', size') == Overwrite(Bytes(d, t, h, size), pos, buf)
  {
    hide ByteAt, Shape;
  }

  /** Both edges of a write of n bytes, after its blocks have been allocated. */
  method ClearEdges(sb: SbInfo, dev: Device, pi: Inode, pos: nat, n: nat, newS: bool, newE: bool, ghost s: State,
                    ghost t: Tree,
                    ghost h: nat, ghost t': Tree)
    requires HasTree(sb, dev, pi, t') && pi.btype.Block4K? && Formatted(dev.data, sb.blockEnd) && 0 < n
    requires Canonical(s.inuse, sb.blockStart, sb.blockEnd) && Held(s.inuse, t, 1) && Formatted(s.data, sb.blockEnd)
    requires Enlarged(s, Now(sb, dev), t, h, t', pi.height, pos / BLOCK, (pos + n - 1) / BLOCK, 1)
    requires newS <==> pos % BLOCK != 0 && FullLookup(t, h, pos / BLOCK) == 0
    requires newE <==> (pos + n) % BLOCK != 0 && FullLookup(t, h, (pos + n - 1) / BLOCK) == 0
    requires FullLookup(t', pi.height, pos / BLOCK) != 0 && FullLookup(t', pi.height, (pos + n - 1) / BLOCK) != 0
    modifies dev`data
    ensures Formatted(dev.data, sb.blockEnd) && ElsewhereSame(s.data, t, h, dev.data, t', pi.height, pos, n)
  {
    hide Rep, Disjoint, Held, Canonical, Covered, Shape, Tidy, FullLookup, Owns, Stored, Formatted, ElsewhereSame;
    ghost var s1 := Now(sb, dev);
    ClearEdge(sb, dev, pi, newS, pos / BLOCK, pos % BLOCK, false, t');
    ghost var d2 := dev.data;
    ClearEdge(sb, dev, pi, newE, (pos + n - 1) / BLOCK, (pos + n) % BLOCK, true, t');
    EdgesCleared(s, s1, d2, dev.data, sb.blockStart, sb.blockEnd, t, h, t', pi.height, pos, n, newS, newE);
  }

  /** The write path that allocates: allocate, clear new edges, copy. */
  method WriteSlow(sb: SbInfo, dev: Device, pi: Inode, pos: nat, buf: seq<byte>, startBlk: nat, endBlk: nat, ghost t: Tree)
    returns (ok: bool, ghost t': Tree)
    requires FileOK(sb, dev, pi, t) && buf != [] && startBlk == pos / BLOCK && endBlk == (pos + |buf| - 1) / BLOCK
    modifies sb, dev, pi`root, pi`height, pi`iBlocks, pi`eofBlocks
    ensures sb.Valid() && sb.Total() == old(sb.Total()) && HasTree(sb, dev, pi, t')
    ensures ok ==> Formatted(dev.data, sb.blockEnd) && Tidy(t') && ExactCount(pi, t') && pi.eofBlocks == old(pi.eofBlocks)
    ensures ok ==> Written(old(dev.data), t, old(pi.height), dev.data, t', pi.height, pos, buf)
    ensures ok ==> NewlyMapped(t, old(pi.height), t', pi.height, startBlk, endBlk)
    ensures ok ==> Remapped(old(sb.inuse), sb.inuse, t, old(pi.height), t', pi.height, startBlk, endBlk, 1)
    ensures !ok ==> Refused(old(pi.height), old(sb.inuse), sb.inuse, sb.blockEnd, pos, |buf|)
    ensures !ok ==> Interrupted(old(Snap(sb, dev, pi, t)), Snap(sb, dev, pi, t'), startBlk, endBlk)
    ensures !ok ==> ExactCount(pi, t') && Formatted(dev.data, sb.blockEnd)
  {
    hide Interrupted, InTurn, Traceless, Flagged, Refused, Remapped, TooFar, Enough, OutOfSpace, Short, Rep, Disjoint,
         Held, Canonical, Covered, Shape, ByteAt, Tidy, Written, NoneFrom, ZeroFrom, FullLookup, Owns, Count, Stored, Formatted, Enlarged, Allocated, ElsewhereSame, NewlyMapped, Mapped;
    ghost var s0, h0, b0, was := Now(sb, dev), pi.height, pi.iBlocks, Snap(sb, dev, pi, t);
    var offset, eblkOffset := pos % BLOCK, (pos + |buf|) % BLOCK;
    var sblk := FindDataBlock(dev, pi, startBlk, t);
    var eblk := FindDataBlock(dev, pi, endBlk, t);
    var newS, newE := offset != 0 && sblk == 0, eblkOffset != 0 && eblk == 0;
    DivMono(pos, pos + |buf| - 1, BLOCK);
    ok, t' := AllocBlocks(sb, dev, pi, startBlk, endBlk - startBlk + 1, false, false, t);
    WhyRefused(h0, s0.inuse, sb.inuse, sb.blockEnd, pos, |buf|, ok);
    if !ok {
      StillThere(was, Snap(sb, dev, pi, t'), s0, Now(sb, dev), b0, pi.iBlocks, sb.blockStart, sb.blockEnd, startBlk, endBlk);
      return;
    }
    ghost var s1 := Now(sb, dev);
    AllocFacts(s0, s1, b0, pi.iBlocks, sb.blockEnd, t, h0, t', pi.height, pos, |buf|);
    ClearEdges(sb, dev, pi, pos, |buf|, newS, newE, s0, t, h0, t');
    ghost var d3 := dev.data;
    CopyBlocks(sb, dev, pi, pos, buf, t');
    SlowWritten(s0.data, t, h0, d3, dev.data, t', pi.height, pos, buf);
  }

  /** A failed allocation leaves the file as it was, but for new blocks in the range. */
  lemma StillThere(a: Snapshot, b: Snapshot, s: State, s': State, c: int, c': int, start: nat, end: nat, first: nat,
                   last: nat)
    requires Allocated(s, s', c, c', a.t, a.h, b.t, b.h, first / 1, (first + (last - first + 1) - 1) / 1, 1, false)
    requires first <= last
    requires Traceless(b.data, a.t, a.h, b.t, b.h, first / 1, 1, false)
    requires Flagged(b.t, b.h, first / 1, (first + (last - first + 1) - 1) / 1, a.eof, b.eof)
    requires InTurn(a.t, a.h, b.t, b.h, first / 1)
    requires a.inuse == s.inuse && a.data == s.data && b.inuse == s'.inuse && b.data == s'.data && b.size == a.size
    requires Canonical(s.inuse, start, end) && Held(s.inuse, a.t, 1) && Formatted(s.data, end) && c == Count(a.t) * 1
    ensures Interrupted(a, b, first, last) && c' == Count(b.t) * 1 && Formatted(s'.data, end)
  {
    hide Shape, FullLookup, Flagged, GrewFrom, Gained, Held, Canonical, InTurn;
    forall k: nat | FullLookup(a.t, a.h, k / BLOCK) != 0 || !(first <= k / BLOCK <= last)
      ensures ByteAt(b.data, b.t, b.h, k) == ByteAt(a.data, a.t, a.h, k)
    {
      if FullLookup(a.t, a.h, k / BLOCK) != 0 { MappedInDevice(s.inuse, start, end, a.t, a.h, k / BLOCK); }
    }
  }

  lemma WhyRefused(h: nat, l: seq<Interval>, l': seq<Interval>, end: nat, pos: nat, n: nat, ok: bool)
    requires 0 < n
    requires var first, last := pos / BLOCK, (pos + n - 1) / BLOCK;
             && (!ok && !TooFar(last, h) ==> Short(l', end, Block4K, false))
             && (l != [] && Spare(l, end) > Enough(last - first + 1, h, 1) ==> (ok <==> !TooFar(last, h)))
    ensures !ok ==> Refused(h, l, l', end, pos, n)
  {
    hide OutOfSpace, TooFar, Enough, Covered;
  }

  lemma AllocFacts(s: State, s': State, b: int, b': int, end: nat, t: Tree, h: nat, t': Tree, h': nat, pos: nat, n: nat)
    requires 0 < n && pos / BLOCK <= (pos + n - 1) / BLOCK && Tidy(t) && b == Count(t) * 1 && Formatted(s.data, end)
    requires Allocated(s, s', b, b', t, h, t', h', pos / BLOCK / 1,
                       (pos / BLOCK + ((pos + n - 1) / BLOCK - pos / BLOCK + 1) - 1) / 1, 1, true)
    ensures Enlarged(s, s', t, h, t', h', pos / BLOCK, (pos + n - 1) / BLOCK, 1)
    ensures Tidy(t') && b' == Count(t') * 1 && Formatted(s'.data, end) && Shape(t, h) && Shape(t', h')
    ensures Mapped(t', h', pos, n) && FullLookup(t', h', pos / BLOCK) != 0 && FullLookup(t', h', (pos + n - 1) / BLOCK) != 0
    ensures NewlyMapped(t, h, t', h', pos / BLOCK, (pos + n - 1) / BLOCK)
    ensures Remapped(s.inuse, s'.inuse, t, h, t', h', pos / BLOCK, (pos + n - 1) / BLOCK, 1)
  {
    hide SpineReach, FullLookup, Shape, Tidy, Gained, NodesKept, LeastHeight, NoEmpty;
    forall i | 0 <= i && pos < (i + 1) * BLOCK && i * BLOCK < pos + n ensures FullLookup(t', h', i) != 0 {
      assert pos / BLOCK <= i <= (pos + n - 1) / BLOCK;
    }
  }

  lemma SlowWritten(d: map<nat, seq<byte>>, t: Tree, h: nat, d3: map<nat, seq<byte>>, d4: map<nat, seq<byte>>, t': Tree,
                    h': nat, pos: nat, buf: seq<byte>)
    requires Shape(t, h) && Shape(t', h') && ElsewhereSame(d, t, h, d3, t', h', pos, |buf|)
    requires Stored(d3, d4, t', h', pos, buf)
    ensures Written(d, t, h, d4, t', h', pos, buf)
  {
    hide ByteAt, Shape;
  }

  /** Bytes [pos, pos + |buf|) are buf, every other byte is as it was. */
  ghost predicate Written(d: map<nat, seq<byte>>, t: Tree, h: nat, d': map<nat, seq<byte>>, t': Tree, h': nat, pos: nat,
                          buf: seq<byte>)
    requires Shape(t, h) && Shape(t', h')
  {
    forall k: nat :: ByteAt(d', t', h', k) == if pos <= k < pos + |buf| then buf[k - pos] else ByteAt(d, t, h, k)
  }

  // ---------------------------------------------------------------- read

  /** do_xip_mapping_read */
  method Read(sb: SbInfo, dev: Device, pi: Inode, pos: nat, len: nat, ghost t: Tree) returns (buf: seq<byte>)
    requires FileOK(sb, dev, pi, t)
    ensures buf == Slice(Content(dev, pi, t), pos, len)
  {
    hide Rep, Disjoint, Held, Canonical, Covered, Shape, ByteAt, Tidy, FullLookup, Owns, Count, NoneFrom, ZeroFrom,
         Formatted, Bytes, Matches;
    buf := [];
    MatchesMore(dev.data, t, pi.height, pos, [], []);
    if pi.size == 0 {
      SliceIs(dev.data, t, pi.height, 0, pos, len, []);
      return;
    }
    var index: nat, offset: nat := pos / BLOCK, pos % BLOCK;
    var endIndex := (pi.size - 1) / BLOCK;
    while true
      invariant index * BLOCK + offset == pos + |buf| && offset < BLOCK && |buf| <= len
      invariant |buf| > 0 ==> pos + |buf| <= pi.size
      invariant Matches(dev.data, t, pi.height, pos, buf)
      decreases len - |buf|
    {
      EndOfFile(index, pi.size);
      var nr := BLOCK;
      if index >= endIndex {
        if index > endIndex { break; }
        nr := (pi.size - 1) % BLOCK + 1;
        if nr <= offset { break; }
      }
      nr := nr - offset;
      if nr > len - |buf| { nr := len - |buf|; }
      var chunk := ReadChunk(sb, dev, pi, index, offset, nr, t);
      MatchesMore(dev.data, t, pi.height, pos, buf, chunk);
      buf := buf + chunk;
      if |buf| >= len { break; }
      offset := offset + nr;
      Carry(index, offset);
      index, offset := index + offset / BLOCK, offset % BLOCK;
    }
    SliceIs(dev.data, t, pi.height, pi.size, pos, len, buf);
  }

  lemma EndOfFile(index: nat, size: nat)
    requires 0 < size
    ensures index < (size - 1) / BLOCK ==> index * BLOCK + BLOCK <= size
    ensures index == (size - 1) / BLOCK ==> index * BLOCK + (size - 1) % BLOCK + 1 == size
    ensures index > (size - 1) / BLOCK ==> index * BLOCK >= size
  {
  }

  lemma Carry(index: nat, offset: nat)
    ensures (index + offset / BLOCK) * BLOCK + offset % BLOCK == index * BLOCK + offset && offset % BLOCK < BLOCK
  {
  }

  /** buf is what the file holds from pos on. */
  ghost predicate Matches(d: map<nat, seq<byte>>, t: Tree, h: nat, pos: nat, buf: seq<byte>)
    requires Shape(t, h)
  {
    forall j: nat :: j < |buf| ==> buf[j] == ByteAt(d, t, h, pos + j)
  }

  lemma MatchesMore(d: map<nat, seq<byte>>, t: Tree, h: nat, pos: nat, buf: seq<byte>, chunk: seq<byte>)
    requires Shape(t, h)
    ensures Matches(d, t, h, pos, [])
    ensures Matches(d, t, h, pos, buf) && Matches(d, t, h, pos + |buf|, chunk) ==> Matches(d, t, h, pos, buf + chunk)
  {
    hide ByteAt, Shape;
    if Matches(d, t, h, pos, buf) && Matches(d, t, h, pos + |buf|, chunk) {
      forall j: nat | j < |buf + chunk| ensures (buf + chunk)[j] == ByteAt(d, t, h, pos + j) {
        if j >= |buf| { assert chunk[j - |buf|] == ByteAt(d, t, h, pos + |buf| + (j - |buf|)); }
      }
    }
  }

  /** Bytes [offset, offset + nr) of file block `index`; a hole reads as zeros. */
  method ReadChunk(sb: SbInfo, dev: Device, pi: Inode, index: nat, offset: nat, nr: nat,
                   ghost t: Tree) returns (chunk: seq<byte>)
    requires FileOK(sb, dev, pi, t) && offset + nr <= BLOCK
    ensures |chunk| == nr && Matches(dev.data, t, pi.height, index * BLOCK + offset, chunk)
  {
    var b := FindDataBlock(dev, pi, index, t);
    if b != 0 {
      MappedInDevice(sb.inuse, sb.blockStart, sb.blockEnd, t, pi.height, index);
      chunk := dev.data[b][offset..offset + nr];
    } else {
      chunk := seq(nr, _ => 0);
    }
    hide Rep, Disjoint, Held, Canonical, Shape, Tidy, FullLookup, Owns, Count, NoneFrom, ZeroFrom;
    forall j: nat | j < nr ensures chunk[j] == ByteAt(dev.data, t, pi.height, index * BLOCK + offset + j) {
      DivModUnique(index * BLOCK + offset + j, BLOCK, index, offset + j);
    }
  }

  lemma SliceIs(d: map<nat, seq<byte>>, t: Tree, h: nat, size: nat, pos: nat, len: nat, buf: seq<byte>)
    requires Shape(t, h) && |buf| <= len && (|buf| > 0 ==> pos + |buf| <= size) && (|buf| < len ==> pos + |buf| >= size)
    requires Matches(d, t, h, pos, buf)
    ensures buf == Slice(Bytes(d, t, h, size), pos, len)
  {
    hide ByteAt, Shape;
  }

  // ---------------------------------------------------------------- truncate

  /** pmfs_block_truncate_page: zero the rest of the block that the new end falls in. */
  method BlockTruncatePage(sb: SbInfo, dev: Device, pi: Inode, newsize: nat, ghost t: Tree)
    requires FileOK(sb, dev, pi, t)
    modifies dev`data
    ensures Formatted(dev.data, sb.blockEnd)
    ensures TailZeroed(old(dev.data), dev.data, t, pi.height, pi.size, newsize)
  {
    hide Rep, Disjoint, Held, Canonical, Covered, Shape, Tidy, FullLookup, Owns, Count, NoneFrom, ZeroFrom,
         Formatted, ByteAt;
    var offset := newsize % BLOCK;
    if offset == 0 || newsize > pi.size { return; }
    var blocknr := newsize / BLOCK;
    var b := FindDataBlock(dev, pi, blocknr, t);
    if b == 0 {
      HoleBytes(dev.data, t, pi.height, blocknr);
      return;
    }
    StoreInBlock(sb, dev, pi, blocknr, offset, seq(BLOCK - offset, _ => 0), t);
  }

  /** If the file shrinks into a block, the rest of that block is zero; nothing else changed. */
  ghost predicate TailZeroed(d: map<nat, seq<byte>>, d': map<nat, seq<byte>>, t: Tree, h: nat, size: nat, n: nat)
    requires Shape(t, h)
  {
    forall k: nat :: ByteAt(d', t, h, k) ==
      if n <= size && n <= k && k / BLOCK == n / BLOCK && n % BLOCK != 0 then 0 else ByteAt(d, t, h, k)
  }

  lemma HoleBytes(d: map<nat, seq<byte>>, t: Tree, h: nat, i: nat)
    requires Shape(t, h) && FullLookup(t, h, i) == 0
    ensures forall k: nat :: k / BLOCK == i ==> ByteAt(d, t, h, k) == 0
  {
  }

  /** pmfs_setsize.  `panic` is the BUG_ON of pmfs_decrease_btree_height. */
  method SetSize(sb: SbInfo, dev: Device, pi: Inode, newsize: nat, ghost t: Tree) returns (panic: bool, ghost t': Tree)
    requires FileOK(sb, dev, pi, t)
    modifies sb, dev, pi`root, pi`height, pi`iBlocks, pi`eofBlocks, pi`size
    ensures sb.Valid() && sb.Total() == old(sb.Total())
    ensures panic <==> HitsBugOn(t, old(pi.height), Block4K, old(pi.eofBlocks), newsize, old(pi.size))
    ensures pi.size == newsize && (panic ==> BareLeft(sb, dev, pi, t') && pi.eofBlocks == old(pi.eofBlocks))
    ensures panic ==> t' == CutTree(t, old(pi.height), Block4K, old(pi.eofBlocks), newsize, old(pi.size)) &&
                      Released(old(sb.inuse), sb.inuse, t, t', 1)
    ensures if newsize == old(pi.size) then dev.data == old(dev.data)
            else TailZeroed(old(dev.data), dev.data, t, old(pi.height), old(pi.size), newsize)
    ensures !panic ==> pi.eofBlocks == (old(pi.eofBlocks) && !(old(Cuts(pi, newsize, pi.size)) && PastBlocks(newsize, pi.iBlocks)))
    ensures !panic ==> FileOK(sb, dev, pi, t') && Content(dev, pi, t') == Resize(old(Content(dev, pi, t)), newsize)
    ensures !panic ==> CutFrom(old(sb.inuse), sb.inuse, t, old(pi.height), t', pi.height, BlocksFor(newsize, Block4K), 1)
  {
    hide Rep, Disjoint, Held, Canonical, Covered, Shape, Tidy, FullLookup, Owns, Count, NoneFrom, ZeroFrom,
         Formatted, ByteAt, CutFrom, HitsBugOn, Bytes, BlocksFor, Untouched, TailZeroed, CutTree, Released, Down, LeastHeight,
         BareLeft, LastToVisit;
    ghost var d0, h0, size0, l0 := dev.data, pi.height, pi.size, sb.inuse;
    var oldsize := pi.size;
    if newsize != oldsize {
      BlockTruncatePage(sb, dev, pi, newsize, t);
      pi.size := newsize;
    }
    CutTreeTidy(t, pi.height, Block4K, pi.eofBlocks, newsize, oldsize);
    panic, t' := TruncateBlocks(sb, dev, pi, newsize, oldsize, newsize, false, t);
    if panic { return; }
    Resized(l0, sb.inuse, d0, dev.data, t, h0, size0, t', pi.height, newsize);
  }

  /** What zeroing the tail and cutting the tree mean for the file as a whole. */
  lemma Resized(l: seq<Interval>, l': seq<Interval>, d: map<nat, seq<byte>>, d': map<nat, seq<byte>>, t: Tree, h: nat,
                size: nat,
                t': Tree, h': nat, n: nat)
    requires Shape(t, h) && ZeroFrom(d, t, h, size) && CutFrom(l, l', t, h, t', h', BlocksFor(n, Block4K), 1)
    requires if n == size then d' == d else TailZeroed(d, d', t, h, size, n)
    ensures Shape(t', h') && ZeroFrom(d', t', h', n) && NoneFrom(t', h', Block4K, n)
    ensures Bytes(d', t', h', n) == Resize(Bytes(d, t, h, size), n)
  {
    forall k: nat ensures ByteAt(d', t', h', k) == if k < n then ByteAt(d, t, h, k) else 0 {
      ResizedByte(l, l', d, d', t, h, size, t', h', n, k);
    }
    forall i | 0 <= i < Pow(h') && Lookup(t', h', i) != 0 ensures i * BlkSize(Block4K) < n {
      assert FullLookup(t', h', i) != 0;
    }
    hide ByteAt, Shape;
  }

  lemma ResizedByte(l: seq<Interval>, l': seq<Interval>, d: map<nat, seq<byte>>, d': map<nat, seq<byte>>, t: Tree, h: nat,
                    size: nat,
                    t': Tree, h': nat, n: nat, k: nat)
    requires Shape(t, h) && ZeroFrom(d, t, h, size) && CutFrom(l, l', t, h, t', h', BlocksFor(n, Block4K), 1)
    requires if n == size then d' == d else TailZeroed(d, d', t, h, size, n)
    ensures Shape(t', h') && ByteAt(d', t', h', k) == if k < n then ByteAt(d, t, h, k) else 0
  {
    hide ByteAt, Shape, CutFrom;
    CutByte(l, l', d', t, h, t', h', BlocksFor(n, Block4K), k);
    BlocksReach(n, k);
  }

  lemma BlocksReach(n: nat, k: nat)
    ensures k / BLOCK >= BlocksFor(n, Block4K) ==> n <= k
    ensures k / BLOCK < BlocksFor(n, Block4K) ==> k < n || (k / BLOCK == n / BLOCK && n % BLOCK != 0)
  {
  }

  lemma CutByte(l: seq<Interval>, l': seq<Interval>, d: map<nat, seq<byte>>, t: Tree, h: nat, t': Tree, h': nat, first: nat,
                k: nat)
    requires CutFrom(l, l', t, h, t', h', first, 1)
    ensures Shape(t, h) && Shape(t', h') && ByteAt(d, t', h', k) == if k / BLOCK >= first then 0 else ByteAt(d, t, h, k)
  {
  }

  // ---------------------------------------------------------------- runs

  datatype Op = WriteAt(pos: nat, bytes: seq<byte>) | Truncate(size: nat) | ReadAt(pos: nat, len: nat)

  /** An operation on one byte sequence. */
  function Apply(c: seq<byte>, op: Op): seq<byte> {
    match op
    case WriteAt(pos, bytes) => Overwrite(c, pos, bytes)
    case Truncate(n) => Resize(c, n)
    case ReadAt(_, _) => c
  }

  function ApplyAll(c: seq<byte>, ops: seq<Op>): seq<byte> {
    if ops == [] then c else Apply(ApplyAll(c, ops[..|ops| - 1]), ops[|ops| - 1])
  }

  /** What the reads of a run return. */
  function Reads(c: seq<byte>, ops: seq<Op>): seq<seq<byte>> {
    if ops == [] then []
    else
      var rest, op := ops[..|ops| - 1], ops[|ops| - 1];
      Reads(c, rest) + if op.ReadAt? then [Slice(ApplyAll(c, rest), op.pos, op.len)] else []
  }

  // ---------------------------------------------------------------- round trips

  /** A write that succeeds is read back. */
  method ReadBack(sb: SbInfo, dev: Device, pi: Inode, pos: nat, buf: seq<byte>, ghost t: Tree)
    returns (ok: bool, got: seq<byte>, ghost t': Tree)
    requires FileOK(sb, dev, pi, t)
    modifies sb, dev, pi`root, pi`height, pi`iBlocks, pi`eofBlocks, pi`size
    ensures ok ==> got == buf
    ensures !ok ==> Refused(old(pi.height), old(sb.inuse), sb.inuse, sb.blockEnd, pos, |buf|)
  {
    hide FileOK, Bytes, Refused, Remapped, Shape, Canonical, Covered;
    HoldsNow(sb, dev, pi, t);
    ghost var c := Content(dev, pi, t);
    got := [];
    ok, t' := Write(sb, dev, pi, pos, buf, t);
    if !ok { return; }
    got := Read(sb, dev, pi, pos, |buf|, t');
    HoldsNow(sb, dev, pi, t');
    SliceOfOverwrite(c, pos, buf);
  }

  lemma SliceOfOverwrite(c: seq<byte>, pos: nat, bs: seq<byte>)
    ensures Slice(Overwrite(c, pos, bs), pos, |bs|) == bs
  {
  }

  /** Bytes cut off by shrinking to n do not come back when the file grows to m.
      Only the first call can meet the BUG_ON, unless blocks were kept past the end. */
  method ShrinkThenGrow(sb: SbInfo, dev: Device, pi: Inode, n: nat, m: nat, ghost t: Tree)
    returns (panic: bool, got: seq<byte>, ghost t': Tree)
    requires FileOK(sb, dev, pi, t) && n <= m
    modifies sb, dev, pi`root, pi`height, pi`iBlocks, pi`eofBlocks, pi`size
    ensures !panic ==> got == Zeros(m - n)
    ensures HitsBugOn(t, old(pi.height), Block4K, old(pi.eofBlocks), n, old(pi.size)) ==> panic
    ensures panic && !old(pi.eofBlocks) ==> HitsBugOn(t, old(pi.height), Block4K, false, n, old(pi.size))
  {
    hide FileOK, Bytes, HitsBugOn, CutFrom, Shape, Canonical, Covered, BlocksFor;
    HoldsNow(sb, dev, pi, t);
    ghost var c := Content(dev, pi, t);
    got := [];
    panic, t' := SetSize(sb, dev, pi, n, t);
    if panic { return; }
    HoldsNow(sb, dev, pi, t');
    GrowthIsSafe(t', pi.height, m, pi.size);
    panic, t' := SetSize(sb, dev, pi, m, t');
    if panic { return; }
    HoldsNow(sb, dev, pi, t');
    got := Read(sb, dev, pi, n, m - n, t');
    Regrown(c, n, m);
  }

  function Zeros(n: nat): seq<byte> {
    seq(n, _ => 0)
  }

  lemma Regrown(c: seq<byte>, n: nat, m: nat)
    requires n <= m
    ensures Slice(Resize(Resize(c, n), m), n, m - n) == Zeros(m - n)
  {
  }

  lemma GrowthIsSafe(t: Tree, h: nat, start: nat, end: nat)
    requires Shape(t, h) && end <= start
    ensures !HitsBugOn(t, h, Block4K, false, start, end)
  {
    hide Shape, BareBefore, Pow;
  }

  /** How an operation that succeeds changes the file: a write maps its range and
      takes free blocks for that alone, a truncation unmaps everything past the new
      end and gives back exactly those blocks. */
  ghost predicate Stepped(a: Snapshot, b: Snapshot, op: Op) {
    && Shape(a.t, a.h) && Shape(b.t, b.h)
    && match op
       case WriteAt(pos, bytes) =>
         && b.eof == a.eof
         && if bytes == [] then b == a
            else Remapped(a.inuse, b.inuse, a.t, a.h, b.t, b.h, pos / BLOCK, (pos + |bytes| - 1) / BLOCK, 1)
       case Truncate(n) => CutFrom(a.inuse, b.inuse, a.t, a.h, b.t, b.h, BlocksFor(n, Block4K), 1)
       case ReadAt(_, _) => b == a
  }

  /** Why an operation can stop a run, and what it leaves: a write is refused, or a
      truncation meets the BUG_ON. */
  ghost predicate Stops(a: Snapshot, op: Op, b: Snapshot, end: nat) {
    && Shape(a.t, a.h)
    && match op
       case WriteAt(pos, bytes) =>
         && Refused(a.h, a.inuse, b.inuse, end, pos, |bytes|)
         && Interrupted(a, b, pos / BLOCK, (pos + |bytes| - 1) / BLOCK)
       case Truncate(n) =>
         && HitsBugOn(a.t, a.h, Block4K, a.eof, n, a.size)
         && b.size == n && b.t == CutTree(a.t, a.h, Block4K, a.eof, n, a.size) && Released(a.inuse, b.inuse, a.t, b.t, 1)
         && (if n == a.size then b.data == a.data else TailZeroed(a.data, b.data, a.t, a.h, a.size, n))
       case ReadAt(_, _) => false
  }

  ghost predicate Holds(a: Snapshot, c: seq<byte>) {
    Shape(a.t, a.h) && Bytes(a.data, a.t, a.h, a.size) == c
  }

  /** Any run of writes, truncations and reads behaves as on one byte sequence.  It
      stops early only if an operation is refused space or meets the BUG_ON; `trace`
      is the file before each operation and, unless it stopped, at the end. */
  method Run(sb: SbInfo, dev: Device, pi: Inode, ops: seq<Op>, ghost t: Tree)
    returns (done: nat, stopped: bool, seen: seq<seq<byte>>, ghost t': Tree, ghost trace: seq<Snapshot>)
    requires FileOK(sb, dev, pi, t)
    modifies sb, dev, pi`root, pi`height, pi`iBlocks, pi`eofBlocks, pi`size
    ensures done <= |ops| && (stopped <==> done < |ops|)
    ensures seen == Reads(old(Content(dev, pi, t)), ops[..done])
    ensures !stopped ==> FileOK(sb, dev, pi, t') && Content(dev, pi, t') == ApplyAll(old(Content(dev, pi, t)), ops)
    ensures |trace| == done + 1 && trace[0] == old(Snap(sb, dev, pi, t))
    ensures forall i :: 0 <= i < done ==> Stepped(trace[i], trace[i + 1], ops[i])
    ensures forall i :: 0 <= i <= done ==> Holds(trace[i], ApplyAll(old(Content(dev, pi, t)), ops[..i]))
    ensures stopped ==> Stops(trace[done], ops[done], Snap(sb, dev, pi, t'), sb.blockEnd)
    ensures stopped && ops[done].WriteAt? ==> HasTree(sb, dev, pi, t') && ExactCount(pi, t') && Formatted(dev.data, sb.blockEnd)
  {
    hide FileOK, Overwrite, Resize, Bytes, Slice, Canonical, Covered, Stepped, Stops, Holds, Reads, ApplyAll, Apply, Shape,
         HasTree, ExactCount, Formatted;
    HoldsNow(sb, dev, pi, t);
    ghost var c := Content(dev, pi, t);
    done, seen, t', trace := 0, [], t, [Snap(sb, dev, pi, t)];
    Unchanged(Snap(sb, dev, pi, t), c, ops);
    while done < |ops|
      invariant done <= |ops| && FileOK(sb, dev, pi, t') && Shape(t', pi.height)
      invariant Content(dev, pi, t') == ApplyAll(c, ops[..done]) && seen == Reads(c, ops[..done])
      invariant |trace| == done + 1 && trace[0] == old(Snap(sb, dev, pi, t)) && trace[done] == Snap(sb, dev, pi, t')
      invariant forall i :: 0 <= i < done ==> Stepped(trace[i], trace[i + 1], ops[i])
      invariant forall i :: 0 <= i <= done ==> Holds(trace[i], ApplyAll(c, ops[..i]))
    {
      var buf;
      stopped, buf, t' := Step(sb, dev, pi, ops[done], t');
      if stopped { return; }
      HoldsNow(sb, dev, pi, t');
      Replayed(c, ops, done, seen, buf);
      if ops[done].ReadAt? { seen := seen + [buf]; }
      trace := trace + [Snap(sb, dev, pi, t')];
      done := done + 1;
    }
    assert ops[..done] == ops;
    stopped := false;
  }

  lemma Unchanged(a: Snapshot, c: seq<byte>, ops: seq<Op>)
    requires Holds(a, c)
    ensures Holds(a, ApplyAll(c, ops[..0])) && ApplyAll(c, ops[..0]) == c && Reads(c, ops[..0]) == []
  {
  }

  lemma HoldsNow(sb: SbInfo, dev: Device, pi: Inode, t: Tree)
    requires FileOK(sb, dev, pi, t)
    ensures Shape(t, pi.height) && Holds(Snap(sb, dev, pi, t), Content(dev, pi, t)) && |Content(dev, pi, t)| == pi.size
  {
  }

  lemma Replayed(c: seq<byte>, ops: seq<Op>, n: nat, seen: seq<seq<byte>>, buf: seq<byte>)
    requires n < |ops|
    ensures ApplyAll(c, ops[..n + 1]) == Apply(ApplyAll(c, ops[..n]), ops[n])
    ensures Reads(c, ops[..n + 1]) ==
            Reads(c, ops[..n]) + if ops[n].ReadAt? then [Slice(ApplyAll(c, ops[..n]), ops[n].pos, ops[n].len)] else []
  {
    assert ops[..n + 1][..n] == ops[..n];
  }

  /** One operation of a run. */
  method Step(sb: SbInfo, dev: Device, pi: Inode, op: Op, ghost t: Tree) returns (stopped: bool, buf: seq<byte>,
              ghost t': Tree)
    requires FileOK(sb, dev, pi, t)
    modifies sb, dev, pi`root, pi`height, pi`iBlocks, pi`eofBlocks, pi`size
    ensures stopped ==> Stops(old(Snap(sb, dev, pi, t)), op, Snap(sb, dev, pi, t'), sb.blockEnd)
    ensures stopped && op.WriteAt? ==> HasTree(sb, dev, pi, t') && ExactCount(pi, t') && Formatted(dev.data, sb.blockEnd)
    ensures !stopped ==> FileOK(sb, dev, pi, t') && Content(dev, pi, t') == Apply(old(Content(dev, pi, t)), op)
    ensures !stopped ==> Stepped(old(Snap(sb, dev, pi, t)), Snap(sb, dev, pi, t'), op)
    ensures op.ReadAt? ==> buf == Slice(old(Content(dev, pi, t)), op.pos, op.len)
  {
    hide FileOK, Overwrite, Resize, Bytes, Slice, Canonical, Covered, Refused, HitsBugOn, Remapped, CutFrom, BlocksFor,
         Interrupted, HasTree, ExactCount, Formatted, CutTree, Released, BareLeft, LastToVisit;
    HoldsNow(sb, dev, pi, t);
    stopped, buf, t' := false, [], t;
    match op {
      case WriteAt(pos, bytes) =>
        var ok;
        ok, t' := Write(sb, dev, pi, pos, bytes, t);
        stopped := !ok;
        if ok { HoldsNow(sb, dev, pi, t'); }
      case Truncate(n) =>
        stopped, t' := SetSize(sb, dev, pi, n, t);
        if !stopped { HoldsNow(sb, dev, pi, t'); }
      case ReadAt(pos, len) =>
        buf := Read(sb, dev, pi, pos, len, t);
    }
  }
}
