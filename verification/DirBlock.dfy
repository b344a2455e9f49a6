/** One 4096-byte directory block (dir.c, namei.c): variable-length records that
    tile the block, a record with inode number 0 being free space. */
module DirBlock {
  import opened Codec
  import opened Allocator
  import opened InodeTree

  const NAME_LEN: nat := 255
  const DOT: byte := 46

  /** A name bound to an inode number. */
  datatype Entry = Entry(name: seq<byte>, ino: nat)

  predicate Padded(len: nat) { len % 4 == 0 }

  /** PMFS_DIR_REC_LEN: 12 bytes of header and the name, rounded up to four. */
  function RecLen(n: nat): (r: nat)
    ensures Padded(r) && n + 12 <= r <= n + 15
    ensures n == 1 ==> r == 16
    ensures 0 < n ==> 16 <= r
  {
    (n + 12 + 3) / 4 * 4
  }

  // ---------------------------------------------------------------- fields of struct pmfs_direntry

  function Ino(b: seq<byte>, o: nat): nat
    requires o + 8 <= |b|
  {
    FromLE(b[o..o + 8])
  }

  function DeLen(b: seq<byte>, o: nat): nat
    requires o + 10 <= |b|
  {
    FromLE(b[o + 8..o + 10])
  }

  function NameLen(b: seq<byte>, o: nat): nat
    requires o + 11 <= |b|
  {
    b[o + 10] as nat
  }

  function NameAt(b: seq<byte>, o: nat): seq<byte>
    requires o + 11 <= |b| && o + 12 + NameLen(b, o) <= |b|
  {
    b[o + 12..o + 12 + NameLen(b, o)]
  }

  // ---------------------------------------------------------------- tiling

  /** pmfs_check_dir_entry. */
  predicate CheckEntry(b: seq<byte>, o: nat)
    requires o + 11 <= |b|
  {
    && RecLen(1) <= DeLen(b, o)
    && Padded(DeLen(b, o))
    && RecLen(NameLen(b, o)) <= DeLen(b, o)
    && o + DeLen(b, o) <= BLOCK
  }

  /** A record of a sound block: it passes the check, so it lies in the block
      with its name, and a bound name is not empty. */
  predicate Good(b: seq<byte>, o: nat)
    requires BLOCK <= |b|
  {
    o + RecLen(1) <= BLOCK && CheckEntry(b, o) && (Ino(b, o) != 0 ==> 0 < NameLen(b, o))
  }

  /** What the record at o contributes: nothing when it is free. */
  function LiveAt(b: seq<byte>, o: nat): seq<Entry>
    requires BLOCK <= |b| && Good(b, o)
  {
    if Ino(b, o) == 0 then [] else [Entry(NameAt(b, o), Ino(b, o))]
  }

  /** Good records tile the bytes from p up to q. */
  predicate Tiled(b: seq<byte>, p: nat, q: nat)
    requires q <= BLOCK <= |b|
    decreases q - p
  {
    p == q || (p < q && Good(b, p) && p + DeLen(b, p) <= q && Tiled(b, p + DeLen(b, p), q))
  }

  /** The names bound by the records from p up to q, in order. */
  function Live(b: seq<byte>, p: nat, q: nat): seq<Entry>
    requires q <= BLOCK <= |b| && Tiled(b, p, q)
    decreases q - p
  {
    if p == q then [] else LiveAt(b, p) + Live(b, p + DeLen(b, p), q)
  }

  ghost predicate WellFormed(b: seq<byte>) {
    |b| == BLOCK && Tiled(b, 0, BLOCK)
  }

  function Names(b: seq<byte>): seq<Entry>
    requires WellFormed(b)
  {
    Live(b, 0, BLOCK)
  }

  lemma {:induction false} TiledAppend(b: seq<byte>, p: nat, q: nat, r: nat)
    requires p <= q <= r <= BLOCK <= |b| && Tiled(b, p, q) && Tiled(b, q, r)
    ensures Tiled(b, p, r) && Live(b, p, r) == Live(b, p, q) + Live(b, q, r)
    decreases q - p
  {
    hide LiveAt, DeLen, Ino, NameLen;
    if q <= p {
    } else {
      TiledAppend(b, p + DeLen(b, p), q, r);
    }
  }

  lemma OneRecord(b: seq<byte>, o: nat)
    requires BLOCK <= |b| && Good(b, o)
    ensures o + 12 + NameLen(b, o) <= o + DeLen(b, o) <= BLOCK
    ensures Tiled(b, o, o + DeLen(b, o)) && Live(b, o, o + DeLen(b, o)) == LiveAt(b, o)
  {
    assert Tiled(b, o + DeLen(b, o), o + DeLen(b, o));
  }

  /** A good record depends on nothing outside itself. */
  lemma SameRecord(b: seq<byte>, c: seq<byte>, o: nat)
    requires BLOCK <= |b| && BLOCK <= |c| && Good(b, o)
    requires forall i :: o <= i < o + DeLen(b, o) ==> b[i] == c[i]
    ensures Good(c, o) && DeLen(c, o) == DeLen(b, o) && LiveAt(c, o) == LiveAt(b, o)
  {
    assert b[o..o + 8] == c[o..o + 8];
    assert b[o + 8..o + 10] == c[o + 8..o + 10];
    assert b[o + 10] == c[o + 10];
    assert b[o + 12..o + 12 + NameLen(b, o)] == c[o + 12..o + 12 + NameLen(b, o)];
  }

  lemma {:induction false} SameTiles(b: seq<byte>, c: seq<byte>, p: nat, q: nat)
    requires q <= BLOCK <= |b| && BLOCK <= |c| && Tiled(b, p, q)
    requires forall i :: p <= i < q ==> b[i] == c[i]
    ensures Tiled(c, p, q) && Live(c, p, q) == Live(b, p, q)
    decreases q - p
  {
    if q <= p {
    } else {
      SameRecord(b, c, p);
      SameTiles(b, c, p + DeLen(b, p), q);
    }
  }

  /** A record between two tiled parts. */
  lemma Around(b: seq<byte>, o: nat)
    requires BLOCK <= |b| && Good(b, o) && Tiled(b, 0, o) && Tiled(b, o + DeLen(b, o), BLOCK)
    ensures Tiled(b, 0, BLOCK) && Live(b, 0, BLOCK) == Live(b, 0, o) + LiveAt(b, o) + Live(b, o + DeLen(b, o), BLOCK)
  {
    hide Tiled, Live, LiveAt, Good, DeLen, NameLen;
    OneRecord(b, o);
    TiledAppend(b, 0, o, o + DeLen(b, o));
    TiledAppend(b, 0, o + DeLen(b, o), BLOCK);
  }

  /** Records lie on multiples of four bytes. */
  lemma {:induction false} RecordsAligned(b: seq<byte>, p: nat, o: nat)
    requires o <= BLOCK <= |b| && Tiled(b, p, o) && p % 4 == 0
    ensures o % 4 == 0
    decreases o - p
  {
    hide DeLen, NameLen, Ino;
    if o <= p {
    } else {
      RecordsAligned(b, p + DeLen(b, p), o);
    }
  }

  /** A record takes 16 bytes or more, so a block binds at most 256 names. */
  lemma {:induction false} FewNames(b: seq<byte>, p: nat)
    requires p <= BLOCK <= |b| && Tiled(b, p, BLOCK)
    ensures 16 * |Live(b, p, BLOCK)| <= BLOCK - p
    decreases BLOCK - p
  {
    hide DeLen, NameLen, Ino;
    if BLOCK <= p {
    } else {
      FewNames(b, p + DeLen(b, p));
    }
  }

  // ---------------------------------------------------------------- room for a record

  /** pmfs_add_dirent_to_buf's test: a free record that is large enough, or a
      live one with enough slack behind its name. */
  predicate HasSlack(b: seq<byte>, o: nat, need: nat)
    requires BLOCK <= |b| && Good(b, o)
  {
    if Ino(b, o) != 0 then need <= DeLen(b, o) - RecLen(NameLen(b, o)) else need <= DeLen(b, o)
  }

  /** Some record from p up to q has room. */
  predicate Room(b: seq<byte>, p: nat, q: nat, need: nat)
    requires q <= BLOCK <= |b| && Tiled(b, p, q)
    decreases q - p
  {
    p < q && (HasSlack(b, p, need) || Room(b, p + DeLen(b, p), q, need))
  }

  lemma {:induction false} RoomAppend(b: seq<byte>, p: nat, q: nat, r: nat, need: nat)
    requires p <= q <= r <= BLOCK <= |b| && Tiled(b, p, q) && Tiled(b, q, r) && Tiled(b, p, r)
    ensures Room(b, p, r, need) <==> Room(b, p, q, need) || Room(b, q, r, need)
    decreases q - p
  {
    if q <= p {
    } else {
      RoomAppend(b, p + DeLen(b, p), q, r, need);
    }
  }

  /** No record fits behind `top`, which is why the search stops there. */
  lemma {:induction false} NoRoomBehind(b: seq<byte>, p: nat, need: nat)
    requires p <= BLOCK <= |b| && Tiled(b, p, BLOCK) && BLOCK - p < need
    ensures !Room(b, p, BLOCK, need)
    decreases BLOCK - p
  {
    if BLOCK <= p {
    } else {
      NoRoomBehind(b, p + DeLen(b, p), need);
    }
  }

  // ---------------------------------------------------------------- writing fields

  /** The fields of the record at o. */
  ghost predicate Shows(b: seq<byte>, o: nat, ino: nat, len: nat, name: seq<byte>) {
    o + 12 + |name| <= |b| && Ino(b, o) == ino && DeLen(b, o) == len && NameLen(b, o) == |name| && NameAt(b, o) == name
  }

  /** Lengths a sound record can have. */
  predicate Sized(o: nat, ino: nat, len: nat, n: nat) {
    RecLen(1) <= len && Padded(len) && RecLen(n) <= len && o + len <= BLOCK && (ino != 0 ==> 0 < n)
  }

  function LiveOf(name: seq<byte>, ino: nat): seq<Entry> {
    if ino == 0 then [] else [Entry(name, ino)]
  }

  lemma IsRecord(b: seq<byte>, o: nat)
    requires BLOCK <= |b| && Good(b, o)
    ensures o + 12 + NameLen(b, o) <= o + DeLen(b, o) <= BLOCK
    ensures Shows(b, o, Ino(b, o), DeLen(b, o), NameAt(b, o)) && Sized(o, Ino(b, o), DeLen(b, o), NameLen(b, o))
    ensures LiveAt(b, o) == LiveOf(NameAt(b, o), Ino(b, o))
  {
    hide Ino, DeLen, RecLen, Padded;
  }

  lemma RecordIs(b: seq<byte>, o: nat, ino: nat, len: nat, name: seq<byte>)
    requires BLOCK <= |b| && Shows(b, o, ino, len, name) && Sized(o, ino, len, |name|)
    ensures Good(b, o) && DeLen(b, o) == len && LiveAt(b, o) == LiveOf(name, ino)
    ensures Tiled(b, o, o + len) && Live(b, o, o + len) == LiveOf(name, ino)
  {
    assert Good(b, o) && DeLen(b, o) == len && LiveAt(b, o) == LiveOf(name, ino) by {
      hide Ino, DeLen, RecLen, Padded;
    }
    OneRecord(b, o);
  }

  /** The bytes outside [lo, hi) are those of b. */
  ghost predicate SameOutside(b: seq<byte>, c: seq<byte>, lo: nat, hi: nat) {
    |b| == |c| && forall i :: 0 <= i < |b| && !(lo <= i < hi) ==> c[i] == b[i]
  }

  lemma Widen(b: seq<byte>, c: seq<byte>, lo: nat, hi: nat, lo': nat, hi': nat)
    requires SameOutside(b, c, lo, hi) && lo' <= lo && hi <= hi'
    ensures SameOutside(b, c, lo', hi')
  {
  }

  lemma Compose(b: seq<byte>, c: seq<byte>, d: seq<byte>, lo: nat, hi: nat)
    requires SameOutside(b, c, lo, hi) && SameOutside(c, d, lo, hi)
    ensures SameOutside(b, d, lo, hi)
  {
  }

  /** Writes elsewhere do not change a record's fields. */
  lemma ShowsKept(b: seq<byte>, c: seq<byte>, o: nat, ino: nat, len: nat, name: seq<byte>, lo: nat, hi: nat)
    requires Shows(b, o, ino, len, name) && SameOutside(b, c, lo, hi) && (o + 12 + |name| <= lo || hi <= o)
    ensures Shows(c, o, ino, len, name)
  {
    hide FromLE;
    assert c[o..o + 8] == b[o..o + 8];
    assert c[o + 8..o + 10] == b[o + 8..o + 10];
    assert c[o + 12..o + 12 + |name|] == b[o + 12..o + 12 + |name|];
  }

  lemma LengthKept(b: seq<byte>, c: seq<byte>, o: nat, lo: nat, hi: nat)
    requires o + 10 <= |b| && SameOutside(b, c, lo, hi) && (o + 10 <= lo || hi <= o + 8)
    ensures DeLen(c, o) == DeLen(b, o)
  {
    assert c[o + 8..o + 10] == b[o + 8..o + 10];
  }

  /** The fields pmfs_add_dirent_to_buf writes into the chosen record. */
  function PutRecord(b: seq<byte>, o: nat, name: seq<byte>, ino: nat): (r: seq<byte>)
    requires |name| <= NAME_LEN && o + 12 + |name| <= |b|
    ensures |r| == |b|
  {
    Patch(Patch(Patch(b, o, ToLE(ino, 8)), o + 10, [|name| as byte]), o + 12, name)
  }

  lemma FieldsPut(b: seq<byte>, o: nat, name: seq<byte>, ino: nat)
    requires |name| <= NAME_LEN && o + 12 + |name| <= |b|
    ensures var r := PutRecord(b, o, name, ino);
            && r[o..o + 8] == ToLE(ino, 8)
            && r[o + 8..o + 10] == b[o + 8..o + 10]
            && r[o + 10] == |name| as byte
            && r[o + 12..o + 12 + |name|] == name
            && SameOutside(b, r, o, o + 12 + |name|)
  {
    hide ToLE;
    var r := PutRecord(b, o, name, ino);
    var b1 := Patch(b, o, ToLE(ino, 8));
    var b2 := Patch(b1, o + 10, [|name| as byte]);
    assert r[o..o + 8] == b1[o..o + 8];
    assert b2[o + 10] == b2[o + 10..o + 11][0] == |name| as byte;
  }

  lemma RecordPut(b: seq<byte>, c: seq<byte>, o: nat, name: seq<byte>, ino: nat)
    requires |name| <= NAME_LEN && o + 12 + |name| <= |b| && ino < Pow256(8) && c == PutRecord(b, o, name, ino)
    ensures Shows(c, o, ino, DeLen(b, o), name) && SameOutside(b, c, o, o + 12 + |name|)
  {
    hide PutRecord, FromLE, ToLE, SameOutside;
    FieldsPut(b, o, name, ino);
    RoundTrip(ino, 8);
  }

  function SetDeLen(b: seq<byte>, o: nat, len: nat): (r: seq<byte>)
    requires o + 10 <= |b|
    ensures |r| == |b|
  {
    Patch(b, o + 8, ToLE(len, 2))
  }

  lemma LengthSet(b: seq<byte>, c: seq<byte>, o: nat, len: nat)
    requires o + 12 <= |b| && len <= BLOCK && c == SetDeLen(b, o, len)
    ensures DeLen(c, o) == len && SameOutside(b, c, o + 8, o + 10)
  {
    assert Pow256(2) == 256 * 256 by { assert Pow256(1) == 256; }
    RoundTrip(len, 2);
  }

  lemma Relabelled(b: seq<byte>, c: seq<byte>, o: nat, ino: nat, len: nat, name: seq<byte>, len': nat)
    requires Shows(b, o, ino, len, name) && len' <= BLOCK && c == SetDeLen(b, o, len')
    ensures Shows(c, o, ino, len', name) && SameOutside(b, c, o + 8, o + 10)
  {
    hide FromLE, SetDeLen;
    LengthSet(b, c, o, len');
    assert c[o..o + 8] == b[o..o + 8];
    assert c[o + 12..o + 12 + |name|] == b[o + 12..o + 12 + |name|];
  }

  /** Replacing what lies between o and q by other tiles. */
  lemma Retiled(b: seq<byte>, c: seq<byte>, o: nat, q: nat, mid: seq<Entry>)
    requires |b| == BLOCK && o <= q <= BLOCK && SameOutside(b, c, o, q)
    requires Tiled(b, 0, o) && Tiled(b, q, BLOCK) && Tiled(c, o, q) && Live(c, o, q) == mid
    ensures WellFormed(c) && Names(c) == Live(b, 0, o) + mid + Live(b, q, BLOCK)
  {
    hide Tiled, Live;
    SameTiles(b, c, 0, o);
    SameTiles(b, c, q, BLOCK);
    TiledAppend(c, 0, o, q);
    TiledAppend(c, 0, q, BLOCK);
  }

  /** The record at o is one of the block's. */
  ghost predicate Boundary(b: seq<byte>, o: nat) {
    |b| == BLOCK && Good(b, o) && Tiled(b, 0, o) && Tiled(b, o + DeLen(b, o), BLOCK)
  }

  /** A record with room gives the block room. */
  lemma RoomAt(b: seq<byte>, o: nat, need: nat)
    requires Boundary(b, o) && HasSlack(b, o, need)
    ensures WellFormed(b) && Room(b, 0, BLOCK, need)
  {
    hide Tiled, Live, Room, HasSlack, FromLE, RecLen, Padded;
    OneRecord(b, o);
    var q := o + DeLen(b, o);
    RoomOnly(b, o, need);
    TiledAppend(b, 0, o, q);
    TiledAppend(b, 0, q, BLOCK);
    RoomAppend(b, 0, o, q, need);
    RoomAppend(b, 0, q, BLOCK, need);
  }

  // ---------------------------------------------------------------- the first two records

  /** The first record is live and named ".", the second is live and named "..",
      and a NUL follows both names. */
  predicate Dotted(b: seq<byte>) {
    |b| == BLOCK && Ino(b, 0) != 0 && NameLen(b, 0) == 1 && b[12..14] == [DOT, 0] &&
    var o := DeLen(b, 0);
    o + 15 <= BLOCK && Ino(b, o) != 0 && NameLen(b, o) == 2 && b[o + 12..o + 15] == [DOT, DOT, 0]
  }

  /** If "." has no slack, as in a new directory, "." and ".." stay where they are. */
  ghost predicate KeepsDots(b: seq<byte>, c: seq<byte>) {
    Dotted(b) && DeLen(b, 0) == RecLen(1) ==>
      Dotted(c) && DeLen(c, 0) == RecLen(1) && Ino(c, 0) == Ino(b, 0) && Ino(c, 16) == Ino(b, 16)
  }

  lemma DotsSame(b: seq<byte>, c: seq<byte>)
    requires |b| == |c| == BLOCK && forall i :: 0 <= i < 32 && !(24 <= i < 26) ==> b[i] == c[i]
    ensures KeepsDots(b, c)
  {
    hide FromLE;
    assert b[0..8] == c[0..8] && b[8..10] == c[8..10] && b[12..14] == c[12..14];
    assert b[16..24] == c[16..24] && b[28..31] == c[28..31];
  }

  /** Records of such a block start at 0, at 16 or at 32 and beyond. */
  lemma DotBoundary(b: seq<byte>, o: nat)
    requires WellFormed(b) && Dotted(b) && DeLen(b, 0) == RecLen(1) && Boundary(b, o)
    ensures o == 0 || o == 16 || 32 <= o
    ensures o == 0 ==> LiveAt(b, o) == [Entry([DOT], Ino(b, 0))]
    ensures o == 16 ==> LiveAt(b, o) == [Entry([DOT, DOT], Ino(b, 16))]
  {
    hide FromLE;
    assert RecLen(1) == 16;
    assert b[12..13] == b[12..14][..1] == [DOT];
    assert b[28..30] == b[28..31][..2] == [DOT, DOT];
    assert o != 0 ==> Tiled(b, 16, o);
  }

  // ---------------------------------------------------------------- adding

  /** Writing a record at o leaves what precedes it; of a live record that gives up
      its slack only the length changes. */
  ghost predicate KeepsBelow(b: seq<byte>, c: seq<byte>, o: nat)
    requires BLOCK <= |b| && Good(b, o)
  {
    var kept := if Ino(b, o) == 0 then o else o + RecLen(NameLen(b, o));
    |c| == |b| && forall i: nat :: i < kept && i < |b| && !(o + 8 <= i < o + 10) ==> c[i] == b[i]
  }

  lemma DotsBelow(b: seq<byte>, c: seq<byte>, o: nat, need: nat)
    requires WellFormed(b) && Boundary(b, o) && HasSlack(b, o, need) && 0 < need && KeepsBelow(b, c, o)
    ensures KeepsDots(b, c)
  {
    if Dotted(b) && DeLen(b, 0) == RecLen(1) {
      hide Tiled, LiveAt, FromLE, Boundary, KeepsDots;
      DotBoundary(b, o);
      assert RecLen(2) == 16;
      DotsSame(b, c);
    }
  }

  lemma FreeTaken(b: seq<byte>, c: seq<byte>, o: nat, name: seq<byte>, ino: nat)
    requires Boundary(b, o) && Ino(b, o) == 0 && 0 < |name| <= NAME_LEN && ino < Pow256(8) && HasSlack(b, o, RecLen(|name|))
    requires o + 12 + |name| <= BLOCK && c == PutRecord(b, o, name, ino)
    ensures WellFormed(b) && WellFormed(c) && multiset(Names(c)) == multiset(Names(b)) + multiset(LiveOf(name, ino))
    ensures KeepsBelow(b, c, o)
  {
    hide Tiled, Live, PutRecord, DeLen, Ino, NameLen, RecLen, Padded, SameOutside;
    Around(b, o);
    IsRecord(b, o);
    RecordPut(b, c, o, name, ino);
    RecordIs(c, o, ino, DeLen(b, o), name);
    Widen(b, c, o, o + 12 + |name|, o, o + DeLen(b, o));
    Retiled(b, c, o, o + DeLen(b, o), LiveOf(name, ino));
    Shuffle(Live(b, 0, o), [], LiveOf(name, ino), Live(b, o + DeLen(b, o), BLOCK));
    OutsideBelow(b, c, o, o + 12 + |name|);
  }

  lemma OutsideBelow(b: seq<byte>, c: seq<byte>, o: nat, hi: nat)
    requires BLOCK <= |b| && Good(b, o) && Ino(b, o) == 0 && SameOutside(b, c, o, hi)
    ensures KeepsBelow(b, c, o)
  {
  }

  lemma Shuffle(a: seq<Entry>, x: seq<Entry>, y: seq<Entry>, z: seq<Entry>)
    ensures multiset(a + (x + y) + z) == multiset(a + x + z) + multiset(y)
    ensures x == [] ==> x + y == y
  {
  }

  /** Splitting a live record: its slack becomes a record of its own. */
  lemma LengthsSplit(b: seq<byte>, b1: seq<byte>, b2: seq<byte>, o: nat, ino: nat, len: nat, name: seq<byte>, nlen: nat,
                     rest: nat)
    requires Shows(b, o, ino, len, name) && 12 + |name| <= nlen && nlen + 12 <= len && o + len <= |b| == BLOCK
    requires rest <= BLOCK
    requires b1 == SetDeLen(b, o + nlen, rest) && b2 == SetDeLen(b1, o, nlen)
    ensures Shows(b2, o, ino, nlen, name) && DeLen(b2, o + nlen) == rest && SameOutside(b, b2, o, o + len)
  {
    hide Shows, SameOutside, SetDeLen, DeLen;
    LengthSet(b, b1, o + nlen, rest);
    ShowsKept(b, b1, o, ino, len, name, o + nlen + 8, o + nlen + 10);
    Relabelled(b1, b2, o, ino, len, name, nlen);
    LengthKept(b1, b2, o + nlen, o + 8, o + 10);
    Widen(b, b1, o + nlen + 8, o + nlen + 10, o, o + len);
    Widen(b1, b2, o + 8, o + 10, o, o + len);
    Compose(b, b1, b2, o, o + len);
  }

  lemma RestPut(b: seq<byte>, b2: seq<byte>, c: seq<byte>, o: nat, ino0: nat, len: nat, name0: seq<byte>, nlen: nat,
                rest: nat, name: seq<byte>, ino: nat)
    requires 12 + |name0| <= nlen && nlen + 12 + |name| <= len && o + len <= BLOCK && |name| <= NAME_LEN && ino < Pow256(8)
    requires |b| == |b2| == BLOCK && Shows(b2, o, ino0, nlen, name0) && DeLen(b2, o + nlen) == rest
    requires SameOutside(b, b2, o, o + len)
    requires c == PutRecord(b2, o + nlen, name, ino)
    ensures Shows(c, o, ino0, nlen, name0) && Shows(c, o + nlen, ino, rest, name) && SameOutside(b, c, o, o + len)
  {
    hide Shows, SameOutside, PutRecord, DeLen;
    RecordPut(b2, c, o + nlen, name, ino);
    ShowsKept(b2, c, o, ino0, nlen, name0, o + nlen, o + nlen + 12 + |name|);
    Widen(b2, c, o + nlen, o + nlen + 12 + |name|, o, o + len);
    Compose(b, b2, c, o, o + len);
  }

  /** Both halves are sound records. */
  lemma SizesSplit(o: nat, ino0: nat, len: nat, n0: nat, n: nat, ino: nat)
    requires Sized(o, ino0, len, n0) && ino0 != 0 && RecLen(n) <= len - RecLen(n0) && 0 < n
    ensures Sized(o, ino0, RecLen(n0), n0) && Sized(o + RecLen(n0), ino, len - RecLen(n0), n)
  {
    assert Padded(len - RecLen(n0));
    hide RecLen, Padded;
  }

  lemma LiveSplit(b: seq<byte>, b1: seq<byte>, b2: seq<byte>, c: seq<byte>, o: nat, nlen: nat, rest: nat, name: seq<byte>,
                  ino: nat)
    requires Boundary(b, o) && Ino(b, o) != 0 && 0 < |name| <= NAME_LEN && ino < Pow256(8) && HasSlack(b, o, RecLen(|name|))
    requires nlen == RecLen(NameLen(b, o)) && rest == DeLen(b, o) - nlen && o + nlen + 12 + |name| <= BLOCK
    requires b1 == SetDeLen(b, o + nlen, rest) && b2 == SetDeLen(b1, o, nlen) && c == PutRecord(b2, o + nlen, name, ino)
    ensures WellFormed(b) && WellFormed(c) && multiset(Names(c)) == multiset(Names(b)) + multiset(LiveOf(name, ino))
    ensures KeepsBelow(b, c, o)
  {
    hide Tiled, Live, Shows, SameOutside, SetDeLen, PutRecord, DeLen, Ino, NameLen, RecLen, Padded, Sized, LiveOf,
         Good, LiveAt;
    IsRecord(b, o);
    var ino0, len, name0 := Ino(b, o), DeLen(b, o), NameAt(b, o);
    var q := o + len;
    LengthsSplit(b, b1, b2, o, ino0, len, name0, nlen, rest);
    RestPut(b, b2, c, o, ino0, len, name0, nlen, rest, name, ino);
    SizesSplit(o, ino0, len, |name0|, |name|, ino);
    RecordIs(c, o, ino0, nlen, name0);
    RecordIs(c, o + nlen, ino, rest, name);
    TiledAppend(c, o, o + nlen, q);
    Around(b, o);
    Retiled(b, c, o, q, LiveOf(name0, ino0) + LiveOf(name, ino));
    Shuffle(Live(b, 0, o), LiveOf(name0, ino0), LiveOf(name, ino), Live(b, q, BLOCK));
    SplitBelow(b, b1, b2, c, o, nlen, rest, name, ino);
  }

  lemma SplitBelow(b: seq<byte>, b1: seq<byte>, b2: seq<byte>, c: seq<byte>, o: nat, nlen: nat, rest: nat, name: seq<byte>,
                   ino: nat)
    requires |b| == BLOCK && Good(b, o) && Ino(b, o) != 0 && nlen == RecLen(NameLen(b, o)) && rest <= BLOCK
    requires o + nlen + 12 + |name| <= BLOCK && |name| <= NAME_LEN
    requires b1 == SetDeLen(b, o + nlen, rest) && b2 == SetDeLen(b1, o, nlen) && c == PutRecord(b2, o + nlen, name, ino)
    ensures KeepsBelow(b, c, o)
  {
    hide SetDeLen, PutRecord, FromLE, ToLE;
    LengthSet(b, b1, o + nlen, rest);
    LengthSet(b1, b2, o, nlen);
    FieldsPut(b2, o + nlen, name, ino);
  }

  /** pmfs_add_dirent_to_buf, looking for room from the start of the block.
      ENOSPC exactly if no record of the block has room. */
  method AddDirentToBuf(b: seq<byte>, name: seq<byte>, ino: nat) returns (ok: bool, c: seq<byte>)
    requires WellFormed(b) && 0 < |name| <= NAME_LEN && ino < Pow256(8)
    ensures ok <==> Room(b, 0, BLOCK, RecLen(|name|))
    ensures if ok then WellFormed(c) && multiset(Names(c)) == multiset(Names(b)) + multiset(LiveOf(name, ino)) else c == b
    ensures ok ==> KeepsDots(b, c)
  {
    hide WellFormed, LiveOf, Live, Names, HasSlack, DeLen, Ino, NameLen, RecLen, NoneYet, Tiled, Room, Boundary,
         Good, Padded, KeepsDots;
    var reclen := RecLen(|name|);
    NoneAtStart(b, reclen);
    var de := 0;
    var top := BLOCK - reclen;
    while de <= top
      invariant 0 <= de <= BLOCK && NoneYet(b, de, reclen)
    {
      NoneStep(b, de, reclen);
      var rlen := DeLen(b, de);
      if HasSlack(b, de, reclen) {
        ok := true;
        c := WriteDirent(b, de, name, ino);
        return;
      }
      de := de + rlen;
    }
    NoneAtEnd(b, de, reclen);
    return false, b;
  }

  /** The walk stands at a record (or the end), and no record so far had room. */
  ghost predicate NoneYet(b: seq<byte>, de: nat, need: nat) {
    |b| == BLOCK && de <= BLOCK && Tiled(b, 0, de) && Tiled(b, de, BLOCK) && !Room(b, 0, de, need)
  }

  lemma NoneAtStart(b: seq<byte>, need: nat)
    requires WellFormed(b)
    ensures NoneYet(b, 0, need) && |b| == BLOCK && Tiled(b, 0, BLOCK)
  {
  }

  lemma NoneStep(b: seq<byte>, de: nat, need: nat)
    requires NoneYet(b, de, need) && de < BLOCK
    ensures |b| == BLOCK && de + 12 <= BLOCK && Good(b, de) && Boundary(b, de) && 0 < DeLen(b, de)
    ensures HasSlack(b, de, need) ==> Tiled(b, 0, BLOCK) && Room(b, 0, BLOCK, need)
    ensures !HasSlack(b, de, need) ==> de + DeLen(b, de) <= BLOCK && NoneYet(b, de + DeLen(b, de), need)
  {
    hide Tiled, Live, Room, HasSlack, FromLE, RecLen, Padded;
    AtRecord(b, de);
    OneRecord(b, de);
    var q := de + DeLen(b, de);
    RoomOnly(b, de, need);
    TiledAppend(b, 0, de, q);
    TiledAppend(b, 0, q, BLOCK);
    RoomAppend(b, 0, de, q, need);
    RoomAppend(b, 0, q, BLOCK, need);
  }

  lemma RoomOnly(b: seq<byte>, o: nat, need: nat)
    requires Boundary(b, o) && Tiled(b, o, o + DeLen(b, o))
    ensures Room(b, o, o + DeLen(b, o), need) <==> HasSlack(b, o, need)
  {
    assert !Room(b, o + DeLen(b, o), o + DeLen(b, o), need);
  }

  lemma NoneAtEnd(b: seq<byte>, de: nat, need: nat)
    requires NoneYet(b, de, need) && BLOCK - need < de
    ensures Tiled(b, 0, BLOCK) && !Room(b, 0, BLOCK, need)
  {
    hide Tiled, Room, Live;
    TiledAppend(b, 0, de, BLOCK);
    NoRoomBehind(b, de, need);
    RoomAppend(b, 0, de, BLOCK, need);
  }

  /** The second half of pmfs_add_dirent_to_buf: split a live record or take a
      free one, then write inode number, name length and name. */
  method WriteDirent(b: seq<byte>, o: nat, name: seq<byte>, ino: nat) returns (c: seq<byte>)
    requires Boundary(b, o) && 0 < |name| <= NAME_LEN && ino < Pow256(8) && HasSlack(b, o, RecLen(|name|))
    ensures WellFormed(b) && WellFormed(c) && multiset(Names(c)) == multiset(Names(b)) + multiset(LiveOf(name, ino))
    ensures KeepsDots(b, c)
  {
    hide Tiled, Live, LiveOf, HasSlack, Ino, NameLen, Names, WellFormed, Boundary, RecLen, Padded, DeLen, PutRecord,
         SetDeLen, Good, KeepsBelow, KeepsDots;
    SlackBounds(b, o, RecLen(|name|));
    var rlen := DeLen(b, o);
    if Ino(b, o) != 0 {
      var nlen := RecLen(NameLen(b, o));
      var b1 := SetDeLen(b, o + nlen, rlen - nlen);
      var b2 := SetDeLen(b1, o, nlen);
      c := PutRecord(b2, o + nlen, name, ino);
      LiveSplit(b, b1, b2, c, o, nlen, rlen - nlen, name, ino);
    } else {
      c := PutRecord(b, o, name, ino);
      FreeTaken(b, c, o, name, ino);
    }
    DotsBelow(b, c, o, RecLen(|name|));
  }

  lemma SlackBounds(b: seq<byte>, o: nat, need: nat)
    requires Boundary(b, o) && HasSlack(b, o, need)
    ensures Good(b, o) && |b| == BLOCK && o + 12 <= BLOCK && o + RecLen(NameLen(b, o)) <= o + DeLen(b, o) <= BLOCK
    ensures Ino(b, o) != 0 ==> o + RecLen(NameLen(b, o)) + need <= BLOCK
    ensures Ino(b, o) == 0 ==> o + need <= BLOCK
  {
  }

  /** A block that is one free record, as pmfs_add_entry formats a new one over
      whatever bytes it held. */
  method FormatBlock(garbage: seq<byte>) returns (b: seq<byte>)
    requires |garbage| == BLOCK
    ensures WellFormed(b) && Names(b) == [] && Boundary(b, 0) && Ino(b, 0) == 0 && DeLen(b, 0) == BLOCK
  {
    ghost var len, name := DeLen(garbage, 0), NameAt(garbage, 0);
    assert Shows(garbage, 0, Ino(garbage, 0), len, name);
    hide Shows, SetDeLen, Patch, ToLE;
    var b1 := Patch(garbage, 0, ToLE(0, 8));
    Cleared(garbage, b1, 0, Ino(garbage, 0), len, name);
    b := SetDeLen(b1, 0, BLOCK);
    Relabelled(b1, b, 0, 0, len, name, BLOCK);
    Whole(b, name);
  }

  lemma Whole(b: seq<byte>, name: seq<byte>)
    requires |b| == BLOCK && Shows(b, 0, 0, BLOCK, name) && |name| <= NAME_LEN
    ensures WellFormed(b) && Names(b) == [] && Boundary(b, 0) && Ino(b, 0) == 0 && DeLen(b, 0) == BLOCK
  {
    RecordIs(b, 0, 0, BLOCK, name);
    hide FromLE;
  }

  lemma Cleared(b: seq<byte>, c: seq<byte>, o: nat, ino: nat, len: nat, name: seq<byte>)
    requires Shows(b, o, ino, len, name) && c == Patch(b, o, ToLE(0, 8))
    ensures Shows(c, o, 0, len, name) && SameOutside(b, c, o, o + 8)
  {
    hide FromLE, ToLE, Pow256;
    RoundTrip(0, 8);
    assert c[o + 8..o + 10] == b[o + 8..o + 10];
    assert c[o + 12..o + 12 + |name|] == b[o + 12..o + 12 + |name|];
  }

  // ---------------------------------------------------------------- removing

  /** With a predecessor in the block, its record swallows the removed one. */
  lemma Swallowed(b: seq<byte>, c: seq<byte>, p: nat, o: nat)
    requires Boundary(b, p) && o == p + DeLen(b, p) && Boundary(b, o) && c == SetDeLen(b, p, DeLen(b, p) + DeLen(b, o))
    ensures WellFormed(b) && Names(b) == Live(b, 0, p) + LiveAt(b, p) + LiveAt(b, o) + Live(b, o + DeLen(b, o), BLOCK)
    ensures WellFormed(c) && Names(c) == Live(b, 0, p) + LiveAt(b, p) + Live(b, o + DeLen(b, o), BLOCK)
    ensures Room(c, 0, BLOCK, RecLen(NameLen(b, o)))
  {
    hide Tiled, Live, Shows, SameOutside, SetDeLen, DeLen, Ino, NameLen, RecLen, Padded, Sized, LiveOf, Good, LiveAt,
         Room, HasSlack;
    IsRecord(b, p);
    IsRecord(b, o);
    var ino, len, name := Ino(b, p), DeLen(b, p) + DeLen(b, o), NameAt(b, p);
    var q := o + DeLen(b, o);
    SizesMerged(p, ino, DeLen(b, p), |name|, Ino(b, o), DeLen(b, o), NameLen(b, o));
    Relabelled(b, c, p, ino, DeLen(b, p), name, len);
    RecordIs(c, p, ino, len, name);
    Widen(b, c, p + 8, p + 10, p, q);
    Retiled(b, c, p, q, LiveAt(b, p));
    Around(b, o);
    OneRecord(b, p);
    TiledAppend(b, 0, p, o);
    SameEnds(b, c, p, q);
    Gained(b, c, p, o);
  }

  lemma SameEnds(b: seq<byte>, c: seq<byte>, p: nat, q: nat)
    requires |b| == BLOCK && p <= q <= BLOCK && SameOutside(b, c, p, q) && Tiled(b, 0, p) && Tiled(b, q, BLOCK)
    ensures Tiled(c, 0, p) && Tiled(c, q, BLOCK)
  {
    hide Tiled, Live;
    SameTiles(b, c, 0, p);
    SameTiles(b, c, q, BLOCK);
  }

  /** The record that swallowed another has room for it. */
  lemma Gained(b: seq<byte>, c: seq<byte>, p: nat, o: nat)
    requires |b| == |c| == BLOCK && Good(b, p) && Good(b, o) && Good(c, p) && DeLen(c, p) == DeLen(b, p) + DeLen(b, o)
    requires Tiled(c, 0, p) && p + DeLen(c, p) <= BLOCK && Tiled(c, p + DeLen(c, p), BLOCK)
    requires Shows(c, p, Ino(b, p), DeLen(c, p), NameAt(b, p)) && p + 12 + NameLen(b, p) <= BLOCK
    ensures WellFormed(c) && Room(c, 0, BLOCK, RecLen(NameLen(b, o)))
  {
    assert HasSlack(c, p, RecLen(NameLen(b, o))) by {
      hide FromLE, Tiled;
    }
    RoomAt(c, p, RecLen(NameLen(b, o)));
  }

  lemma SizesMerged(p: nat, ino: nat, len: nat, n: nat, ino': nat, len': nat, n': nat)
    requires Sized(p, ino, len, n) && Sized(p + len, ino', len', n')
    ensures Sized(p, ino, len + len', n) && 12 <= len' && n + 12 <= len
  {
    assert Padded(len + len');
    hide RecLen, Padded;
  }

  /** The first record of a block only loses its inode number. */
  lemma Freed(b: seq<byte>, c: seq<byte>)
    requires Boundary(b, 0) && c == Patch(b, 0, ToLE(0, 8))
    ensures WellFormed(b) && Names(b) == LiveAt(b, 0) + Live(b, DeLen(b, 0), BLOCK)
    ensures WellFormed(c) && Names(c) == Live(b, DeLen(b, 0), BLOCK)
    ensures Room(c, 0, BLOCK, RecLen(NameLen(b, 0)))
  {
    hide Tiled, Live, Shows, SameOutside, Patch, DeLen, Ino, NameLen, RecLen, Padded, Good, LiveAt, ToLE, Room, HasSlack;
    IsRecord(b, 0);
    var ino, len, name := Ino(b, 0), DeLen(b, 0), NameAt(b, 0);
    Cleared(b, c, 0, ino, len, name);
    RecordIs(c, 0, 0, len, name);
    Widen(b, c, 0, 8, 0, len);
    Around(b, 0);
    Retiled(b, c, 0, len, []);
    Nothing(b);
    SameEnds(b, c, 0, len);
    FirstGained(b, c, name);
  }

  lemma FirstGained(b: seq<byte>, c: seq<byte>, name: seq<byte>)
    requires |b| == |c| == BLOCK && Good(b, 0) && Good(c, 0) && Shows(c, 0, 0, DeLen(b, 0), name)
    requires Tiled(c, 0, 0) && DeLen(b, 0) <= BLOCK && Tiled(c, DeLen(b, 0), BLOCK)
    ensures WellFormed(c) && Room(c, 0, BLOCK, RecLen(NameLen(b, 0)))
  {
    assert HasSlack(c, 0, RecLen(NameLen(b, 0))) by {
      hide FromLE, Tiled;
    }
    RoomAt(c, 0, RecLen(NameLen(b, 0)));
  }

  lemma Nothing(b: seq<byte>)
    requires BLOCK <= |b|
    ensures Live(b, 0, 0) == []
  {
  }

  /** prev is the record before o, if o is not the first. */
  ghost predicate Precedes(b: seq<byte>, prev: Option<nat>, o: nat) {
    if prev.Some? then Boundary(b, prev.value) && prev.value + DeLen(b, prev.value) == o else o == 0
  }

  /** The writes of pmfs_remove_entry: the record at o, whose predecessor in the
      block (if any) is at prev, goes away. */
  method RemoveDirent(b: seq<byte>, o: nat, prev: Option<nat>) returns (c: seq<byte>)
    requires Boundary(b, o) && Precedes(b, prev, o)
    ensures WellFormed(b) && WellFormed(c) && multiset(Names(b)) == multiset(Names(c)) + multiset(LiveAt(b, o))
    ensures Room(c, 0, BLOCK, RecLen(NameLen(b, o)))
    ensures 32 <= o ==> KeepsDots(b, c)
  {
    hide Tiled, Live, LiveAt, Good, SetDeLen, Patch, ToLE, FromLE, CheckEntry, Room, KeepsDots, Dotted, RecLen;
    InBlock(b, o);
    match prev {
      case Some(p) =>
        InBlock(b, p);
        c := SetDeLen(b, p, DeLen(b, p) + DeLen(b, o));
        Swallowed(b, c, p, o);
        Shuffle(Live(b, 0, p) + LiveAt(b, p), [], LiveAt(b, o), Live(b, o + DeLen(b, o), BLOCK));
        if 32 <= o { DotsGrown(b, c, p, o); }
      case None =>
        c := Patch(b, o, ToLE(0, 8));
        Freed(b, c);
    }
  }

  lemma DotsGrown(b: seq<byte>, c: seq<byte>, p: nat, o: nat)
    requires WellFormed(b) && Boundary(b, p) && o == p + DeLen(b, p) && Boundary(b, o) && 32 <= o
    requires c == SetDeLen(b, p, DeLen(b, p) + DeLen(b, o))
    ensures KeepsDots(b, c)
  {
    hide Tiled, LiveAt, FromLE, Dotted, SetDeLen, RecLen, Padded;
    if Dotted(b) && DeLen(b, 0) == RecLen(1) {
      DotBoundary(b, p);
      LengthSet(b, c, p, DeLen(b, p) + DeLen(b, o));
      DotsSame(b, c);
    }
  }

  lemma InBlock(b: seq<byte>, o: nat)
    requires Boundary(b, o)
    ensures |b| == BLOCK && o + 12 <= o + DeLen(b, o) <= BLOCK && Good(b, o)
  {
  }

  // ---------------------------------------------------------------- searching

  /** pmfs_match. */
  predicate Match(b: seq<byte>, o: nat, name: seq<byte>)
    requires o + 12 + NAME_LEN <= |b|
  {
    |name| == NameLen(b, o) && Ino(b, o) != 0 && NameAt(b, o) == name
  }

  datatype Found = Hit(de: nat, prev: Option<nat>) | Miss | Corrupt

  /** No entry of l carries the name. */
  predicate Unbound(l: seq<Entry>, name: seq<byte>) {
    forall e :: e in l ==> e.name != name
  }

  /** pmfs_search_dirblock: the first record that binds the name, and its
      predecessor.  The walk reads past the end of a corrupt block, so `beyond`
      holds the bytes that follow the block in memory. */
  method SearchDirblock(b: seq<byte>, beyond: seq<byte>, name: seq<byte>) returns (r: Found)
    requires |b| == BLOCK && 12 + NAME_LEN <= |beyond|
    ensures r.Hit? ==> r.de < BLOCK && Match(b + beyond, r.de, name) && CheckEntry(b + beyond, r.de)
    ensures WellFormed(b) ==> !r.Corrupt?
    ensures WellFormed(b) && r.Miss? ==> Unbound(Names(b), name)
    ensures WellFormed(b) && r.Hit? ==> HitIn(b, r, name)
  {
    var mem := b + beyond;
    var de := 0;
    var pde: Option<nat> := None;
    hide Tiled, Live, LiveAt, Good, CheckEntry, FromLE, WellFormed, Walked, Boundary, Unbound, Names;
    Start(b, name);
    while de < BLOCK
      invariant WellFormed(b) ==> Walked(b, de, name)
      invariant WellFormed(b) ==> Precedes(b, pde, de)
      decreases BLOCK - de
    {
      Step(b, beyond, de, name);
      if de + |name| <= BLOCK && Match(mem, de, name) {
        if !CheckEntry(mem, de) { return Corrupt; }
        Strike(b, de, pde, name);
        return Hit(de, pde);
      }
      var deLen := DeLen(mem, de);
      if deLen <= 0 { return Corrupt; }
      pde := Some(de);
      de := de + deLen;
    }
    Finish(b, de, name);
    return Miss;
  }

  lemma Strike(b: seq<byte>, de: nat, prev: Option<nat>, name: seq<byte>)
    ensures WellFormed(b) && Walked(b, de, name) && Boundary(b, de) && Precedes(b, prev, de) && LiveAt(b, de) == [Entry(name, Ino(b, de))]
            ==> HitIn(b, Hit(de, prev), name)
  {
  }

  /** What a hit in a sound block means. */
  ghost predicate HitIn(b: seq<byte>, r: Found, name: seq<byte>)
    requires WellFormed(b) && r.Hit?
  {
    && Boundary(b, r.de) && LiveAt(b, r.de) == [Entry(name, Ino(b, r.de))] && Unbound(Live(b, 0, r.de), name)
    && Precedes(b, r.prev, r.de)
  }

  /** The walk stands at a record (or the end) of a sound block and has not met the name. */
  ghost predicate Walked(b: seq<byte>, de: nat, name: seq<byte>) {
    |b| == BLOCK && de <= BLOCK && Tiled(b, 0, de) && Tiled(b, de, BLOCK) && Unbound(Live(b, 0, de), name)
  }

  lemma Start(b: seq<byte>, name: seq<byte>)
    requires |b| == BLOCK
    ensures WellFormed(b) ==> Walked(b, 0, name)
  {
    assert Live(b, 0, 0) == [];
  }

  lemma Finish(b: seq<byte>, de: nat, name: seq<byte>)
    requires |b| == BLOCK && BLOCK <= de
    ensures WellFormed(b) && Walked(b, de, name) ==> Unbound(Names(b), name)
  {
  }

  lemma Step(b: seq<byte>, beyond: seq<byte>, de: nat, name: seq<byte>)
    requires |b| == BLOCK && 12 + NAME_LEN <= |beyond| && de < BLOCK
    ensures Walked(b, de, name) ==> Boundary(b, de) && CheckEntry(b + beyond, de) && 0 < DeLen(b, de) == DeLen(b + beyond, de)
    ensures Walked(b, de, name) && de + |name| <= BLOCK && Match(b + beyond, de, name) ==> LiveAt(b, de) == [Entry(name, Ino(b, de))]
    ensures Walked(b, de, name) && !(de + |name| <= BLOCK && Match(b + beyond, de, name)) ==> Walked(b, de + DeLen(b, de), name)
  {
    hide Tiled, Live, LiveAt, FromLE, CheckEntry, Good, DeLen, NameLen, Boundary, Match, Walked;
    if Walked(b, de, name) {
      StepAt(b, b + beyond, de, name);
    }
  }

  lemma StepAt(b: seq<byte>, mem: seq<byte>, de: nat, name: seq<byte>)
    requires Walked(b, de, name) && de < BLOCK && BLOCK + 12 + NAME_LEN <= |mem| && mem[..BLOCK] == b
    ensures Boundary(b, de) && CheckEntry(mem, de) && 0 < DeLen(b, de) == DeLen(mem, de)
    ensures de + |name| <= BLOCK && Match(mem, de, name) ==> LiveAt(b, de) == [Entry(name, Ino(b, de))]
    ensures !(de + |name| <= BLOCK && Match(mem, de, name)) ==> Walked(b, de + DeLen(b, de), name)
  {
    hide Tiled, Live, FromLE, RecLen, Padded;
    AtRecord(b, de);
    SameRecord(b, mem, de);
    OneRecord(b, de);
    TiledAppend(b, 0, de, de + DeLen(b, de));
  }

  lemma AtRecord(b: seq<byte>, de: nat)
    requires |b| == BLOCK && de < BLOCK && Tiled(b, 0, de) && Tiled(b, de, BLOCK)
    ensures Boundary(b, de) && Good(b, de) && 0 < DeLen(b, de)
  {
  }

  // ---------------------------------------------------------------- a new directory

  /** The block pmfs_mkdir writes: "." for the directory, ".." for its parent,
      the second record reaching to the end; both names end in NUL. */
  method MakeDirBlock(garbage: seq<byte>, self: nat, parent: nat) returns (b: seq<byte>)
    requires |garbage| == BLOCK && 0 < self < Pow256(8) && 0 < parent < Pow256(8)
    ensures WellFormed(b) && Names(b) == [Entry([DOT], self), Entry([DOT, DOT], parent)]
    ensures Dotted(b) && DeLen(b, 0) == RecLen(1) && Ino(b, 0) == self && Ino(b, 16) == parent
  {
    hide PutRecord, SetDeLen, Shows, SameOutside, Pow256, Tiled, Live, RecLen, Padded, DeLen, Ino, NameLen, FromLE;
    var b1 := SetDeLen(garbage, 0, RecLen(1));
    LengthSet(garbage, b1, 0, RecLen(1));
    var b2 := PutNamed(b1, 0, [DOT], self);
    var b3 := SetDeLen(b2, 16, BLOCK - RecLen(1));
    LengthSet(b2, b3, 16, BLOCK - RecLen(1));
    ShowsKept(b2, b3, 0, self, 16, [DOT], 24, 26);
    NulKept(b2, b3, 0, 1, 24, 26);
    b := PutNamed(b3, 16, [DOT, DOT], parent);
    ShowsKept(b3, b, 0, self, 16, [DOT], 16, 31);
    NulKept(b3, b, 0, 1, 16, 31);
    NewSizes(self, parent);
    RecordIs(b, 0, self, 16, [DOT]);
    RecordIs(b, 16, parent, BLOCK - 16, [DOT, DOT]);
    TiledAppend(b, 0, 16, BLOCK);
    Unpack(b, 0, self, 16, [DOT]);
    Unpack(b, 16, parent, BLOCK - 16, [DOT, DOT]);
  }

  /** Write inode number and name of a record, and the NUL that strcpy adds. */
  method PutNamed(b: seq<byte>, o: nat, name: seq<byte>, ino: nat) returns (c: seq<byte>)
    requires 0 < |name| <= NAME_LEN && o + 13 + |name| <= |b| && ino < Pow256(8)
    ensures |c| == |b| && Shows(c, o, ino, DeLen(b, o), name) && SameOutside(b, c, o, o + 13 + |name|)
    ensures c[o + 12 + |name|] == 0
  {
    hide PutRecord, Shows, SameOutside, Pow256, DeLen;
    var b1 := PutRecord(b, o, name, ino);
    RecordPut(b, b1, o, name, ino);
    c := Patch(b1, o + 12 + |name|, [0]);
    NulPut(b1, c, o + 12 + |name|);
    ShowsKept(b1, c, o, ino, DeLen(b, o), name, o + 12 + |name|, o + 13 + |name|);
    Widen(b, b1, o, o + 12 + |name|, o, o + 13 + |name|);
    Widen(b1, c, o + 12 + |name|, o + 13 + |name|, o, o + 13 + |name|);
    Compose(b, b1, c, o, o + 13 + |name|);
  }

  lemma NulPut(b: seq<byte>, c: seq<byte>, o: nat)
    requires o < |b| && c == Patch(b, o, [0])
    ensures SameOutside(b, c, o, o + 1) && c[o] == 0
  {
    assert c[o] == c[o..o + 1][0];
  }

  lemma NulKept(b: seq<byte>, c: seq<byte>, o: nat, n: nat, lo: nat, hi: nat)
    requires o + 12 + n < |b| && SameOutside(b, c, lo, hi) && o + 12 + n < lo
    ensures c[o + 12 + n] == b[o + 12 + n]
  {
  }

  lemma Unpack(b: seq<byte>, o: nat, ino: nat, len: nat, name: seq<byte>)
    requires Shows(b, o, ino, len, name) && o + 12 + |name| < |b|
    ensures Ino(b, o) == ino && DeLen(b, o) == len && b[o + 12..o + 13 + |name|] == name + [b[o + 12 + |name|]]
  {
  }

  lemma NewSizes(self: nat, parent: nat)
    ensures Sized(0, self, 16, 1) && Sized(16, parent, BLOCK - 16, 2)
  {
  }
}
