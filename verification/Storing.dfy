/** What a write does in terms of extents, bits and the bytes of the record, and exactly when it can
    (fs/ext4/ext4.c, ext4_write_file from the path to the last inode write). */
module Storing {
  import opened Bytes
  import opened Bitmap
  import opened Storage
  import opened Volume
  import opened Extents
  import opened DirBlock
  import opened Image
  import opened Names
  import opened Paths
  import opened Counts
  import opened Files
  import opened Results

  /** The first extent of the record holds `size` bytes. */
  predicate FirstHolds(ino: Inode, size: nat, blockSize: nat)
    requires ExtentsFit(ino)
  {
    && UsesExtents(ino) && HasHeader(ino) && ExtentList(ino) != []
    && size <= Pos(ExtentList(ino)[0].len, blockSize)
  }

  lemma FirstHoldsReused(g: Geometry, ino: Inode, size: nat)
    requires GeometryOk(g) && ExtentsFit(ino) && 0 < size <= U32_SPAN - g.blockSize
    ensures Reusable(ino, BlocksNeeded(g, size)) <==> FirstHolds(ino, size, g.blockSize)
  {
    hide BlocksNeeded, UsesExtents, ExtentAt;
    NeededFits(g, size);
    if FirstHolds(ino, size, g.blockSize) {
      NeededLeast(g, size, ExtentList(ino)[0].len);
    }
    if Reusable(ino, BlocksNeeded(g, size)) {
      PosMonotone(BlocksNeeded(g, size), ExtentList(ino)[0].len, g.blockSize);
    }
  }

  /** No fewer blocks than the needed ones hold the data. */
  lemma NeededLeast(g: Geometry, size: nat, k: nat)
    requires GeometryOk(g) && 0 < size <= U32_SPAN - g.blockSize && size <= Pos(k, g.blockSize)
    ensures BlocksNeeded(g, size) <= k
  {
    hide BlocksNeeded;
    NeededFits(g, size);
    if k < BlocksNeeded(g, size) {
      PosMonotone(k + 1, BlocksNeeded(g, size), g.blockSize);
      PosStep(k, g.blockSize);
    }
  }

  /** The content of inode `n` was replaced in its own blocks: bitmap, counts, blocks and the bytes
      behind the data are as they were. */
  ghost predicate InPlace(s: Image, t: Image, n: nat, data: seq<byte>, ok: bool) {
    && Readable(s) && Readable(t) && t.v == s.v && t.live == s.live && n in s.live
    && t.Blocks(n) == s.Blocks(n) && t.BlockBits() == s.BlockBits() && CountersOf(t) == CountersOf(s)
    && (ok ==>
          && OnDisk(s.d, s.Blocks(n)) && OnDisk(t.d, s.Blocks(n)) && |data| <= |Flat(s.d, s.Blocks(n))|
          && Flat(t.d, s.Blocks(n)) == data + Flat(s.d, s.Blocks(n))[|data|..])
  }

  ghost predicate FirstExtentHolds(s: Image, n: nat, size: nat)
    requires Readable(s) && n in s.live
  {
    s.InodeOk(n) && FirstHolds(s.Ino(n), size, s.v.g.blockSize)
  }

  /** An overwrite that fits the first extent is made in place, and without a device fault it
      succeeds, however full the volume is. */
  lemma OverwriteInPlace(s: Image, t: Image, path: seq<byte>, n: nat, data: seq<byte>, ok: bool, clean: bool,
        booked: bool)
    requires Wrote(s, t, path, n, data, ok, clean, booked) && n in s.live
    requires 0 < |data| <= U32_SPAN - s.v.g.blockSize && FirstExtentHolds(s, n, |data|)
    ensures InPlace(s, t, n, data, ok) && (clean ==> ok)
  {
    hide Wrote, UsesExtents, BlocksNeeded, CountersOf, Flat, InodeBlocks, ExtentAt, Parent, Image.DescsOk, RegionsApart,
      RegionsOnDisk, RecordAfter, OwnsRun;
    StoredPlaced(s, t, path, n, data, ok, clean, booked);
    FirstHoldsReused(s.v.g, s.Ino(n), |data|);
    NeededFits(s.v.g, |data|);
    if ok {
      BytesInPlace(Flat(s.d, s.Blocks(n)), Flat(t.d, t.Blocks(n)), data);
    }
  }

  lemma BytesInPlace(f: seq<byte>, h: seq<byte>, data: seq<byte>)
    requires |f| == |h| && ReadSlice(h, 0, |data|) == data
    requires forall i :: |data| <= i < |f| ==> h[i] == f[i]
    ensures |data| <= |f| && h == data + f[|data|..]
  {
    assert h[..|data|] == data;
  }

  lemma StoredPlaced(s: Image, t: Image, path: seq<byte>, n: nat, data: seq<byte>, ok: bool, clean: bool, booked: bool)
    requires Wrote(s, t, path, n, data, ok, clean, booked) && n in s.live
    ensures Readable(s) && Readable(t) && t.v == s.v && t.live == s.live && Placed(s, t, n, |data|, ok)
    ensures ok ==> Holds(s, t, n, data)
    ensures Existing(s, path).Some? && n == Existing(s, path).value.inode
    ensures clean ==> (ok <==> CanStore(s, n, |data|))
  {
    hide OthersKept, NamesBooked, Written, Counted, BlockBitsClaimed, Holds, Placed, Parent, CanStore, HasRoom,
      HasInode, HasRun, Image.DirsOk, Image.Disjoint, Image.BitsOk, Image.DescsOk, RegionsApart, RegionsOnDisk,
      NewFile;
  }

  /** An overwrite that does not fit it moves the file: the lowest run of free blocks of the length the
      data needs is claimed, and the inode has exactly that run. */
  lemma OverwriteMoves(s: Image, t: Image, path: seq<byte>, n: nat, data: seq<byte>, clean: bool, booked: bool)
    requires Wrote(s, t, path, n, data, true, clean, booked) && n in s.live
    requires 0 < |data| <= U32_SPAN - s.v.g.blockSize && s.InodeOk(n) && !FirstExtentHolds(s, n, |data|)
    ensures DiskOk(t.v, t.d) && InodeNum(t.v, n) && exists block, k: nat ::
      ClaimedRun(s, t, block, k) && t.Blocks(n) == Run(block, k)
      && |data| <= Pos(k, s.v.g.blockSize) < |data| + s.v.g.blockSize
  {
    hide Wrote, UsesExtents, BlocksNeeded, CountersOf, Flat, InodeBlocks, ExtentAt, Existing, Image.DescsOk,
      RegionsApart, RegionsOnDisk, RecordAfter, ClaimedRun, Reusable, ExtentList;
    StoredPlaced(s, t, path, n, data, true, clean, booked);
    FirstHoldsReused(s.v.g, s.Ino(n), |data|);
    NeededFits(s.v.g, |data|);
    var needed := BlocksNeeded(s.v.g, |data|);
    var block :| ClaimedRun(s, t, block, needed) && t.Blocks(n) == Run(block, needed);
  }

  /** The record of a file that was created: a regular file with mode 0644, one link, the extents flag
      and the size; what is not named here is zero. */
  lemma CreatedRecord(s: Image, t: Image, path: seq<byte>, n: nat, data: seq<byte>, clean: bool, booked: bool)
    requires Wrote(s, t, path, n, data, true, clean, booked) && n !in s.live
    ensures DiskOk(t.v, t.d) && InodeNum(t.v, n)
    ensures var r := t.Ino(n);
      && U16(r, 0) == 0x8000 + 6 * 64 + 4 * 8 + 4 && U16(r, 26) == 1 && U32(r, 32) == 0x80000
      && U32(r, 4) == |data| && U32(r, 108) == 0
      && forall i :: 2 <= i < 128 && Untouched(i, true) && i != 26 && i != 27 ==> r[i] == 0
  {
    hide OthersKept, NamesBooked, Written, Counted, BlockBitsClaimed, Existing, Parent, HasRoom, HasInode, HasRun,
      Image.DirsOk, Image.Disjoint, Image.BitsOk, Image.DescsOk, RegionsApart, RegionsOnDisk, WroteClean, OwnsRun,
      InodeBlocks, BlocksNeeded, NewInode, RecordAfter, Untouched;
    var needed := BlocksNeeded(s.v.g, |data|);
    NewRecordBytes(t.Ino(n), |data|, needed, s.v.g.blockSize, 0 < needed);
  }

  lemma NewRecordBytes(r: Inode, size: nat, needed: nat, blockSize: nat, moved: bool)
    requires RecordAfter(NewInode(), r, size, needed, blockSize, moved)
    ensures U16(r, 0) == 0x8000 + 6 * 64 + 4 * 8 + 4 && U16(r, 26) == 1 && U32(r, 32) == 0x80000
    ensures U32(r, 4) == size && U32(r, 108) == 0
    ensures forall i :: 2 <= i < 128 && Untouched(i, true) && i != 26 && i != 27 ==> r[i] == 0
  {
    hide NewInode;
    NewInodeBytes();
    assert forall i :: 0 <= i < 128 && Untouched(i, true) ==> Untouched(i, moved);
    assert Untouched(0, moved) && Untouched(1, moved) && Untouched(26, moved) && Untouched(27, moved);
    if !moved {
      assert forall i :: 32 <= i < 36 ==> Untouched(i, moved);
    }
  }

  /** A run of free blocks that holds `size` bytes and has a length an extent can record. */
  ghost predicate FreeRun(s: Image, size: nat)
    requires DiskOk(s.v, s.d)
  {
    exists i: nat, k: nat :: k <= 0x7FFF && i + k <= s.v.g.blocksPerGroup && size <= Pos(k, s.v.g.blockSize)
      && ClearRun(s.BlockBits(), i, k)
  }

  /** No block is needed, also because the size wraps around, or there is a run. */
  ghost predicate CanHold(s: Image, size: nat)
    requires DiskOk(s.v, s.d)
  {
    size == 0 || size > U32_SPAN - s.v.g.blockSize || FreeRun(s, size)
  }

  lemma HoldsExactly(s: Image, size: nat)
    requires DiskOk(s.v, s.d) && size < U32_SPAN
    ensures HasRun(s, BlocksNeeded(s.v.g, size)) <==> CanHold(s, size)
  {
    hide BlocksNeeded, RegionsApart, RegionsOnDisk, Bit;
    var needed := BlocksNeeded(s.v.g, size);
    NeededFits(s.v.g, size);
    if 0 < needed && FreeRun(s, size) {
      var i: nat, k: nat :| k <= 0x7FFF && i + k <= s.v.g.blocksPerGroup && size <= Pos(k, s.v.g.blockSize)
        && ClearRun(s.BlockBits(), i, k);
      NeededLeast(s.v.g, size, k);
      assert ClearRun(s.BlockBits(), i, needed);
    }
  }

  /** The record at `off` of a directory block can give room to a name of length `len`. */
  predicate Slack(b: seq<byte>, off: nat, len: nat) {
    Visits(b, 0, off) && off + 8 < |b| && RecLen(b, off) >= Align4(8 + NameLen(b, off)) + Align4(8 + len)
  }

  ghost predicate NameFits(s: Image, dir: nat, len: nat)
    requires s.Shaped() && InodeNum(s.v, dir)
  {
    exists k, off: nat :: 0 <= k < |s.Blocks(dir)| && s.Blocks(dir)[k] < |s.d| && Slack(s.d[s.Blocks(dir)[k]], off, len)
  }

  lemma FitsExactly(s: Image, dir: nat, len: nat)
    requires s.Shaped() && InodeNum(s.v, dir)
    ensures HasRoom(s, dir, len) <==> NameFits(s, dir, len)
  {
    hide RoomAt, RegionsApart, RegionsOnDisk, InodeBlocks, Slack;
    forall k | 0 <= k < |s.Blocks(dir)| && s.Blocks(dir)[k] < |s.d|
      ensures RoomIn(s, s.Blocks(dir)[k], len) <==> exists off: nat :: Slack(s.d[s.Blocks(dir)[k]], off, len)
    {
      SlackExactly(s.d[s.Blocks(dir)[k]], len);
    }
  }

  lemma SlackExactly(b: seq<byte>, len: nat)
    ensures RoomAt(b, 0, Align4(8 + len)).Some? <==> exists off: nat :: Slack(b, off, len)
  {
    hide RoomAt, RecLen, NameLen, Align4, Visits;
    RoomExactly(b, 0, Align4(8 + len));
    if RoomAt(b, 0, Align4(8 + len)).Some? {
      assert Slack(b, RoomAt(b, 0, Align4(8 + len)).value, len);
    }
  }

  /** When a write of `size` bytes to the name behind `head` succeeds. The head leads to a directory, and
      either the name is there and its inode can take the content, or there are an inode, a record with
      enough slack and room for the content. */
  ghost predicate Writable(s: Image, head: seq<byte>, name: seq<byte>, size: nat)
    requires Readable(s)
  {
    |head| <= 255 &&
    match s.Resolve(ROOT, Components(head))
    case None => false
    case Some(dir) =>
      dir.kind == 2 && dir.inode in s.live &&
      match s.Lookup(dir.inode, name)
      case Some(e) => e.inode in s.live && (FirstExtentHolds(s, e.inode, size) || CanHold(s, size))
      case None =>
        && NameFits(s, dir.inode, |name|) && CanHold(s, size)
        && exists i :: 0 <= i < s.v.g.inodesPerGroup && !Bit(s.InodeBits(), i)
  }

  /** Without device faults a write succeeds if and only if it is `Writable`. */
  lemma SucceedsExactly(s: Image, t: Image, head: seq<byte>, name: seq<byte>, n: nat, data: seq<byte>, ok: bool,
        booked: bool)
    requires Wrote(s, t, head + name, n, data, ok, true, booked) && |data| < U32_SPAN
    requires head != [] && head[0] == SLASH && head[|head| - 1] == SLASH && NoSlash(name) && name != []
    ensures ok <==> Writable(s, head, name, |data|)
  {
    hide Components, ParentString, LookupIn, CanHold, NameFits, HasRun, HasRoom, CanStore, Bit, NamesBooked, OthersKept,
      Counted, BlockBitsClaimed, StoredIn, NewFile, Written, NameOf, HeadOf, FirstExtentHolds, Image.DirsOk,
      Image.Disjoint, Image.BitsOk, Image.DescsOk, RegionsApart, RegionsOnDisk, Image.Resolve;
    HeadAndName(head, name);
    HoldsExactly(s, |data|);
    var dir := Parent(s, head + name);
    if dir.Some? {
      FitsExactly(s, dir.value.inode, |name|);
      var e := Existing(s, head + name);
      if e.Some? && e.value.inode in s.live {
        StorableExactly(s, e.value.inode, |data|);
      }
    }
  }

  lemma HeadAndName(head: seq<byte>, name: seq<byte>)
    requires head != [] && head[0] == SLASH && head[|head| - 1] == SLASH && NoSlash(name) && name != []
    ensures HeadOf(head + name) == head && NameOf(head + name) == name && (head + name)[0] == SLASH
    ensures Components(ParentString(head)) == Components(head)
  {
    hide Components;
    NameStartUnique(head + name, |head|);
    if 1 < |head| {
      assert head == head[..|head| - 1] + [SLASH];
      TrailingSlash(head[..|head| - 1]);
    }
  }

  lemma StorableExactly(s: Image, n: nat, size: nat)
    requires Readable(s) && n in s.live && size < U32_SPAN
    ensures CanStore(s, n, size) <==> FirstExtentHolds(s, n, size) || CanHold(s, size)
  {
    hide BlocksNeeded, Reusable, FirstHolds, FreeRun, NoRunBelow, RegionsApart, RegionsOnDisk, Image.DescsOk,
      InodeBlocks;
    assert s.InodeOk(n);
    NeededFits(s.v.g, size);
    HoldsExactly(s, size);
    if 0 < size <= U32_SPAN - s.v.g.blockSize {
      FirstHoldsReused(s.v.g, s.Ino(n), size);
    }
  }

  /** Exactly what a write that fails without a device fault leaves behind on a volume of the usual
      layout: nothing, unless the name was not there and an inode was free. That inode is then claimed and
      initialised, and it is in the directory if some record gave room to the name. */
  lemma FailureLeaves(s: Image, t: Image, path: seq<byte>, n: nat, data: seq<byte>, booked: bool)
    requires Wrote(s, t, path, n, data, false, true, booked) && s.Sound() && UsualLayout(s.v.g)
    ensures Parent(s, path).None? || Existing(s, path).Some? || !HasInode(s) ==> t == s
    ensures Parent(s, path).Some? && Existing(s, path).None? && HasInode(s) ==>
      && InodeReady(s, t, n) && n !in s.live && t.v == s.v && t.BlockBits() == s.BlockBits()
      && t.live == if NameFits(s, Parent(s, path).value.inode, |NameOf(path)|) then s.live + {n} else s.live
  {
    hide CanWrite, OthersKept, LiveGrew, BlockBitsClaimed, NamesBooked, LookupHeld, Counted, Existing, RunTooLong,
      HitsDirectory, AimsAtDirectory, Image.InodesOk, Image.BitsOk, Image.Disjoint, Image.DescsOk, Image.DirsOk,
      StoredIn, HasRoom, NameFits, HasInode, ClaimedInode, NewInode, NameOf, Image.Resolve, Components, RegionsApart,
      RegionsOnDisk;
    NoRunTooLong(s, BlocksNeeded(s.v.g, |data|));
    if Parent(s, path).Some? {
      FitsExactly(s, Parent(s, path).value.inode, |NameOf(path)|);
    }
  }

  /** A path without a leading slash or without a name leaves everything as it is. */
  lemma NamelessFails(s: Image, t: Image, path: seq<byte>, n: nat, data: seq<byte>, ok: bool, clean: bool, booked: bool)
    requires Wrote(s, t, path, n, data, ok, clean, booked)
    requires path == [] || path[0] != SLASH || path[|path| - 1] == SLASH
    ensures !ok && t == s
  {
    hide LiveGrew, BlockBitsClaimed, Counted, WroteClean, OthersKept, NamesBooked, Image.Sound, HitsDirectory, Written,
      Existing, Traceable;
  }
}
