/** File contents: the inode records the write code builds, what a read of a file returns, and
    what storing new content in a file does to the image (fs/ext4/ext4.c, ext4_read_file and
    ext4_write_file). */
module Files {
  import opened Bytes
  import opened Bitmap
  import opened Storage
  import opened Volume
  import opened Extents
  import opened DirBlock
  import opened Image
  import opened Names
  import opened Paths

  function FileSize(ino: Inode): nat {
    SizeHigh(ino) * U32_SPAN + SizeLo(ino)
  }

  /** What reading at most `max` bytes of inode `n` gives. */
  function Content(s: Image, n: nat, max: nat): Option<seq<byte>>
    requires Readable(s) && n in s.live
  {
    assert s.InodeOk(n);
    if UsesExtents(s.Ino(n)) && HasHeader(s.Ino(n))
    then Some(ReadSlice(Flat(s.d, s.Blocks(n)), 0, Min(FileSize(s.Ino(n)), max)))
    else None
  }

  /** What reading at most `max` bytes of the file at `path` gives. */
  function ReadBack(s: Image, path: seq<byte>, max: nat): Option<seq<byte>>
    requires Readable(s)
  {
    if path == [] || path[0] != SLASH then None
    else match s.Resolve(ROOT, Components(path))
      case None => None
      case Some(t) => if t.kind == FT_REG_FILE && t.inode in s.live then Content(s, t.inode, max) else None
  }

  /** A file can be read and a directory searched only through the extents flag, the magic number and
      an extent tree of depth 0. */
  lemma HeaderDecides(s: Image, n: nat, max: nat, name: seq<byte>)
    requires Readable(s) && n in s.live
    ensures var r := s.Ino(n);
      var accepted := U32(r, 32) / 0x80000 % 2 == 1 && U16(r, 40) == 0xF30A && U16(r, 46) == 0;
      (Content(s, n, max).Some? <==> accepted) && (!accepted ==> s.Lookup(n, name).None?)
  {
    assert s.InodeOk(n);
    hide Flat, InodeBlocks, RegionsApart, RegionsOnDisk, Image.DescsOk, FileSize, ReadSlice, FindEntry, DirEntries;
  }

  lemma ContentIs(s: Image, n: nat, max: nat)
    requires Readable(s) && n in s.live && Content(s, n, max).Some?
    ensures OnDisk(s.d, s.Blocks(n)) && Sized(s.d, s.v.g.blockSize)
    ensures Content(s, n, max).value == ReadSlice(Flat(s.d, s.Blocks(n)), 0, Min(FileSize(s.Ino(n)), max))
  {
    assert s.InodeOk(n);
    hide Flat, InodeBlocks, UsesExtents, HasHeader, RegionsApart, RegionsOnDisk, Image.DescsOk, FileSize, ReadSlice;
  }

  /** The content goes on to the end of the file, of its blocks or of the buffer, whichever is first. */
  lemma ContentLength(s: Image, n: nat, max: nat)
    requires Readable(s) && n in s.live && Content(s, n, max).Some?
    ensures |Content(s, n, max).value| ==
      Min(Min(U32(s.Ino(n), 4) + U32(s.Ino(n), 108) * 0x1_0000_0000, max), Pos(|s.Blocks(n)|, s.v.g.blockSize))
  {
    ContentIs(s, n, max);
    FlatLength(s.d, s.Blocks(n), s.v.g.blockSize);
    hide Content, Flat, Readable, Image.Blocks, Image.Ino, U32, Pos, OnDisk, Sized;
  }

  /** Byte `j` of block `k` of a file is that byte of its block on disk. */
  lemma ContentByte(s: Image, n: nat, max: nat, k: nat, j: nat)
    requires Readable(s) && n in s.live && Content(s, n, max).Some?
    requires k < |s.Blocks(n)| && j < s.v.g.blockSize && Pos(k, s.v.g.blockSize) + j < |Content(s, n, max).value|
    ensures s.Blocks(n)[k] < |s.d| && j < |s.d[s.Blocks(n)[k]]|
    ensures Content(s, n, max).value[Pos(k, s.v.g.blockSize) + j] == s.d[s.Blocks(n)[k]][j]
  {
    ContentIs(s, n, max);
    FlatByte(s.d, s.Blocks(n), s.v.g.blockSize, k, j);
    SliceReads(Flat(s.d, s.Blocks(n)), 0, Min(FileSize(s.Ino(n)), max));
    hide Content, Flat, Readable, Image.Blocks, Image.Ino, FileSize, Pos, ReadSlice;
  }

  /** Which paths can be read: absolute ones, of any length, that lead to a live inode recorded as a
      regular file, with an extent header that is accepted. */
  lemma ReadsExactly(s: Image, path: seq<byte>, max: nat)
    requires Readable(s)
    ensures ReadBack(s, path, max).Some? <==>
      (path != [] && path[0] == SLASH &&
       match s.Resolve(ROOT, Components(path))
       case None => false
       case Some(u) =>
         && u.kind == 1 && u.inode in s.live
         && U32(s.Ino(u.inode), 32) / 0x80000 % 2 == 1 && U16(s.Ino(u.inode), 40) == 0xF30A
         && U16(s.Ino(u.inode), 46) == 0)
    ensures ReadBack(s, path, max).Some? ==>
      ReadBack(s, path, max) == Content(s, s.Resolve(ROOT, Components(path)).value.inode, max)
  {
    hide Image.Resolve, Components, Content, U32, U16, RegionsApart, RegionsOnDisk, Image.DescsOk;
    if path != [] && path[0] == SLASH && s.Resolve(ROOT, Components(path)).Some? {
      var n := s.Resolve(ROOT, Components(path)).value.inode;
      if n in s.live {
        HeaderDecides(s, n, max, []);
      }
    }
  }

  /** A shorter buffer gets the beginning of what a longer one gets, and nothing only if that one
      gets nothing. */
  lemma ReadCut(s: Image, path: seq<byte>, a: nat, b: nat)
    requires Readable(s) && a <= b
    ensures ReadBack(s, path, a) ==
      match ReadBack(s, path, b)
      case None => None
      case Some(c) => Some(c[..Min(|c|, a)])
  {
    hide Image.Resolve, Components, Flat, InodeBlocks, UsesExtents, HasHeader, Image.DescsOk, RegionsApart,
      RegionsOnDisk, ReadSlice, FileSize;
    if path != [] && path[0] == SLASH && s.Resolve(ROOT, Components(path)).Some? {
      var n := s.Resolve(ROOT, Components(path)).value.inode;
      if n in s.live {
        assert s.InodeOk(n);
        SliceCut(Flat(s.d, s.Blocks(n)), FileSize(s.Ino(n)), a, b);
      }
    }
  }

  lemma SliceCut(f: seq<byte>, size: nat, a: nat, b: nat)
    requires a <= b
    ensures ReadSlice(f, 0, Min(size, a)) ==
      ReadSlice(f, 0, Min(size, b))[..Min(|ReadSlice(f, 0, Min(size, b))|, a)]
  {
  }

  /** `(size + block_size - 1) / block_size` in 32-bit arithmetic. */
  function BlocksNeeded(g: Geometry, size: nat): nat
    requires GeometryOk(g)
  {
    (size + g.blockSize - 1) % U32_SPAN / g.blockSize
  }

  /** `i_blocks_lo`: the needed blocks in sectors of 512 bytes. */
  function Sectors(g: Geometry, size: nat): (r: nat)
    requires GeometryOk(g)
    ensures r < U32_SPAN
  {
    BlocksNeeded(g, size) * (g.blockSize / 512)
  }

  /** The record of a new regular file: no extent header yet. */
  function NewInode(): (r: Inode)
  {
    PutU16(PutU16(PutU32(Zeros(INODE_BYTES), 32, EXTENTS_FL), 26, 1), 0, 0x81A4)
  }

  lemma NewInodeFacts()
    ensures !HasHeader(NewInode()) && UsesExtents(NewInode()) && !IsDir(NewInode())
    ensures ExtentsFit(NewInode()) && InodeBlocks(NewInode()) == []
  {
    assert forall i :: 40 <= i < 52 ==> NewInode()[i] == 0;
    var a := PutU32(Zeros(INODE_BYTES), 32, EXTENTS_FL);
    assert forall i :: 32 <= i < 36 ==> NewInode()[i] == a[i];
  }

  lemma NewInodeBytes()
    ensures var r := NewInode();
      && U16(r, 0) == 0x81A4 && U16(r, 26) == 1 && Flags(r) == 0x80000 && UsesExtents(r)
      && forall i :: 0 <= i < 128 && !(i < 2) && i != 26 && i != 27 && !(32 <= i < 36) ==> r[i] == 0
  {
    var a := PutU32(Zeros(INODE_BYTES), 32, EXTENTS_FL);
    var b := PutU16(a, 26, 1);
    assert forall i :: 32 <= i < 36 ==> NewInode()[i] == a[i];
    assert NewInode()[26] == b[26] && NewInode()[27] == b[27];
  }

  /** `i_flags |= EXT4_EXTENTS_FL`. */
  function OrExtentsFlag(flags: nat): (r: nat)
    requires flags < U32_SPAN
    ensures r < U32_SPAN && r / EXTENTS_FL % 2 == 1
  {
    assert (flags + EXTENTS_FL) / EXTENTS_FL == flags / EXTENTS_FL + 1;
    assert flags / EXTENTS_FL % 2 == 0 ==> flags / EXTENTS_FL <= U32_SPAN / EXTENTS_FL - 2;
    if flags / EXTENTS_FL % 2 == 1 then flags else flags + EXTENTS_FL
  }

  /** The header and the single extent of a freshly allocated run; `ee_len` keeps 16 bits. */
  function HeaderBytes(start: nat, needed: nat): (r: seq<byte>)
    requires start < U32_SPAN
    ensures |r| == 24
  {
    LE16(EXTENT_MAGIC) + LE16(1) + LE16(4) + LE16(0) + LE32(0)
    + LE32(0) + LE16(needed % 0x1_0000) + LE16(0) + LE32(start)
  }

  function FreshHeader(ino: Inode, start: nat, needed: nat): (r: Inode)
    requires start < U32_SPAN
  {
    PutU32(Splice(ino, 40, HeaderBytes(start, needed)), 32, OrExtentsFlag(Flags(ino)))
  }

  lemma HeaderFields(start: nat, needed: nat)
    requires start < U32_SPAN
    ensures var h := HeaderBytes(start, needed);
            && U16(h, 0) == EXTENT_MAGIC && U16(h, 2) == 1 && U16(h, 6) == 0
            && U32(h, 12) == 0 && U16(h, 16) == needed % 0x1_0000 && U16(h, 18) == 0 && U32(h, 20) == start
  {
    var h := HeaderBytes(start, needed);
    var len, at := LE16(needed % 0x1_0000), LE32(start);
    assert h[16] == len[0] && h[17] == len[1];
    assert h[20] == at[0] && h[21] == at[1] && h[22] == at[2] && h[23] == at[3];
  }

  lemma OneExtent(es: seq<Extent>, start: nat, len: nat)
    requires es == [Extent(0, len, start)]
    ensures BlockList(es) == Run(start, len) && HoleFree(es)
  {
    BlockListStep(es, 0);
    BlockListEmpty(es);
    BlockListFull(es);
  }

  lemma FreshHeaderFacts(ino: Inode, start: nat, needed: nat)
    requires start < U32_SPAN
    ensures var r := FreshHeader(ino, start, needed);
            && UsesExtents(r) && HasHeader(r) && ExtentsFit(r) && Mode(r) == Mode(ino)
            && InodeBlocks(r) == Run(start, needed % 0x1_0000 % 0x8000)
            && HoleFree(ExtentList(r))
  {
    var r := FreshHeader(ino, start, needed);
    var h := HeaderBytes(start, needed);
    HeaderFields(start, needed);
    assert forall i :: 0 <= i < 24 ==> r[40 + i] == h[i];
    assert HeaderMagic(r) == U16(h, 0) && HeaderEntries(r) == U16(h, 2) && HeaderDepth(r) == U16(h, 6);
    assert ExtentAt(r, 0) == Extent(U32(h, 12), U16(h, 16) % 0x8000, U16(h, 18) * U32_SPAN + U32(h, 20));
    OneExtent(ExtentList(r), start, needed % 0x1_0000 % 0x8000);
  }

  /** The size fields written last; the block count is in sectors. */
  function FinalInode(ino: Inode, size: nat, sectors: nat): (r: Inode)
    requires size < U32_SPAN && sectors < U32_SPAN
  {
    PutU32(PutU32(PutU32(ino, 4, size), 108, 0), 28, sectors)
  }

  lemma FinalInodeFacts(ino: Inode, size: nat, sectors: nat)
    requires size < U32_SPAN && sectors < U32_SPAN
    ensures var r := FinalInode(ino, size, sectors);
            && FileSize(r) == size && UsesExtents(r) == UsesExtents(ino) && HasHeader(r) == HasHeader(ino)
            && Mode(r) == Mode(ino) && ExtentsFit(r) == ExtentsFit(ino)
            && (ExtentsFit(ino) ==> InodeBlocks(r) == InodeBlocks(ino))
  {
    var r := FinalInode(ino, size, sectors);
    var a := PutU32(PutU32(ino, 4, size), 108, 0);
    assert forall i :: 0 <= i < 128 && !(28 <= i < 32) ==> r[i] == a[i];
    assert U32(r, 4) == U32(a, 4) && U32(r, 108) == U32(a, 108);
    SameExtents(ino, r);
  }

  /** Bytes of a record that storing content never touches, except for the flags and the extent area
      when the content moves to a new run. */
  predicate Untouched(i: nat, moved: bool) {
    !(4 <= i < 8) && !(28 <= i < 32) && !(108 <= i < 112) && (moved ==> !(32 <= i < 36) && !(40 <= i < 64))
  }

  /** An extent header with one entry, for the run of the needed length from file block 0 on. */
  predicate OneEntryHeader(ino: Inode, needed: nat) {
    && U16(ino, 40) == 0xF30A && U16(ino, 42) == 1 && U16(ino, 44) == 4 && U16(ino, 46) == 0 && U32(ino, 48) == 0
    && U32(ino, 52) == 0 && U16(ino, 56) == needed % 0x1_0000
  }

  /** The record after content of `size` bytes was stored: size and sectors are set, nothing else
      changes but, if the content moved to a new run, the extents flag and the header. */
  predicate RecordAfter(was: Inode, now: Inode, size: nat, needed: nat, blockSize: nat, moved: bool) {
    && U32(now, 4) == size && U32(now, 108) == 0 && U32(now, 28) * 512 == Pos(needed, blockSize)
    && (forall i :: 0 <= i < 128 && Untouched(i, moved) ==> now[i] == was[i])
    && (moved ==> Flags(now) == (if UsesExtents(was) then Flags(was) else Flags(was) + EXTENTS_FL))
    && (moved ==> OneEntryHeader(now, needed))
  }

  /** `now` is `was` with the header of a new run. */
  predicate HeaderSet(was: Inode, now: Inode, needed: nat) {
    && (forall i :: 0 <= i < 128 && !(32 <= i < 36) && !(40 <= i < 64) ==> now[i] == was[i])
    && Flags(now) == (if UsesExtents(was) then Flags(was) else Flags(was) + EXTENTS_FL)
    && OneEntryHeader(now, needed)
  }

  lemma FreshHeaderSets(ino: Inode, start: nat, needed: nat)
    requires start < U32_SPAN
    ensures HeaderSet(ino, FreshHeader(ino, start, needed), needed)
  {
    var r, h := FreshHeader(ino, start, needed), HeaderBytes(start, needed);
    HeaderFields(start, needed);
    assert forall i :: 0 <= i < 24 ==> r[40 + i] == h[i];
    var max, gen := LE16(4), LE32(0);
    assert h[4] == max[0] && h[5] == max[1];
    assert h[8] == gen[0] && h[9] == gen[1] && h[10] == gen[2] && h[11] == gen[3];
  }

  /** The sector count in bytes is what the needed blocks hold. */
  lemma SectorBytes(g: Geometry, size: nat)
    requires GeometryOk(g)
    ensures Sectors(g, size) * 512 == Pos(BlocksNeeded(g, size), g.blockSize)
  {
    hide BlocksNeeded;
    var needed := BlocksNeeded(g, size);
    assert Sectors(g, size) == needed * 2 || Sectors(g, size) == needed * 4 || Sectors(g, size) == needed * 8;
  }

  lemma FinalRecord(g: Geometry, was: Inode, file: Inode, size: nat, moved: bool)
    requires GeometryOk(g) && size < U32_SPAN
    requires if moved then HeaderSet(was, file, BlocksNeeded(g, size)) else file == was
    ensures RecordAfter(was, FinalInode(file, size, Sectors(g, size)), size, BlocksNeeded(g, size), g.blockSize, moved)
  {
    hide BlocksNeeded, Sectors;
    SectorBytes(g, size);
    var a := PutU32(PutU32(file, 4, size), 108, 0);
    var r := FinalInode(file, size, Sectors(g, size));
    assert forall i :: 0 <= i < 128 && !(28 <= i < 32) ==> r[i] == a[i];
    assert U32(r, 4) == U32(a, 4) && U32(r, 108) == U32(a, 108);
    if moved {
      hide FinalInode;
      SameHeader(file, r, BlocksNeeded(g, size));
    }
  }

  lemma SameHeader(a: Inode, b: Inode, needed: nat)
    requires forall i :: 32 <= i < 64 ==> b[i] == a[i]
    requires OneEntryHeader(a, needed)
    ensures OneEntryHeader(b, needed) && Flags(b) == Flags(a)
  {
  }

  /** Records that agree on the extent area have the same extents. */
  lemma SameExtents(a: Inode, b: Inode)
    requires forall i :: 40 <= i < 100 ==> a[i] == b[i]
    ensures HasHeader(a) == HasHeader(b) && ExtentsFit(a) == ExtentsFit(b)
    ensures ExtentsFit(a) ==> ExtentList(a) == ExtentList(b) && InodeBlocks(a) == InodeBlocks(b)
  {
    assert HeaderEntries(a) == HeaderEntries(b);
    forall i | 0 <= i < 4
      ensures ExtentAt(a, i) == ExtentAt(b, i)
    {
    }
  }

  /** The first extent alone is long enough, so the blocks are overwritten in place. */
  predicate Reusable(ino: Inode, needed: nat) {
    UsesExtents(ino) && HasHeader(ino) && 1 <= HeaderEntries(ino) && needed <= ExtentAt(ino, 0).len
  }

  lemma ReusableFits(ino: Inode, needed: nat)
    requires ExtentsFit(ino) && Reusable(ino, needed)
    ensures needed <= |InodeBlocks(ino)|
  {
    var es := ExtentList(ino);
    BlockListStep(es, 0);
    BlockListPrefix(es, 1);
  }

  /** The needed blocks hold the data, unless the sum wrapped around. */
  lemma NeededFits(g: Geometry, size: nat)
    requires GeometryOk(g) && size < U32_SPAN
    ensures size <= U32_SPAN - g.blockSize ==>
      size <= Pos(BlocksNeeded(g, size), g.blockSize) < size + g.blockSize
    ensures size > U32_SPAN - g.blockSize ==> BlocksNeeded(g, size) == 0
    ensures BlocksNeeded(g, size) == 0 <==> size == 0 || size > U32_SPAN - g.blockSize
  {
  }

  /** A live inode may come to own `blocks`: data blocks on disk, marked used, each named once,
      that no other live inode owns. */
  ghost predicate MayOwn(s: Image, n: nat, blocks: seq<nat>)
    requires s.Shaped()
  {
    && OnDisk(s.d, blocks) && Distinct(blocks)
    && (forall k :: 0 <= k < |blocks| ==> DataBlock(s.v, blocks[k]) && s.Marked(blocks[k]))
    && forall k, m :: 0 <= k < |blocks| && m in s.live && m != n ==> blocks[k] !in s.Blocks(m)
  }

  lemma OwnBlocks(s: Image, n: nat)
    requires s.Sound() && n in s.live
    ensures ExtentsFit(s.Ino(n)) && s.Blocks(n) == InodeBlocks(s.Ino(n))
    ensures MayOwn(s, n, s.Blocks(n))
  {
    hide Image.DescsOk, RegionsApart, RegionsOnDisk, Bit;
    assert s.InodeOk(n);
    LiveBlocksDistinct(s, n);
    forall k | 0 <= k < |s.Blocks(n)|
      ensures forall m :: m in s.live && m != n ==> s.Blocks(n)[k] !in s.Blocks(m)
    {
      OwnedOnce(s, n, k);
    }
  }

  /** The blocks of a run that was clear and is now marked are free to be owned. */
  lemma FreshBlocks(s: Image, t: Image, n: nat, start: nat, count: nat, len: nat)
    requires s.Sound() && Framed(s, t, 0) && t.Shaped()
    requires start + count <= s.v.g.blocksPerGroup && ClearRun(s.BlockBits(), start, count) && len <= count
    requires forall i :: start <= i < start + count ==> Bit(t.BlockBits(), i)
    ensures MayOwn(t, n, Run(s.v.g.firstDataBlock + start, len))
    ensures 0 < count ==> s.v.g.firstDataBlock + start < |s.d|
  {
    hide Image.DescsOk, Image.Disjoint, Image.BitsOk, RegionsApart, RegionsOnDisk, Bit, ClearRun, DataBlock,
      InodeBlocks, ExtentsFit;
    ClearRunIsFree(s, start, count);
    var first := s.v.g.firstDataBlock + start;
    var blocks := Run(first, len);
    forall k | 0 <= k < len
      ensures DataBlock(t.v, blocks[k]) && blocks[k] < |t.d| && t.Marked(blocks[k])
    {
      assert blocks[k] == first + k && Bit(t.BlockBits(), start + k);
    }
    forall k, m | 0 <= k < len && m in t.live && m != n
      ensures blocks[k] !in t.Blocks(m)
    {
      NoInodeZero(s);
      assert SameView(s, t, m);
      assert t.Blocks(m) == s.Blocks(m) && blocks[k] == first + k;
    }
    if 0 < count {
      assert DataBlock(s.v, first);
    }
  }

  /** Steps that change no record and no bitmap leave the right to own blocks. */
  lemma MayOwnStays(s: Image, t: Image, n: nat, blocks: seq<nat>)
    requires s.Shaped() && t.Shaped() && t.v == s.v && t.live == s.live && |t.d| == |s.d| && MayOwn(s, n, blocks)
    requires forall m :: InodeNum(s.v, m) ==> t.Ino(m) == s.Ino(m)
    requires t.BlockBits() == s.BlockBits()
    ensures MayOwn(t, n, blocks)
  {
    hide RegionsApart, RegionsOnDisk;
    forall k | 0 <= k < |blocks|
      ensures t.Marked(blocks[k])
    {
      MarkedSame(s, t, blocks[k]);
    }
    assert forall m :: InodeNum(s.v, m) ==> t.Blocks(m) == s.Blocks(m);
  }

  /** A fresh run holds the data exactly if its length fits the extent's 15 bits. */
  lemma FreshFits(g: Geometry, size: nat)
    requires GeometryOk(g) && size < U32_SPAN && 0 < BlocksNeeded(g, size)
    ensures size <= Pos(BlocksNeeded(g, size) % 0x1_0000 % 0x8000, g.blockSize) <==> BlocksNeeded(g, size) < 0x8000
  {
    var needed := BlocksNeeded(g, size);
    NeededFits(g, size);
    if 0x8000 <= needed {
      PosMonotone(needed % 0x1_0000 % 0x8000, needed - 1, g.blockSize);
      PosStep(needed - 1, g.blockSize);
    }
  }

  /** Inode `n` of `t` holds `data`; if no block was needed, only the size changed. */
  ghost predicate Holds(s: Image, t: Image, n: nat, data: seq<byte>) {
    && Readable(s) && Readable(t) && s.v == t.v && n in s.live && n in t.live
    && s.InodeOk(n) && t.InodeOk(n)
    && FileSize(t.Ino(n)) == |data|
    && IsDir(t.Ino(n)) == IsDir(s.Ino(n))
    && if BlocksNeeded(s.v.g, |data|) == 0
       then UsesExtents(t.Ino(n)) == UsesExtents(s.Ino(n)) && HasHeader(t.Ino(n)) == HasHeader(s.Ino(n))
            && t.Blocks(n) == s.Blocks(n)
            && (forall k :: 0 <= k < |s.Blocks(n)| ==> t.d[s.Blocks(n)[k]] == s.d[s.Blocks(n)[k]])
       else UsesExtents(t.Ino(n)) && HasHeader(t.Ino(n))
            && ReadSlice(Flat(t.d, t.Blocks(n)), 0, |data|) == data
  }

  /** Storing `size` bytes in inode `n` can succeed. */
  ghost predicate CanStore(s: Image, n: nat, size: nat)
    requires DiskOk(s.v, s.d) && InodeNum(s.v, n)
  {
    var needed := BlocksNeeded(s.v.g, size);
    || needed == 0
    || Reusable(s.Ino(n), needed)
    || (needed < 0x8000 && !NoRunBelow(s.BlockBits(), needed, s.v.g.blocksPerGroup))
  }
}
