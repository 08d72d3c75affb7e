/** The whole file system as a value: a volume, its disk and the set of live inodes, with the
    invariant every write keeps and the abstract view (names and contents) it has. */
module Image {
  import opened Bytes
  import opened Bitmap
  import opened Storage
  import opened Volume
  import opened Extents
  import opened DirBlock

  const ROOT_INODE := 2

  /** Where a path leads: an inode number and the file type its directory entry records. */
  datatype Target = Target(inode: nat, kind: byte)

  /** Entries of all blocks of a directory, in lookup order. */
  function DirEntries(d: Disk, blocks: seq<nat>): seq<Entry>
    requires OnDisk(d, blocks)
  {
    if blocks == [] then [] else
      DirEntries(d, blocks[..|blocks| - 1]) + Entries(d[blocks[|blocks| - 1]], 0)
  }

  /** What looking `name` up in the directory with the given inode record gives. */
  function LookupIn(d: Disk, ino: Inode, name: seq<byte>): Option<Entry>
    requires ExtentsFit(ino) && OnDisk(d, InodeBlocks(ino))
  {
    if UsesExtents(ino) && HasHeader(ino) then FindEntry(DirEntries(d, InodeBlocks(ino)), name) else None
  }

  /** `live` holds the inodes a directory entry may refer to; an inode that a failed create
      left allocated but unreferenced is not in it. */
  datatype Image = Image(v: Volume, d: Disk, live: set<nat>) {

    /** Sizes and numbers are in range, so that records and bitmaps can be decoded. */
    ghost predicate Shaped() {
      && DiskOk(v, d)
      && ROOT_INODE in live
      && forall n :: n in live ==> InodeNum(v, n)
    }

    function Ino(n: nat): Inode
      requires DiskOk(v, d) && InodeNum(v, n)
    {
      InodeBytes(v, d, n)
    }

    function Blocks(n: nat): seq<nat>
      requires DiskOk(v, d) && InodeNum(v, n)
    {
      if ExtentsFit(Ino(n)) then InodeBlocks(Ino(n)) else []
    }

    function BlockBits(): (r: seq<byte>)
      requires DiskOk(v, d)
      ensures v.g.blocksPerGroup <= 8 * |r|
    {
      assert Within(v, BlockBitmap(0)) && At(v, BlockBitmap(0)) == v.groups[0].blockBitmap;
      d[v.groups[0].blockBitmap]
    }

    function InodeBits(): (r: seq<byte>)
      requires DiskOk(v, d)
      ensures v.g.inodesPerGroup <= 8 * |r|
    {
      assert Within(v, InodeBitmap(0)) && At(v, InodeBitmap(0)) == v.groups[0].inodeBitmap;
      d[v.groups[0].inodeBitmap]
    }

    /** Block `b` lies outside group 0, or its bitmap bit is set. */
    predicate Marked(b: nat)
      requires DiskOk(v, d)
    {
      v.g.firstDataBlock <= b < v.g.firstDataBlock + v.g.blocksPerGroup ==> Bit(BlockBits(), b - v.g.firstDataBlock)
    }

    /** The group descriptors on disk record the layout. */
    ghost predicate DescsOk()
      requires DiskOk(v, d)
    {
      forall k :: 0 <= k < |v.groups| ==> DescRecords(v, d, k)
    }

    /** The extents of inode `n` fit its record and name data blocks of the disk. */
    ghost predicate InodeOk(n: nat)
      requires DiskOk(v, d) && InodeNum(v, n)
    {
      && ExtentsFit(Ino(n))
      && forall k :: 0 <= k < |Blocks(n)| ==> Blocks(n)[k] < |d| && DataBlock(v, Blocks(n)[k])
    }

    ghost predicate InodesOk()
      requires Shaped()
    {
      forall n :: n in live ==> InodeOk(n)
    }

    /** No two live inodes share a block, and none uses a block twice. */
    ghost predicate Disjoint()
      requires Shaped()
    {
      forall n, m, i, j ::
        (n in live && m in live && 0 <= i < |Blocks(n)| && 0 <= j < |Blocks(m)| && Blocks(n)[i] == Blocks(m)[j]) ==>
        n == m && i == j
    }

    /** Every metadata block, every block of a live inode and every live inode is marked used,
        and a clear bit stands for a block the disk has. */
    ghost predicate BitsOk()
      requires Shaped()
    {
      && (forall r :: Within(v, r) ==> Marked(At(v, r)))
      && (forall n, k :: n in live && 0 <= k < |Blocks(n)| ==> Marked(Blocks(n)[k]))
      && (forall n :: n in live && n <= v.g.inodesPerGroup ==> Bit(InodeBits(), n - 1))
      && (forall i :: 0 <= i < v.g.blocksPerGroup && !Bit(BlockBits(), i) ==> v.g.firstDataBlock + i < |d|)
    }

    /** An entry refers to a live inode, and its type says whether that is a directory. */
    predicate EntryOk(e: Entry)
      requires DiskOk(v, d)
    {
      && e.inode in live
      && InodeNum(v, e.inode)
      && (e.kind == FT_DIR <==> IsDir(Ino(e.inode)))
    }

    ghost predicate DirOk(n: nat)
      requires DiskOk(v, d) && InodeNum(v, n) && InodeOk(n)
    {
      && UsesExtents(Ino(n)) && HasHeader(Ino(n))
      && (forall k :: 0 <= k < |Blocks(n)| ==> Tiled(d[Blocks(n)[k]], 0))
      && forall e :: e in DirEntries(d, Blocks(n)) ==> EntryOk(e)
    }

    ghost predicate DirsOk()
      requires Shaped() && InodesOk()
    {
      && IsDir(Ino(ROOT_INODE))
      && forall n :: n in live && IsDir(Ino(n)) ==> DirOk(n)
    }

    /** Allocation safety: what every write keeps, whatever it is aimed at. */
    ghost predicate Sound() {
      Shaped() && DescsOk() && InodesOk() && Disjoint() && BitsOk()
    }

    /** The invariant of a well-formed image. */
    ghost predicate Valid() {
      Sound() && DirsOk()
    }

    /** What looking `name` up in inode `n` gives. */
    function Lookup(n: nat, name: seq<byte>): Option<Entry>
      requires Shaped() && InodesOk() && n in live
    {
      assert InodeOk(n);
      assert OnDisk(d, Blocks(n));
      LookupIn(d, Ino(n), name)
    }

    /** Path resolution from `at`; it stops where the invariant knows no inode. */
    function Resolve(at: Target, comps: seq<seq<byte>>): Option<Target>
      requires Shaped() && InodesOk()
      decreases |comps|
    {
      if comps == [] then Some(at)
      else if at.inode !in live then None
      else match Lookup(at.inode, comps[0])
        case None => None
        case Some(e) => Resolve(Target(e.inode, e.kind), comps[1..])
    }

    /** Every component that is looked up is looked up in a directory. */
    predicate WalksDirs(at: Target, comps: seq<seq<byte>>)
      requires Shaped() && InodesOk()
      decreases |comps|
    {
      comps == [] ||
      (at.kind == FT_DIR && at.inode in live &&
       match Lookup(at.inode, comps[0])
       case None => true
       case Some(e) => WalksDirs(Target(e.inode, e.kind), comps[1..]))
    }

    /** Every inode the walk looks into, and the one it ends at, is live; the inodes need not be
        directories, and their blocks are read as if they were. */
    predicate WalksLive(at: Target, comps: seq<seq<byte>>)
      requires Shaped() && InodesOk()
      decreases |comps|
    {
      at.inode in live &&
      (comps == [] ||
       match Lookup(at.inode, comps[0])
       case None => true
       case Some(e) => WalksLive(Target(e.inode, e.kind), comps[1..]))
    }

    /** No directory names anything twice. */
    ghost predicate NamesUnique()
      requires Shaped() && InodesOk()
    {
      forall n :: n in live && IsDir(Ino(n)) ==> UniqueNames(DirEntries(d, Blocks(n)))
    }
  }

  const ROOT := Target(ROOT_INODE, FT_DIR)

  ghost predicate DescRecords(v: Volume, d: Disk, k: nat)
    requires DiskOk(v, d) && k < |v.groups|
  {
    && U32(DescBytes(v, d, k), 0) == v.groups[k].blockBitmap
    && U32(DescBytes(v, d, k), 4) == v.groups[k].inodeBitmap
    && U32(DescBytes(v, d, k), 8) == v.groups[k].inodeTable
  }

  /** Inode `n` has the same record and the same bytes in all its blocks on both images. */
  ghost predicate SameView(s: Image, t: Image, n: nat)
    requires s.v == t.v && DiskOk(s.v, s.d) && DiskOk(t.v, t.d) && InodeNum(s.v, n)
  {
    && t.Ino(n) == s.Ino(n)
    && forall k :: 0 <= k < |s.Blocks(n)| && s.Blocks(n)[k] < |s.d| ==>
         s.Blocks(n)[k] < |t.d| && t.d[s.Blocks(n)[k]] == s.d[s.Blocks(n)[k]]
  }

  lemma {:induction false} DirEntriesFrame(d: Disk, e: Disk, blocks: seq<nat>)
    requires OnDisk(d, blocks) && OnDisk(e, blocks)
    requires forall k :: 0 <= k < |blocks| ==> d[blocks[k]] == e[blocks[k]]
    ensures DirEntries(d, blocks) == DirEntries(e, blocks)
  {
    if blocks != [] {
      DirEntriesFrame(d, e, blocks[..|blocks| - 1]);
    }
  }

  lemma DirEntriesStep(d: Disk, blocks: seq<nat>, k: nat)
    requires OnDisk(d, blocks) && k < |blocks|
    ensures OnDisk(d, blocks[..k]) && OnDisk(d, blocks[..k + 1])
    ensures DirEntries(d, blocks[..k + 1]) == DirEntries(d, blocks[..k]) + Entries(d[blocks[k]], 0)
  {
    assert blocks[..k + 1][..k] == blocks[..k];
  }

  /** What is found in the first blocks is what a lookup in all of them finds. */
  lemma {:induction false} FoundEarly(d: Disk, blocks: seq<nat>, k: nat, name: seq<byte>)
    requires OnDisk(d, blocks) && k <= |blocks| && OnDisk(d, blocks[..k])
    requires FindEntry(DirEntries(d, blocks[..k]), name).Some?
    ensures FindEntry(DirEntries(d, blocks), name) == FindEntry(DirEntries(d, blocks[..k]), name)
    decreases |blocks| - k
  {
    if k == |blocks| {
      assert blocks[..k] == blocks;
    } else {
      DirEntriesStep(d, blocks, k);
      FindConcat(DirEntries(d, blocks[..k]), Entries(d[blocks[k]], 0), name);
      FoundEarly(d, blocks, k + 1, name);
    }
  }

  /** One more block of the lookup loop. */
  lemma FindStep(d: Disk, blocks: seq<nat>, k: nat, name: seq<byte>)
    requires OnDisk(d, blocks) && k < |blocks| && OnDisk(d, blocks[..k])
    requires FindEntry(DirEntries(d, blocks[..k]), name).None?
    ensures OnDisk(d, blocks[..k + 1])
    ensures FindEntry(DirEntries(d, blocks[..k + 1]), name) == FindEntry(Entries(d[blocks[k]], 0), name)
    ensures FindEntry(Entries(d[blocks[k]], 0), name).Some? ==>
      FindEntry(DirEntries(d, blocks), name) == FindEntry(Entries(d[blocks[k]], 0), name)
  {
    DirEntriesStep(d, blocks, k);
    FindConcat(DirEntries(d, blocks[..k]), Entries(d[blocks[k]], 0), name);
    if FindEntry(Entries(d[blocks[k]], 0), name).Some? {
      FoundEarly(d, blocks, k + 1, name);
    }
  }

  /** Bits are only ever set. */
  ghost predicate BitsGrow(s: Image, t: Image)
    requires s.v == t.v && DiskOk(s.v, s.d) && DiskOk(t.v, t.d)
  {
    && (forall i :: 0 <= i < s.v.g.blocksPerGroup && Bit(s.BlockBits(), i) ==> Bit(t.BlockBits(), i))
    && (forall i :: 0 <= i < s.v.g.inodesPerGroup && Bit(s.InodeBits(), i) ==> Bit(t.InodeBits(), i))
  }

  /** The frame shared by all steps: same volume, same live inodes, layout and bits kept, and
      nothing but inode `target` may look different. */
  ghost predicate Framed(s: Image, t: Image, target: nat) {
    && s.Shaped() && t.v == s.v && t.live == s.live && |t.d| == |s.d| && DiskOk(t.v, t.d)
    && t.DescsOk() && BitsGrow(s, t)
    && forall n :: n in s.live && n != target ==> SameView(s, t, n)
  }

  /** The target owns data blocks that are marked and belong to no other live inode. */
  ghost predicate OwnsApart(t: Image, target: nat)
    requires t.Shaped() && target in t.live
  {
    && t.InodeOk(target) && Distinct(t.Blocks(target))
    && (forall k :: 0 <= k < |t.Blocks(target)| ==> t.Marked(t.Blocks(target)[k]))
    && forall m, i, k :: m in t.live && m != target && 0 <= i < |t.Blocks(m)| && 0 <= k < |t.Blocks(target)| ==>
         t.Blocks(m)[i] != t.Blocks(target)[k]
  }

  /** Steps that change at most one inode and its blocks keep allocation safety. */
  lemma FramedKeepsSound(s: Image, t: Image, target: nat)
    requires s.Sound() && Framed(s, t, target)
    requires target in s.live ==> OwnsApart(t, target)
    ensures t.Sound()
  {
    FramedInodes(s, t, target);
    FramedDisjoint(s, t, target);
    FramedBits(s, t, target);
  }

  /** If that inode is a regular file, they keep the whole image valid. */
  lemma FramedKeepsValid(s: Image, t: Image, target: nat)
    requires s.Valid() && Framed(s, t, target)
    requires target in s.live ==> !IsDir(s.Ino(target)) && !IsDir(t.Ino(target)) && OwnsApart(t, target)
    ensures t.Valid()
  {
    FramedKeepsSound(s, t, target);
    FramedDirs(s, t, target);
  }

  lemma FramedInodes(s: Image, t: Image, target: nat)
    requires s.Sound() && Framed(s, t, target)
    requires target in s.live ==> OwnsApart(t, target)
    ensures t.Shaped() && t.InodesOk()
  {
    forall n | n in t.live
      ensures t.InodeOk(n)
    {
      if n != target {
        assert SameView(s, t, n) && s.InodeOk(n);
        assert t.Blocks(n) == s.Blocks(n);
      }
    }
  }

  lemma FramedDisjoint(s: Image, t: Image, target: nat)
    requires s.Sound() && Framed(s, t, target) && t.Shaped()
    requires target in s.live ==> OwnsApart(t, target)
    ensures t.Disjoint()
  {
    forall n, m, i, j | n in t.live && m in t.live && 0 <= i < |t.Blocks(n)| && 0 <= j < |t.Blocks(m)|
      && t.Blocks(n)[i] == t.Blocks(m)[j]
      ensures n == m && i == j
    {
      if n != target && m != target {
        assert SameView(s, t, n) && SameView(s, t, m);
        assert t.Blocks(n) == s.Blocks(n) && t.Blocks(m) == s.Blocks(m);
      }
    }
  }

  lemma MarkedGrows(s: Image, t: Image, b: nat)
    requires s.v == t.v && DiskOk(s.v, s.d) && DiskOk(t.v, t.d) && BitsGrow(s, t) && s.Marked(b)
    ensures t.Marked(b)
  {
  }

  lemma FramedBits(s: Image, t: Image, target: nat)
    requires s.Sound() && Framed(s, t, target) && t.Shaped()
    requires target in s.live ==> OwnsApart(t, target)
    ensures t.BitsOk()
  {
    forall r | Within(t.v, r)
      ensures t.Marked(At(t.v, r))
    {
      MarkedGrows(s, t, At(t.v, r));
    }
    forall n, k | n in t.live && 0 <= k < |t.Blocks(n)|
      ensures t.Marked(t.Blocks(n)[k])
    {
      if n != target {
        assert SameView(s, t, n);
        assert t.Blocks(n) == s.Blocks(n);
        MarkedGrows(s, t, t.Blocks(n)[k]);
      }
    }
  }

  lemma SameViewDir(s: Image, t: Image, n: nat)
    requires s.v == t.v && s.Shaped() && DiskOk(t.v, t.d) && n in s.live
    requires SameView(s, t, n) && s.InodeOk(n) && t.InodeOk(n)
    ensures t.Blocks(n) == s.Blocks(n)
    ensures DirEntries(t.d, t.Blocks(n)) == DirEntries(s.d, s.Blocks(n))
    ensures Flat(t.d, t.Blocks(n)) == Flat(s.d, s.Blocks(n))
  {
    DirEntriesFrame(s.d, t.d, s.Blocks(n));
    FlatFrame(s.d, t.d, s.Blocks(n));
  }

  lemma FramedDirs(s: Image, t: Image, target: nat)
    requires s.Valid() && Framed(s, t, target) && t.Shaped() && t.InodesOk()
    requires target in s.live ==> !IsDir(s.Ino(target)) && !IsDir(t.Ino(target))
    ensures t.DirsOk()
  {
    forall n | n in t.live
      ensures IsDir(t.Ino(n)) == IsDir(s.Ino(n))
    {
      if n != target {
        assert SameView(s, t, n);
      }
    }
    forall n | n in t.live && IsDir(t.Ino(n))
      ensures t.DirOk(n)
    {
      assert n != target && s.DirOk(n) && SameView(s, t, n) && t.InodeOk(n);
      SameViewDir(s, t, n);
      forall e | e in DirEntries(t.d, t.Blocks(n))
        ensures t.EntryOk(e)
      {
        assert s.EntryOk(e);
      }
    }
  }

  lemma FramedSelf(s: Image)
    requires s.Shaped() && s.DescsOk()
    ensures Framed(s, s, 0)
  {
  }

  lemma FramedTrans(s: Image, t: Image, u: Image, target: nat)
    requires s.Sound() && Framed(s, t, target) && t.Shaped() && Framed(t, u, target)
    ensures Framed(s, u, target)
  {
    forall n | n in s.live && n != target
      ensures SameView(s, u, n)
    {
      assert SameView(s, t, n) && SameView(t, u, n);
      assert t.Blocks(n) == s.Blocks(n);
    }
  }

  /** A frame that leaves everything alone also leaves everything but `target` alone. */
  lemma FramedWiden(s: Image, t: Image, target: nat)
    requires Framed(s, t, 0) && 0 !in s.live
    ensures Framed(s, t, target)
  {
  }

  lemma NoInodeZero(s: Image)
    requires s.Shaped()
    ensures 0 !in s.live
  {
  }

  lemma PutBlockShaped(s: Image, b: nat, c: seq<byte>)
    requires s.Shaped() && b < |s.d| && |c| == s.v.g.blockSize
    ensures s.(d := s.d[b := c]).Shaped()
  {
  }

  /** The descriptors survive a write to any block that holds none of them. */
  lemma DescsKept(s: Image, b: nat, c: seq<byte>)
    requires s.Shaped() && s.DescsOk() && b < |s.d| && |c| == s.v.g.blockSize
    requires forall i :: Within(s.v, Desc(i)) ==> At(s.v, Desc(i)) != b
    ensures s.(d := s.d[b := c]).Shaped() && s.(d := s.d[b := c]).DescsOk()
  {
    PutBlockShaped(s, b, c);
    var t := s.(d := s.d[b := c]);
    forall k | 0 <= k < |s.v.groups|
      ensures DescRecords(t.v, t.d, k)
    {
      assert DescRecords(s.v, s.d, k);
      DescRegion(s.v, k);
    }
  }

  /** Writing a bitmap, a descriptor block or the superblock leaves every live inode as it was. */
  lemma MetaWrite(s: Image, t: Image, r: Region, c: seq<byte>)
    requires s.Sound() && Within(s.v, r) && !r.Table? && |c| == s.v.g.blockSize
    requires t == s.(d := s.d[At(s.v, r) := c])
    requires t.Shaped() && t.DescsOk() && BitsGrow(s, t)
    ensures Framed(s, t, 0)
  {
    forall n | n in s.live
      ensures SameView(s, t, n)
    {
      assert InodeRegion(s.v, n) != r;
      assert s.InodeOk(n);
    }
  }

  lemma BitsKept(s: Image, t: Image, r: Region, c: seq<byte>)
    requires s.Shaped() && Within(s.v, r) && r != BlockBitmap(0) && r != InodeBitmap(0) && |c| == s.v.g.blockSize
    requires t == s.(d := s.d[At(s.v, r) := c])
    ensures t.Shaped() && t.BlockBits() == s.BlockBits() && t.InodeBits() == s.InodeBits() && BitsGrow(s, t)
  {
    PutBlockShaped(s, At(s.v, r), c);
    assert Within(s.v, BlockBitmap(0)) && Within(s.v, InodeBitmap(0));
  }

  /** The superblock rewrite. */
  lemma SuperWrite(s: Image, t: Image, c: seq<byte>)
    requires s.Sound() && |c| == s.v.g.blockSize && SuperBlock(s.v.g) < |s.d|
    requires t == s.(d := s.d[SuperBlock(s.v.g) := c])
    ensures Framed(s, t, 0) && t.Sound()
    ensures t.BlockBits() == s.BlockBits() && t.InodeBits() == s.InodeBits()
  {
    BitsKept(s, t, Super, c);
    DescsKept(s, At(s.v, Super), c);
    MetaWrite(s, t, Super, c);
    NoInodeZero(s);
    FramedKeepsSound(s, t, 0);
  }

  /** The rewrite of group 0's descriptor with the layout fields kept. */
  lemma DescWrite(s: Image, t: Image, desc: seq<byte>)
    requires s.Sound() && |desc| == DESC_SIZE && DescBlock(s.v.g, 0) < |s.d|
    requires desc[..12] == DescBytes(s.v, s.d, 0)[..12]
    requires t == s.(d := s.d[DescBlock(s.v.g, 0) := Splice(s.d[DescBlock(s.v.g, 0)], DescOff(s.v.g, 0), desc)])
    ensures Framed(s, t, 0) && t.Sound() && DescBytes(t.v, t.d, 0) == desc
    ensures t.BlockBits() == s.BlockBits() && t.InodeBits() == s.InodeBits()
  {
    var c := Splice(s.d[DescBlock(s.v.g, 0)], DescOff(s.v.g, 0), desc);
    DescRegion(s.v, 0);
    BitsKept(s, t, Desc(0), c);
    forall k | 0 <= k < |s.v.groups|
      ensures DescRecords(t.v, t.d, k)
      ensures k == 0 ==> DescBytes(t.v, t.d, 0) == desc
    {
      assert DescRecords(s.v, s.d, k);
      DescSpliced(s, t, desc, k);
    }
    MetaWrite(s, t, Desc(0), c);
    NoInodeZero(s);
    FramedKeepsSound(s, t, 0);
  }

  lemma DescSpliced(s: Image, t: Image, desc: seq<byte>, k: nat)
    requires s.Shaped() && t.Shaped() && |desc| == DESC_SIZE && DescBlock(s.v.g, 0) < |s.d| && k < |s.v.groups|
    requires desc[..12] == DescBytes(s.v, s.d, 0)[..12]
    requires t == s.(d := s.d[DescBlock(s.v.g, 0) := Splice(s.d[DescBlock(s.v.g, 0)], DescOff(s.v.g, 0), desc)])
    requires DescRecords(s.v, s.d, k)
    ensures DescRecords(t.v, t.d, k)
    ensures k == 0 ==> DescBytes(t.v, t.d, 0) == desc
  {
    hide Splice;
    DescRegion(s.v, k);
    DescRegion(s.v, 0);
    SpliceSlices(s.d[DescBlock(s.v.g, 0)], DescOff(s.v.g, 0), desc, DescOff(s.v.g, k), DESC_SIZE);
    var was, now := DescBytes(s.v, s.d, k), DescBytes(t.v, t.d, k);
    if k == 0 {
      assert now == desc;
      SamePrefix(desc, was, 12);
    } else {
      DescsApart(s.v.g, k);
      assert now == was;
    }
  }

  lemma SamePrefix(a: seq<byte>, b: seq<byte>, n: nat)
    requires n <= |a| && n <= |b| && a[..n] == b[..n]
    ensures forall i :: 0 <= i < n ==> a[i] == b[i]
  {
    assert forall i :: 0 <= i < n ==> a[i] == a[..n][i] == b[..n][i] == b[i];
  }

  lemma DescsApart(g: Geometry, k: nat)
    requires GeometryOk(g) && 0 < k
    ensures DescOff(g, 0) == 0
    ensures DescBlock(g, k) == DescBlock(g, 0) ==> DESC_SIZE <= DescOff(g, k)
  {
  }

  /** A bitmap rewrite that only sets bits. */
  lemma BitmapWrite(s: Image, t: Image, r: Region, c: seq<byte>)
    requires s.Sound() && |c| == s.v.g.blockSize
    requires r == BlockBitmap(0) || r == InodeBitmap(0)
    requires t == s.(d := s.d[At(s.v, r) := c])
    requires r == BlockBitmap(0) ==> forall i :: 0 <= i < s.v.g.blocksPerGroup && Bit(s.BlockBits(), i) ==> Bit(c, i)
    requires r == InodeBitmap(0) ==> forall i :: 0 <= i < s.v.g.inodesPerGroup && Bit(s.InodeBits(), i) ==> Bit(c, i)
    ensures Framed(s, t, 0) && t.Sound()
    ensures t.BlockBits() == if r == BlockBitmap(0) then c else s.BlockBits()
    ensures t.InodeBits() == if r == InodeBitmap(0) then c else s.InodeBits()
  {
    assert Within(s.v, BlockBitmap(0)) && Within(s.v, InodeBitmap(0));
    PutBlockShaped(s, At(s.v, r), c);
    DescsKept(s, At(s.v, r), c);
    MetaWrite(s, t, r, c);
    NoInodeZero(s);
    FramedKeepsSound(s, t, 0);
  }

  /** Writing the slot of inode `n` changes the view of `n` only. */
  lemma SlotWrite(s: Image, t: Image, n: nat, ino: Inode)
    requires s.Sound() && InodeNum(s.v, n)
    requires t == s.(d := SetInode(s.v, s.d, n, ino))
    ensures Framed(s, t, n) && t.Ino(n) == ino
    ensures t.BlockBits() == s.BlockBits() && t.InodeBits() == s.InodeBits()
    ensures forall b :: 0 <= b < |s.d| && DataBlock(s.v, b) ==> t.d[b] == s.d[b]
  {
    var r := InodeRegion(s.v, n);
    var c := t.d[At(s.v, r)];
    BitsKept(s, t, r, c);
    DescsKept(s, At(s.v, r), c);
    SetInodeReads(s.v, s.d, n, ino, n);
    forall m | m in s.live && m != n
      ensures SameView(s, t, m)
    {
      SetInodeReads(s.v, s.d, n, ino, m);
      assert s.InodeOk(m);
    }
  }

  /** Writes to data blocks that no live inode but `target` owns change the view of `target` only. */
  lemma DataWrites(s: Image, t: Image, target: nat)
    requires s.Sound() && t.v == s.v && t.live == s.live && |t.d| == |s.d| && Sized(t.d, s.v.g.blockSize)
    requires forall b :: 0 <= b < |s.d| && t.d[b] != s.d[b] ==> DataBlock(s.v, b)
    requires forall b, n :: 0 <= b < |s.d| && t.d[b] != s.d[b] && n in s.live && n != target ==> b !in s.Blocks(n)
    ensures Framed(s, t, target)
    ensures forall n :: InodeNum(s.v, n) ==> t.Ino(n) == s.Ino(n)
    ensures t.BlockBits() == s.BlockBits() && t.InodeBits() == s.InodeBits()
  {
    assert forall r :: Within(s.v, r) ==> t.d[At(s.v, r)] == s.d[At(s.v, r)];
    DescsSame(s, t);
    assert Within(s.v, BlockBitmap(0)) && Within(s.v, InodeBitmap(0));
    forall n | InodeNum(s.v, n)
      ensures t.Ino(n) == s.Ino(n)
    {
      assert Within(s.v, InodeRegion(s.v, n));
    }
    forall n | n in s.live && n != target
      ensures SameView(s, t, n)
    {
      assert forall k :: 0 <= k < |s.Blocks(n)| ==> s.Blocks(n)[k] in s.Blocks(n);
    }
  }

  lemma DescsSame(s: Image, t: Image)
    requires s.Shaped() && t.Shaped() && t.v == s.v && s.DescsOk()
    requires forall r :: Within(s.v, r) ==> t.d[At(s.v, r)] == s.d[At(s.v, r)]
    ensures t.DescsOk()
  {
    forall k | 0 <= k < |s.v.groups|
      ensures DescRecords(t.v, t.d, k)
    {
      assert DescRecords(s.v, s.d, k);
      DescRegion(s.v, k);
    }
  }

  /** The blocks behind a run of clear bits are on disk, hold no metadata and have no owner. */
  lemma ClearRunIsFree(s: Image, start: nat, count: nat)
    requires s.Sound() && start + count <= s.v.g.blocksPerGroup && ClearRun(s.BlockBits(), start, count)
    ensures forall b :: 0 <= b - s.v.g.firstDataBlock - start < count ==> DataBlock(s.v, b) && b < |s.d|
    ensures forall b, n :: 0 <= b - s.v.g.firstDataBlock - start < count && n in s.live ==> b !in s.Blocks(n)
  {
    forall b | 0 <= b - s.v.g.firstDataBlock - start < count
      ensures DataBlock(s.v, b) && b < |s.d| && forall n :: n in s.live ==> b !in s.Blocks(n)
    {
      assert !Bit(s.BlockBits(), b - s.v.g.firstDataBlock);
      assert !s.Marked(b);
    }
  }
}
