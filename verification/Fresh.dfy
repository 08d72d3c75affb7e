/** A freshly formatted volume, as an example that satisfies the whole invariant: one group, eight
    blocks behind the boot block, eight inodes, and a root directory with its own entry. */
module Fresh {
  import opened Bytes
  import opened Bitmap
  import opened Storage
  import opened Volume
  import opened Extents
  import opened DirBlock
  import opened Image
  import opened Counts
  import opened Files
  import opened Names
  import opened Paths
  import opened Results
  import opened Runs
  import opened Directories

  const BLOCK := 1024

  function FreshVolume(): Volume {
    Volume(Geometry(BLOCK, 8, 128, 8, 1), [GroupLayout(3, 4, 5)])
  }

  function SuperBytes(): (b: seq<byte>)
    ensures |b| == BLOCK && U32(b, 12) == 2 && U32(b, 16) == 7
  {
    PutU32(PutU32(Zeros(BLOCK), 12, 2), 16, 7)
  }

  function DescBlockBytes(): (b: seq<byte>)
    ensures |b| == BLOCK && U32(b, 0) == 3 && U32(b, 4) == 4 && U32(b, 8) == 5 && U16(b, 12) == 2 && U16(b, 14) == 7
  {
    PutU16(PutU16(PutU32(PutU32(PutU32(Zeros(BLOCK), 0, 3), 4, 4), 8, 5), 12, 2), 14, 7)
  }

  function RootRecord(): (r: Inode) {
    FreshHeader(PutU16(Zeros(INODE_BYTES), 0, 0x41ED), 6, 1)
  }

  /** The record of the root directory, inode 2, in the second slot. */
  function TableBytes(): (b: seq<byte>)
    ensures |b| == BLOCK
  {
    Splice(Zeros(BLOCK), 128, RootRecord())
  }

  /** The entry of the root directory for itself, with a file type. */
  function SelfEntry(kind: byte): Entry {
    Entry(ROOT_INODE, kind, [0x2E])
  }

  /** A directory block that holds this entry only. */
  function SelfBlock(kind: byte): (b: seq<byte>)
    ensures |b| == BLOCK
  {
    Splice(Zeros(BLOCK), 0, NewRecord(ROOT_INODE, BLOCK, kind, [0x2E]))
  }

  function RootEntry(): Entry {
    SelfEntry(FT_DIR)
  }

  function RootDir(): (b: seq<byte>)
    ensures |b| == BLOCK
  {
    SelfBlock(FT_DIR)
  }

  function FreshDisk(): (d: Disk)
    ensures |d| == 9 && Sized(d, BLOCK)
  {
    [Zeros(BLOCK), SuperBytes(), DescBlockBytes(), Zeros(BLOCK)[0 := 0x3F], Zeros(BLOCK)[0 := 0x02], TableBytes(),
     RootDir(), Zeros(BLOCK), Zeros(BLOCK)]
  }

  function FreshImage(): Image {
    Image(FreshVolume(), FreshDisk(), {ROOT_INODE})
  }

  /** The block of each region. */
  lemma RegionAt(r: Region)
    requires Within(FreshVolume(), r)
    ensures At(FreshVolume(), r) ==
      match r
      case Super => 1
      case Desc(_) => 2
      case BlockBitmap(_) => 3
      case InodeBitmap(_) => 4
      case Table(_, _) => 5
    ensures (r.Desc? ==> r.i == 0) && (r.BlockBitmap? ==> r.k == 0) && (r.InodeBitmap? ==> r.k == 0)
    ensures r.Table? ==> r.k == 0 && r.i == 0
  {
  }

  lemma FreshShaped()
    ensures FreshImage().Shaped()
    ensures forall n :: n in FreshImage().live ==> n == ROOT_INODE
  {
    var v := FreshVolume();
    forall r, q | Within(v, r) && Within(v, q) && r != q
      ensures At(v, r) != At(v, q)
    {
      RegionAt(r);
      RegionAt(q);
    }
    forall r | Within(v, r)
      ensures At(v, r) < 9
    {
      RegionAt(r);
    }
  }

  lemma FreshDescs()
    requires FreshImage().Shaped()
    ensures FreshImage().DescsOk()
  {
    var s := FreshImage();
    var b := DescBlockBytes();
    assert DescBytes(s.v, s.d, 0) == b[..32];
    assert forall i :: 0 <= i < 32 ==> b[..32][i] == b[i];
  }

  lemma {:induction false} LowBits(v: nat, m: nat, i: nat)
    requires v == Exp2(m) - 1
    ensures BitOf(v, i) == (i < m)
  {
    assert m > 0 ==> v == 2 * Exp2(m - 1) - 1;
    if i > 0 {
      if m > 0 {
        assert v / 2 == Exp2(m - 1) - 1;
        LowBits(v / 2, m - 1, i - 1);
      } else {
        LowBits(0, 0, i - 1);
      }
    }
  }

  /** Blocks 1 to 6 and inode 2 are marked, nothing else is. */
  lemma FreshBits(i: nat)
    requires i < 8 && FreshImage().Shaped()
    ensures Bit(FreshImage().BlockBits(), i) == (i < 6)
    ensures Bit(FreshImage().InodeBits(), i) == (i == 1)
  {
    assert Exp2(6) == 64 by { assert Exp2(3) == 8; }
    LowBits(0x3F, 6, i);
    if i > 0 {
      assert Exp2(1) == 2;
      LowBits(1, 1, i - 1);
    }
    assert FreshImage().BlockBits()[0] == 0x3F && FreshImage().InodeBits()[0] == 0x02;
  }

  lemma RootRecordFacts()
    ensures IsDir(RootRecord()) && UsesExtents(RootRecord()) && HasHeader(RootRecord()) && ExtentsFit(RootRecord())
    ensures InodeBlocks(RootRecord()) == [6]
  {
    hide FreshHeader, HasHeader, UsesExtents, ExtentsFit, InodeBlocks;
    FreshHeaderFacts(PutU16(Zeros(INODE_BYTES), 0, 0x41ED), 6, 1);
    assert Run(6, 1) == [6];
  }

  lemma FreshRoot()
    requires FreshImage().Shaped()
    ensures FreshImage().Ino(ROOT_INODE) == RootRecord() && FreshImage().Blocks(ROOT_INODE) == [6]
  {
    hide RootRecord, InodeBlocks, ExtentsFit, Splice, RegionsApart, RegionsOnDisk;
    var s := FreshImage();
    RootRecordFacts();
    assert InodeOff(s.v, ROOT_INODE) == 128 && InodeBlock(s.v, ROOT_INODE) == 5;
    SpliceSlices(Zeros(BLOCK), 128, RootRecord(), 0, 0);
    assert s.d[5] == TableBytes();
  }

  lemma SelfEntries(kind: byte)
    ensures Tiled(SelfBlock(kind), 0) && Entries(SelfBlock(kind), 0) == [SelfEntry(kind)]
    ensures RecLen(SelfBlock(kind), 0) == BLOCK && NameLen(SelfBlock(kind), 0) == 1
  {
    var rec := NewRecord(ROOT_INODE, BLOCK, kind, [0x2E]);
    NewRecordFields(ROOT_INODE, BLOCK, kind, [0x2E]);
    SpliceSlices(Zeros(BLOCK), 0, rec, 0, 0);
    RecordAt(SelfBlock(kind), 0, rec);
    assert SelfBlock(kind)[8..9] == [0x2E];
    assert RecEntry(SelfBlock(kind), 0) == [SelfEntry(kind)];
    assert Entries(SelfBlock(kind), BLOCK) == [];
  }

  lemma FreshEntries()
    ensures Tiled(RootDir(), 0) && Entries(RootDir(), 0) == [RootEntry()]
    ensures RecLen(RootDir(), 0) == BLOCK && NameLen(RootDir(), 0) == 1
  {
    SelfEntries(FT_DIR);
  }

  lemma FreshSafe()
    requires FreshImage().Shaped()
    ensures FreshImage().InodesOk() && FreshImage().Disjoint()
  {
    hide FreshDisk, RootRecord, ExtentsFit, InodeBlocks, RegionsApart, RegionsOnDisk;
    var s := FreshImage();
    FreshRoot();
    RootRecordFacts();
    assert |s.d| == 9;
    forall r | Within(s.v, r)
      ensures At(s.v, r) != 6
    {
      RegionAt(r);
    }
    assert forall n :: n in s.live ==> n == ROOT_INODE;
    assert s.InodeOk(ROOT_INODE);
  }

  lemma FreshMarks()
    requires FreshImage().Shaped()
    ensures FreshImage().BitsOk()
  {
    hide Bit, FreshDisk, RootRecord, ExtentsFit, InodeBlocks, RegionsApart, RegionsOnDisk;
    var s := FreshImage();
    FreshRoot();
    assert |s.d| == 9;
    forall r | Within(s.v, r)
      ensures s.Marked(At(s.v, r))
    {
      RegionAt(r);
      FreshBits(At(s.v, r) - 1);
    }
    FreshBits(5);
    FreshBits(1);
    forall i | 0 <= i < 8 && !Bit(s.BlockBits(), i)
      ensures 1 + i < |s.d|
    {
      FreshBits(i);
    }
  }

  lemma FreshDirs()
    requires FreshImage().Shaped() && FreshImage().InodesOk()
    ensures FreshImage().DirsOk() && FreshImage().NamesUnique()
  {
    hide RootRecord, RootDir, ExtentsFit, InodeBlocks, RegionsApart, RegionsOnDisk, UsesExtents, HasHeader, IsDir,
      Entries, Tiled;
    var s := FreshImage();
    FreshRoot();
    RootRecordFacts();
    FreshEntries();
    assert s.InodeOk(ROOT_INODE) && s.d[6] == RootDir();
    RootEntries(s.d);
    assert s.EntryOk(RootEntry());
    assert s.DirOk(ROOT_INODE);
  }

  lemma RootEntries(d: Disk)
    requires 6 < |d| && Entries(d[6], 0) == [RootEntry()]
    ensures OnDisk(d, [6]) && DirEntries(d, [6]) == [RootEntry()]
  {
    assert [6][..0] == [];
    assert DirEntries(d, []) == [];
  }

  lemma FreshCounts()
    requires FreshImage().Shaped()
    ensures CountsOk(FreshImage())
  {
    var s := FreshImage();
    var b, c := s.BlockBits(), s.InodeBits();
    hide Bit;
    forall i | 0 <= i < 8
      ensures Bit(b, i) == (i < 6) && Bit(c, i) == (i == 1)
    {
      FreshBits(i);
    }
    assert FreeCount(b, 1) == 0 && FreeCount(c, 1) == 1;
    assert FreeCount(b, 2) == 0 && FreeCount(c, 2) == 1;
    assert FreeCount(b, 3) == 0 && FreeCount(c, 3) == 2;
    assert FreeCount(b, 4) == 0 && FreeCount(c, 4) == 3;
    assert FreeCount(b, 5) == 0 && FreeCount(c, 5) == 4;
    assert FreeCount(b, 6) == 0 && FreeCount(c, 6) == 5;
    assert FreeCount(b, 7) == 1 && FreeCount(c, 7) == 6;
    assert FreeCount(b, 8) == 2 && FreeCount(c, 8) == 7;
    var d, p := DescBlockBytes(), SuperBytes();
    assert DescBytes(s.v, s.d, 0) == d[..32] && SuperRaw(s.v, s.d) == p[..104];
    assert forall i :: 0 <= i < 32 ==> d[..32][i] == d[i];
    assert forall i :: 0 <= i < 104 ==> p[..104][i] == p[i];
  }

  /** The invariant can be met: the example is valid, its counts are exact, its names unique. */
  lemma FreshIsValid()
    ensures FreshImage().Valid() && CountsOk(FreshImage()) && FreshImage().NamesUnique()
  {
    hide FreshImage, Image.Disjoint, Image.BitsOk, Image.DirsOk, Image.DescsOk, CountsOk, Image.NamesUnique;
    FreshShaped();
    FreshDescs();
    FreshSafe();
    FreshMarks();
    FreshDirs();
    FreshCounts();
  }

  lemma RootPath(name: seq<byte>)
    requires NoSlash(name) && name != []
    ensures var p := [SLASH] + name; Addressable(p) && HeadOf(p) == [SLASH] && NameOf(p) == name
    ensures Components(ParentString([SLASH])) == []
  {
    var p := [SLASH] + name;
    assert p[1..] == name;
    NameStartUnique(p, 1);
    assert [SLASH][1..] == [];
  }

  lemma FreshRoom(len: nat)
    requires FreshImage().Shaped()
    ensures HasRoom(FreshImage(), ROOT_INODE, len) <==> len <= 1004
  {
    hide RootRecord, RootDir, InodeBlocks, RegionsApart, RegionsOnDisk;
    var s := FreshImage();
    FreshRoot();
    FreshEntries();
    assert s.d[6] == RootDir();
    RootRoom(len);
    if len <= 1004 {
      assert RoomIn(s, s.Blocks(ROOT_INODE)[0], len);
    }
  }

  lemma RootRoom(len: nat)
    ensures RoomAt(RootDir(), 0, Align4(8 + len)).Some? <==> len <= 1004
  {
    hide RootDir;
    FreshEntries();
    assert RoomAt(RootDir(), BLOCK, Align4(8 + len)).None?;
  }

  lemma FreshLookup(name: seq<byte>)
    requires FreshImage().Shaped() && FreshImage().InodesOk() && name != [0x2E]
    ensures FreshImage().Lookup(ROOT_INODE, name).None?
  {
    hide RootRecord, RootDir, InodeBlocks, RegionsApart, RegionsOnDisk, Entries;
    var s := FreshImage();
    FreshRoot();
    RootRecordFacts();
    FreshEntries();
    assert s.d[6] == RootDir();
    RootEntries(s.d);
  }

  lemma FreshRuns(needed: nat)
    requires FreshImage().Shaped()
    ensures HasRun(FreshImage(), needed) <==> needed <= 2
  {
    hide Bit, FreshDisk, RegionsApart, RegionsOnDisk;
    var s := FreshImage();
    var b := s.BlockBits();
    FreshBits(6);
    FreshBits(7);
    if needed <= 2 {
      assert ClearRun(b, 6, needed);
    } else {
      forall i | 0 <= i && i + needed <= 8
        ensures !ClearRun(b, i, needed)
      {
        FreshBits(i);
      }
    }
  }

  /** What can be written under the root of the fresh volume: any name but the one it has and up to
      what its directory block has room for, and data up to the two blocks that are free. All of it
      can be read back but the empty file and the files whose names are longer than 255 bytes. */
  lemma FreshWrites(name: seq<byte>, size: nat)
    requires NoSlash(name) && 1 <= |name| && name != [0x2E] && size <= U32_SPAN - BLOCK
    ensures FreshImage().Valid() && ParentWalks(FreshImage(), [SLASH] + name)
    ensures CanWrite(FreshImage(), [SLASH] + name, size) <==> size <= 2 * BLOCK && |name| <= 1004
    ensures RoundTrips(FreshImage(), [SLASH] + name, size) <==> 0 < size && |name| <= 255
  {
    hide FreshDisk, Image.Disjoint, Image.BitsOk, Image.DirsOk, Image.DescsOk, Components, HeadOf, NameOf, LookupIn,
      HasRoom, HasRun, Addressable, ParentString;
    var s := FreshImage();
    FreshIsValid();
    RootPath(name);
    FreshLookup(name);
    FreshRoom(|name|);
    FreshBits(0);
    assert HasInode(s);
    FreshRuns(BlocksNeeded(s.v.g, size));
    assert Parent(s, [SLASH] + name) == Some(ROOT);
  }

  /** A name of 256 bytes more than another is entered as that other name. */
  lemma LongNameClashes(name: seq<byte>, more: seq<byte>)
    requires NoSlash(name + more) && 1 <= |name| <= 255 && |more| == 256
    ensures NewName([SLASH] + (name + more)) == name == NewName([SLASH] + name)
    ensures Enterable([SLASH] + (name + more)) && Enterable([SLASH] + name)
  {
    hide NameOf;
    assert forall i :: 0 <= i < |name| ==> name[i] == (name + more)[i];
    RootPath(name + more);
    RootPath(name);
    assert (name + more)[..|name|] == name;
    assert |name + more| % 256 == |name|;
  }

  lemma RootParent(s: Image, name: seq<byte>)
    requires s.Valid() && NoSlash(name) && name != []
    ensures Parent(s, [SLASH] + name) == Some(ROOT) && ParentWalks(s, [SLASH] + name)
    ensures Existing(s, [SLASH] + name) == s.Lookup(ROOT_INODE, name)
  {
    hide Image.Disjoint, Image.BitsOk, Image.DirsOk, Image.DescsOk, LookupIn, HeadOf, NameOf, ParentString, Components,
      Addressable;
    RootPath(name);
  }

  /** Two writes under the root, both successful without any device fault: the second name is 256
      bytes longer than the first and entered as the first, so names are not unique any more. */
  lemma LongNameTwice(s: Image, t: Image, u: Image, a: Write, b: Write, name: seq<byte>, more: seq<byte>)
    requires NoSlash(name + more) && 1 <= |name| <= 255 && |more| == 256
    requires a.path == [SLASH] + name && b.path == [SLASH] + (name + more)
    requires Step(s, t, a) && a.clean && a.ok && !AimsAtDirectory(s, a.path) && s.NamesUnique()
    requires Step(t, u, b) && b.clean && b.ok
    ensures t.Valid() && t.NamesUnique() && u.Valid() && !u.NamesUnique()
  {
    hide Image.Disjoint, Image.BitsOk, Image.DirsOk, Image.DescsOk, LookupIn, NameOf, Wrote, AimsAtDirectory, Enterable,
      Image.NamesUnique, ParentLives, Clash, NewName;
    ShortEntered(s, t, a, name, more);
    LongEntered(t, u, b, name, more);
  }

  lemma ShortEntered(s: Image, t: Image, a: Write, name: seq<byte>, more: seq<byte>)
    requires NoSlash(name + more) && 1 <= |name| <= 255 && |more| == 256 && a.path == [SLASH] + name
    requires Step(s, t, a) && a.clean && a.ok && !AimsAtDirectory(s, a.path) && s.NamesUnique()
    ensures t.Valid() && t.NamesUnique() && t.Lookup(ROOT_INODE, name).Some?
  {
    hide Image.Disjoint, Image.BitsOk, Image.DirsOk, Image.DescsOk, LookupIn, NameOf, Enterable, Image.NamesUnique,
      ParentLives, Clash, NewName, OthersKept, Written, StoredIn, BlockBitsClaimed, Counted, CanWrite, Parent, Existing;
    assert NoSlash(name) by {
      assert forall i :: 0 <= i < |name| ==> name[i] == (name + more)[i];
    }
    LongNameClashes(name, more);
    RootPath(name);
    RootParent(s, name);
    ShortName(s, a.path);
    assert Harmless(s, t, a);
    HarmlessStep(s, t, a);
    CleanNamesUnique(s, t, a);
    RootOk(s);
  }

  lemma LongEntered(t: Image, u: Image, b: Write, name: seq<byte>, more: seq<byte>)
    requires NoSlash(name + more) && 1 <= |name| <= 255 && |more| == 256 && b.path == [SLASH] + (name + more)
    requires Step(t, u, b) && b.clean && b.ok && t.NamesUnique() && t.Lookup(ROOT_INODE, name).Some?
    ensures u.Valid() && !u.NamesUnique()
  {
    hide Image.Disjoint, Image.BitsOk, Image.DirsOk, Image.DescsOk, LookupIn, NameOf, Wrote, Enterable,
      Image.NamesUnique, ParentLives, NewName, Parent;
    LongNameClashes(name, more);
    RootPath(name + more);
    RootParent(t, name + more);
    LongNameNotFound(t, ROOT_INODE, name + more);
    assert Harmless(t, u, b);
    CleanNamesUnique(t, u, b);
  }

  /** The path "/." names the root directory, and a block of data can be written to it. */
  lemma FreshDirectoryTarget()
    ensures FreshImage().Valid() && ParentWalks(FreshImage(), [SLASH, 0x2E]) && Enterable([SLASH, 0x2E])
    ensures AimsAtDirectory(FreshImage(), [SLASH, 0x2E]) && CanWrite(FreshImage(), [SLASH, 0x2E], BLOCK)
  {
    hide FreshDisk, Image.Disjoint, Image.BitsOk, Image.DirsOk, Image.DescsOk, Components, HeadOf, NameOf, LookupIn,
      Addressable, ParentString, RootRecord, HasHeader, UsesExtents, BlocksNeeded;
    var s := FreshImage();
    FreshIsValid();
    assert [SLASH] + [0x2E] == [SLASH, 0x2E];
    RootPath([0x2E]);
    FreshOwnName();
    OneBlock(s.v.g);
    FreshReusable();
    assert Parent(s, [SLASH, 0x2E]) == Some(ROOT);
  }

  lemma FreshOwnName()
    requires FreshImage().Shaped() && FreshImage().InodesOk()
    ensures FreshImage().Lookup(ROOT_INODE, [0x2E]) == Some(RootEntry())
  {
    hide RootRecord, RootDir, InodeBlocks, RegionsApart, RegionsOnDisk, Entries;
    var s := FreshImage();
    FreshRoot();
    RootRecordFacts();
    FreshEntries();
    assert s.d[6] == RootDir();
    RootEntries(s.d);
  }

  /** A block that names the root directory as a regular file, written to "/.": the path is looked up
      in the very directory the write replaced, and reading it gives the block back, although the
      target was a directory. */
  lemma FreshReadsDirectory(t: Image, n: nat, max: nat, booked: bool)
    requires Wrote(FreshImage(), t, [SLASH, 0x2E], n, SelfBlock(FT_REG_FILE), true, true, booked) && BLOCK <= max
    ensures FreshImage().Valid() && n == ROOT_INODE && n in PathLooks(FreshImage(), [SLASH, 0x2E])
    ensures ReadBack(t, [SLASH, 0x2E], max) == Some(SelfBlock(FT_REG_FILE))
    ensures !RoundTrips(FreshImage(), [SLASH, 0x2E], BLOCK)
  {
    hide FreshDisk, Wrote, Components, ParentString, LookupIn, Image.Disjoint, Image.BitsOk, Image.DirsOk,
      Image.DescsOk, SelfBlock, DataEntries, HeadOf, NameOf, Content;
    var s, path := FreshImage(), [SLASH, 0x2E];
    FreshDirectoryTarget();
    FreshSelf();
    FreshShaped();
    WrongKind(s, path);
    WalksAreLive(s, path);
    CleanHits(s, t, path, n, SelfBlock(FT_REG_FILE), booked);
    SelfData();
    FreshPath(DataEntries(SelfBlock(FT_REG_FILE), BLOCK));
    assert s.v.g.blockSize == BLOCK && n == ROOT_INODE;
    DataLeads(s, t, path, n, SelfBlock(FT_REG_FILE), path, max, true, booked);
  }

  lemma WrongKind(s: Image, path: seq<byte>)
    requires Readable(s) && AimsAtDirectory(s, path)
    ensures !RoundTrips(s, path, BLOCK)
  {
    hide Existing, Readable;
  }

  lemma FreshSelf()
    ensures Readable(FreshImage()) && Existing(FreshImage(), [SLASH, 0x2E]) == Some(RootEntry())
  {
    hide FreshDisk, Image.Disjoint, Image.BitsOk, Image.DirsOk, Image.DescsOk, Components, HeadOf, NameOf, LookupIn,
      Addressable, ParentString;
    FreshIsValid();
    assert [SLASH] + [0x2E] == [SLASH, 0x2E];
    RootPath([0x2E]);
    FreshOwnName();
    assert Parent(FreshImage(), [SLASH, 0x2E]) == Some(ROOT);
  }

  lemma SelfData()
    ensures DataEntries(SelfBlock(FT_REG_FILE), BLOCK) == [SelfEntry(FT_REG_FILE)]
  {
    hide Entries;
    var b := SelfBlock(FT_REG_FILE);
    SelfEntries(FT_REG_FILE);
    hide SelfBlock;
    assert b[..BLOCK] == b && b[BLOCK..] == [];
    assert DataEntries([], BLOCK) == [];
  }

  lemma FreshPath(es: seq<Entry>)
    requires Readable(FreshImage()) && es == [SelfEntry(FT_REG_FILE)]
    ensures Rerouted(FreshImage(), ROOT_INODE, es, ROOT, Components([SLASH, 0x2E]))
         == Some(Target(ROOT_INODE, FT_REG_FILE))
    ensures ROOT_INODE in PathLooks(FreshImage(), [SLASH, 0x2E])
  {
    hide FreshDisk, Components, HeadOf, NameOf, LookupIn, ParentString, FreshVolume, Image.InodesOk;
    assert [SLASH] + [0x2E] == [SLASH, 0x2E];
    RootPath([0x2E]);
    AddressAgrees([SLASH, 0x2E]);
    assert Components([SLASH, 0x2E]) == [[0x2E]];
    assert Components([SLASH, 0x2E])[1..] == [];
  }

  lemma FreshReusable()
    requires FreshImage().Shaped()
    ensures Reusable(FreshImage().Ino(ROOT_INODE), 1)
  {
    hide RootRecord, FreshDisk;
    FreshRoot();
    RootReusable();
  }

  lemma RootReusable()
    ensures Reusable(RootRecord(), 1)
  {
    hide FreshHeader;
    RootRecordFacts();
    FirstExtent(RootRecord());
  }

  lemma FirstExtent(r: Inode)
    requires r == RootRecord()
    ensures HeaderEntries(r) == 1 && ExtentAt(r, 0).len == 1
  {
    var h := HeaderBytes(6, 1);
    HeaderFields(6, 1);
    assert forall i :: 0 <= i < 24 ==> r[40 + i] == h[i];
  }
}
