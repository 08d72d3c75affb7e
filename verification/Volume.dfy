/** The static layout of a mounted volume: where the superblock, the group descriptors, the
    bitmaps and the inode tables live, and the map from inode numbers to table slots
    (fs/ext4/ext4.c, ext4_read_group_desc, ext4_read_inode and ext4_write_inode). */
module Volume {
  import opened Arith
  import opened Bytes
  import opened Storage

  /** The mounted superblock fields the code uses. */
  datatype Geometry = Geometry(
    blockSize: nat, inodesPerGroup: nat, inodeSize: nat, blocksPerGroup: nat, firstDataBlock: nat)

  /** The block numbers a group descriptor records. */
  datatype GroupLayout = GroupLayout(blockBitmap: nat, inodeBitmap: nat, inodeTable: nat)

  datatype Volume = Volume(g: Geometry, groups: seq<GroupLayout>)

  const DESC_SIZE := 32
  const INODE_BYTES := 128

  predicate GeometryOk(g: Geometry) {
    && (g.blockSize == 1024 || g.blockSize == 2048 || g.blockSize == 4096)
    && (g.inodeSize == 128 || g.inodeSize == 256 || g.inodeSize == 512
        || g.inodeSize == 1024 || g.inodeSize == 2048 || g.inodeSize == 4096)
    && g.inodeSize <= g.blockSize
    && 0 < g.inodesPerGroup <= 8 * g.blockSize
    && 0 < g.blocksPerGroup <= 8 * g.blockSize
  }

  function SuperBlock(g: Geometry): nat {
    if g.blockSize == 1024 then 1 else 0
  }

  function SuperOff(g: Geometry): nat {
    if g.blockSize == 1024 then 0 else 1024
  }

  function DescBlock(g: Geometry, group: nat): nat
    requires GeometryOk(g)
  {
    (if g.blockSize == 1024 then 2 else 1) + group * DESC_SIZE / g.blockSize
  }

  function DescOff(g: Geometry, group: nat): (off: nat)
    requires GeometryOk(g)
    ensures off + DESC_SIZE <= g.blockSize
  {
    assert DESC_SIZE * (g.blockSize / DESC_SIZE) == g.blockSize;
    group * DESC_SIZE % g.blockSize
  }

  /** The table block, counted from the start of the inode table, and the byte offset in it
      of the slot of the inode with the given index in its group. */
  function SlotBlock(g: Geometry, index: nat): nat
    requires GeometryOk(g)
  {
    index * g.inodeSize / g.blockSize
  }

  function SlotOff(g: Geometry, index: nat): nat
    requires GeometryOk(g)
  {
    index * g.inodeSize % g.blockSize
  }

  function SlotsPerBlock(g: Geometry): (k: nat)
    requires GeometryOk(g)
    ensures 0 < k && k * g.inodeSize == g.blockSize
  {
    g.blockSize / g.inodeSize
  }

  lemma SlotForm(g: Geometry, i: nat)
    requires GeometryOk(g)
    ensures SlotBlock(g, i) == i / SlotsPerBlock(g)
    ensures SlotOff(g, i) == i % SlotsPerBlock(g) * g.inodeSize
    ensures SlotOff(g, i) + g.inodeSize <= g.blockSize
  {
    hide GeometryOk, SlotsPerBlock;
    SizesPositive(g);
    ScaledDivMod(i, SlotsPerBlock(g), g.inodeSize, g.blockSize);
  }

  lemma SizesPositive(g: Geometry)
    requires GeometryOk(g)
    ensures 128 <= g.inodeSize <= g.blockSize <= 4096 && 1024 <= g.blockSize
  {
  }

  /** Slots lie inside one block and do not overlap. */
  lemma SlotsDisjoint(g: Geometry, i: nat, j: nat)
    requires GeometryOk(g)
    ensures SlotOff(g, i) + INODE_BYTES <= g.blockSize
    ensures i != j && SlotBlock(g, i) == SlotBlock(g, j) ==>
      SlotOff(g, i) + INODE_BYTES <= SlotOff(g, j) || SlotOff(g, j) + INODE_BYTES <= SlotOff(g, i)
    ensures i <= j ==> SlotBlock(g, i) <= SlotBlock(g, j)
  {
    hide GeometryOk, SlotsPerBlock, SlotBlock, SlotOff;
    SizesPositive(g);
    SlotForm(g, i);
    SlotForm(g, j);
    var k := SlotsPerBlock(g);
    if j / k < i / k {
      QuotientLess(j, i, k);
    }
    if i != j && i / k == j / k {
      if i < j {
        SameQuotient(i, j, k);
        ScaledApart(i % k, j % k, g.inodeSize);
      } else {
        SameQuotient(j, i, k);
        ScaledApart(j % k, i % k, g.inodeSize);
      }
    }
  }

  /** One label for every metadata block of the volume. */
  datatype Region =
    | Super
    | Desc(i: nat)
    | BlockBitmap(k: nat)
    | InodeBitmap(k: nat)
    | Table(k: nat, i: nat)

  predicate Within(v: Volume, r: Region)
    requires GeometryOk(v.g) && 0 < |v.groups|
  {
    match r
    case Super => true
    case Desc(i) => i <= (|v.groups| - 1) * DESC_SIZE / v.g.blockSize
    case BlockBitmap(k) => k < |v.groups|
    case InodeBitmap(k) => k < |v.groups|
    case Table(k, i) => k < |v.groups| && i <= SlotBlock(v.g, v.g.inodesPerGroup - 1)
  }

  /** The block a region label stands for. */
  function At(v: Volume, r: Region): nat
    requires GeometryOk(v.g) && 0 < |v.groups| && Within(v, r)
  {
    match r
    case Super => SuperBlock(v.g)
    case Desc(i) => DescBlock(v.g, 0) + i
    case BlockBitmap(k) => v.groups[k].blockBitmap
    case InodeBitmap(k) => v.groups[k].inodeBitmap
    case Table(k, i) => v.groups[k].inodeTable + i
  }

  /** The metadata regions are pairwise disjoint. */
  ghost predicate RegionsApart(v: Volume)
    requires GeometryOk(v.g) && 0 < |v.groups|
  {
    forall r, q :: Within(v, r) && Within(v, q) && r != q ==> At(v, r) != At(v, q)
  }

  /** Block `b` holds no metadata. */
  ghost predicate DataBlock(v: Volume, b: nat)
    requires GeometryOk(v.g) && 0 < |v.groups|
  {
    forall r :: Within(v, r) ==> At(v, r) != b
  }

  ghost predicate VolumeOk(v: Volume) {
    GeometryOk(v.g) && 0 < |v.groups| < 0x800_0000 && RegionsApart(v)
  }

  ghost predicate RegionsOnDisk(v: Volume, d: Disk)
    requires GeometryOk(v.g) && 0 < |v.groups|
  {
    forall r :: Within(v, r) ==> At(v, r) < |d|
  }

  ghost predicate DiskOk(v: Volume, d: Disk) {
    && VolumeOk(v)
    && |d| <= 0x1_0000_0000
    && Sized(d, v.g.blockSize)
    && RegionsOnDisk(v, d)
  }

  /** The inode numbers that have a slot. */
  predicate InodeNum(v: Volume, n: nat)
    requires GeometryOk(v.g)
  {
    1 <= n && (n - 1) / v.g.inodesPerGroup < |v.groups|
  }

  function InodeGroup(g: Geometry, n: nat): nat
    requires GeometryOk(g) && 1 <= n
  {
    (n - 1) / g.inodesPerGroup
  }

  function InodeIndex(g: Geometry, n: nat): (i: nat)
    requires GeometryOk(g) && 1 <= n
    ensures i < g.inodesPerGroup
  {
    (n - 1) % g.inodesPerGroup
  }

  lemma GroupIndexInjective(g: Geometry, n: nat, m: nat)
    requires GeometryOk(g) && 1 <= n && 1 <= m
    requires InodeGroup(g, n) == InodeGroup(g, m) && InodeIndex(g, n) == InodeIndex(g, m)
    ensures n == m
  {
    assert n - 1 == InodeGroup(g, n) * g.inodesPerGroup + InodeIndex(g, n);
  }

  function InodeRegion(v: Volume, n: nat): (r: Region)
    requires GeometryOk(v.g) && 0 < |v.groups| && InodeNum(v, n)
    ensures Within(v, r)
  {
    SlotsDisjoint(v.g, InodeIndex(v.g, n), v.g.inodesPerGroup - 1);
    Table(InodeGroup(v.g, n), SlotBlock(v.g, InodeIndex(v.g, n)))
  }

  function InodeBlock(v: Volume, n: nat): nat
    requires GeometryOk(v.g) && 0 < |v.groups| && InodeNum(v, n)
  {
    At(v, InodeRegion(v, n))
  }

  function InodeOff(v: Volume, n: nat): (off: nat)
    requires GeometryOk(v.g) && 0 < |v.groups| && InodeNum(v, n)
    ensures off + INODE_BYTES <= v.g.blockSize
  {
    SlotsDisjoint(v.g, InodeIndex(v.g, n), 0);
    SlotOff(v.g, InodeIndex(v.g, n))
  }

  /** The map from inode numbers to slots is injective, and different inodes never overlap. */
  lemma InodeSlotsDisjoint(v: Volume, n: nat, m: nat)
    requires VolumeOk(v) && InodeNum(v, n) && InodeNum(v, m) && n != m
    ensures InodeBlock(v, n) == InodeBlock(v, m) ==>
      InodeOff(v, n) + INODE_BYTES <= InodeOff(v, m) || InodeOff(v, m) + INODE_BYTES <= InodeOff(v, n)
  {
    if InodeBlock(v, n) == InodeBlock(v, m) {
      assert InodeRegion(v, n) == InodeRegion(v, m);
      if InodeIndex(v.g, n) == InodeIndex(v.g, m) {
        GroupIndexInjective(v.g, n, m);
      } else {
        SlotsDisjoint(v.g, InodeIndex(v.g, n), InodeIndex(v.g, m));
      }
    }
  }

  /** The 128-byte record of inode `n`. */
  function InodeBytes(v: Volume, d: Disk, n: nat): (r: seq<byte>)
    requires DiskOk(v, d) && InodeNum(v, n)
    ensures |r| == INODE_BYTES
  {
    d[InodeBlock(v, n)][InodeOff(v, n)..InodeOff(v, n) + INODE_BYTES]
  }

  /** The disk after the slot of inode `n` was overwritten. */
  function SetInode(v: Volume, d: Disk, n: nat, ino: seq<byte>): (r: Disk)
    requires DiskOk(v, d) && InodeNum(v, n) && |ino| == INODE_BYTES
    ensures |r| == |d|
  {
    d[InodeBlock(v, n) := Splice(d[InodeBlock(v, n)], InodeOff(v, n), ino)]
  }

  /** Writing an inode and reading it back is the identity; every other inode reads as before. */
  lemma SetInodeReads(v: Volume, d: Disk, n: nat, ino: seq<byte>, m: nat)
    requires DiskOk(v, d) && InodeNum(v, n) && |ino| == INODE_BYTES && InodeNum(v, m)
    ensures DiskOk(v, SetInode(v, d, n, ino))
    ensures InodeBytes(v, SetInode(v, d, n, ino), m) == if m == n then ino else InodeBytes(v, d, m)
  {
    var e := SetInode(v, d, n, ino);
    assert DiskOk(v, e);
    if m != n {
      InodeSlotsDisjoint(v, n, m);
    }
    assert InodeBytes(v, e, m) == if m == n then ino else InodeBytes(v, d, m);
  }

  /** Block and offset together are the byte address of the record on disk: the slots of a group follow
      each other from the start of its table. */
  lemma InodeAddress(v: Volume, n: nat)
    requires GeometryOk(v.g) && 0 < |v.groups| && InodeNum(v, n)
    ensures Pos(InodeBlock(v, n), v.g.blockSize) + InodeOff(v, n) ==
      Pos(v.groups[(n - 1) / v.g.inodesPerGroup].inodeTable, v.g.blockSize)
      + Pos((n - 1) % v.g.inodesPerGroup, v.g.inodeSize)
  {
    SplitAddress(Pos((n - 1) % v.g.inodesPerGroup, v.g.inodeSize), v.g.blockSize,
                 v.groups[(n - 1) / v.g.inodesPerGroup].inodeTable);
  }

  /** The descriptors follow each other in the block behind the one of the superblock, which is at byte
      1024 whatever the block size. */
  lemma DescAddress(g: Geometry, group: nat)
    requires GeometryOk(g)
    ensures Pos(SuperBlock(g), g.blockSize) + SuperOff(g) == 1024
    ensures Pos(DescBlock(g, group), g.blockSize) + DescOff(g, group) ==
      (if g.blockSize == 1024 then 2048 else g.blockSize) + 32 * group
  {
    SplitAddress(group * DESC_SIZE, g.blockSize, if g.blockSize == 1024 then 2 else 1);
  }

  lemma SplitAddress(x: nat, size: nat, first: nat)
    requires 0 < size
    ensures Pos(first + x / size, size) + x % size == Pos(first, size) + x
  {
    assert x == x / size * size + x % size;
    assert (first + x / size) * size == first * size + x / size * size;
  }

  /** The bytes of the descriptor of a group. */
  function DescBytes(v: Volume, d: Disk, group: nat): (r: seq<byte>)
    requires DiskOk(v, d) && group < |v.groups|
    ensures |r| == DESC_SIZE
  {
    DescRegion(v, group);
    d[DescBlock(v.g, group)][DescOff(v.g, group)..DescOff(v.g, group) + DESC_SIZE]
  }

  lemma DescRegion(v: Volume, group: nat)
    requires GeometryOk(v.g) && group < |v.groups|
    ensures Within(v, Desc(group * DESC_SIZE / v.g.blockSize))
    ensures DescBlock(v.g, group) == At(v, Desc(group * DESC_SIZE / v.g.blockSize))
  {
  }
}
