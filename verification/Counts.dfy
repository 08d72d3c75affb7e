/** The free counts kept in group 0's descriptor and in the superblock
    (fs/ext4/ext4.c, the bookkeeping of ext4_alloc_block_run and ext4_alloc_inode). */
module Counts {
  import opened Bytes
  import opened Bitmap
  import opened Storage
  import opened Volume
  import opened Image

  const SUPER_RAW := 104
  const SUPER_BYTES := 1024

  datatype Counters = Counters(groupBlocks: nat, groupInodes: nat, superBlocks: nat, superInodes: nat)

  /** The superblock fields the code keeps. */
  function SuperRaw(v: Volume, d: Disk): (r: seq<byte>)
    requires DiskOk(v, d)
    ensures |r| == SUPER_RAW
  {
    assert At(v, Super) == SuperBlock(v.g);
    d[SuperBlock(v.g)][SuperOff(v.g)..SuperOff(v.g) + SUPER_RAW]
  }

  /** The bytes a superblock write stores: the known fields, then zeros. */
  function SuperImage(raw: seq<byte>): (r: seq<byte>)
    requires |raw| == SUPER_RAW
    ensures |r| == SUPER_BYTES
  {
    Splice(Zeros(SUPER_BYTES), 0, raw)
  }

  lemma SuperStored(v: Volume, d: Disk, e: Disk, raw: seq<byte>)
    requires DiskOk(v, d) && DiskOk(v, e) && |raw| == SUPER_RAW && SuperBlock(v.g) < |d|
    requires e == d[SuperBlock(v.g) := Splice(d[SuperBlock(v.g)], SuperOff(v.g), SuperImage(raw))]
    ensures SuperRaw(v, e) == raw && DescBytes(v, e, 0) == DescBytes(v, d, 0)
  {
    DescRegion(v, 0);
    assert SuperBlock(v.g) != DescBlock(v.g, 0);
    var b := Splice(d[SuperBlock(v.g)], SuperOff(v.g), SuperImage(raw));
    forall i | 0 <= i < SUPER_RAW
      ensures b[SuperOff(v.g) + i] == raw[i]
    {
      assert b[SuperOff(v.g) + i] == SuperImage(raw)[i];
    }
  }

  function CountersOf(s: Image): Counters
    requires DiskOk(s.v, s.d)
  {
    var desc, super := DescBytes(s.v, s.d, 0), SuperRaw(s.v, s.d);
    Counters(U16(desc, 12), U16(desc, 14), U32(super, 12), U32(super, 16))
  }

  /** The group counts are the clear bits of the bitmaps, and the superblock totals cover them. */
  predicate CountsOk(s: Image)
    requires DiskOk(s.v, s.d)
  {
    var c := CountersOf(s);
    && c.groupBlocks == FreeCount(s.BlockBits(), s.v.g.blocksPerGroup)
    && c.groupInodes == FreeCount(s.InodeBits(), s.v.g.inodesPerGroup)
    && c.groupBlocks <= c.superBlocks && c.groupInodes <= c.superInodes
  }

  /** Writes outside the superblock and group 0's descriptor block leave the counters alone. */
  lemma CountersKept(s: Image, t: Image, r: Region)
    requires DiskOk(s.v, s.d) && DiskOk(t.v, t.d) && t.v == s.v && |t.d| == |s.d|
    requires Within(s.v, r) && r != Super && r != Desc(0)
    requires forall b :: 0 <= b < |s.d| && b != At(s.v, r) ==> t.d[b] == s.d[b]
    ensures CountersOf(t) == CountersOf(s)
  {
    DescRegion(s.v, 0);
    assert Within(s.v, Super) && At(s.v, Super) == SuperBlock(s.v.g);
    assert At(s.v, Desc(0)) == DescBlock(s.v.g, 0);
    assert t.d[SuperBlock(s.v.g)] == s.d[SuperBlock(s.v.g)];
    assert t.d[DescBlock(s.v.g, 0)] == s.d[DescBlock(s.v.g, 0)];
  }

  lemma CountersKeptByData(s: Image, t: Image)
    requires DiskOk(s.v, s.d) && DiskOk(t.v, t.d) && t.v == s.v && |t.d| == |s.d|
    requires forall b :: 0 <= b < |s.d| && t.d[b] != s.d[b] ==> DataBlock(s.v, b)
    ensures CountersOf(t) == CountersOf(s)
  {
    DescRegion(s.v, 0);
    assert Within(s.v, Super) && At(s.v, Super) == SuperBlock(s.v.g);
    assert At(s.v, Desc(0)) == DescBlock(s.v.g, 0);
    assert t.d[SuperBlock(s.v.g)] == s.d[SuperBlock(s.v.g)];
    assert t.d[DescBlock(s.v.g, 0)] == s.d[DescBlock(s.v.g, 0)];
  }

  function Less(have: nat, n: nat): nat {
    if have >= n then have - n else have
  }

  /** The counters after `n` blocks were taken, with the source's guards against underflow. */
  function TakeBlocks(c: Counters, n: nat): Counters {
    c.(groupBlocks := Less(c.groupBlocks, n), superBlocks := Less(c.superBlocks, n))
  }

  function TakeInode(c: Counters): Counters {
    c.(groupInodes := Less(c.groupInodes, 1), superInodes := Less(c.superInodes, 1))
  }

  /** The counters after a claim of `n` blocks of which the descriptor write succeeded exactly if
      `booked`; the superblock was updated or not. */
  predicate TookBlocks(c: Counters, d: Counters, n: nat, booked: bool) {
    && d.groupBlocks == (if booked then Less(c.groupBlocks, n) else c.groupBlocks)
    && (d.superBlocks == c.superBlocks || d.superBlocks == Less(c.superBlocks, n))
    && d.groupInodes == c.groupInodes && d.superInodes == c.superInodes
  }

  predicate TookInode(c: Counters, d: Counters, booked: bool) {
    && d.groupInodes == (if booked then Less(c.groupInodes, 1) else c.groupInodes)
    && (d.superInodes == c.superInodes || d.superInodes == Less(c.superInodes, 1))
    && d.groupBlocks == c.groupBlocks && d.superBlocks == c.superBlocks
  }

  predicate CountsExact(s: Image)
    requires DiskOk(s.v, s.d)
  {
    && CountersOf(s).groupBlocks == FreeCount(s.BlockBits(), s.v.g.blocksPerGroup)
    && CountersOf(s).groupInodes == FreeCount(s.InodeBits(), s.v.g.inodesPerGroup)
  }

  /** The group counts are never below the clear bits, and if they equal them the totals cover them. */
  predicate CountsCover(s: Image)
    requires DiskOk(s.v, s.d)
  {
    var c := CountersOf(s);
    && FreeCount(s.BlockBits(), s.v.g.blocksPerGroup) <= c.groupBlocks
    && FreeCount(s.InodeBits(), s.v.g.inodesPerGroup) <= c.groupInodes
    && (CountsExact(s) ==> c.groupBlocks <= c.superBlocks && c.groupInodes <= c.superInodes)
  }

  /** A step after which the counts are exact if and only if they were exact before and no
      descriptor write was lost. Lost ones are never made up for. */
  ghost predicate Counted(s: Image, t: Image, booked: bool) {
    && DiskOk(s.v, s.d) && DiskOk(t.v, t.d) && t.v == s.v
    && (CountsCover(s) ==> CountsCover(t) && (CountsOk(t) <==> CountsOk(s) && booked))
  }

  lemma ExactCovers(s: Image)
    requires DiskOk(s.v, s.d) && CountsOk(s)
    ensures CountsCover(s)
  {
  }

  lemma CountedTrans(s: Image, t: Image, u: Image, a: bool, b: bool)
    requires Counted(s, t, a) && Counted(t, u, b)
    ensures Counted(s, u, a && b)
  {
    hide CountsOk, CountsCover, DiskOk;
  }

  lemma CountedSame(s: Image, t: Image)
    requires DiskOk(s.v, s.d) && DiskOk(t.v, t.d) && t.v == s.v && CountersOf(t) == CountersOf(s)
    requires t.BlockBits() == s.BlockBits() && t.InodeBits() == s.InodeBits()
    ensures Counted(s, t, true)
  {
    hide CountersOf, DiskOk;
  }

  /** A claim of `count` clear bits: no underflow guard is hit in the group's count, and the counts
      are exact afterwards if and only if the descriptor was written. */
  lemma ClaimCounted(s: Image, t: Image, start: nat, count: nat, booked: bool)
    requires DiskOk(s.v, s.d) && DiskOk(t.v, t.d) && t.v == s.v
    requires 0 < count && start + count <= s.v.g.blocksPerGroup
    requires ClearRun(s.BlockBits(), start, count) && SetsRun(s.BlockBits(), t.BlockBits(), start, count)
    requires t.InodeBits() == s.InodeBits()
    requires TookBlocks(CountersOf(s), CountersOf(t), count, booked)
    ensures CountsCover(s) ==> count <= CountersOf(s).groupBlocks
    ensures Counted(s, t, booked)
  {
    hide CountersOf, DiskOk, ClearRun, SetsRun, FreeCount;
    ClaimLowersFree(s.BlockBits(), t.BlockBits(), start, count, s.v.g.blocksPerGroup);
  }

  /** Where the group's count may be too low, the guard against underflow can make it exact: it is
      exact after a booked claim if and only if it was exact before, or was smaller than the claim and
      too low by just that much. */
  lemma GuardMakesExact(s: Image, t: Image, start: nat, count: nat)
    requires DiskOk(s.v, s.d) && DiskOk(t.v, t.d) && t.v == s.v
    requires 0 < count && start + count <= s.v.g.blocksPerGroup
    requires ClearRun(s.BlockBits(), start, count) && SetsRun(s.BlockBits(), t.BlockBits(), start, count)
    requires TookBlocks(CountersOf(s), CountersOf(t), count, true)
    ensures CountersOf(t).groupBlocks == FreeCount(t.BlockBits(), t.v.g.blocksPerGroup) <==>
      || CountersOf(s).groupBlocks == FreeCount(s.BlockBits(), s.v.g.blocksPerGroup)
      || (CountersOf(s).groupBlocks < count
          && CountersOf(s).groupBlocks + count == FreeCount(s.BlockBits(), s.v.g.blocksPerGroup))
  {
    hide CountersOf, DiskOk, ClearRun, SetsRun, FreeCount;
    ClaimLowersFree(s.BlockBits(), t.BlockBits(), start, count, s.v.g.blocksPerGroup);
  }

  lemma InodeClaimCounted(s: Image, t: Image, index: nat, booked: bool)
    requires DiskOk(s.v, s.d) && DiskOk(t.v, t.d) && t.v == s.v
    requires index < s.v.g.inodesPerGroup && !Bit(s.InodeBits(), index)
    requires SetsRun(s.InodeBits(), t.InodeBits(), index, 1)
    requires t.BlockBits() == s.BlockBits()
    requires TookInode(CountersOf(s), CountersOf(t), booked)
    ensures CountsCover(s) ==> 1 <= CountersOf(s).groupInodes
    ensures Counted(s, t, booked)
  {
    assert ClearRun(s.InodeBits(), index, 1);
    hide CountersOf, DiskOk, ClearRun, SetsRun, FreeCount;
    ClaimLowersFree(s.InodeBits(), t.InodeBits(), index, 1, s.v.g.inodesPerGroup);
  }

  /** With exact counts and every write done, both counters go down alike: no guard is hit. */
  lemma ClaimKeepsCounts(s: Image, t: Image, start: nat, count: nat)
    requires DiskOk(s.v, s.d) && DiskOk(t.v, t.d) && t.v == s.v && CountsOk(s)
    requires 0 < count && start + count <= s.v.g.blocksPerGroup
    requires ClearRun(s.BlockBits(), start, count) && SetsRun(s.BlockBits(), t.BlockBits(), start, count)
    requires t.InodeBits() == s.InodeBits()
    requires CountersOf(t) == TakeBlocks(CountersOf(s), count)
    ensures count <= CountersOf(s).groupBlocks <= CountersOf(s).superBlocks
    ensures CountersOf(t).groupBlocks == CountersOf(s).groupBlocks - count
    ensures CountersOf(t).superBlocks == CountersOf(s).superBlocks - count
    ensures CountsOk(t)
  {
    ExactCovers(s);
    ClaimCounted(s, t, start, count, true);
  }

  lemma InodeClaimKeepsCounts(s: Image, t: Image, index: nat)
    requires DiskOk(s.v, s.d) && DiskOk(t.v, t.d) && t.v == s.v && CountsOk(s)
    requires index < s.v.g.inodesPerGroup && !Bit(s.InodeBits(), index)
    requires SetsRun(s.InodeBits(), t.InodeBits(), index, 1)
    requires t.BlockBits() == s.BlockBits()
    requires CountersOf(t) == TakeInode(CountersOf(s))
    ensures 1 <= CountersOf(s).groupInodes <= CountersOf(s).superInodes
    ensures CountersOf(t).groupInodes == CountersOf(s).groupInodes - 1
    ensures CountersOf(t).superInodes == CountersOf(s).superInodes - 1
    ensures CountsOk(t)
  {
    ExactCovers(s);
    InodeClaimCounted(s, t, index, true);
  }

  /** `count` blocks from `block` on were the first free run, and exactly their bits are new. */
  ghost predicate ClaimedRun(s: Image, t: Image, block: nat, count: nat) {
    && DiskOk(s.v, s.d) && DiskOk(t.v, t.d) && s.v == t.v
    && s.v.g.firstDataBlock <= block
    && ClaimedAt(s, t, block - s.v.g.firstDataBlock, count)
  }

  ghost predicate ClaimedAt(s: Image, t: Image, start: nat, count: nat)
    requires DiskOk(s.v, s.d) && DiskOk(t.v, t.d)
  {
    && 0 < count && start + count <= s.v.g.blocksPerGroup
    && ClearRun(s.BlockBits(), start, count)
    && (forall i :: 0 <= i < start ==> !ClearRun(s.BlockBits(), i, count))
    && SetsRun(s.BlockBits(), t.BlockBits(), start, count)
  }

  /** Inode `n` had the lowest clear bit of group 0, and exactly that bit is new. */
  ghost predicate ClaimedInode(s: Image, t: Image, n: nat) {
    && DiskOk(s.v, s.d) && DiskOk(t.v, t.d) && s.v == t.v
    && 1 <= n <= s.v.g.inodesPerGroup
    && !Bit(s.InodeBits(), n - 1)
    && (forall i :: 0 <= i < n - 1 ==> Bit(s.InodeBits(), i))
    && SetsRun(s.InodeBits(), t.InodeBits(), n - 1, 1)
  }

  /** No block bit changed, or exactly those of one run of the needed length were set. */
  ghost predicate BlockBitsClaimed(s: Image, t: Image, needed: nat)
    requires DiskOk(s.v, s.d) && DiskOk(t.v, t.d)
  {
    t.BlockBits() == s.BlockBits() || exists block :: ClaimedRun(s, t, block, needed)
  }

  /** Group 0 has an inode left. */
  ghost predicate HasInode(s: Image)
    requires DiskOk(s.v, s.d)
  {
    exists i :: 0 <= i < s.v.g.inodesPerGroup && !Bit(s.InodeBits(), i)
  }
}
