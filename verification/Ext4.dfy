/** The mounted ext4 file system: every operation reads whole blocks into buffers, edits them
    in place and writes them back (fs/ext4/ext4.c). */
module Ext4 {
  import opened Arith
  import opened Bytes
  import opened Bitmap
  import opened Storage
  import opened Volume
  import opened Extents
  import opened DirBlock
  import opened Image
  import opened Names
  import opened Paths
  import opened Counts
  import opened Files
  import opened Results
  import opened Device

  class Ext4Fs {
    const device: BlockDevice
    const g: Geometry
    ghost const vol: Volume
    /** The inodes directory entries may refer to. */
    ghost var live: set<nat>
    /** How many writes of the group descriptor have failed, unnoticed by the code. */
    ghost var lost: nat

    ghost function Now(): Image
      reads this, device
    {
      Image(vol, device.blocks, live)
    }

    /** The layout of the disk is the mounted one. */
    ghost predicate Mounted()
      reads this, device
    {
      vol.g == g && device.blockSize == g.blockSize && Now().Shaped() && Now().DescsOk()
    }

    ghost predicate Sound()
      reads this, device
    {
      vol.g == g && device.blockSize == g.blockSize && Now().Sound()
    }

    ghost predicate Valid()
      reads this, device
    {
      Sound() && Now().Valid()
    }

    constructor (device: BlockDevice, ghost vol: Volume, g: Geometry, ghost live: set<nat>)
      requires vol.g == g && device.blockSize == g.blockSize
      requires Image(vol, device.blocks, live).Valid()
      ensures Valid() && Now() == Image(vol, device.blocks, live) && this.device == device
    {
      this.device := device;
      this.g := g;
      this.vol := vol;
      this.live := live;
      this.lost := 0;
    }

    method ReadBlock(b: nat, buf: array<byte>) returns (ok: bool)
      requires Mounted() && buf.Length == g.blockSize
      modifies device`faults, buf
      ensures ok ==> b < |device.blocks| && buf[..] == device.blocks[b] && device.faults == old(device.faults)
      ensures !ok ==> device.faults == old(device.faults) + 1
    {
      ok := device.Read(b, 0, buf);
    }

    method WriteBlock(b: nat, buf: array<byte>) returns (ok: bool)
      requires Mounted() && buf.Length == g.blockSize
      modifies device
      ensures ok ==> b < |old(device.blocks)| && device.blocks == old(device.blocks)[b := buf[..]]
                     && device.faults == old(device.faults)
      ensures !ok ==> device.blocks == old(device.blocks) && device.faults == old(device.faults) + 1
    {
      ok := device.Write(b, 0, buf);
      if ok {
        assert Splice(old(device.blocks)[b], 0, buf[..]) == buf[..];
      }
    }

    method ReadSuper() returns (ok: bool, raw: seq<byte>)
      requires Mounted()
      modifies device`faults
      ensures ok ==> raw == SuperRaw(vol, device.blocks) && device.faults == old(device.faults)
      ensures !ok ==> device.faults == old(device.faults) + 1
    {
      var buf := new byte[SUPER_BYTES];
      ok := device.Read(SuperBlock(g), SuperOff(g), buf);
      raw := buf[..SUPER_RAW];
    }

    /** Writes the known fields; the rest of the superblock becomes zero. */
    method WriteSuper(raw: seq<byte>) returns (ok: bool)
      requires Sound() && |raw| == SUPER_RAW
      modifies device
      ensures Sound() && Framed(old(Now()), Now(), 0)
      ensures Now().BlockBits() == old(Now().BlockBits()) && Now().InodeBits() == old(Now().InodeBits())
      ensures DescBytes(vol, device.blocks, 0) == old(DescBytes(vol, device.blocks, 0))
      ensures ok ==> SuperRaw(vol, device.blocks) == raw && device.faults == old(device.faults)
      ensures ok ==> SuperReplaced(old(Now()), Now(), raw)
      ensures !ok ==> device.blocks == old(device.blocks) && device.faults == old(device.faults) + 1
    {
      var buf := new byte[SUPER_BYTES];
      Clear(buf);
      StoreAt(buf, 0, raw);
      ok := device.Write(SuperBlock(g), SuperOff(g), buf);
      if ok {
        SuperWrite(old(Now()), Now(), device.blocks[SuperBlock(g)]);
        SuperStored(vol, old(device.blocks), device.blocks, raw);
        SuperZeros(old(Now()), Now(), raw, buf[..]);
      } else {
        FramedSelf(Now());
      }
    }

    method ReadGroupDesc(group: nat, buf: array<byte>) returns (ok: bool, desc: seq<byte>)
      requires Mounted() && group < |vol.groups| && buf.Length == g.blockSize
      modifies device`faults, buf
      ensures ok ==> desc == DescBytes(vol, device.blocks, group) && device.faults == old(device.faults)
                     && DescBlock(g, group) < |device.blocks| && buf[..] == device.blocks[DescBlock(g, group)]
      ensures !ok ==> device.faults == old(device.faults) + 1
    {
      ok := ReadBlock(DescBlock(g, group), buf);
      desc := buf[DescOff(g, group)..DescOff(g, group) + DESC_SIZE];
    }

    /** Rewrites group 0's descriptor in the block read before. */
    method WriteGroupDesc(desc: seq<byte>, buf: array<byte>) returns (ok: bool)
      requires Sound() && |desc| == DESC_SIZE && buf.Length == g.blockSize
      requires DescBlock(g, 0) < |device.blocks| && buf[..] == device.blocks[DescBlock(g, 0)]
      requires desc[..12] == DescBytes(vol, device.blocks, 0)[..12]
      modifies device, buf, this`lost
      ensures Sound() && Framed(old(Now()), Now(), 0)
      ensures Now().BlockBits() == old(Now().BlockBits()) && Now().InodeBits() == old(Now().InodeBits())
      ensures SuperRaw(vol, device.blocks) == old(SuperRaw(vol, device.blocks))
      ensures ok ==>
        DescBytes(vol, device.blocks, 0) == desc && device.faults == old(device.faults) && lost == old(lost)
      ensures ok ==> WindowReplaced(old(Now()), Now(), DescBlock(g, 0), DescOff(g, 0), desc)
      ensures !ok ==> device.blocks == old(device.blocks) && device.faults == old(device.faults) + 1
      ensures !ok ==> lost == old(lost) + 1
    {
      StoreAt(buf, DescOff(g, 0), desc);
      ok := WriteBlock(DescBlock(g, 0), buf);
      if ok {
        DescWrite(old(Now()), Now(), desc);
        DescRegion(vol, 0);
        assert At(vol, Super) == SuperBlock(g) && Within(vol, Desc(0));
      } else {
        lost := lost + 1;
        FramedSelf(Now());
      }
    }

    /** The table block and the offset of the slot of inode `n`, found through the descriptor of
        its group. */
    method LocateInode(n: nat) returns (ok: bool, block: nat, off: nat)
      requires Mounted() && InodeNum(vol, n)
      modifies device`faults
      ensures ok ==> block == InodeBlock(vol, n) && off == InodeOff(vol, n) && device.faults == old(device.faults)
      ensures !ok ==> device.faults == old(device.faults) + 1
    {
      hide GeometryOk, InodeNum, InodeBlock, InodeOff, DiskOk, SlotBlock, SlotOff;
      NumberedFacts(Now(), n);
      InodePlace(Now(), n);
      var group := (n - 1) / g.inodesPerGroup;
      var index := (n - 1) % g.inodesPerGroup;
      var buf := new byte[g.blockSize];
      var desc: seq<byte>;
      ok, desc := ReadGroupDesc(group, buf);
      if !ok {
        return false, 0, 0;
      }
      block := U32(desc, 8) + SlotBlock(g, index);
      off := SlotOff(g, index);
    }

    method ReadInode(n: nat) returns (ok: bool, ino: Inode)
      requires Mounted() && InodeNum(vol, n)
      modifies device`faults
      ensures ok ==> ino == Now().Ino(n) && device.faults == old(device.faults)
      ensures !ok ==> device.faults == old(device.faults) + 1
    {
      ino := Zeros(INODE_BYTES);
      var block, off;
      ok, block, off := LocateInode(n);
      if !ok {
        return;
      }
      var buf := new byte[g.blockSize];
      ok := ReadBlock(block, buf);
      if !ok {
        return;
      }
      ino := buf[off..off + INODE_BYTES];
    }

    method WriteInode(n: nat, ino: Inode) returns (ok: bool)
      requires Mounted() && InodeNum(vol, n)
      modifies device
      ensures ok ==> device.blocks == SetInode(vol, old(device.blocks), n, ino) && device.faults == old(device.faults)
      ensures ok ==> WindowReplaced(old(Now()), Now(), InodeBlock(vol, n), InodeOff(vol, n), ino)
      ensures !ok ==> device.blocks == old(device.blocks) && device.faults == old(device.faults) + 1
    {
      var block, off;
      ok, block, off := LocateInode(n);
      if !ok {
        return;
      }
      var buf := new byte[g.blockSize];
      ok := ReadBlock(block, buf);
      if !ok {
        return;
      }
      StoreAt(buf, off, ino);
      ok := WriteBlock(block, buf);
    }

    /** The bookkeeping after a claim of `blocks` blocks or one inode: descriptor first, then
        superblock, each with a guard against underflow, failures ignored. */
    method TakeCounts(desc: seq<byte>, gdBuf: array<byte>, count: nat, groupField: nat, superField: nat)
      requires Sound() && gdBuf.Length == g.blockSize && desc == DescBytes(vol, device.blocks, 0)
      requires DescBlock(g, 0) < |device.blocks| && gdBuf[..] == device.blocks[DescBlock(g, 0)]
      requires groupField == 12 || groupField == 14
      requires superField == 12 || superField == 16
      modifies device, gdBuf, this`lost
      ensures Sound() && Framed(old(Now()), Now(), 0)
      ensures Now().BlockBits() == old(Now().BlockBits()) && Now().InodeBits() == old(Now().InodeBits())
      ensures device.faults - lost >= old(device.faults - lost) && lost >= old(lost)
      ensures DescBytes(vol, device.blocks, 0) ==
        if lost == old(lost) then PutU16(desc, groupField, Less(U16(desc, groupField), count)) else desc
      ensures
        var was := old(SuperRaw(vol, device.blocks));
        var less := PutU32(was, superField, Less(U32(was, superField), count));
        var now := SuperRaw(vol, device.blocks);
        now == less || (device.faults - lost > old(device.faults - lost) && now == was)
    {
      var newDesc := PutU16(desc, groupField, Less(U16(desc, groupField), count));
      assert newDesc[..12] == desc[..12];
      var ignored := WriteGroupDesc(newDesc, gdBuf);
      ghost var mid := Now();
      var ok, raw := ReadSuper();
      assert Now() == mid;
      if ok {
        ignored := WriteSuper(PutU32(raw, superField, Less(U32(raw, superField), count)));
        FramedTrans(old(Now()), mid, Now(), 0);
      }
    }

    /** Reads the descriptor of group 0 and the bitmap it names in the given field. */
    method ReadBitmap(field: nat, gdBuf: array<byte>, bitmap: array<byte>) returns (ok: bool, desc: seq<byte>, b: nat)
      requires Mounted() && (field == 0 || field == 4) && gdBuf != bitmap
      requires gdBuf.Length == g.blockSize == bitmap.Length
      modifies device`faults, gdBuf, bitmap
      ensures ok ==> device.faults == old(device.faults)
      ensures ok ==> desc == DescBytes(vol, device.blocks, 0)
                     && DescBlock(g, 0) < |device.blocks| && gdBuf[..] == device.blocks[DescBlock(g, 0)]
      ensures ok && field == 0 ==>
        Within(vol, BlockBitmap(0)) && b == At(vol, BlockBitmap(0)) && bitmap[..] == Now().BlockBits()
      ensures ok && field == 4 ==>
        Within(vol, InodeBitmap(0)) && b == At(vol, InodeBitmap(0)) && bitmap[..] == Now().InodeBits()
      ensures !ok ==> device.faults == old(device.faults) + 1
    {
      hide Image.DescsOk, RegionsApart, RegionsOnDisk, At, Within, DescBlock, DescOff;
      BitmapPlaces(Now());
      b := 0;
      ok, desc := ReadGroupDesc(0, gdBuf);
      if !ok {
        return;
      }
      b := U32(desc, field);
      ok := ReadBlock(b, bitmap);
    }

    /** Writes back the bitmap with the run from `start` on set, then does the bookkeeping. */
    method CommitRun(desc: seq<byte>, gdBuf: array<byte>, b: nat, bitmap: array<byte>, start: nat, count: nat)
      returns (ok: bool)
      requires Sound() && gdBuf.Length == g.blockSize == bitmap.Length && desc == DescBytes(vol, device.blocks, 0)
      requires DescBlock(g, 0) < |device.blocks| && gdBuf[..] == device.blocks[DescBlock(g, 0)]
      requires Within(vol, BlockBitmap(0)) && b == At(vol, BlockBitmap(0))
      requires 0 < count && start + count <= g.blocksPerGroup
      requires ClearRun(Now().BlockBits(), start, count) && SetsRun(Now().BlockBits(), bitmap[..], start, count)
      modifies device, gdBuf, this`lost
      ensures Sound() && Framed(old(Now()), Now(), 0) && Now().InodeBits() == old(Now().InodeBits())
      ensures ok ==> Now().BlockBits() == old(bitmap[..])
      ensures !ok ==> device.blocks == old(device.blocks) && device.faults > old(device.faults)
      ensures ok && device.faults == old(device.faults) ==>
        CountersOf(Now()) == TakeBlocks(old(CountersOf(Now())), count)
      ensures device.faults - lost >= old(device.faults - lost) && lost >= old(lost)
      ensures Counted(old(Now()), Now(), lost == old(lost))
    {
      hide SetsRun, ClearRun, Framed, TakeBlocks, CountersOf, Counted, PutU16, PutU32, Less, BitsGrow, Image.Disjoint,
        Image.BitsOk, Image.InodesOk, Image.DescsOk, RegionsApart, RegionsOnDisk, At, Within, DescBlock, DescOff;
      ok := WriteBlock(b, bitmap);
      if !ok {
        FramedSelf(Now());
        CountedSame(Now(), Now());
        return;
      }
      ghost var mid := Now();
      RunClaimed(old(Now()), mid, bitmap[..], start, count);
      TakeCounts(desc, gdBuf, count, 12, 12);
      FramedTrans(old(Now()), mid, Now(), 0);
      BlocksTaken(mid, Now(), count, lost == old(lost));
      ClaimCounted(old(Now()), Now(), start, count, lost == old(lost));
    }

    method AllocBlockRun(count: nat) returns (ok: bool, block: nat)
      requires Sound()
      modifies device, this`lost
      ensures Sound() && Framed(old(Now()), Now(), 0)
      ensures Now().InodeBits() == old(Now().InodeBits())
      ensures device.faults >= old(device.faults)
      ensures ok ==> ClaimedRun(old(Now()), Now(), block, count)
      ensures !ok ==> device.blocks == old(device.blocks)
      ensures !ok && device.faults == old(device.faults) && 0 < count ==>
        NoRunBelow(Now().BlockBits(), count, g.blocksPerGroup)
      ensures ok && device.faults == old(device.faults) ==>
        CountersOf(Now()) == TakeBlocks(old(CountersOf(Now())), count)
      ensures device.faults - lost >= old(device.faults - lost) && lost >= old(lost)
      ensures Counted(old(Now()), Now(), lost == old(lost))
    {
      hide SetsRun, ClearRun, NoRunBelow, Framed, TakeBlocks, CountersOf, Counted, BitsGrow, Image.Disjoint,
        Image.BitsOk, Image.InodesOk, Image.DescsOk, RegionsApart, RegionsOnDisk, At, Within, DescBlock, DescOff;
      FramedSelf(Now());
      CountedSame(Now(), Now());
      var gdBuf := new byte[g.blockSize];
      var bitmap := new byte[g.blockSize];
      var desc: seq<byte>;
      var bitmapBlock;
      block := 0;
      ok, desc, bitmapBlock := ReadBitmap(0, gdBuf, bitmap);
      if !ok {
        return;
      }
      var start;
      ok, start := ClaimFirstRun(bitmap, g.blocksPerGroup, count);
      if !ok {
        return;
      }
      ok := CommitRun(desc, gdBuf, bitmapBlock, bitmap, start, count);
      block := start + g.firstDataBlock;
    }

    /** Writes back the bitmap with the bit of inode `index + 1` set, then does the bookkeeping. */
    method CommitInode(desc: seq<byte>, gdBuf: array<byte>, b: nat, bitmap: array<byte>, index: nat) returns (ok: bool)
      requires Sound() && gdBuf.Length == g.blockSize == bitmap.Length && desc == DescBytes(vol, device.blocks, 0)
      requires DescBlock(g, 0) < |device.blocks| && gdBuf[..] == device.blocks[DescBlock(g, 0)]
      requires Within(vol, InodeBitmap(0)) && b == At(vol, InodeBitmap(0))
      requires index < g.inodesPerGroup
      requires !Bit(Now().InodeBits(), index) && SetsRun(Now().InodeBits(), bitmap[..], index, 1)
      modifies device, gdBuf, this`lost
      ensures Sound() && Framed(old(Now()), Now(), 0) && Now().BlockBits() == old(Now().BlockBits())
      ensures ok ==> Now().InodeBits() == old(bitmap[..])
      ensures !ok ==> device.blocks == old(device.blocks) && device.faults > old(device.faults)
      ensures ok && device.faults == old(device.faults) ==> CountersOf(Now()) == TakeInode(old(CountersOf(Now())))
      ensures device.faults - lost >= old(device.faults - lost) && lost >= old(lost)
      ensures Counted(old(Now()), Now(), lost == old(lost))
    {
      hide SetsRun, Bit, Framed, TakeInode, CountersOf, Counted, PutU16, PutU32, Less, BitsGrow, Image.Disjoint,
        Image.BitsOk, Image.InodesOk, Image.DescsOk, RegionsApart, RegionsOnDisk, At, Within, DescBlock, DescOff;
      ok := WriteBlock(b, bitmap);
      if !ok {
        FramedSelf(Now());
        CountedSame(Now(), Now());
        return;
      }
      ghost var mid := Now();
      BitClaimed(old(Now()), mid, bitmap[..], index);
      TakeCounts(desc, gdBuf, 1, 14, 16);
      FramedTrans(old(Now()), mid, Now(), 0);
      InodeTaken(mid, Now(), lost == old(lost));
      InodeClaimCounted(old(Now()), Now(), index, lost == old(lost));
    }

    method AllocInode() returns (ok: bool, n: nat)
      requires Sound()
      modifies device, this`lost
      ensures Sound() && Framed(old(Now()), Now(), 0)
      ensures Now().BlockBits() == old(Now().BlockBits())
      ensures device.faults >= old(device.faults)
      ensures ok ==> ClaimedInode(old(Now()), Now(), n)
      ensures !ok ==> n == 0 && device.blocks == old(device.blocks)
      ensures !ok && device.faults == old(device.faults) ==>
        forall i :: 0 <= i < g.inodesPerGroup ==> Bit(Now().InodeBits(), i)
      ensures ok && device.faults == old(device.faults) ==> CountersOf(Now()) == TakeInode(old(CountersOf(Now())))
      ensures device.faults - lost >= old(device.faults - lost) && lost >= old(lost)
      ensures Counted(old(Now()), Now(), lost == old(lost))
    {
      hide SetsRun, Bit, Framed, TakeInode, CountersOf, Counted, BitsGrow, Image.Disjoint, Image.BitsOk,
        Image.InodesOk, Image.DescsOk, RegionsApart, RegionsOnDisk, At, Within, DescBlock, DescOff;
      FramedSelf(Now());
      CountedSame(Now(), Now());
      var gdBuf := new byte[g.blockSize];
      var bitmap := new byte[g.blockSize];
      var desc: seq<byte>;
      var bitmapBlock;
      n := 0;
      ok, desc, bitmapBlock := ReadBitmap(4, gdBuf, bitmap);
      if !ok {
        return;
      }
      var index;
      ok, index := ClaimFirstBit(bitmap, g.inodesPerGroup);
      if !ok {
        return;
      }
      ok := CommitInode(desc, gdBuf, bitmapBlock, bitmap, index);
      if ok {
        n := index + 1;
      }
    }

    /** One block of a read: fetches block `b` and appends a piece of it to `out`. */
    method ReadPiece(b: nat, from: nat, len: nat, out: array<byte>, total: nat) returns (ok: bool)
      requires Mounted() && from + len <= g.blockSize && total + len <= out.Length
      modifies device`faults, out
      ensures ok ==> b < |device.blocks| && from + len <= |device.blocks[b]| && device.faults == old(device.faults)
                     && out[..total + len] == old(out[..total]) + device.blocks[b][from..from + len]
      ensures !ok ==> device.faults == old(device.faults) + 1
    {
      var buf := new byte[g.blockSize];
      ok := ReadBlock(b, buf);
      if ok {
        StoreAt(out, total, buf[from..from + len]);
      }
    }

    /** Reads `size` bytes of the file at `off` through the extents of `ino`. */
    method ReadExtentBlocks(ino: Inode, off: nat, out: array<byte>, size: nat) returns (ok: bool, total: nat)
      requires Mounted() && ExtentsFit(ino) && OnDisk(device.blocks, InodeBlocks(ino)) && Distinct(InodeBlocks(ino))
      requires size <= out.Length && (off == 0 || HoleFree(ExtentList(ino)))
      modifies device`faults, out
      ensures device.faults >= old(device.faults)
      ensures ok ==> HasHeader(ino) && device.faults == old(device.faults)
      ensures ok ==> total <= size && out[..total] == ReadSlice(Flat(device.blocks, InodeBlocks(ino)), off, size)
      ensures HasHeader(ino) && device.faults == old(device.faults) ==> ok
    {
      hide HasRead, Pos, Flat, ReadSlice, BlockList, HoleFree, ExtentAt, RegionsApart, RegionsOnDisk, Image.DescsOk;
      total := 0;
      if HeaderMagic(ino) != EXTENT_MAGIC || HeaderDepth(ino) != 0 {
        return false, 0;
      }
      var entries := HeaderEntries(ino);
      ghost var es, blocks := ExtentList(ino), InodeBlocks(ino);
      ghost var f := Flat(device.blocks, blocks);
      ghost var k := 0;
      ReadStarts(device.blocks, blocks, g.blockSize, off, size);
      BlockListEmpty(es);
      assert out[..total] == [];
      var i := 0;
      while i < entries && total < size
        invariant 0 <= i <= entries == |es| && total <= size && k <= |blocks|
        invariant HasRead(f, |blocks|, k, g.blockSize, off, size, out[..total])
        invariant total < size ==> k == |BlockList(es[..i])|
        invariant device.faults == old(device.faults)
      {
        var start, len := ExtentAt(ino, i).start, ExtentAt(ino, i).len;
        BlockListStep(es, i);
        var b := 0;
        while b < len && total < size
          invariant 0 <= b <= len && total <= size && k <= |blocks|
          invariant HasRead(f, |blocks|, k, g.blockSize, off, size, out[..total])
          invariant total < size ==> k == |BlockList(es[..i])| + b
          invariant device.faults == old(device.faults)
        {
          BlockAt(es, i, b);
          BlockStart(ino, i, b, g.blockSize, off);
          var at := Pos(FileBlock(ExtentAt(ino, i), b), g.blockSize);
          if at + g.blockSize <= off {
            ReadSkips(f, |blocks|, k, g.blockSize, off, size, out[..total]);
          } else {
            ReadAdvances(device.blocks, blocks, k, g.blockSize, off, size, out[..total]);
            var from := CopyStart(off, at);
            var n := Min(g.blockSize - from, size - total);
            ok := ReadPiece(start + b, from, n, out, total);
            if !ok {
              return false, total;
            }
            total := total + n;
          }
          k := k + 1;
          b := b + 1;
        }
        i := i + 1;
      }
      BlockListFull(es);
      ReadEnds(f, |blocks|, k, g.blockSize, off, size, out[..total]);
      ok := true;
    }

    /** One block of a write: reads block `b`, replaces a piece of it and writes it back. */
    method WritePiece(b: nat, from: nat, piece: seq<byte>) returns (ok: bool)
      requires Mounted() && from + |piece| <= g.blockSize
      modifies device
      ensures ok ==> b < |old(device.blocks)| && from + |piece| <= |old(device.blocks)[b]|
                     && device.blocks == old(device.blocks)[b := Splice(old(device.blocks)[b], from, piece)]
                     && device.faults == old(device.faults)
      ensures !ok ==> device.blocks == old(device.blocks) && device.faults == old(device.faults) + 1
    {
      var buf := new byte[g.blockSize];
      ok := ReadBlock(b, buf);
      if ok {
        StoreAt(buf, from, piece);
        ok := WriteBlock(b, buf);
      }
    }

    /** Writes `data` into the file at `off` through the extents of `ino`. */
    method WriteExtentBlocks(ino: Inode, off: nat, data: seq<byte>) returns (ok: bool)
      requires Mounted() && ExtentsFit(ino) && OnDisk(device.blocks, InodeBlocks(ino)) && Distinct(InodeBlocks(ino))
      requires forall k :: 0 <= k < |InodeBlocks(ino)| ==> DataBlock(vol, InodeBlocks(ino)[k])
      requires off == 0 || HoleFree(ExtentList(ino))
      modifies device
      ensures Mounted() && |device.blocks| == |old(device.blocks)| && device.faults >= old(device.faults)
      ensures forall b :: 0 <= b < |device.blocks| && b !in InodeBlocks(ino) ==>
        device.blocks[b] == old(device.blocks)[b]
      ensures !HasHeader(ino) ==> !ok && device.blocks == old(device.blocks)
      ensures device.faults == old(device.faults) && HasHeader(ino) ==>
        && Flat(device.blocks, InodeBlocks(ino)) == Overlay(Flat(old(device.blocks), InodeBlocks(ino)), off, data)
        && (ok <==> data == [] || off + |data| <= Pos(|InodeBlocks(ino)|, g.blockSize))
      ensures ok ==> device.faults == old(device.faults)
    {
      hide HasWritten, Pos, Flat, Overlay, BlockList, HoleFree, ExtentAt, RegionsApart, RegionsOnDisk, Image.DescsOk;
      if HeaderMagic(ino) != EXTENT_MAGIC || HeaderDepth(ino) != 0 {
        return false;
      }
      var entries := HeaderEntries(ino);
      var t: nat := 0;
      ghost var es, blocks, d := ExtentList(ino), InodeBlocks(ino), device.blocks;
      ghost var k := 0;
      WriteStarts(d, blocks, g.blockSize, off, data);
      BlockListEmpty(es);
      var i := 0;
      while i < entries && t < |data|
        invariant 0 <= i <= entries == |es| && t <= |data| && k <= |blocks|
        invariant HasWritten(d, device.blocks, blocks, k, g.blockSize, off, data, t)
        invariant t < |data| ==> k == |BlockList(es[..i])|
        invariant device.faults == old(device.faults) && Mounted() && |device.blocks| == |d|
      {
        var start, len := ExtentAt(ino, i).start, ExtentAt(ino, i).len;
        BlockListStep(es, i);
        var b := 0;
        while b < len && t < |data|
          invariant 0 <= b <= len && t <= |data| && k <= |blocks|
          invariant HasWritten(d, device.blocks, blocks, k, g.blockSize, off, data, t)
          invariant t < |data| ==> k == |BlockList(es[..i])| + b
          invariant device.faults == old(device.faults) && Mounted() && |device.blocks| == |d|
        {
          BlockAt(es, i, b);
          BlockStart(ino, i, b, g.blockSize, off);
          var at := Pos(FileBlock(ExtentAt(ino, i), b), g.blockSize);
          if at + g.blockSize <= off {
            WriteSkips(d, device.blocks, blocks, k, g.blockSize, off, data, t);
          } else {
            WriteAdvances(d, device.blocks, blocks, k, g.blockSize, off, data, t);
            var from := CopyStart(off, at);
            var n := Min(g.blockSize - from, |data| - t);
            ghost var was := device.blocks;
            ok := WritePiece(start + b, from, data[t..t + n]);
            if !ok {
              WrittenElsewhere(d, device.blocks, blocks, k, g.blockSize, off, data, t);
              return false;
            }
            t := t + n;
            DataBlockMounted(Image(vol, was, live), Now(), blocks[k]);
          }
          k := k + 1;
          b := b + 1;
        }
        i := i + 1;
      }
      BlockListFull(es);
      WriteEnds(d, device.blocks, blocks, k, g.blockSize, off, data, t);
      WrittenElsewhere(d, device.blocks, blocks, k, g.blockSize, off, data, t);
      ok := t == |data|;
    }

    /** Looks `name` up in block `b` of a directory. */
    method LookInBlock(b: nat, name: seq<byte>) returns (ok: bool, found: Option<Entry>)
      requires Mounted()
      modifies device`faults
      ensures ok ==> b < |device.blocks| && found == FindEntry(Entries(device.blocks[b], 0), name)
      ensures device.faults == if ok then old(device.faults) else old(device.faults) + 1
    {
      hide Entries, FindEntry, RegionsApart, RegionsOnDisk, Image.DescsOk;
      var buf := new byte[g.blockSize];
      found := None;
      ok := ReadBlock(b, buf);
      if ok {
        found := FindInBlock(buf, name);
      }
    }

    /** Looks `name` up in the directory whose record is `ino`. */
    method FindInDir(ino: Inode, name: seq<byte>) returns (r: Option<Entry>)
      requires Mounted() && ExtentsFit(ino) && OnDisk(device.blocks, InodeBlocks(ino))
      modifies device`faults
      ensures device.faults >= old(device.faults)
      ensures r.Some? ==> r == LookupIn(device.blocks, ino, name) && device.faults == old(device.faults)
      ensures device.faults == old(device.faults) ==> r == LookupIn(device.blocks, ino, name)
    {
      hide BlockList, ExtentAt, FindEntry, DirEntries, Entries, RegionsApart, RegionsOnDisk, Image.DescsOk;
      if !UsesExtents(ino) {
        return None;
      }
      if HeaderMagic(ino) != EXTENT_MAGIC || HeaderDepth(ino) != 0 {
        return None;
      }
      var entries := HeaderEntries(ino);
      ghost var es, blocks := ExtentList(ino), InodeBlocks(ino);
      BlockListEmpty(es);
      NothingYet(device.blocks, name);
      var i := 0;
      while i < entries
        invariant 0 <= i <= entries == |es|
        invariant device.faults == old(device.faults)
        invariant |BlockList(es[..i])| <= |blocks| && OnDisk(device.blocks, blocks[..|BlockList(es[..i])|])
        invariant FindEntry(DirEntries(device.blocks, blocks[..|BlockList(es[..i])|]), name).None?
      {
        var start, len := ExtentAt(ino, i).start, ExtentAt(ino, i).len;
        BlockListStep(es, i);
        BlockListPrefix(es, i + 1);
        var b := 0;
        ghost var k := |BlockList(es[..i])|;
        while b < len
          invariant 0 <= b <= len && k == |BlockList(es[..i])| + b <= |blocks|
          invariant device.faults == old(device.faults)
          invariant OnDisk(device.blocks, blocks[..k])
          invariant FindEntry(DirEntries(device.blocks, blocks[..k]), name).None?
        {
          BlockAt(es, i, b);
          FindStep(device.blocks, blocks, k, name);
          var ok, found := LookInBlock(start + b, name);
          if !ok {
            return None;
          }
          if found.Some? {
            return found;
          }
          b := b + 1;
          k := k + 1;
        }
        i := i + 1;
      }
      BlockListFull(es);
      assert blocks[..|blocks|] == blocks;
      return None;
    }

    /** Writes back a directory block whose first roomy record was split for inode `n`. */
    method CommitEntry(dir: nat, ghost k: nat, b: nat, buf: array<byte>, name: seq<byte>, kind: byte, n: nat)
      returns (ok: bool)
      requires Valid() && dir in live && IsDir(Now().Ino(dir)) && buf.Length == g.blockSize
      requires k < |Now().Blocks(dir)| && b == Now().Blocks(dir)[k] && b < |device.blocks|
      requires Claimed(Now(), n) && n < 0x1_0000_0000 && kind != FT_DIR && 1 <= |name|
      requires IsSplitOf(device.blocks[b], buf[..], n, kind, name)
      modifies device, this`live
      ensures Inserted(old(Now()), Now(), dir, name, kind, n, ok) && (!ok ==> Now() == old(Now()))
      ensures ok ==> BlockSplit(old(Now()), Now(), b, n, kind, name)
      ensures if ok then device.faults == old(device.faults) else device.faults > old(device.faults)
    {
      hide NameAdded, Claimed, RegionsApart, RegionsOnDisk, Image.DescsOk, Image.Disjoint, Image.BitsOk, Image.DirsOk;
      ok := WriteBlock(b, buf);
      if ok {
        live := live + {n};
        EntryStored(old(Now()), Now(), dir, k, n, kind, name);
      }
    }

    /** Enters the name in block `b` of the directory, its `k`-th, if that has room. */
    method InsertInBlock(dir: nat, ghost k: nat, b: nat, name: seq<byte>, kind: byte, n: nat)
      returns (ok: bool, done: bool)
      requires Valid() && dir in live && IsDir(Now().Ino(dir))
      requires k < |Now().Blocks(dir)| && b == Now().Blocks(dir)[k] && b < |device.blocks| && Tiled(device.blocks[b], 0)
      requires Claimed(Now(), n) && n < 0x1_0000_0000 && kind != FT_DIR && 1 <= |name|
      modifies device, this`live
      ensures Inserted(old(Now()), Now(), dir, name, kind, n, ok && done)
      ensures !(ok && done) ==> Now() == old(Now())
      ensures if ok then device.faults == old(device.faults) else device.faults > old(device.faults)
      ensures ok ==> done == RoomIn(old(Now()), b, |name|)
      ensures ok && done ==> BlockSplit(old(Now()), Now(), b, n, kind, name)
    {
      hide RoomAt, Tiled, SplitAt, Inserted, IsSplit, Claimed, RegionsApart, RegionsOnDisk, Image.DescsOk,
        Image.Disjoint, Image.BitsOk, Image.DirsOk, Image.InodesOk;
      NothingInserted(Now(), dir, name, kind, n);
      var buf := new byte[g.blockSize];
      done := false;
      ok := ReadBlock(b, buf);
      if !ok {
        return;
      }
      done := SplitInBlock(buf, name, kind, n);
      if done {
        ok := CommitEntry(dir, k, b, buf, name, kind, n);
      }
    }

    /** Adds an entry for the claimed inode `n` to directory `dir`. */
    method AddDirEntry(dir: nat, name: seq<byte>, kind: byte, n: nat) returns (ok: bool)
      requires Valid() && dir in live && IsDir(Now().Ino(dir))
      requires Claimed(Now(), n) && n < 0x1_0000_0000 && kind != FT_DIR && 1 <= |name|
      modifies device, this`live
      ensures Inserted(old(Now()), Now(), dir, name, kind, n, ok) && device.faults >= old(device.faults)
      ensures ok ==> FirstRoomSplit(old(Now()), Now(), dir, n, kind, name)
      ensures ok ==> device.faults == old(device.faults)
      ensures device.faults == old(device.faults) ==> (ok <==> HasRoom(old(Now()), dir, |name|))
    {
      hide BlockList, ExtentAt, DirEntries, Entries, RoomAt, Tiled, SplitAt, Inserted, IsSplit, Claimed, RegionsApart,
        RegionsOnDisk, Image.DescsOk, Image.Disjoint, Image.BitsOk;
      ghost var s := Now();
      NothingInserted(s, dir, name, kind, n);
      assert s.InodeOk(dir) && s.DirOk(dir);
      var ino;
      ok, ino := ReadInode(dir);
      if !ok {
        return;
      }
      if !UsesExtents(ino) {
        assert false;
        return false;
      }
      if HeaderMagic(ino) != EXTENT_MAGIC || HeaderDepth(ino) != 0 {
        assert false;
        return false;
      }
      var entries := HeaderEntries(ino);
      ghost var es, blocks := ExtentList(ino), InodeBlocks(ino);
      assert blocks == s.Blocks(dir) && OnDisk(s.d, blocks);
      assert forall j :: 0 <= j < |blocks| ==> Tiled(s.d[blocks[j]], 0);
      BlockListEmpty(es);
      var i := 0;
      while i < entries
        invariant 0 <= i <= entries == |es|
        invariant device.faults == old(device.faults) && Now() == s
        invariant |BlockList(es[..i])| <= |blocks|
        invariant forall j :: 0 <= j < |BlockList(es[..i])| ==> !RoomIn(s, blocks[j], |name|)
      {
        var start, len := ExtentAt(ino, i).start, ExtentAt(ino, i).len;
        BlockListStep(es, i);
        BlockListPrefix(es, i + 1);
        var b := 0;
        ghost var k := |BlockList(es[..i])|;
        while b < len
          invariant 0 <= b <= len && k == |BlockList(es[..i])| + b <= |blocks|
          invariant device.faults == old(device.faults) && Now() == s
          invariant forall j :: 0 <= j < k ==> !RoomIn(s, blocks[j], |name|)
        {
          BlockAt(es, i, b);
          var done;
          ok, done := InsertInBlock(dir, k, start + b, name, kind, n);
          if !ok || done {
            assert ok ==> BlockSplit(s, Now(), s.Blocks(dir)[k], n, kind, name);
            return;
          }
          b := b + 1;
          k := k + 1;
        }
        i := i + 1;
      }
      BlockListFull(es);
      return false;
    }

    /** Walks an absolute path from the root, one nonempty component at a time. */
    method ResolvePath(path: seq<byte>) returns (r: Option<Target>)
      requires Sound()
      requires path != [] && path[0] == SLASH ==> Now().WalksLive(ROOT, Components(path))
      modifies device`faults
      ensures device.faults >= old(device.faults)
      ensures path == [] || path[0] != SLASH ==> r.None?
      ensures r.Some? ==> device.faults == old(device.faults) && r == Now().Resolve(ROOT, Components(path))
      ensures r.Some? ==> r.value.inode in live
      ensures path != [] && path[0] == SLASH && device.faults == old(device.faults) ==>
        r == Now().Resolve(ROOT, Components(path))
    {
      hide Components, CompLen, RegionsApart, RegionsOnDisk, Image.DescsOk, Image.Disjoint, Image.BitsOk, LookupIn;
      if path == [] || path[0] != SLASH {
        return None;
      }
      ghost var s := Now();
      var at := ROOT;
      var p := SkipSlashes(path, 0);
      assert path[0..] == path;
      while p < |path|
        invariant 0 <= p <= |path| && (p < |path| ==> path[p] != SLASH)
        invariant Now() == s && device.faults == old(device.faults) && at.inode in s.live
        invariant s.WalksLive(at, Components(path[p..]))
        invariant s.Resolve(at, Components(path[p..])) == s.Resolve(ROOT, Components(path))
        decreases |path| - p
      {
        var start := p;
        while p < |path| && path[p] != SLASH
          invariant start <= p <= |path| && forall i :: start <= i < p ==> path[i] != SLASH
        {
          p := p + 1;
        }
        TakeComponent(path, start, p);
        StepLive(s, at, path[start..p], Components(path[p..]));
        var ok, ino := ReadInode(at.inode);
        if !ok {
          return None;
        }
        var found := FindInDir(ino, path[start..p]);
        if found.None? {
          return None;
        }
        at := Target(found.value.inode, found.value.kind);
        p := SkipSlashes(path, p);
      }
      assert Components(path[p..]) == [] by { EmptyPath(path[p..]); }
      return Some(at);
    }

    /** Writes `data` from byte 0 through the extents of `ino`, whose blocks no live inode but
        `n` owns. */
    method PutData(n: nat, ino: Inode, data: seq<byte>) returns (ok: bool)
      requires Sound() && n in live && ExtentsFit(ino) && HasHeader(ino) && MayOwn(Now(), n, InodeBlocks(ino))
      modifies device
      ensures Sound() && Framed(old(Now()), Now(), n) && device.faults >= old(device.faults)
      ensures |device.blocks| == |old(device.blocks)|
      ensures forall m :: InodeNum(vol, m) ==> Now().Ino(m) == old(Now().Ino(m))
      ensures Now().BlockBits() == old(Now().BlockBits()) && Now().InodeBits() == old(Now().InodeBits())
      ensures CountersOf(Now()) == old(CountersOf(Now()))
      ensures ok ==> device.faults == old(device.faults)
                     && OnDisk(device.blocks, InodeBlocks(ino))
                     && ReadSlice(Flat(device.blocks, InodeBlocks(ino)), 0, |data|) == data
      ensures ok ==> SameBehind(old(device.blocks), device.blocks, InodeBlocks(ino), |data|)
      ensures device.faults == old(device.faults) ==>
        (ok <==> data == [] || |data| <= Pos(|InodeBlocks(ino)|, g.blockSize))
    {
      hide BlockList, Flat, Overlay, ReadSlice, Pos, Distinct, RegionsApart, RegionsOnDisk, CountersOf, Image.DescsOk,
        Image.Disjoint, Image.BitsOk;
      ghost var s := Now();
      ok := WriteExtentBlocks(ino, 0, data);
      DataWritten(s, Now(), n, ino);
      if ok {
        StoredReads(s.d, device.blocks, InodeBlocks(ino), g.blockSize, data);
      }
    }

    /** Writes the record of live inode `n`, which owns its blocks alone afterwards. */
    method PutInode(n: nat, ino: Inode) returns (ok: bool)
      requires Sound() && n in live && ExtentsFit(ino) && MayOwn(Now(), n, InodeBlocks(ino))
      modifies device
      ensures Sound() && Framed(old(Now()), Now(), n)
      ensures Now().BlockBits() == old(Now().BlockBits()) && Now().InodeBits() == old(Now().InodeBits())
      ensures CountersOf(Now()) == old(CountersOf(Now()))
      ensures |device.blocks| == |old(device.blocks)|
      ensures forall b :: 0 <= b < |device.blocks| && DataBlock(vol, b) ==> device.blocks[b] == old(device.blocks)[b]
      ensures ok ==> Now().Ino(n) == ino && device.faults == old(device.faults)
      ensures !ok ==> Now() == old(Now()) && device.faults == old(device.faults) + 1
    {
      hide BlockList, RegionsApart, RegionsOnDisk, CountersOf, Image.DescsOk, Image.Disjoint, Image.BitsOk, SetInode,
        MayOwn;
      ghost var s := Now();
      ok := WriteInode(n, ino);
      if ok {
        RecordWritten(s, Now(), n, ino);
      } else {
        SelfFramed(s, n);
      }
    }

    /** Builds the header for the run from `start` on and writes `data` there: that works exactly
        if the run's length fits an extent. */
    method FillRun(n: nat, file: Inode, start: nat, needed: nat, data: seq<byte>) returns (ok: bool, r: Inode)
      requires Sound() && n in live && |data| < U32_SPAN && start < U32_SPAN
      requires 0 < needed == BlocksNeeded(g, |data|)
      requires MayOwn(Now(), n, Run(start, needed % 0x1_0000 % 0x8000))
      modifies device
      ensures Sound() && Framed(old(Now()), Now(), n) && device.faults >= old(device.faults)
      ensures forall m :: InodeNum(vol, m) ==> Now().Ino(m) == old(Now().Ino(m))
      ensures Now().BlockBits() == old(Now().BlockBits()) && Now().InodeBits() == old(Now().InodeBits())
      ensures CountersOf(Now()) == old(CountersOf(Now()))
      ensures UsesExtents(r) && HasHeader(r) && ExtentsFit(r) && Mode(r) == Mode(file)
      ensures InodeBlocks(r) == Run(start, needed % 0x1_0000 % 0x8000) && HeaderSet(file, r, needed)
      ensures ok ==> needed < 0x8000 && device.faults == old(device.faults)
                     && MayOwn(Now(), n, InodeBlocks(r))
                     && ReadSlice(Flat(device.blocks, InodeBlocks(r)), 0, |data|) == data
      ensures device.faults == old(device.faults) && needed < 0x8000 ==> ok
    {
      hide Image.DescsOk, Image.Disjoint, Image.BitsOk, Image.InodesOk, RegionsApart, RegionsOnDisk, Framed, MayOwn,
        CountersOf, FreshHeader, InodeBlocks, Flat, ReadSlice, Pos, SameView, HasHeader, UsesExtents, Mode,
        ExtentsFit, InodeNum, BlocksNeeded;
      ghost var s := Now();
      FreshHeaderFacts(file, start, needed);
      FreshHeaderSets(file, start, needed);
      r := FreshHeader(file, start, needed);
      ok := PutData(n, r, data);
      MayOwnStays(s, Now(), n, InodeBlocks(r));
      FreshFits(g, |data|);
    }

    /** Allocates a run for `data` and writes it there; the inode on disk is not touched yet. */
    method WriteFresh(n: nat, file: Inode, needed: nat, data: seq<byte>) returns (ok: bool, r: Inode)
      requires Sound() && n in live && |data| < U32_SPAN
      requires 0 < needed == BlocksNeeded(g, |data|)
      modifies device, this`lost
      ensures Sound() && Framed(old(Now()), Now(), n) && device.faults >= old(device.faults)
      ensures forall m :: m in live ==> Now().Ino(m) == old(Now().Ino(m))
      ensures Now().InodeBits() == old(Now().InodeBits())
      ensures BlockBitsClaimed(old(Now()), Now(), needed)
      ensures ok ==> UsesExtents(r) && HasHeader(r) && ExtentsFit(r) && Mode(r) == Mode(file)
                     && MayOwn(Now(), n, InodeBlocks(r))
                     && ReadSlice(Flat(device.blocks, InodeBlocks(r)), 0, |data|) == data
                     && NamesRun(old(Now()), Now(), r, needed) && HeaderSet(file, r, needed)
      ensures device.faults == old(device.faults) ==>
        (ok <==> needed < 0x8000 && !NoRunBelow(old(Now().BlockBits()), needed, g.blocksPerGroup))
      ensures device.faults == old(device.faults) && !ok && needed < 0x8000 ==> Now() == old(Now())
      ensures NoRunBelow(old(Now().BlockBits()), needed, g.blocksPerGroup) ==> !ok && Now() == old(Now())
      ensures device.faults - lost >= old(device.faults - lost) && lost >= old(lost)
      ensures Counted(old(Now()), Now(), lost == old(lost))
    {
      hide Image.DescsOk, Image.Disjoint, Image.BitsOk, Image.InodesOk, RegionsApart, RegionsOnDisk, Framed, MayOwn,
        ClaimedAt, CountersOf, Counted, NoRunBelow, InodeBlocks, Flat, ReadSlice, TakeBlocks, SameView, HasHeader,
        UsesExtents, Mode, ClaimedRun, ExtentsFit, InodeNum, BlocksNeeded, HeaderSet, OneEntryHeader, BitsGrow,
        NamesRun;
      ghost var s := Now();
      r := file;
      SelfFramed(s, n);
      var start;
      ok, start := AllocBlockRun(needed);
      if !ok {
        return;
      }
      ghost var mid := Now();
      RunIsUsable(s, mid, n, start, needed);
      ok, r := FillRun(n, file, start, needed, data);
      FreshWritten(s, mid, Now(), n, start, needed);
      if ok {
        RunNamed(s, Now(), r, start, needed);
      }
      CountedSame(mid, Now());
      CountedTrans(s, mid, Now(), lost == old(lost), true);
    }

    /** Puts `data` on disk for inode `n` with record `was`: in place if the first extent is long
        enough, else in a fresh run. Returns the record that names the blocks. */
    method PlaceData(n: nat, was: Inode, needed: nat, data: seq<byte>) returns (ok: bool, file: Inode)
      requires Sound() && n in live && was == Now().Ino(n) && |data| < U32_SPAN
      requires 0 < needed == BlocksNeeded(g, |data|)
      modifies device, this`lost
      ensures Sound() && Framed(old(Now()), Now(), n) && device.faults >= old(device.faults)
      ensures Now().Ino(n) == was && Now().InodeBits() == old(Now().InodeBits())
      ensures BlockBitsClaimed(old(Now()), Now(), needed)
      ensures ok ==> UsesExtents(file) && HasHeader(file) && ExtentsFit(file) && Mode(file) == Mode(was)
                     && MayOwn(Now(), n, InodeBlocks(file))
                     && ReadSlice(Flat(device.blocks, InodeBlocks(file)), 0, |data|) == data
      ensures Reusable(was, needed) ==>
        && Now().BlockBits() == old(Now().BlockBits()) && CountersOf(Now()) == old(CountersOf(Now()))
        && (ok ==> file == was && SameBehind(old(device.blocks), device.blocks, InodeBlocks(was), |data|))
      ensures ok && !Reusable(was, needed) ==> NamesRun(old(Now()), Now(), file, needed) && HeaderSet(was, file, needed)
      ensures device.faults == old(device.faults) ==> (ok <==> CanStore(old(Now()), n, |data|))
      ensures device.faults == old(device.faults) && !ok && needed < 0x8000 ==> Now() == old(Now())
      ensures !Reusable(was, needed) && NoRunBelow(old(Now().BlockBits()), needed, g.blocksPerGroup) ==>
        !ok && Now() == old(Now())
      ensures device.faults - lost >= old(device.faults - lost) && lost >= old(lost)
      ensures Counted(old(Now()), Now(), lost == old(lost))
    {
      hide Image.DescsOk, Image.Disjoint, Image.BitsOk, Image.InodesOk, RegionsApart, RegionsOnDisk, Framed, MayOwn,
        ClaimedAt, CountersOf, Counted, NoRunBelow, InodeBlocks, Flat, ReadSlice, Pos, SameView, ClaimedRun,
        ExtentsFit, Distinct, BlocksNeeded;
      ghost var s := Now();
      OwnBlocks(s, n);
      NeededFits(g, |data|);
      if UsesExtents(was) && HeaderMagic(was) == EXTENT_MAGIC {
        if HeaderDepth(was) == 0 && HeaderEntries(was) >= 1 {
          if ExtentAt(was, 0).len >= needed {
            ReusableFits(was, needed);
            PosMonotone(needed, |InodeBlocks(was)|, g.blockSize);
            ok := PutData(n, was, data);
            MayOwnStays(s, Now(), n, InodeBlocks(was));
            CountedSame(s, Now());
            return ok, was;
          }
        }
      }
      ok, file := WriteFresh(n, was, needed, data);
    }

    /** Stores `data` as the content of live inode `n`: data first, then the record. */
    method StoreContent(n: nat, data: seq<byte>) returns (ok: bool)
      requires Sound() && n in live && |data| < U32_SPAN
      modifies device, this`lost
      ensures Sound() && device.faults >= old(device.faults)
      ensures ContentStored(old(Now()), Now(), n, data, ok, device.faults == old(device.faults))
      ensures device.faults - lost >= old(device.faults - lost) && lost >= old(lost)
      ensures Counted(old(Now()), Now(), lost == old(lost))
    {
      hide Image.DescsOk, Image.Disjoint, Image.BitsOk, Image.InodesOk, RegionsApart, RegionsOnDisk, Framed, MayOwn,
        ClaimedAt, CountersOf, Counted, NoRunBelow, FinalInode, InodeBlocks, Flat, ReadSlice, Pos, SameView,
        ClaimedRun, ExtentsFit, Holds, Distinct, BlocksNeeded, Reusable, Placed, HeaderSet, NamesRun, SameBehind;
      ghost var s := Now();
      SelfFramed(s, n);
      CountedSame(s, s);
      OwnBlocks(s, n);
      NotPlaced(s, s, n, |data|);
      var file;
      ok, file := ReadInode(n);
      if !ok {
        return;
      }
      var needed := BlocksNeeded(g, |data|);
      if needed > 0 {
        ok, file := PlaceData(n, file, needed, data);
        NotPlaced(s, Now(), n, |data|);
        if !ok {
          return;
        }
      }
      ghost var mid, placed := Now(), file;
      ghost var blocks := InodeBlocks(file);
      FinalInodeFacts(file, |data|, Sectors(g, |data|));
      file := FinalInode(file, |data|, Sectors(g, |data|));
      ok := PutInode(n, file);
      FramedTrans(s, mid, Now(), n);
      CountedSame(mid, Now());
      CountedTrans(s, mid, Now(), lost == old(lost), true);
      ClaimsStay(s, mid, Now(), needed);
      if ok {
        StoredFinally(s, mid, Now(), n, blocks, data);
        PlacedFinally(s, mid, Now(), n, placed, data);
      } else {
        NotPlaced(s, Now(), n, |data|);
      }
    }

    /** Claims an inode and initialises its record as an empty regular file. */
    method PrepareInode(ghost dir: nat, ghost name: seq<byte>) returns (ok: bool, n: nat)
      requires Valid() && dir in live && IsDir(Now().Ino(dir))
      modifies device, this`lost
      ensures Valid() && device.faults >= old(device.faults)
      ensures NamesStay(old(Now()), Now(), n, dir, name) && n !in live
      ensures Now().BlockBits() == old(Now().BlockBits())
      ensures ok ==>
        Claimed(Now(), n) && n < U32_SPAN && ClaimedInode(old(Now()), Now(), n) && Now().Ino(n) == NewInode()
      ensures device.faults == old(device.faults) ==> (ok <==> HasInode(old(Now())))
      ensures device.faults == old(device.faults) && !ok ==> Now() == old(Now())
      ensures device.faults - lost >= old(device.faults - lost) && lost >= old(lost)
      ensures Counted(old(Now()), Now(), lost == old(lost))
    {
      hide Image.DescsOk, Image.Disjoint, Image.BitsOk, Image.InodesOk, RegionsApart, RegionsOnDisk, Framed,
        CountersOf, Counted, SameView, ClaimedInode, Claimed, NewInode, IsDir, SetInode, NamesStay;
      ghost var s := Now();
      ok, n := AllocInode();
      if !ok {
        NothingChanged(s, n, dir, name);
        return;
      }
      ghost var s1 := Now();
      InodeIsNew(s, s1, n, dir, name);
      ok := WriteInode(n, NewInode());
      if ok {
        InodePrepared(s, s1, Now(), n, dir, name);
        CountedTrans(s, s1, Now(), lost == old(lost), true);
      }
    }

    /** Enters a new, empty regular file under `name` in directory `dir`. A failure can leave an
        inode claimed, but never live. */
    method CreateFile(dir: nat, name: seq<byte>) returns (ok: bool, n: nat)
      requires Valid() && dir in live && IsDir(Now().Ino(dir)) && 1 <= |name|
      modifies device, this`live, this`lost
      ensures Sound() && device.faults >= old(device.faults)
      ensures live == if ok then old(live) + {n} else old(live)
      ensures Now().BlockBits() == old(Now().BlockBits())
      ensures ok ==> ClaimedInode(old(Now()), Now(), n) && Now().Ino(n) == NewInode()
      ensures n !in old(live)
      ensures !ok ==> Valid() && NamesStay(old(Now()), Now(), n, dir, EnteredName(name))
      ensures ok && EnteredName(name) != [] ==> Valid() && Created(old(Now()), Now(), n, dir, EnteredName(name))
      ensures ok && EnteredName(name) == [] ==> Torn(Now(), dir) && IsDir(Now().Ino(dir))
      ensures device.faults == old(device.faults) ==> (ok <==> HasInode(old(Now())) && HasRoom(old(Now()), dir, |name|))
      ensures device.faults == old(device.faults) && !ok ==>
        if HasInode(old(Now())) then InodeReady(old(Now()), Now(), n) else Now() == old(Now())
      ensures device.faults - lost >= old(device.faults - lost) && lost >= old(lost)
      ensures Counted(old(Now()), Now(), lost == old(lost))
    {
      hide Image.DescsOk, Image.Disjoint, Image.BitsOk, Image.InodesOk, RegionsApart, RegionsOnDisk, LookupIn,
        CountersOf, Counted, ClaimedInode, HasRoom, NewInode, NameAdded, IsDir, NamesStay, Created, EnteredName, Torn;
      ghost var s := Now();
      ok, n := PrepareInode(dir, EnteredName(name));
      if !ok {
        return;
      }
      ghost var s2 := Now();
      RoomStays(s, s2, n, dir, EnteredName(name));
      ok := AddDirEntry(dir, name, FT_REG_FILE, n);
      Entered(s, s2, Now(), n, dir, EnteredName(name));
      CountedTrans(s, s2, Now(), lost == old(lost), true);
    }

    /** Reads the file at `path` into `out`, at most `max` bytes of it. */
    method ReadFile(path: seq<byte>, out: array<byte>, max: nat) returns (ok: bool, size: nat)
      requires Sound() && max < U32_SPAN && max <= out.Length
      requires path != [] && path[0] == SLASH ==> Now().WalksLive(ROOT, Components(path))
      modifies device`faults, out
      ensures device.faults >= old(device.faults)
      ensures ok ==> size <= max && ReadBack(Now(), path, max) == Some(out[..size])
      ensures device.faults == old(device.faults) ==> (ok <==> ReadBack(Now(), path, max).Some?)
    {
      hide Image.DescsOk, Image.Disjoint, Image.BitsOk, Image.DirsOk, RegionsApart, RegionsOnDisk, Components, Flat,
        ReadSlice, ExtentsFit, InodeBlocks, HoleFree, Distinct, Image.Resolve, Image.WalksLive;
      size := 0;
      var r := ResolvePath(path);
      if r.None? || r.value.kind != FT_REG_FILE {
        return false, 0;
      }
      OwnBlocks(Now(), r.value.inode);
      assert Now().InodeOk(r.value.inode);
      var file;
      ok, file := ReadInode(r.value.inode);
      if !ok {
        return;
      }
      if !UsesExtents(file) {
        return false, 0;
      }
      var n := Min(FileSize(file), max);
      ok, size := ReadExtentBlocks(file, 0, out, n);
    }

    /** Writes `data` as the content of the file at `path`, creating the file if need be. The
        ghost result is the inode written, or claimed in vain. */
    method WriteFile(path: seq<byte>, data: seq<byte>) returns (ok: bool, ghost n: nat)
      requires Valid() && ParentLives(Now(), path) && |data| < U32_SPAN
      modifies device, this`live, this`lost
      ensures Sound() && device.faults >= old(device.faults)
      ensures Wrote(old(Now()), Now(), path, n, data, ok, device.faults == old(device.faults), lost == old(lost))
      ensures device.faults - lost >= old(device.faults - lost) && lost >= old(lost)
      ensures ok && Traceable(old(Now()), Now(), path, n) ==> ReadsAs(old(Now()), Now(), path, data)
      ensures device.faults == old(device.faults) ==> LookupHeld(old(Now()), Now(), path)
    {
      hide ReadBack, RoundTrips, LookupIn, Image.Disjoint, Image.BitsOk, Image.DescsOk, Image.DirsOk, Wrote, ReadsAs,
        LookupHeld, AimsAtDirectory;
      ok, n := WriteSteps(path, data);
      ghost var clean, booked := device.faults == old(device.faults), lost == old(lost);
      if clean {
        CleanHeld(old(Now()), Now(), path, n, data, ok, booked);
      }
      if ok && Traceable(old(Now()), Now(), path, n) {
        WroteReadsAs(old(Now()), Now(), path, n, data, clean, booked);
      }
    }

    /** The part of a write behind a lookup that found nothing; before the call requests may have
        failed since there were `faults` failures. */
    method WriteCreated(ghost path: seq<byte>, dir: nat, name: seq<byte>, data: seq<byte>, ghost faults: nat)
      returns (ok: bool, ghost n: nat)
      requires Valid() && ParentLives(Now(), path) && |data| < U32_SPAN && faults <= device.faults
      requires Parent(Now(), path).Some? && dir == Parent(Now(), path).value.inode && name == NameOf(path)
      requires device.faults == faults ==> Existing(Now(), path).None?
      modifies device, this`live, this`lost
      ensures Sound() && device.faults >= old(device.faults)
      ensures Wrote(old(Now()), Now(), path, n, data, ok, device.faults == faults, lost == old(lost))
      ensures device.faults - lost >= old(device.faults - lost) && lost >= old(lost)
    {
      hide Image.DescsOk, Image.Disjoint, Image.BitsOk, Image.DirsOk, RegionsApart, RegionsOnDisk, Wrote,
        ContentStored, Created, NamesStay, Framed, Counted, EnteredName, Torn, HeadOf, NameOf, ClaimedInode, HasRoom,
        HasInode, NewInode, Parent, Existing, ParentLives;
      ghost var s := Now();
      ParentFacts(s, path);
      var inode;
      ok, inode := CreateFile(dir, name);
      n := inode;
      if !ok {
        WroteNoFile(s, Now(), path, n, data, device.faults == faults, lost == old(lost));
        return;
      }
      ghost var created, mid := Now(), lost;
      ok := StoreContent(inode, data);
      DirtyStored(created, Now(), n, data, ok);
      CountedTrans(s, created, Now(), mid == old(lost), lost == mid);
      WroteNew(s, created, Now(), path, n, data, ok, device.faults == faults, lost == old(lost));
    }

    method WriteSteps(path: seq<byte>, data: seq<byte>) returns (ok: bool, ghost n: nat)
      requires Valid() && ParentLives(Now(), path) && |data| < U32_SPAN
      modifies device, this`live, this`lost
      ensures Sound() && device.faults >= old(device.faults)
      ensures Wrote(old(Now()), Now(), path, n, data, ok, device.faults == old(device.faults), lost == old(lost))
      ensures device.faults - lost >= old(device.faults - lost) && lost >= old(lost)
    {
      hide Image.DescsOk, Image.Disjoint, Image.BitsOk, Image.DirsOk, RegionsApart, RegionsOnDisk, Components, Wrote,
        ContentStored, Created, NamesStay, Framed, Counted, EnteredName, Torn, RunTooLong, HeadOf, NameOf, LookupIn,
        ClaimedInode, Image.Resolve, Image.WalksDirs, HasRoom, HasInode, NewInode;
      ghost var s := Now();
      n := 0;
      if path == [] || path[0] != SLASH {
        WroteNothing(s, path, n, data, true);
        WroteNothing(s, path, n, data, false);
        return false, 0;
      }
      var head, name := SplitPath(path);
      if name == [] || |head| >= 256 {
        WroteNothing(s, path, n, data, true);
        return false, 0;
      }
      AddressAgrees(path);
      var parent := ResolvePath(ParentString(head));
      if parent.None? || parent.value.kind != FT_DIR {
        WroteNothing(s, path, n, data, device.faults == old(device.faults));
        return false, 0;
      }
      var dir := parent.value.inode;
      ParentFacts(s, path);
      LookupOk(s, dir, name);
      var ino;
      ok, ino := ReadInode(dir);
      if !ok {
        WroteNothing(s, path, n, data, false);
        return;
      }
      var found := FindInDir(ino, name);
      if found.None? {
        ok, n := WriteCreated(path, dir, name, data, old(device.faults));
      } else {
        n := found.value.inode;
        ok := StoreContent(found.value.inode, data);
        WroteExisting(s, Now(), path, data, ok, device.faults == old(device.faults), lost == old(lost));
      }
    }
  }

  lemma RoomStays(s: Image, t: Image, n: nat, dir: nat, name: seq<byte>)
    requires NamesStay(s, t, n, dir, name)
    ensures forall len :: HasRoom(t, dir, len) == HasRoom(s, dir, len)
    ensures IsDir(t.Ino(dir))
  {
  }

  /** The claimed inode was not live, and claiming it changed no name and no file. */
  lemma InodeIsNew(s: Image, s1: Image, n: nat, dir: nat, name: seq<byte>)
    requires s.Valid() && s1.Sound() && Framed(s, s1, 0) && ClaimedInode(s, s1, n) && s1.BlockBits() == s.BlockBits()
    requires dir in s.live && IsDir(s.Ino(dir))
    ensures s1.Valid() && InodeNum(s.v, n) && n !in s.live && n < U32_SPAN
    ensures NamesStay(s, s1, n, dir, name)
    ensures HasInode(s)
  {
    hide Image.DescsOk, Image.Disjoint, Image.InodesOk, Image.DirsOk, RegionsApart, RegionsOnDisk, CountersOf,
      TakeInode, HasRoom, LookupIn, NamesStay, LookupsKept, FilesKept;
    NoInodeZero(s);
    DivModUnique(0, n - 1, s.v.g.inodesPerGroup);
    FramedKeepsValid(s, s1, 0);
    FramedNamesStay(s, s1, 0, n, dir, name);
    assert !Bit(s.InodeBits(), n - 1);
  }

  /** Framed steps on no live inode keep all names and all files. */
  lemma FramedNamesStay(s: Image, t: Image, target: nat, n: nat, dir: nat, name: seq<byte>)
    requires s.Valid() && t.Valid() && Framed(s, t, target) && target !in s.live
    requires dir in s.live && IsDir(s.Ino(dir))
    ensures NamesStay(s, t, n, dir, name)
  {
    hide Image.DescsOk, Image.Disjoint, Image.BitsOk, Image.InodesOk, Image.DirsOk, RegionsApart, RegionsOnDisk,
      HasRoom, LookupIn, LookupsKept, FilesKept, Image.NamesUnique, SameView, BitsGrow;
    NoInodeZero(s);
    FramedKeepsNames(s, t, target, 0, []);
    AllKept(s, t, target, n, dir, name);
    RoomKept(s, t, dir);
  }

  /** With no live inode excepted, every lookup and every file stays. */
  lemma AllKept(s: Image, t: Image, target: nat, n: nat, dir: nat, name: seq<byte>)
    requires LookupsKept(s, t, 0, []) && FilesKept(s, t, target) && 0 !in s.live && target !in s.live
    requires dir in s.live && IsDir(s.Ino(dir))
    ensures LookupsKept(s, t, dir, name) && FilesKept(s, t, n)
    ensures IsDir(t.Ino(dir)) && t.Lookup(dir, name) == s.Lookup(dir, name)
  {
    hide LookupIn, SameView, Readable;
  }

  lemma NamesStayTrans(s: Image, t: Image, u: Image, n: nat, dir: nat, name: seq<byte>)
    requires NamesStay(s, t, n, dir, name) && NamesStay(t, u, n, dir, name)
    ensures NamesStay(s, u, n, dir, name)
  {
    hide HasRoom, LookupIn;
    LookupsTrans(s, t, u, dir, name);
    FilesTrans(s, t, u, n);
  }

  lemma RoomKept(s: Image, t: Image, dir: nat)
    requires s.Shaped() && t.Shaped() && s.v == t.v && InodeNum(s.v, dir) && SameView(s, t, dir) && |s.d| == |t.d|
    ensures forall len :: HasRoom(t, dir, len) == HasRoom(s, dir, len)
  {
    hide RoomAt;
    assert t.Blocks(dir) == s.Blocks(dir);
    forall len
      ensures HasRoom(t, dir, len) == HasRoom(s, dir, len)
    {
      assert forall k :: 0 <= k < |s.Blocks(dir)| ==>
        RoomIn(t, s.Blocks(dir)[k], len) == RoomIn(s, s.Blocks(dir)[k], len);
    }
  }

  /** The record of the claimed inode is initialised, so it may be entered in a directory. */
  lemma InodePrepared(s: Image, s1: Image, s2: Image, n: nat, dir: nat, name: seq<byte>)
    requires s.Valid() && s1.Valid() && s.v == s1.v && s.live == s1.live && ClaimedInode(s, s1, n)
    requires InodeNum(s.v, n) && n !in s.live && NamesStay(s, s1, n, dir, name)
    requires s2 == s1.(d := SetInode(s1.v, s1.d, n, NewInode()))
    ensures s2.Valid() && Claimed(s2, n) && s2.Ino(n) == NewInode()
    ensures NamesStay(s, s2, n, dir, name) && ClaimedInode(s, s2, n)
    ensures s2.BlockBits() == s1.BlockBits() && Counted(s1, s2, true)
  {
    hide Image.DescsOk, Image.Disjoint, Image.InodesOk, Image.DirsOk, Image.BitsOk, RegionsApart, RegionsOnDisk,
      CountersOf, Counted, HasRoom, LookupIn, NewInode, LookupsKept, FilesKept;
    SlotWrite(s1, s2, n, NewInode());
    FramedKeepsValid(s1, s2, n);
    FramedNamesStay(s1, s2, n, n, dir, name);
    NamesStayTrans(s, s1, s2, n, dir, name);
    NewInodeFacts();
    CountersKept(s1, s2, InodeRegion(s1.v, n));
    CountedSame(s1, s2);
    assert s2.Blocks(n) == [];
  }

  lemma Entered(s: Image, s2: Image, t: Image, n: nat, dir: nat, name: seq<byte>)
    requires s2.Valid() && t.Sound() && NamesStay(s, s2, n, dir, name) && ClaimedInode(s, s2, n)
    requires s2.v == t.v && |s2.d| == |t.d|
    requires forall b :: 0 <= b < |t.d| && t.d[b] != s2.d[b] ==> DataBlock(t.v, b)
    requires t.BlockBits() == s2.BlockBits() && t.InodeBits() == s2.InodeBits()
    ensures Counted(s2, t, true) && ClaimedInode(s, t, n)
    ensures NameAdded(s2, t, dir, Entry(n, FT_REG_FILE, name)) ==> t.Valid() && Created(s, t, n, dir, name)
  {
    hide Image.DescsOk, Image.Disjoint, Image.InodesOk, Image.DirsOk, Image.BitsOk, RegionsApart, RegionsOnDisk,
      CountersOf, LookupIn, HasRoom, UniqueNames;
    CountersKeptByData(s2, t);
    CountedSame(s2, t);
    if NameAdded(s2, t, dir, Entry(n, FT_REG_FILE, name)) {
      LookupsTrans(s, s2, t, dir, name);
      FilesTrans(s, s2, t, n);
    }
  }

  lemma NothingChanged(s: Image, n: nat, dir: nat, name: seq<byte>)
    requires s.Valid() && dir in s.live && IsDir(s.Ino(dir))
    ensures NamesStay(s, s, n, dir, name)
  {
  }

  /** `file` names exactly the run that was claimed. */
  ghost predicate NamesRun(s: Image, t: Image, file: Inode, needed: nat)
    requires ExtentsFit(file)
  {
    exists block :: ClaimedRun(s, t, block, needed) && InodeBlocks(file) == Run(block, needed)
  }

  lemma RunNamed(s: Image, t: Image, file: Inode, start: nat, needed: nat)
    requires ExtentsFit(file) && needed < 0x8000 && ClaimedRun(s, t, start, needed)
    requires InodeBlocks(file) == Run(start, needed % 0x1_0000 % 0x8000)
    ensures NamesRun(s, t, file, needed)
  {
    hide ClaimedRun, InodeBlocks, ExtentsFit;
  }

  lemma ClaimsStay(s: Image, mid: Image, t: Image, needed: nat)
    requires DiskOk(s.v, s.d) && DiskOk(mid.v, mid.d) && DiskOk(t.v, t.d) && s.v == mid.v == t.v
    requires t.BlockBits() == mid.BlockBits()
    ensures forall block :: ClaimedRun(s, mid, block, needed) ==> ClaimedRun(s, t, block, needed)
    ensures BlockBitsClaimed(s, mid, needed) ==> BlockBitsClaimed(s, t, needed)
  {
    forall block | ClaimedRun(s, mid, block, needed)
      ensures ClaimedRun(s, t, block, needed)
    {
    }
  }

  /** As long as the record is as it was. */
  lemma NotPlaced(s: Image, t: Image, n: nat, size: nat)
    requires s.Shaped() && DiskOk(t.v, t.d) && s.v == t.v && InodeNum(s.v, n) && t.Ino(n) == s.Ino(n)
    requires Reusable(s.Ino(n), BlocksNeeded(s.v.g, size)) || BlocksNeeded(s.v.g, size) == 0 ==>
      t.BlockBits() == s.BlockBits() && CountersOf(t) == CountersOf(s)
    ensures Placed(s, t, n, size, false)
  {
    hide BlocksNeeded, CountersOf, InodeBlocks, Reusable;
  }

  lemma PlacedFinally(s: Image, mid: Image, t: Image, n: nat, file: Inode, data: seq<byte>)
    requires s.Sound() && mid.Sound() && t.Sound() && n in s.live && s.v == mid.v == t.v && |s.d| == |mid.d| == |t.d|
    requires |data| < U32_SPAN && ExtentsFit(file) && MayOwn(mid, n, InodeBlocks(file))
    requires forall b :: 0 <= b < |mid.d| && DataBlock(mid.v, b) ==> t.d[b] == mid.d[b]
    requires t.BlockBits() == mid.BlockBits() && CountersOf(t) == CountersOf(mid)
    requires t.Ino(n) == FinalInode(file, |data|, Sectors(s.v.g, |data|))
    requires var needed := BlocksNeeded(s.v.g, |data|);
      if needed == 0 then file == s.Ino(n) && mid == s
      else if Reusable(s.Ino(n), needed)
      then file == s.Ino(n) && mid.BlockBits() == s.BlockBits() && CountersOf(mid) == CountersOf(s)
           && SameBehind(s.d, mid.d, InodeBlocks(file), |data|)
      else HeaderSet(s.Ino(n), file, needed) && NamesRun(s, mid, file, needed)
    ensures Placed(s, t, n, |data|, true)
  {
    hide BlocksNeeded, Sectors, CountersOf, InodeBlocks, Reusable, FinalInode, HeaderSet, RecordAfter, Flat, MayOwn,
      ClearRun, SetsRun, Image.DescsOk, Image.Disjoint, Image.BitsOk, RegionsApart, RegionsOnDisk, SameBehind,
      DataBlock;
    var needed := BlocksNeeded(s.v.g, |data|);
    var stays := needed == 0 || Reusable(s.Ino(n), needed);
    FinalRecord(s.v.g, s.Ino(n), file, |data|, !stays);
    FinalInodeFacts(file, |data|, Sectors(s.v.g, |data|));
    assert t.Blocks(n) == InodeBlocks(file);
    if stays {
      assert s.InodeOk(n) && s.Blocks(n) == InodeBlocks(file);
      BehindStays(s, mid, t, n, InodeBlocks(file), |data|);
    } else {
      ClaimsStay(s, mid, t, needed);
    }
  }

  lemma BehindStays(s: Image, mid: Image, t: Image, n: nat, blocks: seq<nat>, size: nat)
    requires s.Shaped() && mid.Shaped() && t.Shaped() && s.v == mid.v == t.v && |s.d| == |mid.d| == |t.d|
    requires MayOwn(mid, n, blocks) && (mid == s || SameBehind(s.d, mid.d, blocks, size))
    requires forall b :: 0 <= b < |mid.d| && DataBlock(mid.v, b) ==> t.d[b] == mid.d[b]
    ensures SameBehind(s.d, t.d, blocks, size)
  {
    hide Flat, DataBlock, RegionsApart, RegionsOnDisk;
    forall k | 0 <= k < |blocks|
      ensures t.d[blocks[k]] == mid.d[blocks[k]]
    {
      assert DataBlock(mid.v, blocks[k]);
    }
    FlatFrame(mid.d, t.d, blocks);
  }

  lemma StoredFinally(s: Image, mid: Image, t: Image, n: nat, blocks: seq<nat>, data: seq<byte>)
    requires s.Sound() && mid.Sound() && t.Sound() && n in s.live && s.v == mid.v == t.v && s.live == mid.live == t.live
    requires |s.d| == |mid.d| == |t.d| && MayOwn(mid, n, blocks)
    requires forall b :: 0 <= b < |mid.d| && DataBlock(mid.v, b) ==> t.d[b] == mid.d[b]
    requires FileSize(t.Ino(n)) == |data| && IsDir(t.Ino(n)) == IsDir(s.Ino(n)) && t.Blocks(n) == blocks
    requires BlocksNeeded(s.v.g, |data|) == 0 ==>
      UsesExtents(t.Ino(n)) == UsesExtents(s.Ino(n)) && HasHeader(t.Ino(n)) == HasHeader(s.Ino(n)) &&
      blocks == s.Blocks(n) && mid == s
    requires BlocksNeeded(s.v.g, |data|) > 0 ==>
      UsesExtents(t.Ino(n)) && HasHeader(t.Ino(n)) && ReadSlice(Flat(mid.d, blocks), 0, |data|) == data
    ensures Holds(s, t, n, data)
  {
    hide Image.DescsOk, Image.Disjoint, Image.BitsOk, RegionsApart, RegionsOnDisk, DataBlock, Flat, BlocksNeeded,
      ReadSlice, InodeBlocks;
    assert s.InodeOk(n) && t.InodeOk(n);
    forall k | 0 <= k < |blocks|
      ensures t.d[blocks[k]] == mid.d[blocks[k]]
    {
      assert DataBlock(mid.v, blocks[k]);
    }
    FlatFrame(mid.d, t.d, blocks);
  }

  /** A claimed run was there to be found, and its blocks may become those of inode `n`. */
  lemma RunIsUsable(s: Image, mid: Image, n: nat, start: nat, needed: nat)
    requires s.Sound() && mid.Sound() && Framed(s, mid, 0) && ClaimedRun(s, mid, start, needed)
    ensures start < U32_SPAN && !NoRunBelow(s.BlockBits(), needed, s.v.g.blocksPerGroup)
    ensures MayOwn(mid, n, Run(start, needed % 0x1_0000 % 0x8000))
  {
    hide Image.DescsOk, Image.Disjoint, Image.BitsOk, Image.InodesOk, RegionsApart, RegionsOnDisk, Framed, MayOwn,
      Bit;
    var at := start - s.v.g.firstDataBlock;
    FreshBlocks(s, mid, n, at, needed, needed % 0x1_0000 % 0x8000);
  }

  lemma FreshWritten(s: Image, mid: Image, t: Image, n: nat, start: nat, needed: nat)
    requires s.Sound() && mid.Sound() && Framed(s, mid, 0) && ClaimedRun(s, mid, start, needed)
    requires t.Sound() && Framed(mid, t, n) && t.BlockBits() == mid.BlockBits()
    requires forall m :: InodeNum(mid.v, m) ==> t.Ino(m) == mid.Ino(m)
    ensures Framed(s, t, n) && ClaimedRun(s, t, start, needed)
    ensures forall m :: m in s.live ==> t.Ino(m) == s.Ino(m)
  {
    hide Image.DescsOk, Image.Disjoint, Image.BitsOk, Image.InodesOk, RegionsApart, RegionsOnDisk, SetsRun, ClearRun;
    NoInodeZero(s);
    FramedWiden(s, mid, n);
    FramedTrans(s, mid, t, n);
    forall m | m in s.live
      ensures t.Ino(m) == s.Ino(m)
    {
      assert SameView(s, mid, m);
    }
  }

  lemma SelfFramed(s: Image, n: nat)
    requires s.Shaped() && s.DescsOk()
    ensures Framed(s, s, n)
  {
  }

  /** Writes inside the blocks of `ino` change the view of `n` at most. */
  lemma DataWritten(s: Image, t: Image, n: nat, ino: Inode)
    requires s.Sound() && n in s.live && ExtentsFit(ino) && MayOwn(s, n, InodeBlocks(ino))
    requires t.v == s.v && t.live == s.live && |t.d| == |s.d| && t.Shaped()
    requires forall b :: 0 <= b < |s.d| && b !in InodeBlocks(ino) ==> t.d[b] == s.d[b]
    ensures t.Sound() && Framed(s, t, n)
    ensures forall m :: InodeNum(s.v, m) ==> t.Ino(m) == s.Ino(m)
    ensures t.BlockBits() == s.BlockBits() && t.InodeBits() == s.InodeBits()
    ensures CountersOf(t) == CountersOf(s)
  {
    hide BlockList, RegionsApart, RegionsOnDisk, CountersOf, Image.DescsOk, Image.Disjoint, Image.BitsOk;
    DataWrites(s, t, n);
    SameRecords(s, t);
    CountersKeptByData(s, t);
  }

  lemma StoredReads(d: Disk, e: Disk, blocks: seq<nat>, blockSize: nat, data: seq<byte>)
    requires OnDisk(d, blocks) && OnDisk(e, blocks) && Sized(d, blockSize)
    requires Flat(e, blocks) == Overlay(Flat(d, blocks), 0, data)
    requires data == [] || |data| <= Pos(|blocks|, blockSize)
    ensures ReadSlice(Flat(e, blocks), 0, |data|) == data
    ensures SameBehind(d, e, blocks, |data|)
  {
    hide Flat;
    FlatLength(d, blocks, blockSize);
    OverlayReads(Flat(d, blocks), 0, data);
  }

  lemma RecordWritten(s: Image, t: Image, n: nat, ino: Inode)
    requires s.Sound() && n in s.live && ExtentsFit(ino) && MayOwn(s, n, InodeBlocks(ino))
    requires t == s.(d := SetInode(s.v, s.d, n, ino))
    ensures t.Sound() && Framed(s, t, n) && t.Ino(n) == ino
    ensures t.BlockBits() == s.BlockBits() && t.InodeBits() == s.InodeBits()
    ensures CountersOf(t) == CountersOf(s)
    ensures forall b :: 0 <= b < |s.d| && DataBlock(s.v, b) ==> t.d[b] == s.d[b]
  {
    hide BlockList, RegionsApart, RegionsOnDisk, CountersOf, Image.DescsOk, Image.Disjoint, Image.BitsOk;
    SlotWrite(s, t, n, ino);
    CountersKept(s, t, InodeRegion(s.v, n));
    NowOwns(s, t, n);
    FramedKeepsSound(s, t, n);
  }

  lemma NowOwns(s: Image, t: Image, n: nat)
    requires s.Sound() && n in s.live && Framed(s, t, n) && t.Shaped() && ExtentsFit(t.Ino(n))
    requires MayOwn(s, n, t.Blocks(n)) && t.BlockBits() == s.BlockBits()
    ensures OwnsApart(t, n)
  {
    hide RegionsApart, RegionsOnDisk, Image.DescsOk, Image.Disjoint, Image.BitsOk;
    forall k | 0 <= k < |t.Blocks(n)|
      ensures t.Marked(t.Blocks(n)[k])
    {
      MarkedSame(s, t, t.Blocks(n)[k]);
    }
    forall m, i, k | m in t.live && m != n && 0 <= i < |t.Blocks(m)| && 0 <= k < |t.Blocks(n)|
      ensures t.Blocks(m)[i] != t.Blocks(n)[k]
    {
      assert SameView(s, t, m);
      assert t.Blocks(m) == s.Blocks(m) && t.Blocks(m)[i] in s.Blocks(m);
    }
  }

  lemma EmptyPath(p: seq<byte>)
    requires p == []
    ensures Components(p) == []
  {
  }

  method SkipSlashes(path: seq<byte>, from: nat) returns (p: nat)
    requires from <= |path|
    ensures from <= p <= |path| && (p < |path| ==> path[p] != SLASH)
    ensures Components(path[p..]) == Components(path[from..])
  {
    hide Components;
    p := from;
    while p < |path| && path[p] == SLASH
      invariant from <= p <= |path| && Components(path[p..]) == Components(path[from..])
    {
      SkipSlash(path, p);
      p := p + 1;
    }
  }

  lemma NothingYet(d: Disk, name: seq<byte>)
    ensures OnDisk(d, []) && FindEntry(DirEntries(d, []), name).None?
  {
  }

  /** What an insertion of `name` for inode `n` into `dir` did: on success the entry is there under
      its entered name, or, for a length that leaves no name, the block is torn; else nothing changed. */
  ghost predicate Inserted(s: Image, t: Image, dir: nat, name: seq<byte>, kind: byte, n: nat, ok: bool) {
    && s.Sound() && t.Sound() && t.v == s.v && |t.d| == |s.d| && InodeNum(s.v, dir)
    && t.live == (if ok then s.live + {n} else s.live) && (!ok ==> t == s)
    && (forall b :: 0 <= b < |t.d| && t.d[b] != s.d[b] ==> DataBlock(s.v, b))
    && (forall m :: InodeNum(s.v, m) ==> t.Ino(m) == s.Ino(m))
    && t.BlockBits() == s.BlockBits() && t.InodeBits() == s.InodeBits()
    && (ok && EnteredName(name) != [] ==> NameAdded(s, t, dir, Entry(n, kind, EnteredName(name))))
    && (ok && EnteredName(name) == [] ==> Torn(t, dir))
  }

  /** Nothing on disk changed but block `b`, whose first record with room was split. */
  ghost predicate BlockSplit(s: Image, t: Image, b: nat, n: nat, kind: byte, name: seq<byte>) {
    b < |s.d| == |t.d| && t.d == s.d[b := t.d[b]] && IsSplitOf(s.d[b], t.d[b], n, kind, name)
  }

  /** That block is the first of the directory with room. */
  ghost predicate FirstRoomSplit(s: Image, t: Image, dir: nat, n: nat, kind: byte, name: seq<byte>) {
    && DiskOk(s.v, s.d) && InodeNum(s.v, dir)
    && exists k :: 0 <= k < |s.Blocks(dir)| && BlockSplit(s, t, s.Blocks(dir)[k], n, kind, name)
         && forall j :: 0 <= j < k ==> !RoomIn(s, s.Blocks(dir)[j], |name|)
  }

  /** Only the bytes from `off` on in block `b` changed, to `bytes`. */
  ghost predicate WindowReplaced(s: Image, t: Image, b: nat, off: nat, bytes: seq<byte>) {
    && b < |s.d| == |t.d| && (forall c :: 0 <= c < |s.d| && c != b ==> t.d[c] == s.d[c])
    && |t.d[b]| == |s.d[b]|
    && forall i :: 0 <= i < |s.d[b]| ==> t.d[b][i] == if off <= i < off + |bytes| then bytes[i - off] else s.d[b][i]
  }

  /** Only the superblock changed: its 104 known bytes are `raw`, its others zero. */
  ghost predicate SuperReplaced(s: Image, t: Image, raw: seq<byte>) {
    && |raw| == 104
    && exists rest: seq<byte> :: |rest| == 920 && (forall i :: 0 <= i < 920 ==> rest[i] == 0)
         && WindowReplaced(s, t, SuperBlock(s.v.g), SuperOff(s.v.g), raw + rest)
  }

  lemma SuperZeros(s: Image, t: Image, raw: seq<byte>, bytes: seq<byte>)
    requires s.v == t.v && |raw| == SUPER_RAW && bytes == SuperImage(raw) && SuperBlock(s.v.g) < |s.d|
    requires SuperOff(s.v.g) + |bytes| <= |s.d[SuperBlock(s.v.g)]|
    requires t.d == s.d[SuperBlock(s.v.g) := Splice(s.d[SuperBlock(s.v.g)], SuperOff(s.v.g), bytes)]
    ensures SuperReplaced(s, t, raw)
  {
    var rest := bytes[104..];
    assert bytes == raw + rest;
    assert WindowReplaced(s, t, SuperBlock(s.v.g), SuperOff(s.v.g), raw + rest);
  }

  lemma NothingInserted(s: Image, dir: nat, name: seq<byte>, kind: byte, n: nat)
    requires s.Sound() && InodeNum(s.v, dir)
    ensures Inserted(s, s, dir, name, kind, n, false)
  {
  }

  /** Where the descriptor of group 0 says its bitmaps are. */
  lemma BitmapPlaces(s: Image)
    requires s.Shaped() && s.DescsOk()
    ensures Within(s.v, BlockBitmap(0)) && U32(DescBytes(s.v, s.d, 0), 0) == At(s.v, BlockBitmap(0)) < |s.d|
    ensures Within(s.v, InodeBitmap(0)) && U32(DescBytes(s.v, s.d, 0), 4) == At(s.v, InodeBitmap(0)) < |s.d|
    ensures s.d[At(s.v, BlockBitmap(0))] == s.BlockBits() && s.d[At(s.v, InodeBitmap(0))] == s.InodeBits()
  {
    assert DescRecords(s.v, s.d, 0);
  }

  lemma NumberedFacts(s: Image, n: nat)
    requires s.Shaped() && InodeNum(s.v, n)
    ensures GeometryOk(s.v.g) && 1 <= n && InodeGroup(s.v.g, n) < |s.v.groups|
  {
  }

  /** Where the record of inode `n` is, in the terms of its group's descriptor. */
  lemma InodePlace(s: Image, n: nat)
    requires s.Shaped() && s.DescsOk() && InodeNum(s.v, n)
    requires GeometryOk(s.v.g) && 1 <= n && InodeGroup(s.v.g, n) < |s.v.groups|
    ensures InodeBlock(s.v, n)
         == U32(DescBytes(s.v, s.d, InodeGroup(s.v.g, n)), 8) + SlotBlock(s.v.g, InodeIndex(s.v.g, n))
    ensures InodeOff(s.v, n) == SlotOff(s.v.g, InodeIndex(s.v.g, n))
  {
    hide InodeGroup, InodeIndex, GeometryOk, RegionsApart, SlotBlock, SlotOff;
    assert DescRecords(s.v, s.d, InodeGroup(s.v.g, n));
  }

  /** The split of block `k` of `dir` as the insertion wrote it. */
  lemma EntryStored(s: Image, t: Image, dir: nat, k: nat, n: nat, kind: byte, name: seq<byte>)
    requires s.Valid() && dir in s.live && IsDir(s.Ino(dir)) && k < |s.Blocks(dir)| && s.Blocks(dir)[k] < |s.d|
    requires Claimed(s, n) && n < 0x1_0000_0000 && Stored(s, t, s.Blocks(dir)[k], n) && kind != FT_DIR && 1 <= |name|
    requires IsSplitOf(s.d[s.Blocks(dir)[k]], t.d[s.Blocks(dir)[k]], n, kind, name)
    ensures t.Sound() && DataBlock(s.v, s.Blocks(dir)[k])
    ensures forall m :: InodeNum(s.v, m) ==> t.Ino(m) == s.Ino(m)
    ensures t.BlockBits() == s.BlockBits() && t.InodeBits() == s.InodeBits()
    ensures EnteredName(name) != [] ==> NameAdded(s, t, dir, Entry(n, kind, EnteredName(name)))
    ensures EnteredName(name) == [] ==> Torn(t, dir)
  {
    hide IsSplitOf, NameAdded, Claimed, Stored, Torn, Image.Disjoint, Image.BitsOk, Image.DescsOk, Image.DirsOk,
      RegionsApart;
    StoredIsSound(s, t, dir, k, n);
    if EnteredName(name) != [] {
      EntryNamed(s, t, dir, k, n, kind, name);
    } else {
      StoredBasics(s, t, s.Blocks(dir)[k], n);
      EntryTears(s, t, dir, k, n, kind, name);
    }
  }

  lemma StoredBasics(s: Image, t: Image, b: nat, n: nat)
    requires s.Shaped() && Claimed(s, n) && Stored(s, t, b, n)
    ensures 0 < n && t.v == s.v && |t.d| == |s.d| && s.live <= t.live
  {
  }

  lemma EntryNamed(s: Image, t: Image, dir: nat, k: nat, n: nat, kind: byte, name: seq<byte>)
    requires s.Valid() && dir in s.live && IsDir(s.Ino(dir)) && k < |s.Blocks(dir)| && s.Blocks(dir)[k] < |s.d|
    requires Claimed(s, n) && n < 0x1_0000_0000 && Stored(s, t, s.Blocks(dir)[k], n) && kind != FT_DIR
    requires EnteredName(name) != [] && IsSplitOf(s.d[s.Blocks(dir)[k]], t.d[s.Blocks(dir)[k]], n, kind, name)
    ensures NameAdded(s, t, dir, Entry(n, kind, EnteredName(name)))
  {
    hide IsSplitOf, RoomAt, IsSplit, NameAdded, Image.Disjoint, Image.BitsOk, Image.DescsOk, Image.DirsOk,
      Image.InodesOk, RegionsApart, Bit, Claimed, Stored, EnteredName;
    StoredBasics(s, t, s.Blocks(dir)[k], n);
    EnteredBound(name);
    var at := SplitFound(s.d[s.Blocks(dir)[k]], t.d[s.Blocks(dir)[k]], n, kind, name);
    NameStored(s, t, dir, k, at, Align4(8 + |name|), Entry(n, kind, EnteredName(name)));
  }

  lemma EnteredBound(name: seq<byte>)
    ensures |EnteredName(name)| <= 255 && (EnteredName(name) != [] ==> name != [])
  {
  }

  lemma EntryTears(s: Image, t: Image, dir: nat, k: nat, n: nat, kind: byte, name: seq<byte>)
    requires s.Valid() && t.Shaped() && s.v == t.v && dir in s.live && IsDir(s.Ino(dir))
    requires k < |s.Blocks(dir)| && s.Blocks(dir)[k] < |s.d| == |t.d| && t.Ino(dir) == s.Ino(dir)
    requires 0 < n < 0x1_0000_0000 && 1 <= |name| && EnteredName(name) == []
    requires IsSplitOf(s.d[s.Blocks(dir)[k]], t.d[s.Blocks(dir)[k]], n, kind, name)
    ensures Torn(t, dir)
  {
    hide IsSplitOf, RoomAt, IsSplit, Image.Disjoint, Image.BitsOk, Image.DescsOk, RegionsApart, Bit, Tiled,
      DirEntries;
    var b, c := s.d[s.Blocks(dir)[k]], t.d[s.Blocks(dir)[k]];
    assert s.InodeOk(dir) && s.DirOk(dir);
    var at := SplitFound(b, c, n, kind, name);
    SplitTears(b, c, 0, at, Align4(8 + |name|), Entry(n, kind, []));
    assert t.Blocks(dir)[k] == s.Blocks(dir)[k];
  }

  lemma SplitFound(b: seq<byte>, c: seq<byte>, n: nat, kind: byte, name: seq<byte>) returns (at: nat)
    requires 0 < n < 0x1_0000_0000 && 1 <= |name| && IsSplitOf(b, c, n, kind, name)
    ensures RoomAt(b, 0, Align4(8 + |name|)) == Some(at) && IsSplit(b, c, at, Entry(n, kind, EnteredName(name)))
  {
    hide RoomAt, SplitAt, IsSplit, UsedAt;
    at := RoomAt(b, 0, Align4(8 + |name|)).value;
    SplitIsSplit(b, at, n, kind, name);
  }

  lemma DataBlockMounted(s: Image, t: Image, b: nat)
    requires s.Shaped() && s.DescsOk() && b < |t.d| == |s.d| && DataBlock(s.v, b) && |t.d[b]| == s.v.g.blockSize
    requires t == s.(d := s.d[b := t.d[b]])
    ensures t.Shaped() && t.DescsOk()
  {
    DescsKept(s, b, t.d[b]);
  }

  lemma BitmapKeepsCounters(s: Image, t: Image, r: Region)
    requires DiskOk(s.v, s.d) && DiskOk(t.v, t.d) && t.v == s.v && Within(s.v, r) && At(s.v, r) < |t.d| == |s.d|
    requires r == BlockBitmap(0) || r == InodeBitmap(0)
    requires t.d == s.d[At(s.v, r) := t.d[At(s.v, r)]]
    ensures CountersOf(t) == CountersOf(s)
    ensures DescBytes(t.v, t.d, 0) == DescBytes(s.v, s.d, 0) && SuperRaw(t.v, t.d) == SuperRaw(s.v, s.d)
    ensures DescBlock(s.v.g, 0) < |s.d| && t.d[DescBlock(s.v.g, 0)] == s.d[DescBlock(s.v.g, 0)]
  {
    DescRegion(s.v, 0);
    assert Within(s.v, Super) && At(s.v, Super) == SuperBlock(s.v.g);
    assert At(s.v, Desc(0)) == DescBlock(s.v.g, 0);
    assert t.d[SuperBlock(s.v.g)] == s.d[SuperBlock(s.v.g)];
    assert t.d[DescBlock(s.v.g, 0)] == s.d[DescBlock(s.v.g, 0)];
  }

  /** Writing back the block bitmap with a claimed run. */
  lemma RunClaimed(s: Image, t: Image, bits: seq<byte>, start: nat, count: nat)
    requires s.Sound() && |bits| == s.v.g.blockSize && start + count <= s.v.g.blocksPerGroup
    requires SetsRun(s.BlockBits(), bits, start, count)
    requires t == s.(d := s.d[At(s.v, BlockBitmap(0)) := bits])
    ensures t.Sound() && Framed(s, t, 0) && t.BlockBits() == bits && t.InodeBits() == s.InodeBits()
    ensures CountersOf(t) == CountersOf(s)
    ensures DescBytes(t.v, t.d, 0) == DescBytes(s.v, s.d, 0) && SuperRaw(t.v, t.d) == SuperRaw(s.v, s.d)
    ensures DescBlock(s.v.g, 0) < |s.d| && t.d[DescBlock(s.v.g, 0)] == s.d[DescBlock(s.v.g, 0)]
  {
    BitmapWrite(s, t, BlockBitmap(0), bits);
    BitmapKeepsCounters(s, t, BlockBitmap(0));
  }

  lemma BlocksTaken(s: Image, t: Image, count: nat, booked: bool)
    requires DiskOk(s.v, s.d) && DiskOk(t.v, t.d) && t.v == s.v
    requires var was := DescBytes(s.v, s.d, 0);
      DescBytes(t.v, t.d, 0) == if booked then PutU16(was, 12, Less(U16(was, 12), count)) else was
    requires var was := SuperRaw(s.v, s.d);
      SuperRaw(t.v, t.d) == PutU32(was, 12, Less(U32(was, 12), count)) || SuperRaw(t.v, t.d) == was
    ensures TookBlocks(CountersOf(s), CountersOf(t), count, booked)
    ensures booked && SuperRaw(t.v, t.d) == PutU32(SuperRaw(s.v, s.d), 12, Less(U32(SuperRaw(s.v, s.d), 12), count)) ==>
      CountersOf(t) == TakeBlocks(CountersOf(s), count)
  {
  }

  /** Writing back the inode bitmap with a claimed bit. */
  lemma BitClaimed(s: Image, t: Image, bits: seq<byte>, index: nat)
    requires s.Sound() && |bits| == s.v.g.blockSize && index < s.v.g.inodesPerGroup
    requires SetsRun(s.InodeBits(), bits, index, 1)
    requires t == s.(d := s.d[At(s.v, InodeBitmap(0)) := bits])
    ensures t.Sound() && Framed(s, t, 0) && t.InodeBits() == bits && t.BlockBits() == s.BlockBits()
    ensures CountersOf(t) == CountersOf(s)
    ensures DescBytes(t.v, t.d, 0) == DescBytes(s.v, s.d, 0) && SuperRaw(t.v, t.d) == SuperRaw(s.v, s.d)
    ensures DescBlock(s.v.g, 0) < |s.d| && t.d[DescBlock(s.v.g, 0)] == s.d[DescBlock(s.v.g, 0)]
  {
    BitmapWrite(s, t, InodeBitmap(0), bits);
    BitmapKeepsCounters(s, t, InodeBitmap(0));
  }

  lemma InodeTaken(s: Image, t: Image, booked: bool)
    requires DiskOk(s.v, s.d) && DiskOk(t.v, t.d) && t.v == s.v
    requires var was := DescBytes(s.v, s.d, 0);
      DescBytes(t.v, t.d, 0) == if booked then PutU16(was, 14, Less(U16(was, 14), 1)) else was
    requires var was := SuperRaw(s.v, s.d);
      SuperRaw(t.v, t.d) == PutU32(was, 16, Less(U32(was, 16), 1)) || SuperRaw(t.v, t.d) == was
    ensures TookInode(CountersOf(s), CountersOf(t), booked)
    ensures booked && SuperRaw(t.v, t.d) == PutU32(SuperRaw(s.v, s.d), 16, Less(U32(SuperRaw(s.v, s.d), 16), 1)) ==>
      CountersOf(t) == TakeInode(CountersOf(s))
  {
  }
}
