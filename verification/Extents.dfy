/** Inode records, their in-inode extent lists, and files as flat byte strings over the
    blocks the extents name (fs/ext4/ext4.c, ext4_read_extent_blocks and
    ext4_write_extent_blocks). */
module Extents {
  import opened Bytes
  import opened Storage

  const EXTENTS_FL := 0x80000
  const EXTENT_MAGIC := 0xF30A

  /** The bytes of one inode record. */
  type Inode = s: seq<byte> | |s| == 128 witness seq(128, _ => 0)

  datatype Extent = Extent(first: nat, len: nat, start: nat)

  function Mode(ino: Inode): nat { U16(ino, 0) }

  function SizeLo(ino: Inode): nat { U32(ino, 4) }

  function SizeHigh(ino: Inode): nat { U32(ino, 108) }

  function Flags(ino: Inode): nat { U32(ino, 32) }

  function HeaderMagic(ino: Inode): nat { U16(ino, 40) }

  function HeaderEntries(ino: Inode): nat { U16(ino, 42) }

  function HeaderDepth(ino: Inode): nat { U16(ino, 46) }

  /** The file type bits of the mode say "directory". */
  predicate IsDir(ino: Inode) {
    Mode(ino) / 0x1000 == 4
  }

  /** `i_flags & EXT4_EXTENTS_FL`. */
  predicate UsesExtents(ino: Inode) {
    Flags(ino) / EXTENTS_FL % 2 == 1
  }

  /** The header the extent code accepts: right magic, depth 0. */
  predicate HasHeader(ino: Inode) {
    HeaderMagic(ino) == EXTENT_MAGIC && HeaderDepth(ino) == 0
  }

  /** At most the four extents that fit behind the header inside the inode. */
  predicate ExtentsFit(ino: Inode) {
    HasHeader(ino) ==> HeaderEntries(ino) <= 4
  }

  /** Extent number `i`: the length drops the top bit, the start has 48 bits. */
  function ExtentAt(ino: Inode, i: nat): Extent
    requires i < 4
  {
    var off := 52 + 12 * i;
    Extent(U32(ino, off), U16(ino, off + 4) % 0x8000, U16(ino, off + 6) * 0x1_0000_0000 + U32(ino, off + 8))
  }

  /** The twelve bytes of an extent. */
  function ExtentBytes(e: Extent): (r: seq<byte>)
    requires e.first < 0x1_0000_0000 && e.len < 0x1_0000 && e.start < 0x1_0000_0000_0000
    ensures |r| == 12
  {
    LE32(e.first) + LE16(e.len) + LE16(e.start / 0x1_0000_0000) + LE32(e.start % 0x1_0000_0000)
  }

  /** An extent that is stored in its place behind the header reads back, whatever else the record
      holds; only 15 bits of the length count. */
  lemma ExtentReads(ino: Inode, i: nat, e: Extent)
    requires i < 4 && e.first < 0x1_0000_0000 && e.len < 0x1_0000 && e.start < 0x1_0000_0000_0000
    ensures ExtentAt(Splice(ino, 52 + 12 * i, ExtentBytes(e)), i) == e.(len := e.len % 0x8000)
  {
    var b, off := ExtentBytes(e), 52 + 12 * i;
    var r := Splice(ino, off, b);
    var w, x, y, z := LE32(e.first), LE16(e.len), LE16(e.start / 0x1_0000_0000), LE32(e.start % 0x1_0000_0000);
    assert b[..4] == w && b[4..6] == x && b[6..8] == y && b[8..12] == z;
    assert forall j :: 0 <= j < 12 ==> r[off + j] == b[j];
    FieldAt(r, off, w);
    FieldAt(r, off + 8, z);
  }

  lemma FieldAt(r: seq<byte>, off: nat, w: seq<byte>)
    requires |w| == 4 && off + 4 <= |r| && forall j :: 0 <= j < 4 ==> r[off + j] == w[j]
    ensures U32(r, off) == U32(w, 0)
  {
    assert r[off] == w[0] && r[off + 1] == w[1] && r[off + 2] == w[2] && r[off + 3] == w[3];
  }

  function ExtentList(ino: Inode): seq<Extent>
    requires ExtentsFit(ino)
  {
    if HasHeader(ino) then seq(HeaderEntries(ino), i requires 0 <= i < HeaderEntries(ino) => ExtentAt(ino, i)) else []
  }

  /** The physical blocks of the extents, in file order. */
  function BlockList(es: seq<Extent>): seq<nat> {
    if es == [] then [] else
      var last := es[|es| - 1];
      BlockList(es[..|es| - 1]) + Run(last.start, last.len)
  }

  function InodeBlocks(ino: Inode): seq<nat>
    requires ExtentsFit(ino)
  {
    BlockList(ExtentList(ino))
  }

  lemma BlockListStep(es: seq<Extent>, i: nat)
    requires i < |es|
    ensures BlockList(es[..i + 1]) == BlockList(es[..i]) + Run(es[i].start, es[i].len)
  {
    assert es[..i + 1][..i] == es[..i];
  }

  lemma {:induction false} BlockListPrefix(es: seq<Extent>, i: nat)
    requires i <= |es|
    ensures BlockList(es[..i]) <= BlockList(es)
    decreases |es| - i
  {
    if i == |es| {
      assert es[..i] == es;
    } else {
      BlockListStep(es, i);
      BlockListPrefix(es, i + 1);
    }
  }

  lemma BlockListEmpty(es: seq<Extent>)
    ensures BlockList(es[..0]) == []
  {
  }

  lemma BlockListFull(es: seq<Extent>)
    ensures BlockList(es[..|es|]) == BlockList(es)
  {
    assert es[..|es|] == es;
  }

  /** Sorted extents without holes: each starts at the file block where the previous ended. */
  predicate HoleFree(es: seq<Extent>) {
    forall i :: 0 <= i < |es| ==> es[i].first == |BlockList(es[..i])|
  }

  /** The bytes a read of `size` bytes at `off` returns: the slice, cut at the capacity. */
  function ReadSlice(f: seq<byte>, off: nat, size: nat): (r: seq<byte>)
    ensures |r| == if off >= |f| then 0 else Min(size, |f| - off)
  {
    if off >= |f| then [] else f[off..off + Min(size, |f| - off)]
  }

  /** The file after a write of `data` at `off`: the part that fits is stored. */
  function Overlay(f: seq<byte>, off: nat, data: seq<byte>): (r: seq<byte>)
    ensures |r| == |f|
  {
    if off >= |f| then f else Splice(f, off, data[..Min(|data|, |f| - off)])
  }

  /** How many bytes are transferred once the first `k` blocks are behind. */
  function Progress(k: nat, blockSize: nat, off: nat, size: nat): (t: nat)
    ensures t <= size
  {
    if Pos(k, blockSize) <= off then 0 else Min(Pos(k, blockSize) - off, size)
  }

  /** Position, start inside the block and length of the copy for block `k`. */
  lemma CopyWindow(k: nat, blockSize: nat, off: nat, size: nat)
    requires 0 < blockSize && Progress(k, blockSize, off, size) < size
    ensures Pos(k, blockSize) + blockSize <= off ==>
      Progress(k + 1, blockSize, off, size) == 0 == Progress(k, blockSize, off, size)
    ensures Pos(k, blockSize) + blockSize > off ==>
      var t := Progress(k, blockSize, off, size);
      var from := if off > Pos(k, blockSize) then off - Pos(k, blockSize) else 0;
      && from < blockSize && Pos(k, blockSize) + from == off + t
      && Progress(k + 1, blockSize, off, size) == t + Min(blockSize - from, size - t)
  {
    PosStep(k, blockSize);
  }

  /** One block of the write loop advances the overlay. */
  lemma OverlayStep(f: seq<byte>, off: nat, data: seq<byte>, t: nat, len: nat, at: nat, from: nat, blk: seq<byte>)
    requires t + len <= |data| && off + t + len <= |f| && off + t == at + from && from + len <= |blk|
    requires at + |blk| <= |f| && off < |f|
    requires Overlay(f, off, data[..t])[at..at + |blk|] == blk
    ensures Splice(Overlay(f, off, data[..t]), at, Splice(blk, from, data[t..t + len]))
         == Overlay(f, off, data[..t + len])
  {
    var g := Overlay(f, off, data[..t]);
    assert data[..t][..t] == data[..t] && data[..t + len][..t + len] == data[..t + len];
    SpliceStep(f, off, data, t, len, at, from, blk);
  }

  lemma SpliceStep(f: seq<byte>, off: nat, data: seq<byte>, t: nat, len: nat, at: nat, from: nat, blk: seq<byte>)
    requires t + len <= |data| && off + t + len <= |f| && off + t == at + from && from + len <= |blk|
    requires at + |blk| <= |f| && Splice(f, off, data[..t])[at..at + |blk|] == blk
    ensures Splice(Splice(f, off, data[..t]), at, Splice(blk, from, data[t..t + len]))
         == Splice(f, off, data[..t + len])
  {
    var g := Splice(f, off, data[..t]);
    forall i | 0 <= i < |blk|
      ensures g[at + i] == blk[i]
    {
      assert g[at..at + |blk|][i] == blk[i];
    }
  }

  lemma SubSlice(f: seq<byte>, a: nat, b: nat, i: nat, j: nat)
    requires a <= b <= |f| && i <= j <= b - a
    ensures f[a..b][i..j] == f[a + i..a + j]
  {
    assert forall k :: 0 <= k < j - i ==> f[a..b][i..j][k] == f[a + i..a + j][k];
  }

  /** One block of the read loop advances the slice. */
  lemma SliceStep(f: seq<byte>, off: nat, t: nat, len: nat, at: nat, from: nat, blk: seq<byte>)
    requires off + t + len <= |f| && off + t == at + from && from + len <= |blk|
    requires at + |blk| <= |f| && f[at..at + |blk|] == blk
    ensures f[off..off + t] + blk[from..from + len] == f[off..off + t + len]
  {
    SubSlice(f, at, at + |blk|, from, from + len);
    assert f[off..off + t] + f[off + t..off + t + len] == f[off..off + t + len];
  }

  /** What was written is what is read back, and bytes outside the write are untouched. */
  lemma OverlayReads(f: seq<byte>, off: nat, data: seq<byte>)
    ensures off + |data| <= |f| ==> ReadSlice(Overlay(f, off, data), off, |data|) == data
    ensures forall i :: 0 <= i < |f| ==>
      Overlay(f, off, data)[i] == if off <= i < off + |data| then data[i - off] else f[i]
  {
    if off < |f| && off + |data| <= |f| {
      assert data[..|data|] == data;
    }
  }

  /** A slice of the file, byte by byte. */
  lemma SliceReads(f: seq<byte>, off: nat, size: nat)
    ensures forall i :: 0 <= i < |ReadSlice(f, off, size)| ==> ReadSlice(f, off, size)[i] == f[off + i]
    ensures off + |ReadSlice(f, off, size)| >= |f| || |ReadSlice(f, off, size)| == size
  {
  }

  /** The file block number the loop computes for block `b` of an extent, in 32 bits. */
  function FileBlock(e: Extent, b: nat): nat {
    (e.first + b) % 0x1_0000_0000
  }

  lemma {:induction false} BlockListBound(es: seq<Extent>, max: nat)
    requires forall i :: 0 <= i < |es| ==> es[i].len <= max
    ensures |BlockList(es)| <= |es| * max
  {
    if es != [] {
      BlockListBound(es[..|es| - 1], max);
      assert |es| * max == (|es| - 1) * max + max;
    }
  }

  /** In a hole-free list the computed number of the `b`-th block of extent `i` is its position. */
  lemma FileBlockIsPosition(es: seq<Extent>, i: nat, b: nat)
    requires HoleFree(es) && i < |es| <= 4 && b < es[i].len
    requires forall j :: 0 <= j < |es| ==> es[j].len < 0x8000
    ensures FileBlock(es[i], b) == |BlockList(es[..i])| + b
  {
    BlockListBound(es[..i], 0x8000);
  }

  /** Block `b` of extent `i` is the file's block at its position. */
  lemma BlockAt(es: seq<Extent>, i: nat, b: nat)
    requires i < |es| && b < es[i].len
    ensures |BlockList(es[..i])| + b < |BlockList(es)|
    ensures BlockList(es)[|BlockList(es[..i])| + b] == es[i].start + b
    ensures |BlockList(es[..i + 1])| == |BlockList(es[..i])| + es[i].len <= |BlockList(es)|
  {
    BlockListStep(es, i);
    BlockListPrefix(es, i + 1);
    assert BlockList(es[..i + 1])[|BlockList(es[..i])| + b] == Run(es[i].start, es[i].len)[b];
  }

  /** The loop state after `k` blocks of a transfer of `size` bytes from `off`. */
  lemma ProgressFits(blocks: nat, k: nat, blockSize: nat, off: nat, size: nat)
    requires k <= blocks
    ensures Pos(k, blockSize) <= Pos(blocks, blockSize)
    ensures 0 < Progress(k, blockSize, off, size) ==> off + Progress(k, blockSize, off, size) <= Pos(blocks, blockSize)
    ensures k == blocks ==> Progress(k, blockSize, off, size)
                            == if Pos(blocks, blockSize) <= off then 0 else Min(size, Pos(blocks, blockSize) - off)
  {
    PosMonotone(k, blocks, blockSize);
  }

  /** Where inside its block the copy for a block starting at file byte `at` begins. */
  function CopyStart(off: nat, at: nat): nat {
    if off > at then off - at else 0
  }

  /** The loops' view of block `k`: they skip it exactly when it lies before `off`, and the
      offset they compute inside it is the one its position gives. */
  lemma BlockStart(ino: Inode, i: nat, b: nat, blockSize: nat, off: nat)
    requires ExtentsFit(ino) && i < |ExtentList(ino)| && b < ExtentList(ino)[i].len && 0 < blockSize
    requires off == 0 || HoleFree(ExtentList(ino))
    ensures var k := |BlockList(ExtentList(ino)[..i])| + b;
            var at := Pos(FileBlock(ExtentAt(ino, i), b), blockSize);
            && (at + blockSize <= off <==> Pos(k, blockSize) + blockSize <= off)
            && CopyStart(off, at) == CopyStart(off, Pos(k, blockSize))
  {
    if 0 < off {
      FileBlockIsPosition(ExtentList(ino), i, b);
    }
  }

  /** `got` is what a read of `size` bytes at `off` of the `n`-block file `f` has after `k` blocks. */
  ghost predicate HasRead(f: seq<byte>, n: nat, k: nat, blockSize: nat, off: nat, size: nat, got: seq<byte>) {
    && |f| == Pos(n, blockSize) && k <= n
    && |got| == Progress(k, blockSize, off, size)
    && (got != [] ==> off + |got| <= |f| && got == f[off..off + |got|])
  }

  lemma ReadStarts(d: Disk, blocks: seq<nat>, blockSize: nat, off: nat, size: nat)
    requires OnDisk(d, blocks) && Sized(d, blockSize)
    ensures HasRead(Flat(d, blocks), |blocks|, 0, blockSize, off, size, [])
  {
    FlatLength(d, blocks, blockSize);
  }

  lemma ReadSkips(f: seq<byte>, n: nat, k: nat, blockSize: nat, off: nat, size: nat, got: seq<byte>)
    requires HasRead(f, n, k, blockSize, off, size, got) && k < n && |got| < size && 0 < blockSize
    requires Pos(k, blockSize) + blockSize <= off
    ensures HasRead(f, n, k + 1, blockSize, off, size, got)
  {
    CopyWindow(k, blockSize, off, size);
  }

  lemma ReadAdvances(d: Disk, blocks: seq<nat>, k: nat, blockSize: nat, off: nat, size: nat, got: seq<byte>)
    requires OnDisk(d, blocks) && Sized(d, blockSize) && Distinct(blocks) && 0 < blockSize
    requires k < |blocks| && HasRead(Flat(d, blocks), |blocks|, k, blockSize, off, size, got) && |got| < size
    requires !(Pos(k, blockSize) + blockSize <= off)
    ensures var from := CopyStart(off, Pos(k, blockSize));
            && from < blockSize
            && var len := Min(blockSize - from, size - |got|);
               HasRead(Flat(d, blocks), |blocks|, k + 1, blockSize, off, size, got + d[blocks[k]][from..from + len])
  {
    hide HasRead, Progress, CopyStart;
    FlatBlock(d, blocks, blockSize, k, d[blocks[k]]);
    ReadOneMore(Flat(d, blocks), |blocks|, k, blockSize, off, size, got, d[blocks[k]]);
  }

  lemma ReadOneMore(f: seq<byte>, n: nat, k: nat, blockSize: nat, off: nat, size: nat, got: seq<byte>, blk: seq<byte>)
    requires HasRead(f, n, k, blockSize, off, size, got) && |got| < size && k < n && 0 < blockSize == |blk|
    requires Pos(k, blockSize) + blockSize <= |f| && f[Pos(k, blockSize)..Pos(k, blockSize) + blockSize] == blk
    requires !(Pos(k, blockSize) + blockSize <= off)
    ensures var from := CopyStart(off, Pos(k, blockSize));
            && from < blockSize
            && var len := Min(blockSize - from, size - |got|);
               HasRead(f, n, k + 1, blockSize, off, size, got + blk[from..from + len])
  {
    hide Pos, Progress;
    var from := CopyStart(off, Pos(k, blockSize));
    var len := Min(blockSize - from, size - |got|);
    CopyWindow(k, blockSize, off, size);
    ProgressFits(n, k + 1, blockSize, off, size);
    GotMore(f, off, got, len, Pos(k, blockSize), from, blk);
  }

  lemma GotMore(f: seq<byte>, off: nat, got: seq<byte>, len: nat, at: nat, from: nat, blk: seq<byte>)
    requires off + |got| + len <= |f| && off + |got| == at + from && from + len <= |blk|
    requires at + |blk| <= |f| && f[at..at + |blk|] == blk
    requires got != [] ==> got == f[off..off + |got|]
    ensures got + blk[from..from + len] == f[off..off + |got| + len]
  {
    assert got == f[off..off + |got|];
    SliceStep(f, off, |got|, len, at, from, blk);
  }

  lemma ReadEnds(f: seq<byte>, n: nat, k: nat, blockSize: nat, off: nat, size: nat, got: seq<byte>)
    requires HasRead(f, n, k, blockSize, off, size, got) && (k == n || |got| == size)
    ensures got == ReadSlice(f, off, size)
  {
    ProgressFits(n, k, blockSize, off, size);
  }

  /** `e` is the disk a write of `data` at `off` has reached after `k` blocks, `t` bytes of them stored. */
  ghost predicate HasWritten(d: Disk, e: Disk, blocks: seq<nat>, k: nat, blockSize: nat, off: nat, data: seq<byte>,
        t: nat) {
    && OnDisk(d, blocks) && OnDisk(e, blocks) && Sized(d, blockSize) && Sized(e, blockSize) && |d| == |e|
    && k <= |blocks| && t <= |data| && t == Progress(k, blockSize, off, |data|)
    && (0 < t ==> off + t <= Pos(|blocks|, blockSize))
    && Flat(e, blocks) == (if t == 0 then Flat(d, blocks) else Overlay(Flat(d, blocks), off, data[..t]))
    && forall b :: 0 <= b < |d| && b !in blocks ==> e[b] == d[b]
  }

  lemma WrittenElsewhere(d: Disk, e: Disk, blocks: seq<nat>, k: nat, blockSize: nat, off: nat, data: seq<byte>, t: nat)
    requires HasWritten(d, e, blocks, k, blockSize, off, data, t)
    ensures |e| == |d| && OnDisk(e, blocks)
    ensures forall b :: 0 <= b < |d| && b !in blocks ==> e[b] == d[b]
  {
  }

  lemma WriteStarts(d: Disk, blocks: seq<nat>, blockSize: nat, off: nat, data: seq<byte>)
    requires OnDisk(d, blocks) && Sized(d, blockSize)
    ensures HasWritten(d, d, blocks, 0, blockSize, off, data, 0)
  {
  }

  lemma WriteSkips(d: Disk, e: Disk, blocks: seq<nat>, k: nat, blockSize: nat, off: nat, data: seq<byte>, t: nat)
    requires HasWritten(d, e, blocks, k, blockSize, off, data, t) && k < |blocks| && t < |data| && 0 < blockSize
    requires Pos(k, blockSize) + blockSize <= off
    ensures HasWritten(d, e, blocks, k + 1, blockSize, off, data, t)
  {
    CopyWindow(k, blockSize, off, |data|);
  }

  lemma WriteAdvances(d: Disk, e: Disk, blocks: seq<nat>, k: nat, blockSize: nat, off: nat, data: seq<byte>, t: nat)
    requires HasWritten(d, e, blocks, k, blockSize, off, data, t) && Distinct(blocks)
    requires k < |blocks| && t < |data| && 0 < blockSize && !(Pos(k, blockSize) + blockSize <= off)
    ensures var from := CopyStart(off, Pos(k, blockSize));
            && from < blockSize
            && var len := Min(blockSize - from, |data| - t);
               && blocks[k] < |e|
               && HasWritten(d, e[blocks[k] := Splice(e[blocks[k]], from, data[t..t + len])], blocks, k + 1, blockSize,
                             off, data, t + len)
  {
    hide Flat, Distinct, Overlay, Pos, Progress;
    var from := CopyStart(off, Pos(k, blockSize));
    var len := Min(blockSize - from, |data| - t);
    CopyWindow(k, blockSize, off, |data|);
    ProgressFits(|blocks|, k + 1, blockSize, off, |data|);
    FlatLength(d, blocks, blockSize);
    WriteAdvancesFlat(d, e, blocks, k, blockSize, off, data, t, from, len);
  }

  lemma WriteAdvancesFlat(d: Disk, e: Disk, blocks: seq<nat>, k: nat, blockSize: nat, off: nat, data: seq<byte>,
                          t: nat, from: nat, len: nat)
    requires OnDisk(d, blocks) && OnDisk(e, blocks) && Sized(e, blockSize) && Distinct(blocks) && k < |blocks|
    requires |Flat(d, blocks)| == Pos(|blocks|, blockSize)
    requires 0 < len && t + len <= |data|
    requires Flat(e, blocks) == if t == 0 then Flat(d, blocks) else Overlay(Flat(d, blocks), off, data[..t])
    requires off + t + len <= Pos(|blocks|, blockSize)
    requires off + t == Pos(k, blockSize) + from && from + len <= blockSize
    ensures Flat(e[blocks[k] := Splice(e[blocks[k]], from, data[t..t + len])], blocks)
         == Overlay(Flat(d, blocks), off, data[..t + len])
  {
    var f := Flat(d, blocks);
    var c := Splice(e[blocks[k]], from, data[t..t + len]);
    FlatBlock(e, blocks, blockSize, k, c);
    EmptyOverlay(f, off, data);
    OverlayStep(f, off, data, t, len, Pos(k, blockSize), from, e[blocks[k]]);
  }

  lemma EmptyOverlay(f: seq<byte>, off: nat, data: seq<byte>)
    requires off < |f|
    ensures Overlay(f, off, data[..0]) == f
  {
  }

  lemma WriteEnds(d: Disk, e: Disk, blocks: seq<nat>, k: nat, blockSize: nat, off: nat, data: seq<byte>, t: nat)
    requires HasWritten(d, e, blocks, k, blockSize, off, data, t) && (k == |blocks| || t == |data|)
    ensures Flat(e, blocks) == Overlay(Flat(d, blocks), off, data)
    ensures t == |data| <==> data == [] || off + |data| <= Pos(|blocks|, blockSize)
  {
    ProgressFits(|blocks|, k, blockSize, off, |data|);
    FlatLength(d, blocks, blockSize);
    if off < Pos(|blocks|, blockSize) {
      EmptyOverlay(Flat(d, blocks), off, data);
      assert data[..t][..t] == data[..t];
    }
  }
}
