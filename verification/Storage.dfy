/** Storage as a sequence of equally long blocks, and the flat byte string a list of block
    numbers stands for. */
module Storage {
  import opened Bytes

  type Disk = seq<seq<byte>>

  predicate Sized(d: Disk, blockSize: nat) {
    forall b :: 0 <= b < |d| ==> |d[b]| == blockSize
  }

  function Run(start: nat, len: nat): (r: seq<nat>)
    ensures |r| == len && forall i :: 0 <= i < len ==> r[i] == start + i
  {
    seq(len, i => start + i)
  }

  predicate OnDisk(d: Disk, blocks: seq<nat>) {
    forall k :: 0 <= k < |blocks| ==> blocks[k] < |d|
  }

  predicate Distinct(blocks: seq<nat>) {
    forall i, j :: 0 <= i < j < |blocks| ==> blocks[i] != blocks[j]
  }

  /** The bytes of the blocks, one block after the other. */
  function Flat(d: Disk, blocks: seq<nat>): seq<byte>
    requires OnDisk(d, blocks)
  {
    if blocks == [] then [] else
      Flat(d, blocks[..|blocks| - 1]) + d[blocks[|blocks| - 1]]
  }

  /** The file byte at which block `k` starts. */
  function Pos(k: nat, blockSize: nat): nat {
    k * blockSize
  }

  lemma PosStep(k: nat, blockSize: nat)
    ensures Pos(k + 1, blockSize) == Pos(k, blockSize) + blockSize
  {
  }

  lemma {:induction false} PosMonotone(a: nat, b: nat, blockSize: nat)
    requires a <= b
    ensures Pos(a, blockSize) <= Pos(b, blockSize)
    decreases b
  {
    if a < b {
      PosMonotone(a, b - 1, blockSize);
      PosStep(b - 1, blockSize);
    }
  }

  lemma {:induction false} FlatLength(d: Disk, blocks: seq<nat>, size: nat)
    requires OnDisk(d, blocks) && Sized(d, size)
    ensures |Flat(d, blocks)| == Pos(|blocks|, size)
  {
    if blocks != [] {
      FlatLength(d, blocks[..|blocks| - 1], size);
      PosStep(|blocks| - 1, size);
    }
  }

  /** Files over disks that agree on their blocks are equal. */
  lemma {:induction false} FlatFrame(d: Disk, e: Disk, blocks: seq<nat>)
    requires OnDisk(d, blocks) && OnDisk(e, blocks)
    requires forall k :: 0 <= k < |blocks| ==> d[blocks[k]] == e[blocks[k]]
    ensures Flat(d, blocks) == Flat(e, blocks)
  {
    if blocks != [] {
      FlatFrame(d, e, blocks[..|blocks| - 1]);
    }
  }

  /** Block `k` of the file sits at byte `Pos(k, size)`, and replacing it replaces just those bytes. */
  lemma {:induction false} FlatBlock(d: Disk, blocks: seq<nat>, size: nat, k: nat, c: seq<byte>)
    requires OnDisk(d, blocks) && Sized(d, size) && Distinct(blocks)
    requires k < |blocks| && |c| == size
    ensures |Flat(d, blocks)| == Pos(|blocks|, size) && Pos(k, size) + size <= Pos(|blocks|, size)
    ensures Flat(d, blocks)[Pos(k, size)..Pos(k, size) + size] == d[blocks[k]]
    ensures Flat(d[blocks[k] := c], blocks) == Splice(Flat(d, blocks), Pos(k, size), c)
  {
    var n := |blocks| - 1;
    var front := blocks[..n];
    FlatLength(d, blocks, size);
    FlatLength(d, front, size);
    PosStep(n, size);
    PosMonotone(k, n, size);
    if k == n {
      FlatFrame(d, d[blocks[k] := c], front);
    } else {
      FlatBlock(d, front, size, k, c);
      assert blocks[k] != blocks[n];
      SpliceFront(Flat(d, front), Pos(k, size), c, d[blocks[n]]);
      SliceFront(Flat(d, front), d[blocks[n]], Pos(k, size), Pos(k, size) + size);
    }
  }

  /** Byte `j` of block `k` is byte `Pos(k, size) + j` of the file. */
  lemma {:induction false} FlatByte(d: Disk, blocks: seq<nat>, size: nat, k: nat, j: nat)
    requires OnDisk(d, blocks) && Sized(d, size) && k < |blocks| && j < size
    ensures Pos(k, size) + j < |Flat(d, blocks)| && Flat(d, blocks)[Pos(k, size) + j] == d[blocks[k]][j]
  {
    var n := |blocks| - 1;
    FlatLength(d, blocks[..n], size);
    if k < n {
      FlatByte(d, blocks[..n], size, k, j);
    }
  }

  lemma SpliceFront(a: seq<byte>, off: nat, t: seq<byte>, b: seq<byte>)
    requires off + |t| <= |a|
    ensures Splice(a + b, off, t) == Splice(a, off, t) + b
  {
  }

  lemma SliceFront(a: seq<byte>, b: seq<byte>, i: nat, j: nat)
    requires i <= j <= |a|
    ensures (a + b)[i..j] == a[i..j]
  {
  }
}
