/** The block device behind the file system (drivers/storage/block.h), addressed by the
    blocks of the mounted partition. A request covers whole sectors inside one block, may
    fail at any time, and fails outside the device; a failed write changes nothing. */
module Device {
  import opened Bytes
  import opened Storage

  const SECTOR_SIZE := 512

  class BlockDevice {
    const blockSize: nat
    var blocks: Disk
    /** How many requests have failed so far. */
    ghost var faults: nat

    constructor (blockSize: nat, blocks: Disk)
      ensures this.blockSize == blockSize && this.blocks == blocks && faults == 0
    {
      this.blockSize := blockSize;
      this.blocks := blocks;
      faults := 0;
    }

    method Read(b: nat, off: nat, buf: array<byte>) returns (ok: bool)
      requires Sized(blocks, blockSize) && off + buf.Length <= blockSize
      requires off % SECTOR_SIZE == 0 && buf.Length % SECTOR_SIZE == 0
      modifies this`faults, buf
      ensures ok ==> b < |blocks| && buf[..] == blocks[b][off..off + buf.Length] && faults == old(faults)
      ensures !ok ==> faults == old(faults) + 1
    {
      if b < |blocks| {
        if * {
          var i := 0;
          while i < buf.Length
            invariant 0 <= i <= buf.Length && faults == old(faults)
            invariant forall j :: 0 <= j < i ==> buf[j] == blocks[b][off + j]
          {
            buf[i] := blocks[b][off + i];
            i := i + 1;
          }
          return true;
        }
      }
      faults := faults + 1;
      return false;
    }

    method Write(b: nat, off: nat, buf: array<byte>) returns (ok: bool)
      requires Sized(blocks, blockSize) && off + buf.Length <= blockSize
      requires off % SECTOR_SIZE == 0 && buf.Length % SECTOR_SIZE == 0
      modifies this
      ensures ok ==> b < |old(blocks)| && faults == old(faults)
                     && blocks == old(blocks)[b := Splice(old(blocks)[b], off, buf[..])]
      ensures !ok ==> blocks == old(blocks) && faults == old(faults) + 1
    {
      if b < |blocks| {
        if * {
          blocks := blocks[b := Splice(blocks[b], off, buf[..])];
          return true;
        }
      }
      faults := faults + 1;
      return false;
    }
  }
}
