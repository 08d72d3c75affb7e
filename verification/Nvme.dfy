/** The NVMe driver against its device: one command at a time through a pair of rings, and
    transfers cut into commands of at most 4096 bytes (drivers/storage/nvme.c). */
module Nvme {
  import opened Arith
  import opened Bytes
  import opened Storage
  import opened NvmeQueue

  const CHUNK_BYTES := 4096

  /** The fields of a read or write command the transfer loops set. */
  datatype Command = Command(write: bool, cdw10: nat, cdw11: nat, cdw12: nat)

  /** A completion's status word: the phase bit below the status code. */
  datatype Completion = Completion(status: nat)

  /** The first logical block of a command, from its two halves. */
  function StartLba(c: Command): nat {
    c.cdw10 + c.cdw11 * U32_SPAN
  }

  /** The number of logical blocks; the field is zero-based. */
  function LbaCount(c: Command): nat {
    c.cdw12 + 1
  }

  /** `m'` is `m` with `n` blocks from `lba` on holding `data`, and nothing else changed. */
  ghost predicate Stores(m: Disk, m': Disk, lba: nat, n: nat, data: seq<byte>) {
    && |m'| == |m| && lba + n <= |m|
    && (forall b :: 0 <= b < |m| && !(lba <= b < lba + n) ==> m'[b] == m[b])
    && OnDisk(m', Run(lba, n))
    && Flat(m', Run(lba, n)) == data
  }

  /** The effect of a command the device completed with `status`. */
  ghost predicate Executed(c: Command, status: nat, size: nat, m: Disk, m': Disk, p: seq<byte>, p': seq<byte>) {
    var lba, n := StartLba(c), LbaCount(c);
    && |p'| == |p|
    && (status != 0 || !c.write ==> m' == m)
    && (status != 0 || c.write ==> p' == p)
    && (status == 0 ==>
          && lba + n <= |m| && Pos(n, size) <= |p|
          && (c.write ==> Stores(m, m', lba, n, p[..Pos(n, size)]))
          && (!c.write ==> OnDisk(m, Run(lba, n)) && p'[..Pos(n, size)] == Flat(m, Run(lba, n))))
  }

  /** What a one-chunk command means for the range it names. */
  lemma ChunkExecuted(write: bool, at: nat, n: nat, status: nat, size: nat, m: Disk, m': Disk, p: seq<byte>,
        p': seq<byte>)
    requires 1 <= n && Pos(n, size) <= |p|
    requires Executed(Command(write, at % U32_SPAN, at / U32_SPAN, n - 1), status, size, m, m', p, p')
    ensures |p'| == |p| && (status != 0 || !write ==> m' == m)
    ensures status == 0 && write ==> Stores(m, m', at, n, p[..Pos(n, size)])
    ensures status == 0 && !write ==>
      at + n <= |m| && OnDisk(m, Run(at, n)) && p'[..Pos(n, size)] == Flat(m, Run(at, n))
  {
    hide Stores, Flat, Pos, Run, OnDisk;
    assert at % U32_SPAN + at / U32_SPAN * U32_SPAN == at;
  }

  /** The commands cover the first `n` of the `total` blocks from `lba` on: consecutive ranges, each of
      4096 bytes or of all that is left. */
  predicate Tiles(cs: seq<Command>, write: bool, size: nat, lba: nat, total: nat, n: nat) {
    if cs == [] then n == 0
    else
      && cs[0].write == write
      && StartLba(cs[0]) == lba && LbaCount(cs[0]) <= n <= total
      && Pos(LbaCount(cs[0]), size) == Min(4096, Pos(total, size))
      && Tiles(cs[1..], write, size, lba + LbaCount(cs[0]), total - LbaCount(cs[0]), n - LbaCount(cs[0]))
  }

  lemma {:induction false} TilesAppend(cs: seq<Command>, c: Command, write: bool, size: nat, lba: nat, total: nat,
        n: nat)
    requires Tiles(cs, write, size, lba, total, n) && n + LbaCount(c) <= total
    requires c.write == write && StartLba(c) == lba + n && Pos(LbaCount(c), size) == Min(4096, Pos(total - n, size))
    ensures Tiles(cs + [c], write, size, lba, total, n + LbaCount(c))
    decreases |cs|
  {
    hide Pos;
    if cs == [] {
      assert cs + [c] == [c] && [c][1..] == [];
    } else {
      assert (cs + [c])[1..] == cs[1..] + [c];
      var first := LbaCount(cs[0]);
      TilesAppend(cs[1..], c, write, size, lba + first, total - first, n - first);
    }
  }

  /** Tiling commands touch every block of the range in exactly one command. */
  lemma {:induction false} TilesCover(cs: seq<Command>, write: bool, size: nat, lba: nat, total: nat, n: nat,
        b: nat) returns (k: nat)
    requires Tiles(cs, write, size, lba, total, n) && lba <= b < lba + n
    ensures k < |cs| && StartLba(cs[k]) <= b < StartLba(cs[k]) + LbaCount(cs[k])
    ensures forall j :: 0 <= j < |cs| && j != k ==> !(StartLba(cs[j]) <= b < StartLba(cs[j]) + LbaCount(cs[j]))
    decreases |cs|
  {
    var first := LbaCount(cs[0]);
    if b < lba + first {
      k := 0;
      TilesFrom(cs[1..], write, size, lba + first, total - first, n - first);
      assert forall j :: 1 <= j < |cs| ==> cs[j] == cs[1..][j - 1];
    } else {
      k := TilesCover(cs[1..], write, size, lba + first, total - first, n - first, b);
      assert forall j :: 1 <= j < |cs| ==> cs[j] == cs[1..][j - 1];
      k := k + 1;
    }
  }

  lemma {:induction false} TilesFrom(cs: seq<Command>, write: bool, size: nat, lba: nat, total: nat, n: nat)
    requires Tiles(cs, write, size, lba, total, n)
    ensures forall j :: 0 <= j < |cs| ==> lba <= StartLba(cs[j]) && StartLba(cs[j]) + LbaCount(cs[j]) <= lba + n
    decreases |cs|
  {
    if cs != [] {
      var first := LbaCount(cs[0]);
      TilesFrom(cs[1..], write, size, lba + first, total - first, n - first);
      assert forall j :: 1 <= j < |cs| ==> cs[j] == cs[1..][j - 1];
    }
  }

  lemma RunSplit(lba: nat, k: nat, c: nat)
    ensures Run(lba, k + c) == Run(lba, k) + Run(lba + k, c)
  {
  }

  lemma FlatLast(d: Disk, a: seq<nat>)
    requires OnDisk(d, a) && a != []
    ensures Flat(d, a) == Flat(d, a[..|a| - 1]) + d[a[|a| - 1]]
  {
  }

  lemma {:induction false} FlatConcat(d: Disk, a: seq<nat>, b: seq<nat>)
    requires OnDisk(d, a) && OnDisk(d, b)
    ensures OnDisk(d, a + b) && Flat(d, a + b) == Flat(d, a) + Flat(d, b)
    decreases |b|
  {
    if b == [] {
      assert a + b == a;
    } else {
      hide Flat;
      var n := |b| - 1;
      assert (a + b)[..|a| + n] == a + b[..n];
      FlatConcat(d, a, b[..n]);
      FlatLast(d, a + b);
      FlatLast(d, b);
    }
  }

  /** Storing a range and then the range behind it stores the joint range. */
  lemma StoresJoin(m0: Disk, m1: Disk, m2: Disk, lba: nat, k: nat, c: nat, a: seq<byte>, b: seq<byte>)
    requires Stores(m0, m1, lba, k, a) && Stores(m1, m2, lba + k, c, b)
    ensures Stores(m0, m2, lba, k + c, a + b)
  {
    RunSplit(lba, k, c);
    FlatFrame(m1, m2, Run(lba, k));
    FlatConcat(m2, Run(lba, k), Run(lba + k, c));
  }

  /** A read of any other range sees what was there before the write. */
  lemma OtherRangesStay(m: Disk, m': Disk, lba: nat, n: nat, data: seq<byte>, lba2: nat, n2: nat)
    requires Stores(m, m', lba, n, data) && lba2 + n2 <= |m| && (lba2 + n2 <= lba || lba + n <= lba2)
    ensures OnDisk(m, Run(lba2, n2)) && OnDisk(m', Run(lba2, n2)) && Flat(m', Run(lba2, n2)) == Flat(m, Run(lba2, n2))
  {
    FlatFrame(m, m', Run(lba2, n2));
  }

  predicate LbaSizeOk(size: nat) {
    size == 512 || size == 1024 || size == 2048 || size == 4096
  }

  /** The byte count of a transfer, in 32 bits. */
  function ByteCount(count: nat, size: nat): nat {
    count * size % U32_SPAN
  }

  /** How many whole blocks it asks for. */
  function BlocksMoved(count: nat, size: nat): nat
    requires LbaSizeOk(size)
  {
    ByteCount(count, size) / size
  }

  /** The transfer is complete exactly if the byte count does not wrap around. */
  lemma MovesAllExactly(count: nat, size: nat)
    requires LbaSizeOk(size)
    ensures BlocksMoved(count, size) == count <==> Pos(count, size) < U32_SPAN
    ensures Pos(BlocksMoved(count, size), size) == count * size % U32_SPAN
  {
    var k := U32_SPAN / size;
    assert 0 < k && k * size == U32_SPAN;
    hide LbaSizeOk;
    WrapAt(count, k, size);
  }

  lemma BytesMoved(count: nat, size: nat)
    requires LbaSizeOk(size)
    ensures Pos(BlocksMoved(count, size), size) == ByteCount(count, size)
  {
    MovesAllExactly(count, size);
  }

  lemma WrapAt(count: nat, k: nat, size: nat)
    requires 0 < size && 0 < k && k * size == U32_SPAN
    ensures count * size % U32_SPAN == count % k * size
    ensures count % k * size / size == count % k
    ensures count * size < U32_SPAN <==> count % k == count
  {
    ScaledDivMod(count, k, size, U32_SPAN);
    DivModUnique(count % k, 0, size);
    if count < k {
      ScaledApart(count, k, size);
    } else {
      ScaledApart(k - 1, count, size);
      assert (k - 1) * size + size == k * size;
    }
  }

  /** The disk after the device stored `n` blocks of `data` from `lba` on. */
  function StoreRange(m: Disk, lba: nat, n: nat, size: nat, data: seq<byte>): (r: Disk)
    requires lba + n <= |m| && |data| == Pos(n, size)
    ensures |r| == |m|
    decreases n
  {
    if n == 0 then m
    else
      PosStep(n - 1, size);
      StoreRange(m, lba, n - 1, size, data[..Pos(n - 1, size)])[lba + n - 1 := data[Pos(n - 1, size)..]]
  }

  lemma {:induction false} StoreRangeStores(m: Disk, lba: nat, n: nat, size: nat, data: seq<byte>)
    requires lba + n <= |m| && |data| == Pos(n, size) && Sized(m, size)
    ensures Sized(StoreRange(m, lba, n, size, data), size)
    ensures Stores(m, StoreRange(m, lba, n, size, data), lba, n, data)
    decreases n
  {
    if n != 0 {
      PosStep(n - 1, size);
      var front := StoreRange(m, lba, n - 1, size, data[..Pos(n - 1, size)]);
      var r := StoreRange(m, lba, n, size, data);
      StoreRangeStores(m, lba, n - 1, size, data[..Pos(n - 1, size)]);
      FlatFrame(front, r, Run(lba, n - 1));
      assert Run(lba, n)[..n - 1] == Run(lba, n - 1);
      assert data == data[..Pos(n - 1, size)] + data[Pos(n - 1, size)..];
    }
  }

  /** Every slot of the completion ring carries the bit of its last write. */
  ghost predicate SlotsMarked(cq: seq<Completion>, n: nat, depth: nat)
    requires 0 < depth == |cq|
  {
    forall i :: 0 <= i < depth ==> cq[i].status % 2 == SlotWrites(n, depth, i) % 2
  }

  lemma PostMarks(cq: seq<Completion>, n: nat, depth: nat, code: nat)
    requires 0 < depth == |cq| && SlotsMarked(cq, n, depth)
    ensures SlotsMarked(cq[n % depth := Completion(2 * code + Phase(n, depth))], n + 1, depth)
    ensures (2 * code + Phase(n, depth)) / 2 == code
  {
    hide SlotWrites, Phase;
    SlotBit(n, depth);
    SlotsPosted(n, depth);
  }

  class Controller {
    const depth: nat
    /** The block size of the namespace; zero means 512. */
    const lbaSize: nat
    const sq: array<Command>
    const cq: array<Completion>
    const prp: array<byte>
    var sqTail: nat
    var cqHead: nat
    var cqPhase: nat

    // the device side
    var media: Disk
    var devHead: nat
    var devPhase: nat

    /** Everything ever submitted, the status codes of what was completed, and how many of those
        the driver has consumed. */
    ghost var submitted: seq<Command>
    ghost var results: seq<nat>
    ghost var reaped: nat

    function Lba(): nat {
      if lbaSize != 0 then lbaSize else 512
    }

    ghost predicate Valid()
      reads this, sq, cq, prp
    {
      && 0 < depth == sq.Length == cq.Length && prp.Length == CHUNK_BYTES
      && LbaSizeOk(Lba()) && Sized(media, Lba()) && |media| < 0x1_0000_0000_0000_0000
      && reaped <= |results| <= |submitted| <= reaped + 1
      && sqTail == |submitted| % depth
      && cqHead == reaped % depth && cqPhase == Phase(reaped, depth)
      && devHead == |results| % depth && devPhase == Phase(|results|, depth)
      && (|results| < |submitted| ==> sq[devHead] == submitted[|results|])
      && SlotsMarked(cq[..], |results|, depth)
      && (reaped < |results| ==> cq[cqHead].status / 2 == results[reaped])
    }

    /** No command is outstanding. */
    ghost predicate Idle()
      reads this, sq, cq, prp
    {
      Valid() && reaped == |submitted|
    }

    constructor (depth: nat, lbaSize: nat, media: Disk)
      requires 0 < depth && LbaSizeOk(if lbaSize != 0 then lbaSize else 512)
      requires Sized(media, if lbaSize != 0 then lbaSize else 512) && |media| < 0x1_0000_0000_0000_0000
      ensures Idle() && submitted == [] && this.media == media && this.depth == depth && this.lbaSize == lbaSize
    {
      this.depth, this.lbaSize, this.media := depth, lbaSize, media;
      sq := new Command[depth](_ => Command(false, 0, 0, 0));
      cq := new Completion[depth](_ => Completion(0));
      prp := new byte[CHUNK_BYTES];
      sqTail, cqHead, cqPhase, devHead, devPhase := 0, 0, 1, 0, 1;
      submitted, results, reaped := [], [], 0;
      new;
      DivModUnique(0, 0, depth);
    }

    /** The device takes the next command, executes it or refuses it, and posts a completion. */
    method DevicePost()
      requires Valid() && |results| < |submitted|
      modifies this`media, this`devHead, this`devPhase, this`results, cq, prp
      ensures Valid() && |results| == |old(results)| + 1 && old(results) == results[..|old(results)|]
      ensures
        var k := |old(results)|;
        Executed(submitted[k], results[k], Lba(), old(media), media, old(prp[..]), prp[..])
    {
      hide Executed, SlotsMarked, Phase, LbaSizeOk, Sized;
      var c := sq[devHead];
      ghost var entries := cq[..];
      var code := Execute(c);
      PostMarks(entries, |results|, depth, code);
      Advance(|results|, depth);
      cq[devHead] := Completion(2 * code + devPhase);
      devHead := (devHead + 1) % depth;
      if devHead == 0 {
        devPhase := 1 - devPhase;
      }
      results := results + [code];
    }

    /** Carries out a command, unless it is refused for whatever reason. */
    method Execute(c: Command) returns (code: nat)
      requires LbaSizeOk(Lba()) && Sized(media, Lba()) && prp.Length == CHUNK_BYTES
      modifies this`media, prp
      ensures Sized(media, Lba()) && |media| == |old(media)|
      ensures Executed(c, code, Lba(), old(media), media, old(prp[..]), prp[..])
    {
      var lba, n := StartLba(c), LbaCount(c);
      var refused: bool := *;
      if refused || lba + n > |media| || Pos(n, Lba()) > prp.Length {
        code :| 0 < code;
        return;
      }
      if c.write {
        StoreRangeStores(media, lba, n, Lba(), prp[..Pos(n, Lba())]);
        media := StoreRange(media, lba, n, Lba(), prp[..Pos(n, Lba())]);
      } else {
        FlatLength(media, Run(lba, n), Lba());
        StoreAt(prp, 0, Flat(media, Run(lba, n)));
      }
      return 0;
    }

    /** Puts a command in the ring and moves the tail, which is what the doorbell is told. */
    method Enqueue(c: Command)
      requires Idle()
      modifies this`sqTail, this`submitted, sq
      ensures Valid() && submitted == old(submitted) + [c] && sqTail == |submitted| % depth
    {
      hide SlotsMarked, Phase, LbaSizeOk, Sized;
      Advance(|submitted|, depth);
      sq[sqTail] := c;
      sqTail := (sqTail + 1) % depth;
      submitted := submitted + [c];
    }

    /** Consumes the new entry at the head of the completion queue. */
    method Reap() returns (status: nat)
      requires Valid() && reaped < |results|
      modifies this`cqHead, this`cqPhase, this`reaped
      ensures Idle() && reaped == old(reaped) + 1 && status == results[old(reaped)]
      ensures cqHead == reaped % depth && cqPhase == Phase(reaped, depth)
    {
      hide SlotsMarked, Phase, LbaSizeOk, Sized;
      Advance(reaped, depth);
      status := cq[cqHead].status / 2;
      cqHead := (cqHead + 1) % depth;
      if cqHead == 0 {
        cqPhase := 1 - cqPhase;
      }
      reaped := reaped + 1;
    }

    /** The driver's test: the entry at the head carries the expected phase bit exactly if the
        device has posted a completion the driver has not consumed. */
    lemma EntryIsNew()
      requires Valid()
      ensures cqHead < cq.Length && (cq[cqHead].status % 2 == cqPhase <==> reaped < |results|)
    {
      FreshExactly(reaped, |results|, depth);
      assert cq[..][cqHead] == cq[cqHead];
    }

    /** Submits a command, then polls until the phase bit of the entry at the head is the expected
        one, and consumes that entry. The device answers after some number of polls. */
    method SubmitCmd(c: Command) returns (ok: bool)
      requires Idle()
      modifies this`sqTail, this`cqHead, this`cqPhase, this`media, this`devHead, this`devPhase,
        this`submitted, this`results, this`reaped, sq, cq, prp
      ensures Idle() && submitted == old(submitted) + [c] && |results| == |submitted|
      ensures sqTail == cqHead == |submitted| % depth && cqPhase == Phase(|submitted|, depth)
      ensures results[..|old(results)|] == old(results)
      ensures ok <==> results[|old(submitted)|] == 0
      ensures Executed(c, results[|old(submitted)|], Lba(), old(media), media, old(prp[..]), prp[..])
    {
      hide Executed, Controller.Valid, SlotsMarked, Phase, LbaSizeOk, Sized;
      IdleFacts();
      Enqueue(c);
      ghost var before, m, p := results, media, prp[..];
      var wait: nat :| true;
      EntryIsNew();
      while cq[cqHead].status % 2 != cqPhase
        invariant Valid() && submitted == old(submitted) + [c] && reaped == |old(submitted)|
        invariant cqHead < cq.Length && (cq[cqHead].status % 2 == cqPhase <==> reaped < |results|)
        invariant reaped <= |results| <= |submitted|
        invariant reaped == |results| ==> results == before && media == m && prp[..] == p
        invariant reaped < |results| ==> results[..reaped] == before
        invariant reaped < |results| ==> Executed(c, results[reaped], Lba(), m, media, p, prp[..])
        decreases |submitted| - |results|, wait
      {
        if wait == 0 {
          DevicePost();
          EntryIsNew();
        } else {
          wait := wait - 1;
        }
      }
      var status := Reap();
      IdleFacts();
      ok := status == 0;
    }

    lemma IdleFacts()
      requires Idle()
      ensures LbaSizeOk(Lba()) && 0 < Lba() && |media| < 0x1_0000_0000_0000_0000 && Sized(media, Lba())
      ensures reaped == |results| == |submitted| && sqTail == |submitted| % depth
    {
    }

    /** One command of a read: fetches `c` blocks from `at` on and copies them to `out` at `from`. */
    method ReadChunk(at: nat, c: nat, out: array<byte>, from: nat) returns (ok: bool)
      requires Idle() && at < 0x1_0000_0000_0000_0000 && 1 <= c && Pos(c, Lba()) <= CHUNK_BYTES
      requires from + Pos(c, Lba()) <= out.Length && out != prp
      modifies this`sqTail, this`cqHead, this`cqPhase, this`media, this`devHead, this`devPhase,
        this`submitted, this`results, this`reaped, sq, cq, prp, out
      ensures Idle() && media == old(media)
      ensures submitted == old(submitted) + [Command(false, at % U32_SPAN, at / U32_SPAN, c - 1)]
      ensures |results| == |submitted| && results[..|old(results)|] == old(results)
      ensures ok <==> results[|old(submitted)|] == 0
      ensures ok ==> at + c <= |media| && OnDisk(media, Run(at, c))
      ensures ok ==> out[..] == old(out[..])[..from] + Flat(media, Run(at, c)) + old(out[..])[from + Pos(c, Lba())..]
      ensures !ok ==> out[..] == old(out[..])
    {
      hide Executed, Flat, SlotsMarked, Phase, LbaSizeOk, Sized, Run, OnDisk, Pos, Stores;
      ghost var m, p := media, prp[..];
      ok := SubmitCmd(Command(false, at % U32_SPAN, at / U32_SPAN, c - 1));
      ChunkExecuted(false, at, c, results[|old(submitted)|], Lba(), m, media, p, prp[..]);
      if ok {
        StoreAt(out, from, prp[..Pos(c, Lba())]);
      }
    }

    /** Reads `count` blocks from `lba` on into `out`, 4096 bytes or less at a time. It fails exactly if
        the device refuses a command, and then no further command is issued; the ghost result says how
        many blocks were read before. */
    method ReadBlocks(lba: nat, count: nat, out: array<byte>) returns (ok: bool, ghost done: nat)
      requires Idle() && lba < 0x1_0000_0000_0000_0000 && count < U32_SPAN
      requires Pos(BlocksMoved(count, Lba()), Lba()) <= out.Length && out != prp
      modifies this`sqTail, this`cqHead, this`cqPhase, this`media, this`devHead, this`devPhase,
        this`submitted, this`results, this`reaped, sq, cq, prp, out
      ensures Idle() && media == old(media) && old(submitted) <= submitted && old(results) <= results
      ensures |results| == |submitted| && (ok <==> done == BlocksMoved(count, Lba()))
      ensures ok <==> forall k :: |old(results)| <= k < |results| ==> results[k] == 0
      ensures ok ==> Tiles(submitted[|old(submitted)|..], false, Lba(), lba, done, done)
      ensures !ok ==> |old(results)| < |results| && results[|results| - 1] != 0
      ensures !ok ==> forall k :: |old(results)| <= k < |results| - 1 ==> results[k] == 0
      ensures !ok ==> Refused(submitted[|old(submitted)|..], false, Lba(), lba, BlocksMoved(count, Lba()), done)
      ensures OnDisk(media, Run(lba, done)) && Pos(done, Lba()) <= out.Length
      ensures out[..] == Flat(media, Run(lba, done)) + old(out[..])[Pos(done, Lba())..]
    {
      hide Controller.Valid, Controller.Idle, Controller.Lba, LbaSizeOk, BlocksMoved, ByteCount, Pos, Flat, Tiles, Run,
        OnDisk, Sized, Refused, Moving, Stopped;
      IdleFacts();
      var size := Lba();
      var bytes := ByteCount(count, size);
      ghost var total := BlocksMoved(count, size);
      ghost var s0, r0 := submitted, results;
      done := 0;
      BytesMoved(count, size);
      TransferStarts(media, lba, s0, r0, false, size, total);
      ghost var was := out[..];
      assert was == [] + was[0..];
      var at, from := lba, 0;
      while bytes > 0
        invariant Idle() && media == old(media) && done <= total && at == lba + done
        invariant Moving(s0, r0, submitted, results, false, size, lba, total, done)
        invariant from == Pos(done, size) && 0 <= bytes == Pos(total, size) - from
        invariant OnDisk(media, Run(lba, done)) && out[..] == Flat(media, Run(lba, done)) + was[from..]
        invariant at < 0x1_0000_0000_0000_0000
        decreases bytes
      {
        var chunk := Min(bytes, CHUNK_BYTES);
        IdleFacts();
        ChunkBlocks(total, done, size);
        ghost var cs, rs, pre := submitted, results, out[..];
        var c := chunk / size;
        ok := ReadChunk(at, c, out, from);
        MovesOn(s0, r0, cs, rs, submitted, results, false, size, lba, total, done, c);
        if !ok {
          StoppedFacts(s0, r0, submitted, results, false, size, lba, total, done);
          return;
        }
        ReadGrows(media, lba, done, c, size, pre, out[..], was);
        done := done + c;
        from := from + chunk;
        bytes := bytes - chunk;
        at := at + c;
      }
      PosInjective(done, total, size);
      MovedFacts(s0, r0, submitted, results, false, size, lba, total, done);
      ok := true;
    }

    /** One command of a write: hands the device the bytes for `c` blocks from `at` on. */
    method WriteChunk(at: nat, c: nat, data: seq<byte>) returns (ok: bool)
      requires Idle() && at < 0x1_0000_0000_0000_0000 && 1 <= c && |data| == Pos(c, Lba()) <= CHUNK_BYTES
      modifies this`sqTail, this`cqHead, this`cqPhase, this`media, this`devHead, this`devPhase,
        this`submitted, this`results, this`reaped, sq, cq, prp
      ensures Idle()
      ensures submitted == old(submitted) + [Command(true, at % U32_SPAN, at / U32_SPAN, c - 1)]
      ensures |results| == |submitted| && results[..|old(results)|] == old(results)
      ensures ok <==> results[|old(submitted)|] == 0
      ensures ok ==> Stores(old(media), media, at, c, data)
      ensures !ok ==> media == old(media)
    {
      hide Executed, SlotsMarked, Phase, LbaSizeOk, Sized, Pos, Stores;
      StoreAt(prp, 0, data);
      ghost var m, p := media, prp[..];
      assert p[..|data|] == data;
      ok := SubmitCmd(Command(true, at % U32_SPAN, at / U32_SPAN, c - 1));
      ChunkExecuted(true, at, c, results[|old(submitted)|], Lba(), m, media, p, prp[..]);
    }

    /** Writes `count` blocks of `data` from `lba` on, 4096 bytes or less at a time. It fails exactly if
        the device refuses a command, and then no further command is issued; the ghost result says how
        many blocks were stored before. */
    method WriteBlocks(lba: nat, count: nat, data: seq<byte>) returns (ok: bool, ghost done: nat)
      requires Idle() && lba < 0x1_0000_0000_0000_0000 && count < U32_SPAN
      requires Pos(BlocksMoved(count, Lba()), Lba()) <= |data|
      modifies this`sqTail, this`cqHead, this`cqPhase, this`media, this`devHead, this`devPhase,
        this`submitted, this`results, this`reaped, sq, cq, prp
      ensures Idle() && old(submitted) <= submitted && old(results) <= results
      ensures |results| == |submitted| && (ok <==> done == BlocksMoved(count, Lba()))
      ensures ok <==> forall k :: |old(results)| <= k < |results| ==> results[k] == 0
      ensures ok ==> Tiles(submitted[|old(submitted)|..], true, Lba(), lba, done, done)
      ensures !ok ==> |old(results)| < |results| && results[|results| - 1] != 0
      ensures !ok ==> forall k :: |old(results)| <= k < |results| - 1 ==> results[k] == 0
      ensures !ok ==> Refused(submitted[|old(submitted)|..], true, Lba(), lba, BlocksMoved(count, Lba()), done)
      ensures done <= BlocksMoved(count, Lba()) && Pos(done, Lba()) <= |data|
      ensures HasStored(old(media), media, lba, done, data[..Pos(done, Lba())])
      ensures !ok && Pos(BlocksMoved(count, Lba()), Lba()) <= CHUNK_BYTES ==> media == old(media)
    {
      hide Controller.Valid, Controller.Idle, Controller.Lba, LbaSizeOk, BlocksMoved, ByteCount, Pos, Tiles, Stores,
        HasStored, Sized, Refused, Moving, Stopped;
      IdleFacts();
      var size := Lba();
      var bytes := ByteCount(count, size);
      ghost var total := BlocksMoved(count, size);
      ghost var m := media;
      done := 0;
      BytesMoved(count, size);
      TransferStarts(media, lba, old(submitted), old(results), true, size, total);
      NothingStored(media, lba);
      assert data[..0] == [];
      var at, from := lba, 0;
      while bytes > 0
        invariant Idle() && done <= total && at == lba + done
        invariant Moving(old(submitted), old(results), submitted, results, true, size, lba, total, done)
        invariant from == Pos(done, size) && 0 <= bytes == Pos(total, size) - from
        invariant HasStored(m, media, lba, done, data[..from])
        invariant at < 0x1_0000_0000_0000_0000 && |media| == |m| < 0x1_0000_0000_0000_0000
        invariant done == 0 ==> media == m
        invariant 0 < done && 0 < bytes ==> CHUNK_BYTES < Pos(total, size)
        decreases bytes
      {
        var chunk := Min(bytes, CHUNK_BYTES);
        IdleFacts();
        ChunkBlocks(total, done, size);
        ghost var cs, rs, was := submitted, results, media;
        var c := chunk / size;
        ok := WriteChunk(at, c, data[from..from + chunk]);
        MovesOn(old(submitted), old(results), cs, rs, submitted, results, true, size, lba, total, done, c);
        if !ok {
          StoppedFacts(old(submitted), old(results), submitted, results, true, size, lba, total, done);
          return;
        }
        assert data[..from + chunk] == data[..from] + data[from..from + chunk];
        WriteGrows(m, was, media, lba, done, c, data[..from], data[from..from + chunk]);
        done := done + c;
        from := from + chunk;
        bytes := bytes - chunk;
        at := at + c;
      }
      PosInjective(done, total, size);
      MovedFacts(old(submitted), old(results), submitted, results, true, size, lba, total, done);
      ok := true;
    }

    /** Writes a range and reads it back: if both transfers succeed, the buffer holds the bytes
        written, whatever number of commands each was cut into. */
    method WriteThenRead(lba: nat, count: nat, data: seq<byte>, out: array<byte>) returns (ok: bool)
      requires Idle() && lba < 0x1_0000_0000_0000_0000 && count < U32_SPAN && out != prp
      requires Pos(BlocksMoved(count, Lba()), Lba()) <= |data| && Pos(BlocksMoved(count, Lba()), Lba()) <= out.Length
      modifies this`sqTail, this`cqHead, this`cqPhase, this`media, this`devHead, this`devPhase,
        this`submitted, this`results, this`reaped, sq, cq, prp, out
      ensures Idle() && old(results) <= results && |results| == |submitted|
      ensures ok <==> forall k :: |old(results)| <= k < |results| ==> results[k] == 0
      ensures !ok ==> |old(results)| < |results| && results[|results| - 1] != 0
      ensures ok ==>
        var bytes := Pos(BlocksMoved(count, Lba()), Lba());
        out[..bytes] == data[..bytes]
      ensures ok && Pos(count, Lba()) < U32_SPAN ==> BlocksMoved(count, Lba()) == count
    {
      hide Controller.Valid, Controller.Idle, Controller.Lba, LbaSizeOk, BlocksMoved, Pos, Tiles, Stores, Flat, Refused;
      IdleFacts();
      ghost var m := media;
      ghost var done;
      ok, done := WriteBlocks(lba, count, data);
      if !ok {
        return;
      }
      MovesAllExactly(count, Lba());
      StoredReads(m, media, lba, done, data[..Pos(done, Lba())]);
      ok, done := ReadBlocks(lba, count, out);
    }
  }

  lemma StoredReads(m: Disk, m': Disk, lba: nat, n: nat, data: seq<byte>)
    requires HasStored(m, m', lba, n, data)
    ensures OnDisk(m', Run(lba, n)) && Flat(m', Run(lba, n)) == data
  {
  }

  /** Nothing was stored yet, or the first `n` blocks were. */
  ghost predicate HasStored(m: Disk, m': Disk, lba: nat, n: nat, data: seq<byte>) {
    if n == 0 then m' == m && data == [] else Stores(m, m', lba, n, data)
  }

  lemma NothingStored(m: Disk, lba: nat)
    ensures HasStored(m, m, lba, 0, [])
  {
  }

  /** The device refused the last command: the commands before it cover `done` blocks, and it was for
      the next ones. */
  ghost predicate Refused(cs: seq<Command>, write: bool, size: nat, lba: nat, total: nat, done: nat) {
    && cs != [] && done < total
    && Tiles(cs[..|cs| - 1], write, size, lba, total, done)
    && Tiles(cs, write, size, lba, total, done + LbaCount(cs[|cs| - 1]))
  }

  /** From the log `s0` with the results `r0` on, all commands succeeded so far and cover `done` blocks. */
  ghost predicate Moving(s0: seq<Command>, r0: seq<nat>, s1: seq<Command>, r1: seq<nat>, write: bool, size: nat,
        lba: nat, total: nat, done: nat) {
    && s0 <= s1 && r0 <= r1 && |s0| == |r0| && |s1| == |r1|
    && (forall k :: |r0| <= k < |r1| ==> r1[k] == 0)
    && Tiles(s1[|s0|..], write, size, lba, total, done)
  }

  ghost predicate Stopped(s0: seq<Command>, r0: seq<nat>, s1: seq<Command>, r1: seq<nat>, write: bool, size: nat,
        lba: nat, total: nat, done: nat) {
    && s0 <= s1 && r0 <= r1 && |s0| == |r0| < |r1| == |s1| && r1[|r1| - 1] != 0
    && (forall k :: |r0| <= k < |r1| - 1 ==> r1[k] == 0)
    && Refused(s1[|s0|..], write, size, lba, total, done)
  }

  /** One more command was issued, and the device completed it. */
  lemma MovesOn(s0: seq<Command>, r0: seq<nat>, s1: seq<Command>, r1: seq<nat>, s2: seq<Command>, r2: seq<nat>,
        write: bool, size: nat, lba: nat, total: nat, k: nat, c: nat)
    requires Moving(s0, r0, s1, r1, write, size, lba, total, k) && lba + k < 0x1_0000_0000_0000_0000
    requires 1 <= c && k + c <= total && Pos(c, size) == Min(4096, Pos(total, size) - Pos(k, size))
    requires s2 == s1 + [Command(write, (lba + k) % U32_SPAN, (lba + k) / U32_SPAN, c - 1)]
    requires |r2| == |s2| && r2[..|r1|] == r1
    ensures if r2[|r1|] == 0 then Moving(s0, r0, s2, r2, write, size, lba, total, k + c)
            else Stopped(s0, r0, s2, r2, write, size, lba, total, k)
  {
    hide Pos, Tiles, Refused;
    var cmd := Command(write, (lba + k) % U32_SPAN, (lba + k) / U32_SPAN, c - 1);
    ChunkTiles(s1[|s0|..], cmd, write, size, lba, total, k, c);
    assert s2[|s0|..] == s1[|s0|..] + [cmd];
    assert forall i :: 0 <= i < |r1| ==> r2[i] == r1[i];
  }

  lemma ChunkTiles(cs: seq<Command>, cmd: Command, write: bool, size: nat, lba: nat, total: nat, k: nat, c: nat)
    requires Tiles(cs, write, size, lba, total, k) && lba + k < 0x1_0000_0000_0000_0000
    requires 1 <= c && k + c <= total && Pos(c, size) == Min(4096, Pos(total, size) - Pos(k, size))
    requires cmd == Command(write, (lba + k) % U32_SPAN, (lba + k) / U32_SPAN, c - 1)
    ensures Tiles(cs + [cmd], write, size, lba, total, k + c)
    ensures Refused(cs + [cmd], write, size, lba, total, k)
  {
    PosSum(k, total - k, size);
    hide Pos, Tiles;
    TilesAppend(cs, cmd, write, size, lba, total, k);
    assert (cs + [cmd])[..|cs|] == cs;
  }

  /** One more chunk was written. */
  lemma WriteGrows(m0: Disk, m1: Disk, m2: Disk, lba: nat, k: nat, c: nat, a: seq<byte>, b: seq<byte>)
    requires HasStored(m0, m1, lba, k, a) && Stores(m1, m2, lba + k, c, b)
    ensures HasStored(m0, m2, lba, k + c, a + b) && lba + k + c <= |m2| == |m0|
  {
    if k == 0 {
      assert a + b == b;
    } else {
      StoresJoin(m0, m1, m2, lba, k, c, a, b);
    }
  }

  /** One more chunk was read. */
  lemma ReadGrows(m: Disk, lba: nat, k: nat, c: nat, size: nat, pre: seq<byte>, post: seq<byte>, was: seq<byte>)
    requires Sized(m, size) && OnDisk(m, Run(lba, k)) && OnDisk(m, Run(lba + k, c))
    requires Pos(k + c, size) <= |was| == |pre|
    requires Pos(k, size) <= |was| && pre == Flat(m, Run(lba, k)) + was[Pos(k, size)..]
    requires Pos(k, size) + Pos(c, size) <= |pre|
    requires post == pre[..Pos(k, size)] + Flat(m, Run(lba + k, c)) + pre[Pos(k, size) + Pos(c, size)..]
    ensures OnDisk(m, Run(lba, k + c)) && post == Flat(m, Run(lba, k + c)) + was[Pos(k + c, size)..]
  {
    hide Flat;
    FlatLength(m, Run(lba, k), size);
    PosSum(k, c, size);
    hide Pos;
    RunSplit(lba, k, c);
    FlatConcat(m, Run(lba, k), Run(lba + k, c));
  }

  lemma TransferStarts(m: Disk, lba: nat, cs: seq<Command>, rs: seq<nat>, write: bool, size: nat, total: nat)
    requires |rs| == |cs|
    ensures OnDisk(m, Run(lba, 0)) && Flat(m, Run(lba, 0)) == [] && Moving(cs, rs, cs, rs, write, size, lba, total, 0)
    ensures Pos(0, size) == 0
  {
  }

  lemma MovedFacts(s0: seq<Command>, r0: seq<nat>, s1: seq<Command>, r1: seq<nat>, write: bool, size: nat, lba: nat,
        total: nat, done: nat)
    requires Moving(s0, r0, s1, r1, write, size, lba, total, done)
    ensures s0 <= s1 && r0 <= r1 && |r1| == |s1| && (forall k :: |r0| <= k < |r1| ==> r1[k] == 0)
    ensures Tiles(s1[|s0|..], write, size, lba, total, done)
  {
    hide Tiles;
  }

  lemma StoppedFacts(s0: seq<Command>, r0: seq<nat>, s1: seq<Command>, r1: seq<nat>, write: bool, size: nat, lba: nat,
        total: nat, done: nat)
    requires Stopped(s0, r0, s1, r1, write, size, lba, total, done)
    ensures s0 <= s1 && r0 <= r1 && |r0| < |r1| == |s1| && r1[|r1| - 1] != 0 && done < total
    ensures forall k :: |r0| <= k < |r1| - 1 ==> r1[k] == 0
    ensures Refused(s1[|s0|..], write, size, lba, total, done)
  {
    hide Tiles;
  }

  /** The next chunk is a whole number of blocks, at least one, and stays within the transfer. */
  lemma ChunkBlocks(total: nat, k: nat, size: nat)
    requires LbaSizeOk(size) && k <= total && Pos(k, size) < Pos(total, size)
    ensures var chunk := Min(Pos(total, size) - Pos(k, size), CHUNK_BYTES);
            var c := chunk / size;
            1 <= c && Pos(c, size) == chunk && k + c <= total && Pos(k + c, size) == Pos(k, size) + chunk
  {
    var left := total - k;
    PosSum(k, left, size);
    if Pos(left, size) <= CHUNK_BYTES {
      DivModUnique(left, 0, size);
    } else {
      var c := CHUNK_BYTES / size;
      PosReflects(c, left, size);
      PosSum(k, c, size);
    }
  }

  lemma PosSum(a: nat, b: nat, size: nat)
    ensures Pos(a + b, size) == Pos(a, size) + Pos(b, size)
  {
  }

  lemma PosReflects(a: nat, b: nat, size: nat)
    requires Pos(a, size) < Pos(b, size)
    ensures a < b
  {
    if b <= a {
      PosMonotone(b, a, size);
    }
  }

  lemma PosInjective(a: nat, b: nat, size: nat)
    requires Pos(a, size) == Pos(b, size) && 0 < size
    ensures a == b
  {
    if a < b {
      ScaledApart(a, b, size);
    } else if b < a {
      ScaledApart(b, a, size);
    }
  }
}
