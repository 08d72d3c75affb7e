/** The RTL8139 receive ring: a device that appends frames at any moment and a driver that
    polls one frame at a time behind a single "receive OK" flag (drivers/net/rtl8139.c,
    rtl8139_poll). */
module RxRing {
  import opened Bytes

  const RING_BYTES := 8192
  /** The ring and the room behind it into which a frame may run past the end. */
  const BUFFER_BYTES := 8192 + 16 + 1500
  const MAX_FRAME := 1516

  type Frame = seq<byte>

  /** How far a frame of `len` bytes moves the offsets: header and data, rounded up to 4. */
  function Stride(len: nat): (r: nat)
    ensures len + 4 <= r < len + 8 && r % 4 == 0
  {
    (len + 4 + 3) / 4 * 4
  }

  /** The stream position behind all frames. */
  function End(frames: seq<Frame>): (r: nat)
    ensures r % 4 == 0
  {
    if frames == [] then 0 else End(frames[..|frames| - 1]) + Stride(|frames[|frames| - 1]|)
  }

  /** The ring offset of frame number `k`. */
  function OffsetOf(frames: seq<Frame>, k: nat): nat
    requires k <= |frames|
  {
    End(frames[..k]) % RING_BYTES
  }

  lemma EndStep(frames: seq<Frame>, k: nat)
    requires k < |frames|
    ensures End(frames[..k + 1]) == End(frames[..k]) + Stride(|frames[k]|)
  {
    assert frames[..k + 1][..k] == frames[..k];
  }

  lemma {:induction false} EndMonotone(frames: seq<Frame>, i: nat, j: nat)
    requires i <= j <= |frames|
    ensures End(frames[..i]) <= End(frames[..j])
    decreases j
  {
    if i < j {
      EndMonotone(frames, i, j - 1);
      EndStep(frames, j - 1);
    }
  }

  lemma EndAppend(frames: seq<Frame>, f: Frame, k: nat)
    requires k <= |frames|
    ensures End((frames + [f])[..k]) == End(frames[..k])
    ensures End(frames + [f]) == End(frames) + Stride(|f|)
  {
    assert (frames + [f])[..k] == frames[..k];
    assert (frames + [f])[..|frames|] == frames;
  }

  /** Frame `f` stands at `off`: status with the OK bit, length, data. */
  predicate Stands(rx: seq<byte>, off: nat, f: Frame) {
    && off + 4 + |f| <= |rx|
    && U16(rx, off) % 2 == 1
    && U16(rx, off + 2) == |f|
    && rx[off + 4..off + 4 + |f|] == f
  }

  /** The bytes the device stores for a frame. */
  function FrameBytes(status: nat, f: Frame): (r: seq<byte>)
    requires status < 0x1_0000 && |f| < 0x1_0000
    ensures |r| == 4 + |f|
  {
    LE16(status) + LE16(|f|) + f
  }

  lemma FrameFields(status: nat, f: Frame)
    requires status < 0x1_0000 && |f| < 0x1_0000
    ensures var b := FrameBytes(status, f); U16(b, 0) == status && U16(b, 2) == |f| && b[4..] == f
  {
    var b, st, ln := FrameBytes(status, f), LE16(status), LE16(|f|);
    assert b[0] == st[0] && b[1] == st[1] && b[2] == ln[0] && b[3] == ln[1];
  }

  lemma StoredStands(rx: seq<byte>, off: nat, status: nat, f: Frame)
    requires status < 0x1_0000 && status % 2 == 1 && |f| < 0x1_0000 && off + 4 + |f| <= |rx|
    ensures Stands(Splice(rx, off, FrameBytes(status, f)), off, f)
  {
    var b := FrameBytes(status, f);
    var r := Splice(rx, off, b);
    FrameFields(status, f);
    hide FrameBytes;
    assert r[off] == b[0] && r[off + 1] == b[1] && r[off + 2] == b[2] && r[off + 3] == b[3];
    forall i | 0 <= i < |f|
      ensures r[off + 4 + i] == f[i]
    {
      assert b[4 + i] == b[4..][i];
    }
  }

  /** Bytes stored elsewhere do not disturb a frame. */
  lemma StandsElsewhere(rx: seq<byte>, off: nat, f: Frame, at: nat, b: seq<byte>)
    requires Stands(rx, off, f) && at + |b| <= |rx|
    requires at + |b| <= off || off + 4 + |f| <= at
    ensures Stands(Splice(rx, at, b), off, f)
  {
    var r := Splice(rx, at, b);
    assert forall i :: off <= i < off + 4 + |f| ==> r[i] == rx[i];
    assert r[off + 4..off + 4 + |f|] == rx[off + 4..off + 4 + |f|];
  }

  /** A frame whose stream interval is apart from another's by less than a lap is apart from it in
      the buffer as well, although only positions below the ring size wrap. */
  lemma ApartInBuffer(p: nat, len: nat, q: nat, len2: nat)
    requires p + Stride(len) <= q && q + Stride(len2) <= p + RING_BYTES
    ensures q % RING_BYTES + 4 + len2 <= p % RING_BYTES || p % RING_BYTES + 4 + len <= q % RING_BYTES
  {
  }

  /** Frames `from` on stand in the buffer. */
  ghost predicate AllStand(rx: seq<byte>, frames: seq<Frame>, from: nat) {
    forall k :: from <= k < |frames| ==> Stands(rx, OffsetOf(frames, k), frames[k])
  }

  /** Storing one more frame behind the unread ones leaves all of them standing, as long as they
      fill at most one lap together. */
  lemma FramesStand(rx: seq<byte>, frames: seq<Frame>, from: nat, status: nat, f: Frame)
    requires from <= |frames| && AllStand(rx, frames, from) && |rx| == BUFFER_BYTES && |f| <= MAX_FRAME
    requires status < 0x1_0000 && status % 2 == 1
    requires End(frames[..|frames|]) + Stride(|f|) - End(frames[..from]) <= RING_BYTES
    ensures OffsetOf(frames, |frames|) + 4 + |f| <= BUFFER_BYTES
    ensures AllStand(Splice(rx, OffsetOf(frames, |frames|), FrameBytes(status, f)), frames + [f], from)
  {
    hide End, Stands, FrameBytes, Stride;
    var at := OffsetOf(frames, |frames|);
    RingAligned(End(frames[..|frames|]));
    forall k | from <= k < |frames| + 1
      ensures Stands(Splice(rx, at, FrameBytes(status, f)), OffsetOf(frames + [f], k), (frames + [f])[k])
    {
      EndAppend(frames, f, k);
      if k == |frames| {
        StoredStands(rx, at, status, f);
      } else {
        EndStep(frames, k);
        EndMonotone(frames, k + 1, |frames|);
        EndMonotone(frames, from, k);
        ApartInBuffer(End(frames[..k]), |frames[k]|, End(frames[..|frames|]), |f|);
        StandsElsewhere(rx, OffsetOf(frames, k), frames[k], at, FrameBytes(status, f));
      }
    }
  }

  /** The device is right behind the last frame, and the unread frames fit the ring and stand. */
  ghost predicate LaidOut(rx: seq<byte>, devOffset: nat, arrived: seq<Frame>, consumed: nat)
    requires consumed <= |arrived|
  {
    && devOffset == OffsetOf(arrived, |arrived|)
    && End(arrived[..|arrived|]) - End(arrived[..consumed]) <= RING_BYTES
    && (forall k :: 0 <= k < |arrived| ==> |arrived[k]| <= MAX_FRAME)
    && AllStand(rx, arrived, consumed)
  }

  lemma OldestStands(rx: seq<byte>, devOffset: nat, arrived: seq<Frame>, k: nat)
    requires k < |arrived| && LaidOut(rx, devOffset, arrived, k)
    ensures Stands(rx, OffsetOf(arrived, k), arrived[k]) && |arrived[k]| <= MAX_FRAME
  {
    hide End, Stands;
  }

  lemma OneLess(rx: seq<byte>, devOffset: nat, arrived: seq<Frame>, k: nat)
    requires k < |arrived| && LaidOut(rx, devOffset, arrived, k)
    ensures LaidOut(rx, devOffset, arrived, k + 1)
  {
    hide End, Stands;
    EndMonotone(arrived, k, k + 1);
  }

  /** What was handed out, frame by frame: the beginning of the frame that arrived. */
  ghost predicate Prefixes(handed: seq<Frame>, arrived: seq<Frame>) {
    |handed| <= |arrived| && forall k :: 0 <= k < |handed| ==> handed[k] <= arrived[k]
  }

  lemma PrefixesStay(handed: seq<Frame>, arrived: seq<Frame>, later: seq<Frame>)
    requires Prefixes(handed, arrived) && arrived <= later
    ensures Prefixes(handed, later)
  {
  }

  lemma PrefixesGrow(handed: seq<Frame>, arrived: seq<Frame>, len: nat)
    requires Prefixes(handed, arrived) && |handed| < |arrived| && len <= |arrived[|handed|]|
    ensures Prefixes(handed + [arrived[|handed|][..len]], arrived)
  {
  }

  /** The ring has room for frame `f` behind the unread ones. */
  predicate Fits(arrived: seq<Frame>, consumed: nat, f: Frame)
    requires consumed <= |arrived|
  {
    |f| <= MAX_FRAME && End(arrived) + Stride(|f|) - End(arrived[..consumed]) <= RING_BYTES
  }

  /** The frames in the ring after `frames` came in: those without room were dropped. */
  function Taken(arrived: seq<Frame>, consumed: nat, frames: seq<Frame>): (r: seq<Frame>)
    requires consumed <= |arrived|
    ensures arrived <= r
    decreases |frames|
  {
    if frames == [] then arrived
    else Taken(if Fits(arrived, consumed, frames[0]) then arrived + [frames[0]] else arrived, consumed, frames[1..])
  }

  /** The frames in the ring after the first `n` steps of a copy, of which step `i` is followed by the
      frames `copying(i)`. */
  function TakenCopying(arrived: seq<Frame>, consumed: nat, copying: nat -> seq<Frame>, n: nat): (r: seq<Frame>)
    requires consumed <= |arrived|
    ensures arrived <= r
  {
    if n == 0 then arrived else Taken(TakenCopying(arrived, consumed, copying, n - 1), consumed, copying(n - 1))
  }

  /** What comes in during one poll: between the test of the flag and its acknowledgement, then before
      the header is read, then after each byte that is copied. */
  datatype Line = Line(beforeAck: seq<Frame>, beforeHeader: seq<Frame>, copying: nat -> seq<Frame>)

  const QUIET := Line([], [], _ => [])

  class Ring {
    const rx: array<byte>
    /** The driver's read offset and the device's flag and write offset. */
    var rxOffset: nat
    var rok: bool
    var devOffset: nat
    /** All frames the device took, and how many of them the driver has consumed. */
    var arrived: seq<Frame>
    var consumed: nat
    /** What the driver handed out, and how many frames had arrived when it last cleared the flag. */
    ghost var handed: seq<Frame>
    ghost var seen: nat

    ghost predicate Laid()
      reads this, rx
    {
      && rx.Length == BUFFER_BYTES
      && consumed <= seen <= |arrived| && (rok <==> seen < |arrived|)
      && LaidOut(rx[..], devOffset, arrived, consumed)
    }

    ghost predicate Valid()
      reads this, rx
    {
      Laid() && rxOffset == OffsetOf(arrived, consumed) && |handed| == consumed && Prefixes(handed, arrived)
    }

    constructor ()
      ensures Valid() && arrived == [] && consumed == seen == 0 && !rok && fresh(rx)
    {
      rx := new byte[BUFFER_BYTES];
      rxOffset, rok, devOffset, arrived, consumed, handed, seen := 0, false, 0, [], 0, [], 0;
    }

    /** The device receives a frame: it appends it and sets the flag, or drops it for lack of room. */
    method Receive(f: Frame)
      requires Laid()
      modifies rx, this`rok, this`devOffset, this`arrived
      ensures Laid() && arrived == if old(Fits(arrived, consumed, f)) then old(arrived) + [f] else old(arrived)
      ensures rok <==> old(rok) || |arrived| > |old(arrived)|
    {
      hide End, Stands, FrameBytes, Stride, AllStand;
      if !Fits(arrived, consumed, f) {
        return;
      }
      var status :| 0 <= status < 0x1_0000 && status % 2 == 1;
      ghost var was, frames := rx[..], arrived;
      assert frames[..|frames|] == frames;
      StoreAt(rx, devOffset, FrameBytes(status, f));
      arrived := arrived + [f];
      rok := true;
      EndAppend(frames, f, |frames|);
      EndAppend(frames, f, consumed);
      OffsetAdvances(End(frames), Stride(|f|));
      devOffset := (devOffset + Stride(|f|)) % RING_BYTES;
      FramesStand(was, frames, consumed, status, f);
      assert arrived[..|arrived|] == arrived;
    }

    /** Frames that come in between two statements of the driver. */
    method Meanwhile(frames: seq<Frame>)
      requires Laid()
      modifies rx, this`rok, this`devOffset, this`arrived
      ensures Laid() && old(arrived) <= arrived && arrived[..consumed] == old(arrived[..consumed])
      ensures arrived == Taken(old(arrived), consumed, frames)
      ensures rok <==> old(rok) || |arrived| > |old(arrived)|
    {
      hide LaidOut, Fits;
      var i := 0;
      assert frames[0..] == frames;
      while i < |frames|
        invariant 0 <= i <= |frames| && Laid() && old(arrived) <= arrived
        invariant Taken(arrived, consumed, frames[i..]) == Taken(old(arrived), consumed, frames)
        invariant rok <==> old(rok) || |arrived| > |old(arrived)|
      {
        assert frames[i..][1..] == frames[i + 1..];
        Receive(frames[i]);
        i := i + 1;
      }
    }

    /** The copy loop: frames keep arriving, but never over the one being copied. */
    method CopyOut(out: array<byte>, offset: nat, len: nat, copying: nat -> seq<Frame>)
      requires Laid() && consumed < |arrived| && offset == OffsetOf(arrived, consumed)
      requires len <= |arrived[consumed]| && len <= out.Length && out != rx
      modifies rx, this`rok, this`devOffset, this`arrived, out
      ensures Laid() && old(arrived) <= arrived && arrived[..consumed] == old(arrived[..consumed])
      ensures rok <==> old(rok) || |arrived| > |old(arrived)|
      ensures arrived == TakenCopying(old(arrived), consumed, copying, len)
      ensures out[..len] == arrived[consumed][..len]
    {
      hide End, Stands, LaidOut, Taken, Fits;
      ghost var f := arrived[consumed];
      var i := 0;
      while i < len
        invariant 0 <= i <= len && Laid()
        invariant old(arrived) <= arrived && arrived[..consumed] == old(arrived[..consumed]) && arrived[consumed] == f
        invariant rok <==> old(rok) || |arrived| > |old(arrived)|
        invariant arrived == TakenCopying(old(arrived), consumed, copying, i)
        invariant out[..i] == f[..i]
      {
        OldestStands(rx[..], devOffset, arrived, consumed);
        FrameHere(rx[..], offset, f);
        out[i] := rx[offset + 4 + i];
        Meanwhile(copying(i));
        i := i + 1;
      }
    }

    /** One poll: hands out the oldest unread frame, cut to `maxLen`, exactly if the flag is set. The
        offset advances by what was copied, so the ring stays readable exactly if the cut does not
        change the stride. A frame is left waiting behind a clear flag exactly if it had arrived
        before the flag was last cleared and nothing arrived since; so a frame that comes in behind the
        acknowledgement always sets the flag again. */
    method Poll(out: array<byte>, maxLen: nat, line: Line) returns (got: bool, len: nat)
      requires Valid() && maxLen <= out.Length && out != rx
      modifies this, rx, out
      ensures old(arrived) <= arrived && Laid()
      ensures got <==> old(rok)
      ensures !got ==> Valid() && consumed == old(consumed) && seen == old(seen) && handed == old(handed)
      ensures got ==> consumed == old(consumed) + 1 && len == Min(|arrived[consumed - 1]|, maxLen)
      ensures got ==> out[..len] == arrived[consumed - 1][..len] && handed == old(handed) + [out[..len]]
      ensures got ==> rxOffset % 4 == 0 && rxOffset < RING_BYTES && |old(arrived)| <= seen
      ensures got ==> (Valid() <==> Stride(len) == Stride(|arrived[consumed - 1]|))
      ensures !got && old(consumed) < |old(arrived)| <==> old(consumed) < |old(arrived)| == old(seen)
      ensures !got ==> arrived == Taken(old(arrived), consumed, line.beforeAck)
      ensures got ==>
        var acked := Taken(old(arrived), old(consumed), line.beforeAck);
        var begun := Taken(acked, old(consumed), line.beforeHeader);
        && seen == |acked| && arrived == TakenCopying(begun, old(consumed), line.copying, len)
        && (rok <==> |acked| < |arrived|)
    {
      hide End, Stands, Stride, NextOffset, LaidOut, Prefixes, Taken, TakenCopying, Fits;
      got, len := false, 0;
      var isr := rok;
      Meanwhile(line.beforeAck);
      PrefixesStay(handed, old(arrived), arrived);
      if !isr {
        return;
      }
      rok := false;
      seen := |arrived|;
      Meanwhile(line.beforeHeader);
      var offset := rxOffset;
      OldestStands(rx[..], devOffset, arrived, consumed);
      FrameHere(rx[..], offset, arrived[consumed]);
      var status := LoadU16(rx, offset);
      var length := LoadU16(rx, offset + 2);
      if status % 2 == 0 {
        assert false;
        return;
      }
      len := Min(length, maxLen);
      CopyOut(out, offset, len, line.copying);
      OldestStands(rx[..], devOffset, arrived, consumed);
      NextFrame(arrived, consumed, len);
      OneLess(rx[..], devOffset, arrived, consumed);
      PrefixesStay(handed, old(arrived), arrived);
      PrefixesGrow(handed, arrived, len);
      offset := NextOffset(offset, len);
      rxOffset := offset;
      consumed := consumed + 1;
      handed := handed + [out[..len]];
      got := true;
    }
  }

  /** As long as no frame was cut, what was handed out is exactly what arrived, in order. */
  lemma HandedInOrder(handed: seq<Frame>, arrived: seq<Frame>)
    requires Prefixes(handed, arrived) && forall k :: 0 <= k < |handed| ==> |handed[k]| == |arrived[k]|
    ensures handed == arrived[..|handed|]
  {
    forall k | 0 <= k < |handed|
      ensures handed[k] == arrived[k]
    {
      assert handed[k] <= arrived[k];
    }
  }

  /** Two frames arrive before the first poll and none during it. It hands out the first and clears
      the flag for both, so the second poll finds nothing, although a frame is waiting. */
  method StrandedFrame(f: Frame, g: Frame, out: array<byte>) returns (r: Ring, first: bool, second: bool)
    requires |f| <= 1500 && |g| <= 1500 && MAX_FRAME <= out.Length
    modifies out
    ensures first && !second && r.Valid() && r.arrived == [f, g] && r.consumed == 1 && r.handed == [f] && !r.rok
  {
    hide LaidOut;
    r := new Ring();
    RoomForTwo(f, g);
    r.Receive(f);
    r.Receive(g);
    var len;
    QuietTakes([f, g], 0, |f|);
    first, len := r.Poll(out, MAX_FRAME, QUIET);
    assert r.handed == [f[..len]] && f[..len] == f;
    second, len := r.Poll(out, MAX_FRAME, QUIET);
  }

  lemma {:induction false} QuietTakes(arrived: seq<Frame>, consumed: nat, n: nat)
    requires consumed <= |arrived|
    ensures TakenCopying(arrived, consumed, QUIET.copying, n) == arrived
  {
    if n > 0 {
      QuietTakes(arrived, consumed, n - 1);
    }
  }

  /** The second frame comes in after the first byte of the first frame was copied. Its flag is not
      cleared any more, so the second poll hands it out. */
  method CaughtFrame(f: Frame, g: Frame, out: array<byte>) returns (r: Ring, first: bool, second: bool)
    requires 1 <= |f| <= 1500 && |g| <= 1500 && MAX_FRAME <= out.Length
    modifies out
    ensures first && second && r.Valid() && r.arrived == [f, g] && r.consumed == 2 && r.handed == [f, g] && !r.rok
  {
    hide LaidOut;
    r := new Ring();
    RoomForTwo(f, g);
    r.Receive(f);
    var len;
    var line := Line([], [], i => if i == 0 then [g] else []);
    FirstByteTakes(f, g, line.copying, |f|);
    first, len := r.Poll(out, MAX_FRAME, line);
    assert r.handed == [f[..len]] && f[..len] == f;
    QuietTakes([f, g], 1, |g|);
    second, len := r.Poll(out, MAX_FRAME, QUIET);
    assert r.handed == [f] + [g[..len]] && g[..len] == g;
  }

  lemma {:induction false} FirstByteTakes(f: Frame, g: Frame, copying: nat -> seq<Frame>, n: nat)
    requires |f| <= 1500 && |g| <= 1500 && 1 <= n
    requires copying(0) == [g] && forall i: nat :: 0 < i ==> copying(i) == []
    ensures TakenCopying([f], 0, copying, n) == [f, g]
  {
    if n == 1 {
      RoomForTwo(f, g);
      assert TakenCopying([f], 0, copying, 0) == [f] && [g][1..] == [] && [f][..0] == [];
      assert Fits([f], 0, g);
      assert Taken([f] + [g], 0, []) == [f] + [g];
    } else {
      FirstByteTakes(f, g, copying, n - 1);
    }
  }

  lemma RoomForTwo(f: Frame, g: Frame)
    requires |f| <= 1500 && |g| <= 1500
    ensures [f] + [g] == [f, g] && End([]) == 0 && End([f]) == Stride(|f|) && [] + [f] == [f]
  {
    assert [f][..0] == [];
  }

  /** `(offset + length + 4 + 3) & ~3`, brought back into the ring. */
  function NextOffset(offset: nat, len: nat): nat {
    var o := (offset + len + 4 + 3) / 4 * 4;
    if o >= RING_BYTES then o - RING_BYTES else o
  }

  lemma FrameHere(rx: seq<byte>, off: nat, f: Frame)
    requires Stands(rx, off, f)
    ensures off + 4 + |f| <= |rx| && U16(rx, off) % 2 == 1 && U16(rx, off + 2) == |f|
    ensures forall i :: 0 <= i < |f| ==> f[i] == rx[off + 4 + i]
  {
    var data := rx[off + 4..off + 4 + |f|];
    assert forall i :: 0 <= i < |f| ==> data[i] == rx[off + 4 + i];
  }

  lemma RoundedFrom(o: nat, x: nat)
    requires o % 4 == 0
    ensures (o + x) / 4 * 4 == o + x / 4 * 4
  {
  }

  lemma WrapOnce(p: nat, step: nat)
    requires step <= RING_BYTES
    ensures (p + step) % RING_BYTES ==
      if p % RING_BYTES + step >= RING_BYTES then p % RING_BYTES + step - RING_BYTES else p % RING_BYTES + step
  {
  }

  lemma OffsetAdvances(p: nat, step: nat)
    ensures (p % RING_BYTES + step) % RING_BYTES == (p + step) % RING_BYTES
  {
  }

  lemma RingAligned(p: nat)
    requires p % 4 == 0
    ensures p % RING_BYTES % 4 == 0
  {
  }

  /** The offset arithmetic of the driver is the stream arithmetic of the ring. */
  lemma StrideWraps(p: nat, len: nat)
    requires p % 4 == 0 && len <= MAX_FRAME
    ensures NextOffset(p % RING_BYTES, len) == (p + Stride(len)) % RING_BYTES
    ensures NextOffset(p % RING_BYTES, len) % 4 == 0
  {
    var o := p % RING_BYTES;
    RingAligned(p);
    RoundedFrom(o, len + 4 + 3);
    assert (o + len + 4 + 3) / 4 * 4 == o + Stride(len);
    hide Stride;
    WrapOnce(p, Stride(len));
  }

  /** Different strides lead to different offsets. */
  lemma StridesDiffer(p: nat, a: nat, b: nat)
    requires a <= MAX_FRAME && b <= MAX_FRAME && (p + Stride(a)) % RING_BYTES == (p + Stride(b)) % RING_BYTES
    ensures Stride(a) == Stride(b)
  {
    WrapOnce(p, Stride(a));
    WrapOnce(p, Stride(b));
  }

  /** Advancing from frame `k` by the stride of `len` copied bytes. */
  lemma NextFrame(frames: seq<Frame>, k: nat, len: nat)
    requires k < |frames| && len <= |frames[k]| <= MAX_FRAME
    ensures NextOffset(OffsetOf(frames, k), len) == OffsetOf(frames, k + 1) <==> Stride(len) == Stride(|frames[k]|)
    ensures NextOffset(OffsetOf(frames, k), len) % 4 == 0 && NextOffset(OffsetOf(frames, k), len) < RING_BYTES
  {
    hide End, Stride, NextOffset;
    var p := End(frames[..k]);
    EndStep(frames, k);
    StrideWraps(p, len);
    StrideWraps(p, |frames[k]|);
    if (p + Stride(len)) % RING_BYTES == (p + Stride(|frames[k]|)) % RING_BYTES {
      StridesDiffer(p, len, |frames[k]|);
    }
  }
}
