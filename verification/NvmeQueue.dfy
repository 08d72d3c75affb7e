/** The phase bit of an NVMe completion queue (drivers/storage/nvme.c, nvme_submit_cmd;
    NVM Express 1.4, section 4.6): the device writes completions around the ring, inverting
    the bit on every lap, and the host knows a new entry by the bit it expects. */
module NvmeQueue {
  import opened Arith

  /** The bit the host expects for completion number `n`, and the device gives it. */
  function Phase(n: nat, depth: nat): (p: nat)
    requires 0 < depth
    ensures p <= 1
  {
    if n / depth % 2 == 0 then 1 else 0
  }

  /** How often slot `i` has been written after `n` completions; an unwritten slot has bit 0. */
  function SlotWrites(n: nat, depth: nat, i: nat): nat
    requires 0 < depth
  {
    if n == 0 then 0 else SlotWrites(n - 1, depth, i) + if (n - 1) % depth == i then 1 else 0
  }

  lemma {:induction false} SlotWritesClosed(n: nat, depth: nat, i: nat)
    requires i < depth
    ensures SlotWrites(n, depth, i) == n / depth + if i < n % depth then 1 else 0
  {
    if n == 0 {
      DivModUnique(0, 0, depth);
    } else {
      SlotWritesClosed(n - 1, depth, i);
      DivModStep(n - 1, depth);
    }
  }

  /** With `reaped` completions consumed and `posted` of them written, never a full lap more, the
      bit in the slot the host looks at is the expected one exactly if there is a new entry. */
  lemma FreshExactly(reaped: nat, posted: nat, depth: nat)
    requires 0 < depth && reaped <= posted <= reaped + depth
    ensures SlotWrites(posted, depth, reaped % depth) % 2 == Phase(reaped, depth) <==> reaped < posted
  {
    hide SlotWrites;
    var q, r := reaped / depth, reaped % depth;
    assert reaped == q * depth + r;
    FreshOnLap(q, r, posted - reaped + r, depth);
    assert q * depth + (posted - reaped + r) == posted;
  }

  lemma NextLap(q: nat, depth: nat)
    ensures (q + 1) * depth == q * depth + depth
  {
  }

  lemma FreshOnLap(q: nat, r: nat, t: nat, depth: nat)
    requires r < depth && r <= t <= r + depth
    ensures SlotWrites(q * depth + t, depth, r) == if r < t then q + 1 else q
  {
    hide SlotWrites;
    SlotWritesClosed(q * depth + t, depth, r);
    if t < depth {
      DivModUnique(q, t, depth);
    } else {
      NextLap(q, depth);
      DivModUnique(q + 1, t - depth, depth);
    }
  }

  /** One completion more is one write more to its own slot. */
  lemma SlotsPosted(n: nat, depth: nat)
    requires 0 < depth
    ensures forall i :: 0 <= i < depth ==>
      SlotWrites(n + 1, depth, i) == SlotWrites(n, depth, i) + if n % depth == i then 1 else 0
  {
  }

  /** The bit the device writes for completion `n` is the next one for its slot. */
  lemma SlotBit(n: nat, depth: nat)
    requires 0 < depth
    ensures (SlotWrites(n, depth, n % depth) + 1) % 2 == Phase(n, depth)
  {
    SlotWritesClosed(n, depth, n % depth);
  }

  /** The host's registers after `n` completions: a counter modulo the depth and a bit that flips
      whenever the counter wraps. */
  lemma Advance(n: nat, depth: nat)
    requires 0 < depth
    ensures (n % depth + 1) % depth == (n + 1) % depth
    ensures Phase(n + 1, depth) == if (n + 1) % depth == 0 then 1 - Phase(n, depth) else Phase(n, depth)
  {
    DivModStep(n, depth);
  }
}
