/** Allocation bitmaps: one bit a block or inode, scanned and set in place
    (fs/ext4/ext4.c, ext4_alloc_block_run and ext4_alloc_inode). */
module Bitmap {
  import opened Bytes

  /** `v >> k`. */
  function Shr(v: nat, k: nat): nat {
    if k == 0 then v else Shr(v / 2, k - 1)
  }

  /** `(v >> k) & 1`, as a truth value. */
  predicate BitOf(v: nat, k: nat) {
    Shr(v, k) % 2 == 1
  }

  /** `v | (1 << k)`. */
  function Or(v: nat, k: nat): (r: nat)
    ensures BitOf(r, k)
  {
    if k == 0 then v - v % 2 + 1 else v % 2 + 2 * Or(v / 2, k - 1)
  }

  lemma {:induction false} OrKeepsOthers(v: nat, k: nat, j: nat)
    requires j != k
    ensures BitOf(Or(v, k), j) == BitOf(v, j)
  {
    if k != 0 && j != 0 {
      OrKeepsOthers(v / 2, k - 1, j - 1);
      assert Or(v, k) / 2 == Or(v / 2, k - 1);
    }
  }

  function Exp2(w: nat): nat {
    if w == 0 then 1 else 2 * Exp2(w - 1)
  }

  lemma {:induction false} OrFits(v: nat, k: nat, w: nat)
    requires v < Exp2(w) && k < w
    ensures Or(v, k) < Exp2(w)
  {
    if k != 0 {
      OrFits(v / 2, k - 1, w - 1);
    }
  }

  /** The bitmap bit `i`. */
  predicate Bit(bm: seq<byte>, i: nat)
    requires i < 8 * |bm|
  {
    BitOf(bm[i / 8], i % 8)
  }

  /** `bm[i / 8] |= 1 << (i % 8)`. */
  function OrByte(v: byte, k: nat): (r: byte)
    requires k < 8
    ensures r == Or(v, k)
  {
    assert Exp2(8) == 256 by { assert Exp2(4) == 16; }
    OrFits(v, k, 8);
    Or(v, k)
  }

  function SetBit(bm: seq<byte>, i: nat): (r: seq<byte>)
    requires i < 8 * |bm|
    ensures |r| == |bm|
  {
    bm[i / 8 := OrByte(bm[i / 8], i % 8)]
  }

  lemma SetBitBits(bm: seq<byte>, i: nat, j: nat)
    requires i < 8 * |bm| && j < 8 * |bm|
    ensures Bit(SetBit(bm, i), j) == (j == i || Bit(bm, j))
  {
    if i / 8 == j / 8 && i != j {
      OrKeepsOthers(bm[i / 8], i % 8, j % 8);
    }
  }

  /** Every bit of `[start, start + count)` is clear. */
  predicate ClearRun(bm: seq<byte>, start: nat, count: nat)
    requires start + count <= 8 * |bm|
  {
    forall j :: start <= j < start + count ==> !Bit(bm, j)
  }

  /** `after` is `before` with exactly the bits of `[start, start + count)` set on top. */
  predicate SetsRun(before: seq<byte>, after: seq<byte>, start: nat, count: nat) {
    && |after| == |before|
    && forall j :: 0 <= j < 8 * |before| ==> (Bit(after, j) <==> (start <= j < start + count || Bit(before, j)))
  }

  /** The number of clear bits below `n`. */
  function FreeCount(bm: seq<byte>, n: nat): (r: nat)
    requires n <= 8 * |bm|
    ensures r <= n
  {
    if n == 0 then 0 else FreeCount(bm, n - 1) + if Bit(bm, n - 1) then 0 else 1
  }

  /** Conservation: claiming a run of clear bits lowers the number of clear bits by exactly its length. */
  lemma {:induction false} ClaimLowersFree(before: seq<byte>, after: seq<byte>, start: nat, count: nat, n: nat)
    requires n <= 8 * |before| && start + count <= 8 * |before|
    requires ClearRun(before, start, count) && SetsRun(before, after, start, count)
    ensures FreeCount(before, n) == FreeCount(after, n)
              + if n <= start then 0 else if n <= start + count then n - start else count
  {
    if n != 0 {
      ClaimLowersFree(before, after, start, count, n - 1);
    }
  }

  /** No `count` consecutive clear bits below `limit`. */
  predicate NoRunBelow(bm: seq<byte>, count: nat, limit: nat)
    requires limit <= 8 * |bm|
  {
    forall s :: 0 <= s && s + count <= limit ==> !ClearRun(bm, s, count)
  }

  /** First fit over the first `total` bits: finds the lowest start of `count` consecutive
      clear bits and sets them, or finds that there is none and leaves the bitmap alone.
      A count of zero never matches, since the run counter is compared after it grew. */
  method ClaimFirstRun(bitmap: array<byte>, total: nat, count: nat) returns (found: bool, start: nat)
    requires total <= 8 * bitmap.Length
    modifies bitmap
    ensures found ==> 0 < count && start + count <= total
    ensures found ==> ClearRun(old(bitmap[..]), start, count)
    ensures found ==> forall s :: 0 <= s < start ==> !ClearRun(old(bitmap[..]), s, count)
    ensures found ==> SetsRun(old(bitmap[..]), bitmap[..], start, count)
    ensures !found ==> bitmap[..] == old(bitmap[..])
    ensures !found && 0 < count ==> NoRunBelow(old(bitmap[..]), count, total)
    ensures count == 0 ==> !found
  {
    ghost var bm := bitmap[..];
    var run := 0;
    start := 0;
    var i := 0;
    while i < total
      invariant 0 <= run <= i <= total
      invariant bitmap[..] == bm
      invariant 0 < count ==> run < count
      invariant 0 < run ==> start == i - run
      invariant forall j :: i - run <= j < i ==> !Bit(bm, j)
      invariant run < i ==> Bit(bm, i - run - 1)
      invariant 0 < count ==> NoRunBelow(bm, count, i)
    {
      var used := BitOf(bitmap[i / 8], i % 8);
      if !used {
        if run == 0 {
          start := i;
        }
        run := run + 1;
        if run == count {
          assert ClearRun(bm, start, count);
          SetRun(bitmap, start, count);
          return true, start;
        }
      } else {
        run := 0;
      }
      i := i + 1;
      NoRunStep(bm, count, i, run);
    }
    return false, start;
  }

  lemma NoRunStep(bm: seq<byte>, count: nat, i: nat, run: nat)
    requires 0 < i <= 8 * |bm| && run <= i
    requires 0 < count ==> run < count && NoRunBelow(bm, count, i - 1)
    requires run < i ==> Bit(bm, i - run - 1)
    ensures 0 < count ==> NoRunBelow(bm, count, i)
  {
    if 0 < count {
      forall s | 0 <= s && s + count <= i
        ensures !ClearRun(bm, s, count)
      {
        if s + count == i {
          var w := i - run - 1;
          assert s <= w < s + count && Bit(bm, w);
        }
      }
    }
  }

  /** The marking loop: sets the bits of the run one at a time. */
  method SetRun(bitmap: array<byte>, start: nat, count: nat)
    requires start + count <= 8 * bitmap.Length
    modifies bitmap
    ensures SetsRun(old(bitmap[..]), bitmap[..], start, count)
  {
    ghost var bm := bitmap[..];
    var j := 0;
    while j < count
      invariant 0 <= j <= count
      invariant SetsRun(bm, bitmap[..], start, j)
    {
      ghost var was := bitmap[..];
      var idx := start + j;
      bitmap[idx / 8] := OrByte(bitmap[idx / 8], idx % 8);
      assert bitmap[..] == SetBit(was, idx);
      forall k | 0 <= k < 8 * |bm|
        ensures Bit(bitmap[..], k) <==> (start <= k < start + j + 1 || Bit(bm, k))
      {
        SetBitBits(was, idx, k);
      }
      j := j + 1;
    }
  }

  /** Claims the lowest clear bit below `total`. */
  method ClaimFirstBit(bitmap: array<byte>, total: nat) returns (found: bool, index: nat)
    requires total <= 8 * bitmap.Length
    modifies bitmap
    ensures found ==> index < total && !Bit(old(bitmap[..]), index)
    ensures found ==> forall j :: 0 <= j < index ==> Bit(old(bitmap[..]), j)
    ensures found ==> SetsRun(old(bitmap[..]), bitmap[..], index, 1)
    ensures !found ==> bitmap[..] == old(bitmap[..]) && forall j :: 0 <= j < total ==> Bit(bitmap[..], j)
  {
    ghost var bm := bitmap[..];
    index := 0;
    while index < total
      invariant 0 <= index <= total
      invariant bitmap[..] == bm
      invariant forall j :: 0 <= j < index ==> Bit(bm, j)
    {
      var used := BitOf(bitmap[index / 8], index % 8);
      if !used {
        SetRun(bitmap, index, 1);
        return true, index;
      }
      index := index + 1;
    }
    return false, index;
  }
}
