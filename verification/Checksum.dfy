/** The Internet checksum over little-endian words (net/net.c, checksum16; RFC 1071). */
module Checksum {
  import opened Bytes

  /** The longest data whose word sum cannot overflow 32 bits: 65537 words. */
  const SAFE_BYTES := 131074

  /** The plain sum of the 16-bit words; an odd last byte is a word of its own. */
  function WordSum(data: seq<byte>): nat {
    if data == [] then 0
    else if |data| == 1 then data[0]
    else U16(data, 0) + WordSum(data[2..])
  }

  /** Adding the carries back in until 16 bits are left. */
  function Fold(sum: nat): (r: nat)
    ensures r < 0x1_0000
  {
    if sum < 0x1_0000 then sum else Fold(sum % 0x1_0000 + sum / 0x1_0000)
  }

  /** How many multiples of 65535 folding takes away. */
  function Carries(sum: nat): nat {
    if sum < 0x1_0000 then 0 else sum / 0x1_0000 + Carries(sum % 0x1_0000 + sum / 0x1_0000)
  }

  /** The checksum as computed: the sum is kept in 32 bits. */
  function Sum16(data: seq<byte>): (r: nat)
    ensures r < 0x1_0000
  {
    0xFFFF - Fold(WordSum(data) % U32_SPAN)
  }

  lemma WordSumStep(data: seq<byte>, k: nat)
    requires k <= |data|
    ensures k + 2 <= |data| ==> WordSum(data[k..]) == U16(data, k) + WordSum(data[k + 2..])
    ensures k + 1 == |data| ==> WordSum(data[k..]) == data[k]
    ensures k == |data| ==> WordSum(data[k..]) == 0
  {
    if k + 2 <= |data| {
      assert data[k..][2..] == data[k + 2..];
    }
  }

  /** Two summing loops, then the complement. */
  method Checksum16(data: seq<byte>) returns (r: nat)
    ensures r == Sum16(data)
  {
    hide WordSum, Fold, U16;
    var sum: nat := 0;
    var pos := 0;
    assert data[0..] == data;
    while |data| - pos > 1
      invariant 0 <= pos <= |data| && sum < U32_SPAN
      invariant (sum + WordSum(data[pos..])) % U32_SPAN == WordSum(data) % U32_SPAN
    {
      WordSumStep(data, pos);
      AddWraps(sum, U16(data, pos), WordSum(data[pos + 2..]));
      var word := U16(data, pos);
      sum := (sum + word) % U32_SPAN;
      pos := pos + 2;
    }
    WordSumStep(data, pos);
    if |data| - pos > 0 {
      AddWraps(sum, data[pos], 0);
      sum := (sum + data[pos]) % U32_SPAN;
    }
    var folded := FoldCarries(sum);
    r := 0xFFFF - folded;
  }

  method FoldCarries(total: nat) returns (sum: nat)
    ensures sum == Fold(total)
  {
    sum := total;
    while sum / 0x1_0000 > 0
      invariant Fold(sum) == Fold(total)
      decreases sum
    {
      sum := sum % 0x1_0000 + sum / 0x1_0000;
    }
  }

  lemma AddWraps(a: nat, b: nat, c: nat)
    ensures ((a + b) % U32_SPAN + c) % U32_SPAN == (a + b + c) % U32_SPAN
  {
  }

  /** Folding is the residue modulo 65535, and keeps zero apart from the other multiples. */
  lemma {:induction false} FoldIsResidue(sum: nat)
    ensures sum == Fold(sum) + 0xFFFF * Carries(sum)
    ensures Fold(sum) == 0 <==> sum == 0
    decreases sum
  {
    if sum >= 0x1_0000 {
      FoldIsResidue(sum % 0x1_0000 + sum / 0x1_0000);
    }
  }

  /** Sums that differ by a multiple of 65535 fold alike, unless just one of them is zero. */
  lemma FoldAlike(a: nat, b: nat, k: int)
    requires a == b + 0xFFFF * k && (a == 0 <==> b == 0)
    ensures Fold(a) == Fold(b)
  {
    FoldIsResidue(a);
    FoldIsResidue(b);
    var d := Carries(b) - Carries(a) + k;
    assert Fold(a) - Fold(b) == 0xFFFF * d;
  }

  lemma {:induction false} WordSumBound(data: seq<byte>)
    ensures WordSum(data) <= 0xFFFF * ((|data| + 1) / 2)
  {
    if |data| >= 2 {
      WordSumBound(data[2..]);
    }
  }

  /** Exactly when the 32-bit sum does not overflow, the result is the complement of the folded sum:
      an overflow drops between 1 and 32767 carries, which folding cannot hide. */
  lemma RightExactly(data: seq<byte>)
    requires |data| < U32_SPAN
    ensures Sum16(data) == 0xFFFF - Fold(WordSum(data)) <==> WordSum(data) < U32_SPAN
  {
    hide WordSum, Fold, Carries;
    var s := WordSum(data);
    var q, m := s / U32_SPAN, s % U32_SPAN;
    WordSumBound(data);
    assert q < 0x8000 && s == q * U32_SPAN + m;
    FoldIsResidue(s);
    FoldIsResidue(m);
    if Fold(s) == Fold(m) {
      LostCarries(q, Carries(s) - Carries(m));
    }
  }

  lemma LostCarries(q: nat, k: int)
    requires q < 0x8000 && q * U32_SPAN == 0xFFFF * k
    ensures q == 0
  {
    assert q == 0xFFFF * (k - 0x1_0001 * q);
  }

  /** Up to 65537 words the 32-bit sum cannot overflow. */
  lemma NoOverflow(data: seq<byte>)
    requires |data| <= SAFE_BYTES
    ensures WordSum(data) < U32_SPAN && Sum16(data) == 0xFFFF - Fold(WordSum(data))
  {
    hide WordSum, Fold, Sum16;
    WordSumBound(data);
    assert (|data| + 1) / 2 <= 65537;
    RightExactly(data);
  }

  function Ones(words: nat): (r: seq<byte>)
    ensures |r| == 2 * words
  {
    if words == 0 then [] else [0xFF, 0xFF] + Ones(words - 1)
  }

  lemma {:induction false} OnesSum(words: nat)
    ensures WordSum(Ones(words)) == 0xFFFF * words
  {
    if words > 0 {
      OnesSum(words - 1);
      assert Ones(words)[2..] == Ones(words - 1);
      assert U16(Ones(words), 0) == 0xFFFF;
    }
  }

  /** One word more can overflow, and then the result is not the complement of the folded sum. */
  lemma OverflowIsWrong()
    ensures |Ones(65538)| == SAFE_BYTES + 2
    ensures Sum16(Ones(65538)) != 0xFFFF - Fold(WordSum(Ones(65538)))
  {
    hide WordSum, Fold, Sum16;
    OnesSum(65538);
    RightExactly(Ones(65538));
  }

  /** Storing a word in a zeroed, even-aligned field adds it to the sum. */
  lemma {:induction false} SumWithField(data: seq<byte>, off: nat, v: nat)
    requires off % 2 == 0 && off + 2 <= |data| && v < 0x1_0000
    requires data[off] == 0 && data[off + 1] == 0
    ensures WordSum(PutU16(data, off, v)) == WordSum(data) + v
    decreases off
  {
    var r := PutU16(data, off, v);
    if off == 0 {
      assert r[2..] == data[2..];
    } else {
      assert r[2..] == PutU16(data[2..], off - 2, v);
      assert U16(r, 0) == U16(data, 0);
      SumWithField(data[2..], off - 2, v);
    }
  }

  /** The checksum law, for data of any length: with the checksum stored in its field, the checksum
      of the whole is 0, even where the 32-bit sum overflowed. */
  lemma StoredChecksumVerifies(data: seq<byte>, off: nat)
    requires off % 2 == 0 && off + 2 <= |data|
    requires data[off] == 0 && data[off + 1] == 0
    ensures Sum16(PutU16(data, off, Sum16(data))) == 0
  {
    hide WordSum, Fold, PutU16;
    var c := Sum16(data);
    var m := WordSum(data) % U32_SPAN;
    SumWithField(data, off, c);
    ComplementCompletes(m);
    assert (WordSum(data) + c) % U32_SPAN == m + c;
  }

  lemma ComplementCompletes(m: nat)
    requires m < U32_SPAN
    ensures m + (0xFFFF - Fold(m)) < U32_SPAN && Fold(m + (0xFFFF - Fold(m))) == 0xFFFF
  {
    hide Fold, Carries;
    var c := 0xFFFF - Fold(m);
    FoldIsResidue(m);
    assert m + c == 0xFFFF * (Carries(m) + 1);
    NoNewOverflow(m, c, Carries(m) + 1);
    FoldAlike(m + c, 0xFFFF, Carries(m));
    OnesFolded();
  }

  /** Adding the complement of a folded 32-bit sum cannot overflow: the first multiple of 65535
      beyond 32 bits is 65535 away from the largest sum. */
  lemma NoNewOverflow(m: nat, c: nat, k: nat)
    requires m < U32_SPAN && c <= 0xFFFF && m + c == 0xFFFF * k && (c == 0xFFFF ==> m == 0)
    ensures m + c < U32_SPAN
  {
    assert 0xFFFF * 0x1_0001 == U32_SPAN - 1;
  }

  lemma OnesFolded()
    ensures Fold(0xFFFF) == 0xFFFF
  {
  }

  /** A checksum of 0 means the 32-bit sum is a positive multiple of 65535, so any change of that
      sum by anything but a multiple of 65535 is noticed. */
  lemma ZeroMeansMultiple(data: seq<byte>)
    ensures var m := WordSum(data) % U32_SPAN; Sum16(data) == 0 <==> m > 0 && m % 0xFFFF == 0
  {
    hide WordSum, Fold, Carries;
    var m := WordSum(data) % U32_SPAN;
    FoldIsResidue(m);
    assert Fold(m) == 0xFFFF ==> m == 0xFFFF * (Carries(m) + 1);
  }

  /** `swap16`. */
  function Swap16(v: nat): (r: nat)
    requires v < 0x1_0000
    ensures r < 0x1_0000
  {
    v % 0x100 * 0x100 + v / 0x100
  }

  /** The data with the two bytes of every word exchanged; an odd last byte is padded first. */
  function SwapPairs(data: seq<byte>): (r: seq<byte>)
    ensures |r| == (|data| + 1) / 2 * 2
  {
    if data == [] then []
    else if |data| == 1 then [0, data[0]]
    else [data[1], data[0]] + SwapPairs(data[2..])
  }

  function HighSum(data: seq<byte>): nat {
    if |data| < 2 then 0 else data[1] as nat + HighSum(data[2..])
  }

  lemma {:induction false} SwapSum(data: seq<byte>)
    ensures 0x100 * WordSum(data) == WordSum(SwapPairs(data)) + 0xFFFF * HighSum(data)
    ensures WordSum(SwapPairs(data)) == 0 <==> WordSum(data) == 0
  {
    if |data| >= 2 {
      SwapSum(data[2..]);
      assert SwapPairs(data)[2..] == SwapPairs(data[2..]);
      assert U16(SwapPairs(data), 0) == data[1] as nat + 0x100 * (data[0] as nat);
    } else if |data| == 1 {
      assert SwapPairs(data)[2..] == [];
      assert U16(SwapPairs(data), 0) == 0x100 * (data[0] as nat);
    }
  }

  /** Byte order independence, exactly: swapping the bytes of every word swaps the bytes of the
      checksum if and only if the carries that the two 32-bit sums lose are each other's swaps, and
      both sums come out as zero or neither does. */
  lemma SwappedExactly(data: seq<byte>)
    requires |data| < U32_SPAN
    ensures var s, t := WordSum(data), WordSum(SwapPairs(data));
      && s / U32_SPAN < 0x8000 && t / U32_SPAN < 0x8000
      && (Sum16(SwapPairs(data)) == Swap16(Sum16(data)) <==>
          t / U32_SPAN == Swap16(s / U32_SPAN) && (s % U32_SPAN == 0 <==> t % U32_SPAN == 0))
  {
    hide WordSum, SwapPairs, HighSum, Fold, Carries, Swap16;
    var s, t := WordSum(data), WordSum(SwapPairs(data));
    WordSumBound(data);
    WordSumBound(SwapPairs(data));
    SwapSum(data);
    var a, m, b, p := s / U32_SPAN, s % U32_SPAN, t / U32_SPAN, t % U32_SPAN;
    FoldIsResidue(m);
    FoldIsResidue(p);
    assert s == a * U32_SPAN + m && t == b * U32_SPAN + p;
    var k := HighSum(data) + Carries(p) - 0x100 * Carries(m) + 0x1_0001 * b - 0x1_0001 * 0x100 * a;
    assert 0x100 * (Fold(m) + a) == Fold(p) + b + 0xFFFF * k;
    SwapExactly(Fold(m), Fold(p), a, b, k);
  }

  /** Of two numbers related by a byte rotation modulo 65535, up to lost carries. */
  lemma SwapExactly(f: nat, g: nat, a: nat, b: nat, k: int)
    requires f < 0x1_0000 && g < 0x1_0000 && a < 0x8000 && b < 0x8000
    requires 0x100 * (f + a) == g + b + 0xFFFF * k
    ensures 0xFFFF - g == Swap16(0xFFFF - f) <==> b == Swap16(a) && (f == 0 <==> g == 0)
  {
    SwapRotates(f);
    SwapRotates(a);
    SwapComplement(f);
    var i, j := f / 0x100, a / 0x100;
    assert Swap16(f) + Swap16(a) + 0xFFFF * (i + j) == g + b + 0xFFFF * k;
    var d := k - i - j;
    assert (Swap16(f) - g) + (Swap16(a) - b) == 0xFFFF * d;
  }

  lemma SwapRotates(v: nat)
    requires v < 0x1_0000
    ensures 0x100 * v == Swap16(v) + 0xFFFF * (v / 0x100)
    ensures (Swap16(v) == 0 <==> v == 0) && (Swap16(v) == 0xFFFF <==> v == 0xFFFF)
  {
  }

  lemma SwapComplement(v: nat)
    requires v < 0x1_0000
    ensures Swap16(0xFFFF - v) == 0xFFFF - Swap16(v)
  {
    assert (0xFFFF - v) / 0x100 == 0xFF - v / 0x100 && (0xFFFF - v) % 0x100 == 0xFF - v % 0x100;
  }

  /** In particular it does as long as neither sum overflows. */
  lemma SwappedDataSwapsSum(data: seq<byte>)
    requires |data| < U32_SPAN && WordSum(data) < U32_SPAN && WordSum(SwapPairs(data)) < U32_SPAN
    ensures Sum16(SwapPairs(data)) == Swap16(Sum16(data))
  {
    hide WordSum, SwapPairs, Sum16, Swap16;
    SwapSum(data);
    SwappedExactly(data);
    NothingLost(WordSum(data));
    NothingLost(WordSum(SwapPairs(data)));
  }

  lemma NothingLost(sum: nat)
    requires sum < U32_SPAN
    ensures sum / U32_SPAN == 0 && sum % U32_SPAN == sum && Swap16(0) == 0
  {
  }

  lemma {:induction false} OnesSwapped(words: nat)
    ensures SwapPairs(Ones(words)) == Ones(words)
  {
    if words > 0 {
      OnesSwapped(words - 1);
      assert Ones(words)[2..] == Ones(words - 1);
    }
  }

  /** It does not for 65538 words of all ones: they are their own swap, but the lost carry is not. */
  lemma OverflowUnswaps()
    ensures Sum16(SwapPairs(Ones(65538))) != Swap16(Sum16(Ones(65538)))
  {
    hide WordSum, SwapPairs, Sum16;
    OnesSum(65538);
    OnesSwapped(65538);
    SwappedExactly(Ones(65538));
  }
}
