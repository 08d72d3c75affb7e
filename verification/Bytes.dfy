/** Bytes, little-endian fields and in-place edits of byte buffers, as the C code
    sees them through packed structs laid over `uint8_t` arrays. */
module Bytes {

  type byte = x: int | 0 <= x < 256

  /** How many values a `uint32_t` has. */
  const U32_SPAN := 0x1_0000_0000

  datatype Option<+T> = None | Some(value: T)

  function Min(a: int, b: int): int {
    if a <= b then a else b
  }

  /** The little-endian 16-bit field at `off`. */
  function U16(s: seq<byte>, off: nat): (v: nat)
    requires off + 2 <= |s|
    ensures v < 0x1_0000
  {
    s[off] as nat + 0x100 * (s[off + 1] as nat)
  }

  /** The little-endian 32-bit field at `off`. */
  function U32(s: seq<byte>, off: nat): (v: nat)
    requires off + 4 <= |s|
    ensures v < 0x1_0000_0000
  {
    s[off] as nat + 0x100 * (s[off + 1] as nat) + 0x1_0000 * (s[off + 2] as nat) + 0x100_0000 * (s[off + 3] as nat)
  }

  /** `s` with the bytes of `t` stored at `off`. */
  function Splice(s: seq<byte>, off: nat, t: seq<byte>): (r: seq<byte>)
    requires off + |t| <= |s|
    ensures |r| == |s|
    ensures forall i :: 0 <= i < |s| ==> r[i] == if off <= i < off + |t| then t[i - off] else s[i]
  {
    s[..off] + t + s[off + |t|..]
  }

  lemma SpliceSlices(s: seq<byte>, off: nat, t: seq<byte>, at: nat, n: nat)
    requires off + |t| <= |s| && at + n <= |s|
    ensures Splice(s, off, t)[off..off + |t|] == t
    ensures at + n <= off || off + |t| <= at ==> Splice(s, off, t)[at..at + n] == s[at..at + n]
  {
  }

  function LE16(v: nat): (r: seq<byte>)
    requires v < 0x1_0000
    ensures |r| == 2 && U16(r, 0) == v
  {
    [v % 0x100, v / 0x100]
  }

  function LE32(v: nat): (r: seq<byte>)
    requires v < 0x1_0000_0000
    ensures |r| == 4 && U32(r, 0) == v
  {
    var v1 := v / 0x100;
    var v2 := v1 / 0x100;
    [v % 0x100, v1 % 0x100, v2 % 0x100, v2 / 0x100]
  }

  /** Stores a 16-bit field; reading it back gives the value, all other bytes stay. */
  function PutU16(s: seq<byte>, off: nat, v: nat): (r: seq<byte>)
    requires off + 2 <= |s| && v < 0x1_0000
    ensures |r| == |s| && U16(r, off) == v
    ensures forall i :: 0 <= i < |s| && !(off <= i < off + 2) ==> r[i] == s[i]
  {
    var t := LE16(v);
    var r := Splice(s, off, t);
    assert r[off] == t[0] && r[off + 1] == t[1];
    r
  }

  /** Stores a 32-bit field; reading it back gives the value, all other bytes stay. */
  function PutU32(s: seq<byte>, off: nat, v: nat): (r: seq<byte>)
    requires off + 4 <= |s| && v < 0x1_0000_0000
    ensures |r| == |s| && U32(r, off) == v
    ensures forall i :: 0 <= i < |s| && !(off <= i < off + 4) ==> r[i] == s[i]
  {
    var t := LE32(v);
    var r := Splice(s, off, t);
    assert r[off] == t[0] && r[off + 1] == t[1] && r[off + 2] == t[2] && r[off + 3] == t[3];
    r
  }

  function Zeros(n: nat): (r: seq<byte>)
    ensures |r| == n && forall i :: 0 <= i < n ==> r[i] == 0
  {
    seq(n, _ => 0)
  }

  method LoadU16(buf: array<byte>, off: nat) returns (v: nat)
    requires off + 2 <= buf.Length
    ensures v == U16(buf[..], off)
  {
    v := buf[off] as nat + 0x100 * (buf[off + 1] as nat);
  }

  method LoadU32(buf: array<byte>, off: nat) returns (v: nat)
    requires off + 4 <= buf.Length
    ensures v == U32(buf[..], off)
  {
    v := buf[off] as nat + 0x100 * (buf[off + 1] as nat)
         + 0x1_0000 * (buf[off + 2] as nat) + 0x100_0000 * (buf[off + 3] as nat);
  }

  /** The zeroing loop over a buffer. */
  method Clear(buf: array<byte>)
    modifies buf
    ensures buf[..] == Zeros(buf.Length)
  {
    var i := 0;
    while i < buf.Length
      invariant 0 <= i <= buf.Length
      invariant forall j :: 0 <= j < i ==> buf[j] == 0
    {
      buf[i] := 0;
      i := i + 1;
    }
  }

  /** Copies `t` into the buffer at `off`: C's `*slot = *value` and its copy loops. */
  method StoreAt(buf: array<byte>, off: nat, t: seq<byte>)
    requires off + |t| <= buf.Length
    modifies buf
    ensures buf[..] == Splice(old(buf[..]), off, t)
  {
    var k := 0;
    while k < |t|
      invariant 0 <= k <= |t|
      invariant forall i :: 0 <= i < buf.Length ==>
        buf[i] == if off <= i < off + k then t[i - off] else old(buf[i])
    {
      buf[off + k] := t[k];
      k := k + 1;
    }
  }

  /** A C string's characters, without the terminator. */
  predicate NoNul(s: seq<char>) {
    forall i :: 0 <= i < |s| ==> s[i] != '\0'
  }
}
