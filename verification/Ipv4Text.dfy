/** Dotted-quad text: the parser, the printer and the byte order of addresses (net/net.c,
    net_parse_ipv4, net_ip_to_str and swap32). */
module Ipv4Text {
  import opened Arith
  import opened Bytes

  predicate IsDigit(c: char) {
    '0' <= c <= '9'
  }

  predicate AllDigits(s: seq<char>) {
    forall i :: 0 <= i < |s| ==> IsDigit(s[i])
  }

  /** The decimal value of a digit run; an empty run counts as 0. */
  function Value(s: seq<char>): nat
    requires AllDigits(s)
  {
    if s == [] then 0 else Value(s[..|s| - 1]) * 10 + (s[|s| - 1] as int - '0' as int)
  }

  /** The parts between the dots. */
  function SplitDots(s: seq<char>): (r: seq<seq<char>>)
    ensures |r| >= 1
  {
    if s == [] then [[]]
    else
      var rest := SplitDots(s[1..]);
      if s[0] == '.' then [[]] + rest else [[s[0]] + rest[0]] + rest[1..]
  }

  predicate PartOk(p: seq<char>) {
    AllDigits(p) && Value(p) <= 255
  }

  /** Three dots, and digits of value at most 255 between them. */
  predicate Accepts(s: seq<char>) {
    var ps := SplitDots(s);
    |ps| == 4 && PartOk(ps[0]) && PartOk(ps[1]) && PartOk(ps[2]) && PartOk(ps[3])
  }

  /** The address in network byte order: the first part in the lowest byte. */
  function Pack(a: nat, b: nat, c: nat, d: nat): nat {
    a + 0x100 * b + 0x1_0000 * c + 0x100_0000 * d
  }

  function Address(s: seq<char>): nat
    requires Accepts(s)
  {
    var ps := SplitDots(s);
    Pack(Value(ps[0]), Value(ps[1]), Value(ps[2]), Value(ps[3]))
  }

  /** `swap32`. */
  function Swap32(v: nat): (r: nat)
    requires v < U32_SPAN
    ensures r < U32_SPAN
  {
    Pack(v / 0x100_0000, v / 0x1_0000 % 0x100, v / 0x100 % 0x100, v % 0x100)
  }

  /** The four bytes of a packed value are the ones it was packed from. */
  lemma PackedBytes(a: byte, b: byte, c: byte, d: byte)
    ensures var v := Pack(d, c, b, a);
            && v < U32_SPAN && v / 0x100_0000 == a && v / 0x1_0000 % 0x100 == b
            && v / 0x100 % 0x100 == c && v % 0x100 == d
  {
    var v := Pack(d, c, b, a);
    var ab: nat := 0x100 * a as nat + b as nat;
    var abc: nat := 0x100 * ab + c as nat;
    DivModUnique(a, 0x1_0000 * b as nat + 0x100 * c as nat + d as nat, 0x100_0000);
    DivModUnique(ab, 0x100 * c as nat + d as nat, 0x1_0000);
    DivModUnique(abc, d, 0x100);
    DivModUnique(ab, c, 0x100);
    DivModUnique(a, b, 0x100);
  }

  lemma SwapPacked(a: byte, b: byte, c: byte, d: byte)
    ensures Pack(d, c, b, a) < U32_SPAN && Swap32(Pack(d, c, b, a)) == Pack(a, b, c, d)
  {
    PackedBytes(a, b, c, d);
  }

  /** Every 32-bit value is packed from its bytes. */
  lemma BytesPack(v: nat) returns (a: byte, b: byte, c: byte, d: byte)
    requires v < U32_SPAN
    ensures v == Pack(d, c, b, a)
  {
    var q1 := v / 0x100;
    var q2 := q1 / 0x100;
    a, b, c, d := q2 / 0x100, q2 % 0x100, q1 % 0x100, v % 0x100;
  }

  lemma SwapTwice(v: nat)
    requires v < U32_SPAN
    ensures Swap32(Swap32(v)) == v
  {
    var a, b, c, d := BytesPack(v);
    SwapPacked(a, b, c, d);
    SwapPacked(d, c, b, a);
  }

  predicate NoDot(s: seq<char>) {
    '.' !in s
  }

  /** Up to its first dot, a text is its first part. */
  lemma {:induction false} SplitAtDot(cur: seq<char>, rest: seq<char>)
    requires NoDot(cur)
    ensures SplitDots(cur + ['.'] + rest) == [cur] + SplitDots(rest)
  {
    var s := cur + ['.'] + rest;
    if cur == [] {
      assert s[1..] == rest;
    } else {
      assert s[1..] == cur[1..] + ['.'] + rest;
      SplitAtDot(cur[1..], rest);
      assert [cur[0]] + cur[1..] == cur;
    }
  }

  lemma {:induction false} SplitNoDot(cur: seq<char>)
    requires NoDot(cur)
    ensures SplitDots(cur) == [cur]
  {
    if cur != [] {
      SplitNoDot(cur[1..]);
      assert [cur[0]] + cur[1..] == cur;
    }
  }

  /** The first part starts with every dot-free beginning of the text. */
  lemma {:induction false} FirstPartExtends(cur: seq<char>, rest: seq<char>)
    requires NoDot(cur)
    ensures cur <= SplitDots(cur + rest)[0]
  {
    if cur != [] {
      assert (cur + rest)[1..] == cur[1..] + rest;
      FirstPartExtends(cur[1..], rest);
      assert [cur[0]] + cur[1..] == cur;
    }
  }

  lemma {:induction false} ValueGrows(p: seq<char>, q: seq<char>)
    requires AllDigits(q) && p <= q
    ensures AllDigits(p) && Value(p) <= Value(q)
    decreases |q|
  {
    assert forall i :: 0 <= i < |p| ==> p[i] == q[i];
    if |p| < |q| {
      ValueGrows(p, q[..|q| - 1]);
    } else {
      assert p == q;
    }
  }

  /** `done` parts are behind, `cur` is the dot-free part being read, `rest` is still to come. */
  ghost predicate Reading(s: seq<char>, done: seq<seq<char>>, cur: seq<char>, rest: seq<char>) {
    && SplitDots(s) == done + SplitDots(cur + rest)
    && AllDigits(cur) && Value(cur) <= 255
    && forall i :: 0 <= i < |done| ==> PartOk(done[i])
  }

  lemma DigitsHaveNoDot(s: seq<char>)
    requires AllDigits(s)
    ensures NoDot(s)
  {
  }

  lemma ReadDot(s: seq<char>, done: seq<seq<char>>, cur: seq<char>, rest: seq<char>)
    requires Reading(s, done, cur, rest) && rest != [] && rest[0] == '.'
    ensures Reading(s, done + [cur], [], rest[1..])
    ensures |SplitDots(s)| >= |done| + 2
  {
    hide SplitDots, AllDigits, Value;
    DigitsHaveNoDot(cur);
    EmptyValue();
    assert cur + rest == cur + ['.'] + rest[1..];
    SplitAtDot(cur, rest[1..]);
    assert [] + rest[1..] == rest[1..];
    assert SplitDots(s) == done + [cur] + SplitDots(rest[1..]);
  }

  lemma ReadDigit(s: seq<char>, done: seq<seq<char>>, cur: seq<char>, rest: seq<char>)
    requires Reading(s, done, cur, rest) && rest != [] && IsDigit(rest[0])
    ensures AllDigits(cur + [rest[0]])
    ensures Value(cur + [rest[0]]) == Value(cur) * 10 + (rest[0] as int - '0' as int)
    ensures Value(cur + [rest[0]]) <= 255 ==> Reading(s, done, cur + [rest[0]], rest[1..])
    ensures Value(cur + [rest[0]]) > 255 ==> !Accepts(s)
  {
    var next := cur + [rest[0]];
    assert next[..|next| - 1] == cur;
    assert cur + rest == next + rest[1..];
    if Value(next) > 255 {
      DigitsHaveNoDot(next);
      BadPart(s, done, next, rest[1..]);
    }
  }

  /** A dot-free beginning that no acceptable part can have spoils the text. */
  lemma BadPart(s: seq<char>, done: seq<seq<char>>, bad: seq<char>, rest: seq<char>)
    requires SplitDots(s) == done + SplitDots(bad + rest) && NoDot(bad)
    requires !AllDigits(bad) || Value(bad) > 255
    ensures !Accepts(s)
  {
    FirstPartExtends(bad, rest);
    var p := SplitDots(bad + rest)[0];
    assert SplitDots(s)[|done|] == p;
    if AllDigits(p) {
      ValueGrows(bad, p);
    }
  }

  lemma ReadOther(s: seq<char>, done: seq<seq<char>>, cur: seq<char>, rest: seq<char>)
    requires Reading(s, done, cur, rest) && rest != [] && !IsDigit(rest[0]) && rest[0] != '.'
    ensures !Accepts(s)
  {
    var bad := cur + [rest[0]];
    DigitsHaveNoDot(cur);
    assert cur + rest == bad + rest[1..];
    assert !IsDigit(bad[|cur|]);
    BadPart(s, done, bad, rest[1..]);
  }

  lemma ReadEnd(s: seq<char>, done: seq<seq<char>>, cur: seq<char>)
    requires Reading(s, done, cur, [])
    ensures SplitDots(s) == done + [cur]
    ensures Accepts(s) <==> |done| == 3
  {
    DigitsHaveNoDot(cur);
    assert cur + [] == cur;
    SplitNoDot(cur);
  }

  /** Accepts exactly the texts with three dots and four digit runs of value at most 255. */
  method ParseIpv4(s: seq<char>) returns (r: Option<nat>)
    ensures r.Some? <==> Accepts(s)
    ensures r.Some? ==> r.value == Address(s) && r.value < U32_SPAN
  {
    hide Accepts, SplitDots, Reading, AllDigits, Value, Address, PartOk;
    var parts: seq<nat> := [0, 0, 0, 0];
    var part: nat := 0;
    var value: nat := 0;
    ghost var done: seq<seq<char>>, cur: seq<char> := [], [];
    ReadStart(s);
    assert s[0..] == s;
    var i := 0;
    while i < |s|
      invariant 0 <= i <= |s| && part == |done| <= 4 && |parts| == 4
      invariant Reading(s, done, cur, s[i..])
      invariant AllDigits(cur) && value == Value(cur)
      invariant forall j :: 0 <= j < part ==> AllDigits(done[j]) && parts[j] == Value(done[j]) <= 255
    {
      var c := s[i];
      assert s[i..][1..] == s[i + 1..];
      if '0' <= c <= '9' {
        ReadDigit(s, done, cur, s[i..]);
        value := value * 10 + (c as int - '0' as int);
        if value > 255 {
          return None;
        }
        cur := cur + [c];
      } else if c == '.' {
        ReadDot(s, done, cur, s[i..]);
        if part >= 4 {
          TooManyParts(s);
          return None;
        }
        ReadingFacts(s, done, cur, s[i..]);
        parts := parts[part := value];
        part := part + 1;
        value := 0;
        done := done + [cur];
        cur := [];
        EmptyValue();
      } else {
        ReadOther(s, done, cur, s[i..]);
        return None;
      }
      i := i + 1;
    }
    assert s[|s|..] == [];
    ReadEnd(s, done, cur);
    if part != 3 {
      return None;
    }
    ReadingFacts(s, done, cur, []);
    parts := parts[3 := value];
    QuadAddress(s, done, cur);
    SwapPacked(parts[0], parts[1], parts[2], parts[3]);
    r := Some(Swap32(Pack(parts[3], parts[2], parts[1], parts[0])));
  }

  lemma ReadStart(s: seq<char>)
    ensures Reading(s, [], [], s) && AllDigits([]) && Value([]) == 0
  {
    assert [] + s == s;
    assert [] + SplitDots(s) == SplitDots(s);
  }

  lemma EmptyValue()
    ensures AllDigits([]) && Value([]) == 0
  {
  }

  lemma ReadingFacts(s: seq<char>, done: seq<seq<char>>, cur: seq<char>, rest: seq<char>)
    requires Reading(s, done, cur, rest)
    ensures AllDigits(cur) && Value(cur) <= 255
  {
  }

  lemma TooManyParts(s: seq<char>)
    requires |SplitDots(s)| >= 6
    ensures !Accepts(s)
  {
  }

  lemma QuadAddress(s: seq<char>, done: seq<seq<char>>, cur: seq<char>)
    requires Accepts(s) && |done| == 3 && SplitDots(s) == done + [cur]
    requires AllDigits(done[0]) && AllDigits(done[1]) && AllDigits(done[2]) && AllDigits(cur)
    ensures Address(s) == Pack(Value(done[0]), Value(done[1]), Value(done[2]), Value(cur))
  {
  }

  function DigitChar(v: nat): (c: char)
    requires v < 10
    ensures IsDigit(c) && c as int - '0' as int == v
  {
    ('0' as int + v) as char
  }

  /** A byte in decimal, without leading zeros. */
  function Dec(v: byte): (r: seq<char>)
    ensures 1 <= |r| <= 3
  {
    if v >= 100 then [DigitChar(v / 100), DigitChar(v / 10 % 10), DigitChar(v % 10)]
    else if v >= 10 then [DigitChar(v / 10), DigitChar(v % 10)]
    else [DigitChar(v)]
  }

  lemma DecValue(v: byte)
    ensures AllDigits(Dec(v)) && Value(Dec(v)) == v && (1 < |Dec(v)| ==> Dec(v)[0] != '0')
  {
    var s := Dec(v);
    ValueOfOne(s[0]);
    if v >= 10 {
      assert s[..2][..1] == [s[0]];
      assert v >= 100 ==> s[..|s| - 1] == s[..2];
      assert v < 100 ==> s == s[..2];
    }
  }

  lemma ValueOfOne(c: char)
    requires IsDigit(c)
    ensures Value([c]) == c as int - '0' as int
  {
    assert [c][..0] == [];
  }

  /** The first `n` bytes of an address in text, each but the last followed by a dot. */
  function Quads(bs: seq<byte>, n: nat): (r: seq<char>)
    requires |bs| == 4 && n <= 4
    ensures |r| <= 4 * n && (n == 4 ==> |r| <= 15)
  {
    if n == 0 then []
    else Quads(bs, n - 1) + Dec(bs[n - 1]) + if n == 4 then [] else ['.']
  }

  /** The bytes of an address in the order they are printed. */
  function QuadBytes(ip: nat): (r: seq<byte>)
    requires ip < U32_SPAN
    ensures |r| == 4
  {
    var v := Swap32(ip);
    [v / 0x100_0000, v / 0x1_0000 % 0x100, v / 0x100 % 0x100, v % 0x100]
  }

  function Text(ip: nat): (r: seq<char>)
    requires ip < U32_SPAN
    ensures |r| <= 15
  {
    Quads(QuadBytes(ip), 4)
  }

  lemma QuadBytesPack(ip: nat)
    requires ip < U32_SPAN
    ensures var bs := QuadBytes(ip); ip == Pack(bs[0], bs[1], bs[2], bs[3])
  {
    var a, b, c, d := BytesPack(ip);
    SwapPacked(a, b, c, d);
    PackedBytes(d, c, b, a);
  }

  lemma QuadsForm(bs: seq<byte>)
    requires |bs| == 4
    ensures Quads(bs, 4) == Dec(bs[0]) + ['.'] + (Dec(bs[1]) + ['.'] + (Dec(bs[2]) + ['.'] + Dec(bs[3])))
  {
    hide Dec;
    assert Quads(bs, 1) == Dec(bs[0]) + ['.'];
    assert Quads(bs, 2) == Quads(bs, 1) + Dec(bs[1]) + ['.'];
    assert Quads(bs, 3) == Quads(bs, 2) + Dec(bs[2]) + ['.'];
    assert Quads(bs, 4) == Quads(bs, 3) + Dec(bs[3]);
  }

  /** Printing and parsing is the identity on every 32-bit address. */
  lemma TextParses(ip: nat)
    requires ip < U32_SPAN
    ensures Accepts(Text(ip)) && Address(Text(ip)) == ip
  {
    hide Dec, Quads, Pack, QuadBytes;
    var bs := QuadBytes(ip);
    QuadBytesPack(ip);
    QuadsForm(bs);
    DecValue(bs[0]);
    DecValue(bs[1]);
    DecValue(bs[2]);
    DecValue(bs[3]);
    SplitText(Dec(bs[0]), Dec(bs[1]), Dec(bs[2]), Dec(bs[3]));
  }

  lemma SplitText(a: seq<char>, b: seq<char>, c: seq<char>, d: seq<char>)
    requires AllDigits(a) && AllDigits(b) && AllDigits(c) && AllDigits(d)
    ensures SplitDots(a + ['.'] + (b + ['.'] + (c + ['.'] + d))) == [a, b, c, d]
  {
    hide SplitDots;
    DigitsHaveNoDot(a);
    DigitsHaveNoDot(b);
    DigitsHaveNoDot(c);
    DigitsHaveNoDot(d);
    SplitAtDot(a, b + ['.'] + (c + ['.'] + d));
    SplitAtDot(b, c + ['.'] + d);
    SplitAtDot(c, d);
    SplitNoDot(d);
  }

  /** Four runs of digits, leading zeros and empty runs included: the text is accepted exactly if each
      is at most 255, and the runs in this order are the bytes of the address in memory. */
  lemma DottedQuad(a: seq<char>, b: seq<char>, c: seq<char>, d: seq<char>)
    requires AllDigits(a) && AllDigits(b) && AllDigits(c) && AllDigits(d)
    ensures var s := a + ['.'] + (b + ['.'] + (c + ['.'] + d));
      && (Accepts(s) <==> Value(a) <= 255 && Value(b) <= 255 && Value(c) <= 255 && Value(d) <= 255)
      && (Accepts(s) ==> Address(s) == U32([Value(a), Value(b), Value(c), Value(d)], 0))
  {
    hide SplitDots, AllDigits, Accepts, Address;
    SplitText(a, b, c, d);
    var s := a + ['.'] + (b + ['.'] + (c + ['.'] + d));
    QuadParts(s, a, b, c, d);
    if Accepts(s) {
      PackIsU32(Value(a), Value(b), Value(c), Value(d));
    }
    hide Pack, U32, Value;
  }

  lemma PackIsU32(a: byte, b: byte, c: byte, d: byte)
    ensures Pack(a, b, c, d) == U32([a, b, c, d], 0)
  {
  }

  lemma QuadParts(s: seq<char>, a: seq<char>, b: seq<char>, c: seq<char>, d: seq<char>)
    requires AllDigits(a) && AllDigits(b) && AllDigits(c) && AllDigits(d) && SplitDots(s) == [a, b, c, d]
    ensures Accepts(s) <==> Value(a) <= 255 && Value(b) <= 255 && Value(c) <= 255 && Value(d) <= 255
    ensures Accepts(s) ==> Address(s) == Pack(Value(a), Value(b), Value(c), Value(d))
  {
    var ps := SplitDots(s);
    assert ps[0] == a && ps[1] == b && ps[2] == c && ps[3] == d;
    if Accepts(s) {
      AddressOfParts(s);
    }
    hide SplitDots, AllDigits, Value, Pack, Address;
  }

  lemma AddressOfParts(s: seq<char>)
    requires Accepts(s)
    ensures var ps := SplitDots(s);
      |ps| == 4 && PartOk(ps[0]) && PartOk(ps[1]) && PartOk(ps[2]) && PartOk(ps[3])
      && Address(s) == Pack(Value(ps[0]), Value(ps[1]), Value(ps[2]), Value(ps[3]))
  {
  }

  lemma {:induction false} LeadingZero(p: seq<char>)
    requires AllDigits(p)
    ensures AllDigits(['0'] + p) && Value(['0'] + p) == Value(p)
  {
    if p == [] {
      assert ['0'] + p == ['0'] && ['0'][..0] == [];
    } else {
      LeadingZero(p[..|p| - 1]);
      assert (['0'] + p)[..|p|] == ['0'] + p[..|p| - 1];
    }
  }

  /** The parts with dots between them. */
  function Join(ps: seq<seq<char>>): seq<char>
    requires ps != []
  {
    if |ps| == 1 then ps[0] else ps[0] + ['.'] + Join(ps[1..])
  }

  lemma {:induction false} JoinSplit(s: seq<char>)
    ensures Join(SplitDots(s)) == s
  {
    if s != [] {
      JoinSplit(s[1..]);
      var rest := SplitDots(s[1..]);
      if s[0] == '.' {
        assert ([[]] + rest)[1..] == rest;
      } else {
        var ps := [[s[0]] + rest[0]] + rest[1..];
        assert ps[1..] == rest[1..];
        assert s == [s[0]] + s[1..];
      }
    }
  }

  /** No other text is accepted. */
  lemma OnlyQuads(s: seq<char>) returns (a: seq<char>, b: seq<char>, c: seq<char>, d: seq<char>)
    requires Accepts(s)
    ensures AllDigits(a) && AllDigits(b) && AllDigits(c) && AllDigits(d)
    ensures s == a + ['.'] + (b + ['.'] + (c + ['.'] + d))
  {
    JoinSplit(s);
    var ps := SplitDots(s);
    hide SplitDots, AllDigits, Value;
    a, b, c, d := ps[0], ps[1], ps[2], ps[3];
    assert ps[1..][1..] == ps[2..] && ps[2..][1..] == ps[3..];
    assert Join(ps[3..]) == d && Join(ps[2..]) == c + ['.'] + d;
    assert Join(ps[1..]) == b + ['.'] + (c + ['.'] + d);
  }

  /** The printed text names the bytes of the address in the order they have in memory, in decimal. */
  lemma TextOfBytes(a: byte, b: byte, c: byte, d: byte)
    ensures U32([a, b, c, d], 0) < U32_SPAN
    ensures Text(U32([a, b, c, d], 0)) == Dec(a) + ['.'] + (Dec(b) + ['.'] + (Dec(c) + ['.'] + Dec(d)))
  {
    var ip := U32([a, b, c, d], 0);
    assert ip == Pack(a, b, c, d);
    hide Dec, Quads, Pack, U32;
    SwapPacked(d, c, b, a);
    PackedBytes(a, b, c, d);
    assert QuadBytes(ip) == [a, b, c, d];
    QuadsForm([a, b, c, d]);
  }

  lemma {:induction false} QuadsNoNul(bs: seq<byte>, n: nat)
    requires |bs| == 4 && n <= 4
    ensures NoNul(Quads(bs, n))
  {
    if n != 0 {
      QuadsNoNul(bs, n - 1);
      DecValue(bs[n - 1]);
    }
  }

  /** Appends one byte in decimal to the text buffer. */
  method PutDec(buf: array<char>, len: nat, val: byte) returns (newLen: nat)
    requires len + 3 <= buf.Length
    modifies buf
    ensures newLen == len + |Dec(val)| && buf[..newLen] == old(buf[..len]) + Dec(val)
  {
    newLen := len;
    if val >= 100 {
      buf[newLen] := DigitChar(val / 100);
      newLen := newLen + 1;
      buf[newLen] := DigitChar(val / 10 % 10);
      newLen := newLen + 1;
      buf[newLen] := DigitChar(val % 10);
      newLen := newLen + 1;
    } else if val >= 10 {
      buf[newLen] := DigitChar(val / 10);
      newLen := newLen + 1;
      buf[newLen] := DigitChar(val % 10);
      newLen := newLen + 1;
    } else {
      buf[newLen] := DigitChar(val);
      newLen := newLen + 1;
    }
  }

  /** Prints an address into a buffer of `maxLen` characters: as much of the text as fits before
      the terminating NUL, and nothing at all into an empty buffer. */
  method IpToStr(ip: nat, out: array<char>, maxLen: nat)
    requires ip < U32_SPAN && maxLen <= out.Length
    modifies out
    ensures maxLen == 0 ==> out[..] == old(out[..])
    ensures maxLen > 0 ==>
      var n := Min(|Text(ip)|, maxLen - 1);
      out[..n] == Text(ip)[..n] && out[n] == '\0' && forall j :: n < j < out.Length ==> out[j] == old(out[j])
  {
    hide Dec, QuadBytes;
    var buf := new char[16];
    var bytes := QuadBytes(ip);
    QuadsNoNul(bytes, 4);
    var len := 0;
    var i := 0;
    while i < 4
      invariant 0 <= i <= 4 && len == |Quads(bytes, i)| && buf[..len] == Quads(bytes, i)
      invariant out[..] == old(out[..])
    {
      ghost var was := buf[..len];
      len := PutDec(buf, len, bytes[i]);
      if i != 3 {
        buf[len] := '.';
        len := len + 1;
      }
      i := i + 1;
    }
    buf[len] := '\0';
    ghost var text := buf[..len];
    assert text == Text(ip);
    if maxLen == 0 {
      return;
    }
    i := 0;
    while buf[i] != '\0' && i < maxLen - 1
      invariant 0 <= i <= len && i <= maxLen - 1
      invariant buf[..len] == text && buf[len] == '\0'
      invariant out[..i] == text[..i]
      invariant forall j :: i <= j < out.Length ==> out[j] == old(out[j])
      decreases maxLen - i
    {
      out[i] := buf[i];
      i := i + 1;
    }
    assert i < len ==> text[i] == buf[i];
    out[i] := '\0';
  }
}
