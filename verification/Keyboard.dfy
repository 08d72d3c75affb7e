/** The keyboard ring between the interrupt handler and its readers
    (drivers/input/keyboard.c): the handler may run between any two statements of a reader. */
module Keyboard {
  import opened Bytes

  const KB_BUFFER_SIZE := 128
  const NONE := '\0'

  /** Characters by scancode, without and with shift; NONE where a key has none. */
  const LOWER: seq<char> := LOWER_0 + LOWER_1 + LOWER_2 + LOWER_3
  const UPPER: seq<char> := UPPER_0 + UPPER_1 + UPPER_2 + UPPER_3

  const LOWER_0: seq<char> :=
    [NONE, NONE, '1', '2', '3', '4', '5', '6', '7', '8', '9', '0', '-', '=', 8 as char, '\t']
  const LOWER_1: seq<char> :=
    ['q', 'w', 'e', 'r', 't', 'y', 'u', 'i', 'o', 'p', '[', ']', '\n', NONE, 'a', 's']
  const LOWER_2: seq<char> :=
    ['d', 'f', 'g', 'h', 'j', 'k', 'l', ';', '\'', '`', NONE, '\\', 'z', 'x', 'c', 'v']
  const LOWER_3: seq<char> :=
    ['b', 'n', 'm', ',', '.', '/', NONE, '*', NONE, ' ', NONE, NONE, NONE, NONE, NONE, NONE]

  const UPPER_0: seq<char> :=
    [NONE, NONE, '!', '@', '#', '$', '%', '^', '&', '*', '(', ')', '_', '+', 8 as char, '\t']
  const UPPER_1: seq<char> :=
    ['Q', 'W', 'E', 'R', 'T', 'Y', 'U', 'I', 'O', 'P', '{', '}', '\n', NONE, 'A', 'S']
  const UPPER_2: seq<char> :=
    ['D', 'F', 'G', 'H', 'J', 'K', 'L', ':', '"', '~', NONE, '|', 'Z', 'X', 'C', 'V']
  const UPPER_3: seq<char> :=
    ['B', 'N', 'M', '<', '>', '?', NONE, '*', NONE, ' ', NONE, NONE, NONE, NONE, NONE, NONE]

  datatype Modifiers = Modifiers(shift: bool, ctrl: bool, alt: bool)

  const SC_LSHIFT: byte := 0x2A
  const SC_RSHIFT: byte := 0x36
  const SC_CTRL: byte := 0x1D
  const SC_ALT: byte := 0x38
  const RELEASE: byte := 0x80

  /** The key of a scancode, whether pressed or released. */
  function Key(sc: byte): nat {
    sc % RELEASE
  }

  lemma KeyOf(sc: byte)
    ensures Key(sc) == if sc >= RELEASE then sc - RELEASE else sc
  {
  }

  predicate IsModifier(sc: byte) {
    Key(sc) == SC_LSHIFT || Key(sc) == SC_RSHIFT || Key(sc) == SC_CTRL || Key(sc) == SC_ALT
  }

  /** Pressing and releasing a modifier key sets and clears its flag. */
  function AfterKey(m: Modifiers, sc: byte): Modifiers {
    var down := sc < RELEASE;
    if Key(sc) == SC_LSHIFT || Key(sc) == SC_RSHIFT then m.(shift := down)
    else if Key(sc) == SC_CTRL then m.(ctrl := down)
    else if Key(sc) == SC_ALT then m.(alt := down)
    else m
  }

  /** The character a scancode stands for. */
  function Decode(m: Modifiers, sc: byte): char {
    if IsModifier(sc) || sc >= RELEASE || sc >= |LOWER| then NONE
    else if m.shift then UPPER[sc] else LOWER[sc]
  }

  /** Some key has a character whatever the modifiers. */
  lemma LetterKey(m: Modifiers)
    ensures Decode(m, 0x10) != NONE
  {
    assert LOWER[16] == 'q' && UPPER[16] == 'Q';
    assert !IsModifier(0x10);
  }

  /** The modifiers after some scancodes. */
  function AfterKeys(m: Modifiers, scs: seq<byte>): Modifiers {
    if scs == [] then m else AfterKey(AfterKeys(m, scs[..|scs| - 1]), scs[|scs| - 1])
  }

  /** The last scancode of `press` and `release` is number `i`; without one, `i` is -1. */
  predicate LastOf(scs: seq<byte>, press: set<byte>, release: set<byte>, i: int) {
    && -1 <= i < |scs| && (0 <= i ==> scs[i] in press + release)
    && forall j :: i < j < |scs| ==> scs[j] !in press + release
  }

  /** After any scancodes a modifier is down exactly if the last event of its keys was a press. The two
      shift keys share one flag: releasing either clears it. */
  lemma {:induction false} ModifiersFollow(m: Modifiers, scs: seq<byte>, shift: int, ctrl: int, alt: int)
    requires LastOf(scs, {0x2A, 0x36}, {0xAA, 0xB6}, shift)
    requires LastOf(scs, {0x1D}, {0x9D}, ctrl) && LastOf(scs, {0x38}, {0xB8}, alt)
    ensures AfterKeys(m, scs).shift == if shift < 0 then m.shift else scs[shift] in {0x2A, 0x36}
    ensures AfterKeys(m, scs).ctrl == if ctrl < 0 then m.ctrl else scs[ctrl] == 0x1D
    ensures AfterKeys(m, scs).alt == if alt < 0 then m.alt else scs[alt] == 0x38
    decreases |scs|
  {
    if scs != [] {
      var n := |scs| - 1;
      var sc := scs[n];
      var was := AfterKeys(m, scs[..n]);
      hide AfterKey, AfterKeys;
      FlagsAfter(was, sc);
      assert AfterKeys(m, scs) == AfterKey(was, sc) by { LastKey(m, scs); }
      var before := LastEvents(scs[..n]);
      ModifiersFollow(m, scs[..n], before.0, before.1, before.2);
      if shift < n {
        LastSame(scs, {0x2A, 0x36}, {0xAA, 0xB6}, shift, before.0);
      }
      if ctrl < n {
        LastSame(scs, {0x1D}, {0x9D}, ctrl, before.1);
      }
      if alt < n {
        LastSame(scs, {0x38}, {0xB8}, alt, before.2);
      }
    }
  }

  lemma FlagsAfter(m: Modifiers, sc: byte)
    ensures AfterKey(m, sc).shift == if sc in {0x2A, 0x36} then true else if sc in {0xAA, 0xB6} then false else m.shift
    ensures AfterKey(m, sc).ctrl == if sc == 0x1D then true else if sc == 0x9D then false else m.ctrl
    ensures AfterKey(m, sc).alt == if sc == 0x38 then true else if sc == 0xB8 then false else m.alt
  {
    hide Key;
    KeyOf(sc);
  }

  lemma LastKey(m: Modifiers, scs: seq<byte>)
    requires scs != []
    ensures AfterKeys(m, scs) == AfterKey(AfterKeys(m, scs[..|scs| - 1]), scs[|scs| - 1])
  {
  }

  function LastIn(scs: seq<byte>, press: set<byte>, release: set<byte>): (i: int)
    ensures LastOf(scs, press, release, i)
  {
    if scs == [] then -1
    else if scs[|scs| - 1] in press + release then |scs| - 1
    else LastIn(scs[..|scs| - 1], press, release)
  }

  function LastEvents(scs: seq<byte>): (r: (int, int, int))
    ensures LastOf(scs, {0x2A, 0x36}, {0xAA, 0xB6}, r.0)
    ensures LastOf(scs, {0x1D}, {0x9D}, r.1) && LastOf(scs, {0x38}, {0xB8}, r.2)
  {
    (LastIn(scs, {0x2A, 0x36}, {0xAA, 0xB6}), LastIn(scs, {0x1D}, {0x9D}), LastIn(scs, {0x38}, {0xB8}))
  }

  lemma LastSame(scs: seq<byte>, press: set<byte>, release: set<byte>, i: int, j: int)
    requires scs != [] && LastOf(scs, press, release, i) && LastOf(scs[..|scs| - 1], press, release, j) && i < |scs| - 1
    ensures i == j
  {
    var n := |scs| - 1;
    assert forall k :: 0 <= k < n ==> scs[..n][k] == scs[k];
  }

  /** The characters of `n` keys in a row. */
  function Spelled(m: Modifiers, from: byte, n: nat): seq<char>
    requires from + n <= 256
  {
    seq(n, i requires 0 <= i < n => Decode(m, from + i))
  }

  /** What the keys say: the rows of the keyboard from left to right, with and without shift. Control and
      alt do not matter. */
  lemma KeysSpell(m: Modifiers)
    ensures !m.shift ==> Spelled(m, 0x02, 12) == "1234567890-=" && Spelled(m, 0x10, 13) == "qwertyuiop[]\n"
    ensures !m.shift ==> Spelled(m, 0x1E, 12) == "asdfghjkl;'`" && Spelled(m, 0x2B, 11) == "\\zxcvbnm,./"
    ensures m.shift ==> Spelled(m, 0x02, 12) == "!@#$%^&*()_+" && Spelled(m, 0x10, 13) == "QWERTYUIOP{}\n"
    ensures m.shift ==> Spelled(m, 0x1E, 12) == "ASDFGHJKL:\"~" && Spelled(m, 0x2B, 11) == "|ZXCVBNM<>?"
  {
    Rows();
    forall sc: byte
      ensures IsModifier(sc) <==> sc in {0x2A, 0x36, 0x1D, 0x38, 0xAA, 0xB6, 0x9D, 0xB8}
    {
      ModifierCodes(sc);
    }
    hide LOWER, UPPER, Decode, IsModifier;
    RowSpelled(m, 0x02, 12);
    RowSpelled(m, 0x10, 13);
    RowSpelled(m, 0x1E, 12);
    RowSpelled(m, 0x2B, 11);
  }

  lemma Rows()
    ensures |LOWER| == |UPPER| == 64
    ensures LOWER[0x02..0x0E] == "1234567890-=" && LOWER[0x10..0x1D] == "qwertyuiop[]\n"
    ensures LOWER[0x1E..0x2A] == "asdfghjkl;'`" && LOWER[0x2B..0x36] == "\\zxcvbnm,./"
    ensures UPPER[0x02..0x0E] == "!@#$%^&*()_+" && UPPER[0x10..0x1D] == "QWERTYUIOP{}\n"
    ensures UPPER[0x1E..0x2A] == "ASDFGHJKL:\"~" && UPPER[0x2B..0x36] == "|ZXCVBNM<>?"
  {
    LowerRows();
    UpperRows();
    hide LOWER_0, LOWER_1, LOWER_2, LOWER_3, UPPER_0, UPPER_1, UPPER_2, UPPER_3;
    Quarters(LOWER_0, LOWER_1, LOWER_2, LOWER_3);
    Quarters(UPPER_0, UPPER_1, UPPER_2, UPPER_3);
  }

  lemma LowerRows()
    ensures |LOWER_0| == |LOWER_1| == |LOWER_2| == |LOWER_3| == 16
    ensures LOWER_0[2..14] == "1234567890-=" && LOWER_1[..13] == "qwertyuiop[]\n"
    ensures LOWER_1[14..] + LOWER_2[..10] == "asdfghjkl;'`" && LOWER_2[11..] + LOWER_3[..6] == "\\zxcvbnm,./"
  {
  }

  lemma UpperRows()
    ensures |UPPER_0| == |UPPER_1| == |UPPER_2| == |UPPER_3| == 16
    ensures UPPER_0[2..14] == "!@#$%^&*()_+" && UPPER_1[..13] == "QWERTYUIOP{}\n"
    ensures UPPER_1[14..] + UPPER_2[..10] == "ASDFGHJKL:\"~" && UPPER_2[11..] + UPPER_3[..6] == "|ZXCVBNM<>?"
  {
  }

  lemma Quarters<T>(a: seq<T>, b: seq<T>, c: seq<T>, d: seq<T>)
    requires |a| == |b| == |c| == |d| == 16
    ensures var t := a + b + c + d;
      && |t| == 64 && t[2..14] == a[2..14] && t[16..29] == b[..13]
      && t[30..42] == b[14..] + c[..10] && t[43..54] == c[11..] + d[..6]
  {
  }

  lemma RowSpelled(m: Modifiers, from: byte, n: nat)
    requires |LOWER| == |UPPER| == 64 && from + n <= 64
    requires forall sc: byte :: from <= sc < from + n ==> !IsModifier(sc)
    ensures Spelled(m, from, n) == if m.shift then UPPER[from..from + n] else LOWER[from..from + n]
  {
    hide LOWER, UPPER, IsModifier;
    forall sc: byte | from <= sc < from + n
      ensures Decode(m, sc) == if m.shift then UPPER[sc] else LOWER[sc]
    {
    }
  }

  lemma ModifierCodes(sc: byte)
    ensures IsModifier(sc) <==> sc in {0x2A, 0x36, 0x1D, 0x38, 0xAA, 0xB6, 0x9D, 0xB8}
  {
    hide Key;
    KeyOf(sc);
  }

  /** Other scancodes say nothing: releases, modifiers and what is outside the table. */
  lemma OthersSilent(m: Modifiers, sc: byte)
    requires sc < 2 || sc == 0x1D || sc == 0x2A || sc == 0x36 || sc == 0x38 || 0x3A <= sc
    ensures Decode(m, sc) == NONE
  {
  }

  /** Slots of characters less than a lap apart are different. */
  lemma SlotsDiffer(i: nat, j: nat)
    requires i < j < i + KB_BUFFER_SIZE
    ensures i % KB_BUFFER_SIZE != j % KB_BUFFER_SIZE
  {
  }

  lemma NextSlot(n: nat)
    ensures (n % KB_BUFFER_SIZE + 1) % KB_BUFFER_SIZE == (n + 1) % KB_BUFFER_SIZE
  {
  }

  /** With at most 127 characters pending, the handler's test for a full ring and the reader's test
      for an empty one are exact. */
  lemma TestsExact(taken: nat, written: nat)
    requires taken <= written <= taken + KB_BUFFER_SIZE - 1
    ensures taken % KB_BUFFER_SIZE == written % KB_BUFFER_SIZE <==> written == taken
    ensures (written % KB_BUFFER_SIZE + 1) % KB_BUFFER_SIZE == taken % KB_BUFFER_SIZE
            <==> written - taken == KB_BUFFER_SIZE - 1
    ensures (written % KB_BUFFER_SIZE + 1) % KB_BUFFER_SIZE == (written + 1) % KB_BUFFER_SIZE
  {
    NextSlot(written);
    if taken < written {
      SlotsDiffer(taken, written);
    }
    if written - taken < KB_BUFFER_SIZE - 1 {
      SlotsDiffer(taken, written + 1);
    } else {
      FullLap(taken);
    }
  }

  lemma FullLap(n: nat)
    ensures (n + KB_BUFFER_SIZE) % KB_BUFFER_SIZE == n % KB_BUFFER_SIZE
  {
  }

  class KeyboardState {
    const buffer: array<char>
    var readPos: nat
    var writePos: nat
    var modifiers: Modifiers
    /** Every character the handler accepted, and every character a reader returned. */
    ghost var accepted: seq<char>
    ghost var read: seq<char>

    ghost predicate Valid()
      reads this, buffer
    {
      && buffer.Length == KB_BUFFER_SIZE
      && |read| <= |accepted| <= |read| + KB_BUFFER_SIZE - 1
      && read == accepted[..|read|]
      && readPos == |read| % KB_BUFFER_SIZE && writePos == |accepted| % KB_BUFFER_SIZE
      && (forall k :: 0 <= k < |accepted| ==> accepted[k] != NONE)
      && forall k :: |read| <= k < |accepted| ==> buffer[k % KB_BUFFER_SIZE] == accepted[k]
    }

    constructor ()
      ensures Valid() && accepted == [] && read == [] && modifiers == Modifiers(false, false, false)
    {
      buffer := new char[KB_BUFFER_SIZE];
      readPos, writePos, modifiers := 0, 0, Modifiers(false, false, false);
      accepted, read := [], [];
    }

    /** The interrupt handler: a character is dropped only when 127 are pending. */
    method ProcessScancode(sc: byte)
      requires Valid()
      modifies this`writePos, this`modifiers, this`accepted, buffer
      ensures Valid() && modifiers == AfterKey(old(modifiers), sc)
      ensures accepted ==
        if Decode(old(modifiers), sc) != NONE && |old(accepted)| - |read| < KB_BUFFER_SIZE - 1
        then old(accepted) + [Decode(old(modifiers), sc)] else old(accepted)
    {
      hide Key;
      KeyOf(sc);
      if sc == SC_LSHIFT || sc == SC_RSHIFT {
        modifiers := modifiers.(shift := true);
        return;
      }
      if sc == SC_LSHIFT + RELEASE || sc == SC_RSHIFT + RELEASE {
        modifiers := modifiers.(shift := false);
        return;
      }
      if sc == SC_CTRL {
        modifiers := modifiers.(ctrl := true);
        return;
      }
      if sc == SC_CTRL + RELEASE {
        modifiers := modifiers.(ctrl := false);
        return;
      }
      if sc == SC_ALT {
        modifiers := modifiers.(alt := true);
        return;
      }
      if sc == SC_ALT + RELEASE {
        modifiers := modifiers.(alt := false);
        return;
      }
      if sc >= RELEASE {
        return;
      }
      var ascii := NONE;
      if sc < |LOWER| {
        ascii := if modifiers.shift then UPPER[sc] else LOWER[sc];
      }
      if ascii != NONE {
        Append(ascii);
      }
    }

    method Append(ascii: char)
      requires Valid() && ascii != NONE
      modifies this`writePos, this`accepted, buffer
      ensures Valid()
      ensures accepted ==
        if |old(accepted)| - |read| < KB_BUFFER_SIZE - 1 then old(accepted) + [ascii] else old(accepted)
    {
      var nextWrite := (writePos + 1) % KB_BUFFER_SIZE;
      TestsExact(|read|, |accepted|);
      if nextWrite != readPos {
        PendingElsewhere(|read|, |accepted|);
        buffer[writePos] := ascii;
        writePos := nextWrite;
        accepted := accepted + [ascii];
      }
    }

    /** Any number of interrupts between two statements of a reader. */
    method Interrupts()
      requires Valid()
      modifies this`writePos, this`modifiers, this`accepted, buffer
      ensures Valid() && old(accepted) <= accepted
    {
      var count: nat :| true;
      while count > 0
        invariant Valid() && old(accepted) <= accepted
      {
        var sc: byte :| true;
        ProcessScancode(sc);
        count := count - 1;
      }
    }

    method HasKey() returns (r: bool)
      requires Valid()
      ensures r <==> |read| < |accepted|
    {
      TestsExact(|read|, |accepted|);
      r := readPos != writePos;
    }

    /** Takes the character at the read position, with interrupts before and after the load. */
    method TakeChar() returns (ch: char)
      requires Valid() && |read| < |accepted|
      modifies this, buffer
      ensures Valid() && old(accepted) <= accepted
      ensures read == old(read) + [ch] && ch == old(accepted)[|old(read)|]
    {
      Interrupts();
      ch := buffer[readPos];
      Interrupts();
      TestsExact(|read|, |accepted|);
      NextSlot(|read|);
      readPos := (readPos + 1) % KB_BUFFER_SIZE;
      read := read + [ch];
    }

    /** Returns NONE exactly if no character was pending when it looked. */
    method GetcharNonblock() returns (ch: char)
      requires Valid()
      modifies this, buffer
      ensures Valid() && old(accepted) <= accepted
      ensures ch == NONE <==> |old(read)| == |old(accepted)|
      ensures read == if ch == NONE then old(read) else old(read) + [ch]
      ensures ch != NONE ==> ch == old(accepted)[|old(read)|]
    {
      var pending := HasKey();
      if !pending {
        return NONE;
      }
      ch := TakeChar();
    }

    /** Halts until a key is pending and returns it. The wait may be of any finite length: sooner
        or later a key with a character is pressed. */
    method Getchar() returns (ch: char)
      requires Valid()
      modifies this, buffer
      ensures Valid() && old(accepted) <= accepted
      ensures read == old(read) + [ch] && |old(read)| < |accepted| && ch == accepted[|old(read)|]
    {
      var wait: nat :| true;
      var pending := HasKey();
      while !pending
        invariant Valid() && old(accepted) <= accepted && read == old(read)
        invariant pending <==> |read| < |accepted|
        decreases !pending, wait
      {
        if wait == 0 {
          LetterKey(modifiers);
          var sc: byte :| Decode(modifiers, sc) != NONE;
          ProcessScancode(sc);
        } else {
          Interrupts();
          wait := wait - 1;
        }
        pending := HasKey();
      }
      ch := TakeChar();
    }
  }

  /** The slot the handler writes next holds no pending character. */
  lemma PendingElsewhere(taken: nat, written: nat)
    requires taken <= written < taken + KB_BUFFER_SIZE - 1
    ensures forall k :: taken <= k < written ==> k % KB_BUFFER_SIZE != written % KB_BUFFER_SIZE
  {
    forall k | taken <= k < written
      ensures k % KB_BUFFER_SIZE != written % KB_BUFFER_SIZE
    {
      SlotsDiffer(k, written);
    }
  }
}
