/** The shell's text editor (kernel/shell/shell.c:500-605 and 709-791): an edit buffer changed in
    place, the scanning line helpers, and the key loop around them.  Text is looked at in two ways,
    as one sequence with a cursor and as a list of lines with a line and column. */
module Editor {
  import opened Bytes

  const MAX_FILE_CONTENT := 4096

  // ---------------------------------------------------------------- lines

  /** The lines of a text: what is between its newlines. */
  function Lines(t: seq<char>): (ls: seq<seq<char>>)
    ensures |ls| > 0
  {
    if t == [] then [[]]
    else
      var before := Lines(t[..|t| - 1]);
      var c := t[|t| - 1];
      if c == '\n' then before + [[]]
      else before[..|before| - 1] + [before[|before| - 1] + [c]]
  }

  /** The line and the column of offset `cursor`: how many lines end before it, and how much of its
      own line is in front of it. */
  function Line(t: seq<char>, cursor: nat): nat
    requires cursor <= |t|
  {
    |Lines(t[..cursor])| - 1
  }

  function Column(t: seq<char>, cursor: nat): nat
    requires cursor <= |t|
  {
    var ls := Lines(t[..cursor]);
    |ls[|ls| - 1]|
  }

  predicate NoBreak(t: seq<char>, from: nat, to: nat)
    requires from <= to <= |t|
  {
    forall i :: from <= i < to ==> t[i] != '\n'
  }

  predicate StartsLine(t: seq<char>, s: nat)
    requires s <= |t|
  {
    s == 0 || t[s - 1] == '\n'
  }

  predicate EndsLine(t: seq<char>, e: nat)
    requires e <= |t|
  {
    e == |t| || t[e] == '\n'
  }

  /** The lines that end before a line starting at `s`. */
  function LinesBefore(t: seq<char>, s: nat): seq<seq<char>>
    requires s <= |t|
  {
    if s == 0 then [] else Lines(t[..s - 1])
  }

  lemma {:induction false} LinesUpTo(t: seq<char>, s: nat, c: nat)
    requires s <= c <= |t| && StartsLine(t, s) && NoBreak(t, s, c)
    ensures Lines(t[..c]) == LinesBefore(t, s) + [t[s..c]]
    decreases c
  {
    if c == s {
      LinesAtStart(t, s);
    } else {
      hide LinesBefore, Lines, StartsLine, NoBreak;
      LineShorter(t, s, c);
      LinesUpTo(t, s, c - 1);
      LongerLine(t, c, LinesBefore(t, s), t[s..c - 1]);
    }
  }

  lemma LinesAtStart(t: seq<char>, s: nat)
    requires s <= |t| && StartsLine(t, s)
    ensures Lines(t[..s]) == LinesBefore(t, s) + [t[s..s]]
  {
    assert t[s..s] == [];
    if s > 0 {
      assert t[..s][..s - 1] == t[..s - 1] && t[..s][s - 1] == '\n';
    }
  }

  lemma LineShorter(t: seq<char>, s: nat, c: nat)
    requires s < c <= |t| && NoBreak(t, s, c)
    ensures NoBreak(t, s, c - 1) && t[c - 1] != '\n' && t[s..c] == t[s..c - 1] + [t[c - 1]]
  {
  }

  lemma LongerLine(t: seq<char>, c: nat, before: seq<seq<char>>, l: seq<char>)
    requires 0 < c <= |t| && t[c - 1] != '\n' && Lines(t[..c - 1]) == before + [l]
    ensures Lines(t[..c]) == before + [l + [t[c - 1]]]
  {
    assert t[..c][..c - 1] == t[..c - 1];
  }

  lemma {:induction false} LinesStand(t: seq<char>, c: nat)
    requires c <= |t|
    ensures var ls := Lines(t[..c]); |ls| <= |Lines(t)| && ls[..|ls| - 1] == Lines(t)[..|ls| - 1]
    decreases |t| - c
  {
    if c == |t| {
      assert t[..c] == t;
    } else {
      LinesStand(t, c + 1);
      assert t[..c + 1][..c] == t[..c];
      var now, more := Lines(t[..c]), Lines(t[..c + 1]);
      assert more[..|more| - 1][..|now| - 1] == now[..|now| - 1];
      assert Lines(t)[..|more| - 1][..|now| - 1] == Lines(t)[..|now| - 1];
    }
  }

  lemma NewlineOpens(t: seq<char>, e: nat)
    requires e < |t| && t[e] == '\n'
    ensures Lines(t[..e + 1]) == Lines(t[..e]) + [[]]
  {
    assert t[..e + 1][..e] == t[..e];
  }

  /** A stretch from a line start to the next line end is a line of the text. */
  lemma WholeLine(t: seq<char>, s: nat, e: nat)
    requires s <= e <= |t| && StartsLine(t, s) && NoBreak(t, s, e) && EndsLine(t, e)
    ensures |LinesBefore(t, s)| < |Lines(t)| && Lines(t)[|LinesBefore(t, s)|] == t[s..e]
    ensures e == |t| ==> |Lines(t)| == |LinesBefore(t, s)| + 1
  {
    hide Lines;
    LinesUpTo(t, s, e);
    if e == |t| {
      assert t[..e] == t;
    } else {
      hide LinesBefore;
      NewlineOpens(t, e);
      LinesStand(t, e + 1);
      var ls, k := Lines(t[..e]), |LinesBefore(t, s)|;
      assert (ls + [[]])[..|ls|] == ls;
      assert ls == Lines(t)[..|ls|];
      assert ls[k] == t[s..e] && Lines(t)[k] == ls[k];
    }
  }

  /** Line and column grow with the offset, so together they determine it. */
  lemma {:induction false} PositionOrder(t: seq<char>, a: nat, b: nat)
    requires a < b <= |t|
    ensures Line(t, a) < Line(t, b) || (Line(t, a) == Line(t, b) && Column(t, a) < Column(t, b))
    decreases b
  {
    assert t[..b][..b - 1] == t[..b - 1];
    if a < b - 1 {
      PositionOrder(t, a, b - 1);
    }
  }

  // ---------------------------------------------------------------- line helpers

  function LineStart(t: seq<char>, cursor: nat): (s: nat)
    requires cursor <= |t|
    ensures s <= cursor && StartsLine(t, s) && NoBreak(t, s, cursor)
  {
    if cursor > 0 && t[cursor - 1] != '\n' then LineStart(t, cursor - 1) else cursor
  }

  function LineEnd(t: seq<char>, cursor: nat): (e: nat)
    requires cursor <= |t|
    ensures cursor <= e <= |t| && EndsLine(t, e) && NoBreak(t, cursor, e)
    decreases |t| - cursor
  {
    if cursor < |t| && t[cursor] != '\n' then LineEnd(t, cursor + 1) else cursor
  }

  /** Where the cursor goes: to the same column of the line above, or to that line's end. */
  function Up(t: seq<char>, cursor: nat): (r: nat)
    requires cursor <= |t|
    ensures r <= |t|
  {
    var start := LineStart(t, cursor);
    if start == 0 then cursor
    else
      var prevStart := LineStart(t, start - 1);
      prevStart + Min(cursor - start, start - 1 - prevStart)
  }

  function Down(t: seq<char>, cursor: nat): (r: nat)
    requires cursor <= |t|
    ensures r <= |t|
  {
    var end := LineEnd(t, cursor);
    if end >= |t| then cursor
    else end + 1 + Min(cursor - LineStart(t, cursor), LineEnd(t, end + 1) - (end + 1))
  }

  /** The position of an offset in the line that starts at `s`. */
  lemma PositionAt(t: seq<char>, s: nat, c: nat)
    requires s <= c <= |t| && StartsLine(t, s) && NoBreak(t, s, c)
    ensures Line(t, c) == |LinesBefore(t, s)| && Column(t, c) == c - s
  {
    hide Lines;
    LinesUpTo(t, s, c);
  }

  /** The line behind the one from `s` to the newline at `e`. */
  lemma LinesAhead(t: seq<char>, s: nat, e: nat)
    requires s <= e <= |t| && StartsLine(t, s) && NoBreak(t, s, e)
    ensures LinesBefore(t, 0) == []
    ensures e < |t| ==> |LinesBefore(t, e + 1)| == |LinesBefore(t, s)| + 1
  {
    hide Lines;
    LinesUpTo(t, s, e);
  }

  lemma LineInside(t: seq<char>, c: nat)
    requires c <= |t|
    ensures Line(t, c) < |Lines(t)|
  {
    LinesStand(t, c);
  }

  /** On the first line `Up` stays; otherwise it goes exactly one line up, to the same column or to
      the end of a shorter line. */
  lemma UpGoesOneLine(t: seq<char>, cursor: nat)
    requires cursor <= |t|
    ensures Line(t, cursor) < |Lines(t)|
    ensures Line(t, cursor) == 0 ==> Up(t, cursor) == cursor
    ensures Line(t, cursor) > 0 ==>
      Line(t, Up(t, cursor)) == Line(t, cursor) - 1 &&
      Column(t, Up(t, cursor)) == Min(Column(t, cursor), |Lines(t)[Line(t, cursor) - 1]|)
  {
    hide Lines, LineStart, LineEnd, Line, Column, LinesBefore;
    var s := LineStart(t, cursor);
    PositionAt(t, s, cursor);
    LineInside(t, cursor);
    if s == 0 {
      LinesAhead(t, 0, 0);
    } else {
      var ps := LineStart(t, s - 1);
      LinesAhead(t, ps, s - 1);
      WholeLine(t, ps, s - 1);
      PositionAt(t, ps, Up(t, cursor));
    }
  }

  /** On the last line `Down` stays; otherwise it goes exactly one line down. */
  lemma DownGoesOneLine(t: seq<char>, cursor: nat)
    requires cursor <= |t|
    ensures Line(t, cursor) < |Lines(t)|
    ensures Line(t, cursor) == |Lines(t)| - 1 ==> Down(t, cursor) == cursor
    ensures Line(t, cursor) < |Lines(t)| - 1 ==>
      Line(t, Down(t, cursor)) == Line(t, cursor) + 1 &&
      Column(t, Down(t, cursor)) == Min(Column(t, cursor), |Lines(t)[Line(t, cursor) + 1]|)
  {
    hide Lines, LineStart, LineEnd, Line, Column, LinesBefore;
    var s, e := LineStart(t, cursor), LineEnd(t, cursor);
    PositionAt(t, s, cursor);
    WholeLine(t, s, e);
    if e < |t| {
      var ne := LineEnd(t, e + 1);
      LinesAhead(t, s, e);
      WholeLine(t, e + 1, ne);
      PositionAt(t, e + 1, Down(t, cursor));
    }
  }

  // ---------------------------------------------------------------- edits

  function Typed(t: seq<char>, cursor: nat, c: char): seq<char>
    requires cursor <= |t|
  {
    t[..cursor] + [c] + t[cursor..]
  }

  function Erased(t: seq<char>, cursor: nat): seq<char>
    requires 0 < cursor <= |t|
  {
    t[..cursor - 1] + t[cursor..]
  }

  /** Backspace undoes an insertion, and inserting the erased character undoes a backspace. */
  lemma EditsUndo(t: seq<char>, cursor: nat, c: char)
    requires cursor <= |t|
    ensures Erased(Typed(t, cursor, c), cursor + 1) == t
    ensures cursor > 0 ==> Typed(Erased(t, cursor), cursor - 1, t[cursor - 1]) == t
  {
    assert Typed(t, cursor, c)[..cursor] == t[..cursor];
    assert Typed(t, cursor, c)[cursor + 1..] == t[cursor..];
    if cursor > 0 {
      var erased := Erased(t, cursor);
      assert erased[..cursor - 1] == t[..cursor - 1] && erased[cursor - 1..] == t[cursor..];
    }
  }

  /** The buffer with the characters from `cursor` to `n` moved up by one. */
  function Gapped(b: seq<char>, cursor: nat, n: nat): (r: seq<char>)
    requires cursor <= n < |b|
    ensures |r| == |b|
  {
    b[..cursor] + [b[cursor]] + b[cursor..n] + b[n + 1..]
  }

  /** The buffer with the characters behind `cursor - 1` up to `n` moved down by one. */
  function Closed(b: seq<char>, cursor: nat, n: nat): (r: seq<char>)
    requires 0 < cursor <= n < |b|
    ensures |r| == |b|
  {
    b[..cursor - 1] + b[cursor..n + 1] + b[n..]
  }

  lemma GappedText(b: seq<char>, cursor: nat, n: nat, r: seq<char>)
    requires cursor <= n < |b| && |r| == |b|
    requires forall j :: 0 <= j < |r| ==> r[j] == b[if cursor < j <= n then j - 1 else j]
    ensures r == Gapped(b, cursor, n)
  {
  }

  lemma ClosedText(b: seq<char>, cursor: nat, n: nat, r: seq<char>)
    requires 0 < cursor <= n < |b| && |r| == |b|
    requires forall j :: 0 <= j < |r| ==> r[j] == b[if cursor - 1 <= j < n then j + 1 else j]
    ensures r == Closed(b, cursor, n)
  {
  }

  lemma InsertedText(b: seq<char>, cursor: nat, n: nat, c: char)
    requires cursor <= n && n + 1 < |b| && NoNul(b[..n]) && c != '\0'
    ensures var r := Gapped(b, cursor, n)[cursor := c][n + 1 := '\0'];
      r[..n + 1] == Typed(b[..n], cursor, c) && NoNul(r[..n + 1]) && r[n + 2..] == b[n + 2..]
  {
    var t := b[..n];
    forall i | 0 <= i <= n
      ensures Typed(t, cursor, c)[i] != '\0'
    {
      if i < cursor {
        assert Typed(t, cursor, c)[i] == t[i];
      } else if i > cursor {
        assert Typed(t, cursor, c)[i] == t[i - 1];
      }
    }
  }

  lemma ErasedText(b: seq<char>, cursor: nat, n: nat)
    requires 0 < cursor <= n < |b| && NoNul(b[..n]) && b[n] == '\0'
    ensures var r := Closed(b, cursor, n);
      r[..n - 1] == Erased(b[..n], cursor) && NoNul(r[..n - 1]) && r[n - 1] == '\0' && r[n..] == b[n..]
  {
    var t := b[..n];
    forall i | 0 <= i < n - 1
      ensures Erased(t, cursor)[i] != '\0'
    {
      assert Erased(t, cursor)[i] == t[if i < cursor - 1 then i else i + 1];
    }
  }

  // ---------------------------------------------------------------- sessions

  /** One key as the loop sees it; a key with no character arrives as NUL. */
  datatype Key = Escape | Backspace | Enter | Character(c: char, ctrl: bool)

  datatype Session = Session(text: seq<char>, cursor: nat, insert: bool, dirty: bool, status: string,
                             fileSize: nat) {
    /** First NUL of the buffer right behind the text, cursor inside it. */
    predicate WellFormed() {
      cursor <= |text| <= MAX_FILE_CONTENT - 1 && NoNul(text)
    }
  }

  predicate IsSave(k: Key) {
    k.Character? && k.ctrl && (k.c == 's' || k.c == 'S')
  }

  predicate IsQuit(k: Key, insert: bool) {
    k.Character? && ((k.ctrl && (k.c == 'q' || k.c == 'Q')) || (!insert && k.c == 'q'))
  }

  function Insert(s: Session, c: char): Session
    requires s.cursor <= |s.text|
  {
    if |s.text| >= MAX_FILE_CONTENT - 1 then s.(status := "Buffer full")
    else s.(text := Typed(s.text, s.cursor, c), cursor := s.cursor + 1, dirty := true)
  }

  function Rubout(s: Session): Session
    requires s.cursor <= |s.text|
  {
    if s.cursor == 0 then s
    else s.(text := Erased(s.text, s.cursor), cursor := s.cursor - 1, dirty := true)
  }

  /** What a plain key does in normal mode. */
  function Command(s: Session, c: char): Session
    requires s.cursor <= |s.text|
  {
    if c == 'i' then s.(insert := true, status := "Insert mode")
    else if c == 'h' then s.(cursor := if s.cursor > 0 then s.cursor - 1 else 0)
    else if c == 'l' then s.(cursor := if s.cursor < |s.text| then s.cursor + 1 else s.cursor)
    else if c == 'k' then s.(cursor := Up(s.text, s.cursor))
    else if c == 'j' then s.(cursor := Down(s.text, s.cursor))
    else s
  }

  function Save(s: Session): Session {
    s.(fileSize := |s.text|, status := if s.dirty then "Saved" else "No changes", dirty := false)
  }

  function Press(s: Session, k: Key): Session
    requires s.cursor <= |s.text|
  {
    match k
    case Escape => s.(insert := false, status := "Normal mode")
    case Backspace => if s.insert then Rubout(s) else s
    case Enter => if s.insert then Insert(s, '\n') else s
    case Character(c, ctrl) =>
      if c == '\0' then s
      else if IsSave(k) then Save(s)
      else if IsQuit(k, s.insert) then s.(fileSize := |s.text|)
      else if !s.insert then Command(s, c)
      else Insert(s, c)
  }

  lemma PressKeeps(s: Session, k: Key)
    requires s.WellFormed()
    ensures Press(s, k).WellFormed()
  {
    hide Lines;
  }

  /** A session: the keys pressed, up to the one that leaves the editor. */
  function RunKeys(s: Session, keys: seq<Key>): (r: Session)
    requires s.WellFormed()
    ensures r.WellFormed()
    decreases |keys|
  {
    if keys == [] then s
    else
      PressKeeps(s, keys[0]);
      if IsQuit(keys[0], s.insert) then Press(s, keys[0]) else RunKeys(Press(s, keys[0]), keys[1..])
  }

  /** The dirty flag is honest over any session without a save: if it is clear at the end, the text
      is the text of the beginning. */
  lemma {:induction false} CleanMeansUnchanged(s: Session, keys: seq<Key>)
    requires s.WellFormed() && forall k :: k in keys ==> !IsSave(k)
    ensures RunKeys(s, keys).dirty || (RunKeys(s, keys).text == s.text && !s.dirty)
    decreases |keys|
  {
    hide Lines;
    if keys != [] {
      PressKeeps(s, keys[0]);
      if !IsQuit(keys[0], s.insert) {
        CleanMeansUnchanged(Press(s, keys[0]), keys[1..]);
      }
    }
  }

  /** Without a key that enters insert mode, a session that starts in normal mode edits nothing. */
  lemma {:induction false} NormalModeReadsOnly(s: Session, keys: seq<Key>)
    requires s.WellFormed() && !s.insert
    requires forall k :: k in keys && k.Character? ==> k.c != 'i'
    ensures RunKeys(s, keys).text == s.text && !RunKeys(s, keys).insert
    decreases |keys|
  {
    hide Lines;
    if keys != [] {
      PressKeeps(s, keys[0]);
      if !IsQuit(keys[0], s.insert) {
        NormalModeReadsOnly(Press(s, keys[0]), keys[1..]);
      }
    }
  }

  /** The text is only ever changed by keys of insert mode, one character at a time, and the cursor
      moves with it; a refused insertion changes nothing. */
  lemma KeyEditsOnce(s: Session, k: Key)
    requires s.WellFormed()
    ensures var r := Press(s, k); r.text != s.text ==>
      s.insert && r.dirty && (|r.text| == |s.text| + 1 || |r.text| + 1 == |s.text|) &&
      r.cursor - s.cursor == |r.text| - |s.text| &&
      (|r.text| > |s.text| ==> Press(r, Backspace).text == s.text && Press(r, Backspace).cursor == s.cursor)
  {
    InsertOnce(s, if k.Character? then k.c else '\n');
    RuboutOnce(s);
    if k.Character? {
      CommandKeepsText(s, k.c);
    }
    hide Insert, Rubout, Command, IsSave, IsQuit;
  }

  /** The character a key types in insert mode. */
  function TypedBy(k: Key): Option<char> {
    match k
    case Enter => Some('\n')
    case Character(c, ctrl) =>
      if c == '\0' || (ctrl && (c == 's' || c == 'S' || c == 'q' || c == 'Q')) then None else Some(c)
    case _ => None
  }

  /** Insert mode: a typed character goes in front of the cursor unless the buffer is full, backspace
      takes the one in front of it away unless there is none. */
  lemma InsertModeKeys(s: Session, k: Key)
    requires s.WellFormed() && s.insert
    ensures var r := Press(s, k); TypedBy(k).Some? && |s.text| < MAX_FILE_CONTENT - 1 ==>
      && r.text == s.text[..s.cursor] + [TypedBy(k).value] + s.text[s.cursor..]
      && r == s.(text := r.text, cursor := s.cursor + 1, dirty := true)
    ensures TypedBy(k).Some? && |s.text| == MAX_FILE_CONTENT - 1 ==> Press(s, k) == s.(status := "Buffer full")
    ensures var r := Press(s, k); k.Backspace? && 0 < s.cursor ==>
      && r.text == s.text[..s.cursor - 1] + s.text[s.cursor..]
      && r == s.(text := r.text, cursor := s.cursor - 1, dirty := true)
    ensures k.Backspace? && s.cursor == 0 ==> Press(s, k) == s
  {
    hide Command, Save;
  }

  lemma TextChanges(s: Session, k: Key)
    requires s.WellFormed()
    ensures s.insert && TypedBy(k).Some? && |s.text| < MAX_FILE_CONTENT - 1 ==>
      && Press(s, k).text == s.text[..s.cursor] + [TypedBy(k).value] + s.text[s.cursor..]
      && Press(s, k).cursor == s.cursor + 1 && Press(s, k).dirty
    ensures s.insert && k.Backspace? && 0 < s.cursor ==>
      && Press(s, k).text == s.text[..s.cursor - 1] + s.text[s.cursor..]
      && Press(s, k).cursor == s.cursor - 1 && Press(s, k).dirty
    ensures !s.insert || (TypedBy(k).None? && !k.Backspace?) ==> Press(s, k).text == s.text
  {
    if s.insert {
      InsertModeKeys(s, k);
    } else if k.Character? {
      CommandKeepsText(s, k.c);
    }
    hide Insert, Rubout, Command;
  }

  /** The keys that act alike in both modes. */
  lemma ControlKeys(s: Session, k: Key)
    requires s.WellFormed()
    ensures k.Escape? ==> Press(s, k) == s.(insert := false, status := "Normal mode")
    ensures k.Character? && k.c == '\0' ==> Press(s, k) == s
    ensures k.Character? && k.ctrl && (k.c == 's' || k.c == 'S') ==>
      Press(s, k) == s.(fileSize := |s.text|, dirty := false, status := if s.dirty then "Saved" else "No changes")
    ensures IsQuit(k, s.insert) ==> Press(s, k) == s.(fileSize := |s.text|)
    ensures IsQuit(k, s.insert) <==>
      (k.Character? && ((k.ctrl && k.c == 'q') || (k.ctrl && k.c == 'Q') || (!s.insert && k.c == 'q')))
  {
    hide Command, Insert, Rubout;
  }

  /** Normal mode: "i" enters insert mode, "h" and "l" go one character to the left and to the right,
      "k" and "j" one line up and down; nothing else but saving and leaving does anything. */
  lemma NormalModeKeys(s: Session, k: Key)
    requires s.WellFormed() && !s.insert
    requires k.Enter? || k.Backspace? || (k.Character? && k.c != '\0' && !IsSave(k) && !IsQuit(k, false))
    ensures k.Character? && k.c == 'i' ==> Press(s, k) == s.(insert := true, status := "Insert mode")
    ensures k.Character? && k.c == 'h' ==> Press(s, k) == s.(cursor := if s.cursor == 0 then 0 else s.cursor - 1)
    ensures k.Character? && k.c == 'l' ==>
      Press(s, k) == s.(cursor := if s.cursor == |s.text| then s.cursor else s.cursor + 1)
    ensures var r := Press(s, k); k.Character? && (k.c == 'k' || k.c == 'j') ==>
      r.cursor <= |s.text| && r == s.(cursor := r.cursor)
    ensures var r, line := Press(s, k), Line(s.text, s.cursor); k.Character? && k.c == 'k' ==>
      if line == 0 then r.cursor == s.cursor
      else Line(s.text, r.cursor) == line - 1 && line - 1 < |Lines(s.text)| &&
           Column(s.text, r.cursor) == Min(Column(s.text, s.cursor), |Lines(s.text)[line - 1]|)
    ensures var r, line := Press(s, k), Line(s.text, s.cursor); k.Character? && k.c == 'j' ==>
      if line + 1 >= |Lines(s.text)| then r.cursor == s.cursor
      else Line(s.text, r.cursor) == line + 1 &&
           Column(s.text, r.cursor) == Min(Column(s.text, s.cursor), |Lines(s.text)[line + 1]|)
    ensures k.Enter? || k.Backspace? || !(k.c in "ihlkj") ==> Press(s, k) == s
  {
    hide Lines, Line, Column, Up, Down, Insert, Rubout, Save;
    UpGoesOneLine(s.text, s.cursor);
    DownGoesOneLine(s.text, s.cursor);
  }

  lemma RuboutOnce(s: Session)
    requires s.cursor <= |s.text|
    ensures var r := Rubout(s);
      r.text != s.text ==> |r.text| + 1 == |s.text| && r.cursor == s.cursor - 1 && r.dirty
  {
  }

  lemma CommandKeepsText(s: Session, c: char)
    requires s.cursor <= |s.text|
    ensures Command(s, c).text == s.text
  {
    hide Up, Down;
  }

  lemma InsertOnce(s: Session, c: char)
    requires s.cursor <= |s.text|
    ensures var r := Insert(s, c); r.text != s.text ==>
      |r.text| == |s.text| + 1 && r.cursor == s.cursor + 1 && r.dirty && r.insert == s.insert &&
      Rubout(r).text == s.text && Rubout(r).cursor == s.cursor
  {
    hide Erased, Lines;
    EditsUndo(s.text, s.cursor, c);
  }

  // ---------------------------------------------------------------- the buffer in place

  class TextEditor {
    const buffer: array<char>
    var length: nat
    var cursor: nat
    var insertMode: bool
    var dirty: bool
    var status: string
    var fileSize: nat

    ghost predicate Valid()
      reads this, buffer
    {
      buffer.Length == MAX_FILE_CONTENT && cursor <= length <= MAX_FILE_CONTENT - 1 &&
      buffer[length] == '\0' && NoNul(buffer[..length])
    }

    /** Line and column of the cursor in the list of lines. */
    function CursorLine(): nat
      reads this, buffer
      requires cursor <= length <= buffer.Length
    {
      Line(buffer[..length], cursor)
    }

    function CursorColumn(): nat
      reads this, buffer
      requires cursor <= length <= buffer.Length
    {
      Column(buffer[..length], cursor)
    }

    ghost function State(): Session
      reads this, buffer
      requires buffer.Length == MAX_FILE_CONTENT && length <= buffer.Length
    {
      Session(buffer[..length], cursor, insertMode, dirty, status, fileSize)
    }

    /** Opens a stored file: the text is what comes before the first NUL of its content. */
    constructor (content: array<char>, size: nat)
      requires content.Length == MAX_FILE_CONTENT && exists i :: 0 <= i < content.Length && content[i] == '\0'
      ensures Valid() && buffer == content && State().WellFormed()
      ensures cursor == length && !insertMode && !dirty && status == "" && fileSize == size
    {
      buffer := content;
      insertMode, dirty, status, fileSize := false, false, "", size;
      length, cursor := 0, 0;
      new;
      var n := 0;
      while content[n] != '\0'
        invariant n < content.Length && NoNul(content[..n])
        invariant buffer == content
        invariant !insertMode && !dirty && status == "" && fileSize == size
        invariant exists i :: n <= i < content.Length && content[i] == '\0'
        decreases content.Length - n
      {
        n := n + 1;
      }
      length, cursor := n, n;
    }

    method GetCursorLineCol() returns (line: nat, col: nat)
      requires Valid()
      ensures line == Line(buffer[..length], cursor) && col == Column(buffer[..length], cursor)
    {
      line, col := 0, 0;
      var i := 0;
      while i < cursor
        invariant 0 <= i <= cursor
        invariant line == Line(buffer[..length], i) && col == Column(buffer[..length], i)
      {
        assert buffer[..length][..i + 1][..i] == buffer[..length][..i];
        if buffer[i] == '\n' {
          line := line + 1;
          col := 0;
        } else {
          col := col + 1;
        }
        i := i + 1;
      }
    }

    method StartOfLine(from: nat) returns (i: nat)
      requires Valid() && from <= length
      ensures i == LineStart(buffer[..length], from)
    {
      i := from;
      while i > 0 && buffer[i - 1] != '\n'
        invariant i <= from && LineStart(buffer[..length], i) == LineStart(buffer[..length], from)
      {
        i := i - 1;
      }
    }

    method EndOfLine(from: nat) returns (i: nat)
      requires Valid() && from <= length
      ensures i == LineEnd(buffer[..length], from)
    {
      i := from;
      while i < length && buffer[i] != '\n'
        invariant from <= i <= length && LineEnd(buffer[..length], i) == LineEnd(buffer[..length], from)
      {
        i := i + 1;
      }
    }

    method MoveLeft()
      requires Valid()
      modifies `cursor
      ensures Valid() && cursor == if old(cursor) > 0 then old(cursor) - 1 else 0
    {
      if cursor > 0 {
        cursor := cursor - 1;
      }
    }

    method MoveRight()
      requires Valid()
      modifies `cursor
      ensures Valid() && cursor == if old(cursor) < length then old(cursor) + 1 else length
    {
      if cursor < length {
        cursor := cursor + 1;
      }
    }

    method MoveUp()
      requires Valid()
      modifies `cursor
      ensures Valid() && cursor == Up(buffer[..length], old(cursor))
      ensures old(CursorLine()) == 0 ==> cursor == old(cursor)
      ensures old(CursorLine()) > 0 ==>
        CursorLine() == old(CursorLine()) - 1 && CursorLine() < |Lines(buffer[..length])| &&
        CursorColumn() == Min(old(CursorColumn()), |Lines(buffer[..length])[CursorLine()]|)
    {
      hide Lines, Line, Column;
      UpGoesOneLine(buffer[..length], cursor);
      var lineStart := StartOfLine(cursor);
      if lineStart == 0 {
        return;
      }
      var col := cursor - lineStart;
      var prevEnd := lineStart - 1;
      var prevStart := StartOfLine(prevEnd);
      var prevLen := prevEnd - prevStart;
      cursor := prevStart + if col < prevLen then col else prevLen;
    }

    method MoveDown()
      requires Valid()
      modifies `cursor
      ensures Valid() && cursor == Down(buffer[..length], old(cursor))
      ensures old(CursorLine()) == |Lines(buffer[..length])| - 1 ==> cursor == old(cursor)
      ensures old(CursorLine()) < |Lines(buffer[..length])| - 1 ==>
        CursorLine() == old(CursorLine()) + 1 &&
        CursorColumn() == Min(old(CursorColumn()), |Lines(buffer[..length])[CursorLine()]|)
    {
      hide Lines, Line, Column;
      DownGoesOneLine(buffer[..length], cursor);
      var lineEnd := EndOfLine(cursor);
      if lineEnd >= length {
        return;
      }
      var lineStart := StartOfLine(cursor);
      var col := cursor - lineStart;
      var nextStart := lineEnd + 1;
      var nextEnd := EndOfLine(nextStart);
      var nextLen := nextEnd - nextStart;
      cursor := nextStart + if col < nextLen then col else nextLen;
    }

    /** The copying loop of an insertion. */
    method OpenGap()
      requires buffer.Length == MAX_FILE_CONTENT && cursor <= length < MAX_FILE_CONTENT - 1
      modifies buffer
      ensures buffer[..] == Gapped(old(buffer[..]), cursor, length)
    {
      hide Gapped;
      var i := length;
      while i > cursor
        invariant cursor <= i <= length
        invariant forall j :: 0 <= j < buffer.Length ==> buffer[j] == old(buffer[if i < j <= length then j - 1 else j])
      {
        buffer[i] := buffer[i - 1];
        i := i - 1;
      }
      GappedText(old(buffer[..]), cursor, length, buffer[..]);
    }

    /** Moves the tail up by one and puts `c` in the gap; a full buffer only says so. */
    method InsertChar(c: char)
      requires Valid() && c != '\0'
      modifies buffer, `length, `cursor, `dirty, `status
      ensures Valid() && State() == old(Insert(State(), c))
      ensures old(length) < MAX_FILE_CONTENT - 1 ==>
        && buffer[..length] == old(buffer[..cursor]) + [c] + old(buffer[cursor..length])
        && length == old(length) + 1 && cursor == old(cursor) + 1 && dirty && status == old(status)
      ensures old(length) == MAX_FILE_CONTENT - 1 ==>
        && buffer[..] == old(buffer[..]) && length == old(length) && cursor == old(cursor) && dirty == old(dirty)
        && status == "Buffer full"
      ensures buffer[length + 1..] == old(buffer[..])[length + 1..]
    {
      hide Lines, NoNul, Gapped;
      if length >= MAX_FILE_CONTENT - 1 {
        status := "Buffer full";
        return;
      }
      ghost var b, n, k := buffer[..], length, cursor;
      assert b[..n] == buffer[..length];
      InsertedText(b, k, n, c);
      OpenGap();
      buffer[cursor] := c;
      length := length + 1;
      cursor := cursor + 1;
      buffer[length] := '\0';
      dirty := true;
      assert buffer[..] == Gapped(b, k, n)[k := c][n + 1 := '\0'];
      assert buffer[..length] == buffer[..][..length] && buffer[length + 1..] == buffer[..][length + 1..];
    }

    /** The copying loop of a deletion; the NUL moves along. */
    method CloseGap()
      requires buffer.Length == MAX_FILE_CONTENT && 0 < cursor <= length <= MAX_FILE_CONTENT - 1
      modifies buffer
      ensures buffer[..] == Closed(old(buffer[..]), cursor, length)
    {
      hide Closed;
      var i := cursor - 1;
      while i < length
        invariant cursor - 1 <= i <= length
        invariant forall j :: 0 <= j < buffer.Length ==>
          buffer[j] == old(buffer[if cursor - 1 <= j < i then j + 1 else j])
      {
        buffer[i] := buffer[i + 1];
        i := i + 1;
      }
      ClosedText(old(buffer[..]), cursor, length, buffer[..]);
    }

    /** Moves the tail and its NUL down by one over the character before the cursor. */
    method DeleteBack()
      requires Valid()
      modifies buffer, `length, `cursor, `dirty
      ensures Valid() && State() == old(Rubout(State()))
      ensures old(cursor) > 0 ==>
        && buffer[..length] == old(buffer[..cursor - 1]) + old(buffer[cursor..length])
        && length == old(length) - 1 && cursor == old(cursor) - 1 && dirty
      ensures old(cursor) == 0 ==>
        buffer[..] == old(buffer[..]) && length == old(length) && cursor == 0 && dirty == old(dirty)
      ensures buffer[old(length)..] == old(buffer[length..])
    {
      hide Lines, NoNul, Closed;
      if cursor <= 0 {
        return;
      }
      ghost var b, n := buffer[..], length;
      assert b[..n] == buffer[..length] && b[n..] == buffer[length..];
      ErasedText(b, cursor, n);
      CloseGap();
      cursor := cursor - 1;
      length := length - 1;
      dirty := true;
      assert buffer[..length] == buffer[..][..length] && buffer[n..] == buffer[..][n..];
      assert buffer[length] == buffer[..][length];
    }

    /** A key with a character: saving and leaving first, then what it means in the mode. */
    method HandleCharacter(c: char, ctrl: bool) returns (quit: bool)
      requires Valid() && c != '\0'
      modifies this, buffer
      ensures Valid() && State() == old(Press(State(), Character(c, ctrl)))
      ensures quit == IsQuit(Character(c, ctrl), old(insertMode))
    {
      hide Lines, Line, Column, Up, Down, Insert, Rubout, NoNul;
      quit := false;
      if ctrl && (c == 's' || c == 'S') {
        fileSize := length;
        status := if dirty then "Saved" else "No changes";
        dirty := false;
        return;
      }
      if ctrl && (c == 'q' || c == 'Q') {
        fileSize := length;
        return true;
      }
      if !insertMode {
        if c == 'i' {
          insertMode := true;
          status := "Insert mode";
        } else if c == 'h' {
          MoveLeft();
        } else if c == 'l' {
          MoveRight();
        } else if c == 'k' {
          MoveUp();
        } else if c == 'j' {
          MoveDown();
        } else if c == 'q' {
          fileSize := length;
          return true;
        }
        return;
      }
      InsertChar(c);
    }

    /** One turn of the key loop. */
    method HandleKey(k: Key) returns (quit: bool)
      requires Valid()
      modifies this, buffer
      ensures Valid() && State() == old(Press(State(), k)) && quit == IsQuit(k, old(insertMode))
      ensures old(insertMode) && TypedBy(k).Some? && old(length) < MAX_FILE_CONTENT - 1 ==>
        var t, at := old(buffer[..length]), old(cursor);
        buffer[..length] == t[..at] + [TypedBy(k).value] + t[at..] && cursor == at + 1 && dirty
      ensures old(insertMode) && k.Backspace? && old(cursor) > 0 ==>
        var t, at := old(buffer[..length]), old(cursor);
        buffer[..length] == t[..at - 1] + t[at..] && cursor == at - 1 && dirty
      ensures !old(insertMode) || (TypedBy(k).None? && !k.Backspace?) ==> buffer[..length] == old(buffer[..length])
    {
      hide Lines, Line, Column, Insert, Rubout, Command, Save, NoNul;
      TextChanges(State(), k);
      quit := false;
      match k
      case Escape =>
        insertMode := false;
        status := "Normal mode";
      case Backspace =>
        if insertMode {
          DeleteBack();
        }
      case Enter =>
        if insertMode {
          InsertChar('\n');
        }
      case Character(c, ctrl) =>
        if c != '\0' {
          quit := HandleCharacter(c, ctrl);
        }
    }
  }
}
