/** Linear directory blocks: variable-length records that tile a block, the lookup walk
    and the insertion that splits the slack off the first roomy record
    (fs/ext4/ext4.c, ext4_find_in_dir and ext4_add_dir_entry). */
module DirBlock {
  import opened Bytes

  /** A record in use, as a lookup sees it. */
  datatype Entry = Entry(inode: nat, kind: byte, name: seq<byte>)

  const FT_REG_FILE: byte := 1
  const FT_DIR: byte := 2

  function RecInode(b: seq<byte>, off: nat): nat
    requires off + 8 <= |b|
  {
    U32(b, off)
  }

  function RecLen(b: seq<byte>, off: nat): nat
    requires off + 8 <= |b|
  {
    U16(b, off + 4)
  }

  function NameLen(b: seq<byte>, off: nat): byte
    requires off + 8 <= |b|
  {
    b[off + 6]
  }

  function RecKind(b: seq<byte>, off: nat): byte
    requires off + 8 <= |b|
  {
    b[off + 7]
  }

  /** `(v + 3) & ~3`. */
  function Align4(v: nat): (r: nat)
    ensures v <= r < v + 4 && r % 4 == 0
  {
    (v + 3) / 4 * 4
  }

  /** The space the record at `off` needs for itself, whatever its record length says. */
  function UsedAt(b: seq<byte>, off: nat): nat
    requires off + 8 <= |b|
  {
    Align4(8 + NameLen(b, off))
  }

  /** The record at `off` if it is in use. A name that would run past the block is never
      seen: such a record does not occur in a tiled block. */
  function RecEntry(b: seq<byte>, off: nat): seq<Entry>
    requires off + 8 <= |b|
  {
    var n := NameLen(b, off);
    if RecInode(b, off) != 0 && off + 8 + n <= |b|
    then [Entry(RecInode(b, off), RecKind(b, off), b[off + 8..off + 8 + n])]
    else []
  }

  /** The records in use that a walk from `off` visits, with the walk's own cutoff. */
  function Entries(b: seq<byte>, off: nat): seq<Entry>
    decreases |b| - off
  {
    if off + 8 >= |b| || RecLen(b, off) == 0 then []
    else RecEntry(b, off) + Entries(b, off + RecLen(b, off))
  }

  /** The first entry with the given name. */
  function FindEntry(es: seq<Entry>, name: seq<byte>): (r: Option<Entry>)
    ensures r.Some? ==> r.value in es && r.value.name == name
    ensures r.None? ==> forall e :: e in es ==> e.name != name
  {
    if es == [] then None
    else if es[0].name == name then Some(es[0])
    else FindEntry(es[1..], name)
  }

  /** The record at `off` is well formed and stays inside its block. */
  predicate RecOk(b: seq<byte>, off: nat) {
    && off + 8 <= |b|
    && 8 <= RecLen(b, off)
    && RecLen(b, off) % 4 == 0
    && off + RecLen(b, off) <= |b|
    && (RecInode(b, off) != 0 ==> 1 <= NameLen(b, off) && 8 + NameLen(b, off) <= RecLen(b, off))
  }

  /** The records from `off` tile the block exactly up to its end. */
  predicate Tiled(b: seq<byte>, off: nat)
    decreases |b| - off
  {
    off == |b| || (RecOk(b, off) && Tiled(b, off + RecLen(b, off)))
  }

  /** The first record with `need` bytes of slack behind what it uses itself. */
  function RoomAt(b: seq<byte>, off: nat, need: nat): Option<nat>
    decreases |b| - off
  {
    if off + 8 >= |b| || RecLen(b, off) == 0 then None
    else if RecLen(b, off) >= UsedAt(b, off) + need then Some(off)
    else RoomAt(b, off + RecLen(b, off), need)
  }

  /** A walk from `from` on comes to the record at `off`. */
  predicate Visits(b: seq<byte>, from: nat, off: nat)
    decreases |b| - from
  {
    from + 8 < |b| && RecLen(b, from) != 0 && (from == off || Visits(b, from + RecLen(b, from), off))
  }

  lemma {:induction false} VisitsFrom(b: seq<byte>, from: nat, off: nat)
    requires Visits(b, from, off)
    ensures from <= off && off + 8 < |b|
    decreases |b| - from
  {
    if from != off {
      VisitsFrom(b, from + RecLen(b, from), off);
    }
  }

  /** Of all records a walk comes to, used or not, the first one is chosen that can keep its name,
      rounded up to 4, and still give away `need` bytes. */
  lemma {:induction false} RoomExactly(b: seq<byte>, from: nat, need: nat)
    ensures forall off: nat :: Visits(b, from, off) ==> off + 8 < |b| && from <= off
    ensures RoomAt(b, from, need).None? ==>
      forall off: nat :: Visits(b, from, off) ==> RecLen(b, off) < Align4(8 + NameLen(b, off)) + need
    ensures RoomAt(b, from, need).Some? ==>
      var at := RoomAt(b, from, need).value;
      && Visits(b, from, at) && RecLen(b, at) >= Align4(8 + NameLen(b, at)) + need
      && forall off: nat :: Visits(b, from, off) && off < at ==> RecLen(b, off) < Align4(8 + NameLen(b, off)) + need
    decreases |b| - from
  {
    forall off: nat | Visits(b, from, off)
      ensures off + 8 < |b| && from <= off
    {
      VisitsFrom(b, from, off);
    }
    if from + 8 < |b| && RecLen(b, from) != 0 {
      RoomExactly(b, from + RecLen(b, from), need);
    }
  }

  /** The bytes of a new record; the name length is kept in one byte, as in the source. */
  function NewRecord(inode: nat, recLen: nat, kind: byte, name: seq<byte>): (r: seq<byte>)
    requires inode < 0x1_0000_0000 && recLen < 0x1_0000
    ensures |r| == 8 + |name|
  {
    LE32(inode) + LE16(recLen) + [|name| % 0x100, kind] + name
  }

  /** Splits the record at `at`: it keeps what it uses, the new record takes the rest. */
  function SplitAt(b: seq<byte>, at: nat, inode: nat, kind: byte, name: seq<byte>): (r: seq<byte>)
    requires at + 8 <= |b| && inode < 0x1_0000_0000
    requires RecLen(b, at) >= UsedAt(b, at) + Align4(8 + |name|)
    requires at + RecLen(b, at) <= |b|
    ensures |r| == |b|
  {
    var used := UsedAt(b, at);
    PutU16(Splice(b, at + used, NewRecord(inode, RecLen(b, at) - used, kind, name)), at + 4, used)
  }

  /** Two blocks that agree from `off` on hold the same records from `off` on. */
  lemma {:induction false} SameTail(b: seq<byte>, c: seq<byte>, off: nat)
    requires |b| == |c| && off <= |b| && b[off..] == c[off..]
    ensures Tiled(b, off) == Tiled(c, off)
    ensures Entries(b, off) == Entries(c, off)
    decreases |b| - off
  {
    hide U16, U32, RecEntry;
    if off + 8 <= |b| {
      SameHeader(b, c, off);
      var next := off + RecLen(b, off);
      if 0 < RecLen(b, off) && next <= |b| {
        assert b[next..] == b[off..][next - off..] && c[next..] == c[off..][next - off..];
        SameTail(b, c, next);
      }
    }
  }

  lemma SameHeader(b: seq<byte>, c: seq<byte>, off: nat)
    requires |b| == |c| && off + 8 <= |b| && b[off..] == c[off..]
    ensures RecLen(b, off) == RecLen(c, off) && RecInode(b, off) == RecInode(c, off)
    ensures NameLen(b, off) == NameLen(c, off) && RecKind(b, off) == RecKind(c, off)
    ensures RecEntry(b, off) == RecEntry(c, off)
  {
    assert forall i :: off <= i < |b| ==> b[i] == b[off..][i - off] && c[i] == c[off..][i - off];
    var n := NameLen(b, off);
    if off + 8 + n <= |b| {
      assert b[off + 8..off + 8 + n] == c[off + 8..off + 8 + n];
    }
  }

  /** `c` is `b` with the record at `at` cut to its used size and entry `e` in the slack. */
  ghost predicate IsSplit(b: seq<byte>, c: seq<byte>, at: nat, e: Entry) {
    && |c| == |b| && at + 8 < |b| && at + RecLen(b, at) <= |b|
    && UsedAt(b, at) + 12 <= RecLen(b, at)
    && c[..at] == b[..at]
    && c[at + RecLen(b, at)..] == b[at + RecLen(b, at)..]
    && RecLen(c, at) == UsedAt(b, at)
    && RecInode(c, at) == RecInode(b, at)
    && NameLen(c, at) == NameLen(b, at)
    && RecEntry(c, at) == RecEntry(b, at)
    && var mid := at + UsedAt(b, at);
       && RecLen(c, mid) == RecLen(b, at) - UsedAt(b, at)
       && NameLen(c, mid) == |e.name|
       && 8 + |e.name| <= RecLen(c, mid)
       && RecEntry(c, mid) == [e]
  }

  /** The old record keeps its own bytes, and so does everything outside it. */
  lemma SplitKeepsOld(b: seq<byte>, at: nat, inode: nat, kind: byte, name: seq<byte>)
    requires at + 8 <= |b| && inode < 0x1_0000_0000
    requires RecLen(b, at) >= UsedAt(b, at) + Align4(8 + |name|)
    requires at + RecLen(b, at) <= |b|
    ensures var c := SplitAt(b, at, inode, kind, name);
            && c[..at] == b[..at]
            && c[at + RecLen(b, at)..] == b[at + RecLen(b, at)..]
            && RecLen(c, at) == UsedAt(b, at)
            && RecInode(c, at) == RecInode(b, at)
            && NameLen(c, at) == NameLen(b, at)
            && RecEntry(c, at) == RecEntry(b, at)
  {
    hide NewRecord;
    var c := SplitAt(b, at, inode, kind, name);
    var used := UsedAt(b, at);
    var n := NameLen(b, at);
    assert forall i :: 0 <= i < at + used && i != at + 4 && i != at + 5 ==> c[i] == b[i];
    assert c[..at] == b[..at];
    assert c[at + RecLen(b, at)..] == b[at + RecLen(b, at)..];
    assert c[at + 8..at + 8 + n] == b[at + 8..at + 8 + n];
  }

  lemma NewRecordFields(inode: nat, recLen: nat, kind: byte, name: seq<byte>)
    requires inode < 0x1_0000_0000 && recLen < 0x1_0000
    ensures var rec := NewRecord(inode, recLen, kind, name);
            && U32(rec, 0) == inode && U16(rec, 4) == recLen
            && rec[6] == |name| % 0x100 && rec[7] == kind && rec[8..] == name
  {
    var rec := NewRecord(inode, recLen, kind, name);
    var id, ln := LE32(inode), LE16(recLen);
    assert rec[0] == id[0] && rec[1] == id[1] && rec[2] == id[2] && rec[3] == id[3];
    assert rec[4] == ln[0] && rec[5] == ln[1];
    assert rec[8..] == name;
  }

  /** The header fields of a record stored at `off` are those of its own bytes. */
  lemma RecordAt(c: seq<byte>, off: nat, rec: seq<byte>)
    requires 8 <= |rec| && off + |rec| <= |c| && c[off..off + |rec|] == rec
    ensures U32(c, off) == U32(rec, 0) && U16(c, off + 4) == U16(rec, 4)
    ensures c[off + 6] == rec[6] && c[off + 7] == rec[7] && c[off + 8..off + |rec|] == rec[8..]
  {
    assert forall i :: 0 <= i < |rec| ==> c[off + i] == rec[i];
    assert c[off] == rec[0] && c[off + 1] == rec[1] && c[off + 2] == rec[2] && c[off + 3] == rec[3];
    assert c[off + 4] == rec[4] && c[off + 5] == rec[5];
  }

  lemma SplitHoldsRecord(b: seq<byte>, at: nat, inode: nat, kind: byte, name: seq<byte>)
    requires at + 8 <= |b| && inode < 0x1_0000_0000
    requires RecLen(b, at) >= UsedAt(b, at) + Align4(8 + |name|)
    requires at + RecLen(b, at) <= |b|
    ensures var n := at + UsedAt(b, at);
            var rec := NewRecord(inode, RecLen(b, at) - UsedAt(b, at), kind, name);
            n + |rec| <= |b| && SplitAt(b, at, inode, kind, name)[n..n + |rec|] == rec
  {
    hide NewRecord, U16;
    var used := UsedAt(b, at);
    var n := at + used;
    var rec := NewRecord(inode, RecLen(b, at) - used, kind, name);
    var s := Splice(b, n, rec);
    assert s[n..n + |rec|] == rec;
    assert forall i :: n <= i < |b| ==> PutU16(s, at + 4, used)[i] == s[i];
  }

  /** What a lookup sees of a name that was entered: as much as its one-byte length says. */
  function EnteredName(name: seq<byte>): seq<byte> {
    name[..|name| % 256]
  }

  lemma SplitIsSplit(b: seq<byte>, at: nat, inode: nat, kind: byte, name: seq<byte>)
    requires at + 8 <= |b| && 0 < inode < 0x1_0000_0000 && 1 <= |name|
    requires RecLen(b, at) >= UsedAt(b, at) + Align4(8 + |name|)
    requires at + RecLen(b, at) <= |b|
    ensures IsSplit(b, SplitAt(b, at, inode, kind, name), at, Entry(inode, kind, EnteredName(name)))
  {
    hide U16, U32, SplitAt, NewRecord;
    var c := SplitAt(b, at, inode, kind, name);
    var used := UsedAt(b, at);
    var n := at + used;
    var rec := NewRecord(inode, RecLen(b, at) - used, kind, name);
    SplitHoldsRecord(b, at, inode, kind, name);
    NewRecordFields(inode, RecLen(b, at) - used, kind, name);
    RecordAt(c, n, rec);
    EnteredAt(c, n, name);
    SplitKeepsOld(b, at, inode, kind, name);
  }

  lemma EnteredAt(c: seq<byte>, n: nat, name: seq<byte>)
    requires n + 8 + |name| <= |c| && c[n + 8..n + 8 + |name|] == name
    ensures c[n + 8..n + 8 + |name| % 256] == EnteredName(name)
  {
    assert c[n + 8..n + 8 + |name| % 256] == c[n + 8..n + 8 + |name|][..|name| % 256];
  }

  /** Insertion refines insertion into the list of entries: the split keeps the tiling, keeps
      every old entry in order, and the new entry is visited by the walk. */
  lemma {:induction false} SplitInserts(
      b: seq<byte>, c: seq<byte>, off: nat, at: nat, need: nat, e: Entry) returns (p: nat)
    requires Tiled(b, off) && RoomAt(b, off, need) == Some(at)
    requires IsSplit(b, c, at, e) && 1 <= |e.name| <= 255
    ensures Tiled(c, off)
    ensures p <= |Entries(b, off)|
    ensures Entries(c, off) == Entries(b, off)[..p] + [e] + Entries(b, off)[p..]
    ensures off <= at
    decreases |b| - off
  {
    hide U16, U32, RecEntry, IsSplit, UsedAt;
    SplitPrefix(b, c, at, e);
    if off == at {
      p := |RecEntry(b, at)|;
      SplitTail(b, c, at, e);
    } else {
      var next := off + RecLen(b, off);
      var q := SplitInserts(b, c, next, at, need, e);
      SameRecord(b, c, off, at);
      p := |RecEntry(b, off)| + q;
      InsertBehind(RecEntry(b, off), Entries(b, next), q, e);
    }
  }

  /** A record with an inode but no name breaks the tiling of its block. */
  lemma {:induction false} SplitTears(b: seq<byte>, c: seq<byte>, off: nat, at: nat, need: nat, e: Entry)
    requires Tiled(b, off) && RoomAt(b, off, need) == Some(at) && IsSplit(b, c, at, e) && e.name == []
    ensures off <= at && !Tiled(c, off)
    decreases |b| - off
  {
    hide U16, U32, IsSplit, UsedAt;
    SplitPrefix(b, c, at, e);
    if off == at {
      NamelessTail(b, c, at, e);
    } else {
      var next := off + RecLen(b, off);
      SplitTears(b, c, next, at, need, e);
      SameRecord(b, c, off, at);
    }
  }

  lemma NamelessTail(b: seq<byte>, c: seq<byte>, at: nat, e: Entry)
    requires IsSplit(b, c, at, e) && e.name == []
    ensures !Tiled(c, at)
  {
    hide U16, U32;
    var mid := at + UsedAt(b, at);
    assert RecInode(c, mid) != 0 && NameLen(c, mid) == 0;
    assert !RecOk(c, mid) && !Tiled(c, mid);
  }

  lemma SplitPrefix(b: seq<byte>, c: seq<byte>, at: nat, e: Entry)
    requires IsSplit(b, c, at, e)
    ensures |c| == |b| && at + 8 < |b| && c[..at] == b[..at]
  {
  }

  lemma InsertBehind<T>(pre: seq<T>, es: seq<T>, q: nat, e: T)
    requires q <= |es|
    ensures pre + (es[..q] + [e] + es[q..]) == (pre + es)[..|pre| + q] + [e] + (pre + es)[|pre| + q..]
  {
  }

  lemma SplitTail(b: seq<byte>, c: seq<byte>, at: nat, e: Entry)
    requires IsSplit(b, c, at, e) && Tiled(b, at) && 1 <= |e.name| <= 255
    ensures Tiled(c, at)
    ensures Entries(c, at) == RecEntry(b, at) + [e] + Entries(b, at + RecLen(b, at))
  {
    hide U16, U32, RecEntry;
    var mid, end := at + UsedAt(b, at), at + RecLen(b, at);
    SameTail(b, c, end);
    assert RecOk(c, mid) && RecOk(c, at);
    assert Entries(c, mid) == [e] + Entries(c, end);
    assert Entries(c, at) == RecEntry(c, at) + Entries(c, mid);
  }

  lemma SameRecord(b: seq<byte>, c: seq<byte>, off: nat, at: nat)
    requires |b| == |c| && at <= |b| && RecOk(b, off) && off + RecLen(b, off) <= at && c[..at] == b[..at]
    ensures RecOk(c, off) && RecLen(c, off) == RecLen(b, off)
    ensures RecEntry(c, off) == RecEntry(b, off)
  {
    assert forall i :: 0 <= i < at ==> c[i] == c[..at][i] && b[i] == b[..at][i];
    var n := NameLen(b, off);
    if RecInode(b, off) != 0 {
      assert c[off + 8..off + 8 + n] == b[off + 8..off + 8 + n];
    }
  }

  /** Adding one entry anywhere changes no lookup of another name, and its own name resolves
      to it when no earlier entry had that name. */
  lemma {:induction false} FindAfterInsert(es: seq<Entry>, p: nat, e: Entry, name: seq<byte>)
    requires p <= |es|
    ensures name != e.name ==> FindEntry(es[..p] + [e] + es[p..], name) == FindEntry(es, name)
    ensures name == e.name && FindEntry(es, name).None? ==> FindEntry(es[..p] + [e] + es[p..], name) == Some(e)
  {
    var fs := es[..p] + [e] + es[p..];
    if p == 0 {
      assert fs[1..] == es;
    } else {
      assert fs[0] == es[0];
      assert fs[1..] == es[1..][..p - 1] + [e] + es[1..][p - 1..];
      FindAfterInsert(es[1..], p - 1, e, name);
    }
  }

  predicate UniqueNames(es: seq<Entry>) {
    forall i, j :: 0 <= i < j < |es| ==> es[i].name != es[j].name
  }

  lemma InsertKeepsUnique(es: seq<Entry>, p: nat, e: Entry)
    requires p <= |es| && UniqueNames(es) && FindEntry(es, e.name).None?
    ensures UniqueNames(es[..p] + [e] + es[p..])
  {
    hide UniqueNames;
    NotFoundAt(es, e.name);
    var fs := es[..p] + [e] + es[p..];
    assert forall i :: 0 <= i < p ==> fs[i] == es[i];
    assert forall i :: p < i < |fs| ==> fs[i] == es[i - 1];
    InsertedNames(es, fs, p, e);
  }

  lemma NotFoundAt(es: seq<Entry>, name: seq<byte>)
    requires FindEntry(es, name).None?
    ensures forall i :: 0 <= i < |es| ==> es[i].name != name
  {
    forall i | 0 <= i < |es|
      ensures es[i].name != name
    {
      assert es[i] in es;
    }
  }

  lemma InsertedNames(es: seq<Entry>, fs: seq<Entry>, p: nat, e: Entry)
    requires |fs| == |es| + 1 && p <= |es| && fs[p] == e
    requires forall i :: 0 <= i < p ==> fs[i] == es[i]
    requires forall i :: p < i < |fs| ==> fs[i] == es[i - 1]
    requires forall i :: 0 <= i < |es| ==> es[i].name != e.name
    requires UniqueNames(es)
    ensures UniqueNames(fs)
  {
  }

  lemma {:induction false} FindConcat(es: seq<Entry>, fs: seq<Entry>, name: seq<byte>)
    ensures FindEntry(es + fs, name)
         == if FindEntry(es, name).Some? then FindEntry(es, name) else FindEntry(fs, name)
  {
    if es == [] {
      assert es + fs == fs;
    } else {
      assert (es + fs)[1..] == es[1..] + fs;
      FindConcat(es[1..], fs, name);
    }
  }

  /** The record at `off` is in use and has this name, all of it inside the block. */
  predicate Names(b: seq<byte>, off: nat, name: seq<byte>) {
    && off + 8 + |name| <= |b| && U32(b, off) != 0 && b[off + 6] == |name|
    && b[off + 8..off + 8 + |name|] == name
  }

  /** A lookup finds the first record of the walk that is in use and has the name, of whatever type. */
  lemma {:induction false} FindsExactly(b: seq<byte>, from: nat, name: seq<byte>)
    ensures FindEntry(Entries(b, from), name).None? ==>
      forall off: nat :: Visits(b, from, off) ==> !Names(b, off, name)
    ensures FindEntry(Entries(b, from), name).Some? ==>
      exists off: nat :: Visits(b, from, off) && Names(b, off, name)
        && FindEntry(Entries(b, from), name) == Some(Entry(U32(b, off), b[off + 7], name))
        && forall o: nat :: Visits(b, from, o) && Names(b, o, name) ==> off <= o
    decreases |b| - from
  {
    hide U16, U32, RecEntry, FindEntry;
    if from + 8 < |b| && RecLen(b, from) != 0 {
      var next := from + RecLen(b, from);
      FindsExactly(b, next, name);
      forall o: nat | Visits(b, from, o)
        ensures from <= o && (o == from || Visits(b, next, o))
      {
        VisitsFrom(b, from, o);
      }
      if Names(b, from, name) {
        FoundHere(b, from, name);
        assert Visits(b, from, from);
      } else {
        NotFoundHere(b, from, name);
        if FindEntry(Entries(b, next), name).Some? {
          var off: nat :| Visits(b, next, off) && Names(b, off, name)
            && FindEntry(Entries(b, next), name) == Some(Entry(U32(b, off), b[off + 7], name))
            && forall o: nat :: Visits(b, next, o) && Names(b, o, name) ==> off <= o;
          assert Visits(b, from, off);
        }
      }
    } else {
      NothingFound(name);
    }
  }

  lemma NothingFound(name: seq<byte>)
    ensures FindEntry([], name) == None
  {
  }

  /** The lookup walk over one block buffer. */
  method FindInBlock(buf: array<byte>, name: seq<byte>) returns (r: Option<Entry>)
    ensures r == FindEntry(Entries(buf[..], 0), name)
  {
    hide RecEntry, FindEntry, U16, U32;
    ghost var b := buf[..];
    var off := 0;
    while off + 8 < buf.Length
      invariant FindEntry(Entries(b, 0), name) == FindEntry(Entries(b, off), name)
      decreases buf.Length - off
    {
      var recLen := LoadU16(buf, off + 4);
      if recLen == 0 {
        break;
      }
      var inode := LoadU32(buf, off);
      var nameLen := buf[off + 6];
      if inode != 0 && nameLen == |name| && off + 8 + nameLen <= buf.Length && buf[off + 8..off + 8 + nameLen] == name {
        FoundHere(b, off, name);
        return Some(Entry(inode, buf[off + 7], name));
      }
      NotFoundHere(b, off, name);
      off := off + recLen;
    }
    return None;
  }

  lemma FoundHere(b: seq<byte>, off: nat, name: seq<byte>)
    requires off + 8 < |b| && RecLen(b, off) != 0 && RecInode(b, off) != 0
    requires NameLen(b, off) == |name| && off + 8 + |name| <= |b| && b[off + 8..off + 8 + |name|] == name
    ensures FindEntry(Entries(b, off), name) == Some(Entry(RecInode(b, off), RecKind(b, off), name))
  {
    assert Entries(b, off)[0] == RecEntry(b, off)[0];
  }

  lemma NotFoundHere(b: seq<byte>, off: nat, name: seq<byte>)
    requires off + 8 < |b| && RecLen(b, off) != 0
    requires !(RecInode(b, off) != 0 && NameLen(b, off) == |name| && off + 8 + |name| <= |b|
               && b[off + 8..off + 8 + |name|] == name)
    ensures FindEntry(Entries(b, off), name) == FindEntry(Entries(b, off + RecLen(b, off)), name)
  {
    FindConcat(RecEntry(b, off), Entries(b, off + RecLen(b, off)), name);
  }

  /** The split is two stores: the new record, then the shortened length of the old one. */
  lemma SplitStores(b: seq<byte>, at: nat, inode: nat, kind: byte, name: seq<byte>)
    requires at + 8 <= |b| && inode < 0x1_0000_0000
    requires RecLen(b, at) >= UsedAt(b, at) + Align4(8 + |name|)
    requires at + RecLen(b, at) <= |b|
    ensures SplitAt(b, at, inode, kind, name)
         == Splice(Splice(b, at + UsedAt(b, at), NewRecord(inode, RecLen(b, at) - UsedAt(b, at), kind, name)),
                   at + 4, LE16(UsedAt(b, at)))
  {
    hide U16;
  }

  /** `c` is `b` after the walk found room and split that record. */
  ghost predicate IsSplitOf(b: seq<byte>, c: seq<byte>, inode: nat, kind: byte, name: seq<byte>) {
    var room := RoomAt(b, 0, Align4(8 + |name|));
    && inode < 0x1_0000_0000 && room.Some?
    && room.value + 8 <= |b| && room.value + RecLen(b, room.value) <= |b|
    && RecLen(b, room.value) >= UsedAt(b, room.value) + Align4(8 + |name|)
    && c == SplitAt(b, room.value, inode, kind, name)
  }

  /** The insertion walk over one block buffer: splits the first record with room, if any. */
  method SplitInBlock(buf: array<byte>, name: seq<byte>, kind: byte, inode: nat) returns (done: bool)
    requires inode < 0x1_0000_0000 && Tiled(buf[..], 0)
    modifies buf
    ensures done == RoomAt(old(buf[..]), 0, Align4(8 + |name|)).Some?
    ensures done ==> IsSplitOf(old(buf[..]), buf[..], inode, kind, name)
    ensures !done ==> buf[..] == old(buf[..])
  {
    hide Entries, NewRecord, Splice, SplitAt, PutU16, LE16, U16;
    ghost var b := buf[..];
    var need := Align4(8 + |name|);
    var off := 0;
    while off + 8 < buf.Length
      invariant buf[..] == b
      invariant off <= buf.Length && Tiled(b, off)
      invariant RoomAt(b, 0, need) == RoomAt(b, off, need)
      decreases buf.Length - off
    {
      var recLen := LoadU16(buf, off + 4);
      if recLen == 0 {
        break;
      }
      var used := Align4(8 + buf[off + 6] as nat);
      if recLen >= used + need {
        StoreAt(buf, off + used, NewRecord(inode, recLen - used, kind, name));
        StoreAt(buf, off + 4, LE16(used));
        SplitStores(b, off, inode, kind, name);
        return true;
      }
      off := off + recLen;
    }
    return false;
  }
}
