/** The names of the image: what inserting a directory entry does to every lookup, and what
    that means for whole paths (fs/ext4/ext4.c, ext4_resolve_path and ext4_add_dir_entry). */
module Names {
  import opened Bytes
  import opened Bitmap
  import opened Storage
  import opened Volume
  import opened Extents
  import opened DirBlock
  import opened Image

  /** Both images are usable for lookups. */
  ghost predicate Readable(s: Image) {
    s.Shaped() && s.InodesOk()
  }

  /** Directories stay directories with the same lookups, except possibly for `name` in `dir`. */
  ghost predicate LookupsKept(s: Image, t: Image, dir: nat, name: seq<byte>) {
    && Readable(s) && Readable(t) && s.v == t.v && s.live <= t.live
    && (forall n :: n in s.live ==> IsDir(t.Ino(n)) == IsDir(s.Ino(n)))
    && forall n, x :: n in s.live && IsDir(s.Ino(n)) && (n != dir || x != name) ==> t.Lookup(n, x) == s.Lookup(n, x)
  }

  /** Every regular file but `target` has the same record and bytes. */
  ghost predicate FilesKept(s: Image, t: Image, target: nat) {
    && Readable(s) && Readable(t) && s.v == t.v && s.live <= t.live
    && forall n :: n in s.live && n != target && !IsDir(s.Ino(n)) ==> SameView(s, t, n)
  }

  /** A framed step on a regular file or on no live inode changes no name. */
  lemma FramedKeepsNames(s: Image, t: Image, target: nat, dir: nat, name: seq<byte>)
    requires s.Valid() && t.Valid() && Framed(s, t, target)
    requires target in s.live ==> !IsDir(s.Ino(target)) && !IsDir(t.Ino(target))
    ensures LookupsKept(s, t, dir, name) && FilesKept(s, t, target)
    ensures s.NamesUnique() <==> t.NamesUnique()
  {
    forall n | n in s.live
      ensures IsDir(t.Ino(n)) == IsDir(s.Ino(n))
    {
      if n != target {
        assert SameView(s, t, n);
      }
    }
    forall n | n in s.live && IsDir(s.Ino(n))
      ensures DirEntries(t.d, t.Blocks(n)) == DirEntries(s.d, s.Blocks(n))
      ensures forall x :: t.Lookup(n, x) == s.Lookup(n, x)
    {
      assert SameView(s, t, n) && s.InodeOk(n) && t.InodeOk(n);
      SameViewDir(s, t, n);
    }
  }

  lemma LookupsTrans(s: Image, t: Image, u: Image, dir: nat, name: seq<byte>)
    requires LookupsKept(s, t, dir, name) && LookupsKept(t, u, dir, name)
    ensures LookupsKept(s, u, dir, name)
  {
  }

  /** No live inode has number 0. */
  lemma FilesKeptBut(s: Image, t: Image, target: nat)
    requires FilesKept(s, t, 0)
    ensures FilesKept(s, t, target)
  {
  }

  lemma FilesTrans(s: Image, t: Image, u: Image, target: nat)
    requires FilesKept(s, t, target) && FilesKept(t, u, target)
    requires forall n :: n in s.live ==> IsDir(t.Ino(n)) == IsDir(s.Ino(n))
    ensures FilesKept(s, u, target)
  {
    forall n | n in s.live && n != target && !IsDir(s.Ino(n))
      ensures SameView(s, u, n)
    {
      assert SameView(s, t, n) && SameView(t, u, n) && s.InodeOk(n);
      assert t.Blocks(n) == s.Blocks(n);
    }
  }

  /** Inserting into the entries of one block inserts into the entries of the directory. */
  lemma {:induction false} DirEntriesInsert(d: Disk, blocks: seq<nat>, k: nat, c: seq<byte>, q: nat, e: Entry)
    returns (p: nat)
    requires OnDisk(d, blocks) && Distinct(blocks) && k < |blocks|
    requires q <= |Entries(d[blocks[k]], 0)|
    requires Entries(c, 0) == Entries(d[blocks[k]], 0)[..q] + [e] + Entries(d[blocks[k]], 0)[q..]
    ensures OnDisk(d[blocks[k] := c], blocks)
    ensures p <= |DirEntries(d, blocks)|
    ensures DirEntries(d[blocks[k] := c], blocks) == DirEntries(d, blocks)[..p] + [e] + DirEntries(d, blocks)[p..]
  {
    hide Entries, DirEntries;
    var n := |blocks| - 1;
    var front, last := DirEntries(d, blocks[..n]), Entries(d[blocks[n]], 0);
    var t := d[blocks[k] := c];
    DirEntriesLast(d, blocks);
    DirEntriesLast(t, blocks);
    if k == n {
      DirEntriesFrame(d, t, blocks[..n]);
      p := |front| + q;
      InsertBehind(front, last, q, e);
    } else {
      p := DirEntriesInsert(d, blocks[..n], k, c, q, e);
      assert blocks[k] != blocks[n];
      InsertAhead(front, last, p, e);
    }
  }

  lemma DirEntriesLast(d: Disk, blocks: seq<nat>)
    requires OnDisk(d, blocks) && blocks != []
    ensures DirEntries(d, blocks) == DirEntries(d, blocks[..|blocks| - 1]) + Entries(d[blocks[|blocks| - 1]], 0)
  {
  }

  lemma InsertAhead<T>(es: seq<T>, post: seq<T>, p: nat, e: T)
    requires p <= |es|
    ensures (es[..p] + [e] + es[p..]) + post == (es + post)[..p] + [e] + (es + post)[p..]
  {
  }

  /** Inode `n` has a slot and a set bit, owns nothing and is not live yet. */
  ghost predicate Claimed(s: Image, n: nat)
    requires s.Shaped()
  {
    && InodeNum(s.v, n) && n !in s.live
    && (n <= s.v.g.inodesPerGroup ==> Bit(s.InodeBits(), n - 1))
    && ExtentsFit(s.Ino(n)) && s.Blocks(n) == [] && !IsDir(s.Ino(n))
  }

  /** Making a claimed inode live. */
  lemma AdoptInode(s: Image, n: nat)
    requires s.Valid() && Claimed(s, n)
    ensures s.(live := s.live + {n}).Valid()
    ensures s.NamesUnique() ==> s.(live := s.live + {n}).NamesUnique()
  {
    var t := s.(live := s.live + {n});
    assert t.Shaped();
    forall k | 0 <= k < |t.v.groups|
      ensures DescRecords(t.v, t.d, k)
    {
      assert DescRecords(s.v, s.d, k);
    }
    AdoptedInodes(s, t, n);
    AdoptedDisjoint(s, t, n);
    AdoptedBits(s, t, n);
    AdoptedDirs(s, t, n);
  }

  lemma AdoptedInodes(s: Image, t: Image, n: nat)
    requires s.Shaped() && s.InodesOk() && Claimed(s, n) && t.v == s.v && t.d == s.d && t.live == s.live + {n}
    requires t.Shaped()
    ensures t.InodesOk()
  {
    hide Bit, RegionsApart, RegionsOnDisk;
    forall m | m in t.live
      ensures t.InodeOk(m)
    {
      if m in s.live {
        assert s.InodeOk(m);
      }
      assert t.Blocks(m) == s.Blocks(m);
    }
  }

  lemma AdoptedDisjoint(s: Image, t: Image, n: nat)
    requires s.Shaped() && s.Disjoint() && Claimed(s, n) && t.v == s.v && t.d == s.d && t.live == s.live + {n}
    requires t.Shaped()
    ensures t.Disjoint()
  {
    hide Bit, RegionsApart, RegionsOnDisk;
    forall l, m, i, j | l in t.live && m in t.live && 0 <= i < |t.Blocks(l)| && 0 <= j < |t.Blocks(m)|
      && t.Blocks(l)[i] == t.Blocks(m)[j]
      ensures l == m && i == j
    {
      assert s.Blocks(l) == t.Blocks(l) && s.Blocks(m) == t.Blocks(m);
      assert l in s.live && m in s.live;
    }
  }

  lemma AdoptedBits(s: Image, t: Image, n: nat)
    requires s.Shaped() && s.BitsOk() && Claimed(s, n) && t.v == s.v && t.d == s.d && t.live == s.live + {n}
    requires t.Shaped()
    ensures t.BitsOk()
  {
    assert t.BlockBits() == s.BlockBits() && t.InodeBits() == s.InodeBits();
    forall r | Within(t.v, r)
      ensures t.Marked(At(t.v, r))
    {
      MarkedSame(s, t, At(s.v, r));
    }
    forall m, k | m in t.live && 0 <= k < |t.Blocks(m)|
      ensures t.Marked(t.Blocks(m)[k])
    {
      assert t.Blocks(m) == s.Blocks(m) && m in s.live;
      MarkedSame(s, t, s.Blocks(m)[k]);
    }
  }

  lemma AdoptedDirs(s: Image, t: Image, n: nat)
    requires s.Shaped() && s.InodesOk() && s.DirsOk() && Claimed(s, n)
    requires t.v == s.v && t.d == s.d && t.live == s.live + {n} && t.Shaped() && t.InodesOk()
    ensures t.DirsOk()
    ensures s.NamesUnique() ==> t.NamesUnique()
  {
    hide Bit, RegionsApart, RegionsOnDisk;
    assert forall m :: InodeNum(s.v, m) ==> t.Ino(m) == s.Ino(m) && t.Blocks(m) == s.Blocks(m);
    forall m | m in t.live && IsDir(t.Ino(m))
      ensures t.DirOk(m)
    {
      assert m in s.live && s.InodeOk(m) && s.DirOk(m);
      forall e | e in DirEntries(t.d, t.Blocks(m))
        ensures t.EntryOk(e)
      {
        assert s.EntryOk(e);
      }
    }
  }

  /** Block `b` of directory `dir`, its `k`-th, gains entry `e` by the split at `at`. */
  ghost predicate EntryAdded(s: Image, t: Image, dir: nat, k: nat, at: nat, need: nat, e: Entry) {
    && s.Valid() && dir in s.live && IsDir(s.Ino(dir)) && k < |s.Blocks(dir)| && s.Blocks(dir)[k] < |s.d|
    && SplitBlock(s, t, s.Blocks(dir)[k], at, need, e)
    && 1 <= |e.name| <= 255 && s.EntryOk(e)
  }

  ghost predicate SplitBlock(s: Image, t: Image, b: nat, at: nat, need: nat, e: Entry)
    requires b < |s.d|
  {
    && |t.d| == |s.d| && t == s.(d := s.d[b := t.d[b]])
    && RoomAt(s.d[b], 0, need) == Some(at)
    && IsSplit(s.d[b], t.d[b], at, e)
  }

  lemma OwnedOnce(s: Image, n: nat, k: nat)
    requires s.Shaped() && s.Disjoint() && n in s.live && k < |s.Blocks(n)|
    ensures forall m :: m in s.live && m != n ==> s.Blocks(n)[k] !in s.Blocks(m)
  {
  }

  /** Only the directory is seen differently, and its record is the same. */
  lemma AddedViews(s: Image, t: Image, dir: nat, k: nat, at: nat, need: nat, e: Entry)
    requires EntryAdded(s, t, dir, k, at, need, e)
    ensures Framed(s, t, dir)
    ensures forall n :: InodeNum(s.v, n) ==> t.Ino(n) == s.Ino(n)
    ensures t.BlockBits() == s.BlockBits() && t.InodeBits() == s.InodeBits()
  {
    hide RoomAt, Image.Disjoint, Image.BitsOk, Image.DirsOk, Image.DescsOk, Framed, RegionsApart, Entries, Tiled;
    assert |t.d[s.Blocks(dir)[k]]| == |s.d[s.Blocks(dir)[k]]|;
    OneBlockViews(s, t, dir, k);
  }

  /** Rewriting one block of an inode changes the view of that inode at most. */
  lemma OneBlockViews(s: Image, t: Image, n: nat, k: nat)
    requires s.Sound() && n in s.live && k < |s.Blocks(n)| && s.Blocks(n)[k] < |s.d| == |t.d|
    requires t == s.(d := s.d[s.Blocks(n)[k] := t.d[s.Blocks(n)[k]]])
    requires |t.d[s.Blocks(n)[k]]| == s.v.g.blockSize
    ensures Framed(s, t, n)
    ensures forall m :: InodeNum(s.v, m) ==> t.Ino(m) == s.Ino(m)
    ensures t.BlockBits() == s.BlockBits() && t.InodeBits() == s.InodeBits()
  {
    hide Image.BitsOk, Image.DescsOk, Framed, RegionsApart, InodeBlocks, ExtentsFit;
    var b := s.Blocks(n)[k];
    assert s.InodeOk(n) && DataBlock(s.v, b);
    OwnedOnce(s, n, k);
    assert forall x :: 0 <= x < |s.d| && t.d[x] != s.d[x] ==> x == b;
    DataWrites(s, t, n);
  }

  /** With all records and bitmaps the same, so is everything derived from them. */
  lemma SameRecords(s: Image, t: Image)
    requires s.Sound() && t.Shaped() && t.v == s.v && t.live == s.live && |t.d| == |s.d|
    requires forall n :: InodeNum(s.v, n) ==> t.Ino(n) == s.Ino(n)
    requires t.BlockBits() == s.BlockBits() && t.InodeBits() == s.InodeBits()
    ensures t.InodesOk() && t.Disjoint() && t.BitsOk()
  {
    assert forall n :: InodeNum(s.v, n) ==> t.Blocks(n) == s.Blocks(n);
    SameRecordsInodes(s, t);
    SameRecordsDisjoint(s, t);
    SameRecordsBits(s, t);
  }

  lemma SameRecordsInodes(s: Image, t: Image)
    requires s.Shaped() && s.InodesOk() && t.Shaped() && t.v == s.v && t.live == s.live && |t.d| == |s.d|
    requires forall n :: InodeNum(s.v, n) ==> t.Ino(n) == s.Ino(n) && t.Blocks(n) == s.Blocks(n)
    ensures t.InodesOk()
  {
    forall n | n in t.live
      ensures t.InodeOk(n)
    {
      assert s.InodeOk(n);
    }
  }

  lemma SameRecordsDisjoint(s: Image, t: Image)
    requires s.Shaped() && s.Disjoint() && t.Shaped() && t.v == s.v && t.live == s.live
    requires forall n :: InodeNum(s.v, n) ==> t.Blocks(n) == s.Blocks(n)
    ensures t.Disjoint()
  {
  }

  lemma SameRecordsBits(s: Image, t: Image)
    requires s.Shaped() && s.BitsOk() && t.Shaped() && t.v == s.v && t.live == s.live && |t.d| == |s.d|
    requires forall n :: InodeNum(s.v, n) ==> t.Blocks(n) == s.Blocks(n)
    requires t.BlockBits() == s.BlockBits() && t.InodeBits() == s.InodeBits()
    ensures t.BitsOk()
  {
    forall r | Within(t.v, r)
      ensures t.Marked(At(t.v, r))
    {
      MarkedSame(s, t, At(s.v, r));
    }
    forall m, k | m in t.live && 0 <= k < |t.Blocks(m)|
      ensures t.Marked(t.Blocks(m)[k])
    {
      MarkedSame(s, t, s.Blocks(m)[k]);
    }
  }

  lemma MarkedSame(s: Image, t: Image, b: nat)
    requires s.v == t.v && DiskOk(s.v, s.d) && DiskOk(t.v, t.d) && t.BlockBits() == s.BlockBits()
    ensures t.Marked(b) == s.Marked(b)
  {
  }

  /** The directory after the insertion: its blocks are still tiled, and its entries are the
      old ones with the new one in between. */
  lemma AddedEntries(d: Disk, blocks: seq<nat>, k: nat, c: seq<byte>, at: nat, need: nat, e: Entry) returns (p: nat)
    requires OnDisk(d, blocks) && Distinct(blocks) && k < |blocks|
    requires forall j :: 0 <= j < |blocks| ==> Tiled(d[blocks[j]], 0)
    requires RoomAt(d[blocks[k]], 0, need) == Some(at) && IsSplit(d[blocks[k]], c, at, e) && 1 <= |e.name| <= 255
    ensures OnDisk(d[blocks[k] := c], blocks)
    ensures p <= |DirEntries(d, blocks)|
    ensures DirEntries(d[blocks[k] := c], blocks) == DirEntries(d, blocks)[..p] + [e] + DirEntries(d, blocks)[p..]
    ensures forall j :: 0 <= j < |blocks| ==> Tiled(d[blocks[k] := c][blocks[j]], 0)
  {
    hide IsSplit, RoomAt, Tiled, Entries;
    var q := SplitInserts(d[blocks[k]], c, 0, at, need, e);
    p := DirEntriesInsert(d, blocks, k, c, q, e);
  }

  lemma LiveBlocksDistinct(s: Image, n: nat)
    requires s.Shaped() && s.Disjoint() && n in s.live
    ensures Distinct(s.Blocks(n))
  {
  }

  /** Adding an entry keeps the image valid and changes no lookup but that of the new name,
      which now finds the entry if it found nothing before. */
  lemma EntryAddedKeeps(s: Image, t: Image, dir: nat, k: nat, at: nat, need: nat, e: Entry)
    requires EntryAdded(s, t, dir, k, at, need, e)
    ensures t.Valid() && LookupsKept(s, t, dir, e.name) && FilesKept(s, t, 0)
    ensures s.Lookup(dir, e.name).None? ==> t.Lookup(dir, e.name) == Some(e)
    ensures s.NamesUnique() && s.Lookup(dir, e.name).None? ==> t.NamesUnique()
    ensures s.Lookup(dir, e.name).Some? ==> !t.NamesUnique()
    ensures forall n :: InodeNum(s.v, n) ==> t.Ino(n) == s.Ino(n)
    ensures t.BlockBits() == s.BlockBits() && t.InodeBits() == s.InodeBits()
  {
    hide Image.Disjoint, Image.BitsOk, Image.DescsOk, Bit, RegionsApart, LookupsKept, FilesKept, Tiled, SameView,
      UniqueNames;
    AddedViews(s, t, dir, k, at, need, e);
    SameRecords(s, t);
    assert s.InodeOk(dir) && s.DirOk(dir);
    LiveBlocksDistinct(s, dir);
    var p := AddedEntries(s.d, s.Blocks(dir), k, t.d[s.Blocks(dir)[k]], at, need, e);
    AddedDirs(s, t, dir, p, e);
    AddedLookups(s, t, dir, p, e);
    if s.NamesUnique() && s.Lookup(dir, e.name).None? {
      AddedUnique(s, t, dir, p, e);
    }
    if s.Lookup(dir, e.name).Some? {
      AddedTwice(s, t, dir, p, e);
    }
  }

  /** What the steps above establish about the image after an insertion. */
  ghost predicate DirGrew(s: Image, t: Image, dir: nat, p: nat, e: Entry) {
    && Readable(s) && Readable(t) && s.DirsOk() && Framed(s, t, dir)
    && dir in s.live && IsDir(s.Ino(dir)) && s.EntryOk(e)
    && (forall n :: InodeNum(s.v, n) ==> t.Ino(n) == s.Ino(n))
    && OnDisk(t.d, s.Blocks(dir)) && OnDisk(s.d, s.Blocks(dir)) && p <= |DirEntries(s.d, s.Blocks(dir))|
    && DirEntries(t.d, s.Blocks(dir))
       == DirEntries(s.d, s.Blocks(dir))[..p] + [e] + DirEntries(s.d, s.Blocks(dir))[p..]
    && forall j :: 0 <= j < |s.Blocks(dir)| ==> Tiled(t.d[s.Blocks(dir)[j]], 0)
  }

  lemma AddedDirs(s: Image, t: Image, dir: nat, p: nat, e: Entry)
    requires DirGrew(s, t, dir, p, e)
    ensures t.DirsOk()
  {
    forall n | n in t.live && IsDir(t.Ino(n))
      ensures t.DirOk(n)
    {
      assert s.InodeOk(n) && t.InodeOk(n) && s.DirOk(n);
      if n == dir {
        GrownDirOk(s, t, dir, p, e);
      } else {
        DirStaysOk(s, t, n);
      }
    }
  }

  lemma DirStaysOk(s: Image, t: Image, n: nat)
    requires Readable(s) && Readable(t) && s.v == t.v && s.live == t.live && n in s.live
    requires s.InodeOk(n) && t.InodeOk(n) && s.DirOk(n) && SameView(s, t, n)
    requires forall n :: InodeNum(s.v, n) ==> t.Ino(n) == s.Ino(n)
    ensures t.DirOk(n)
  {
    SameViewDir(s, t, n);
    forall x | x in DirEntries(t.d, t.Blocks(n))
      ensures t.EntryOk(x)
    {
      EntryStaysOk(s, t, x);
    }
  }

  lemma GrownDirOk(s: Image, t: Image, dir: nat, p: nat, e: Entry)
    requires DirGrew(s, t, dir, p, e) && s.InodeOk(dir) && t.InodeOk(dir) && s.DirOk(dir)
    ensures t.DirOk(dir)
  {
    hide Tiled, DirEntries, SameView;
    assert t.Blocks(dir) == s.Blocks(dir);
    GrownEntriesOk(s, t, DirEntries(s.d, s.Blocks(dir)), p, e);
  }

  lemma GrownEntriesOk(s: Image, t: Image, es: seq<Entry>, p: nat, e: Entry)
    requires DiskOk(s.v, s.d) && t.v == s.v && t.live == s.live && DiskOk(t.v, t.d)
    requires forall n :: InodeNum(s.v, n) ==> t.Ino(n) == s.Ino(n)
    requires p <= |es| && s.EntryOk(e) && forall x :: x in es ==> s.EntryOk(x)
    ensures forall x :: x in es[..p] + [e] + es[p..] ==> t.EntryOk(x)
  {
    forall x | x in es[..p] + [e] + es[p..]
      ensures t.EntryOk(x)
    {
      assert x == e || x in es;
      EntryStaysOk(s, t, x);
    }
  }

  lemma EntryStaysOk(s: Image, t: Image, x: Entry)
    requires DiskOk(s.v, s.d) && s.EntryOk(x) && t.v == s.v && t.live == s.live && DiskOk(t.v, t.d)
    requires forall n :: InodeNum(s.v, n) ==> t.Ino(n) == s.Ino(n)
    ensures t.EntryOk(x)
  {
  }

  lemma AddedLookups(s: Image, t: Image, dir: nat, p: nat, e: Entry)
    requires DirGrew(s, t, dir, p, e) && t.DirsOk()
    ensures LookupsKept(s, t, dir, e.name) && FilesKept(s, t, 0)
    ensures s.Lookup(dir, e.name).None? ==> t.Lookup(dir, e.name) == Some(e)
  {
    hide Tiled, DirEntries;
    forall n, x | n in s.live && IsDir(s.Ino(n)) && n != dir
      ensures t.Lookup(n, x) == s.Lookup(n, x)
    {
      assert s.InodeOk(n) && t.InodeOk(n);
      SameViewDir(s, t, n);
    }
    assert t.Blocks(dir) == s.Blocks(dir) && s.DirOk(dir);
    forall x
      ensures x != e.name ==> t.Lookup(dir, x) == s.Lookup(dir, x)
      ensures x == e.name && s.Lookup(dir, x).None? ==> t.Lookup(dir, x) == Some(e)
    {
      FindAfterInsert(DirEntries(s.d, s.Blocks(dir)), p, e, x);
    }
  }

  lemma AddedUnique(s: Image, t: Image, dir: nat, p: nat, e: Entry)
    requires DirGrew(s, t, dir, p, e) && t.DirsOk()
    requires s.NamesUnique() && s.Lookup(dir, e.name).None?
    ensures t.NamesUnique()
  {
    hide Tiled, DirEntries, UniqueNames;
    forall n | n in t.live && IsDir(t.Ino(n))
      ensures UniqueNames(DirEntries(t.d, t.Blocks(n)))
    {
      assert s.InodeOk(n) && t.InodeOk(n) && s.DirOk(n) && t.Blocks(n) == s.Blocks(n);
      if n == dir {
        InsertKeepsUnique(DirEntries(s.d, s.Blocks(dir)), p, e);
      } else {
        SameViewDir(s, t, n);
      }
    }
  }

  /** A second entry for a name that is there already. */
  lemma AddedTwice(s: Image, t: Image, dir: nat, p: nat, e: Entry)
    requires DirGrew(s, t, dir, p, e) && t.DirsOk() && s.Lookup(dir, e.name).Some?
    ensures !t.NamesUnique()
  {
    hide Tiled, DirEntries, UniqueNames;
    assert t.Blocks(dir) == s.Blocks(dir) && s.DirOk(dir);
    InsertedTwice(DirEntries(s.d, s.Blocks(dir)), p, e);
    assert dir in t.live && IsDir(t.Ino(dir));
  }

  lemma InsertedTwice(es: seq<Entry>, p: nat, e: Entry)
    requires p <= |es| && FindEntry(es, e.name).Some?
    ensures !UniqueNames(es[..p] + [e] + es[p..])
  {
    var i :| 0 <= i < |es| && es[i] == FindEntry(es, e.name).value;
    hide FindEntry;
    InsertedAt(es, p, e, i);
  }

  lemma InsertedAt(es: seq<Entry>, p: nat, e: Entry, i: nat)
    requires p <= |es| && i < |es|
    ensures var fs := es[..p] + [e] + es[p..];
      |fs| == |es| + 1 && fs[p] == e && fs[if i < p then i else i + 1] == es[i]
  {
  }

  /** Adoption changes no lookup and no file. */
  lemma AdoptKeepsNames(s: Image, n: nat, dir: nat, name: seq<byte>)
    requires s.Valid() && Claimed(s, n)
    ensures s.(live := s.live + {n}).Valid()
    ensures LookupsKept(s, s.(live := s.live + {n}), dir, name) && FilesKept(s, s.(live := s.live + {n}), n)
    ensures s.NamesUnique() ==> s.(live := s.live + {n}).NamesUnique()
  {
    hide Image.Disjoint, Image.BitsOk, Image.DirsOk, Image.DescsOk, Claimed, LookupsKept, FilesKept;
    AdoptInode(s, n);
    SameDiskSameNames(s, s.(live := s.live + {n}), n, dir, name);
  }

  lemma SameDiskSameNames(s: Image, t: Image, target: nat, dir: nat, name: seq<byte>)
    requires Readable(s) && Readable(t) && t.v == s.v && t.d == s.d && s.live <= t.live
    ensures LookupsKept(s, t, dir, name) && FilesKept(s, t, target)
  {
    assert forall m :: InodeNum(s.v, m) ==> t.Ino(m) == s.Ino(m);
    forall m, x | m in s.live
      ensures t.Lookup(m, x) == s.Lookup(m, x)
    {
      assert s.InodeOk(m) && t.InodeOk(m);
    }
  }

  /** Some block of directory `dir` has room for a name of length `len`. */
  ghost predicate HasRoom(s: Image, dir: nat, len: nat)
    requires s.Shaped() && InodeNum(s.v, dir)
  {
    exists k :: 0 <= k < |s.Blocks(dir)| && RoomIn(s, s.Blocks(dir)[k], len)
  }

  predicate RoomIn(s: Image, b: nat, len: nat) {
    b < |s.d| && RoomAt(s.d[b], 0, Align4(8 + len)).Some?
  }

  /** What adding the name `name` for the claimed inode `n` to directory `dir` does. */
  ghost predicate NameAdded(s: Image, t: Image, dir: nat, e: Entry) {
    && t.Valid() && LookupsKept(s, t, dir, e.name) && FilesKept(s, t, e.inode)
    && dir in s.live
    && (s.Lookup(dir, e.name).None? ==> t.Lookup(dir, e.name) == Some(e))
    && (s.NamesUnique() && s.Lookup(dir, e.name).None? ==> t.NamesUnique())
    && (s.Lookup(dir, e.name).Some? ==> !t.NamesUnique())
  }

  /** `t` is `s` with inode `n` live and block `b` replaced. */
  ghost predicate Stored(s: Image, t: Image, b: nat, n: nat) {
    b < |t.d| == |s.d| && |t.d[b]| == s.v.g.blockSize && t == s.(d := s.d[b := t.d[b]], live := s.live + {n})
  }

  /** Rewriting a block of directory `dir` and adopting inode `n` keeps allocation safety,
      whatever bytes the block gets. */
  lemma StoredIsSound(s: Image, t: Image, dir: nat, k: nat, n: nat)
    requires s.Valid() && dir in s.live && k < |s.Blocks(dir)| && Claimed(s, n) && Stored(s, t, s.Blocks(dir)[k], n)
    ensures t.Sound() && DataBlock(s.v, s.Blocks(dir)[k])
    ensures forall m :: InodeNum(s.v, m) ==> t.Ino(m) == s.Ino(m)
    ensures t.BlockBits() == s.BlockBits() && t.InodeBits() == s.InodeBits()
  {
    hide Image.Disjoint, Image.BitsOk, Image.DirsOk, Image.DescsOk, Framed, SameView, RegionsApart;
    AdoptInode(s, n);
    var u := s.(live := s.live + {n});
    assert u.Blocks(dir) == s.Blocks(dir) && u.InodeOk(dir);
    OwnedOnce(u, dir, k);
    assert forall b :: 0 <= b < |u.d| && t.d[b] != u.d[b] ==> b == s.Blocks(dir)[k];
    DataWrites(u, t, dir);
    FramedShaped(u, t, dir);
    SameRecords(u, t);
  }

  lemma FramedShaped(s: Image, t: Image, target: nat)
    requires Framed(s, t, target)
    ensures t.Shaped() && t.DescsOk()
  {
  }

  lemma AdoptedFacts(s: Image, u: Image, dir: nat, e: Entry)
    requires s.Shaped() && Claimed(s, e.inode) && u == s.(live := s.live + {e.inode}) && u.Shaped()
    requires s.InodesOk() && u.InodesOk()
    requires dir in s.live && e.kind != FT_DIR
    ensures u.EntryOk(e) && u.Ino(dir) == s.Ino(dir) && u.Blocks(dir) == s.Blocks(dir)
    ensures forall x :: u.Lookup(dir, x) == s.Lookup(dir, x)
    ensures forall n :: n in s.live ==> u.Ino(n) == s.Ino(n)
  {
    assert s.InodeOk(dir) && u.InodeOk(dir);
  }

  lemma SplitStored(s: Image, u: Image, t: Image, b: nat, n: nat, at: nat, need: nat, e: Entry)
    requires Stored(s, t, b, n) && u == s.(live := s.live + {n}) && b < |s.d|
    requires RoomAt(s.d[b], 0, need) == Some(at) && IsSplit(s.d[b], t.d[b], at, e)
    ensures SplitBlock(u, t, b, at, need, e)
  {
    hide RoomAt, IsSplit;
  }

  /** Some block of directory `dir` is not tiled by records, so the image is not valid. */
  ghost predicate Torn(s: Image, dir: nat)
    requires DiskOk(s.v, s.d) && InodeNum(s.v, dir)
  {
    exists k :: 0 <= k < |s.Blocks(dir)| && s.Blocks(dir)[k] < |s.d| && !Tiled(s.d[s.Blocks(dir)[k]], 0)
  }

  lemma ValidNotTorn(s: Image, dir: nat)
    requires s.Valid() && dir in s.live && IsDir(s.Ino(dir))
    ensures !Torn(s, dir)
  {
    hide Image.DescsOk, Image.Disjoint, Image.BitsOk, RegionsApart, RegionsOnDisk, Tiled;
    assert s.InodeOk(dir) && s.DirOk(dir);
  }

  lemma TornIsInvalid(s: Image, dir: nat)
    requires s.Sound() && dir in s.live && IsDir(s.Ino(dir)) && Torn(s, dir)
    ensures !s.Valid()
  {
    hide Torn, Image.DirsOk, Image.Disjoint, Image.BitsOk, Image.DescsOk;
    if s.Valid() {
      ValidNotTorn(s, dir);
    }
  }

  lemma TornStays(s: Image, t: Image, n: nat, dir: nat)
    requires Framed(s, t, n) && dir in s.live && dir != n && Torn(s, dir)
    ensures Torn(t, dir) && t.Ino(dir) == s.Ino(dir)
  {
    hide Image.DescsOk, RegionsApart, RegionsOnDisk, Tiled;
    assert SameView(s, t, dir) && t.Blocks(dir) == s.Blocks(dir);
    var k :| 0 <= k < |s.Blocks(dir)| && s.Blocks(dir)[k] < |s.d| && !Tiled(s.d[s.Blocks(dir)[k]], 0);
    assert !Tiled(t.d[t.Blocks(dir)[k]], 0);
  }

  lemma NameStored(s: Image, t: Image, dir: nat, k: nat, at: nat, need: nat, e: Entry)
    requires s.Valid() && dir in s.live && IsDir(s.Ino(dir)) && k < |s.Blocks(dir)| && s.Blocks(dir)[k] < |s.d|
    requires Claimed(s, e.inode) && Stored(s, t, s.Blocks(dir)[k], e.inode)
    requires e.kind != FT_DIR && 1 <= |e.name| <= 255
    requires RoomAt(s.d[s.Blocks(dir)[k]], 0, need) == Some(at)
    requires IsSplit(s.d[s.Blocks(dir)[k]], t.d[s.Blocks(dir)[k]], at, e)
    ensures NameAdded(s, t, dir, e)
  {
    hide Image.Disjoint, Image.BitsOk, Image.DirsOk, Image.DescsOk, LookupsKept, FilesKept, IsSplit, RoomAt,
      RegionsApart, RegionsOnDisk;
    AdoptKeepsNames(s, e.inode, dir, e.name);
    var u := s.(live := s.live + {e.inode});
    AdoptedFacts(s, u, dir, e);
    SplitStored(s, u, t, s.Blocks(dir)[k], e.inode, at, need, e);
    hide SplitBlock, Stored;
    EntryAddedKeeps(u, t, dir, k, at, need, e);
    LookupsTrans(s, u, t, dir, e.name);
    FilesKeptBut(u, t, e.inode);
    FilesTrans(s, u, t, e.inode);
  }

  /** The target is a live inode, recorded as a directory exactly if it is one. */
  predicate TargetOk(s: Image, t: Target)
    requires DiskOk(s.v, s.d)
  {
    t.inode in s.live && InodeNum(s.v, t.inode) && (t.kind == FT_DIR <==> IsDir(s.Ino(t.inode)))
  }

  lemma RootOk(s: Image)
    requires s.Valid()
    ensures TargetOk(s, ROOT)
  {
  }

  lemma LookupOk(s: Image, n: nat, name: seq<byte>)
    requires s.Valid() && n in s.live && IsDir(s.Ino(n))
    ensures s.InodeOk(n) && OnDisk(s.d, InodeBlocks(s.Ino(n)))
    ensures s.Lookup(n, name).Some? ==> s.EntryOk(s.Lookup(n, name).value)
  {
    hide Image.Disjoint, Image.BitsOk, Image.DescsOk, RegionsApart, RegionsOnDisk, Tiled, DirEntries;
    assert s.InodeOk(n) && s.DirOk(n);
    assert s.Blocks(n) == InodeBlocks(s.Ino(n));
  }

  /** One component down: the lookup happens in a live directory, and what it finds is live. */
  lemma StepDown(s: Image, at: Target, name: seq<byte>, rest: seq<seq<byte>>)
    requires s.Valid() && TargetOk(s, at) && s.WalksDirs(at, [name] + rest)
    ensures s.InodeOk(at.inode) && OnDisk(s.d, InodeBlocks(s.Ino(at.inode)))
    ensures IsDir(s.Ino(at.inode))
    ensures s.Lookup(at.inode, name) == LookupIn(s.d, s.Ino(at.inode), name)
    ensures s.Lookup(at.inode, name).None? ==> s.Resolve(at, [name] + rest) == None
    ensures s.Lookup(at.inode, name).Some? ==>
      var next := Target(s.Lookup(at.inode, name).value.inode, s.Lookup(at.inode, name).value.kind);
      TargetOk(s, next) && s.WalksDirs(next, rest) && s.Resolve(at, [name] + rest) == s.Resolve(next, rest)
  {
    hide Image.Disjoint, Image.BitsOk, Image.DirsOk, Image.DescsOk, RegionsApart, RegionsOnDisk, LookupIn;
    assert ([name] + rest)[1..] == rest;
    LookupOk(s, at.inode, name);
  }

  /** One component down a walk through live inodes. */
  lemma StepLive(s: Image, at: Target, name: seq<byte>, rest: seq<seq<byte>>)
    requires s.Sound() && s.WalksLive(at, [name] + rest)
    ensures at.inode in s.live && s.InodeOk(at.inode) && OnDisk(s.d, InodeBlocks(s.Ino(at.inode)))
    ensures s.Lookup(at.inode, name) == LookupIn(s.d, s.Ino(at.inode), name)
    ensures s.Lookup(at.inode, name).None? ==> s.Resolve(at, [name] + rest) == None
    ensures s.Lookup(at.inode, name).Some? ==>
      var next := Target(s.Lookup(at.inode, name).value.inode, s.Lookup(at.inode, name).value.kind);
      s.WalksLive(next, rest) && s.Resolve(at, [name] + rest) == s.Resolve(next, rest)
  {
    hide Image.Disjoint, Image.BitsOk, Image.DescsOk, RegionsApart, RegionsOnDisk, LookupIn;
    assert ([name] + rest)[1..] == rest;
    assert s.InodeOk(at.inode) && s.Blocks(at.inode) == InodeBlocks(s.Ino(at.inode));
  }

  /** A walk through directories of a valid image meets live inodes only. */
  lemma {:induction false} DirsAreLive(s: Image, at: Target, comps: seq<seq<byte>>)
    requires s.Valid() && TargetOk(s, at) && s.WalksDirs(at, comps)
    ensures s.WalksLive(at, comps)
    decreases |comps|
  {
    hide Image.Disjoint, Image.BitsOk, Image.DescsOk, Image.DirsOk, RegionsApart, RegionsOnDisk, LookupIn;
    if comps != [] {
      assert comps == [comps[0]] + comps[1..];
      StepDown(s, at, comps[0], comps[1..]);
      var r := s.Lookup(at.inode, comps[0]);
      if r.Some? {
        DirsAreLive(s, Target(r.value.inode, r.value.kind), comps[1..]);
      }
    }
  }

  /** Everything a path found in `s` is still found in `t`. */
  ghost predicate Extends(s: Image, t: Image) {
    && Readable(s) && Readable(t) && s.v == t.v && s.live <= t.live
    && forall n, x :: n in s.live && IsDir(s.Ino(n)) && s.Lookup(n, x).Some? ==> t.Lookup(n, x) == s.Lookup(n, x)
  }

  /** Paths that resolved keep resolving to the same inode. */
  lemma {:induction false} ResolveExtends(s: Image, t: Image, at: Target, comps: seq<seq<byte>>)
    requires s.Valid() && Extends(s, t) && TargetOk(s, at) && s.WalksDirs(at, comps)
    requires s.Resolve(at, comps).Some?
    ensures t.Resolve(at, comps) == s.Resolve(at, comps) && t.WalksDirs(at, comps)
    ensures TargetOk(s, s.Resolve(at, comps).value)
    decreases |comps|
  {
    hide Image.Disjoint, Image.BitsOk, Image.DescsOk, Image.DirsOk, RegionsApart, RegionsOnDisk, LookupIn;
    if comps != [] {
      assert comps == [comps[0]] + comps[1..];
      StepDown(s, at, comps[0], comps[1..]);
      var e := s.Lookup(at.inode, comps[0]).value;
      ResolveExtends(s, t, Target(e.inode, e.kind), comps[1..]);
    }
  }

  /** The inodes in which a walk looks a name up. */
  function LookedIn(s: Image, at: Target, comps: seq<seq<byte>>): set<nat>
    requires Readable(s)
    decreases |comps|
  {
    if comps == [] || at.inode !in s.live then {}
    else
      {at.inode} +
      match s.Lookup(at.inode, comps[0])
      case None => {}
      case Some(e) => LookedIn(s, Target(e.inode, e.kind), comps[1..])
  }

  /** What was found in a live inode other than `n` is still found there. */
  ghost predicate FoundBut(s: Image, t: Image, n: nat) {
    && Readable(s) && Readable(t) && s.live <= t.live
    && forall m, x :: m in s.live && m != n && s.Lookup(m, x).Some? ==> t.Lookup(m, x) == s.Lookup(m, x)
  }

  /** A walk that does not look into `n` leads where it led. */
  lemma {:induction false} ResolveAround(s: Image, t: Image, n: nat, at: Target, comps: seq<seq<byte>>)
    requires FoundBut(s, t, n) && n !in LookedIn(s, at, comps) && s.Resolve(at, comps).Some?
    ensures t.Resolve(at, comps) == s.Resolve(at, comps)
    decreases |comps|
  {
    hide LookupIn, Image.DescsOk, RegionsApart, RegionsOnDisk;
    if comps != [] {
      var e := s.Lookup(at.inode, comps[0]).value;
      ResolveAround(s, t, n, Target(e.inode, e.kind), comps[1..]);
    }
  }

  lemma {:induction false} LookedInSnoc(s: Image, at: Target, comps: seq<seq<byte>>, name: seq<byte>)
    requires Readable(s) && s.Resolve(at, comps).Some? && s.Resolve(at, comps).value.inode in s.live
    ensures LookedIn(s, at, comps + [name]) == LookedIn(s, at, comps) + {s.Resolve(at, comps).value.inode}
    decreases |comps|
  {
    hide LookupIn, Image.DescsOk, RegionsApart, RegionsOnDisk;
    if comps == [] {
      assert comps + [name] == [name] && [name][1..] == [];
    } else {
      assert (comps + [name])[1..] == comps[1..] + [name];
      var e := s.Lookup(at.inode, comps[0]).value;
      LookedInSnoc(s, Target(e.inode, e.kind), comps[1..], name);
    }
  }

  lemma {:induction false} LookedInLive(s: Image, at: Target, comps: seq<seq<byte>>)
    requires Readable(s)
    ensures LookedIn(s, at, comps) <= s.live
    decreases |comps|
  {
    hide LookupIn, Image.DescsOk, RegionsApart, RegionsOnDisk;
    if comps != [] && at.inode in s.live {
      var r := s.Lookup(at.inode, comps[0]);
      if r.Some? {
        LookedInLive(s, Target(r.value.inode, r.value.kind), comps[1..]);
      }
    }
  }

  /** A walk through directories looks into directories only. */
  lemma {:induction false} LooksInDirs(s: Image, at: Target, comps: seq<seq<byte>>, n: nat)
    requires s.Valid() && TargetOk(s, at) && s.WalksDirs(at, comps) && n in LookedIn(s, at, comps)
    ensures n in s.live && IsDir(s.Ino(n))
    decreases |comps|
  {
    hide Image.Disjoint, Image.BitsOk, Image.DescsOk, Image.DirsOk, RegionsApart, RegionsOnDisk, LookupIn;
    assert comps == [comps[0]] + comps[1..];
    StepDown(s, at, comps[0], comps[1..]);
    var r := s.Lookup(at.inode, comps[0]);
    if n != at.inode && r.Some? {
      LooksInDirs(s, Target(r.value.inode, r.value.kind), comps[1..], n);
    }
  }

  /** The entries a lookup in inode `n` goes through. */
  function EntriesAt(s: Image, n: nat): seq<Entry>
    requires Readable(s) && n in s.live
  {
    assert s.InodeOk(n);
    assert OnDisk(s.d, s.Blocks(n));
    if UsesExtents(s.Ino(n)) && HasHeader(s.Ino(n)) then DirEntries(s.d, s.Blocks(n)) else []
  }

  lemma LookupsAt(s: Image, n: nat, name: seq<byte>)
    requires Readable(s) && n in s.live
    ensures s.Lookup(n, name) == FindEntry(EntriesAt(s, n), name)
  {
    assert s.InodeOk(n) && s.Blocks(n) == InodeBlocks(s.Ino(n));
  }

  /** Resolution on `s` as if the entries of inode `n` were `es`. */
  function Rerouted(s: Image, n: nat, es: seq<Entry>, at: Target, comps: seq<seq<byte>>): Option<Target>
    requires Readable(s)
    decreases |comps|
  {
    if comps == [] then Some(at)
    else if at.inode !in s.live then None
    else match if at.inode == n then FindEntry(es, comps[0]) else s.Lookup(at.inode, comps[0])
      case None => None
      case Some(e) => Rerouted(s, n, es, Target(e.inode, e.kind), comps[1..])
  }

  /** Around `n` every lookup is the same, whether it finds something or not. */
  lemma FramedLookups(s: Image, t: Image, n: nat)
    requires Readable(s) && Readable(t) && Framed(s, t, n)
    ensures forall m, x :: m in s.live && m != n ==> t.Lookup(m, x) == s.Lookup(m, x)
  {
    hide Image.DescsOk, RegionsApart, RegionsOnDisk, DirEntries, FindEntry, BitsGrow;
    forall m, x | m in s.live && m != n
      ensures t.Lookup(m, x) == s.Lookup(m, x)
    {
      assert SameView(s, t, m) && s.InodeOk(m) && t.InodeOk(m);
      SameViewDir(s, t, m);
    }
  }

  /** After a step that changed inode `n` alone, a path leads where it leads on the old image with
      the new entries of `n`. */
  lemma {:induction false} ResolveRerouted(s: Image, t: Image, n: nat, at: Target, comps: seq<seq<byte>>)
    requires Readable(s) && Readable(t) && t.live == s.live && n in s.live
    requires forall m, x :: m in s.live && m != n ==> t.Lookup(m, x) == s.Lookup(m, x)
    ensures t.Resolve(at, comps) == Rerouted(s, n, EntriesAt(t, n), at, comps)
    decreases |comps|
  {
    hide LookupIn, Image.DescsOk, RegionsApart, RegionsOnDisk, EntriesAt, FindEntry;
    if comps != [] && at.inode in s.live {
      LookupsAt(t, n, comps[0]);
      var r := t.Lookup(at.inode, comps[0]);
      if r.Some? {
        ResolveRerouted(s, t, n, Target(r.value.inode, r.value.kind), comps[1..]);
      }
    }
  }

  /** A walk that does not look into `n` does not depend on the entries of `n`. */
  lemma {:induction false} ReroutedAround(s: Image, n: nat, es: seq<Entry>, at: Target, comps: seq<seq<byte>>)
    requires Readable(s) && n !in LookedIn(s, at, comps)
    ensures Rerouted(s, n, es, at, comps) == s.Resolve(at, comps)
    decreases |comps|
  {
    hide LookupIn, Image.DescsOk, RegionsApart, RegionsOnDisk, FindEntry;
    if comps != [] && at.inode in s.live {
      var r := s.Lookup(at.inode, comps[0]);
      if r.Some? {
        ReroutedAround(s, n, es, Target(r.value.inode, r.value.kind), comps[1..]);
      }
    }
  }

  /** Resolving a path is resolving its parent and looking the last name up there. */
  lemma {:induction false} ResolveSnoc(s: Image, at: Target, comps: seq<seq<byte>>, name: seq<byte>)
    requires Readable(s)
    ensures s.Resolve(at, comps + [name]) ==
      match s.Resolve(at, comps)
      case None => None
      case Some(t) => s.Resolve(t, [name])
    decreases |comps|
  {
    hide Image.DescsOk, RegionsApart, RegionsOnDisk, LookupIn;
    if comps == [] {
      assert comps + [name] == [name];
    } else {
      assert (comps + [name])[1..] == comps[1..] + [name];
      if at.inode in s.live {
        var r := s.Lookup(at.inode, comps[0]);
        if r.Some? {
          ResolveSnoc(s, Target(r.value.inode, r.value.kind), comps[1..], name);
        }
      }
    }
  }

  /** A path whose parent leads to a live directory is itself looked up in directories only. */
  lemma {:induction false} WalksSnoc(s: Image, at: Target, comps: seq<seq<byte>>, name: seq<byte>)
    requires Readable(s) && s.WalksDirs(at, comps) && s.Resolve(at, comps).Some?
    requires s.Resolve(at, comps).value.kind == FT_DIR && s.Resolve(at, comps).value.inode in s.live
    ensures s.WalksDirs(at, comps + [name])
    decreases |comps|
  {
    hide Image.DescsOk, RegionsApart, RegionsOnDisk, LookupIn;
    if comps == [] {
      assert comps + [name] == [name] && [name][1..] == [];
    } else {
      assert (comps + [name])[1..] == comps[1..] + [name];
      var e := s.Lookup(at.inode, comps[0]).value;
      WalksSnoc(s, Target(e.inode, e.kind), comps[1..], name);
    }
  }

  /** One lookup is all it takes for a single name. */
  lemma ResolveOne(s: Image, at: Target, name: seq<byte>)
    requires Readable(s) && at.inode in s.live
    ensures s.Resolve(at, [name]) ==
      match s.Lookup(at.inode, name)
      case None => None
      case Some(e) => Some(Target(e.inode, e.kind))
  {
    hide LookupIn;
    var r := s.Lookup(at.inode, name);
    if r.Some? {
      assert [name][1..] == [];
      assert s.Resolve(Target(r.value.inode, r.value.kind), []) == Some(Target(r.value.inode, r.value.kind));
    }
  }

  /** A record keeps a name length in one byte, so a longer name is found in no directory. */
  lemma LongNameNotFound(s: Image, n: nat, name: seq<byte>)
    requires Readable(s) && n in s.live && 255 < |name|
    ensures s.Lookup(n, name).None?
  {
    assert s.InodeOk(n);
    LongNamesNot(s.d, s.Blocks(n), name);
  }

  lemma {:induction false} LongNamesNot(d: Disk, blocks: seq<nat>, name: seq<byte>)
    requires OnDisk(d, blocks) && 255 < |name|
    ensures FindEntry(DirEntries(d, blocks), name).None?
  {
    if blocks != [] {
      var n := |blocks| - 1;
      LongNamesNot(d, blocks[..n], name);
      NamesAreShort(d[blocks[n]], 0);
      FindConcat(DirEntries(d, blocks[..n]), Entries(d[blocks[n]], 0), name);
    }
  }

  lemma {:induction false} NamesAreShort(b: seq<byte>, off: nat)
    ensures forall e :: e in Entries(b, off) ==> |e.name| <= 255
    decreases |b| - off
  {
    if off + 8 < |b| && RecLen(b, off) != 0 {
      NamesAreShort(b, off + RecLen(b, off));
      assert forall e :: e in RecEntry(b, off) ==> |e.name| == NameLen(b, off);
    }
  }

  /** No lookup changed but possibly that of `name` in `dir`, and no file but `n`. */
  ghost predicate NamesStay(s: Image, t: Image, n: nat, dir: nat, name: seq<byte>) {
    && LookupsKept(s, t, dir, name) && FilesKept(s, t, n)
    && s.live == t.live && |s.d| == |t.d|
    && dir in s.live && IsDir(s.Ino(dir)) && IsDir(t.Ino(dir))
    && t.Lookup(dir, name) == s.Lookup(dir, name)
    && (s.NamesUnique() ==> t.NamesUnique())
    && forall len :: HasRoom(t, dir, len) == HasRoom(s, dir, len)
  }

  /** A new name for a new inode; all other names and all files stay. */
  ghost predicate Created(s: Image, t: Image, n: nat, dir: nat, name: seq<byte>) {
    && LookupsKept(s, t, dir, name) && FilesKept(s, t, n) && dir in s.live
    && (s.Lookup(dir, name).None? ==>
          t.Lookup(dir, name) == Some(Entry(n, FT_REG_FILE, name)) && (s.NamesUnique() ==> t.NamesUnique()))
    && (s.Lookup(dir, name).Some? ==> !t.NamesUnique())
  }
}
