/** What a write to a directory does: to the directory, to the paths that are looked up in it and
    to all others (fs/ext4/ext4.c, ext4_write_file and ext4_resolve_path). */
module Directories {
  import opened Bytes
  import opened Bitmap
  import opened Storage
  import opened Volume
  import opened Extents
  import opened DirBlock
  import opened Image
  import opened Names
  import opened Paths
  import opened Counts
  import opened Files
  import opened Results

  /** What reading `path` gives on `s` if the entries of inode `n` are `es` and its content is
      `content`. */
  function ReadRerouted(s: Image, n: nat, es: seq<Entry>, content: Option<seq<byte>>, path: seq<byte>, max: nat):
    Option<seq<byte>>
    requires Readable(s)
  {
    if path == [] || path[0] != SLASH then None
    else match Rerouted(s, n, es, ROOT, Components(path))
      case None => None
      case Some(u) =>
        if u.kind != FT_REG_FILE || u.inode !in s.live then None
        else if u.inode == n then content else Content(s, u.inode, max)
  }

  /** Any path after a write to an existing inode: it leads where it leads on the old image with the
      new entries of that inode, and every other file there has its old content. */
  lemma ReadAfter(s: Image, t: Image, path: seq<byte>, n: nat, data: seq<byte>, q: seq<byte>, max: nat, ok: bool,
        clean: bool, booked: bool)
    requires Wrote(s, t, path, n, data, ok, clean, booked) && n in s.live
    ensures n in t.live
    ensures ReadBack(t, q, max) == ReadRerouted(s, n, EntriesAt(t, n), Content(t, n, max), q, max)
  {
    hide LookupIn, Components, Image.DescsOk, RegionsApart, RegionsOnDisk, Image.Disjoint, Image.BitsOk, OthersKept,
      NamesBooked, WroteClean, Written, Existing, Counted, BlockBitsClaimed, Holds, EntriesAt, Rerouted, BitsGrow,
      SameView, Content;
    FramedLookups(s, t, n);
    ResolveRerouted(s, t, n, ROOT, Components(q));
    FramedContent(s, t, n, max);
  }

  lemma FramedContent(s: Image, t: Image, n: nat, max: nat)
    requires Readable(s) && Readable(t) && Framed(s, t, n)
    ensures forall m :: m in s.live && m != n ==> Content(t, m, max) == Content(s, m, max)
  {
    hide Image.DescsOk, RegionsApart, RegionsOnDisk, DirEntries, Flat, BitsGrow, ReadSlice;
    forall m | m in s.live && m != n
      ensures Content(t, m, max) == Content(s, m, max)
    {
      assert SameView(s, t, m) && s.InodeOk(m) && t.InodeOk(m);
      SameViewDir(s, t, m);
    }
  }

  /** Paths that are not looked up in the inode written and do not lead to it read as before, also if
      it is a directory. */
  lemma OtherPathsStay(s: Image, t: Image, path: seq<byte>, n: nat, data: seq<byte>, q: seq<byte>, max: nat, ok: bool,
        clean: bool, booked: bool)
    requires Wrote(s, t, path, n, data, ok, clean, booked) && n in s.live
    requires n !in PathLooks(s, q)
    requires s.Resolve(ROOT, Components(q)).Some? ==> s.Resolve(ROOT, Components(q)).value.inode != n
    ensures ReadBack(t, q, max) == ReadBack(s, q, max)
  {
    hide Wrote, LookupIn, Components, EntriesAt, Content, Rerouted, LookedIn, Image.Resolve, Image.DescsOk,
      RegionsApart, RegionsOnDisk, Image.Disjoint, Image.BitsOk;
    BothReadable(s, t, path, n, data, ok, clean, booked);
    ReadAfter(s, t, path, n, data, q, max, ok, clean, booked);
    ReroutedAround(s, n, EntriesAt(t, n), ROOT, Components(q));
  }

  lemma BothReadable(s: Image, t: Image, path: seq<byte>, n: nat, data: seq<byte>, ok: bool, clean: bool, booked: bool)
    requires Wrote(s, t, path, n, data, ok, clean, booked) && n in s.live
    ensures Readable(s) && Readable(t) && n in t.live && t.v == s.v && t.live == s.live
    ensures ok ==> Holds(s, t, n, data)
  {
    hide LookupIn, Components, Image.DescsOk, RegionsApart, RegionsOnDisk, Image.Disjoint, Image.BitsOk, OthersKept,
      NamesBooked, WroteClean, Written, Existing, Counted, BlockBitsClaimed, Holds;
  }

  /** A path that still leads to the inode written, now as a regular file, reads the data exactly if
      its size does not wrap around and is not zero without an extent header. */
  lemma ReadsThrough(s: Image, t: Image, path: seq<byte>, n: nat, data: seq<byte>, q: seq<byte>, max: nat, clean: bool,
        booked: bool)
    requires Wrote(s, t, path, n, data, true, clean, booked) && n in s.live && |data| < U32_SPAN && |data| <= max
    requires t.Resolve(ROOT, Components(q)) == Some(Target(n, FT_REG_FILE)) && q != [] && q[0] == SLASH
    ensures ReadBack(t, q, max) == Some(data) <==>
      0 < |data| <= U32_SPAN - s.v.g.blockSize || (data == [] && UsesExtents(s.Ino(n)) && HasHeader(s.Ino(n)))
  {
    hide Wrote, LookupIn, Components, Content, Image.Resolve, Holds, Image.DescsOk, RegionsApart, RegionsOnDisk,
      Image.Disjoint, Image.BitsOk, UsesExtents, HasHeader;
    BothReadable(s, t, path, n, data, true, clean, booked);
    StoredContent(s, t, n, data, max);
  }

  /** The entries in the whole blocks of some data, if it is taken for a directory. */
  function DataEntries(data: seq<byte>, size: nat): seq<Entry>
    requires 0 < size
  {
    if |data| < size then [] else Entries(data[..size], 0) + DataEntries(data[size..], size)
  }

  lemma {:induction false} FirstBlock(d: Disk, blocks: seq<nat>)
    requires OnDisk(d, blocks) && blocks != []
    ensures OnDisk(d, blocks[1..]) && Flat(d, blocks) == d[blocks[0]] + Flat(d, blocks[1..])
  {
    if |blocks| == 1 {
      assert blocks[..0] == [] == blocks[1..];
    } else {
      var front, last := blocks[..|blocks| - 1], blocks[|blocks| - 1];
      MiddleOf(blocks);
      FirstBlock(d, front);
      assert OnDisk(d, blocks[1..]);
      assert Flat(d, blocks[1..]) == Flat(d, front[1..]) + d[last];
      Regroup(d[blocks[0]], Flat(d, front[1..]), d[last]);
    }
  }

  lemma Regroup<T>(a: seq<T>, b: seq<T>, c: seq<T>)
    ensures (a + b) + c == a + (b + c)
  {
  }

  lemma MiddleOf<T>(s: seq<T>)
    requires 2 <= |s|
    ensures s[1..] != [] && s[1..][|s| - 2] == s[|s| - 1] && s[1..][..|s| - 2] == s[..|s| - 1][1..]
  {
  }

  lemma {:induction false} FirstEntries(d: Disk, blocks: seq<nat>)
    requires blocks != [] && OnDisk(d, blocks) && OnDisk(d, blocks[1..])
    ensures DirEntries(d, blocks) == Entries(d[blocks[0]], 0) + DirEntries(d, blocks[1..])
  {
    hide Entries;
    if |blocks| == 1 {
      assert blocks[..0] == [] == blocks[1..];
    } else {
      var front, last := blocks[..|blocks| - 1], blocks[|blocks| - 1];
      MiddleOf(blocks);
      FirstEntries(d, front);
      assert DirEntries(d, blocks[1..]) == DirEntries(d, front[1..]) + Entries(d[last], 0);
      Regroup(Entries(d[blocks[0]], 0), DirEntries(d, front[1..]), Entries(d[last], 0));
    }
  }

  /** A directory that holds some data has the entries of its whole blocks first. */
  lemma {:induction false} DataListed(d: Disk, blocks: seq<nat>, size: nat, data: seq<byte>) returns (rest: seq<Entry>)
    requires OnDisk(d, blocks) && Sized(d, size) && 0 < size
    requires |data| <= |Flat(d, blocks)| && Flat(d, blocks)[..|data|] == data
    ensures DirEntries(d, blocks) == DataEntries(data, size) + rest
    decreases |data|
  {
    hide Entries;
    if |data| < size {
      rest := DirEntries(d, blocks);
    } else {
      FirstBlock(d, blocks);
      FirstEntries(d, blocks);
      var tail := Flat(d, blocks[1..]);
      assert data[..size] == d[blocks[0]];
      assert tail[..|data| - size] == data[size..];
      rest := DataListed(d, blocks[1..], size, data[size..]);
    }
  }

  /** Entries behind others are not needed where those suffice. */
  lemma {:induction false} ReroutedEarly(s: Image, n: nat, es: seq<Entry>, rest: seq<Entry>, at: Target,
        comps: seq<seq<byte>>)
    requires Readable(s) && Rerouted(s, n, es, at, comps).Some?
    ensures Rerouted(s, n, es + rest, at, comps) == Rerouted(s, n, es, at, comps)
    decreases |comps|
  {
    hide LookupIn, Image.DescsOk, RegionsApart, RegionsOnDisk, FindEntry;
    if comps != [] {
      FindConcat(es, rest, comps[0]);
      var r := if at.inode == n then FindEntry(es, comps[0]) else s.Lookup(at.inode, comps[0]);
      ReroutedEarly(s, n, es, rest, Target(r.value.inode, r.value.kind), comps[1..]);
    }
  }

  /** Data written to a directory is its new list of entries. If the entries in its whole blocks lead
      `q` anywhere, that is where `q` leads, and if they lead it back to the directory as a regular
      file, a read returns the data. */
  lemma DataLeads(s: Image, t: Image, path: seq<byte>, n: nat, data: seq<byte>, q: seq<byte>, max: nat, clean: bool,
        booked: bool)
    requires Wrote(s, t, path, n, data, true, clean, booked) && n in s.live && |data| <= max
    requires 0 < |data| <= U32_SPAN - s.v.g.blockSize
    requires Rerouted(s, n, DataEntries(data, s.v.g.blockSize), ROOT, Components(q)).Some?
    ensures ReadBack(t, q, max) == ReadRerouted(s, n, DataEntries(data, s.v.g.blockSize), Some(data), q, max)
  {
    hide Wrote, LookupIn, Components, Content, Holds, Image.DescsOk, RegionsApart, RegionsOnDisk, Image.Disjoint,
      Image.BitsOk, DataEntries, Rerouted, EntriesAt, UsesExtents, HasHeader;
    BothReadable(s, t, path, n, data, true, clean, booked);
    StoredContent(s, t, n, data, max);
    ReadAfter(s, t, path, n, data, q, max, true, clean, booked);
    var rest := StoredEntries(s, t, n, data);
    ReroutedEarly(s, n, DataEntries(data, s.v.g.blockSize), rest, ROOT, Components(q));
  }

  lemma StoredEntries(s: Image, t: Image, n: nat, data: seq<byte>) returns (rest: seq<Entry>)
    requires Holds(s, t, n, data) && 0 < |data| <= U32_SPAN - s.v.g.blockSize
    ensures EntriesAt(t, n) == DataEntries(data, s.v.g.blockSize) + rest
  {
    hide Image.DescsOk, RegionsApart, RegionsOnDisk, Flat, DirEntries, DataEntries, BlocksNeeded, UsesExtents,
      HasHeader, InodeBlocks;
    NeededFits(s.v.g, |data|);
    rest := DataListed(t.d, t.Blocks(n), s.v.g.blockSize, data);
  }

  predicate AllZero(b: seq<byte>) {
    forall i :: 0 <= i < |b| ==> b[i] == 0
  }

  /** A write to a directory succeeds like any other and puts file data where the entries were:
      a block of zeros or more makes the image invalid, and as many as the directory has leave it
      without a single name, not even its own. */
  lemma DirectoryLost(s: Image, t: Image, path: seq<byte>, n: nat, data: seq<byte>, name: seq<byte>, clean: bool,
        booked: bool)
    requires Wrote(s, t, path, n, data, true, clean, booked) && s.Valid() && ParentLives(s, path)
    requires HitsDirectory(s, path, n)
    requires AllZero(data) && s.v.g.blockSize <= |data| <= U32_SPAN - s.v.g.blockSize
    ensures !t.Valid() && n in t.live
    ensures |data| == Pos(|t.Blocks(n)|, s.v.g.blockSize) ==> t.Lookup(n, name).None?
  {
    hide Image.DescsOk, RegionsApart, RegionsOnDisk, Image.Disjoint, Image.BitsOk, Image.DirsOk, Parent, Flat,
      DirEntries, Tiled, Wrote, AllZero, HitsDirectory, Holds, BlocksNeeded;
    NeededFits(s.v.g, |data|);
    HitIsDirectory(s, t, path, n, data, clean, booked);
    FirstBlockZero(s, t, n, data);
    if t.Valid() {
      ValidTiles(t, n);
    }
    if |data| == Pos(|t.Blocks(n)|, s.v.g.blockSize) {
      DirectoryHolds(s, t, n, data);
      ZeroBlocks(t.d, t.Blocks(n));
      ZeroEntries(t.d, t.Blocks(n), s.v.g.blockSize, name);
    }
  }

  lemma HitIsDirectory(s: Image, t: Image, path: seq<byte>, n: nat, data: seq<byte>, clean: bool, booked: bool)
    requires Wrote(s, t, path, n, data, true, clean, booked) && s.Valid() && ParentLives(s, path)
    requires HitsDirectory(s, path, n)
    ensures Holds(s, t, n, data) && t.Sound() && t.v == s.v && n in s.live && n in t.live && IsDir(s.Ino(n))
  {
    hide LookupIn, Image.DescsOk, RegionsApart, RegionsOnDisk, Image.Disjoint, Image.BitsOk, Image.DirsOk, Parent,
      WroteClean, Written, BlockBitsClaimed, OthersKept, LiveGrew, Counted, NamesBooked, Existing, Holds;
    ParentFacts(s, path);
  }

  lemma CleanHits(s: Image, t: Image, path: seq<byte>, n: nat, data: seq<byte>, booked: bool)
    requires Wrote(s, t, path, n, data, true, true, booked) && s.Valid() && ParentLives(s, path)
    requires AimsAtDirectory(s, path)
    ensures HitsDirectory(s, path, n)
  {
    hide LookupIn, Image.DescsOk, RegionsApart, RegionsOnDisk, Image.Disjoint, Image.BitsOk, Image.DirsOk, Parent,
      CanWrite, Written, BlockBitsClaimed, OthersKept, LiveGrew, Counted, NamesBooked, Existing, StoredIn;
    ParentFacts(s, path);
  }

  lemma FirstBlockZero(s: Image, t: Image, n: nat, data: seq<byte>)
    requires Holds(s, t, n, data) && IsDir(s.Ino(n)) && AllZero(data) && s.v.g.blockSize <= |data|
    requires 0 < BlocksNeeded(s.v.g, |data|)
    ensures IsDir(t.Ino(n)) && OnDisk(t.d, t.Blocks(n)) && t.Blocks(n) != []
    ensures !Tiled(t.d[t.Blocks(n)[0]], 0)
  {
    hide Image.DescsOk, RegionsApart, RegionsOnDisk, BlocksNeeded, Flat, InodeBlocks, UsesExtents, HasHeader, Tiled;
    var blocks, size := t.Blocks(n), s.v.g.blockSize;
    FlatLength(t.d, blocks, size);
    assert blocks != [] && OnDisk(t.d, blocks);
    FirstBlock(t.d, blocks);
    assert t.d[blocks[0]] == Flat(t.d, blocks)[..size] == data[..size];
    ZerosNotTiled(data[..size]);
  }

  lemma ZerosNotTiled(b: seq<byte>)
    requires AllZero(b) && 8 < |b|
    ensures Entries(b, 0) == [] && !Tiled(b, 0)
  {
    assert RecLen(b, 0) == 0;
  }

  /** The outcome of one write. */
  datatype Outcome = Outcome(image: Image, inode: nat, ok: bool, booked: bool)

  /** Exactly which targets are safe. Whatever a fault-free write of each possible data does, the
      image is valid after every success if and only if the path does not name a directory to which
      a block can be written, and does not create a file of whose name nothing is entered. */
  lemma SafeExactly(s: Image, path: seq<byte>, write: seq<byte> -> Outcome)
    requires s.Valid() && ParentLives(s, path)
    requires forall data :: |data| < U32_SPAN ==>
      Wrote(s, write(data).image, path, write(data).inode, data, write(data).ok, true, write(data).booked)
    ensures (forall data :: |data| < U32_SPAN && write(data).ok ==> write(data).image.Valid())
       <==> !(AimsAtDirectory(s, path) && CanWrite(s, path, s.v.g.blockSize))
            && (Enterable(path) || !CanWrite(s, path, 0))
  {
    SizeOfBlocks(s);
    hide Wrote, AimsAtDirectory, HitsDirectory, CanWrite, Enterable, ParentLives, Image.Valid, Image.Sound, Readable,
      AllZero, Zeros;
    var zeros := Zeros(s.v.g.blockSize);
    ZerosAreZero(s.v.g.blockSize);
    if AimsAtDirectory(s, path) && CanWrite(s, path, s.v.g.blockSize) {
      CleanSucceeds(s, path, zeros, write(zeros));
      CleanHits(s, write(zeros).image, path, write(zeros).inode, zeros, write(zeros).booked);
      DirectoryLost(s, write(zeros).image, path, write(zeros).inode, zeros, [], true, write(zeros).booked);
    } else if !Enterable(path) && CanWrite(s, path, 0) {
      CleanSucceeds(s, path, [], write([]));
      CleanTears(s, path, [], write([]));
    } else {
      forall data | |data| < U32_SPAN && write(data).ok
        ensures write(data).image.Valid()
      {
        CleanSafe(s, path, data, write(data));
      }
    }
  }

  /** A file of whose name nothing is entered leaves the image invalid. */
  lemma CleanTears(s: Image, path: seq<byte>, data: seq<byte>, o: Outcome)
    requires s.Valid() && ParentLives(s, path) && !Enterable(path)
    requires Wrote(s, o.image, path, o.inode, data, true, true, o.booked)
    ensures !o.image.Valid()
  {
    hide OthersKept, NamesBooked, Counted, Image.Sound, Image.DirsOk, Holds, CanStore, Parent, Enterable, HasRun,
      Existing, BlockBitsClaimed, StoredIn, Written;
    if Existing(s, path).Some? {
      FoundIsShort(s, path);
    }
  }

  lemma SizeOfBlocks(s: Image)
    requires s.Valid()
    ensures Readable(s) && 1024 <= s.v.g.blockSize <= 4096
  {
  }

  lemma ZerosAreZero(n: nat)
    ensures AllZero(Zeros(n)) && |Zeros(n)| == n
  {
  }

  lemma CleanSucceeds(s: Image, path: seq<byte>, data: seq<byte>, o: Outcome)
    requires Readable(s) && Wrote(s, o.image, path, o.inode, data, o.ok, true, o.booked)
    ensures o.ok <==> CanWrite(s, path, |data|)
  {
    hide CanWrite, OthersKept, NamesBooked, Counted, Image.Sound, Image.DirsOk;
  }

  lemma CleanSafe(s: Image, path: seq<byte>, data: seq<byte>, o: Outcome)
    requires s.Valid() && ParentLives(s, path)
    requires Wrote(s, o.image, path, o.inode, data, true, true, o.booked)
    requires !(AimsAtDirectory(s, path) && CanWrite(s, path, s.v.g.blockSize))
    requires Enterable(path) || !CanWrite(s, path, 0)
    ensures o.image.Valid()
  {
    hide OthersKept, NamesBooked, Counted, Image.Sound, Image.DirsOk, Holds, Parent, Enterable, HasRun,
      BlockBitsClaimed, StoredIn, Written, CanStore;
    if AimsAtDirectory(s, path) {
      ParentFacts(s, path);
      FoundIsShort(s, path);
      if BlocksNeeded(s.v.g, |data|) > 0 {
        OneBlockFits(s, Existing(s, path).value.inode, |data|);
      }
    } else {
      NoBlockFits(s, path, |data|);
    }
  }

  /** Whatever can be written to a path, so can nothing at all. */
  lemma NoBlockFits(s: Image, path: seq<byte>, size: nat)
    requires Readable(s) && CanWrite(s, path, size)
    ensures CanWrite(s, path, 0)
  {
    hide NoRunBelow, HasRoom, HasInode, Reusable, Parent, Existing, BlocksNeeded, RegionsApart, RegionsOnDisk,
      Image.InodesOk;
    NothingNeeded(s.v.g);
  }

  lemma NothingNeeded(g: Geometry)
    requires GeometryOk(g)
    ensures BlocksNeeded(g, 0) == 0
  {
  }

  /** If any blocks can be stored in an inode, one can. */
  lemma OneBlockFits(s: Image, n: nat, size: nat)
    requires DiskOk(s.v, s.d) && InodeNum(s.v, n) && CanStore(s, n, size) && 0 < BlocksNeeded(s.v.g, size)
    ensures CanStore(s, n, s.v.g.blockSize)
  {
    hide HasHeader, UsesExtents, RegionsApart, RegionsOnDisk, NoRunBelow, BlocksNeeded;
    var needed := BlocksNeeded(s.v.g, size);
    OneBlock(s.v.g);
    if NoRunBelow(s.BlockBits(), 1, s.v.g.blocksPerGroup) {
      ShorterRun(s.BlockBits(), needed, s.v.g.blocksPerGroup);
    }
  }

  lemma OneBlock(g: Geometry)
    requires GeometryOk(g)
    ensures BlocksNeeded(g, g.blockSize) == 1
  {
  }

  lemma ShorterRun(b: seq<byte>, needed: nat, limit: nat)
    requires 1 <= needed && limit <= 8 * |b| && NoRunBelow(b, 1, limit)
    ensures NoRunBelow(b, needed, limit)
  {
    hide Bit;
    forall i | 0 <= i && i + needed <= limit
      ensures !ClearRun(b, i, needed)
    {
      assert !ClearRun(b, i, 1);
    }
  }

  lemma ValidTiles(t: Image, n: nat)
    requires t.Valid() && n in t.live && IsDir(t.Ino(n)) && OnDisk(t.d, t.Blocks(n)) && t.Blocks(n) != []
    ensures Tiled(t.d[t.Blocks(n)[0]], 0)
  {
    assert t.DirOk(n);
  }

  lemma DirectoryHolds(s: Image, t: Image, n: nat, data: seq<byte>)
    requires Holds(s, t, n, data) && IsDir(s.Ino(n)) && |data| == Pos(|t.Blocks(n)|, s.v.g.blockSize)
    requires 0 < BlocksNeeded(s.v.g, |data|) && |data| < U32_SPAN
    ensures IsDir(t.Ino(n)) && t.InodeOk(n) && OnDisk(t.d, t.Blocks(n)) && t.Blocks(n) != []
    ensures Flat(t.d, t.Blocks(n)) == data && Sized(t.d, s.v.g.blockSize)
  {
    hide Image.Disjoint, Image.BitsOk, Image.DescsOk, RegionsApart, RegionsOnDisk;
    NeededFits(s.v.g, |data|);
    FlatLength(t.d, t.Blocks(n), s.v.g.blockSize);
  }

  lemma {:induction false} ZeroBlocks(d: Disk, blocks: seq<nat>)
    requires OnDisk(d, blocks) && AllZero(Flat(d, blocks))
    ensures forall k :: 0 <= k < |blocks| ==> AllZero(d[blocks[k]])
  {
    if blocks != [] {
      var front, last := blocks[..|blocks| - 1], d[blocks[|blocks| - 1]];
      assert forall i :: 0 <= i < |Flat(d, front)| ==> Flat(d, front)[i] == Flat(d, blocks)[i];
      assert forall i :: 0 <= i < |last| ==> last[i] == Flat(d, blocks)[|Flat(d, front)| + i];
      ZeroBlocks(d, front);
    }
  }

  lemma {:induction false} ZeroEntries(d: Disk, blocks: seq<nat>, blockSize: nat, name: seq<byte>)
    requires OnDisk(d, blocks) && Sized(d, blockSize) && 8 < blockSize
    requires forall k :: 0 <= k < |blocks| ==> AllZero(d[blocks[k]])
    ensures FindEntry(DirEntries(d, blocks), name).None?
    ensures forall k :: 0 <= k < |blocks| ==> !Tiled(d[blocks[k]], 0)
  {
    if blocks != [] {
      var front, last := blocks[..|blocks| - 1], d[blocks[|blocks| - 1]];
      ZeroEntries(d, front, blockSize, name);
      ZerosNotTiled(last);
      FindConcat(DirEntries(d, front), Entries(last, 0), name);
    }
  }
}
