/** What a write promises: when it succeeds, when its data can be read back, and what it
    leaves alone (fs/ext4/ext4.c, ext4_write_file against ext4_read_file). */
module Results {
  import opened Bytes
  import opened Bitmap
  import opened Storage
  import opened Volume
  import opened Extents
  import opened DirBlock
  import opened Image
  import opened Names
  import opened Paths
  import opened Counts
  import opened Files

  /** The directory a path leads to without its last name. */
  function Parent(s: Image, path: seq<byte>): Option<Target>
    requires Readable(s)
  {
    if !Addressable(path) then None
    else
      var r := s.Resolve(ROOT, Components(ParentString(HeadOf(path))));
      if r.Some? && r.value.kind == FT_DIR && r.value.inode in s.live then r else None
  }

  /** The entry the last name of a path has already. */
  function Existing(s: Image, path: seq<byte>): Option<Entry>
    requires Readable(s)
  {
    match Parent(s, path)
    case None => None
    case Some(t) => s.Lookup(t.inode, NameOf(path))
  }

  /** Every component before the last name is looked up in a directory. */
  predicate ParentWalks(s: Image, path: seq<byte>)
    requires Readable(s)
  {
    Addressable(path) ==> s.WalksDirs(ROOT, Components(ParentString(HeadOf(path))))
  }

  /** The walk to the parent meets live inodes only, and the parent is the directory its entry says
      it is. The inodes on the way need not be directories: the source does not check that. */
  predicate ParentLives(s: Image, path: seq<byte>)
    requires Readable(s)
  {
    && (Addressable(path) ==> s.WalksLive(ROOT, Components(ParentString(HeadOf(path)))))
    && (Parent(s, path).Some? ==> IsDir(s.Ino(Parent(s, path).value.inode)))
  }

  /** The inodes in which the components of the path are looked up. */
  function PathLooks(s: Image, path: seq<byte>): set<nat>
    requires Readable(s)
  {
    LookedIn(s, ROOT, Components(path))
  }

  /** The path names a directory. The source does not check this before it writes. */
  predicate AimsAtDirectory(s: Image, path: seq<byte>)
    requires Readable(s)
  {
    Existing(s, path).Some? && Existing(s, path).value.kind == FT_DIR
  }

  /** The name under which the last name of a path is entered. */
  function NewName(path: seq<byte>): seq<byte> {
    EnteredName(NameOf(path))
  }

  /** What is entered is a name at all, which fails only for lengths that are multiples of 256. */
  predicate Enterable(path: seq<byte>) {
    NameOf(path) == [] || |NameOf(path)| % 256 != 0
  }

  /** The content was stored in an existing directory. */
  predicate HitsDirectory(s: Image, path: seq<byte>, n: nat)
    requires Readable(s)
  {
    AimsAtDirectory(s, path) && n in s.live
  }

  /** The entry that the name to be entered has already: for a name of up to 255 bytes the existing
      file, for a longer one whatever has its truncated name. */
  function Clash(s: Image, path: seq<byte>): Option<Entry>
    requires Readable(s)
  {
    match Parent(s, path)
    case None => None
    case Some(t) => s.Lookup(t.inode, NewName(path))
  }

  lemma ShortName(s: Image, path: seq<byte>)
    requires Readable(s) && |NameOf(path)| <= 255
    ensures NewName(path) == NameOf(path) && Clash(s, path) == Existing(s, path) && Enterable(path)
  {
    hide NameOf, Parent, Image.Lookup, Readable, HeadOf;
  }

  /** The file was there and had an extent header a read accepts. */
  predicate HadExtents(s: Image, path: seq<byte>)
    requires Readable(s)
  {
    var e := Existing(s, path);
    e.Some? && e.value.inode in s.live && UsesExtents(s.Ino(e.value.inode)) && HasHeader(s.Ino(e.value.inode))
  }

  /** The exact condition under which written data can be read back: a name that fits a
      record, a new or regular file, and a size that is neither zero on a file without an
      extent header nor so large that rounding it up to blocks wraps around. */
  predicate RoundTrips(s: Image, path: seq<byte>, size: nat)
    requires Readable(s)
  {
    && |NameOf(path)| <= 255
    && (Existing(s, path).Some? ==> Existing(s, path).value.kind == FT_REG_FILE)
    && (0 < size <= U32_SPAN - s.v.g.blockSize || (size == 0 && HadExtents(s, path)))
  }

  /** The result of a successful write of `data` to `path`, with `n` the inode written. */
  ghost predicate Written(s: Image, t: Image, path: seq<byte>, n: nat, data: seq<byte>)
    requires Readable(s)
  {
    && Readable(t) && t.v == s.v && n in t.live && t.InodeOk(n)
    && (match Existing(s, path)
        case None => n !in s.live && t.Resolve(ROOT, Components(path)) == Some(Target(n, FT_REG_FILE))
        case Some(e) => n == e.inode && t.Resolve(ROOT, Components(path)) == Some(Target(n, e.kind)))
    && FileSize(t.Ino(n)) == |data|
    && if BlocksNeeded(s.v.g, |data|) == 0
       then (UsesExtents(t.Ino(n)) && HasHeader(t.Ino(n)) <==> HadExtents(s, path))
       else UsesExtents(t.Ino(n)) && HasHeader(t.Ino(n)) && ReadSlice(Flat(t.d, t.Blocks(n)), 0, |data|) == data
  }

  /** The round trip, exactly: data written with success is what a read returns if and only if
      the condition holds, whichever way the write took. */
  lemma RoundTrip(s: Image, t: Image, path: seq<byte>, n: nat, data: seq<byte>, max: nat)
    requires Readable(s) && Addressable(path) && Readable(t) && t.v == s.v
    requires |NameOf(path)| <= 255 ==> Written(s, t, path, n, data)
    requires |data| < U32_SPAN && |data| <= max
    ensures ReadBack(t, path, max) == Some(data) <==> RoundTrips(s, path, |data|)
  {
    hide LookupIn, Components, NameOf, HeadOf, Flat, InodeBlocks, BlocksNeeded;
    if 255 < |NameOf(path)| {
      LongNameUnreadable(t, path, max);
    } else {
      WrittenIsRead(s, t, path, n, data, max);
      WrittenContent(s, t, path, n, data, max);
    }
  }

  lemma WrittenIsRead(s: Image, t: Image, path: seq<byte>, n: nat, data: seq<byte>, max: nat)
    requires Readable(s) && Addressable(path) && Written(s, t, path, n, data)
    ensures ReadBack(t, path, max) ==
      if Existing(s, path).Some? && Existing(s, path).value.kind != FT_REG_FILE then None else Content(t, n, max)
  {
    hide Image.Lookup, Image.DescsOk, RegionsApart, RegionsOnDisk, Components, Content, Existing, Flat, BlocksNeeded;
  }

  lemma WrittenContent(s: Image, t: Image, path: seq<byte>, n: nat, data: seq<byte>, max: nat)
    requires Readable(s) && Addressable(path) && Written(s, t, path, n, data)
    requires |data| < U32_SPAN && |data| <= max
    ensures Content(t, n, max) == Some(data) <==>
      0 < |data| <= U32_SPAN - s.v.g.blockSize || (data == [] && HadExtents(s, path))
  {
    hide LookupIn, Components, NameOf, HeadOf, Flat, InodeBlocks, BlocksNeeded, RegionsApart, RegionsOnDisk, Existing,
      HadExtents, UsesExtents, HasHeader, ReadSlice, ExtentsFit, Image.Resolve;
    ContentExactly(t, n, data, max, HadExtents(s, path));
  }

  /** What was stored in an existing inode, a directory or not, is its content exactly if the size
      does not wrap around and is not zero without an extent header. */
  lemma StoredContent(s: Image, t: Image, n: nat, data: seq<byte>, max: nat)
    requires Holds(s, t, n, data) && |data| < U32_SPAN && |data| <= max
    ensures Content(t, n, max) == Some(data) <==>
      0 < |data| <= U32_SPAN - s.v.g.blockSize || (data == [] && UsesExtents(s.Ino(n)) && HasHeader(s.Ino(n)))
  {
    hide LookupIn, Flat, InodeBlocks, BlocksNeeded, RegionsApart, RegionsOnDisk, UsesExtents, HasHeader, ReadSlice,
      ExtentsFit;
    ContentExactly(t, n, data, max, UsesExtents(s.Ino(n)) && HasHeader(s.Ino(n)));
  }

  lemma ContentExactly(t: Image, n: nat, data: seq<byte>, max: nat, had: bool)
    requires Readable(t) && n in t.live && t.InodeOk(n) && FileSize(t.Ino(n)) == |data|
    requires |data| < U32_SPAN && |data| <= max
    requires BlocksNeeded(t.v.g, |data|) == 0 ==> (UsesExtents(t.Ino(n)) && HasHeader(t.Ino(n)) <==> had)
    requires BlocksNeeded(t.v.g, |data|) > 0 ==>
      UsesExtents(t.Ino(n)) && HasHeader(t.Ino(n)) && ReadSlice(Flat(t.d, t.Blocks(n)), 0, |data|) == data
    ensures Content(t, n, max) == Some(data) <==>
      0 < |data| <= U32_SPAN - t.v.g.blockSize || (data == [] && had)
  {
    hide LookupIn, Flat, InodeBlocks, BlocksNeeded, RegionsApart, RegionsOnDisk, UsesExtents, HasHeader, ReadSlice,
      ExtentsFit;
    NeededFits(t.v.g, |data|);
    if BlocksNeeded(t.v.g, |data|) == 0 && data != [] {
      HugeFileIsCut(t, n, max);
    }
  }

  /** A size that wraps around is larger than any file the extents of one inode can hold. */
  lemma HugeFileIsCut(t: Image, n: nat, max: nat)
    requires Readable(t) && n in t.live
    ensures Content(t, n, max).Some? ==> |Content(t, n, max).value| <= 4 * 0x7FFF * t.v.g.blockSize
  {
    assert t.InodeOk(n);
    hide Flat, ExtentList, BlockList, RegionsApart, RegionsOnDisk, Image.DescsOk;
    FlatLength(t.d, t.Blocks(n), t.v.g.blockSize);
    BlockListBound(ExtentList(t.Ino(n)), 0x7FFF);
    PosMonotone(|t.Blocks(n)|, 4 * 0x7FFF, t.v.g.blockSize);
  }

  /** A file under a name of more than 255 bytes can never be read, whatever the image. */
  lemma LongNameUnreadable(t: Image, path: seq<byte>, max: nat)
    requires Readable(t) && Addressable(path) && 255 < |NameOf(path)|
    ensures ReadBack(t, path, max).None?
  {
    var comps := Components(ParentString(HeadOf(path)));
    AddressAgrees(path);
    ResolveSnoc(t, ROOT, comps, NameOf(path));
    var p := t.Resolve(ROOT, comps);
    if p.Some? && p.value.inode in t.live {
      LongNameNotFound(t, p.value.inode, NameOf(path));
    }
  }

  /** A write of `size` bytes to `path` can succeed: the parent is a directory, and either the
      file is there and can store the data, or there are an inode, room for the name and, if
      any block is needed, a run of free blocks of a length an extent can record. */
  ghost predicate CanWrite(s: Image, path: seq<byte>, size: nat)
    requires Readable(s)
  {
    match Parent(s, path)
    case None => false
    case Some(dir) =>
      match Existing(s, path)
      case Some(e) => e.inode in s.live && CanStore(s, e.inode, size)
      case None => HasInode(s) && HasRoom(s, dir.inode, |NameOf(path)|) && HasRun(s, BlocksNeeded(s.v.g, size))
  }

  ghost predicate HasRun(s: Image, needed: nat)
    requires DiskOk(s.v, s.d)
  {
    needed == 0 || (needed < 0x8000 && !NoRunBelow(s.BlockBits(), needed, s.v.g.blocksPerGroup))
  }

  /** At most inode `n` became live, and if it did, it was claimed for this. */
  ghost predicate LiveGrew(s: Image, t: Image, n: nat) {
    t.live == s.live || (t.live == s.live + {n} && n !in s.live && ClaimedInode(s, t, n))
  }

  /** No name but that of `path` and no regular file but `n` can look different. */
  ghost predicate OthersKept(s: Image, t: Image, path: seq<byte>, n: nat)
    requires Readable(s)
  {
    match Parent(s, path)
    case None => t == s
    case Some(dir) => LookupsKept(s, t, dir.inode, NewName(path)) && FilesKept(s, t, n)
  }

  /** Everything a write does, whether it succeeds (`ok`) or not, whether all device requests
      succeeded (`clean`) or not, and whether all writes of the descriptor did (`booked`). */
  ghost predicate Wrote(s: Image, t: Image, path: seq<byte>, n: nat, data: seq<byte>, ok: bool, clean: bool,
        booked: bool) {
    && Readable(s) && s.v == t.v && t.Sound()
    && LiveGrew(s, t, n)
    && BlockBitsClaimed(s, t, BlocksNeeded(s.v.g, |data|))
    && Counted(s, t, booked) && (clean ==> booked)
    && (Parent(s, path).None? ==> !ok && t == s)
    && (n in s.live ==> StoredIn(s, t, path, n, data, ok))
    && (ok && n !in s.live ==> InodeNum(s.v, n) && NewFile(s, t, n, |data|))
    && (ok && Traceable(s, t, path, n) && |NameOf(path)| <= 255 ==> Written(s, t, path, n, data))
    && (!HitsDirectory(s, path, n) ==> (t.Valid() <==> Enterable(path) || t.live == s.live))
    && (!HitsDirectory(s, path, n) && t.Valid() ==> OthersKept(s, t, path, n) && NamesBooked(s, t, path, n))
    && (clean ==> WroteClean(s, t, path, n, data, ok))
  }

  /** No file was created under a name that existed. For a name of up to 255 bytes only a failed
      read during the lookup can make the code take an existing name for a new one. */
  ghost predicate NoSecondName(s: Image, t: Image, path: seq<byte>) {
    Readable(s) && (t.live == s.live || Clash(s, path).None?)
  }

  /** An existing file was not taken for a missing one. */
  ghost predicate LookupHeld(s: Image, t: Image, path: seq<byte>) {
    |NameOf(path)| <= 255 ==> NoSecondName(s, t, path)
  }

  /** The path is not looked up in the inode written, and an existing file was not taken for a
      missing one. */
  ghost predicate Traceable(s: Image, t: Image, path: seq<byte>, n: nat)
    requires Readable(s)
  {
    LookupHeld(s, t, path) && n !in PathLooks(s, path)
  }

  /** The write went to the existing inode `n`, a directory or not: nothing but that inode looks
      different, and after a success it holds the data. */
  ghost predicate StoredIn(s: Image, t: Image, path: seq<byte>, n: nat, data: seq<byte>, ok: bool)
    requires Readable(s)
  {
    && Existing(s, path).Some? && n == Existing(s, path).value.inode
    && Framed(s, t, n) && (ok ==> Holds(s, t, n, data)) && n in s.live && Placed(s, t, n, |data|, ok)
  }

  /** The record of a file created by the write, and the run claimed for it. */
  ghost predicate NewFile(s: Image, t: Image, n: nat, size: nat)
    requires DiskOk(s.v, s.d) && DiskOk(t.v, t.d) && s.v == t.v && InodeNum(s.v, n)
  {
    var needed := BlocksNeeded(s.v.g, size);
    && RecordAfter(NewInode(), t.Ino(n), size, needed, s.v.g.blockSize, 0 < needed)
    && (if needed == 0 then t.Blocks(n) == [] else OwnsRun(s, t, n, needed))
  }

  lemma CleanHeld(s: Image, t: Image, path: seq<byte>, n: nat, data: seq<byte>, ok: bool, booked: bool)
    requires Wrote(s, t, path, n, data, ok, true, booked)
    ensures LookupHeld(s, t, path)
  {
    hide CanWrite, OthersKept, LiveGrew, BlockBitsClaimed, NamesBooked, NoSecondName, Counted, Parent, Existing,
      AimsAtDirectory, Image.Sound, Image.DirsOk;
  }

  /** Without a second name, everything found stays found, names stay unique and a new file has the
      name that was entered; with one, names are no longer unique. */
  ghost predicate NamesBooked(s: Image, t: Image, path: seq<byte>, n: nat)
    requires Readable(s) && Readable(t)
  {
    && (NoSecondName(s, t, path) ==> Extends(s, t) && (s.NamesUnique() ==> t.NamesUnique()))
    && (NoSecondName(s, t, path) && t.live != s.live ==> HasNewName(s, t, path, n))
    && (!NoSecondName(s, t, path) ==> !t.NamesUnique())
  }

  ghost predicate HasNewName(s: Image, t: Image, path: seq<byte>, n: nat)
    requires Readable(s) && Readable(t)
  {
    && Parent(s, path).Some? && Parent(s, path).value.inode in t.live
    && t.Lookup(Parent(s, path).value.inode, NewName(path)) == Some(Entry(n, FT_REG_FILE, NewName(path)))
  }

  ghost predicate WroteClean(s: Image, t: Image, path: seq<byte>, n: nat, data: seq<byte>, ok: bool)
    requires Readable(s) && s.v == t.v && t.Sound()
  {
    && (ok <==> CanWrite(s, path, |data|))
    && LookupHeld(s, t, path)
    && (!ok && Existing(s, path).Some? && !RunTooLong(s, BlocksNeeded(s.v.g, |data|)) ==> t == s)
    && (if Existing(s, path).Some? then n == Existing(s, path).value.inode else n !in s.live)
    && (ok && Existing(s, path).None? ==> t.live == s.live + {n})
    && (!ok && Parent(s, path).Some? && Existing(s, path).None? && !RunTooLong(s, BlocksNeeded(s.v.g, |data|)) ==>
          LeftBehind(s, t, path, n))
    && (ok && BlocksNeeded(s.v.g, |data|) == 0 && AimsAtDirectory(s, path) ==> t.Valid())
  }

  /** What a write that finds no file and no fault leaves behind when it fails: nothing if no inode is
      free, a claimed inode in no directory if no record gives room to the name, else the new file,
      empty, because there is no run for its content. */
  ghost predicate LeftBehind(s: Image, t: Image, path: seq<byte>, n: nat)
    requires Readable(s) && s.v == t.v && t.Sound() && Parent(s, path).Some?
  {
    if !HasInode(s) then t == s
    else
      && InodeNum(t.v, n) && ClaimedInode(s, t, n) && t.Ino(n) == NewInode() && t.BlockBits() == s.BlockBits()
      && t.live == if HasRoom(s, Parent(s, path).value.inode, |NameOf(path)|) then s.live + {n} else s.live
  }

  /** There is a free run of the needed length, but no extent can record that length. */
  ghost predicate RunTooLong(s: Image, needed: nat)
    requires DiskOk(s.v, s.d)
  {
    0x8000 <= needed && !NoRunBelow(s.BlockBits(), needed, s.v.g.blocksPerGroup)
  }

  /** The inode keeps its blocks and its bytes from `size` on, and nothing is claimed. */
  ghost predicate KeepsPlace(s: Image, t: Image, n: nat, size: nat, ok: bool)
    requires DiskOk(s.v, s.d) && DiskOk(t.v, t.d) && s.v == t.v && InodeNum(s.v, n)
  {
    && t.Blocks(n) == s.Blocks(n) && t.BlockBits() == s.BlockBits() && CountersOf(t) == CountersOf(s)
    && (ok ==> SameBehind(s.d, t.d, s.Blocks(n), size))
  }

  ghost predicate SameBehind(d: Disk, e: Disk, blocks: seq<nat>, size: nat) {
    && OnDisk(d, blocks) && OnDisk(e, blocks) && |Flat(e, blocks)| == |Flat(d, blocks)|
    && forall i :: size <= i < |Flat(d, blocks)| ==> Flat(e, blocks)[i] == Flat(d, blocks)[i]
  }

  /** The inode has exactly the run that was claimed for it. */
  ghost predicate OwnsRun(s: Image, t: Image, n: nat, needed: nat)
    requires DiskOk(t.v, t.d) && InodeNum(t.v, n)
  {
    exists block :: ClaimedRun(s, t, block, needed) && t.Blocks(n) == Run(block, needed)
  }

  /** Content goes into the blocks the inode has if no block is needed or its first extent is long
      enough, else into a fresh run. The record is written last, with all else in it as it was. */
  ghost predicate Placed(s: Image, t: Image, n: nat, size: nat, ok: bool)
    requires DiskOk(s.v, s.d) && DiskOk(t.v, t.d) && s.v == t.v && InodeNum(s.v, n)
  {
    var needed := BlocksNeeded(s.v.g, size);
    var stays := needed == 0 || Reusable(s.Ino(n), needed);
    && (if stays then KeepsPlace(s, t, n, size, ok) else ok ==> OwnsRun(s, t, n, needed))
    && (if ok then RecordAfter(s.Ino(n), t.Ino(n), size, needed, s.v.g.blockSize, !stays) else t.Ino(n) == s.Ino(n))
  }

  /** What storing content in inode `n` is known to have done. */
  ghost predicate ContentStored(s: Image, t: Image, n: nat, data: seq<byte>, ok: bool, clean: bool) {
    && s.Sound() && t.Sound() && Framed(s, t, n) && n in s.live && |data| < U32_SPAN
    && IsDir(t.Ino(n)) == IsDir(s.Ino(n)) && t.InodeBits() == s.InodeBits()
    && BlockBitsClaimed(s, t, BlocksNeeded(s.v.g, |data|))
    && (ok ==> Holds(s, t, n, data)) && Placed(s, t, n, |data|, ok)
    && (clean ==>
          && (ok <==> CanStore(s, n, |data|))
          && (!ok && !RunTooLong(s, BlocksNeeded(s.v.g, |data|)) ==> t == s))
  }

  lemma DirtyStored(s: Image, t: Image, n: nat, data: seq<byte>, ok: bool)
    ensures ContentStored(s, t, n, data, ok, true) ==> ContentStored(s, t, n, data, ok, false)
  {
  }

  /** Nothing was found to write to. */
  lemma WroteNothing(s: Image, path: seq<byte>, n: nat, data: seq<byte>, clean: bool)
    requires s.Valid() && (clean ==> Parent(s, path).None?) && n !in s.live
    ensures Wrote(s, s, path, n, data, false, clean, true)
  {
    hide LookupIn, Image.Resolve, Image.DescsOk, RegionsApart, RegionsOnDisk, Image.Disjoint, Image.BitsOk,
      Image.DirsOk, Counted, Parent, Written, Image.NamesUnique, Enterable, Clash, CanStore, HasNewName, Holds;
    CountedSame(s, s);
  }

  /** Inode `n` was claimed and holds the record of an empty regular file. */
  ghost predicate InodeReady(s: Image, t: Image, n: nat) {
    DiskOk(t.v, t.d) && InodeNum(t.v, n) && ClaimedInode(s, t, n) && t.Ino(n) == NewInode()
  }

  /** A write that found no existing file and could not create one. */
  lemma WroteNoFile(s: Image, t: Image, path: seq<byte>, n: nat, data: seq<byte>, clean: bool, booked: bool)
    requires s.Valid() && t.Valid() && s.v == t.v && Parent(s, path).Some?
    requires NamesStay(s, t, n, Parent(s, path).value.inode, NewName(path)) && t.BlockBits() == s.BlockBits()
    requires Counted(s, t, booked) && (clean ==> booked)
    requires n !in s.live && (clean ==> Existing(s, path).None?)
    requires clean ==> !(HasInode(s) && HasRoom(s, Parent(s, path).value.inode, |NameOf(path)|))
    requires clean ==> if HasInode(s) then InodeReady(s, t, n) else t == s
    ensures Wrote(s, t, path, n, data, false, clean, booked)
  {
    hide LookupIn, Image.Resolve, Image.DescsOk, RegionsApart, RegionsOnDisk, Image.Disjoint, Image.BitsOk,
      Image.DirsOk, Counted, Parent, HasRoom, Image.NamesUnique, FilesKept, NewName, Written, Image.InodesOk,
      Enterable, NoSecondName;
    StaysExtended(s, t, n, Parent(s, path).value.inode, NewName(path));
    assert NoSecondName(s, t, path) by { SameLiveNoSecond(s, t, path); }
  }

  lemma SameLiveNoSecond(s: Image, t: Image, path: seq<byte>)
    requires Readable(s) && t.live == s.live
    ensures NoSecondName(s, t, path)
  {
  }

  lemma StaysExtended(s: Image, t: Image, n: nat, dir: nat, name: seq<byte>)
    requires NamesStay(s, t, n, dir, name)
    ensures Extends(s, t)
  {
    hide LookupIn, HasRoom, Image.NamesUnique, FilesKept;
  }

  /** Storing in an existing file keeps the image valid and all names, unless it is a directory. */
  lemma StoredKeeps(s: Image, t: Image, n: nat, data: seq<byte>, ok: bool, clean: bool, dir: nat, name: seq<byte>)
    requires s.Valid() && ContentStored(s, t, n, data, ok, clean) && !IsDir(s.Ino(n))
    ensures t.Valid() && LookupsKept(s, t, dir, name) && FilesKept(s, t, n)
    ensures Extends(s, t) && (s.NamesUnique() <==> t.NamesUnique())
  {
    hide LookupIn, Image.DescsOk, RegionsApart, RegionsOnDisk, Image.Disjoint, Image.BitsOk, Holds, CanStore,
      UniqueNames;
    FramedDirs(s, t, n);
    FramedKeepsNames(s, t, n, dir, name);
    NoInodeZero(s);
    FramedKeepsNames(s, t, n, 0, []);
  }

  /** The parent found, its target is live, a directory, and looked up as the source does. */
  lemma ParentFacts(s: Image, path: seq<byte>)
    requires s.Valid() && Parent(s, path).Some? && ParentLives(s, path)
    ensures var dir := Parent(s, path).value.inode;
            && dir in s.live && IsDir(s.Ino(dir)) && Existing(s, path) == s.Lookup(dir, NameOf(path))
    ensures Existing(s, path).Some? ==> s.EntryOk(Existing(s, path).value)
    ensures Addressable(path) && s.Resolve(ROOT, Components(ParentString(HeadOf(path)))) == Parent(s, path)
  {
    hide LookupIn, Image.DescsOk, RegionsApart, RegionsOnDisk, Image.Disjoint, Image.BitsOk, Image.DirsOk, Components,
      NameOf, HeadOf, Image.WalksLive, Image.Resolve;
    LookupOk(s, Parent(s, path).value.inode, NameOf(path));
  }

  /** In particular, walks through directories are fine. */
  lemma WalksAreLive(s: Image, path: seq<byte>)
    requires s.Valid() && ParentWalks(s, path)
    ensures ParentLives(s, path)
  {
    hide LookupIn, Image.DescsOk, RegionsApart, RegionsOnDisk, Image.Disjoint, Image.BitsOk, Image.DirsOk, Components,
      NameOf, HeadOf, Image.WalksDirs, Image.WalksLive, Image.Resolve;
    if Addressable(path) {
      var comps := Components(ParentString(HeadOf(path)));
      RootOk(s);
      DirsAreLive(s, ROOT, comps);
      if s.Resolve(ROOT, comps).Some? {
        SelfExtends(s);
        ResolveExtends(s, s, ROOT, comps);
      }
    }
  }

  lemma SelfExtends(s: Image)
    requires Readable(s)
    ensures Extends(s, s)
  {
  }

  /** On a later image that kept what was found outside `n`, a path that is not looked up in `n`
      leads to what its last name now has. */
  lemma PathLeads(s: Image, t: Image, path: seq<byte>, n: nat)
    requires s.Valid() && Parent(s, path).Some? && ParentLives(s, path)
    requires FoundBut(s, t, n) && n !in PathLooks(s, path)
    ensures Parent(s, path).value.inode in t.live && Parent(s, path).value.inode != n
    ensures t.Resolve(ROOT, Components(path)) ==
      match t.Lookup(Parent(s, path).value.inode, NameOf(path))
      case None => None
      case Some(e) => Some(Target(e.inode, e.kind))
  {
    hide LookupIn, Image.DescsOk, RegionsApart, RegionsOnDisk, Image.Disjoint, Image.BitsOk, Image.DirsOk, Components,
      NameOf, HeadOf, Image.WalksLive, Image.Lookup, Image.Resolve, LookedIn;
    var comps := Components(ParentString(HeadOf(path)));
    ParentFacts(s, path);
    AddressAgrees(path);
    LookedInSnoc(s, ROOT, comps, NameOf(path));
    ResolveAround(s, t, n, ROOT, comps);
    ResolveSnoc(t, ROOT, comps, NameOf(path));
    ResolveOne(t, Parent(s, path).value, NameOf(path));
  }

  /** Storing in a file, even in a directory, when no block is needed changes no block of it. */
  lemma StoredNothing(s: Image, t: Image, n: nat, data: seq<byte>, clean: bool)
    requires s.Valid() && ContentStored(s, t, n, data, true, clean) && BlocksNeeded(s.v.g, |data|) == 0
    ensures t.Valid()
  {
    hide LookupIn, Image.DescsOk, RegionsApart, RegionsOnDisk, Image.Disjoint, Image.BitsOk, CanStore, Image.DirOk,
      Holds, BlocksNeeded, BlockBitsClaimed;
    forall m | m in t.live
      ensures IsDir(t.Ino(m)) == IsDir(s.Ino(m))
      ensures IsDir(t.Ino(m)) ==> t.DirOk(m)
    {
      if m != n {
        assert SameView(s, t, m);
      }
      if IsDir(s.Ino(m)) {
        assert s.InodeOk(m) && t.InodeOk(m) && s.DirOk(m);
        SameBlocksDir(s, t, n, m, data);
      }
    }
  }

  lemma SameBlocksDir(s: Image, t: Image, n: nat, m: nat, data: seq<byte>)
    requires Framed(s, t, n) && Holds(s, t, n, data) && BlocksNeeded(s.v.g, |data|) == 0
    requires m in s.live && s.InodeOk(m) && t.InodeOk(m) && s.DirOk(m)
    ensures t.DirOk(m)
  {
    hide Image.DescsOk, RegionsApart, RegionsOnDisk, BlocksNeeded, Tiled, DirEntries, BitsGrow, Holds, SameView;
    SameBlocks(s, t, n, m, data);
    DirEntriesFrame(s.d, t.d, s.Blocks(m));
    EntriesStayOk(s, t, n, DirEntries(s.d, s.Blocks(m)));
  }

  lemma SameBlocks(s: Image, t: Image, n: nat, m: nat, data: seq<byte>)
    requires Framed(s, t, n) && Holds(s, t, n, data) && BlocksNeeded(s.v.g, |data|) == 0
    requires m in s.live && s.InodeOk(m) && t.InodeOk(m)
    ensures t.v == s.v && n in s.live && t.Blocks(m) == s.Blocks(m) && |t.d| == |s.d|
    ensures forall k :: 0 <= k < |s.Blocks(m)| ==> t.d[s.Blocks(m)[k]] == s.d[s.Blocks(m)[k]]
    ensures UsesExtents(t.Ino(m)) == UsesExtents(s.Ino(m)) && HasHeader(t.Ino(m)) == HasHeader(s.Ino(m))
    ensures IsDir(t.Ino(m)) == IsDir(s.Ino(m)) && IsDir(t.Ino(n)) == IsDir(s.Ino(n))
  {
    hide Image.DescsOk, RegionsApart, RegionsOnDisk, BlocksNeeded, BitsGrow;
    if m != n {
      assert SameView(s, t, m);
    }
  }

  lemma EntriesStayOk(s: Image, t: Image, n: nat, es: seq<Entry>)
    requires Framed(s, t, n) && n in s.live && IsDir(t.Ino(n)) == IsDir(s.Ino(n))
    requires forall e :: e in es ==> s.EntryOk(e)
    ensures forall e :: e in es ==> t.EntryOk(e)
  {
    hide Image.DescsOk, RegionsApart, RegionsOnDisk;
    forall e | e in es
      ensures t.EntryOk(e)
    {
      assert s.EntryOk(e);
      if e.inode != n {
        assert SameView(s, t, e.inode);
      }
    }
  }

  /** A write to an existing file. */
  lemma WroteExisting(s: Image, t: Image, path: seq<byte>, data: seq<byte>, ok: bool, clean: bool, booked: bool)
    requires s.Valid() && ParentLives(s, path) && Parent(s, path).Some? && Existing(s, path).Some?
    requires Existing(s, path).value.inode in s.live
    requires ContentStored(s, t, Existing(s, path).value.inode, data, ok, clean)
    requires Counted(s, t, booked) && (clean ==> booked)
    ensures Wrote(s, t, path, Existing(s, path).value.inode, data, ok, clean, booked)
  {
    hide LookupIn, Image.DescsOk, RegionsApart, RegionsOnDisk, Image.Disjoint, Image.BitsOk, Image.DirsOk, Counted,
      Parent, Existing, CanStore, Holds, Extends, LookupsKept, FilesKept, Written, SameView, Image.NamesUnique,
      BlocksNeeded, BitsGrow, BlockBitsClaimed, NoSecondName, Enterable, NewName, HasNewName, RunTooLong, Placed;
    var e := Existing(s, path).value;
    ParentFacts(s, path);
    FoundIsShort(s, path);
    SameLiveNoSecond(s, t, path);
    if ok && e.inode !in PathLooks(s, path) {
      WrittenExisting(s, t, path, data);
    }
    if e.kind != FT_DIR {
      StoredKeeps(s, t, e.inode, data, ok, clean, Parent(s, path).value.inode, NewName(path));
    } else if ok && BlocksNeeded(s.v.g, |data|) == 0 {
      StoredNothing(s, t, e.inode, data, clean);
    }
  }

  /** Only names of up to 255 bytes are ever found. */
  lemma FoundIsShort(s: Image, path: seq<byte>)
    requires s.Valid() && ParentLives(s, path) && Parent(s, path).Some? && Existing(s, path).Some?
    ensures |NameOf(path)| <= 255 && Enterable(path) && NewName(path) == NameOf(path)
  {
    hide Existing, LookupIn, ParentLives, Image.DirsOk, Image.Disjoint, Image.BitsOk;
    ParentFacts(s, path);
    if 255 < |NameOf(path)| {
      LongNameNotFound(s, Parent(s, path).value.inode, NameOf(path));
    }
    ShortName(s, path);
  }

  lemma WrittenExisting(s: Image, t: Image, path: seq<byte>, data: seq<byte>)
    requires s.Valid() && t.Sound() && ParentLives(s, path) && Parent(s, path).Some? && Existing(s, path).Some?
    requires Framed(s, t, Existing(s, path).value.inode) && Holds(s, t, Existing(s, path).value.inode, data)
    requires Existing(s, path).value.inode !in PathLooks(s, path)
    ensures Written(s, t, path, Existing(s, path).value.inode, data)
  {
    hide LookupIn, Image.DescsOk, RegionsApart, RegionsOnDisk, Image.Disjoint, Image.BitsOk, Image.DirsOk, Components,
      NameOf, BlocksNeeded, Flat, UsesExtents, HasHeader, BitsGrow, SameView, PathLooks;
    ParentFacts(s, path);
    FramedLookups(s, t, Existing(s, path).value.inode);
    PathLeads(s, t, path, Existing(s, path).value.inode);
  }

  /** A write to a file that had to be created first. */
  lemma WroteNew(s: Image, c: Image, t: Image, path: seq<byte>, n: nat, data: seq<byte>, ok: bool, clean: bool,
        booked: bool)
    requires s.Valid() && ParentLives(s, path) && Parent(s, path).Some? && c.Sound() && s.v == c.v
    requires n !in s.live && c.live == s.live + {n} && ClaimedInode(s, c, n) && c.BlockBits() == s.BlockBits()
    requires c.Ino(n) == NewInode() && Counted(s, t, booked) && (clean ==> booked)
    requires NewName(path) != [] ==> c.Valid() && Created(s, c, n, Parent(s, path).value.inode, NewName(path))
    requires NewName(path) == [] ==>
      Torn(c, Parent(s, path).value.inode) && IsDir(c.Ino(Parent(s, path).value.inode))
    requires ContentStored(c, t, n, data, ok, clean)
    requires clean ==> Existing(s, path).None? && HasInode(s) && HasRoom(s, Parent(s, path).value.inode, |NameOf(path)|)
    ensures Wrote(s, t, path, n, data, ok, clean, booked)
  {
    hide LookupIn, Image.DescsOk, RegionsApart, RegionsOnDisk, Image.Disjoint, Image.BitsOk, Image.DirsOk, Counted,
      Parent, Existing, Holds, Extends, LookupsKept, FilesKept, Written, SameView, Image.NamesUnique, BlocksNeeded,
      BitsGrow, HasRoom, NewInode, CanStore, ClaimedRun, NewName, Clash, Torn, HasNewName, Enterable;
    ParentFacts(s, path);
    ClaimsCarry(s, c, t, n, BlocksNeeded(s.v.g, |data|));
    if ok {
      NewPlaced(s, c, t, n, |data|);
    }
    NewCanStore(s, c, n, |data|);
    NewInodeFacts();
    EnterableNames(s, path);
    if NewName(path) != [] {
      StoredKeeps(c, t, n, data, ok, clean, Parent(s, path).value.inode, NewName(path));
      NewKept(s, c, t, path, n);
      NewBooked(s, c, t, path, n, data, ok);
    } else {
      TornStays(c, t, n, Parent(s, path).value.inode);
      TornIsInvalid(t, Parent(s, path).value.inode);
    }
  }

  lemma EnteredShort(name: seq<byte>)
    ensures |name| <= 255 ==> EnteredName(name) == name
    ensures EnteredName(name) != [] <==> |name| % 256 != 0
  {
  }

  lemma EnterableNames(s: Image, path: seq<byte>)
    requires Readable(s) && Addressable(path)
    ensures NewName(path) != [] <==> Enterable(path)
    ensures NewName(path) == [] ==> 255 < |NameOf(path)|
    ensures |NameOf(path)| <= 255 ==> Clash(s, path) == Existing(s, path)
  {
    hide NameOf, Parent, EnteredName, Readable, Image.Lookup, HeadOf;
    EnteredShort(NameOf(path));
  }

  lemma NewBooked(s: Image, c: Image, t: Image, path: seq<byte>, n: nat, data: seq<byte>, ok: bool)
    requires s.Valid() && t.Sound() && ParentLives(s, path) && Parent(s, path).Some? && NewName(path) != []
    requires Created(s, c, n, Parent(s, path).value.inode, NewName(path))
    requires Extends(c, t) && (c.NamesUnique() <==> t.NamesUnique()) && n !in s.live && t.live == s.live + {n}
    requires ok ==> Holds(c, t, n, data) && c.v == s.v && c.Ino(n) == NewInode()
    requires FilesKept(s, t, n)
    ensures NamesBooked(s, t, path, n)
    ensures ok && Traceable(s, t, path, n) && |NameOf(path)| <= 255 ==> Written(s, t, path, n, data)
  {
    hide LookupIn, Image.DescsOk, RegionsApart, RegionsOnDisk, Image.Disjoint, Image.BitsOk, Image.DirsOk, Parent,
      Existing, Holds, Extends, LookupsKept, FilesKept, Written, Image.NamesUnique, BlocksNeeded, NewInode, NewName;
    ParentFacts(s, path);
    EnterableNames(s, path);
    assert Clash(s, path) == s.Lookup(Parent(s, path).value.inode, NewName(path));
    if Clash(s, path).None? {
      NewExtends(s, c, t, path, n);
      if ok && |NameOf(path)| <= 255 && n !in PathLooks(s, path) {
        ShortName(s, path);
        WrittenNew(s, c, t, path, n, data);
      }
    }
  }

  lemma NewKept(s: Image, c: Image, t: Image, path: seq<byte>, n: nat)
    requires Readable(s) && Parent(s, path).Some?
    requires Created(s, c, n, Parent(s, path).value.inode, NewName(path))
    requires LookupsKept(c, t, Parent(s, path).value.inode, NewName(path)) && FilesKept(c, t, n)
    ensures OthersKept(s, t, path, n)
  {
    hide LookupIn, Parent, NewName, Image.NamesUnique;
    LookupsTrans(s, c, t, Parent(s, path).value.inode, NewName(path));
    FilesTrans(s, c, t, n);
  }

  /** What was claimed at creation and what was claimed for the data add up. */
  lemma ClaimsCarry(s: Image, c: Image, t: Image, n: nat, needed: nat)
    requires DiskOk(s.v, s.d) && DiskOk(c.v, c.d) && DiskOk(t.v, t.d) && s.v == c.v == t.v
    requires ClaimedInode(s, c, n) && c.BlockBits() == s.BlockBits() && t.InodeBits() == c.InodeBits()
    requires BlockBitsClaimed(c, t, needed)
    ensures ClaimedInode(s, t, n) && BlockBitsClaimed(s, t, needed)
  {
    if t.BlockBits() != c.BlockBits() {
      var block :| ClaimedRun(c, t, block, needed);
      assert ClaimedRun(s, t, block, needed);
    }
  }

  lemma NewPlaced(s: Image, c: Image, t: Image, n: nat, size: nat)
    requires DiskOk(s.v, s.d) && DiskOk(c.v, c.d) && DiskOk(t.v, t.d) && s.v == c.v == t.v
    requires InodeNum(s.v, n) && c.BlockBits() == s.BlockBits() && c.Ino(n) == NewInode()
    requires Placed(c, t, n, size, true)
    ensures NewFile(s, t, n, size)
  {
    hide NewInode, BlocksNeeded, RecordAfter, SameBehind, ClearRun, SetsRun, InodeBlocks;
    NewInodeFacts();
    if BlocksNeeded(s.v.g, size) > 0 {
      var needed := BlocksNeeded(s.v.g, size);
      var block :| ClaimedRun(c, t, block, needed) && t.Blocks(n) == Run(block, needed);
      assert ClaimedRun(s, t, block, needed);
    }
  }

  lemma NewCanStore(s: Image, c: Image, n: nat, size: nat)
    requires DiskOk(s.v, s.d) && DiskOk(c.v, c.d) && s.v == c.v && InodeNum(c.v, n)
    requires c.Ino(n) == NewInode() && c.BlockBits() == s.BlockBits()
    ensures CanStore(c, n, size) == HasRun(s, BlocksNeeded(s.v.g, size))
  {
    hide NewInode, NoRunBelow, BlocksNeeded;
    NewInodeFacts();
  }

  /** Creation only added a name that was not there, so everything found stays found. */
  lemma NewExtends(s: Image, c: Image, t: Image, path: seq<byte>, n: nat)
    requires Readable(s) && Parent(s, path).Some? && Clash(s, path).None?
    requires Created(s, c, n, Parent(s, path).value.inode, NewName(path))
    requires Clash(s, path) == s.Lookup(Parent(s, path).value.inode, NewName(path))
    requires IsDir(s.Ino(Parent(s, path).value.inode))
    requires Extends(c, t) && (c.NamesUnique() ==> t.NamesUnique())
    ensures Extends(s, t) && (s.NamesUnique() ==> t.NamesUnique())
    ensures HasNewName(s, t, path, n)
  {
    hide LookupIn, Parent, NewName, Clash, Image.NamesUnique;
  }

  lemma WrittenNew(s: Image, c: Image, t: Image, path: seq<byte>, n: nat, data: seq<byte>)
    requires s.Valid() && t.Sound() && ParentLives(s, path) && Parent(s, path).Some? && Existing(s, path).None?
    requires Extends(s, t) && FilesKept(s, t, n) && n !in s.live && n !in PathLooks(s, path)
    requires Holds(c, t, n, data) && c.v == s.v && c.Ino(n) == NewInode()
    requires t.Lookup(Parent(s, path).value.inode, NameOf(path)) == Some(Entry(n, FT_REG_FILE, NameOf(path)))
    ensures Written(s, t, path, n, data)
  {
    hide LookupIn, Image.DescsOk, RegionsApart, RegionsOnDisk, Image.Disjoint, Image.BitsOk, Image.DirsOk, Components,
      NameOf, BlocksNeeded, Flat, UsesExtents, HasHeader, NewInode;
    NewInodeFacts();
    NewFound(s, t, n);
    PathLeads(s, t, path, n);
  }

  lemma NewFound(s: Image, t: Image, n: nat)
    requires Extends(s, t) && FilesKept(s, t, n)
    ensures FoundBut(s, t, n)
  {
    hide Image.DescsOk, RegionsApart, RegionsOnDisk, DirEntries, FindEntry;
    forall m, x | m in s.live && m != n && s.Lookup(m, x).Some?
      ensures t.Lookup(m, x) == s.Lookup(m, x)
    {
      if !IsDir(s.Ino(m)) {
        assert SameView(s, t, m) && s.InodeOk(m) && t.InodeOk(m);
        SameViewDir(s, t, m);
      }
    }
  }

  /** Without a device fault, a caller can tell before the write whether the path will be traceable. */
  lemma CleanTraceable(s: Image, t: Image, path: seq<byte>, n: nat, data: seq<byte>, ok: bool, booked: bool)
    requires Wrote(s, t, path, n, data, ok, true, booked)
    ensures Traceable(s, t, path, n) <==>
      Existing(s, path).None? || Existing(s, path).value.inode !in PathLooks(s, path)
  {
    hide CanWrite, OthersKept, LiveGrew, BlockBitsClaimed, NamesBooked, NoSecondName, Counted, Parent, Existing,
      HitsDirectory, StoredIn, Written, Image.Sound, Image.DirsOk, LookedIn, Components;
    CleanHeld(s, t, path, n, data, ok, booked);
    LookedInLive(s, ROOT, Components(path));
  }

  /** After a successful write to any target, whatever device requests failed on the way, a read
      returns the data if and only if the condition checked on the image before the write holds, as
      long as the path is not looked up in the inode written and no second name was entered. */
  lemma WriteThenRead(s: Image, t: Image, path: seq<byte>, n: nat, data: seq<byte>, max: nat, clean: bool,
        booked: bool)
    requires Wrote(s, t, path, n, data, true, clean, booked) && |data| < U32_SPAN && |data| <= max
    requires Traceable(s, t, path, n)
    ensures ReadBack(t, path, max) == Some(data) <==> RoundTrips(s, path, |data|)
  {
    hide Written, RoundTrips, ReadBack, LiveGrew, OthersKept, BlockBitsClaimed, Counted, WroteClean, NoSecondName,
      HasNewName, Extends, AimsAtDirectory, Existing, NameOf, Image.NamesUnique, Image.DirsOk, Image.Disjoint,
      Image.BitsOk, Image.DescsOk, StoredIn, NamesBooked;
    RoundTrip(s, t, path, n, data, max);
  }

  /** What reads of the path return on `t`: the data exactly if it can be read back, and then for a
      buffer of any length what fits of it. */
  ghost predicate ReadsAs(s: Image, t: Image, path: seq<byte>, data: seq<byte>) {
    && Readable(s) && Readable(t)
    && (forall max: nat :: |data| <= max ==>
          (ReadBack(t, path, max) == Some(data) <==> RoundTrips(s, path, |data|)))
    && (RoundTrips(s, path, |data|) ==>
          forall max: nat :: ReadBack(t, path, max) == Some(data[..Min(|data|, max)]))
  }

  /** After a traceable success every read returns what `ReadsAs` says. */
  lemma WroteReadsAs(s: Image, t: Image, path: seq<byte>, n: nat, data: seq<byte>, clean: bool, booked: bool)
    requires Wrote(s, t, path, n, data, true, clean, booked) && |data| < U32_SPAN && Traceable(s, t, path, n)
    ensures ReadsAs(s, t, path, data)
  {
    hide Wrote, RoundTrips, ReadBack, Traceable;
    WroteReadable(s, t, path, n, data, true, clean, booked);
    forall max: nat | |data| <= max
      ensures ReadBack(t, path, max) == Some(data) <==> RoundTrips(s, path, |data|)
    {
      WriteThenRead(s, t, path, n, data, max, clean, booked);
    }
    if RoundTrips(s, path, |data|) {
      forall max: nat
        ensures ReadBack(t, path, max) == Some(data[..Min(|data|, max)])
      {
        var all := if |data| <= max then max else |data|;
        assert ReadBack(t, path, all) == Some(data);
        ReadCut(t, path, max, all);
      }
    }
  }

  lemma WroteReadable(s: Image, t: Image, path: seq<byte>, n: nat, data: seq<byte>, ok: bool, clean: bool, booked: bool)
    requires Wrote(s, t, path, n, data, ok, clean, booked)
    ensures Readable(s) && Readable(t)
  {
    hide Written, RoundTrips, LiveGrew, OthersKept, BlockBitsClaimed, Counted, WroteClean, NamesBooked, StoredIn,
      Traceable, NewFile, HitsDirectory;
  }

  /** The first data block of every ext4 volume: the one behind the boot block of small blocks. */
  predicate UsualLayout(g: Geometry) {
    g.firstDataBlock == if g.blockSize == 1024 then 1 else 0
  }

  /** In the usual layout the superblock takes the first block of group 0, so no run is too long. */
  lemma NoRunTooLong(s: Image, needed: nat)
    requires s.Sound() && UsualLayout(s.v.g)
    ensures !RunTooLong(s, needed)
  {
    hide Bit, RegionsApart, RegionsOnDisk, Image.Disjoint, Image.DescsOk, Image.InodesOk;
    assert Within(s.v, Super) && At(s.v, Super) == s.v.g.firstDataBlock;
    assert s.Marked(At(s.v, Super)) && Bit(s.BlockBits(), 0);
  }

  /** In the usual layout an overwrite that fails without a device fault changes nothing at all. */
  lemma FailedOverwrite(s: Image, t: Image, path: seq<byte>, n: nat, data: seq<byte>, booked: bool)
    requires Wrote(s, t, path, n, data, false, true, booked) && s.Sound() && Existing(s, path).Some?
    requires UsualLayout(s.v.g)
    ensures t == s
  {
    hide CanWrite, OthersKept, LiveGrew, BlockBitsClaimed, NamesBooked, LookupHeld, Counted, Existing, RunTooLong,
      AimsAtDirectory, Image.Sound, Image.DirsOk;
    NoRunTooLong(s, BlocksNeeded(s.v.g, |data|));
  }
}
