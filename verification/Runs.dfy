/** Whole runs of writes: allocation safety at every point, and the last successful write to a
    file is what every later read returns (fs/ext4/ext4.c). */
module Runs {
  import opened Bytes
  import opened Bitmap
  import opened Storage
  import opened Volume
  import opened Extents
  import opened DirBlock
  import opened Image
  import opened Names
  import opened Paths
  import opened Counts
  import opened Files
  import opened Results

  /** One call of the write operation: its arguments, the inode it worked on, its result, whether no
      device request failed, and whether no write of the descriptor did. */
  datatype Write = Write(path: seq<byte>, data: seq<byte>, inode: nat, ok: bool, clean: bool, booked: bool)

  ghost predicate Step(s: Image, t: Image, w: Write) {
    && s.Valid() && ParentLives(s, w.path) && |w.data| < U32_SPAN
    && Wrote(s, t, w.path, w.inode, w.data, w.ok, w.clean, w.booked)
  }

  /** The write stored nothing in a directory, and it created no file of whose name nothing is
      entered. */
  ghost predicate Harmless(s: Image, t: Image, w: Write) {
    Readable(s) && !HitsDirectory(s, w.path, w.inode) && (Enterable(w.path) || t.live == s.live)
  }

  /** A run: `images[i + 1]` is what write `i` made of `images[i]`. Each write finds a valid image, as
      the operation demands; what the last one leaves may be any. */
  ghost predicate Chain(images: seq<Image>, writes: seq<Write>) {
    && |images| == |writes| + 1 && images[0].Valid()
    && forall i :: 0 <= i < |writes| ==> Step(images[i], images[i + 1], writes[i])
  }

  /** A run of harmless writes. */
  ghost predicate History(images: seq<Image>, writes: seq<Write>) {
    Chain(images, writes) && forall i :: 0 <= i < |writes| ==> Harmless(images[i], images[i + 1], writes[i])
  }

  lemma StepSound(s: Image, t: Image, w: Write)
    requires Step(s, t, w)
    ensures t.Sound() && t.v == s.v && s.live <= t.live
  {
    hide Image.Sound, Image.DirsOk, HitsDirectory, Enterable, Counted, BlockBitsClaimed, WroteClean, OthersKept,
      NamesBooked, ParentLives, Parent, Traceable, StoredIn, Written, ClaimedInode;
  }

  lemma ChainSound(images: seq<Image>, writes: seq<Write>, i: nat)
    requires Chain(images, writes) && i < |images|
    ensures images[i].Sound()
  {
    hide Wrote, Image.Sound;
    if 0 < i {
      assert Step(images[i - 1], images[i], writes[i - 1]);
      StepSound(images[i - 1], images[i], writes[i - 1]);
    }
  }

  /** Over a run of harmless writes every image is valid, so the next write can always be made. */
  lemma RunIsValid(images: seq<Image>, writes: seq<Write>, i: nat)
    requires History(images, writes) && i < |images|
    ensures images[i].Valid()
  {
    hide Wrote, OthersKept, NamesBooked, Harmless;
    if 0 < i {
      assert Step(images[i - 1], images[i], writes[i - 1]) && Harmless(images[i - 1], images[i], writes[i - 1]);
      HarmlessStep(images[i - 1], images[i], writes[i - 1]);
    }
  }

  /** What a harmless step does. */
  lemma HarmlessStep(s: Image, t: Image, w: Write)
    requires Step(s, t, w) && Harmless(s, t, w)
    ensures t.Valid() && t.v == s.v && s.live <= t.live && (w.ok ==> Parent(s, w.path).Some?)
    ensures OthersKept(s, t, w.path, w.inode) && NamesBooked(s, t, w.path, w.inode)
  {
    hide Image.Sound, Image.DirsOk, AimsAtDirectory, Enterable, Counted, BlockBitsClaimed, WroteClean, OthersKept,
      NamesBooked, ParentLives, Parent;
  }

  /** Over any run of any writes, to directories too, faults or not: metadata blocks and the blocks of
      live inodes stay marked, no two live inodes share a block, and live inodes stay live. */
  lemma {:induction false} RunIsSafe(images: seq<Image>, writes: seq<Write>, i: nat, j: nat)
    requires Chain(images, writes) && i <= j < |images|
    ensures images[j].Sound() && images[j].v == images[i].v && images[i].live <= images[j].live
    decreases j
  {
    hide Wrote, Image.Sound;
    ChainSound(images, writes, j);
    if i < j {
      RunIsSafe(images, writes, i, j - 1);
      assert Step(images[j - 1], images[j], writes[j - 1]);
      StepSound(images[j - 1], images[j], writes[j - 1]);
    }
  }

  lemma StepBitsGrow(s: Image, t: Image, w: Write, b: nat)
    requires Step(s, t, w) && b < s.v.g.blocksPerGroup && Bit(s.BlockBits(), b)
    ensures t.v == s.v && t.Sound() && Bit(t.BlockBits(), b)
  {
    hide WroteClean, OthersKept, LiveGrew, Image.Disjoint, Image.BitsOk, Image.DescsOk, Image.DirsOk;
    var needed := BlocksNeeded(s.v.g, |w.data|);
    if t.BlockBits() != s.BlockBits() {
      var block :| ClaimedRun(s, t, block, needed);
    }
  }

  lemma {:induction false} RunBitsGrow(images: seq<Image>, writes: seq<Write>, i: nat, j: nat, b: nat)
    requires Chain(images, writes) && i <= j < |images| && images[i].Sound()
    requires b < images[i].v.g.blocksPerGroup && Bit(images[i].BlockBits(), b)
    ensures images[j].v == images[i].v && images[j].Sound() && Bit(images[j].BlockBits(), b)
    decreases j
  {
    hide Wrote, Image.Sound, Bit;
    if i < j {
      RunBitsGrow(images, writes, i, j - 1, b);
      assert Step(images[j - 1], images[j], writes[j - 1]);
      StepBitsGrow(images[j - 1], images[j], writes[j - 1], b);
    }
  }

  /** No block is handed out twice: the runs claimed by two writes of a run have no block in common. */
  lemma RunsDisjoint(images: seq<Image>, writes: seq<Write>, i: nat, j: nat, p: nat, m: nat, q: nat, n: nat)
    requires Chain(images, writes) && i < j < |writes|
    requires ClaimedRun(images[i], images[i + 1], p, m) && ClaimedRun(images[j], images[j + 1], q, n)
    ensures p + m <= q || q + n <= p
  {
    hide Wrote, Image.Disjoint, Image.BitsOk, Image.DescsOk, Image.DirsOk, Bit;
    ChainSound(images, writes, i + 1);
    ChainSound(images, writes, j);
    RunIsSafe(images, writes, i + 1, j);
    var first := images[i].v.g.firstDataBlock;
    if q < p + m && p < q + n {
      var b := if p <= q then q else p;
      assert Bit(images[i + 1].BlockBits(), b - first);
      RunBitsGrow(images, writes, i + 1, j, b - first);
    }
  }

  /** No inode becomes live twice, and one that does was not live before. */
  lemma NewInodesDiffer(images: seq<Image>, writes: seq<Write>, i: nat, j: nat)
    requires Chain(images, writes) && i < j < |writes|
    requires images[i + 1].live != images[i].live && images[j + 1].live != images[j].live
    ensures writes[i].inode != writes[j].inode
    ensures writes[j].inode !in images[j].live && ClaimedInode(images[j], images[j + 1], writes[j].inode)
  {
    hide Wrote, ClaimedInode, Image.Sound;
    assert Step(images[i], images[i + 1], writes[i]) && Step(images[j], images[j + 1], writes[j]);
    StepGrew(images[i], images[i + 1], writes[i]);
    StepGrew(images[j], images[j + 1], writes[j]);
    RunIsSafe(images, writes, i + 1, j);
  }

  lemma StepGrew(s: Image, t: Image, w: Write)
    requires Step(s, t, w) && t.live != s.live
    ensures t.live == s.live + {w.inode} && w.inode !in s.live && ClaimedInode(s, t, w.inode)
  {
    hide WroteClean, OthersKept, NamesBooked, Image.Sound, Image.DirsOk, BlockBitsClaimed, ClaimedInode, Counted,
      Written, StoredIn, Traceable, HitsDirectory;
  }

  /** `path` leads through directories to regular file `n`. */
  ghost predicate Leads(s: Image, path: seq<byte>, n: nat)
    requires Readable(s)
  {
    && path != [] && path[0] == SLASH
    && s.Resolve(ROOT, Components(path)) == Some(Target(n, FT_REG_FILE))
    && s.WalksDirs(ROOT, Components(path))
  }

  /** A write to another inode that enters no second name, whether it succeeds or not and whatever
      device requests fail, leaves what every path reads exactly as it was. */
  lemma OthersUntouched(s: Image, t: Image, w: Write, path: seq<byte>, n: nat, max: nat)
    requires Step(s, t, w) && NoSecondName(s, t, w.path) && Harmless(s, t, w)
    requires Leads(s, path, n) && n != w.inode
    ensures t.Valid() && Leads(t, path, n) && ReadBack(t, path, max) == ReadBack(s, path, max)
  {
    hide LookupIn, Components, Image.Disjoint, Image.BitsOk, Image.DescsOk, Image.DirsOk, RegionsApart, RegionsOnDisk,
      Content, Written, Parent, Harmless, Image.NamesUnique, Wrote, NoSecondName, HasNewName, OthersKept;
    HarmlessStep(s, t, w);
    RootOk(s);
    ResolveExtends(s, t, ROOT, Components(path));
    ContentKept(s, t, w, n, max);
  }

  lemma ContentKept(s: Image, t: Image, w: Write, n: nat, max: nat)
    requires Step(s, t, w) && Harmless(s, t, w) && n in s.live && !IsDir(s.Ino(n)) && n != w.inode
    ensures Readable(t) && n in t.live && Content(t, n, max) == Content(s, n, max)
  {
    hide LookupIn, Components, Image.Disjoint, Image.BitsOk, Image.DescsOk, Image.DirsOk, RegionsApart, RegionsOnDisk,
      Wrote, NamesBooked, Parent, Harmless, LookupsKept;
    HarmlessStep(s, t, w);
    assert s.InodeOk(n) && t.InodeOk(n);
    if t != s {
      assert SameView(s, t, n);
    }
    SameViewDir(s, t, n);
  }

  /** After a successful write whose data can be read back, its path leads to the inode. */
  lemma WriteLeads(s: Image, t: Image, w: Write, max: nat)
    requires Step(s, t, w) && NoSecondName(s, t, w.path) && w.ok && Harmless(s, t, w) && ParentWalks(s, w.path)
    requires RoundTrips(s, w.path, |w.data|) && |w.data| <= max
    ensures t.Valid() && Leads(t, w.path, w.inode) && ReadBack(t, w.path, max) == Some(w.data)
  {
    hide LookupIn, Components, Image.Disjoint, Image.BitsOk, Image.DescsOk, Image.DirsOk, RegionsApart, RegionsOnDisk,
      Content, Image.NamesUnique, NameOf, HeadOf, ReadBack, Wrote, NoSecondName, HasNewName, OthersKept, Existing,
      HitsDirectory, Enterable, PathLooks;
    HarmlessStep(s, t, w);
    ParentFacts(s, w.path);
    RootOk(s);
    AddressAgrees(w.path);
    var comps := Components(ParentString(HeadOf(w.path)));
    WalksSnoc(s, ROOT, comps, NameOf(w.path));
    NotLookedIn(s, t, w);
    WriteIsFound(s, t, w);
    WriteThenRead(s, t, w.path, w.inode, w.data, max, w.clean, w.booked);
    ResolveExtends(s, t, ROOT, comps);
    WalksSnoc(t, ROOT, comps, NameOf(w.path));
  }

  lemma WriteIsFound(s: Image, t: Image, w: Write)
    requires Step(s, t, w) && NoSecondName(s, t, w.path) && w.ok && w.inode !in PathLooks(s, w.path)
    requires RoundTrips(s, w.path, |w.data|)
    ensures t.Sound() && t.Resolve(ROOT, Components(w.path)) == Some(Target(w.inode, FT_REG_FILE))
  {
    hide LookupIn, Components, Image.Disjoint, Image.BitsOk, Image.DescsOk, Image.DirsOk, RegionsApart, RegionsOnDisk,
      NamesBooked, OthersKept, WroteClean, Existing, Counted, BlockBitsClaimed, Parent, StoredIn, NoSecondName,
      HitsDirectory, LiveGrew, PathLooks, BlocksNeeded, Image.Resolve, Flat;
  }

  /** A path through directories is not looked up in the regular file it was written to. */
  lemma NotLookedIn(s: Image, t: Image, w: Write)
    requires Step(s, t, w) && w.ok && s.WalksDirs(ROOT, Components(w.path))
    requires Existing(s, w.path).Some? ==> Existing(s, w.path).value.kind == FT_REG_FILE
    ensures w.inode !in PathLooks(s, w.path)
  {
    hide LookupIn, Components, Image.Disjoint, Image.BitsOk, Image.DescsOk, Image.DirsOk, RegionsApart, RegionsOnDisk,
      NamesBooked, OthersKept, WroteClean, Written, LookupHeld, Existing, Counted, BlockBitsClaimed, Parent, Holds,
      Framed;
    ParentFacts(s, w.path);
    RootOk(s);
    if w.inode in PathLooks(s, w.path) {
      LooksInDirs(s, ROOT, Components(w.path), w.inode);
    }
  }

  /** The write succeeded and its data can be read back. */
  ghost predicate Succeeds(s: Image, t: Image, w: Write, max: nat) {
    && Step(s, t, w) && w.ok && NoSecondName(s, t, w.path)
    && ParentWalks(s, w.path) && RoundTrips(s, w.path, |w.data|) && |w.data| <= max
  }

  /** The last write wins: what a successful write stored under a path is what reading that path
      returns after any number of later writes that worked on other inodes and entered no second
      name, even if device requests failed in between. */
  lemma {:induction false} LastWriteWins(images: seq<Image>, writes: seq<Write>, i: nat, k: nat, max: nat)
    requires History(images, writes) && i < k < |images| && Succeeds(images[i], images[i + 1], writes[i], max)
    requires forall j :: i < j < k ==>
      NoSecondName(images[j], images[j + 1], writes[j].path) && writes[j].inode != writes[i].inode
    ensures images[k].Valid() && Leads(images[k], writes[i].path, writes[i].inode)
    ensures ReadBack(images[k], writes[i].path, max) == Some(writes[i].data)
    decreases k
  {
    hide Wrote, ReadBack, Leads, RoundTrips, Harmless, ParentLives, ParentWalks, NoSecondName, Image.Disjoint,
      Image.BitsOk, Image.DescsOk, Image.DirsOk, Image.InodeOk, RegionsApart, RegionsOnDisk, DiskOk, InodeNum;
    if k == i + 1 {
      assert Step(images[i], images[k], writes[i]) && Harmless(images[i], images[k], writes[i]);
      WriteLeads(images[i], images[k], writes[i], max);
    } else {
      LastWriteWins(images, writes, i, k - 1, max);
      assert Step(images[k - 1], images[k], writes[k - 1]);
      OthersUntouched(images[k - 1], images[k], writes[k - 1], writes[i].path, writes[i].inode, max);
    }
  }

  /** Names stay unique exactly if no second name was entered. */
  lemma NamesStayUnique(s: Image, t: Image, w: Write)
    requires Step(s, t, w) && Harmless(s, t, w) && s.NamesUnique()
    ensures t.Valid() && (t.NamesUnique() <==> NoSecondName(s, t, w.path))
  {
    hide Wrote, OthersKept, Harmless, NoSecondName, HasNewName, Written, Extends, Image.NamesUnique, Image.Sound,
      Image.DirsOk;
    HarmlessStep(s, t, w);
  }

  /** Without a device fault, a caller can tell before a write that succeeds whether names will stay
      unique: they do unless a longer name is entered as one that is there. */
  lemma CleanNamesUnique(s: Image, t: Image, w: Write)
    requires Step(s, t, w) && Harmless(s, t, w) && s.NamesUnique() && w.clean && w.ok
    ensures t.Valid() && (t.NamesUnique() <==> |NameOf(w.path)| <= 255 || Clash(s, w.path).None?)
  {
    hide OthersKept, Written, Extends, Image.NamesUnique, Image.Sound, Image.DirsOk, StoredIn, NamesBooked,
      BlockBitsClaimed, Counted, Existing, Clash, Holds, CanWrite, HitsDirectory, Enterable, Parent;
    NamesStayUnique(s, t, w);
    HarmlessStep(s, t, w);
    if 255 < |NameOf(w.path)| && Existing(s, w.path).Some? {
      FoundIsShort(s, w.path);
    }
  }

  lemma {:induction false} RunKeepsNames(images: seq<Image>, writes: seq<Write>, k: nat)
    requires History(images, writes) && k < |images| && images[0].NamesUnique()
    requires forall j :: 0 <= j < k ==> NoSecondName(images[j], images[j + 1], writes[j].path)
    ensures images[k].Valid() && images[k].NamesUnique()
    decreases k
  {
    hide Wrote, Image.Valid, Image.NamesUnique, Harmless, NoSecondName;
    RunIsValid(images, writes, k);
    if 0 < k {
      RunKeepsNames(images, writes, k - 1);
      assert Step(images[k - 1], images[k], writes[k - 1]);
      NamesStayUnique(images[k - 1], images[k], writes[k - 1]);
    }
  }

  /** At every point of any run that starts with counts that are not too low, the counts are exact if
      and only if they were exact at the start and no write of the group descriptor has failed. */
  lemma {:induction false} CountsExactly(images: seq<Image>, writes: seq<Write>, k: nat)
    requires Chain(images, writes) && k < |images| && CountsCover(images[0])
    ensures images[k].Sound() && CountsCover(images[k])
    ensures CountsOk(images[k]) <==> CountsOk(images[0]) && forall j :: 0 <= j < k ==> writes[j].booked
    decreases k
  {
    hide Image.Sound, CountsOk, CountsCover, Wrote;
    ChainSound(images, writes, k);
    if 0 < k {
      CountsExactly(images, writes, k - 1);
      assert Step(images[k - 1], images[k], writes[k - 1]);
      StepCounted(images[k - 1], images[k], writes[k - 1]);
    }
  }

  lemma StepCounted(s: Image, t: Image, w: Write)
    requires Step(s, t, w) && CountsCover(s)
    ensures t.Sound() && CountsCover(t) && (CountsOk(t) <==> CountsOk(s) && w.booked) && (w.clean ==> w.booked)
  {
    hide CountsOk, CountsCover, OthersKept, NamesBooked, WroteClean, LiveGrew, BlockBitsClaimed, Image.Sound,
      Image.DirsOk;
  }
}
