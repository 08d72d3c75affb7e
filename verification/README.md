# Verification of the Kagami OS storage, network and console code

A Dafny 4.11 model of the parts of Kagami OS in which a mistake costs data: the ext4 reader and
writer, the NVMe queue pair below it, the RTL8139 receive ring, the Internet checksum and the
dotted-quad codec, the keyboard ring and the shell's text editor. `dafny verify dfyconfig.toml`
checks everything.

## What is modelled

**ext4** (`Bytes`, `Bitmap`, `Storage`, `DirBlock`, `Volume`, `Extents`, `Image`, `Names`, `Counts`,
`Paths`, `Files`, `Results`, `Storing`, `Directories`, `Device`, `Ext4`, `Runs`). `Ext4.Ext4Fs` is the
mounted file system: its methods read whole blocks into array buffers, edit them in place and write them
back, with the branches of the source. It sits on a `BlockDevice` whose every request may fail; a failed
write changes nothing, and a ghost counter `faults` counts the failures. Each method is specified by the
`Image` (layout, disk, live inodes) before and after. `Image.Sound` is allocation safety (metadata and the
blocks of live inodes are marked, no block has two owners), `Image.Valid` adds well-formed directories.
The abstract view of an image is `Lookup`, `Resolve` and `ReadBack`. `Runs` is about sequences of writes
of any length. `Fresh` builds a freshly formatted volume byte by byte and proves that it meets the
invariant with exact counts and unique names (`Fresh.FreshIsValid`), so the assumptions below can be met
together.

**NVMe** (`NvmeQueue`, `Nvme`). `Controller` holds both rings and both sides of the protocol: the
driver's tail, head and phase, and a device that takes the next command, executes or refuses it and
posts a completion. The device may answer after any number of polls.

**RTL8139** (`RxRing`). Frames may come in between any two statements of a poll; which ones is a parameter
(`Line`), over which everything is quantified. The device drops a frame when the ring has no room.

**Checksum, IPv4 text** (`Checksum`, `Ipv4Text`), **keyboard** (`Keyboard`: the handler may run
between any two statements of a reader) and **editor** (`Editor`: the buffer edited in place against
a text with a cursor and against a list of lines, and sessions of any number of keys).

## What the code does not do

These came out of the proofs. Each is a theorem, named here, with the condition under which it is so.

* Take a successful write by a path that is not looked up in the inode written, and that entered no second
  name (`Results.Traceable`; without faults a caller can tell beforehand, `Results.CleanTraceable`). Its
  data is read back if and only if the name has at most 255 bytes, the target is new or a regular file,
  and the size is neither zero on a file without an extent header nor larger than 2^32 minus the block
  size, where rounding up to blocks wraps around (`Results.RoundTrip`, `Results.WriteThenRead`).
* Where the path is looked up in the directory it writes, as "/." is, that condition does not decide:
  `Fresh.FreshReadsDirectory` has a block that names the root as a regular file and is read back. Such a
  path leads wherever it leads on the old image with the new entries of the directory
  (`Directories.ReadAfter`); the entries in the data come first (`Directories.DataLeads`), and if it leads
  back as a regular file, the data is read exactly if the condition on the size holds
  (`Directories.ReadsThrough`).
* A name longer than 255 bytes is entered as its first bytes, as many as its length modulo 256
  (`DirBlock.SplitIsSplit`); the file is never found under the name it was given
  (`Results.LongNameUnreadable`), the name it got may be there already (`Fresh.LongNameClashes`), and if
  no byte is left the directory block is torn. Unless content was stored in a directory, the image stays
  valid exactly if a name was left or nothing was created (the clause on `Valid` in `Results.Wrote`).
* Writing to a directory succeeds and replaces its entries by the data (`Directories.DirectoryLost`,
  `Fresh.FreshDirectoryTarget`); paths that are not looked up in it read as before
  (`Directories.OtherPathsStay`). Every fault-free success leaves the image valid if and only if the path
  names no directory to which a block can be written, and either a name is left to enter or the path
  cannot be written at all (`Directories.SafeExactly`).
* After a write that keeps the image valid and stores nothing in a directory, names are still unique
  exactly if no file was created under a name that was there (`Runs.NamesStayUnique`). There are two ways
  to do so: a failed read during the lookup of the last name, which the code takes for "no such name",
  and, without any fault, a name longer than 255 bytes that is entered as one that is there
  (`Runs.CleanNamesUnique`; `Fresh.LongNameTwice` shows two such writes).
* A write that fails can leave something behind even without a fault: a claimed inode that is in no
  directory if no record had room for the name, or the new file, empty, if there was no run for its
  content. In the usual layout this is all, and in every other case nothing changes
  (`Storing.FailureLeaves`).
* Failures to write the group descriptor are ignored. In every run that starts with counts that are not
  too low (`Counts.CountsCover`), the counts are exact at a point if and only if they were exact at the
  start and no write of the descriptor has failed; failures of the superblock or of any other request do
  not matter (`Runs.CountsExactly`). Counts that are too low can become exact, because the guard against
  underflow skips the subtraction (`Counts.GuardMakesExact`: if and only if the count is below the claim
  and too low by just that much).
* The 32-bit byte count of an NVMe transfer wraps around; the transfer is complete exactly if it does not
  (`Nvme.MovesAllExactly`).
* A received frame longer than the caller's buffer moves the ring offset by what was copied, so the ring
  stays readable exactly if the cut does not change the rounded length. One flag stands for any number of
  frames: a poll leaves a frame waiting exactly if it had arrived before the flag was last cleared and
  nothing arrived since (both `RxRing.Ring.Poll`; `RxRing.StrandedFrame` shows it happen).
* The checksum is the complement of the folded sum if and only if the sum fits 32 bits
  (`Checksum.RightExactly`), which holds for any 65537 words and fails for one word more of all ones
  (`Checksum.NoOverflow`, `Checksum.OverflowIsWrong`). The stored checksum verifies in either case.
  Swapping the bytes of every word swaps the checksum if and only if the carries the two sums lose are
  each other's swaps and both sums come out as zero or neither (`Checksum.SwappedExactly`); it does as
  long as neither overflows, and does not for 65538 words of all ones (`Checksum.OverflowUnswaps`).

## Model

| member | source | states |
|---|---|---|
| Ext4.Ext4Fs.WriteFile | fs/ext4/ext4.c:787-923 | allocation safety is kept in any case; the change is `Wrote`; after any success by a `Traceable` path to any target, directories included, and whatever requests failed, reading the path returns the data if and only if `RoundTrips` held before, and then for a buffer of any length what fits of it |
| Ext4.Ext4Fs.WriteSteps | fs/ext4/ext4.c:787-923 | split, parent lookup and storing make exactly the change `Wrote` describes, with and without device faults, also through inodes on the way that are no directories; for an existing target of any kind nothing but its inode looks different, and it holds the data after a success |
| Ext4.Ext4Fs.WriteCreated | fs/ext4/ext4.c:845-922 | the part behind a lookup that found nothing: creation and storing compose to `Wrote`, also if that lookup was defeated by a fault |
| Ext4.Ext4Fs.ReadFile | fs/ext4/ext4.c:672-707 | returns what the path leads to in the image, cut at the buffer; without faults it fails exactly if there is nothing to read; the inodes on the way only have to be live |
| Ext4.Ext4Fs.CreateFile | fs/ext4/ext4.c:845-865 | a new live inode under the name, no other name or file changed; without faults it succeeds exactly if there is an inode and room, and a failure leaves nothing or a claimed, initialised inode that is not live |
| Ext4.Ext4Fs.PrepareInode | fs/ext4/ext4.c:845-860 | the claimed inode was the lowest free one, was not live, and holds the record of an empty regular file |
| Ext4.Ext4Fs.StoreContent | fs/ext4/ext4.c:867-922 | on success the inode holds the data, in its own blocks with bitmap and counts as they were if its first extent is long enough, else in a fresh run, and nothing else in its record changed; without faults success exactly if the data can be stored, and failing for lack of a run of any length changes nothing |
| Ext4.Ext4Fs.PlaceData | fs/ext4/ext4.c:875-916 | in place if the first extent is long enough, with bitmap, counts and the bytes behind the data as they were, else in a fresh run: the named blocks hold the data and no other inode owns them; if neither is possible nothing changes, even under faults |
| Ext4.Ext4Fs.WriteFresh | fs/ext4/ext4.c:891-915 | the header names exactly the run just claimed; succeeds without faults exactly if a run exists and its length fits 15 bits; if no run exists nothing changes |
| Ext4.Ext4Fs.FillRun | fs/ext4/ext4.c:897-914 | the new header names the run, and storing the data there works exactly if the run's length fits 15 bits |
| Ext4.Ext4Fs.AllocBlockRun | fs/ext4/ext4.c:453-509 | first fit: the lowest run of clear bits, exactly those bits set, none found exactly if none exists; both counts go down by the length, and stay exact if and only if the descriptor write did not fail |
| Ext4.Ext4Fs.AllocInode | fs/ext4/ext4.c:511-553 | the lowest clear bit, exactly that bit set; both counts go down by one, and stay exact if and only if the descriptor write did not fail |
| Ext4.Ext4Fs.TakeCounts | fs/ext4/ext4.c:487-498 | the descriptor counter goes down exactly if its write did not fail, the superblock counter unless a request for the superblock failed, whatever became of the descriptor, and nothing else the image means changes |
| Ext4.Ext4Fs.AddDirEntry | fs/ext4/ext4.c:555-618 | the first record with room in the first block with room is split; the entered name resolves to the new inode, all other lookups and files stay, or the block is torn if no byte of the name is left; without faults it succeeds exactly if a block has room |
| Ext4.Ext4Fs.InsertInBlock | fs/ext4/ext4.c:579-613 | one block: entered exactly if it has room, and nothing changed otherwise |
| Ext4.Ext4Fs.FindInDir | fs/ext4/ext4.c:359-403 | the first entry with the name over all blocks of the directory |
| Ext4.Ext4Fs.ResolvePath | fs/ext4/ext4.c:405-451 | the result of walking the list of nonempty components from the root, through live inodes of any kind |
| Ext4.Ext4Fs.ReadExtentBlocks | fs/ext4/ext4.c:254-304 | the slice of the flat file at any offset, cut at capacity, over any split into extents |
| Ext4.Ext4Fs.WriteExtentBlocks | fs/ext4/ext4.c:306-357 | exactly the bytes that fit at the offset change; succeeds exactly if all fit or there are none; no other block changes |
| Ext4.Ext4Fs.ReadInode | fs/ext4/ext4.c:190-219 | the record in the slot of the inode number |
| Ext4.Ext4Fs.WriteInode | fs/ext4/ext4.c:221-248 | exactly the 128 bytes of the record are overwritten, whatever the slot size |
| Ext4.Ext4Fs.WriteGroupDesc | fs/ext4/ext4.c:178-188 | exactly the 32 bytes of descriptor 0 are replaced, layout and both bitmaps stay; a failure is counted as lost |
| Ext4.Ext4Fs.WriteSuper | fs/ext4/ext4.c:152-160 | exactly the superblock is replaced, by the 104 known bytes and zeros; layout, bitmaps and descriptor 0 stay |
| Results.RoundTrip | fs/ext4/ext4.c:672-923 | where the path leads to the inode written, reading returns the data if and only if the condition on name, target and size holds; a longer name is never read |
| Results.WriteThenRead | fs/ext4/ext4.c:672-923 | the same for any successful write to any target, directories included, whatever requests failed, if the path is not looked up in the inode written and no second name was entered |
| Results.WroteReadsAs | fs/ext4/ext4.c:672-923 | the two together, for every buffer: the data exactly if it can be read back, and then as much of it as fits |
| Results.CleanTraceable | fs/ext4/ext4.c:787-923 | without faults, `WriteThenRead` applies exactly if the target is new or not one of the inodes in which the path is looked up before the write |
| Results.WrittenContent | fs/ext4/ext4.c:872-920 | the content read back is the data exactly if the size is in the range that does not wrap, or is zero on a file with an extent header |
| Results.HugeFileIsCut | fs/ext4/ext4.c:873-873 | a size whose rounding wraps is larger than what four extents can hold, so the data cannot come back |
| Results.LongNameUnreadable | fs/ext4/ext4.c:598-598 | a path whose name has more than 255 bytes can never be read |
| Directories.DirectoryLost | fs/ext4/ext4.c:840-889 | a successful write of a block of zeros or more to a directory makes the image invalid, whatever requests failed; as many zeros as it has leave it without any name |
| Directories.SafeExactly | fs/ext4/ext4.c:787-923 | every fault-free success, whatever the data, leaves the image valid if and only if the path names no directory to which a block can be written and creates no file of whose name nothing is entered |
| Directories.ReadAfter | fs/ext4/ext4.c:405-451 | after a write to an existing inode every path leads where it leads on the old image with the new entries of that inode, and all other files there have their old content |
| Directories.DataLeads | fs/ext4/ext4.c:359-451 | data written to a directory is its new list of entries: where its whole blocks lead a path, it leads, and if back to the directory as a regular file, a read returns the data |
| Directories.ReadsThrough | fs/ext4/ext4.c:672-707 | a path that still leads to the inode written, now as a regular file, reads the data exactly if the condition on the size holds |
| Directories.OtherPathsStay | fs/ext4/ext4.c:867-922 | paths that are not looked up in the inode written and do not lead to it read as before, also if it is a directory |
| Results.FailedOverwrite | fs/ext4/ext4.c:875-895 | in the usual layout an overwrite that fails without a device fault changes nothing |
| Storing.OverwriteInPlace | fs/ext4/ext4.c:875-889 | an overwrite that fits the first extent leaves bitmap, counts, the blocks of the inode and the bytes behind the data as they were, and without faults succeeds, however full the volume is |
| Storing.OverwriteMoves | fs/ext4/ext4.c:891-916 | any other overwrite moves the file to the lowest free run of the length the data needs |
| Storing.SucceedsExactly | fs/ext4/ext4.c:787-923 | without faults a write succeeds if and only if the head of at most 255 bytes leads to a directory and the content fits the first extent or a free run of at most 32767 blocks or needs no block, and, for a new name, an inode is free and some record has the slack; stated over extents, bits and records |
| Storing.NamelessFails | fs/ext4/ext4.c:788-805 | a path that does not start with a slash, or ends in one, changes nothing |
| Storing.FailureLeaves | fs/ext4/ext4.c:845-903 | what a failure without faults leaves behind: nothing, unless a new name found a free inode; that one stays claimed, and is in the directory exactly if some record gave room |
| Storing.CreatedRecord | fs/ext4/ext4.c:850-856 | a created file is a regular file with mode 0644, one link, the extents flag and its size; all other bytes outside the extent area and the sector count are zero |
| Results.WroteExisting | fs/ext4/ext4.c:867-922 | overwriting an inode of any kind leaves every other one, and for a file the names, as `Wrote` says |
| Results.WroteNew | fs/ext4/ext4.c:845-922 | creating and storing compose to what `Wrote` says, for names of any length |
| Runs.RunIsSafe | fs/ext4/ext4.c:787-923 | over any run of any writes, to directories too, faults or not, every image has its metadata and the blocks of live inodes marked, no block has two owners, and live inodes stay live |
| Runs.RunIsValid | fs/ext4/ext4.c:787-923 | over a run of writes that store nothing in a directory and leave a name to enter or create nothing, every image is valid, so the next write can be made |
| Runs.RunsDisjoint | fs/ext4/ext4.c:466-508 | no block is handed out twice over a run |
| Runs.NewInodesDiffer | fs/ext4/ext4.c:524-549 | an inode that becomes live was not live, and none becomes live twice |
| Runs.OthersUntouched | fs/ext4/ext4.c:787-923 | paths to other inodes lead where they led and read what they read |
| Runs.WriteLeads | fs/ext4/ext4.c:787-923 | after a success the path leads to the inode written and reads the data |
| Runs.LastWriteWins | fs/ext4/ext4.c:672-923 | the last successful write to a path is what is read after any number of writes to other inodes, even if requests fail in between |
| Runs.NamesStayUnique | fs/ext4/ext4.c:840-863 | names stay unique exactly if no second name was entered |
| Runs.CleanNamesUnique | fs/ext4/ext4.c:840-863 | after a success without faults on an image with unique names, they are unique exactly if the name has at most 255 bytes or what it is entered as was not there before |
| Runs.RunKeepsNames | fs/ext4/ext4.c:840-863 | the same over runs |
| Runs.CountsExactly | fs/ext4/ext4.c:480-545 | at every point of any run that starts with counts that are not too low, the counts are exact if and only if they were exact at the start and no write of the group descriptor has failed |
| Fresh.FreshWrites | fs/ext4/ext4.c:787-923 | on the example volume a write of a new name under the root can succeed exactly up to the two free blocks and the room of the directory block, and is read back exactly if it is not empty and the name has at most 255 bytes |
| Fresh.FreshDirectoryTarget | fs/ext4/ext4.c:840-889 | on the example volume "/." names the root directory and a block can be written to it |
| Fresh.FreshReadsDirectory | fs/ext4/ext4.c:405-451 | a block that names the root as a regular file, written to "/.", is read back from "/." although the target was a directory |
| Fresh.LongNameClashes | fs/ext4/ext4.c:598-598 | a name and the same name with 256 bytes more are entered as one |
| Fresh.LongNameTwice | fs/ext4/ext4.c:595-598 | two fault-free successes under the root, the second name 256 bytes longer, leave the image valid with names that are not unique |
| Counts.ClaimCounted | fs/ext4/ext4.c:487-498 | after a claim the counts are exact if and only if they were and the descriptor was written; the guard in the group's count is never met |
| Counts.InodeClaimCounted | fs/ext4/ext4.c:534-545 | the same for inodes |
| Counts.ClaimKeepsCounts | fs/ext4/ext4.c:487-498 | with exact counts and all writes done both counters go down by the length, and no underflow guard is met |
| Counts.InodeClaimKeepsCounts | fs/ext4/ext4.c:534-545 | the same for inodes |
| Counts.GuardMakesExact | fs/ext4/ext4.c:487-489 | after a booked claim from any counts the group's count is exact if and only if it was exact or was below the claim and too low by just that much |
| Counts.SuperStored | fs/ext4/ext4.c:142-160 | storing and reading the superblock fields is the identity and leaves the descriptor alone |
| Bitmap.ClaimFirstRun | fs/ext4/ext4.c:466-508 | lowest run of clear bits found and set, or no run exists and nothing changed |
| Bitmap.ClaimFirstBit | fs/ext4/ext4.c:524-552 | lowest clear bit found and set, or all are set |
| Bitmap.SetRun | fs/ext4/ext4.c:480-483 | exactly the bits of the run are set on top of the old ones |
| Bitmap.ClaimLowersFree | fs/ext4/ext4.c:480-489 | claiming a run of clear bits lowers their number by exactly its length |
| DirBlock.FindInBlock | fs/ext4/ext4.c:359-403 | the first entry with the name among the records the walk visits |
| DirBlock.FindsExactly | fs/ext4/ext4.c:382-400 | a lookup finds the first record of the walk that is in use and has the name, of whatever type, or there is none |
| DirBlock.SplitInBlock | fs/ext4/ext4.c:585-613 | the first record with enough slack is split, or none has it and nothing changes |
| DirBlock.RoomExactly | fs/ext4/ext4.c:584-593 | of all records the walk comes to, used or not, the first with enough slack is chosen |
| DirBlock.SplitInserts | fs/ext4/ext4.c:592-604 | after a split the records tile the block and the visited entries are the old ones in order plus the new one |
| DirBlock.SplitTears | fs/ext4/ext4.c:598-598 | a record whose name length came out as 0 breaks the tiling of its block |
| DirBlock.FindAfterInsert | fs/ext4/ext4.c:359-403 | an inserted entry changes no other lookup and is found if its name was not there |
| DirBlock.InsertKeepsUnique | fs/ext4/ext4.c:840-863 | inserting a name that was not found keeps names unique |
| DirBlock.SplitIsSplit | fs/ext4/ext4.c:592-604 | the stored bytes are the shortened old record and, in its slack, a record that is read under the entered name |
| Names.EntryAddedKeeps | fs/ext4/ext4.c:555-618 | on a valid image an insertion keeps validity, every other lookup and every file, and keeps names unique exactly if the name was not found before |
| Names.AddedTwice | fs/ext4/ext4.c:840-863 | an entry under a name that was there makes names not unique |
| Names.StoredIsSound | fs/ext4/ext4.c:606-609 | rewriting a directory block, whatever bytes it gets, keeps allocation safety |
| Names.ResolveSnoc | fs/ext4/ext4.c:405-451 | resolving a path is resolving its parent and looking up the last name there |
| Names.ResolveExtends | fs/ext4/ext4.c:405-451 | on an image that kept what was found, paths lead where they led |
| Names.LongNameNotFound | fs/ext4/ext4.c:359-403 | a name of more than 255 bytes is in no directory |
| Paths.AddressAgrees | fs/ext4/ext4.c:792-824 | the parent string and the name have exactly the components of the path, whatever slashes it has |
| Paths.SplitAgrees | fs/ext4/ext4.c:807-824 | dropping the slash before the name loses no component, also under the root |
| Paths.ComponentsCut | fs/ext4/ext4.c:413-442 | components of a path cut behind a slash are those of its parts |
| Paths.TrailingSlash | fs/ext4/ext4.c:414-441 | a slash at the end adds no component |
| Paths.SplitPath | fs/ext4/ext4.c:792-805 | the scan finds exactly what is behind the last slash |
| Volume.InodeSlotsDisjoint | fs/ext4/ext4.c:190-219 | different inode numbers never share a byte of a slot |
| Volume.SlotForm | fs/ext4/ext4.c:200-214 | table block and offset are quotient and remainder by the slots of a block, and a slot lies inside one block |
| Volume.SetInodeReads | fs/ext4/ext4.c:190-248 | a written inode reads back, every other one reads as before |
| Volume.InodeAddress | fs/ext4/ext4.c:190-214 | the slots of a group follow each other byte by byte from the start of its table |
| Volume.DescAddress | fs/ext4/ext4.c:142-175 | the superblock is at byte 1024, and the descriptors follow each other in the blocks behind its block, whatever the block size |
| Extents.FileBlockIsPosition | fs/ext4/ext4.c:270-276 | without holes the 32-bit file block number is the position in the block list |
| Extents.BlockStart | fs/ext4/ext4.c:274-287 | the loop skips a block exactly if it lies before the offset, and starts inside it where its position says |
| Extents.ReadAdvances | fs/ext4/ext4.c:280-297 | one block more of the read loop |
| Extents.WriteAdvances | fs/ext4/ext4.c:332-350 | one block more of the write loop |
| Extents.OverlayReads | fs/ext4/ext4.c:254-357 | a write replaces exactly the bytes it covers, as far as the file goes; what was written is read back |
| Extents.ExtentReads | fs/ext4/ext4.c:250-266 | an extent stored in its place reads back, with 48 bits of start and 15 of length |
| Files.NeededFits | fs/ext4/ext4.c:873-873 | the needed blocks hold the size exactly unless the 32-bit sum wraps |
| Files.FreshHeaderFacts | fs/ext4/ext4.c:897-910 | the rewritten header is read as one extent naming the run, its length cut to 15 bits |
| Files.FreshFits | fs/ext4/ext4.c:906-914 | a fresh run holds the data exactly if its length fits 15 bits |
| Files.FinalInodeFacts | fs/ext4/ext4.c:918-920 | the size fields are set and the extents are untouched |
| Files.FinalRecord | fs/ext4/ext4.c:897-920 | storing content sets size and sectors, and for a new run the extents flag and the header; every other byte of the record stays, and the sectors are the bytes of the needed blocks |
| Files.ReadCut | fs/ext4/ext4.c:692-704 | a shorter buffer gets the beginning of what a longer one gets, and nothing only if that one gets nothing |
| Files.ReadsExactly | fs/ext4/ext4.c:672-697 | a path can be read exactly if it is absolute and leads to a live inode recorded as a regular file with the extents flag, the magic number and depth 0 |
| Files.ContentLength | fs/ext4/ext4.c:254-302 | the content ends with the file (64-bit size), its blocks or the buffer, whichever is first |
| Files.ContentByte | fs/ext4/ext4.c:254-302 | byte `j` of block `k` of the content is that byte of the block on disk |
| Files.HeaderDecides | fs/ext4/ext4.c:254-258 | a file is readable exactly with the extents flag, the magic number and depth 0, and without them no name is found in it |
| Files.FreshBlocks | fs/ext4/ext4.c:891-908 | a run that was clear belongs to no inode and is no metadata |
| Image.FramedKeepsSound | fs/ext4/ext4.c:787-923 | a step that changes one inode and its blocks keeps allocation safety |
| Image.FramedKeepsValid | fs/ext4/ext4.c:787-923 | if that inode is a regular file, the directories stay well formed too |
| Image.BitmapWrite | fs/ext4/ext4.c:484-486 | writing back a bitmap with more bits set keeps the image safe and its view |
| Image.DescWrite | fs/ext4/ext4.c:178-188 | writing back descriptor 0 with other counts keeps the layout |
| NvmeQueue.FreshExactly | drivers/storage/nvme.c:108-118 | the bit at the head is the expected one exactly if a completion was posted that the driver has not consumed (NVM Express 1.4, section 4.6) |
| NvmeQueue.Advance | drivers/storage/nvme.c:115-118 | head and phase after `n` completions are `n` modulo the depth and the parity of the laps |
| NvmeQueue.SlotWritesClosed | drivers/storage/nvme.c:108-118 | how often a slot has been written after `n` completions |
| Nvme.Controller.SubmitCmd | drivers/storage/nvme.c:101-123 | the status returned belongs to the command just submitted, the registers are those of the number of submissions, nothing is outstanding afterwards |
| Nvme.Controller.Reap | drivers/storage/nvme.c:109-120 | consumes exactly the oldest unconsumed completion |
| Nvme.Controller.EntryIsNew | drivers/storage/nvme.c:109-110 | the driver's test is exact in every reachable state |
| Nvme.Controller.DevicePost | drivers/storage/nvme.c:108-122 | the device answers the next command and keeps the protocol invariant |
| Nvme.Controller.ReadBlocks | drivers/storage/nvme.c:157-188 | it fails exactly if the device refuses a command, which then is the last one; the commands tile the range, or the part of it up to the refused one, each as long as 4096 bytes allow; the buffer holds the flat blocks that were read and its rest is untouched, and so is the medium |
| Nvme.Controller.WriteBlocks | drivers/storage/nvme.c:190-221 | it fails exactly if the device refuses a command, which then is the last one; the commands tile the range as for a read; the medium holds the data that was accepted and is unchanged elsewhere |
| Nvme.Controller.ReadChunk | drivers/storage/nvme.c:163-180 | one read command and the copy behind it |
| Nvme.Controller.WriteChunk | drivers/storage/nvme.c:196-213 | one write command with the bytes of its blocks |
| Nvme.TilesCover | drivers/storage/nvme.c:162-185 | every block of the range is in exactly one command |
| Nvme.StoresJoin | drivers/storage/nvme.c:195-218 | consecutive stores are one store of the joint range |
| Nvme.Controller.WriteThenRead | drivers/storage/nvme.c:157-221 | running a write and then a read of the same range fails exactly if the device refuses a command, and else gives the bytes written, whatever the cutting into commands |
| Nvme.OtherRangesStay | drivers/storage/nvme.c:190-221 | a read of any other range sees what was there before the write |
| Nvme.MovesAllExactly | drivers/storage/nvme.c:158-159 | the transfer is complete exactly if the byte count fits 32 bits |
| RxRing.Ring.Poll | drivers/net/rtl8139.c:150-190 | for any frames that come in between its steps: hands out the oldest unread frame, cut to the buffer, exactly if the flag was set; the flag is set again exactly if a frame was taken behind the acknowledgement; the ring stays readable exactly if the cut keeps the rounded length; a frame is left waiting exactly if it arrived before the flag was last cleared and nothing since |
| RxRing.Ring.Receive | drivers/net/rtl8139.c:155-160 | a frame is appended and the flag set exactly if the ring has room; every unread frame stays |
| RxRing.StrandedFrame | drivers/net/rtl8139.c:150-190 | two arrivals and two polls during which none arrives: the second poll finds nothing although the second frame waits |
| RxRing.CaughtFrame | drivers/net/rtl8139.c:150-190 | a frame that comes in during the copy is handed out by the next poll |
| RxRing.HandedInOrder | drivers/net/rtl8139.c:175-189 | as long as no frame was cut, what was handed out is what arrived, in order |
| RxRing.Ring.CopyOut | drivers/net/rtl8139.c:175-178 | the copied bytes are the frame's although frames keep arriving |
| RxRing.FramesStand | drivers/net/rtl8139.c:162-165 | storing one frame more leaves all unread frames standing across the wrap |
| RxRing.ApartInBuffer | drivers/net/rtl8139.c:182-186 | frames apart in the stream by less than a lap are apart in the buffer |
| RxRing.StrideWraps | drivers/net/rtl8139.c:182-186 | the driver's offset step is the stream step modulo the ring |
| RxRing.NextFrame | drivers/net/rtl8139.c:182-186 | advancing by the copied length reaches the next frame exactly if the strides agree |
| Keyboard.KeyboardState.ProcessScancode | drivers/input/keyboard.c:147-193 | modifiers follow their keys; a character is accepted unless 127 are pending |
| Keyboard.ModifiersFollow | drivers/input/keyboard.c:147-172 | after any scancodes a modifier is down exactly if the last event of its keys was a press |
| Keyboard.KeysSpell | drivers/input/keyboard.c:56-68 | the keys of each row spell the characters on them, with and without shift, whatever control and alt |
| Keyboard.OthersSilent | drivers/input/keyboard.c:174-185 | releases, modifiers and scancodes outside the table give no character |
| Keyboard.KeyboardState.TakeChar | drivers/input/keyboard.c:204-206 | the oldest pending character is taken, whatever interrupts come between |
| Keyboard.KeyboardState.GetcharNonblock | drivers/input/keyboard.c:209-217 | returns nothing exactly if nothing was pending, else the oldest character |
| Keyboard.KeyboardState.Getchar | drivers/input/keyboard.c:199-207 | waits as long as it takes and returns the next accepted character in order |
| Keyboard.KeyboardState.HasKey | drivers/input/keyboard.c:195-197 | exact test for a pending character |
| Keyboard.TestsExact | drivers/input/keyboard.c:187-196 | the tests for full and empty are exact with at most 127 pending |
| Keyboard.PendingElsewhere | drivers/input/keyboard.c:188-190 | the slot written next holds no unread character |
| Checksum.Checksum16 | net/net.c:77-91 | the complement of the folded 32-bit word sum |
| Checksum.StoredChecksumVerifies | net/net.c:205-220 | for data of any length: with the checksum stored in its zeroed, even field the checksum of the whole is 0 (RFC 1071, section 1) |
| Checksum.RightExactly | net/net.c:79-90 | the result is the complement of the folded sum if and only if the sum fits 32 bits |
| Checksum.NoOverflow | net/net.c:79-86 | no overflow up to 65537 words |
| Checksum.OverflowIsWrong | net/net.c:79-86 | one word more can overflow, with a wrong result |
| Checksum.ZeroMeansMultiple | net/net.c:77-91 | the checksum is 0 exactly if the 32-bit sum is a positive multiple of 65535 |
| Checksum.FoldIsResidue | net/net.c:87-89 | folding is the residue modulo 65535, zero only for zero |
| Checksum.SwappedDataSwapsSum | net/net.c:69-91 | as long as neither sum overflows, swapping the bytes of every word swaps the checksum (RFC 1071, section 2(B)); derived from the exact condition |
| Checksum.SwappedExactly | net/net.c:69-91 | swapping the bytes of every word swaps the checksum if and only if the carries lost by the two 32-bit sums are each other's swaps and both remainders are zero or neither is |
| Checksum.OverflowUnswaps | net/net.c:79-86 | 65538 words of all ones, where it does not |
| Ipv4Text.ParseIpv4 | net/net.c:319-350 | accepts exactly three dots and four digit runs of value at most 255, and returns that address |
| Ipv4Text.DottedQuad | net/net.c:319-350 | four digit runs with dots between them, leading zeros and empty runs included, are accepted exactly if each is at most 255, and are the bytes of the address in memory |
| Ipv4Text.OnlyQuads | net/net.c:319-350 | no other text is accepted |
| Ipv4Text.IpToStr | net/net.c:352-391 | as much of the text as fits, NUL-terminated, nothing else written |
| Ipv4Text.TextParses | net/net.c:319-391 | parsing the printed text gives the address back, for every 32-bit value |
| Ipv4Text.TextOfBytes | net/net.c:352-379 | the printed text names the bytes of the address in memory order, in decimal |
| Ipv4Text.SwapTwice | net/net.c:73-75 | swapping the bytes twice is the identity |
| Editor.UpGoesOneLine | kernel/shell/shell.c:558-569 | up goes exactly one line up, to the same column or the end of a shorter line; it stays on the first line |
| Editor.DownGoesOneLine | kernel/shell/shell.c:571-580 | the same downwards |
| Editor.PositionOrder | kernel/shell/shell.c:519-532 | line and column grow with the offset, so they determine it |
| Editor.WholeLine | kernel/shell/shell.c:534-548 | from a line start to the next line end is a line of the text |
| Editor.EditsUndo | kernel/shell/shell.c:582-605 | backspace undoes an insertion and the other way round |
| Editor.KeyEditsOnce | kernel/shell/shell.c:733-790 | only insert mode edits, one character at a time, and backspace takes an insertion back |
| Editor.InsertModeKeys | kernel/shell/shell.c:582-605 | in insert mode a typed character is inserted unless the buffer is full, and backspace erases unless the cursor is at the start |
| Editor.NormalModeKeys | kernel/shell/shell.c:770-785 | in normal mode "i" enters insert mode, "h", "l", "k" and "j" move by a character or a line, and other keys but saving and leaving do nothing |
| Editor.ControlKeys | kernel/shell/shell.c:733-768 | escape, saving and leaving in either mode, and which keys leave |
| Editor.CleanMeansUnchanged | kernel/shell/shell.c:582-605 | a clear dirty flag after a session without a save means the text is unchanged |
| Editor.NormalModeReadsOnly | kernel/shell/shell.c:770-785 | without entering insert mode no session edits |
| Editor.TextEditor.InsertChar | kernel/shell/shell.c:582-595 | the buffer in place becomes the text with the character in front of the cursor, whenever it is not full; a full buffer only reports it |
| Editor.TextEditor.DeleteBack | kernel/shell/shell.c:597-605 | the buffer in place becomes the text without the character before the cursor |
| Editor.TextEditor.MoveUp | kernel/shell/shell.c:558-569 | the cursor goes one line up, to the same column or the end of a shorter line; nothing else changes |
| Editor.TextEditor.MoveDown | kernel/shell/shell.c:571-580 | the same downwards |
| Editor.TextEditor.GetCursorLineCol | kernel/shell/shell.c:519-532 | the line and column of the cursor in the list of lines |
| Editor.TextEditor.StartOfLine | kernel/shell/shell.c:534-540 | the start of the line |
| Editor.TextEditor.EndOfLine | kernel/shell/shell.c:542-548 | the end of the line |
| Editor.TextEditor.HandleKey | kernel/shell/shell.c:729-790 | one turn of the key loop is one step of a session; in insert mode, over the buffer: a typed character goes in front of the cursor, backspace takes one away, other keys leave the text alone |
| Editor.TextEditor.constructor | kernel/shell/shell.c:709-723 | opening takes the text before the first NUL, with the cursor at its end |

## Left out

Weaker than the source's promise:

- Results.WriteThenRead: is not claimed when a failed read during the lookup made the write enter a second name; which of the two a later lookup finds depends on where the first free slack is. For a path looked up in the inode written, `Directories.ReadAfter` says what a read returns in terms of the entries the inode has afterwards; the bytes behind the last whole block of the data, and blocks the directory keeps behind it, are not stated as a function of the old image.
- Runs.RunIsValid: covers writes that store nothing in a directory and, if they create a file, leave a name to enter; both exceptions are destructive (`Directories.SafeExactly`), although they keep allocation safety (`Runs.RunIsSafe`).
- Ext4.Ext4Fs.WriteFile: requires the inodes on the way to the parent to be live and the parent to be the directory its entry says it is; says nothing about blocks a file no longer uses, which the source never frees.
- Ext4.Ext4Fs.CreateFile: is not atomic; after a failure an inode may stay marked without being live.
- Nvme.Controller.SubmitCmd: does not claim that the device answers; waiting is a finite number of polls of any length.
- Keyboard.KeyboardState.Getchar: does not claim that a key is ever pressed; waiting is of any finite length.

Assumptions about the image, in `Image.Valid` and `Volume.GeometryOk`: block size 1024, 2048 or 4096;
inode size a power of two from 128 up to the block size; 32-byte descriptors; metadata regions apart
and on the disk; linear directories; extents of depth 0 with at most four entries in the inode; a live
directory has an extent header. Where the first data block is the usual one (`Results.UsualLayout`), no run is
ever too long for an extent (`Results.NoRunTooLong`), so the 15-bit cases of the theorems do not occur there. Holes in a file are not excluded for transfers from offset 0, which is
all the two file operations use. Buffers are as long as a block instead of 4096 bytes. A name that
would run past its block counts as not matching. The shift of a 32-bit start block by 32
(fs/ext4/ext4.c:907) is taken to give 0. The partition's start is folded into the block numbers, and a
request covers one block or the superblock's two sectors. Paths are byte strings without NUL.

Not modelled:

- Mounting, listing directories and the virtual file system layer: fs/ext4/ext4.c:620-670 and 709-785.
- Journal, metadata checksums, indexed directories, deeper extent trees and 64-byte descriptors, which the source ignores.
- Superblock bytes past the 104 known ones: the source zeroes them, and the model says only that.
- The command id in the opcode word (drivers/storage/nvme.c:103): a command is what it transfers; admin commands and controller setup are left out.
- Port and memory-mapped registers, interrupt controller setup, PCI, AHCI, USB and the loader.
- The transmit ring, ARP, ping and echo replies with IP options: short code without a property of its own.
- Editor drawing and scrolling, the shell's commands and its accounts.
- The older copies of these files under `kernel/`, which the build does not use.
