# EphemeralOS: file system, shell, network and clock

This project models the parts of the EphemeralOS kernel that decide something, and proves what they promise.

**The file system** (`fs/filesystem.c`) is modelled down to the bytes of its disk: a superblock, 200 inodes of 60
bytes that straddle sectors, a bitmap of 512 blocks, and directories of fifteen 36-byte entries in one 512-byte
sector. `FileSystem.dfy` holds the C code's own form, a class over mutable tables and a sector device that logs its
writes; every method is proved to refine a function on values in `Volumes.dfy`. The other files prove what those
functions keep. `Invariants.dfy` defines the invariant: every nonzero block that an inode holds is marked used and held
once, entries name live inodes listed once, parents form a tree. It holds for **all** paths and all runs, with reboots
and interrupted deletes among them. What an interrupted delete may leak is kept apart (`Tidy`, `Clean`: every marked
block is held, free inodes hold nothing). Only unique names and the working directory need scoped paths, and the scope
is proved exact.

| files | about |
|---|---|
| `Bytes`, `Layout`, `BitOps`, `Device` | bytes on disk, single bits, the sector device |
| `Paths` | normalising, splitting and joining |
| `Volumes` | the state and each operation as a function on it |
| `Invariants`, `Growth`, `Directories`, `Mkdir`, `Files`, `Creation`, `Deletion` | what each operation keeps and what it achieves |
| `Isolation`, `Novelty`, `Names`, `Uniqueness`, `Ls` | what stays unchanged, what is new, unique names, listings |
| `Capacity`, `Counters` | when an operation succeeds, and when the free counters on disk are right |
| `Persistence`, `Installation`, `FirstDir`, `Slots`, `Tree` | reloads; the installed volume, its directories and its bytes |
| `Writes`, `Crash`, `Listing`, `Torn` | sector writes; deletes, mkdirs and creates cut off in the middle |
| `Sessions`, `Guarantees`, `Examples` | whole runs from installation; the main theorems in one place; concrete volumes |
| `FileSystem` | the imperative code, proved against `Volumes` |
| `Shell` | the tokenizer and the current directory |
| `Checksum`, `Wire`, `Arp`, `Host`, `DottedQuad` | the network code |
| `Rtc` | the calendar |

## What the code does that one would not expect

Each of these follows the code where a comment, a return value or common sense says otherwise, and each is a theorem.

- The first directory made after installation, `/bin`, gets block 0, the number that also means "no block". Writes to
  it are dropped and the resolver refuses it, so whatever is created under `/bin` is lost while the call returns 0, and it cannot be listed
  (`Installation.BinTakesBlockZero`, `Sessions.BinStaysEmpty`, `Ls.BinIsNotListed`). Bit 0 stays set, so no other block is affected.
- The fifteenth entry of a directory does not fit in its sector. An entry placed there is lost and the call still
  returns 0; the branch for a full directory is never taken (`Layout.DirRoundTrip`, `Invariants.AddEntryKeeps`).
- Sizes up to 16384 bytes are accepted and recorded, but at most 6144 bytes are stored; a read returns the recorded
  size (`Creation.CreateReadRoundTrip`).
- Creating a file over a directory ignores the failed delete and duplicates the name; the new file may hide the
  directory (`Creation.CreateFileUnique`, `Creation.CreateFileIsolation`, `Examples.TouchBinDuplicates`,
  `Examples.FileHidesDirectory`).
- `.` or `..` after a directory that has to be made duplicates that name in the new directory
  (`Uniqueness.CreateDirUnique`, `Examples.DotsBelowMissing`).
- Mkdir and delete leave the free counters on disk stale. After a reload they are wrong, and stay wrong, unless as many
  inodes and blocks are free as at the last successful create (`Counters.CreateDirCurrent`,
  `Counters.DeleteFileCurrent`, `Counters.StaleAfterMkdir`, `Counters.ConservationAfterFirstReboot`).
- Mkdir and create write the directory before the inode table. Cut in between they leave an entry that names a free
  inode (`Torn.MakeDirCut`, `Torn.StoreFileCut`, `Examples.TornMkdir`, `Examples.TornCreate`); delete, which writes in
  the same order, is safe wherever it is cut (`Crash.CrashDuringDelete`).
- Create deletes the old file before it knows whether the new one fits, so a failed replacement loses it
  (`Creation.CreateFileFails`).
- The header checksum is byte-swapped on its way out, so a sent header verifies only when its two bytes are equal
  (`Wire.SentHeaderVerifies`).
- The ARP timer never moves, so a full table always gives up entry 0 (`Arp.AddedAt`).
- A packet whose total length is smaller than its header wraps its payload length, and its datagram may then be read
  outside the packet (`Wire.ReadableExactly`, `Wire.ShortPacketUnreadable`).
- A field above 255 in a dotted address is accepted and spills into the field before it (`DottedQuad.FieldAbove255`).
- In 12-hour mode the clock is misread at noon and midnight and, in BCD, all afternoon; the driver avoids this by switching
  to 24-hour mode (`Rtc.ReadsRight`).
- Timestamps wrap after 2106-02-07 06:28:15 (`Rtc.ExactUntilLast`).

## Reading the main results

`v.bitmap[0]` says that block 0 has been given away, which installation does. `PlainTail(v, cs)` says that no missing
directory of the path is followed by `.` or `..`; `Unique(v)` that no directory lists a name twice; `Roomy(v, p, name)`
that one of the first fourteen slots of directory `p` is free and comes before any older entry of that name. A caller
can check each of them before the call. `Extends(v, w, gone)` says that everything outside `gone` resolves and reads
in `w` as in `v`; `Synced(v)` that disk and memory agree; `Settled(v)` that in addition nothing has leaked.

The premises are not empty: `Installation.InstallKeeps` shows that every installed volume meets them, whatever the
disk held before, and `Examples.FirstFile` makes a file to which the theorems on reading, deleting and interrupted
deletes apply. Nor are the failing halves of the conditions on names,
isolation and cuts: `Examples` has a volume and calls for each.

## Model

| member | source | states |
|---|---|---|
| `Bytes.LeRoundTrip` | fs/filesystem.h:27-46 | A 32-bit field stored as four little-endian bytes reads back as itself. |
| `Bytes.FromLeRoundTrip` | fs/filesystem.h:27-46 | Four bytes read as a 32-bit field and stored again are the same bytes. |
| `Layout.StrCpyRoundTrip` | kernel/string.c:69-73 | A name of at most 27 characters copied over any 28 bytes reads back as that name, whatever was there before. |
| `Layout.DirRoundTrip` | fs/filesystem.h:48-56 | Written to one sector and read back, the first fourteen entries of a directory are unchanged, and the fifteenth always comes back with inode 0 and not in use: 15 entries of 36 bytes do not fit in 512. |
| `Layout.LastEntryUnused` | fs/filesystem.h:48-56 | Whatever a sector holds, the fifteenth entry read from it is not in use. |
| `Layout.InodeRoundTrip` | fs/filesystem.h:41-46 | An inode is determined by its 60-byte image; the padding after the type byte does not matter. |
| `Layout.BitmapRoundTrip` | fs/filesystem.c:95-99 | The bitmap loaded from the sector that a sync wrote is the bitmap that was synced, for all 512 blocks. |
| `Layout.SuperRoundTrip` | fs/filesystem.c:83-105 | The superblock loaded from the sector that a sync wrote is the one that was synced. |
| `Layout.PackedBit` | fs/filesystem.c:19-40 | Bit `b % 8` of byte `b / 8` is the bitmap's bit for block `b`. |
| `BitOps.SetBitDigits` | fs/filesystem.c:26-32 | Or-ing in a one-bit mask sets that binary digit and no other. |
| `BitOps.ClearBitDigits` | fs/filesystem.c:34-40 | And-ing with the complement of a one-bit mask clears that binary digit and no other. |
| `BitOps.UpdateBits` | fs/filesystem.c:26-40 | Changing one digit of one byte of the stored bitmap changes exactly one block's bit. |
| `BitOps.PackedBytes` | fs/filesystem.c:95-99 | The bytes of the bitmap are recovered from the bits they stand for, so syncing the bytes and syncing the bits agree. |
| `Paths.NormalizePath` | fs/filesystem.c:138-172 | The result is the canonical text, one slash before each component, of the components of the argument, for every text. |
| `Paths.NormalizeIdempotent` | fs/filesystem.c:138-172 | Normalising keeps the components, and normalising twice is normalising once. |
| `Paths.CompsOfCanon` | fs/filesystem.c:138-172 | Splitting the canonical text of a path gives back its components: no component is lost, merged or reordered. |
| `Paths.CompsConcat` | fs/filesystem.c:603-615 | The components of two texts joined at a slash are those of the first followed by those of the second. |
| `Paths.LastSlash` | fs/filesystem.c:178-185 | Finds the position of the last slash. |
| `Paths.SplitPath` | fs/filesystem.c:174-198 | The parent is the canonical text of all components but the last, the name is the last component. |
| `Paths.SplitThenJoin` | fs/filesystem.c:174-198 | Joining what a split returned by a slash gives back the components of the path. |
| `Paths.CompsAfterSlash` | fs/filesystem.c:590-599 | Cutting a text at its last slash removes its last component, or nothing when the slash was trailing. |
| `Paths.WordAt` | fs/filesystem.c:208-232 | Where each component of a normalised path begins and ends in its text. |
| `Paths.CompsExample` | fs/filesystem.c:138-172 | Repeated, leading and trailing slashes of a path of two names. |
| `Paths.ScanStops` | fs/filesystem.c:216-226 | The scan for the next slash stops exactly at the end of the component it started in. |
| `Volumes.FirstClear` | fs/filesystem.c:42-50 | The lowest block whose bit is clear, or 512 when every bit is set. |
| `Volumes.FirstFree` | fs/filesystem.c:52-66 | The lowest free inode, or 200 when none is free. |
| `Volumes.FindSlot` | fs/filesystem.c:243-253 | The first used entry with a given name. |
| `Volumes.FreeSlot` | fs/filesystem.c:485-493 | The first entry not in use. |
| `Volumes.SlotOf` | fs/filesystem.c:760-768 | The first used entry naming a given inode. |
| `Invariants.NewInodeKeeps` | fs/filesystem.c:52-66 | Claiming an inode keeps the ownership and tree invariant and the counters; the inode was free and belongs to no directory yet. |
| `Invariants.TakeBlockKeeps` | fs/filesystem.c:457-482 | Taking a block for an unlisted inode keeps the invariant and the counters: the block had no owner and now has one. A failed attempt changes nothing. |
| `Invariants.ReleaseOneKeeps` | fs/filesystem.c:71-76 | Releasing one block of an unlisted file keeps the invariant and the counters, which needs that no other inode holds the block. |
| `Invariants.FreeInodeKeeps` | fs/filesystem.c:68-81 | Freeing an unlisted inode keeps the invariant and the counters. |
| `Invariants.AddEntryKeeps` | fs/filesystem.c:484-500 | Listing a new inode in its parent always reports success, in the fifteenth slot too, and keeps the invariant. |
| `Invariants.RemoveEntryKeeps` | fs/filesystem.c:755-770 | Clearing a file's entry keeps the invariant and leaves the file listed nowhere. |
| `Invariants.ClearBitsUpdate` | fs/filesystem.c:26-40 | Changing one bit changes the number of clear bits by exactly one, or by none when the bit had that value. |
| `Invariants.FreeNodesUpdate` | fs/filesystem.c:52-81 | Changing one inode changes the number of free inodes accordingly. |
| `Invariants.ResolveLands` | fs/filesystem.c:200-272 | A path that resolves names a live inode: no entry dangles. |
| `Invariants.WalkSplit` | fs/filesystem.c:200-272 | Resolving a path is resolving all but its last component and then one lookup, although the walk goes from the front. |
| `Isolation.WalkKept` | fs/filesystem.c:200-272 | If every live directory other than the inodes gone answers its lookups as before, every walk that did not end in one of those ends where it did. |
| `Isolation.ResolveKept` | fs/filesystem.c:200-272 | The same for whole paths, together with the kind and the bytes read through them. |
| `Novelty.CreateDirGrounded` | fs/filesystem.c:416-506 | After mkdir of any path, every lookup in an older inode gives what it gave, nothing, or an inode that was free. |
| `Novelty.CreateFileGrounded` | fs/filesystem.c:625-711 | The same after create, where a lookup that gave the replaced file may give the new one. |
| `Novelty.GroundedWalk` | fs/filesystem.c:200-272 | When all lookups are of that kind, every path that resolves resolved before to the same inode, or to a replaced file, or leads through an inode that was free. |
| `Persistence.StoreTableStores` | fs/filesystem.c:87-93 | After a sync every byte of every inode is at its place in the 24 table sectors, for inodes across sector boundaries too. |
| `Persistence.SyncNodesSyncs` | fs/filesystem.c:87-99 | Syncing the inode table and bitmap makes disk and memory agree and touches no data sector. |
| `Persistence.SyncSuperSyncs` | fs/filesystem.c:83-85 | Syncing the superblock keeps that agreement and makes the stored counters current. |
| `Persistence.ReloadSame` | fs/filesystem.c:103-121 | A reload of a synced disk restores the bitmap exactly and every inode up to the fields of free ones. |
| `Persistence.ReloadClean` | fs/filesystem.c:103-121 | Free inodes that hold nothing, in memory and on disk, do so after a reload, and every marked block still has its owner. |
| `Persistence.RebootKeeps` | fs/filesystem.c:274-278 | `fs_init` on a synced disk gives a volume satisfying the whole invariant, and one without leaks if there were none. |
| `Persistence.RebootKeepsPaths` | fs/filesystem.c:274-278 | After `fs_init` every path resolves and every file reads as before. |
| `Growth.GrownKept` | fs/filesystem.c:446-482 | Filling a new inode and its blocks leaves every older inode, its blocks and its directory entries alone. |
| `Growth.ReleaseFromIs` | fs/filesystem.c:68-81 | The releasing loop clears exactly the bits of the nonzero blocks of that inode, leaving bit 0 and every other inode alone. |
| `Growth.FreedRecord` | fs/filesystem.c:68-81 | A freed inode is free, empty and without blocks, and keeps its parent field. |
| `Growth.RollbackRestores` | fs/filesystem.c:459-463 | Undoing a half-made inode restores the bitmap exactly and the inode table up to the fields of free inodes. |
| `Growth.RollbackKept` | fs/filesystem.c:670-674 | The rollback after running out of blocks leaves every path and file as before, and memory agreeing with the disk, although the tables are not written. |
| `Directories.LookupInserted` | fs/filesystem.c:484-500 | After an entry is added, read back from its sector, its name finds it exactly when the slot is one of the first fourteen and no older entry of that name comes first; every other name finds what it did. |
| `Directories.LookupRemoved` | fs/filesystem.c:755-770 | After an entry is cleared, names that did not find it find what they did. |
| `Directories.AddEntryEffect` | fs/filesystem.c:484-500 | The same for whole directories on disk, with all other inodes untouched; under a directory whose block is 0 nothing changes. |
| `Directories.MakeDirKeeps` | fs/filesystem.c:446-505 | Making one directory keeps the invariant, counters and agreement with the disk whether it succeeds or rolls back, and changes no other path unless its name hides an older one. |
| `Mkdir.CreateDirUpkept` | fs/filesystem.c:416-506 | Recursive mkdir on any path at all, successful or failing half-way, keeps the ownership invariant, the tree, the counters and agreement with the disk. |
| `Mkdir.MakeDirResult` | fs/filesystem.c:446-505 | A made directory is found under its name and lists only `.` and `..`, exactly when its parent had room. |
| `Mkdir.CreateDirPlain` | fs/filesystem.c:416-506 | Recursive mkdir hides no path, and when it reports success on a path that did not resolve, the path is a new directory, or, if an existing parent had no room, still nothing. |
| `Uniqueness.MakeDirUnique` | fs/filesystem.c:446-505 | Names stay unique if and only if no entry of that name was there and the new one reached the disk. |
| `Uniqueness.StoreFileUnique` | fs/filesystem.c:656-709 | The same for listing a new file. |
| `Uniqueness.CreateDirUnique` | fs/filesystem.c:425-441 | A successful recursive mkdir keeps the names in every directory unique if and only if no missing directory is followed by `.` or `..` in the path. |
| `Uniqueness.PrefixResolves` | fs/filesystem.c:200-272 | Every prefix of a path that resolves does, and every proper prefix is a searchable directory. |
| `Files.StoreBlocksKeeps` | fs/filesystem.c:666-692 | The block loop keeps the invariant and leaves in the first blocks of the inode exactly the data, cut after twelve blocks and padded with zeros. |
| `Files.StoreFileKeeps` | fs/filesystem.c:656-709 | Storing a new file keeps the invariant on success and on rollback; on success the stored free counters are current. |
| `Files.StoreFileResult` | fs/filesystem.c:656-709 | A stored file is found under its name with its kind, full size and bytes, exactly when its directory had room. |
| `Files.StoredContents` | fs/filesystem.c:713-740 | Reading blocks that hold some data gives the first bytes of that data, at most 6144. |
| `Files.ReadResult` | fs/filesystem.c:713-740 | Reading fails exactly on paths of no file, directories among them; of a file it gives the recorded size and the least of size, buffer and 6144 bytes. |
| `Files.NoSuchBlock` | fs/filesystem.c:123-136 | Block 0 and numbers past the last read as zeros, and writes to them do nothing. |
| `Files.FileIsListed` | fs/filesystem.c:742-770 | A path that resolves to a file ends in the one entry that lists it, in the directory its inode names as parent. |
| `Files.DeleteFileKeeps` | fs/filesystem.c:742-776 | Delete succeeds exactly on paths of files, keeps the invariant, counters and agreement with the disk, changes nothing when it fails, and otherwise only makes that file unreachable. |
| `Files.FreeThenRemove` | fs/filesystem.c:755-770 | Freeing the inode before clearing its entry, as the code does, ends in the state of the safer opposite order. |
| `Names.CreateDirDirsKept` | fs/filesystem.c:416-506 | Mkdir on any path keeps every directory live and every entry of it in its slot. |
| `Names.StoreFileDirsKept` | fs/filesystem.c:656-709 | Storing a file removes or moves no entry. |
| `Names.DeleteFileDirsKept` | fs/filesystem.c:742-776 | Delete removes no directory and clears no entry but one that names the file. |
| `Names.ListedUnique` | fs/filesystem.c:484-505 | Listing one more entry keeps all names unique if and only if it does not clash. |
| `Deletion.DeleteFileUnique` | fs/filesystem.c:742-776 | Delete keeps names unique. |
| `Deletion.DeleteExact` | fs/filesystem.c:742-776 | After a delete exactly the paths that resolved to the file stop resolving; all others resolve to the inode they did. |
| `Creation.CreateFileKeeps` | fs/filesystem.c:625-711 | Create on any path, replacing, making parents, failing or rolling back, keeps the invariant, the counters, every directory entry and agreement with the disk; on success the stored counters are current. |
| `Creation.ReadyPlain` | fs/filesystem.c:640-654 | After the delete and the mkdir inside create, the parent resolves, the name is unused, and there is room for it exactly when there was before, a replaced file leaving its slot. |
| `Creation.CreateFileExtends` | fs/filesystem.c:625-711 | Create changes no path and no bytes but those of the replaced file, success or not, and keeps names unique. |
| `Creation.CreateReadRoundTrip` | fs/filesystem.c:625-740 | After a successful create, a read returns the full size and the first min(size, max, 6144) bytes of the data when the parent had room, was made by the call or the file was replaced; otherwise the read fails. |
| `Creation.CreateOverDirClashes` | fs/filesystem.c:653-654 | Create over a directory, whose delete fails unnoticed, duplicates its name exactly when the new entry reaches the disk. |
| `Creation.CreateBelowDotsClashes` | fs/filesystem.c:640-651 | A successful create whose parents include a missing directory followed by `.` or `..` always duplicates a name. |
| `Creation.CreateFileUnique` | fs/filesystem.c:625-711 | A successful create keeps names unique if and only if neither of these two cases applies. |
| `Creation.CreateFileIsolation` | fs/filesystem.c:625-711 | A successful create leaves all other paths and files alone if and only if it does not list a file before a directory of the same name. |
| `Creation.CreateFileFails` | fs/filesystem.c:652-674 | A failed create leaves all paths and files alone if and only if its name or size was refused or there was no old file; otherwise the old file has been deleted and its path does not resolve. |
| `Capacity.StoreBlocksSucceeds` | fs/filesystem.c:666-692 | The block loop succeeds if and only if as many blocks are clear as it still needs. |
| `Capacity.StoreFileSucceeds` | fs/filesystem.c:656-711 | Storing a file succeeds if and only if an inode is free and there are blocks for the data, twelve at most. |
| `Capacity.MakeDirSucceeds` | fs/filesystem.c:446-505 | Making a directory succeeds if and only if an inode is free and a block is clear. |
| `Capacity.CreateFileSucceeds` | fs/filesystem.c:625-711 | Create, with parents to make or an old file to replace, succeeds if and only if name and size are accepted, the names of the missing parents fit, they begin in a directory with room, and the counters cover one inode and block for each of them, one inode for the file and a block for each chunk, the old file giving back its own first. |
| `Capacity.CreateDirCosts` | fs/filesystem.c:416-506 | On any path mkdir takes equally many inodes and blocks, one of each per missing component if it succeeds, and none if and only if it does not begin; the stored superblock stays. |
| `Capacity.DeleteGains` | fs/filesystem.c:68-81 | Delete gives back, in memory only, one inode and each nonzero block of the file. |
| `Counters.ReloadConserves` | fs/filesystem.c:274-278 | A reload keeps right counters right if and only if the stored superblock is the one in memory. |
| `Counters.MakeDirCurrent` | fs/filesystem.c:446-505 | A directory that is made always leaves the stored counters stale. |
| `Counters.CreateDirCurrent` | fs/filesystem.c:416-506 | Mkdir of any path leaves them current if and only if it makes no directory. |
| `Counters.DeleteFileCurrent` | fs/filesystem.c:742-776 | Delete leaves them current if and only if the path names no file. |
| `Counters.CreateFileCurrent` | fs/filesystem.c:625-711 | A successful create makes them current; a failed one leaves them current if and only if it had made no parent and deleted no old file. |
| `Counters.StaleAfterMkdir` | fs/filesystem.c:369-397 | A concrete volume: after installation and one mkdir the counters in memory are right and those that a reload finds are not. |
| `Counters.StoredIsLastSaved` | fs/filesystem.c:83-85 | In every run, reloads and interrupted deletes included, the stored superblock is the one in memory at the last successful create, or at the start. |
| `Counters.ConservationAfterReboot` | fs/filesystem.c:274-278 | After any run and a reboot, and until the next, the counters are right if and only if those of the last save count the inodes and blocks free at the reboot. |
| `Counters.ConservationAfterFirstReboot` | fs/filesystem.c:274-278 | For a run without earlier reloads: if and only if as many inodes and blocks are free as were at the last successful create or at installation. |
| `Capacity.CreateDirSucceeds` | fs/filesystem.c:416-506 | Mkdir of a path, existing or not, succeeds if and only if it is not the root, its last name fits and, with m > 0 missing components, their names fit, they begin in a directory, which has room if m is more than 1, and the superblock counts at least m free inodes and m free blocks. |
| `Capacity.MkdirRepeats` | fs/filesystem.c:425-428 | Mkdir of a path that exists succeeds and changes nothing; so it can be repeated once the path is there. |
| `Crash.DeleteWritesComplete` | fs/filesystem.c:755-773 | The list of single-sector writes of a delete, applied in order, gives the disk of the completed delete. |
| `Crash.MixedInode` | fs/filesystem.c:87-93 | While the table is half written, every inode loads as it was, also the one that straddles the boundary; only the freed one may load as free. |
| `Crash.CrashDuringDelete` | fs/filesystem.c:742-776 | After any prefix of those writes a reload finds a volume with the whole invariant, memory agreeing with the disk, and every other path and file as before. |
| `Crash.CrashUnique` | fs/filesystem.c:742-776 | An interrupted delete keeps names unique. |
| `Listing.LoadCut` | fs/filesystem.c:87-93 | In the middle of a sync an inode loads field by field as before or as written, according to the sector of the field. |
| `Listing.CutListing` | fs/filesystem.c:500-503 | A new inode listed on disk with part of the table but not the bitmap written: a reload finds a sound volume if and only if the inode is free and its entry was lost, or it is there without blocks and under the right parent. |
| `Listing.HolderCut` | fs/filesystem.c:500-503 | For an inode with a block no such cut is sound, except one at inodes 17, 34, 145 and 162, whose type byte is in the sector before their block list. |
| `Listing.EmptyCut` | fs/filesystem.c:500-503 | For an empty file a cut is sound as soon as its record is written. |
| `Listing.LostCut` | fs/filesystem.c:500-503 | Where the entry is lost, as the fifteenth is, a cut is sound until the type byte is written, and at the four corner inodes one sector longer if the old parent field names a directory. |
| `Torn.MakeDirWritesComplete` | fs/filesystem.c:446-503 | The list of sector writes of one new directory, applied in order, gives the disk of the finished operation. |
| `Torn.MakeDirCut` | fs/filesystem.c:446-503 | After any prefix of them a reload finds a sound volume if and only if the prefix is safe in the sense above; every older path and file is as before whatever the prefix. |
| `Torn.MakeDirSafePrefixes` | fs/filesystem.c:481-503 | Of the 27 writes of a mkdir whose entry reaches the disk, the safe prefixes have 0, 1 or 27 writes, and one more at the four corner inodes. |
| `Torn.StoreFileWritesComplete` | fs/filesystem.c:656-709 | The same list for a new file. |
| `Torn.StoreFileCut` | fs/filesystem.c:656-709 | The same exact condition for its prefixes. |
| `Torn.StoreFileSafePrefixes` | fs/filesystem.c:656-709 | With m data blocks, the safe prefixes of its m + 27 writes are those of at most m and at least m + 26, and one more at the corner; of an empty file, none and all that include its record. |
| `Torn.CreateDirWritesComplete` | fs/filesystem.c:416-506 | The writes of a recursive mkdir give its disk. |
| `Torn.CreateDirCut` | fs/filesystem.c:416-506 | Recursive mkdir of any path, cut anywhere: a reload finds a sound volume if and only if the cut is safe for the directory then being made. |
| `Torn.CreateDirCutExtends` | fs/filesystem.c:416-506 | Wherever mkdir is cut, every older path and file is as before. |
| `Torn.CreateFileWritesComplete` | fs/filesystem.c:625-711 | The writes of a create, of its parents and the delete of an old file included, give its disk. |
| `Torn.CreateFileCut` | fs/filesystem.c:625-711 | Create of any path, cut anywhere: the exact condition for a sound reload. |
| `Torn.CreateFileCutExtends` | fs/filesystem.c:625-711 | Wherever create is cut, every older path and file but the replaced one is as before. |
| `Installation.RootedIs` | fs/filesystem.c:310-371 | The volume with only a root directory satisfies the invariant, has correct counters and unique names, and block 0 is still free. |
| `Installation.BinTakesBlockZero` | fs/filesystem.c:373 | The first mkdir after that gets block 0: `/bin` is a directory whose block number means "none", and bit 0 is set from then on. |
| `Installation.InstallKeeps` | fs/filesystem.c:310-397 | An installed volume satisfies the invariant, has bit 0 set, correct counters in memory and on disk and, for a user name without dots, unique names and a hollow `/bin`. |
| `Tree.InstalledDirs` | fs/filesystem.c:373-392 | For a plain user name, `/bin`, `/home`, `/tmp`, `/etc`, `/var`, the user's home, and `documents` and `downloads` in it are directories of the installed volume, and the counts of free inodes and blocks leave room for nothing else. |
| `Tree.SpellNames` | fs/filesystem.c:373-392 | The names in it, spelled out. |
| `Tree.InstalledSuper` | fs/filesystem.c:315-322 | The stored superblock, field by field. |
| `Tree.InstalledBytes` | fs/filesystem.h:8-56 | The installed disk byte by byte: superblock in sector 100, root inode in sector 101, root directory in sector 202. |
| `Tree.HomeAdds` | fs/filesystem.c:379-382 | Mkdir along several names below an empty directory succeeds and takes one inode and block for each. |
| `Slots.MakeDirInserts` | fs/filesystem.c:484-500 | A new directory's entry takes the first free slot of its parent and leaves the others alone. |
| `FirstDir.WithBinIs` | fs/filesystem.c:310-373 | The smallest volume on which block 0 is taken: its root directory, counters and next inode, and everything the operations keep. |
| `Ls.LinesFit` | fs/filesystem.c:545-578 | The text of a listing and its terminator stay inside the buffer. |
| `Ls.ListedWhole` | fs/filesystem.c:515-583 | Listing fails exactly on what is no directory with a block; otherwise 514 bytes are enough for every line. |
| `Ls.ListedIsFound` | fs/filesystem.c:545-576 | With unique names exactly those are listed that are printable, neither `.` nor `..`, and found; with a slash if and only if they are found to be directories. |
| `Ls.BinIsNotListed` | fs/filesystem.c:528-532 | `/bin` cannot be listed. |
| `Sessions.RunKeeps` | fs/filesystem.c:416-776 | Over every sequence of mkdir, create, delete, cd, reboot and interrupted delete the invariant, bit 0 and agreement with the disk hold; without a reload the counters stay as right as they were; without an interrupted delete nothing leaks. |
| `Sessions.CutKeeps` | fs/filesystem.c:742-776 | A delete cut off after any number of writes, and the reboot, keep the invariant, bit 0, agreement with the disk, unique names and every path and file but the deleted one. |
| `Sessions.OwnershipOverRuns` | fs/filesystem.c:42-81 | In every state reachable from installation, with any paths, reboots and interrupted deletes, a nonzero block that an inode holds is marked and held by one (inode, index) pair, and block 0 is never handed out again; unless a delete was interrupted, every marked block is held. |
| `Sessions.ConservationOverRuns` | fs/filesystem.c:26-81 | In every state reachable without a reload the counters are the numbers of clear bits and free inodes. |
| `Sessions.ChainReachesRoot` | fs/filesystem.c:446-482 | Following parents from any directory reaches the root without visiting a directory twice, although inode numbers are reused. |
| `Sessions.ListedOnce` | fs/filesystem.c:484-500 | An inode is named by at most one entry other than `.` and `..`. |
| `Sessions.LastSlashAt` | fs/filesystem.c:590-593 | The position of the last slash of a text. |
| `Sessions.StripLastOk` | fs/filesystem.c:585-600 | Cutting the current directory at its last slash, normalised or not, leaves a path to a directory. |
| `Sessions.ChangeDirOk` | fs/filesystem.c:584-623 | A cd, `..` included, successful or not, leaves the current directory an absolute path to a directory. |
| `Sessions.WalkConcat` | fs/filesystem.c:200-272 | Walking along two paths one after the other is walking along their concatenation. |
| `Sessions.ChangeDirGoes` | fs/filesystem.c:584-623 | Where cd goes: `..` cuts the last component off the text, or only a trailing slash; any other path leads from the root if it begins with a slash and else from the current directory, and the call succeeds exactly when that is a directory, to which the new text then leads. |
| `Sessions.ChangeDirCanonical` | fs/filesystem.c:603-619 | A current directory in canonical spelling stays so, after `..` and after every canonically spelled path. |
| `Sessions.ScopedPerformKeeps` | fs/filesystem.c:416-776 | One operation outside the duplicating cases keeps names unique, the current directory valid and `/bin` hollow. |
| `Sessions.CwdOverRuns` | shell/shell.c:151-162 | Over every run of such operations from installation the current directory is a directory and names are unique. |
| `Sessions.BinStaysEmpty` | fs/filesystem.c:237-240 | Over every such run `/bin` is a directory and no path below it ever resolves, whatever was created there. |
| `Guarantees.ResolveSplit` | fs/filesystem.c:174-272 | For every text with a component, looking up the split name in the split parent is looking up the text. |
| `Guarantees.DotsLead` | fs/filesystem.c:200-272 | In a directory that can be searched, `.` is itself and `..` its parent. |
| `Guarantees.DotsCancel` | fs/filesystem.c:200-272 | Behind the name of such a directory `..` leads back and `.` stays. |
| `Guarantees.MkdirMakesPath` | fs/filesystem.c:416-513 | When mkdir succeeds on a missing path, the path is a directory if and only if its parent was missing too or had room, and then so is every prefix; otherwise it does not resolve. |
| `Guarantees.MkdirIsolates` | fs/filesystem.c:416-506 | Every path that resolved before mkdir resolves and reads as before. |
| `Guarantees.CreateIsolates` | fs/filesystem.c:625-711 | Every path that resolved before create, but not to the replaced file, resolves and reads as before. |
| `Guarantees.MkdirNewPaths` | fs/filesystem.c:416-506 | After mkdir of any path, what resolves resolved before to the same inode or leads through an inode that was free. |
| `Guarantees.CreateNewPaths` | fs/filesystem.c:625-711 | The same after create, where a path of the replaced file may lead to its successor. |
| `Guarantees.DeleteIsolates` | fs/filesystem.c:742-776 | Paths to the deleted file stop resolving; all others resolve and read as before. |
| `Guarantees.PersistenceOverRuns` | fs/filesystem.c:274-278 | In every reachable state, after any paths whatever, a reload resolves and reads every path alike: the disk is never behind. |
| `Guarantees.CrashOverRuns` | fs/filesystem.c:742-776 | In every reachable state, cutting a delete anywhere leaves a disk on which a reload finds the whole invariant and all other files read as before. |
| `Guarantees.TornOverRuns` | fs/filesystem.c:416-711 | In every state reachable without an interrupted delete, the exact condition for the cuts of mkdir and create that a reload survives. |
| `Examples.TouchBinDuplicates` | fs/filesystem.c:653-654 | Creating `/bin` on it succeeds and makes two entries called `bin` in the root. |
| `Examples.DotsBelowMissing` | fs/filesystem.c:425-441 | Wherever a name is missing from a root with room and two inodes and blocks are free, mkdir and create of `..` below it succeed and duplicate `..`. |
| `Examples.DotsBelowMissingExample` | fs/filesystem.c:425-441 | For instance on the smallest volume. |
| `Examples.DeleteOpensSlot` | fs/filesystem.c:755-770 | Deleting a file listed before another name leaves a slot in which a new entry would hide that name. |
| `Examples.FileHidesDirectory` | fs/filesystem.c:652-709 | Four successful calls: create `/a`, mkdir `/b`, delete `/a`, create `/b`; afterwards `/b` is the file, the directory is hidden and its name occurs twice. |
| `Examples.TornMkdir` | fs/filesystem.c:481-503 | On the smallest volume a mkdir makes 27 writes, and a reload after any proper prefix but the first two finds no sound volume. |
| `Examples.TornCreate` | fs/filesystem.c:656-709 | The same for create: with m data blocks, after m + 1 to m + 25 writes; of an empty file, after one. |
| `Examples.FirstFile` | fs/filesystem.c:625-740 | On the smallest volume a file of any plain name and any accepted contents can be made in the root and reads back, and the state meets the premises of all the theorems above. |
| `Device.DiskDevice.WriteSector` | fs/filesystem.c:83-99 | One sector changes, the others do not, and the write is logged. |
| `Fs.FileSystem.constructor` | fs/filesystem.c:7-9 | The tables start zero. |
| `Fs.FileSystem.IsBlockFree` | fs/filesystem.c:19-24 | True exactly for blocks in range whose bit is clear. |
| `Fs.FileSystem.MarkBlockUsed` | fs/filesystem.c:26-32 | Sets the block's bit and counts it, out-of-range numbers being ignored. |
| `Fs.FileSystem.MarkBlockFree` | fs/filesystem.c:34-40 | Clears the block's bit and counts it. |
| `Fs.FileSystem.AllocateBlock` | fs/filesystem.c:42-50 | Takes the lowest clear block, or reports failure as 0xFFFFFFFF and changes nothing. |
| `Fs.FileSystem.AllocateInode` | fs/filesystem.c:52-66 | Takes the lowest free inode and clears it, or reports failure. |
| `Fs.FileSystem.FreeInode` | fs/filesystem.c:68-81 | Releases the nonzero blocks and the inode, which keeps its parent. |
| `Fs.FileSystem.ReadInodeBlock` | fs/filesystem.c:123-129 | Block 0 and numbers out of range read as zeros. |
| `Fs.FileSystem.WriteInodeBlock` | fs/filesystem.c:131-136 | Writes to block 0 or out of range are dropped; others write that one sector. |
| `Fs.FileSystem.SyncInodesAndBitmap` | fs/filesystem.c:87-99 | The stored table and bitmap become those in memory, with exactly that list of sector writes. |
| `Fs.FileSystem.SyncSuperblock` | fs/filesystem.c:83-85 | The stored superblock becomes the one in memory, with one sector write. |
| `Fs.FileSystem.FsInit` | fs/filesystem.c:274-278 | Memory becomes what the disk holds. |
| `Fs.FileSystem.FindInodeByPath` | fs/filesystem.c:200-272 | The scanning loop over the normalised text resolves the components one directory at a time. |
| `Fs.FileSystem.AddDirEntry` | fs/filesystem.c:484-500 | The slot loop and write-back refine the abstract insertion. |
| `Fs.FileSystem.ListInode` | fs/filesystem.c:484-503 | Listing an inode and syncing the nodes refines the abstract steps, with exactly their writes. |
| `Fs.FileSystem.FindOrMake` | fs/filesystem.c:640-645 | The parent of a new file, found or made. |
| `Fs.FileSystem.ReplaceFile` | fs/filesystem.c:652-709 | An old file is deleted, whether that works or not, and the new one stored. |
| `Fs.FileSystem.RemoveDirEntry` | fs/filesystem.c:755-770 | The entry loop and write-back refine the abstract removal and write one sector. |
| `Fs.FileSystem.FsCreateDir` | fs/filesystem.c:416-506 | Recursive mkdir refines the abstract one on all paths that fit, terminates on the number of components, and its sector writes are exactly the list whose prefixes `Torn.CreateDirCut` judges. |
| `Fs.FileSystem.FsDirExists` | fs/filesystem.c:508-513 | True exactly for paths of directories. |
| `Fs.FileSystem.FsDeleteFile` | fs/filesystem.c:742-776 | Refines the abstract delete, and its sector writes are exactly the list whose prefixes are proved crash safe; only the last component has to fit the name buffer. |
| `Fs.FileSystem.WriteBlocks` | fs/filesystem.c:666-692 | The loop over chunks of data refines the abstract one, stopping at twelve blocks. |
| `Fs.FileSystem.FsCreateFile` | fs/filesystem.c:625-711 | Refines the abstract create, with its checks, mkdir, delete and rollback, and its sector writes are exactly the list of `Torn.CreateFileCut`. |
| `Fs.FileSystem.CopyBlocks` | fs/filesystem.c:726-737 | The block loop fills the buffer with the bytes the file stores, up to twelve blocks, and touches nothing behind them. |
| `Fs.FileSystem.FsReadFile` | fs/filesystem.c:713-740 | Returns the recorded size and fills the front of the buffer with the file's bytes, the rest untouched. |
| `Fs.FileSystem.FsListDir` | fs/filesystem.c:515-583 | The result and the front of the buffer are those of the abstract listing, the rest of the buffer stays. |
| `Fs.FileSystem.ListEntries` | fs/filesystem.c:542-582 | The loop over the entries puts their lines one after the other. |
| `Fs.FileSystem.FsChangeDir` | fs/filesystem.c:584-623 | For a path other than `..` it succeeds if and only if the path, taken from the root or from the current directory, leads to a directory, and then the new text leads there; otherwise the text stays. |
| `Fs.FileSystem.FsInstall` | fs/filesystem.c:310-397 | Refines the abstract installation; for a plain user name that fits its field all standard directories are there, and the superblock has magic, version and the installed mark. |
| `Fs.FileSystem.FsCheckInstalled` | fs/filesystem.c:280-285 | Loads the superblock again and answers whether it has magic, version 2 and the installed mark. |
| `Shell.Tokenizer.ParseCommand` | shell/shell.c:60-98 | The rows hold, NUL-terminated, exactly the tokens of the input; no other cell of the buffer is indexed. |
| `Shell.WordsOfLine` | shell/shell.c:60-98 | Words, bare, quoted or mixed, with any runs of spaces and tabs around and between them, are split into exactly what they mean; empty ones vanish. |
| `Shell.UnclosedQuote` | shell/shell.c:60-98 | A quote that is not closed reaches to the end of the line. |
| `Shell.TokensOfLine` | shell/shell.c:60-98 | The commands get the first twenty of these words, each cut to 63 characters. |
| `Shell.CommandAndPath` | shell/shell.c:75-84 | A command, a space and a path, slashes included, are two tokens. |
| `Shell.WordsOfQuoted` | shell/shell.c:60-98 | Splitting quoted arguments joined by blanks gives back the arguments, blanks inside included. |
| `Shell.TokensOfQuoted` | shell/shell.c:60-98 | The same through truncation, for up to twenty arguments of up to 63 characters. |
| `Shell.ShellState.constructor` | shell/shell.c:151-162 | The shell starts in the user's home directory if there is one, else in the root; on a newly installed volume in the home directory. |
| `Shell.ShellState.Cd` | bin/cd.c:7-31 | It succeeds if and only if the wanted path, or the home directory without an argument, is a directory, and then the current directory leads there; otherwise it stays. |
| `Shell.AfterCdOk` | bin/cd.c:7-31 | Either way it stays an absolute path to a directory. |
| `Shell.AfterCdGoes` | bin/cd.c:7-31 | The same for the pair of text and answer, with `cd ..`. |
| `InternetChecksum.IpChecksum` | net/ip.c:34-52 | The 32-bit loop computes, for up to 65535 bytes, the complement of the folded sum of little-endian words: the sum never overflows and the folding ends. |
| `InternetChecksum.SumBound` | net/ip.c:34-44 | The sum is at most 65535 for each word. |
| `InternetChecksum.FoldIs` | net/ip.c:46-49 | Folding a positive sum gives its residue modulo 65535 in 1..65535, and 0 only for 0 (section 1 of RFC 1071). |
| `InternetChecksum.VerifiesToZero` | net/ip.c:34-52 | Storing the checksum natively in a zeroed even-offset word makes the checksum 0. |
| `InternetChecksum.SwappedVerifies` | net/ip.c:74 | Storing it byte-swapped, as the code does, makes it 0 if and only if its two bytes are equal. |
| `InternetChecksum.ByteOrderIndependent` | net/ip.c:34-52 | Swapping the bytes of every word swaps the bytes of the checksum (section 2(B) of RFC 1071). |
| `InternetChecksum.OddLength` | net/ip.c:43-45 | An odd number of bytes counts as if a zero byte followed (section 1 of RFC 1071). |
| `InternetChecksum.RfcExample` | net/ip.c:34-52 | The numerical example of section 3 of RFC 1071. |
| `Rtc.CountYears` | drivers/rtc.c:72-80 | The loop over years counts the days of the closed form with Gregorian leap days. |
| `Rtc.CountMonths` | drivers/rtc.c:82-91 | The loop over the patched month table counts the days before the month, February in leap years included. |
| `Rtc.UnixTimestamp` | drivers/rtc.c:68-100 | The result is the number of seconds since 1970 modulo 2 to the 32. |
| `Rtc.SecondsGrow` | drivers/rtc.c:68-100 | A later valid date-time has a larger number of seconds, across month, leap-day and year ends. |
| `Rtc.SecondsInjective` | drivers/rtc.c:68-100 | Different valid date-times have different numbers of seconds. |
| `Rtc.ExactUntilLast` | drivers/rtc.c:68-100 | The timestamp is exact if and only if the date is not after 2106-02-07 06:28:15. |
| `Rtc.TimestampsOrdered` | drivers/rtc.c:68-100 | Through 2105 timestamps are ordered as the dates are. |
| `Rtc.TickIsOne` | drivers/rtc.c:68-100 | The epoch has timestamp 0, and the next second of the calendar always has one more. |
| `Rtc.GetTime` | drivers/rtc.c:38-65 | Decodes the clock registers according to the two mode bits. |
| `Rtc.ReadsRight` | drivers/rtc.c:18-65 | Through 2099 the time is read right if and only if the clock is in 24-hour mode, or the hour is not 12 and, in BCD, is before noon. |
| `DottedQuad.PrintIp` | bin/ping.c:10-41 | The text is the four decimal octets joined by dots and has at most 15 characters. |
| `DottedQuad.DecimalIs` | bin/ping.c:19-36 | The text of a number has its value and no leading zero. |
| `DottedQuad.DecimalOfValue` | bin/ping.c:19-36 | Every digit text without a leading zero is the text of its value. |
| `DottedQuad.IsIpAddress` | net/dns.c:110-127 | Accepts exactly the texts that are four dot-separated fields of one to three digits. |
| `DottedQuad.QuadExactly` | net/dns.c:110-127 | The accepted texts are exactly four groups of one to three digits with a dot between each two. |
| `DottedQuad.ParseIp` | net/dns.c:129-146 | On every text that is accepted, the shifted fields or-ed in 32 bits; the value of the address when no field is above 255. |
| `DottedQuad.JoinedIsAddress` | net/dns.c:129-146 | Or-ing fields of at most 255 adds them in their places, the first one most significant. |
| `DottedQuad.FieldAbove255` | net/dns.c:110-146 | `1.256.0.0` is accepted and read as `1.0.0.0`. |
| `DottedQuad.QuadRoundTrip` | net/dns.c:110-146 | The printed text of every 32-bit address is accepted and parses to that address. |
| `Arp.Stop` | net/arp.c:40-46 | Where the scan of `arp_add_entry` ends: the first entry that is unused or has that address. |
| `Arp.Match` | net/arp.c:64-70 | The first valid entry with that address. |
| `Arp.ArpCache.AddEntry` | net/arp.c:36-62 | The scan and the replacement of the oldest entry refine the abstract update. |
| `Arp.ArpCache.Resolve` | net/arp.c:64-72 | Answers with the binding of the first valid entry of that address. |
| `Arp.AddedAt` | net/arp.c:36-62 | An add writes one entry: that of the address, else the first unused one, else entry 0, as the timer never moves. |
| `Arp.AddedKeeps` | net/arp.c:36-62 | Valid entries stay a prefix of the table with distinct addresses. |
| `Arp.AddIsMapUpdate` | net/arp.c:36-72 | After an add its address resolves to the new hardware address and all others as before, except that a full table forgets the address in entry 0. |
| `Arp.CacheOverRuns` | net/arp.c:29-62 | Every cache reachable from the empty one has a prefix of valid entries with distinct addresses. |
| `Wire.UdpRoundTrip` | net/udp.c:51-94 | Parsing a built datagram, with any bytes after it in the buffer, gives back its ports and its data. |
| `Wire.IpRoundTrip` | net/ip.c:54-162 | Parsing a built packet, padded or not, gives back protocol, source and payload length at its destination. |
| `Wire.FrameRoundTrip` | net/ethernet.c:21-67 | A frame has at least 60 bytes and carries its type and its payload followed by zeros. |
| `Wire.FrameBytes` | net/ethernet.c:21-42 | A frame byte by byte: destination, source, type, payload and zeros up to 60 bytes. |
| `Wire.AcceptedExactly` | net/ip.c:116-148 | Which packets are taken, in bytes: version 4, a header of 20 bytes or more inside the packet, a total length inside it, and this host or the broadcast as destination. |
| `Wire.ForOthersDropped` | net/ip.c:138-142 | A packet built for another host calls nobody. |
| `Wire.DatagramAcceptedExactly` | net/udp.c:70-84 | Which datagrams are taken: at least 8 bytes, and a length field between 8 and what there is. |
| `Wire.NoHandler` | net/udp.c:86-93 | Without a handler for its port a datagram calls nobody. |
| `Wire.NextHopBytes` | net/ip.c:80-89 | The next hop in bytes: the destination if it shares the first three with the host, else number 1 of the host's network. |
| `Wire.DatagramOnTheWire` | net/udp.c:51-68 | One datagram as the 60 bytes of its frame. |
| `Wire.ReadableExactly` | net/ip.c:116-162 | A datagram that passes every check of the receiver cannot be read inside its packet if and only if the total length does not cover the header and the bytes behind the header do not hold the datagram. |
| `Wire.ShortPacketUnreadable` | net/ip.c:116-162 | Such a packet exists: 20 bytes with total length 0, accepted with a payload length of 65516. |
| `Wire.EncapsulationRoundTrip` | net/udp.c:51-94 | The frame of a datagram of at most 1472 bytes calls, at the destination, the handler for its port with the sender's address and port and exactly the data, padding removed. |
| `Wire.DispatchIsFirst` | net/udp.c:86-93 | The handler called is the first registered one for the port, and only it is called. |
| `Wire.SentHeaderVerifies` | net/ip.c:72-74 | The header as sent verifies if and only if the two bytes of its checksum are equal. |
| `Host.SwappedStore16` | net/ip.c:11-17 | Storing the swapped value natively puts the bytes in network order. |
| `Host.SwappedStore32` | net/ip.c:19-28 | The same for 32 bits. |
| `Host.Host.RegisterHandler` | net/udp.c:41-49 | Takes the first entry whose port is 0 and no other, or changes nothing when there is none. |
| `Host.Host.EthSendFrame` | net/ethernet.c:21-42 | Sends one padded frame with the destination in its first six bytes, this host in the next six, the type and the payload; or nothing above 1500 bytes. |
| `Host.Host.FillIpHeader` | net/ip.c:63-74 | The field-by-field stores leave the 20 header bytes in network order, the checksum swapped. |
| `Host.Host.IpSend` | net/ip.c:54-114 | Asks everybody for an unknown next hop and handles at most ten received frames until it is known; the last frame then has the hardware address of the next hop in front and carries the packet; nothing above 1500 bytes; the identification advances with every packet built. |
| `Host.Host.SendVia` | net/ip.c:91-113 | The part of it after the packet is built. |
| `Host.SentIsAddressed` | net/ip.c:91-113 | The same about the traffic: a request to FF:FF:FF:FF:FF:FF first, the packet to the address of the next hop last. |
| `Host.HeardReply` | net/ip.c:91-106 | If in some round the answer to the request arrives, after silence, the address is known and the rounds end. |
| `Host.Host.UdpSend` | net/udp.c:51-68 | The same for a datagram of at most 1472 bytes; a longer one has no effect at all. |
| `Host.Host.UdpReceive` | net/udp.c:70-94 | The table loop calls the first handler for the port with the payload, or none. |
| `Host.Host.IpReceive` | net/ip.c:116-162 | Passes on exactly the packets with a sound header for this host or broadcast, with the 16-bit payload length; only a datagram for this host has to be readable. |
| `Host.Host.ArpReceive` | net/arp.c:97-136 | Learns the sender of every well-formed packet and answers requests for this host, to the address of the asker. |
| `Host.ArpBytes` | net/arp.c:81-92 | An ARP packet byte by byte. |
| `Host.OtherArpIgnored` | net/arp.c:97-110 | What is too short, or not about IPv4 over Ethernet, is ignored. |
| `Host.Host.EthReceiveFrame` | net/ethernet.c:44-67 | Dispatches on the frame type to these two; other types have no effect. |
| `Host.OtherFramesIgnored` | net/ethernet.c:44-67 | Frames of other types have no effect. |
| `Host.Deliver` | net/ethernet.c:44-67 | A frame reaches a host if its first six bytes are that host's address or the broadcast. |
| `Host.Exchange` | net/udp.c:51-94 | Run end to end over the buffers of two hosts, a datagram makes exactly the call the sender intended if the hardware address known for the next hop is the receiver's or the broadcast, and none otherwise. |
| `Host.FirstContact` | net/ip.c:91-113 | Two hosts that do not know each other: the sender asks, hears the answer that the receiver indeed gives, and its datagram makes the intended call; both know each other afterwards. |
| `Host.ArpFrame` | net/arp.c:74-136 | A frame with an ARP packet teaches its receiver the sender's binding and is answered if it asks for the receiver. |
| `Host.ResolveAddress` | net/arp.c:74-136 | After a request and its reply each of two hosts resolves the other's address, and no handler was called. |

## Left out

- Fs.FileSystem.FsCreateDir: requires paths that fit 255 characters when normalised and components of at most 27, as do FsCreateFile and FsInstall; the code overruns its buffers on longer ones. FsDeleteFile requires this of the last component only. The functions they refine have no such limit.
- Fs.FileSystem.FsChangeDir: requires the joined path to fit in 255 characters, where one is joined, for the same reason.
- Fs.FileSystem.SyncInodesAndBitmap: bytes after the last field in the last sector of a table are written as zeros, where the code writes what follows the table in memory; a reload never looks at them.
- Mkdir.CreateDirPlain: assumes `PlainTail`; without it names are duplicated, which `Uniqueness.CreateDirUnique` shows to be the exact condition.
- Creation.CreateReadRoundTrip: assumes unique names and a path that is neither a directory nor goes through `.` or `..` below a missing one; `Creation.CreateFileUnique` and `Creation.CreateFileIsolation` give the exact conditions.
- Guarantees.CreateNewPaths: assumes unique names and `PlainTail`, as the deletion of a name that occurs twice uncovers the other.
- Creation.CreateFileIsolation: assumes `PlainTail`, under which it is exact.
- Sessions.CwdOverRuns: over scoped runs only, since a file created over a directory may hide it.
- Capacity.CreateDirSucceeds: for paths with `PlainTail`, as Capacity.CreateFileSucceeds; what a mkdir of any path costs is in `Capacity.CreateDirCosts`.
- DottedQuad.ParseIp: a field shifted out of the upper end of a signed 32-bit number is taken modulo 2 to the 32, as the machine does.
- Host.Host.IpSend: the frames that the card has while an address is being resolved are a parameter; the delay between the rounds is left out.
- Tree.InstalledDirs: for user names of at most 63 characters, the size of their field, whose components are plain names of at most 27.
- Host.Deliver: which frames the network card passes on is not part of the repository's code; the card's filter is modelled as the address rule of Ethernet.
- Host.Host.UdpSend: requires a payload whose length plus 8 fits 16 bits; longer ones wrap the length.
- Host.Host.IpReceive: requires of a datagram for this host that, by the lengths it states, it lies in the buffer; `Wire.ReadableExactly` says when it does not, and the code then reads past the packet.
- Rtc.GetTime: takes the six registers and register B as read; waiting while they change is left out.
- Rtc.UnixTimestamp: takes a valid date.
- Sessions.RunKeeps: a run goes on after an interrupted delete, but not after an interrupted mkdir or create, which `Torn` shows to break the invariant; `Guarantees.TornOverRuns` speaks of their cuts in any state without an earlier interrupted delete.
- Disk errors and timing: the disk is reliable and a single-sector write is atomic.
- Fs.FileSystem.FsListDir: names are read up to their terminator or 28 bytes; the copy in the code goes on where a name has no terminator.
- Character buffers for paths and names in memory are sequences; the host name, user name and password hash in the superblock are an uninterpreted area of 160 bytes.
- Handlers are numbers and calls are recorded; what a handler does, such as sending from inside a receive, is not modelled.
- `fs_format`: it is not called by the rest of the repository.
- ICMP, DNS queries and responses, NTP, the drivers, the screen, the installer's dialogue, the login loop, the prompt and the password hash.
