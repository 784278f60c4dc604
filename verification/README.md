# TFAT in Dafny

TFAT is a command-line driver for FAT16 and FAT32 volumes. It reads the file allocation table and
its mirror into memory, looks names up through directories stored in cluster chains, deletes and
undeletes files, dumps them, reassembles long names, and writes the table back when the volume is
unmounted. This project models that driver and proves what its operations do to a volume.

`dafny verify dfyconfig.toml` checks everything.

## How it is built

The driver is modelled twice, and the two are tied together.

* **As the source writes it.** `Driver` has a `Device` (bytes and a seek position) and a class
  `Volume` with the fields of the C program: the two tables and the root directory as arrays, the
  geometry, the current path. Its methods are the loops of `src/fs.c`, `src/user.c`, `src/FAT16.c`
  and `src/FAT32.c`. `Lfn.LfnParser` is the long-name parser with its four global variables.
  `Records`, `Paths` and `Unicode` hold the string loops, on NUL-terminated arrays where the source
  edits strings in place.
* **As values.** `FatCells`, `Chains`, `Volumes`, `Layout`, `Dumps`, `Lfn.Parser` say what state
  each operation leads to. Every method's `ensures` equates its result and the whole new state with
  these functions (`State() == Delete(old(State()), ...)`).

The theorems are about the values, and hold for the class through those equations; `Commands`
carries this over to whole commands.

* `FatCells`, `Chains`, `Offsets`: one abstract table behind both encodings; when a chain walk
  ends; what a loop zeroes that clears the links it follows; when clusters lie apart on the disk.
* `Fields`: what the bytes mean. Boot sector, records and table entries are written from their values,
  apart from the functions that read them, and reading gives the values back; what name a record
  answers to; where mounting finds the tables and the root directory.
* `Volumes`, `Directories`, `Lookups`: `find` as recursive lookup, `parse_dir` after `write_dir`,
  the second lookup of the parent.
* `Ownership`: the invariant `Inv`. A directory is a chain of clusters. Live entries own disjoint
  chains that end, deleted ones a free first cluster; directory records, "." and ".." included, lead
  to known directories; no entry lies in the directory it names. It asks nothing of the mirror, of
  the number of table copies, or of table entries beyond the end of the disk.
* `Edits`, `Operations`: delete and undelete as edits of one entry, for every path; exactly when
  each is defined, and exactly when it keeps the invariant.
* `Runs`: sessions (a volume and the current path) and commands with what the user typed: delete,
  undelete, cd, and unmounting and mounting again. `Runs.RunInOrderIff` is about every sequence of
  commands; `Commands.Execute` carries one out on the driver object.
* `Layout`: the volume as bytes, unmounting and mounting again.
* `Ways`: the directories on a path; what an edit in the last of them leaves of the way to it.
* `Restore`: what undelete brings back after delete, and when it brings back another file.
* `Unicode`, `Lfn`, `LongNames`: the converter with its two passes, the parser, and the loop of
  `list` that drives it.
* `Examples`, `TwoFiles`: two FAT16 volumes and a FAT32 volume that meet the invariant, one of them
  with a directory, and a failing input for each property that the code does not have in general.

## Where the code and its evident intent differ

The code is modelled as it is; the theorem says exactly when it does what it is for.

* `write_dir` counts its index in bytes but uses it to count records, so from the second cluster on
  it writes memory far behind the buffer (`Directories.WriteParseIff`: right exactly for directories
  of at most one cluster). A command that would write a longer directory is not defined
  (`Runs.Safe`); longer directories that are only read do no harm.
* The FAT32 root directory is read and written with the same index into a buffer of one cluster
  (`Layout.RootInsideIff`: inside it exactly for a root chain of at most one cluster).
* `init_fat` reads two copies of the table whatever the count says; with fewer than two the root
  directory is not read from where it is written (`Layout.RemountKeepsRootIff`).
* `delete` looks the parent directory up a second time and uses the result unchecked, before it
  looks whether the file was found (`Operations.DeleteDefinedIff`).
* `delete` takes "." and ".." for files: it frees the clusters of the directory they lead to, whose
  entry stays live (`Operations.DeleteKeepsIff`).
* Two slashes at the end of a path make `get_parent_path` name the file itself, because it strips
  one only (`Paths.ParentTokens`, `Lookups.ParentOfFoundIff`); `delete` then frees the chain of a
  file and marks nothing (`Operations.DoubledPathBreaks`).
* `undelete` puts back whatever character was typed. With 0xE5 the record stays deleted over a
  cluster in use; with '.' or NUL a directory's record is no entry any more
  (`Operations.UndeleteKeepsIff`).
* `fix_deleted_char` takes a slash at index 0 for no slash, and appends a "?" to a path that ends in
  two slashes (`Paths.FixMasksLast`); a name that starts with a dot is masked before the dot is
  read as "current directory" (`Paths.MaskedIff`).
* `address_convertor` asks for one byte too few for a path like ".x": a dot with a name right behind
  it, and no slash at the end (`Paths.RoomyIff`). Such a command is not defined (`Runs.Safe`), nor is
  an undelete whose masked path is of that kind, as for ".a/b/" (`Paths.FixedHiddenIff`).
* `undelete` takes the first record that answers to the masked name. If an earlier record does, it gets
  the name instead, as after deleting "A.TXT" and "B.TXT" and undeleting "B.TXT"
  (`Restore.FoundAgainIff`, `Restore.SecondLost`). On a path through the file itself, such as "/A/B/../B",
  it finds nothing (`Restore.WayThroughLost`).
* `delete` leaves the records of the long name live, and `list` shows that name for the next record
  that it shows (`LongNames.OwnNameIff`, `LongNames.DeletedNameGoesOn`).
* `undelete` marks only the first cluster, and table entry 0 if there is none
  (`Restore.ChainRestoredIff`); it cannot bring back a name that is shown with 0xE5 first
  (`Restore.FoundAgainIff`).
* `dump` prints the same remainder of every cluster after the whole ones (`Dumps.DumpExactIff`).
* `find` returns a record that was never set for a path without a name
  (`Driver.Volume.FindPath`).
* `test_fat` truncates its index to 16 bits on FAT16, so entries from 65536 on are never compared.
* The end-of-chain tests accept more values than the "FAT Type Determination" section of the FAT32
  File System Specification names: every FAT16 value from 0xF000, every FAT32 value with bits 24 to
  27 set.
* `search` never finds a file of size 0 (`Fields.AnswersIff`), and the root entry count grows on every FAT32
  write (`Layout.SyncCountIff`).

## Model

| member | source | states |
|---|---|---|
| FatCells.EncodeRoundTrip | src/FAT16.c:85-102 | A link stored in an entry reads back as the same abstract cell if and only if it is below the end-of-chain range of that kind (0xF000, or 0x0F000000) and not 0. |
| FatCells.KindsSimulate | src/FAT.c:83-97 | FAT16 and FAT32 tables of portable links stand for one abstract table, before and after storing 0 or 0x0FFFFFFF (truncated to 0xFFFF) at any index. |
| FatCells.StoreCell | src/FAT16.c:95-102 | Storing 0 makes the abstract cell free, storing 0x0FFFFFFF makes it the end of a chain, on both kinds; no other cell changes. |
| FatCells.LinkIsNext | src/FAT32.c:103-110 | What `next_cluster` computes is the link of the abstract cell. |
| Chains.EndsIffNoRepeat | src/user.c:450-461 | With links inside the table, the walk from a cluster ends if and only if no cluster repeats, and then visits fewer clusters than the table has entries. |
| Chains.WalkDistinct | src/fs.c:167-177 | The clusters of a walk that ends are pairwise distinct, in the table, not 0, and fewer than its entries. |
| Chains.RepeatForever | src/user.c:454-460 | A cluster that occurs twice keeps the loop from ever seeing 0. |
| Chains.WalkUnique | src/fs.c:191-199 | A table and a first cluster determine the walk. |
| Chains.WalkFrame | src/user.c:541-547 | Only the cells on a walk matter for it. |
| Chains.FollowDone | src/user.c:541-547 | When delete's loop ends, the clusters zeroed are exactly those reachable from the first one in the original table. |
| Chains.ReachedIsWalk | src/user.c:541-547 | For a chain that ends, reachable and visited are the same. |
| Fields.FirstClusterOf | src/FAT32.c:98-101 | A record with the lower half of a number at byte 26 and the upper half at byte 20, low byte first, has that number as its first cluster on FAT32 and the lower half on FAT16. |
| Fields.FileSizeOf | src/FAT.h:40-54 | The four bytes from 28 on, low byte first, are the size of the file. |
| Fields.AttributeBits | src/FAT.c:131-139 | Of the attribute byte, whatever its other bits are, bit 4 makes a directory and bit 3 a label or long-name part. |
| Fields.CaseBits | src/FAT.c:160-195 | Of the case byte, bit 3 asks for the name in lower case and bit 4 for the extension. |
| Fields.LowerCase | src/FAT.c:160-181 | Lower case is letter by letter what the two alphabets say; bytes that are no capital letters stay. |
| Fields.AnswersIff | src/fs.c:35-70 | A record with name n and extension e, filled up with spaces or behind a NUL, answers to x if and only if it has a size, is no label and x is n, a dot and e, or it is a directory and x is n; both in the case its bits ask for, '?' for 0xE5 and 0xE5 for 5 in front. |
| Fields.FileAnswersIff | src/fs.c:48-53 | A plain file with upper-case names answers to x if and only if x is its name, a dot and its extension. |
| Fields.LowerFileAnswersIff | src/fs.c:48-53 | With both case bits, to the same in lower case. |
| Fields.LinkBits | src/FAT32.c:103-110 | With any four high bits, a FAT32 entry ends a chain if the next four bits are all set, and else links to its 28 low bits; a FAT16 entry ends it if its own four high bits are, and else links to its value. |
| Fields.EntryAt | src/FAT16.c:46-50 | Entry i of a table that is read lies at i times the entry width, low byte first. |
| Fields.BootRead | src/FAT.h:21-36 | For all header values of both kinds: reading a boot sector that holds them in their packed fields gives back each, as kind, sizes, counts and positions in bytes. |
| Fields.BootSectorIs | src/FAT.h:21-36 | For all header values there is such a boot sector. |
| Fields.MountPositions | src/FAT16.c:40-65 | Mounting takes the table from behind the reserved sectors, the mirror from behind one table more, and the root directory and the data from behind all copies, at least two, entry by entry and byte by byte. |
| Fields.IdOf | src/lfn.c:173-180 | Of the id of a long-name record, bit 6 marks the record that comes first and the five low bits number the part. |
| Fields.CharactersOf | src/lfn.c:145-152 | The 13 characters of a long-name record, each low byte first, 5, 6 and 2 of them in its three fields, are joined in order. |
| Fields.AsksBits | src/user.c:126-165 | `list` asks for a name for a used record that is a directory, or neither label nor long-name part. |
| Offsets.DisjointIffFits | src/FAT32.c:92-96 | With 32-bit products and a cluster size that divides 2^32, clusters 2 to n-1 occupy disjoint ranges if and only if (n-2) cluster sizes fit in 2^32. |
| Offsets.PositionsApart | src/FAT16.c:74-78 | For any cluster size, two clusters lie apart while the region fits in 2^32 bytes. |
| Offsets.MulWordIs | src/FAT16.c:74-78 | The word product used for offsets is the product modulo 2^32. |
| Records.RTrim | src/common.c:21-32 | In place, the C string becomes its longest prefix without trailing spaces; also for an empty and an all-space string. |
| Records.TrimMeaning | src/common.c:21-32 | Trimming gives a prefix that is empty or ends in a non-space, drops only spaces, and is idempotent. |
| Records.GetName | src/FAT.c:160-181 | The shown name: none for an unused record, '?' for 0xE5, 0xE5 for 0x05, lower case on request, trimmed at the first NUL and the trailing spaces. |
| Records.GetExtension | src/FAT.c:183-195 | The shown extension, likewise. |
| Records.SearchDir | src/fs.c:29-74 | `search` returns the first record that answers to the term, or nothing when none does. |
| Records.SearchFinds | src/fs.c:29-74 | A record that matches and has no match before it is the one that is found. |
| Records.TrimHead | src/FAT.c:160-181 | Replacing the first character of a name that is not blank commutes with trimming. |
| Paths.StrTok | src/fs.c:84-98 | Each call of `strtok` splits off the next token: the tokens before are that one and those of the rest. |
| Paths.TokensSplit | src/fs.c:84-98 | A slash separates: the tokens of a, '/', b are the tokens of a followed by those of b. |
| Paths.TokensRender | src/fs.c:84-98 | Tokenising a canonical path "/a/b/" gives back its components. |
| Paths.StripAndSeek | src/fs.c:118-127 | The shared start of both path helpers: one trailing slash becomes a NUL, and the loop stops at the last slash or at 0, inside the buffer. |
| Paths.GetParentPath | src/fs.c:116-132 | The in-place string code computes the prefix up to the last slash, for every non-empty path, within its buffer. |
| Paths.ParentTokens | src/fs.c:116-132 | The parent of a path ending in a slash loses exactly its last token if and only if the path does not end in two slashes; if it does, the parent names the same file. |
| Paths.ParentOfRender | src/fs.c:116-132 | The parent of "/../x/" is the path of the directory before x. |
| Paths.FixDeletedChar | src/fs.c:134-155 | The in-place string code masks one character and reports it, also when that character is the terminator. |
| Paths.FixMasksLast | src/fs.c:134-155 | For every path with a name in it: the masked and reported character is the first one of the last component if and only if the path is neither one component under an absolute root nor ends in two slashes; in those cases the slash, or NUL after an added component "?", is reported. |
| Paths.ConvertTokens | src/user.c:212-280 | On token lists an absolute path replaces, a relative one appends, "." keeps and ".." takes the parent's tokens and appends the rest. |
| Paths.RoomyIff | src/user.c:212-280 | For every current path and every typed path: the absolute path with its terminator fits into the block that `address_convertor` asks for if and only if the path is not a dot followed by a name without a slash at the end; otherwise it is one byte too long. |
| Paths.AddressConvertor | src/user.c:212-280 | In a block of the size asked for, which is large enough, the copying, reallocating and appending computes the absolute path, with all writes inside the block. |
| Paths.ConvertIsCwd | src/user.c:282-311 | What becomes the current path starts and ends with a slash. |
| Paths.ConvertHasNoNul | src/user.c:212-280 | The absolute path of NUL-free strings is a NUL-free, non-empty string. |
| Paths.DownAndUp | src/user.c:212-280 | One component down and ".." restore the path string, whatever the current path is. |
| Paths.UpFromCanonical | src/user.c:222-236 | ".." drops the last component of a canonical path; the root stays the root. |
| Paths.ConvertMasked | src/user.c:575-577 | Converting a path that can be masked and its masked form gives the same directory part, followed by the name and by the name with '?' first. |
| Paths.MaskedIff | src/user.c:575-577 | What `undelete` looks up for a typed path names the same directory and the masked name, and the character it keeps is the name's first, if and only if the typed path is `Maskable`: not empty, not ending in two slashes, not one component under "/", and no bare name that starts with a dot. |
| Paths.FixedHiddenIff | src/user.c:575-577 | The masked form of a typed path is of the kind that does not fit if and only if the typed path starts with a dot and a name right behind it and has a slash inside. |
| Paths.MaskedPath | src/user.c:575-577 | Whatever is typed, the path `undelete` looks up ends in a name that starts with '?' and in one slash. |
| Volumes.ResolveSplit | src/fs.c:76-114 | Lookup splits at the last token: it is the lookup of the parent, followed by entering that record and searching there. |
| Volumes.MarkRec | src/user.c:551-560 | The marking loop renames exactly the records byte-equal to the file's; every other record is as before. |
| Volumes.WriteTwice | src/user.c:553-555 | Writing a one-cluster directory after each mark leaves the disk as one write of the last buffer does. |
| Volumes.FreeingDone | src/user.c:541-547 | At the end both stored tables are zero at exactly the reachable clusters and unchanged elsewhere. |
| Volumes.DeleteTables | src/user.c:541-547 | Delete of a file that is found zeroes the entries its chain reaches in both tables, and changes no other. |
| Volumes.UndeleteTables | src/user.c:603-606 | Undelete of a file that is found stores 0x0FFFFFFF, cut to 0xFFFF on FAT16, at its first cluster in both tables, and changes no other entry. |
| Lookups.FoundInside | src/fs.c:76-114 | On any volume, a name found below a directory has a parent that is found, is a directory with a readable chain, and whose contents list the record found. |
| Lookups.NamesIff | src/fs.c:116-132 | The parent path names exactly the directory of a path (or is "/") if and only if the path does not end in two slashes and has nothing but "/" before a single name. |
| Lookups.ParentOfFoundIff | src/user.c:517-533 | For every path that is found, on any volume: the second lookup of the parent succeeds and its listing has a record byte-equal to the file's, if and only if the path is of that kind, or it ends in two slashes and the record found lists itself. |
| Lookups.ParentOfDoubledPath | src/fs.c:116-132 | With two slashes at the end the "parent" is the file itself. |
| Lookups.CdDownAndUp | src/user.c:282-311 | From every current path `cd` can have set, doubled slashes included: `cd x` either fails and keeps it, or `cd ..` afterwards succeeds and restores it. |
| Layout.TableRoundTrip | src/FAT16.c:46-50 | A table written as little-endian entries of its width reads back as the same table. |
| Layout.RootInsideIff | src/FAT32.c:69-82 | The loop over the FAT32 root chain keeps every transfer inside its buffer of one cluster if and only if the chain has at most one cluster. |
| Layout.RootIsOneClusterIff | src/FAT32.c:161-171 | So the volumes the driver is modelled on are exactly those whose root is read and written inside that buffer. |
| Layout.CopiesReadBack | src/FAT32.c:147-152 | After the loop over the copies every copy on disk is the table, and no byte outside the tables has changed. |
| Layout.SyncRegions | src/FAT16.c:129-144 | After `write_fat` the disk holds the root directory and every copy of the table; all other bytes are as before. |
| Layout.SyncCountIff | src/FAT32.c:158-171 | On FAT32 `write_fat` adds the root's records to their count again, modulo 2^16: the count agrees with the buffer afterwards if and only if the volume is FAT16. |
| Layout.SyncKeepsBoot | src/FAT32.c:139-172 | `write_fat` leaves the boot sector alone, so the geometry read back is the same. |
| Layout.Reload | src/FAT16.c:29-66 | With two copies or more, loading after writing gives the same table, an equal mirror, the same root directory and data offset. |
| Layout.Remount | src/user.c:638-649 | Unmounting and mounting a volume with two copies or more is the identity but for the refreshed mirror. |
| Layout.RemountKeepsRootIff | src/FAT16.c:46-63 | Remounting gives back every possible root directory if and only if there are at least two copies (for a root directory that is not empty). |
| Dumps.DumpShape | src/user.c:421-444 | The output is min(n, s div K) whole clusters followed by the first s mod K bytes of every further cluster. |
| Dumps.DumpExactIff | src/user.c:421-444 | The output is the first s bytes of the chain's data, or all of it, if and only if s is a multiple of K or the chain has no cluster behind the last partial one. |
| Dumps.HexMeaning | src/user.c:380-391 | Byte i of the file is shown as three bytes: its two hexadecimal digits, capitals, the high one first, and a space. |
| Dumps.DumpedFileIff | src/user.c:354-448 | What `dump` prints is the file's bytes up to the end of its chain, and what `hdump` prints their image, if and only if the size is a multiple of the cluster size or the chain is no longer than the size needs. |
| Dumps.HexAppend | src/user.c:380-391 | The image of a concatenation is the concatenation of the images, so `hdump` is the image of `dump`. |
| Driver.ReadBootSector | src/FAT.c:33-56 | Reading the 36 common and 476 specific bytes gives the geometry of the first sector. |
| Driver.ReadTables | src/FAT16.c:44-59 | The table and its mirror are the first two copies, and the position is then behind the last one. |
| Driver.ReadRoot | src/FAT32.c:62-82 | The root directory, its entry count and the data offset, for both kinds; on FAT32 by relative seeks along the chain. |
| Driver.ReadRootChain | src/FAT32.c:69-82 | The loop over the FAT32 root chain, with its index: the buffer receives the root cluster, and the entry count grows by its records. |
| Driver.WriteTables | src/FAT32.c:147-152 | The loop writes the table once per copy and leaves the position behind the last one. |
| Driver.WriteRoot | src/FAT32.c:158-171 | The root directory is written in its place; on FAT32 the entry count grows modulo 2^16. |
| Driver.InitFat | src/FAT.c:33-56 | From a device at position 0, `init_fat` builds the state the disk stands for, in fresh buffers. |
| Driver.Volume.Mount | src/user.c:30-50 | A mounted volume has that state, with "/" as current path. |
| Driver.Volume.NextCluster | src/FAT16.c:85-93 | The link of the entry, 0 at the end of a chain, for both kinds; on abstract cells it is the next cluster. |
| Driver.Volume.ChangeCluster | src/FAT32.c:112-116 | Table and mirror get the value, converted to the entry's width, at the converted index, and nothing else changes. |
| Driver.Volume.TestFat | src/user.c:500-510 | The entries reported are exactly those for which table and mirror differ at the index truncated to 16 bits on FAT16; none is reported if and only if they agree at every index that fits. |
| Driver.Volume.Chain | src/user.c:450-461 | The loop visits exactly the walk from its argument, and ends. |
| Driver.Volume.FreeChain | src/user.c:539-547 | Delete's loop ends on every table with links inside it, cyclic or not, and zeroes exactly the clusters reachable in the original table, in both tables. |
| Driver.Volume.ReadCluster | src/fs.c:170-172 | Seek and read return the bytes of the cluster. |
| Driver.Volume.WriteCluster | src/fs.c:192-194 | Seek and write replace the cluster and nothing else. |
| Driver.Volume.ParseDir | src/fs.c:157-180 | The concatenated clusters of the directory's chain; NULL for a non-directory and for an empty chain. |
| Driver.Volume.WriteDir | src/fs.c:182-200 | The loop changes the disk exactly as the strided writes along the chain do; nothing for a non-directory. |
| Driver.Volume.FindPath | src/fs.c:76-114 | The tokenise/search/parse loop returns what recursive lookup over the token list returns, and NULL exactly when that fails; for a path without a name it returns a record that was never set. |
| Driver.Volume.MarkFolder | src/user.c:551-560 | The loop marks the folder in place and, unless it is the root, leaves the disk as the marked folder written once; unchanged when nothing matches. |
| Driver.Volume.OpenParent | src/user.c:525-531 | The parent's record and a buffer of its own with its listing; for "/" the root buffer itself. |
| Driver.Volume.DeleteFile | src/user.c:512-567 | The whole new state after `delete`: both tables, root buffer and disk; no change when the file is not found. |
| Driver.Volume.UndeleteFile | src/user.c:569-626 | The whole new state after `undelete`. |
| Driver.Volume.DumpChain | src/user.c:416-444 | The bytes printed for a chain and a size, as `dump` or `hdump` print them. |
| Driver.Volume.DumpFile | src/user.c:354-448 | The same for the file a path names; nothing when it is not found. |
| Driver.Volume.Cd | src/user.c:282-311 | The current path becomes the absolute path if that is "/" or a directory that is found, and stays otherwise. |
| Driver.Volume.WriteFat | src/FAT.c:266-272 | The whole new state: the mirror equal to the table, the disk with all copies and the root directory. |
| Directories.WriteOthers | src/fs.c:182-200 | `write_dir` leaves every data cluster outside the chain alone, however many entries the table has beyond the disk. |
| Directories.WriteStrided | src/fs.c:193-197 | Cluster number j of the chain receives the memory 32 j cluster sizes behind the buffer's start. |
| Directories.WriteParseIff | src/fs.c:157-200 | `parse_dir` after `write_dir` gives back what was written, whatever lies behind the buffer, if and only if the chain has at most one cluster. |
| Directories.ListingAfterWrite | src/fs.c:157-200 | `write_dir` does not change the chain, so `parse_dir` reads the clusters that were written. |
| Ownership.SlotAtOk | src/fs.c:157-180 | Every record of a directory as `parse_dir` reads it lies in one slot of one cluster of its chain. |
| Ownership.ResolveSlot | src/fs.c:76-114 | On a volume in good order lookup never loops or leaves the disk, and what it finds is a record of some slot that answers to the last name. |
| Ownership.FindByPlace | src/fs.c:76-114 | Lookup follows directories one name at a time, through chains of any length, and searches the last. |
| Ownership.EnterPlace | src/fs.c:102-104 | Entering a found record continues in that directory, and fails for a file and for a directory without cluster. |
| Edits.EditedRecord | src/user.c:551-560 | After an edit the records byte-equal to the target in the cluster that is written are renamed; every other record on the volume is the same. |
| Edits.UntouchedRecord | src/user.c:541-560 | A record that was not renamed keeps its clusters and its chain. |
| Edits.EditKeepsInv | src/user.c:512-626 | Changing cells of the target's own clusters and renaming it keeps the ownership invariant. |
| Edits.EditSparesFile | src/user.c:512-626 | Any other live file keeps record, chain and every data byte. |
| Operations.EntryElsewhere | src/user.c:541-547 | The chain of an entry does not run through the directory that lists it, so freeing it cuts no directory the marking loop is about to write. |
| Operations.MarkDefinedIff | src/user.c:549-560 | The marking loop stays inside its buffer if and only if it marks nothing or the directory it writes has one cluster by then, on the tables as the loop before has left them. |
| Operations.MarkIsEdit | src/user.c:549-560 | And then it rewrites the cluster that directory starts with, and no other. |
| Operations.DeleteIsEdit | src/user.c:512-567 | Delete of an entry, or of a record without cluster, that its loop marks is an edit of the record the path leads to: its chain freed, its name marked. |
| Operations.DeleteKeepsIff | src/user.c:512-567 | Delete keeps the ownership invariant if and only if the target has no cluster, or is marked and is no "." or "..", or is not marked and its first cluster was free. |
| Operations.DoubledPathBreaks | src/user.c:517-560 | A live file with a cluster, deleted by a path that ends in two slashes, loses its chain and stays live: the invariant ends. |
| Operations.UndeleteIsEdit | src/user.c:569-626 | Undelete is an edit too: the first cluster marked as end of chain, the character put back. |
| Operations.UndeleteDefinedIff | src/user.c:569-626 | Undelete of what can be typed is defined if and only if, when the name is found, the directory written has one cluster. |
| Operations.UndeleteKeepsIff | src/user.c:569-626 | Undelete keeps the ownership invariant if and only if the entry has no cluster, or the character is not 0xE5 and a directory's entry stays one (no leading dot, no NUL while a "." or ".." leads to it). |
| Operations.DeleteDefinedIff | src/user.c:522-533 | On a volume in good order, for every path: delete stays off missing lookup results and outside memory if and only if the path and its parent have a name, the parent is "/" or is found (whether or not the file is), and the directory written has one cluster. |
| Runs.DefinedIffSafe | src/command.c:206-227 | A command is defined, its path buffer included, if and only if it is safe, a condition on the command and the volume before it. |
| Runs.StepInOrderIff | src/command.c:206-227 | A defined command leaves the session in good order if and only if it is harmless, likewise. |
| Runs.RunInOrderIff | src/command.c:95-227 | Every sequence of delete, undelete, cd and unmount/mount commands, as typed, is defined throughout and stays in good order if and only if each command is safe and harmless when it is given. |
| Runs.RunSparesFile | src/user.c:512-649 | Over a whole run that stays in good order, a file no command is about keeps its record, its chain and every data byte. |
| Runs.RemountKeepsInv | src/user.c:638-649 | With two table copies, unmounting and mounting is defined, changes only the mirror and the disk copies, and keeps the invariant, whatever the mirror was. |
| Runs.SyncKeepsCluster | src/FAT32.c:139-172 | Writing the tables and the root touches no data cluster but the root's own. |
| Runs.DeleteTwice | src/user.c:512-567 | Deleting a deleted file changes no abstract cell, no record and no disk byte, and nothing at all when its entry is 0. |
| Runs.CdIff | src/user.c:282-311 | `cd` of any path moves to the absolute path if the directory before its last name can be reached and its first record of that name is a directory; otherwise the current path stays. |
| Runs.CdMovesIff | src/user.c:282-311 | `cd x` in a directory makes x part of the current path if and only if the first record that answers to x is a directory. |
| Runs.CdToRoot | src/user.c:287-289 | `cd /` moves to the root; `cd` with nothing typed changes nothing. |
| Runs.RunKeepsMirror | src/user.c:500-649 | Over every run that is defined, a mirror equal to the table stays equal, so that `test_fat` reports nothing. |
| Runs.RemountMirrors | src/user.c:638-649 | After a remount the mirror is equal to the table, which is as before, like the root directory; the current path is "/". |
| Commands.Execute | src/command.c:206-227 | One typed command carried out by the driver object: the session afterwards is the one the run goes on with. |
| Commands.Remount | src/user.c:638-649 | `umount`, then `mount` of the same device: the state the written disk stands for, with "/" as current path. |
| Ways.PlacesDistinct | src/fs.c:87-105 | Following names without dots never comes back to a directory passed before. |
| Ways.PlaceKept | src/user.c:551-560 | Renaming records in the last directory, and freeing or claiming the clusters of one of its entries, does not change the way to it, "." and ".." included, if the way does not enter the directory that entry names and uses no name in its own directory that the entry answers to. |
| Ways.NoDotsAvoids | src/fs.c:87-105 | Every way without "." and ".." is of that kind. |
| Restore.DeletedLeads | src/user.c:512-567 | After delete the name with '?' first leads to the same slot, or to an earlier record of the directory: the same slot if and only if no earlier record answers to that name. |
| Restore.RestoredMatches | src/FAT.c:160-181 | With the typed character as first byte the record shows the same name; the same bytes unless the name is shown in lower case. |
| Restore.FoundAgainIff | src/user.c:512-626 | Delete then undelete of one name: its record is back in its slot with the name's first character if and only if that character is not 0xE5 and no earlier record answers to the masked name; `find` then returns it. |
| Restore.MaskedNames | src/user.c:575-577 | If a typed path that can be masked stands for a directory and a name, what `undelete` makes of it stands for the same directory and the masked name, and the character it keeps is the name's first. |
| Restore.CommandsRestoreIff | src/user.c:512-626 | `delete d` then `undelete d` as typed, from any current path, for a file in a directory of any length: both are defined and the file is back in its slot if and only if the directory has one cluster, `d` is `Maskable` and has no hidden directory name in front, the name does not start with 0xE5, and no earlier record answers to the masked name. |
| Restore.RestoredMarkBreaks | src/user.c:603-617 | Delete, then undelete with 0xE5: the invariant holds in between, and afterwards if and only if the record that undelete finds has no cluster. |
| Restore.SecondLost | src/user.c:512-626 | Two files of one directory whose names differ in the first character only, deleted in the order of their records: undelete of the second gives its name to an earlier record, and the second is not back. |
| Restore.WayThroughLost | src/user.c:512-626 | On a path through the file itself, delete is defined and undelete of the same path changes nothing, if no other record of the directory has that name. |
| Restore.FirstClusterOnlyIff | src/user.c:603-606 | Bringing back the first cluster alone restores the table if and only if the chain had one cluster. |
| Restore.ChainRestoredIff | src/user.c:512-626 | After both commands, unless an earlier record answers to the masked name, the file's chain is its first cluster, the rest of the old chain is free, nothing else changed; the table is the old one if and only if there is no such record and there was one cluster. For a record without cluster the mark goes to entry 0, or to the first cluster of that earlier record. |
| Unicode.EscapeRoundTrip | src/lfn.c:128-135 | The three base-64 digits of an escape determine the unit. |
| Unicode.CodeMeaning | src/lfn.c:103-137 | One unit is shown as what the C library makes of it; if it fails, as itself up to U+007F and from U+00A0 to U+00FF, and as its escape otherwise. |
| Unicode.EscapeMeaning | src/lfn.c:36-45 | The escape is a colon and the three digits of the unit to base 64, the highest first, in the order 0-9, A-Z, a-z, +, -. |
| Unicode.SizePass | src/lfn.c:103-113 | The first pass counts exactly the bytes of the conversion. |
| Unicode.WriteUnit | src/lfn.c:116-137 | One unit appends exactly its bytes; the converter's own NUL stays inside the buffer. |
| Unicode.CnvUnicode | src/lfn.c:96-141 | For any converter the second pass fills exactly the bytes the first one counted, then the terminator; all reads and writes are in bounds. |
| Unicode.FirstUnitUnique | src/lfn.c:116-137 | With a decodable converter the first unit can be read off the front of the string. |
| Unicode.ConvertInjective | src/lfn.c:96-141 | With a decodable converter, names without U+003A that are shown the same are the same. |
| Unicode.AsciiDecodable | src/lfn.c:74-89 | The converter of the C locale is decodable. |
| Unicode.ColonCollides | src/lfn.c:91-95 | With U+003A two different names are shown the same. |
| Lfn.Add | src/lfn.c:170-195 | On parser states: the next state is sane again, so counts stay in 1..31 and the zero unit stays behind the parts. |
| Lfn.CopyPart | src/lfn.c:147-152 | The 26 bytes of the three fields land at the offset, with a zero unit behind them for a start record; the rest of the buffer is kept. |
| Lfn.LfnParser.Reset | src/lfn.c:155-164 | The parser is idle. |
| Lfn.LfnParser.CheckOrphaned | src/lfn.c:231-242 | An unfinished name is dropped; what is returned for printing is the text of exactly the parts collected so far, and reading them stays inside the buffer. |
| Lfn.LfnParser.Prepare | src/lfn.c:176-186 | An orphan is dropped, and a record that begins a name gets buffers of the size its number asks for. |
| Lfn.LfnParser.Collect | src/lfn.c:187-194 | A part and its offset are stored in bounds, in front of the parts stored before. |
| Lfn.LfnParser.AddSlot | src/lfn.c:170-195 | From any valid state the parser does what the state machine on values does. |
| Lfn.LfnParser.Get | src/lfn.c:201-224 | The complete name and the offset of its first record, or none; the parser is idle afterwards. |
| LongNames.Reassembly | src/lfn.c:147-224 | From any prior state, the records of a name of up to 31 parts, last part first, give exactly that name and the position of the first record. |
| LongNames.SplitThenFeed | src/lfn.c:147-224 | Round trip: every name of 1 to 403 units, padded and cut into records, is what the parser returns once they are fed to it, from any prior state. |
| LongNames.PartsAreNoName | src/lfn.c:201-224 | While parts are missing there is no name, and the parser holds the parts that have come. |
| LongNames.OrphanText | src/lfn.c:231-242 | What is printed about an unfinished name is the end of the name that these parts carry. |
| LongNames.StrayPart | src/lfn.c:170-195 | A part that begins no name is dropped when none is being collected, and drops a complete name that nobody asked for. |
| LongNames.ListOne | src/user.c:121-204 | One turn of `list`: which parser calls it makes and what it shows. |
| LongNames.List | src/user.c:117-205 | The loop shows, for every record, what the state machine on values shows. |
| LongNames.ShownIff | src/user.c:117-205 | `list` shows exactly the records that ask for a name and are live, or all such if deleted records are shown. |
| LongNames.ListFeeds | src/user.c:124-125 | Live long-name records show nothing and are all fed to the parser with their positions. |
| LongNames.ListShowsLongName | src/user.c:117-205 | A record that follows the records of a long name, and is shown, is shown with exactly that name, whatever the parser held before. |
| LongNames.ListShowsNext | src/user.c:117-205 | The name is shown for the first record after them that is not passed over, which need not be the one they belong to. |
| LongNames.OwnNameIff | src/user.c:117-205 | The record a long name belongs to is shown with it if and only if it is live or deleted records are shown. |
| LongNames.DeletedNameGoesOn | src/user.c:122-125 | Behind a deleted record that is not shown, the next record shown gets its long name. |
| Examples.ExampleInOrder | src/user.c:512-626 | A FAT16 volume with one live file of two clusters, whose table has more entries than the disk has clusters, meets the whole-run invariant. |
| Examples.NestedInv | src/user.c:512-626 | So does one with a directory below the root, its "." and a file in it. |
| Examples.ExampleLeads | src/user.c:512-626 | On the first of them the file's name leads to its record with no look-alike in front of it, so the hypotheses of the restore theorems can be met. |
| Examples.TextFileFound | src/fs.c:48-53 | A record with name "A" and extension "TXT" is found as "A.TXT", and as nothing else. |
| Examples.CdEnters | src/user.c:282-311 | `cd A` at "/" on the volume with directory A moves to "/A/". |
| Examples.CdStays | src/user.c:282-311 | `cd A.` at "/" on the volume with file A. stays there. |
| TwoFiles.PairInv | src/user.c:512-626 | A FAT32 volume with two files in the root directory meets the whole-run invariant. |
| Examples.LongChainLost | src/user.c:603-606 | The file of two clusters does not get its table entries back by undelete. |
| Examples.KanjiNameFound | src/FAT.c:169-172 | A name stored with 0x05 first is found, as the name that starts with 0xE5. |
| Examples.KanjiNameLost | src/FAT.c:169-172 | That name is not found again after delete and undelete, and its first cluster is then in use under a deleted name. |
| TwoFiles.PairLost | src/user.c:569-617 | On it, `delete /A.`, `delete /B.` and `undelete /B.` give the name of B to the record of A, and B is not back. |
| Examples.MissingParent | src/user.c:525-527 | `delete /B/A.` on a volume without directory B uses a lookup result that is not there. |
| Examples.DotDeleteBreaks | src/user.c:539-560 | `delete /A/.` frees the cluster of directory A while its entry stays live. |
| Examples.DotTargetBreaks | src/user.c:539-560 | So does deleting any "." or ".." that leads to a cluster, in a directory of one cluster. |
| Examples.DotRestoreBreaks | src/user.c:603-617 | Directory A deleted and undeleted with '.' or NUL: its "." then leads to a directory without an entry. |
| Examples.DoubledSlashBreaks | src/user.c:517-560 | `delete /A.//` frees the file's chain and leaves its record live. |
| Examples.OneCopyLosesRoot | src/FAT16.c:46-63 | With one table copy some root directory is not read back. |
| Examples.RootOverrun | src/FAT32.c:69-82 | A FAT32 root directory of two clusters: the second transfer lies behind the buffer. |
| Examples.TwoClustersGarbled | src/fs.c:193-197 | A directory of two clusters, whatever its contents, can come back garbled. |
| Examples.DumpTooMuch | src/user.c:421-444 | A file of 5 bytes with a second cluster is printed with bytes of that cluster. |
| Examples.CycleNeverEnds | src/user.c:450-461 | The walk of a cluster that links to itself does not end. |
| Examples.FarClusterWraps | src/FAT32.c:92-96 | With 32-byte clusters, cluster 2^27 + 2 lies on cluster 2. |
| Examples.RootedNameSpoilt | src/fs.c:146-152 | "/A" is masked to "?A" and the slash reported as the deleted character. |
| Examples.DoubledNameSpoilt | src/fs.c:146-152 | "A//" is masked to "A/?" and NUL reported as the deleted character. |
| Examples.HiddenNameOverrun | src/user.c:237-253 | ".x" at "/" is given three bytes, and needs four. |
| Examples.HiddenNameUndefined | src/user.c:237-253 | So `delete` and `cd` with such a path are not defined in any session. |
| Examples.HiddenDirOverrun | src/user.c:575-577 | ".a/b/" fits its block, its masked form ".a/?" does not. |
| Examples.DoubledSlashParent | src/fs.c:116-132 | The parent of "/A//" names A. |
| Examples.EmptyComponentParent | src/user.c:525-526 | The parent of "//A/" is not "/" and has no name in it. |

## Left out

- Runs.RunInOrderIff: runs with a remount are about volumes with two table copies or more; `Layout.RemountKeepsRootIff` says what is lost with fewer.
- Runs.StepInOrderIff: relative to one set of directory clusters; that a harmful command leaves no other set for which the volume is in order is not stated, because directories that no path leads to can be in the set.
- Runs.RunSparesFile: a command is also about a record byte-equal to the one found that has a cluster or lies in the directory written, because the marking loop cannot tell them apart.
- Runs.DefinedIffSafe: what a command does to memory and disk when it is not defined (a write behind a buffer, a missing lookup result) is not modelled beyond `Directories.WriteStrided`.
- Restore.FoundAgainIff: stated for names that do not start with a dot, in a directory of one cluster, on ways that do not go through the file itself or by its name (`Ways.Avoids`); for those that do there is `Restore.WayThroughLost`, which is no exact condition.
- Restore.CommandsRestoreIff: stated for names that do not start with a dot and for the same ways.
- Driver.Volume.FindPath: which record is returned for a path without a name is left open, as the source leaves it.
- Driver.Volume.DumpFile: a path without a name is excluded, because the record dumped was never set, and so is one that does not fit its block; headings and rulers are not part of the output.
- Driver.Volume.Cd: so are a path of slashes only, other than "/", and one that does not fit its block.
- Driver.Volume.ParseDir: the listing is the concatenation of the clusters; a cluster size that is no multiple of 32, for which the source would leave gaps between them, is not modelled apart.
- Driver.ReadRoot: a FAT32 root chain of more than one cluster is excluded, because it is read and written outside its buffer (`Layout.RootInsideIff`); so is a FAT32 boot sector with fixed root entries.
- Layout.Remount: the geometry is one whose table sizes do not wrap in 32 bits (`Layout.Sound`), on a device that holds everything the geometry names; short reads and writes are not modelled.
- Driver.Volume.Mount: that it gives up when the media type byte is 0, and the volume label, are not modelled; nor is the FSInfo sector of FAT32, which is read and never used.
- Driver.Volume.Chain: the printed form, which truncates a cluster number to 16 bits, is not modelled.
- Commands.Remount: read-only mounts, on which delete and undelete are refused and nothing is written back, and the time between unmounting and mounting, when every command is refused.
- Data region: chains and directories of the invariant lie on the disk and within its first 2^32 data bytes (`Directories.IsDataCluster`); `Offsets.DisjointIffFits` says what happens beyond.
- Heap: leaks and the fixed buffers for shown names and typed words are not modelled; other buffers have the length the code asks for in `parse_dir`, `cnv_unicode`, `lfn_add_slot` and the path helpers. What a write behind one of them does is not modelled.
- The C library: `wcstombs` is a parameter, one unit at a time; `tolower` is that of the C locale; `strtok` and `strcmp` are what the standard says.
- Commands `ls`, `info`, `fat`, `dump_fat`, `test`, the prompt, help and error messages: user interface, one loop each and no state.
- File attributes and times as shown, and labels: single expressions.
- The long-name checksum: the source stores it and never looks at it.
