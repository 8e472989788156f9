# Dafny models of the FSSO file system and of four parts of BFD

The repository is a small operating system with its image builder, and a copy of GNU binutils. This project
models the code with the most to get wrong and proves what that code is for.

**FSSO** (`Fsso*.dfy`). The image builder formats a disk and adds files; the kernel reads the same bytes back.
`FssoWriter` and `FssoReader` are the two programs, statement by statement, over one byte array. `FssoImage`
says what every byte of a disk is as a function of what has been put on it, and `FssoRun` what each add does,
failures included; `FssoOnDisk` gives the bytes one by one, and what an add takes by the bitmaps alone.
`FssoRoundTrip`, `FssoFiles`, `FssoPaths` and `FssoSmall` connect the writer with the reader over all runs.

**ar archives** (`Ar*.dfy`). `ArNames`, `ArArmap` and `ArWrite` write an archive: name table, symbol index from
predicted offsets, padded members; `ArOnDisk` gives the result byte by byte. `ArRead` walks and indexes one.
`ArLayout` compares predicted with actual offsets, `ArIndex` reads indexes back, `ArRoundTrip` and `ArFiles` read
whole SVR4-style archives back, `ArBsd44` whole BSD 4.4 ones, index and opening included; `ArThin` and `ArWide` are
archives with a wrong index.

**The a.out linker** (`Aout*.dfy`, `Patches.dfy`, `Align.dfy`, `ZMagic*.dfy`). `AoutReloc`, `AoutSection`,
`AoutExt` and `AoutPartial` are about relocation: what one link leaves in each word, and a partial link (`ld -r`) and
a final link against a direct link, with every edit of section contents as a `Patch`; `AoutDrift` is an input for
which they differ. `AoutSymtab` is the symbol loop as a state machine, `AoutLink` the same loop over its buffers,
`AoutRenumber` and `AoutHeaders` what it keeps. `AoutCopies` and `AoutValues` say what is in each record it writes,
`AoutStabs` what the sums of header stabs count and which headers are folded by them. `AoutJoin` joins relocation and
symbols: the symbol table that a partial link writes is what the laws about relocation ask for. `ZMagic` lays out a
demand-paged file.

**Stateful structures.** `IoState` and `BfdIo` are reading, writing and seeking on a stream that may fail,
`MemoryFile` the in-memory BFD, `SectionList` the doubly linked section list on the heap, and `ArcGot`,
`ArcGotRuns` and `ArcGotList` the GOT allocator, with `ArcGotLoad` on what the dynamic loader makes of its
relocations.

Loops, buffers, arrays and linked nodes of the code are loops, arrays and objects here; each such method is tied
to a function of its inputs or of the old state, and the laws are lemmas about those functions. Struct fields are
laid out byte by byte where the code depends on it.

## What turned out not to hold as one would expect

* A path never reaches a file whose stored name has a dot, since dots separate directories and only the root is
  one (`FssoPaths.ReachedIff`, an if-and-only-if). Both files the image builder itself writes are of that kind
  (`FssoPaths.MainsFilesUnreachable`).
* The FSSO writer and reader compute different addresses for inodes from number 13 on
  (`FssoRoundTrip.InodeAddresses`). Such an inode gets a name in no run exactly on disks of 48 blocks or more, or
  with at most 13 inodes (`FssoSmall.LowInodesIff`); on all others some run leaves a file that is found and cannot
  be read (`FssoSmall.SmallDiskLosesFile`). The tool itself formats 4096 blocks.
* An archive without index and long names whose first file is called `__.SYMDEF` (or `ARFILENAMES`) loses that file
  when read; names of 15 bytes with a space, and longer ones with a newline or a backslash, are not read back.
  `ArFiles.FilesRoundTrip` says that nothing else goes wrong; `ArFiles.SymdefFileIsLost` is an instance.
* A BSD 4.4 archive without index whose first file is called `__.SYMDEF`, or has a name of 17 to 20 bytes that
  begins so, is not read back either (`ArBsd44.IndexNamesAreLost` has an instance of both), nor, where names are
  padded with slashes, is one whose first file is called `ARFILENAMES`. Nothing else goes wrong, and no other name
  is lost: `ArBsd44.Bsd44RoundTrip`, an if-and-only-if.
* The BSD index writer steps over the contents of members even in a thin archive, which stores none
  (`ArThin.ThinIndexIsWrong` is an instance), and the other two writers do not count BSD 4.4 names
  (`ArWide.WideIndexIsWrong` is one for the 64-bit form; `ArLayout.PredictedIffSteps` is an if-and-only-if).
  Targets with BSD 4.4 names always ask for the BSD index (libbfd-in.h:362-376), so only the 64-bit form, to which
  that writer turns when offsets do not fit (archive.c:2521), can meet such names; the COFF writer never does.
* A partial link followed by a final link differs from a direct link by an amount that depends on the kind of
  reloc: 0, or the input section's address, or how far its output section was moved. `AoutReloc.LinkTwice` gives it
  for every kind; the contents agree exactly when the amount vanishes in every word (`AoutPartial.PartialLinkStd`)
  or, with extended relocs, does not reach the bits of any field (`AoutPartial.PartialLinkExt`).
  `AoutDrift.PartialLinkDiffers` is an input where one reloc drifts.
* A partial link leaves a PC-relative word, or addend, short of what it stands for by the same amounts: by the input
  section's address or by how far its output section is from it (`AoutSection.StdPartialWord` and `AoutExt.Missed`
  give it for every kind; every other word of either link is right).
* When a weak definition loses against another, the symbol table gets the address of the one that lost under the
  index of the name, if its input comes first (`AoutValues.OverriddenWeak` is an instance); a symbol gets the address
  of the definition its name ends in if and only if it stands in no section, or there
  (`AoutValues.DefinitionIff`).
* A normal GOT entry ends up with its symbol's address if and only if the object is not moved or the loader gets a
  relocation for it; for a local symbol in a position-independent object one is reserved and none written
  (`ArcGotLoad.NormalIsAddress` and `ArcGotLoad.ReservedUsed`, both if-and-only-if).
* Forcing out a symbol whose type cannot be written leaves its index at -2 (`AoutRenumber.ForceIndexIff`), for the
  rest of the link if it is new or indirect (`AoutRenumber.ForcedForGood`), and symbol maps can get that index
  (`AoutRenumber.ForcedNewIsLost` is an instance). Or-ing the external bit into two of the weak types gives
  the types of other sections (`AoutRenumber.OtherTypeTellsSection`).
* For every target of the library text and data are apart in the file (`ZMagicLayout.SeparateInFile`). Only under
  contiguous mapping, a flag that defaults to 0 (aout-target.h:274-275) and that no target sets, can they overlap,
  and do so exactly when they overlap in memory (`ZMagicLayout.FileOverlapIff`, an if-and-only-if;
  `ZMagicLayout.OverlapExists` is an instance), since the test meant to keep the data behind the text compares an
  unsigned difference with 0. Data placed far enough below the text gets a negative position in the file
  (`ZMagicLayout.NegativeIff`).
* `strip_some` can keep a header's N_BINCL and drop its N_EINCL, so that the brackets written do not balance
  (`AoutHeaders.StripSomeSplits`); no other option can (`AoutHeaders.FoldingKeepsNesting`). A header that follows an
  N_MAIN stab is opened even if it has been before, since the type of that stab, masked, is N_INDR and the symbol
  behind it is passed through unseen (`AoutHeaders.MainLeads`).

## Model

| member | source | states |
|---|---|---|
| FssoWriter.FormatDisk | tools/mkfsso.c:120-159 | formatting in place gives, byte for byte, the disk that holds nothing but an empty root directory |
| FssoWriter.AllocInode | tools/mkfsso.c:19-34 | the inode found is the lowest clear one from 1 on, its bit and no other is set; none means nothing changed |
| FssoWriter.AllocBlocks | tools/mkfsso.c:36-54 | the blocks found are the lowest free ones in order; when there are too few, all that were free end up marked |
| FssoWriter.WriteData | tools/mkfsso.c:56-65 | the file's bytes land in its blocks, the rest of the last block stays zero, no other byte of the disk changes |
| FssoWriter.WriteInode | tools/mkfsso.c:67-75 | the inode has the size, the type and the block numbers, zero elsewhere, and nothing else changes |
| FssoWriter.AddEntry | tools/mkfsso.c:77-106 | the entry with the name cut to 255 bytes and a NUL goes into the first free slot of the root; a full root is left alone |
| FssoWriter.AddFile | tools/mkfsso.c:12-107 | one add turns the image of a disk into the image of the disk after the add, in each of its four outcomes, with everything a failing add leaks |
| FssoRun.AddKeepsWellFormed | tools/mkfsso.c:12-107 | every add, failing ones included, keeps allocation sequential, inodes inside the table and at most three entries |
| FssoRun.RunKeepsWellFormed | tools/mkfsso.c:12-107 | so does every run; what earlier adds stored stays |
| FssoRun.OwnersDisjoint | tools/mkfsso.c:36-49 | no block belongs to two inodes; each owned block is above the root's and its bit is set on the disk |
| FssoRun.UnmarkedIsZero | tools/mkfsso.c:36-65 | a data block whose bit is clear is all zero, after any adds |
| FssoRun.AddKeepsBlocks | tools/mkfsso.c:56-65 | no add, successful or not, changes a block that an earlier file owns |
| FssoRun.FreeCounts | tools/mkfsso.c:100-101 | the superblock's counters on the disk against the clear bits of the bitmaps on the disk, exactly, with the failed adds' share |
| FssoRun.FreeCountsConserved | tools/mkfsso.c:131-159 | over any run of successful adds free_inodes is the number of clear inode bits, and free_blocks one more than the clear block bits |
| FssoOnDisk.AddTakes | tools/mkfsso.c:12-107 | which of its four outcomes an add has is settled by the clear bits of the two bitmaps and the number of names; how many bits each takes, the failing ones included; and that only a successful one makes an entry |
| FssoOnDisk.SuperOnDisk | tools/mkfsso.c:131-143 | every word of the superblock of every disk, its name, version and zeros, least significant byte first |
| FssoOnDisk.InodesOnDisk | tools/mkfsso.c:67-75 | every inode word by word: the root's, a file's with its size and blocks, and the zeros of one whose blocks ran out |
| FssoOnDisk.EntriesOnDisk | tools/mkfsso.c:84-99 | every entry of the root: its number, its name, and zeros behind it |
| FssoOnDisk.DataOnDisk | tools/mkfsso.c:56-65 | a file's data in its blocks, one after another, and zeros to the end of the last |
| FssoRoundTrip.InodeAddresses | kernel/fsso.c:25-40 | reader and writer mean the same place for an inode exactly below 13; from then on they differ by 36 bytes a block |
| FssoRoundTrip.InodeReads | kernel/fsso.c:25-40 | below 13 the reader gets exactly the inode bytes the writer left |
| FssoRoundTrip.InodeFields | kernel/fsso.h:27-37 | size, type and the twelve block numbers survive the packed layout |
| FssoRoundTrip.EntryReads | kernel/fsso.c:60-63 | the byte-by-byte comparison matches a stored entry exactly when the names are equal |
| FssoRoundTrip.FindInRoot | kernel/fsso.c:43-70 | looking a name up in the root gives the first entry of that name, or 'not found' if there is none |
| FssoRoundTrip.FindElsewhere | kernel/fsso.c:48-50 | everything below inode 13 but the root is not a directory |
| FssoRoundTrip.FileReads | kernel/fsso.c:103-135 | reading a stored file gives its data padded with zeros to whole blocks, cut to the buffer |
| FssoRoundTrip.Mounts | kernel/fsso.c:9-23 | the superblock of every written disk has the magic number and the number of inodes it was formatted with |
| FssoRoundTrip.MountDisk | kernel/fsso.c:9-23 | so mounting it succeeds, and the laws about reading apply to the reader it gives |
| FssoSmall.LowInodesIff | kernel/fsso.c:25-40 | every run keeps the named inodes below 13 if and only if the disk has at least 48 blocks or at most 13 inodes |
| FssoSmall.SmallRunEnds | tools/mkfsso.c:12-107 | on all other disks twelve adds of large files, which fail once blocks run out, and one of an empty file give that file inode 13 |
| FssoSmall.SmallDiskLosesFile | kernel/fsso.c:25-70 | that file is found under its name, and reading it says it is not a file |
| FssoFiles.NamedInodesLow | tools/mkfsso.c:84-104 | after any run on a disk of 48 blocks or more, the named inodes are 1, 2 and 3 |
| FssoFiles.RoundTrip | kernel/fsso.c:43-135 | after any run of adds, on disks of every size, a file added under a name no earlier file has is found under it; if its inode is below 13, as always on disks of 48 blocks or more, reading it gives its data with zero padding |
| FssoReader.NameMatches | kernel/fsso.c:59-63 | the comparison loop answers whether the entry starts with the name and its NUL |
| FssoReader.Filesystem.Mount | kernel/fsso.c:9-23 | mounting succeeds exactly on the magic number and copies the superblock only then |
| FssoReader.Filesystem.FetchInode | kernel/fsso.c:25-41 | the inode read, on any disk: the bounds test, the block and the slot in it |
| FssoReader.Filesystem.FindName | kernel/fsso.c:43-70 | the search over all blocks of a directory, on any disk, with its three errors |
| FssoReader.Filesystem.Resolve | kernel/fsso.c:72-101 | the pointer walk over a path is the left fold of directory lookup over its components, on any disk; it ends on every path |
| FssoReader.Filesystem.ReadInto | kernel/fsso.c:103-135 | on any disk: the bytes in the buffer, the count, and nothing written behind them |
| FssoPaths.ComponentsJoin | kernel/fsso.c:77-90 | the components of two paths joined by a dot are those of the first and then those of the second |
| FssoPaths.ResolveJoin | kernel/fsso.c:72-101 | resolving a joined path goes on from where the first part led, and fails if that failed |
| FssoPaths.PathLeads | kernel/fsso.c:72-101 | on every disk whose named inodes are below 13: a path with no component leads to the root, with one to the entry of that name, with more nowhere |
| FssoPaths.ReachedIff | kernel/fsso.c:72-101 | some path reaches a stored file if and only if its name is not empty and has no dot |
| FssoPaths.LowInodesAlways | kernel/fsso.c:25-40 | every named inode is below 13 after every run on a disk of 48 blocks or more |
| FssoPaths.MainsFilesUnreachable | tools/mkfsso.c:163-180 | both files the tool writes are in the root directory, and no path leads to either |
| ArFormat.SizeFieldReads | binutils-2.42/bfd/archive.c:221-240 | a size written into the ten-byte field is the number the reader scans out of it |
| ArFormat.SizeFits | binutils-2.42/bfd/archive.c:221-240 | the field takes exactly the sizes below 10^10 |
| ArFormat.BasenameIs | binutils-2.42/bfd/archive.c:1395-1401 | the base name is the longest suffix without a slash |
| ArNames.MeasureNames | binutils-2.42/bfd/archive.c:1588-1668 | the first pass computes the exact length of the table the second pass stores, repeated thin paths counted once, and puts short names back |
| ArNames.StoreNames | binutils-2.42/bfd/archive.c:1674-1752 | the second pass fills a table of that size completely and points the headers at their entries |
| ArNames.ConstructExtendedNameTable | binutils-2.42/bfd/archive.c:1573-1754 | the two passes agree: the table's bytes and all headers are those the specification gives |
| ArNames.FixNames | binutils-2.42/bfd/archive.c:1324-1342 | the in-place loop ends names at newlines, drops the slash before, and turns backslashes into slashes |
| ArNames.EntryReads | binutils-2.42/bfd/archive.c:1324-1342 | a stored name without newline and backslash is read back from the fixed table |
| ArNames.EntryReadsOnlyPlain | binutils-2.42/bfd/archive.c:1324-1342 | and a name without slashes is read back only if it has neither |
| ArNames.EntryStored | binutils-2.42/bfd/archive.c:1674-1752 | each member's own entry is in the final table at the offset in its header, at the start of a line |
| ArNames.NameResolves | binutils-2.42/bfd/archive.c:452-484 | resolving a header's decimal index against the slurped table gives back the name, thin archives with repeated paths included |
| ArArmap.EntriesOrdered | binutils-2.42/bfd/archive.c:2345-2440 | index entries come in member order, each with the place of its name in the string table |
| ArArmap.ComputeMap | binutils-2.42/bfd/archive.c:2346-2440 | the nested loops collect exactly the symbols of objects with symbols that are global or common and not undefined, each occurrence once, by member and then by symbol |
| ArArmap.EntriesAreExported | binutils-2.42/bfd/archive.c:2386-2396 | the specified index lists those symbols and no others, in that order, without saying how it is built |
| ArArmap.BsdWriteArmap | binutils-2.42/bfd/archive.c:2473-2638 | the BSD writer: two walks over the members, the size test, ranlib entries, strings and padding, byte for byte |
| ArArmap.CoffWriteArmap | binutils-2.42/bfd/archive.c:2710-2855 | the COFF writer: one big-endian offset for each symbol from the running position, and failure beyond 32 bits |
| ArArmap.Sym64WriteArmap | binutils-2.42/bfd/archive64.c:160-243 | the 64-bit writer, with its own padding |
| ArWrite.WriteMembers | binutils-2.42/bfd/archive.c:2221-2275 | the member loop writes headers, extended names, contents through the copy buffer, and padding, or fails as specified |
| ArWrite.WriteArchive | binutils-2.42/bfd/archive.c:2142-2305 | the whole writer produces the specified bytes, index before members, or fails exactly when they do not exist |
| ArLayout.MapSizeExact | binutils-2.42/bfd/archive.c:2473-2492 | the 32-bit size arithmetic of the three writers gives the length of what they write, always even |
| ArLayout.MemberInArchive | binutils-2.42/bfd/archive.c:2221-2275 | each member's header and contents are in the written archive at the member's position |
| ArLayout.PredictedIffSteps | binutils-2.42/bfd/archive.c:2492-2608 | a predicted position is the actual one if and only if the writer steps right over every member before, by style and form |
| ArLayout.IndexAgreesWithLayout | binutils-2.42/bfd/archive.c:2472-2608 | the offset stored for a symbol is where its member's header is in the archive, if and only if no earlier member is stepped over wrongly |
| ArLayout.IndexRightForFiles | binutils-2.42/bfd/archive.c:2310-2470 | for archives of ordinary files all stored offsets are right, unless BSD 4.4 names meet another index form |
| ArLayout.FreshExtra | binutils-2.42/bfd/archive.c:1760-1800 | a header made for a file has the extra size its extended name will take |
| ArOnDisk.MagicOnDisk | binutils-2.42/bfd/archive.c:2200-2205 | the eight bytes an archive, or a thin one, starts with |
| ArOnDisk.MemberOnDisk | binutils-2.42/bfd/archive.c:2243-2276 | a member at its position: the name field, the decimal size with spaces, the two bytes that end a header, a name behind it with NULs, the contents with the newline that makes them even; and where the next one is |
| ArOnDisk.IndexOnDisk | binutils-2.42/bfd/archive.c:2473-2855 | the index behind the magic, in each form: its header, the count, the offsets and string indexes word by word in their byte order, each name with its NUL, and its exact size |
| ArOnDisk.TableOnDisk | binutils-2.42/bfd/archive.c:2213-2233 | the name table behind the index: its name, its rounded size, and the newline that makes it even |
| ArOnDisk.SymdefsDropped | binutils-2.42/bfd/archive.c:2341-2344 | exactly the members called __.SYMDEF at the head of the chain give way to the index |
| ArOnDisk.SizeScans | binutils-2.42/bfd/archive.c:519-535 | what any size field is read as: blanks skipped, a sign, digits modulo 2^64; without digits it is refused |
| ArOnDisk.OffsetScans | binutils-2.42/bfd/archive.c:452-470 | what any decimal offset is read as: 0 without digits, refused if negative or too large |
| ArOnDisk.SecondIndexSkipped | binutils-2.42/bfd/archive.c:1175-1184 | members behind a second index, as in PE archives, start where the walk would go next from that |
| ArRead.ReadBsdSyms | binutils-2.42/bfd/archive.c:1040-1062 | the ranlib loop reads every entry or fails on the first bad index |
| ArRead.ReadScanSyms | binutils-2.42/bfd/archive.c:1151-1166 | the sequential loop pairs the i-th offset with the i-th string |
| ArRead.NextPos | binutils-2.42/bfd/archive.c:857-885 | the position of the next header is past the last one, or the walk ends, for any sizes |
| ArIndex.BsdBodyReads | binutils-2.42/bfd/archive.c:992-1066 | a BSD index is read back as the symbols and offsets that were written, names by string index |
| ArIndex.ScanBodyReads | binutils-2.42/bfd/archive.c:1078-1172 | COFF and 64-bit indexes likewise, names by sequential scan |
| ArIndex.SlurpInverts | binutils-2.42/bfd/archive.c:1199-1262 | reading the index of a whole written archive gives back the list that went in, whatever its form |
| ArRoundTrip.ShortNameReads | binutils-2.42/bfd/archive.c:596-630 | a name in the header field is read back exactly if it does not fill the field with a space in it |
| ArRoundTrip.LongNameReads | binutils-2.42/bfd/archive.c:452-484 | a name in the table is read back exactly if it has no newline and no backslash |
| ArRoundTrip.FreshSound | binutils-2.42/bfd/archive.c:1885-1975 | headers made from files meet what the round trip asks of headers |
| ArRoundTrip.WalkReads | binutils-2.42/bfd/archive.c:857-885 | walking from any member's position finds that member and all later ones, in order, and stops |
| ArRoundTrip.WalkIff | binutils-2.42/bfd/archive.c:857-885 | the walk gives exactly the written pairs of name and contents if and only if all names survive |
| ArRoundTrip.RoundTrip | binutils-2.42/bfd/archive.c:2141-2276 | opening and walking a written archive gives exactly what was written, if and only if all names survive and the first member is not mistaken for a table |
| ArFiles.FilesRoundTrip | binutils-2.42/bfd/archive.c:2141-2276 | the same for files as they come from the file system, in terms of their names alone |
| ArFiles.SymbolFindsMember | binutils-2.42/bfd/archive.c:674-800 | the offset the index gives for a symbol leads to the header, name and contents of a member, which is an object that defines the symbol: it has it global or common, and not undefined |
| ArFiles.SymbolIsFound | binutils-2.42/bfd/archive.c:674-800 | every symbol a member defines for others is in the index that is read back, with an offset that leads to that member |
| ArBsd44.LongMemberReads | binutils-2.42/bfd/archive.c:1819-1850 | a name written behind its header, padded with NULs, is read back, with the contents after it and the next header found |
| ArBsd44.MemberReads44 | binutils-2.42/bfd/archive.c:557-610 | so is every member of a BSD 4.4 archive, whatever its name is, for either length of the name field |
| ArBsd44.FieldLike | binutils-2.42/bfd/archive.c:1213-1285 | what a reader can take a member's name field for: an index, a name table, or the special form with its name behind it |
| ArBsd44.Bsd44RoundTrip | binutils-2.42/bfd/archive.c:1760-1795 | opening and walking a written BSD 4.4 archive of files, with or without an index, gives exactly their base names and contents if and only if the first file is not called like an index or, with slash padding, like a name table |
| ArBsd44.EmptyFileReads | binutils-2.42/bfd/archive.c:1227-1247 | an archive of one empty file is read back exactly if its name is not like that of an index |
| ArBsd44.IndexNamesAreLost | binutils-2.42/bfd/archive.c:1213-1247 | instances: a file called __.SYMDEF and one whose 18-byte name begins so |
| ArThin.ThinIndexIsWrong | binutils-2.42/bfd/archive.c:2570-2605 | a thin archive whose BSD index does not give its object's position, whatever headers, dates and name table it has |
| ArWide.WideIndexIsWrong | binutils-2.42/bfd/archive64.c:156-220 | a Mach-O archive past 2^32 bytes whose 64-bit index does not give its object's position, since the name behind the first header is not counted |
| ArFiles.SymdefFileIsLost | binutils-2.42/bfd/archive.c:1199-1262 | a concrete archive whose one file is taken for an index and not read back |
| Patches.ApplyCommutes | binutils-2.42/bfd/aoutx.h:4621-4652 | edits of separate fields commute, so that the order of relocs does not matter |
| Patches.TwoPasses | binutils-2.42/bfd/aoutx.h:4621-4652 | two passes of additions over the same fields are one pass with the sums |
| Patches.SameContents | binutils-2.42/bfd/aoutx.h:4621-4652 | two lists of edits of the same separate fields leave the same bytes if and only if each edit leaves the same word as its counterpart |
| Patches.MovedBits | binutils-2.42/bfd/aoutx.h:4621-4652 | a field of some bits keeps them when its value moves if and only if the move, with the carry from the bits below, does not reach them |
| Patches.ApplyAllMoved | binutils-2.42/bfd/aoutx.h:4086-4255 | edits of an input section are the same edits, moved, of the output section it is placed in |
| Patches.BitsSame | binutils-2.42/bfd/aoutx.h:4621-4652 | a field of bits below 32 depends on the value modulo the 32-bit word only |
| AoutReloc.LinkTwice | binutils-2.42/bfd/aoutx.h:4086-4255 | the value a reloc gets by two links against one, for every kind of target and howto: they differ by exactly the drift |
| AoutSection.LinkInputSectionStd | binutils-2.42/bfd/aoutx.h:3980-4323 | the reloc loop over the contents array, in both branches: what each word holds afterwards, in terms of addresses alone; no other byte changes; and against what each reloc is in the output |
| AoutSection.StdWordIs | binutils-2.42/bfd/aoutx.h:4155-4297 | a word against a symbol grows by the symbol's final address, one against a section stays as far from its start, and a PC-relative word plus its own place is what it was about; a partial link misses that by a stated amount |
| AoutSection.StdIsRewritten | binutils-2.42/bfd/aoutx.h:4095-4170 | a reloc of a partial link is at its place in the output, against the symbol's new index or the section a defined symbol is in |
| AoutSection.StdWord | binutils-2.42/bfd/aoutx.h:4086-4255 | one word comes out the same both ways if and only if the drift is 0 modulo the word |
| AoutSection.StdSectionTwice | binutils-2.42/bfd/aoutx.h:3980-4323 | an input section's contents come out the same both ways if and only if no reloc of it drifts |
| AoutSection.PiecewiseEdits | binutils-2.42/bfd/aoutx.h:4086-4255 | relocating the output section is relocating its pieces |
| AoutSection.JoinedSame | binutils-2.42/bfd/aoutx.h:4086-4255 | output sections of the same shape agree exactly when all their pieces do |
| AoutExt.LinkInputSectionExt | binutils-2.42/bfd/aoutx.h:4328-4738 | the loop for extended relocs: the field of each holds the bits of the address meant, less its place if PC-relative, no other byte changes; in a partial link each reloc is rewritten and the contents stay |
| AoutExt.ExtHolds | binutils-2.42/bfd/aoutx.h:4566-4652 | the bits of the field are those of the address the reloc is about, the other bits of the word stay; a reversed word has the value added and its bytes turned round |
| AoutExt.ExtIsRewritten | binutils-2.42/bfd/aoutx.h:4406-4556 | the addend of a rewritten reloc tells the same address in the output as before in the input, or misses it, if PC-relative, by a stated amount; and what it is against |
| AoutExt.ExtWord | binutils-2.42/bfd/aoutx.h:4406-4556 | linked twice the value moves by exactly the drift modulo 2^32, and so is the same if and only if the reloc does not drift |
| AoutExt.ExtField | binutils-2.42/bfd/aoutx.h:4566-4652 | one field comes out the same both ways if and only if the drift does not reach its bits |
| AoutExt.KeptWhen | binutils-2.42/bfd/aoutx.h:4566-4652 | that is so without drift, and for fields from bit 0 on exactly if the drift vanishes in the field's bits |
| AoutExt.AddendMoves | binutils-2.42/bfd/aoutx.h:4406-4556 | the partial link moves the addend by the shift, modulo the 32-bit word it is stored in |
| AoutExt.ExtSectionTwice | binutils-2.42/bfd/aoutx.h:4566-4652 | a section with extended relocs is the same both ways when no drift reaches a field, overlapping or not, and only then if the fields are separate |
| AoutPartial.PartialLinkStd | binutils-2.42/bfd/aoutx.h:3980-4323 | the whole output section, of any number of inputs: partial then final link equals direct link if and only if no reloc drifts |
| AoutPartial.PartialLinkExt | binutils-2.42/bfd/aoutx.h:4328-4738 | the whole output section with extended relocs: the same both ways when no drift reaches a field, and only then if the fields of each input are separate |
| AoutDrift.PartialLinkDiffers | binutils-2.42/bfd/aoutx.h:4086-4255 | an input that meets every hypothesis of that law, and whose contents differ because its one reloc drifts |
| AoutLink.AddChars | binutils-2.42/bfd/aoutx.h:5183-5197 | the character loop adds up a stab string as specified, with 64-bit wrap |
| AoutLink.ScanHeader | binutils-2.42/bfd/aoutx.h:5166-5199 | the scan adds up a header's own strings, not those of nested headers, up to its N_EINCL |
| AoutStabs.SumIsOfText | binutils-2.42/bfd/aoutx.h:5183-5197 | the sum counts the signed characters that are not in a file number, wherever these stand |
| AoutStabs.SumsAdd | binutils-2.42/bfd/aoutx.h:5183-5197 | the sum of two strings is the sum of a joined one, where no file number is cut |
| AoutStabs.NumbersDoNotCount | binutils-2.42/bfd/aoutx.h:5189-5196 | the digits after an open parenthesis make no difference, nor does their number |
| AoutStabs.PlainSum | binutils-2.42/bfd/aoutx.h:5183-5197 | a string without a parenthesis counts all its characters, signed |
| AoutStabs.TotalIsOfTexts | binutils-2.42/bfd/aoutx.h:5166-5199 | a header's total is that of the joined texts of its own symbols, those not in a nested header, modulo 2^64 |
| AoutStabs.MarksAreOwn | binutils-2.42/bfd/aoutx.h:5234-5255 | a folded header drops exactly its own symbols and the end that matches it, as told by the depth of brackets |
| AoutStabs.DuplicateFolded | binutils-2.42/bfd/aoutx.h:5204-5290 | a header equal to one before it up to file numbers and nested headers becomes an N_EXCL with its total and drops its own symbols, whatever lies between the two |
| AoutLink.FinalLink.MarkHeader | binutils-2.42/bfd/aoutx.h:5234-5255 | a duplicate header's own symbols and its N_EINCL are marked, nothing else |
| AoutLink.FinalLink.EmitSymbol | binutils-2.42/bfd/aoutx.h:5153-5290 | folding and copying on the buffers is the specified step |
| AoutLink.FinalLink.StepSymbol | binutils-2.42/bfd/aoutx.h:4899-5290 | one turn of the loop, over symbol map, hash table and buffer, is one step of the state machine |
| AoutLink.FinalLink.WriteInputSymbols | binutils-2.42/bfd/aoutx.h:4824-5300 | the whole call is the run of the state machine; the buffer of one record more than there are symbols is never overrun |
| AoutCopies.LocalCopied | binutils-2.42/bfd/aoutx.h:4965-5152 | a local symbol is copied, with its name, type and value, exactly if both strip and discard options keep it, and nothing else changes |
| AoutCopies.GlobalCopied | binutils-2.42/bfd/aoutx.h:4921-5128 | the whole state after a symbol with a hash table entry: already written, stripped, or copied with the name, type and value its record gets, its index, where relocs against it will look, and what happens to the next symbol |
| AoutCopies.PairCopied | binutils-2.42/bfd/aoutx.h:4906-5035 | an indirection and its target in two turns: both records in a row, or the first only, or neither |
| AoutCopies.FileRecord | binutils-2.42/bfd/aoutx.h:4846-4870 | the record of the file itself, and exactly when it is written |
| AoutCopies.OtherWritten | binutils-2.42/bfd/aoutx.h:3624-3741 | exactly when a symbol that comes from no input is written, its record field by field, and which entries change |
| AoutValues.ChainEnds | binutils-2.42/bfd/aoutx.h:4937-4952 | following indirections and warnings from a name ends where its chain ends |
| AoutValues.GlobalValue | binutils-2.42/bfd/aoutx.h:4991-5118 | the value of the record of a symbol with an entry: moved with its own section, or the final address of the definition its chain ends in, a common symbol's size, 0 for what is undefined |
| AoutValues.LinkValues | binutils-2.42/bfd/aoutx.h:3624-5300 | throughout a link, with any inputs, options and order, the record at the index of every name but a warning's has the final address of its definition, its size if common, or 0 |
| AoutValues.RecordIsAddress | binutils-2.42/bfd/aoutx.h:4066-5118 | so the record of a defined name has the address that relocs against the name get |
| AoutValues.DefinitionIff | binutils-2.42/bfd/aoutx.h:4991-5118 | a symbol is written with the address of the definition its name ends in if and only if it stands in no section or at that address itself |
| AoutValues.OverriddenWeak | binutils-2.42/bfd/aoutx.h:4991-5118 | an instance: a weak definition that lost is written with its own address, under the index of the name |
| AoutRenumber.StepShape | binutils-2.42/bfd/aoutx.h:4899-5290 | every step either copies its own symbol under the next index or copies nothing, whatever the branch |
| AoutRenumber.RunInvariant | binutils-2.42/bfd/aoutx.h:4899-5290 | what maps, indices and hash entries say about each other holds after every prefix of the loop |
| AoutRenumber.Renumbering | binutils-2.42/bfd/aoutx.h:4824-5300 | after the call each symbol map entry is -1 or a record's index, copied symbols have increasing indices naming their own records, and at most one record more than symbols is written |
| AoutRenumber.WriteOtherKeeps | binutils-2.42/bfd/aoutx.h:3624-3741 | writing a symbol that is in no input keeps every hash entry's index naming its record |
| AoutRenumber.ForceIndexIff | binutils-2.42/bfd/aoutx.h:4126-4147 | forcing a symbol out gives it an index if and only if its type can be written; otherwise the index is left at -2 |
| AoutRenumber.LinkInvariant | binutils-2.42/bfd/aoutx.h:3624-5300 | over a whole link, in any order of inputs, forced and other symbols, every index names its record |
| AoutRenumber.LinkInvariantByTypes | binutils-2.42/bfd/aoutx.h:3624-5300 | the same with a condition on the hash table the link starts with: what is forced out has a type that can be written |
| AoutRenumber.ForcedForGood | binutils-2.42/bfd/aoutx.h:3624-5300 | conversely, a new or indirect entry that is forced out keeps -2 through the rest of the link |
| AoutRenumber.ForcedNewIsLost | binutils-2.42/bfd/aoutx.h:4126-4147 | an instance: a new entry forced out keeps -2, and an input that names it gets -2 in its symbol map |
| AoutRenumber.OtherTypeTellsSection | binutils-2.42/bfd/aoutx.h:3649-3720 | the type written for a symbol stands for its section except for weak data and weak absolute symbols |
| AoutRenumber.DefinedTypeTellsSection | binutils-2.42/bfd/aoutx.h:5076-5103 | the same for symbols of an input, exactly when the external bit meets those two weak types |
| AoutHeaders.MarksBrackets | binutils-2.42/bfd/aoutx.h:5234-5255 | of the brackets, folding drops exactly the matching N_EINCL |
| AoutHeaders.BracketStep | binutils-2.42/bfd/aoutx.h:5153-5290 | what a step on a header's bracket adds and marks, for every strip and discard option |
| AoutHeaders.OtherStep | binutils-2.42/bfd/aoutx.h:4899-5290 | a step on any other symbol adds no bracket and leaves marks and table of headers alone |
| AoutHeaders.NestingIff | binutils-2.42/bfd/aoutx.h:4899-5290 | for every option, the records written for a balanced input balance if and only if the brackets do that survive options and folding; brackets are local and not behind a symbol that leads to another |
| AoutHeaders.FoldingKeepsNesting | binutils-2.42/bfd/aoutx.h:5153-5257 | in the same setting, and whatever is stripped, discarded, indirect or a warning: if the input's header brackets balance, so do those of the records written, under strip_some provided that each unfolded bracket is kept or dropped with its end |
| AoutHeaders.HeadersOpenedOnce | binutils-2.42/bfd/aoutx.h:5204-5232 | in a whole link with any options, whose header brackets are local and not behind a symbol that leads to another, no header is opened twice with the same name and total |
| AoutHeaders.StripSomeSplits | binutils-2.42/bfd/aoutx.h:4965-4985 | an instance where strip_some keeps a bracket and drops its end |
| AoutHeaders.MainLeads | binutils-2.42/bfd/aoutx.h:5004-5020 | an instance where a header behind an N_MAIN stab is opened a second time |
| AoutJoin.WaitingLink | binutils-2.42/bfd/aoutx.h:3624-5300 | throughout a link, the record of every symbol that waits for a definition carries its name and an external type, and records stay |
| AoutJoin.RecordWritten | binutils-2.42/bfd/aoutx.h:4991-5107 | a section symbol copied in its own right has at its index a record of its section with its address in the output |
| AoutJoin.IndexNames | binutils-2.42/bfd/aoutx.h:4095-4160 | the index a reloc gets for a waiting symbol, from the symbol map or by forcing it out, is that of a record with its name |
| AoutJoin.ChainsHold | binutils-2.42/bfd/aoutx.h:3980-5300 | the symbol table a partial link writes, with any inputs, options and order of steps, meets what the laws about linking twice ask of symbols and raw symbols |
| AoutJoin.PartialLinkOfTablesStd | binutils-2.42/bfd/aoutx.h:3980-5300 | so partial then final link equals direct link exactly when no reloc drifts, with the indices and addresses the symbol loop itself gave out |
| AoutJoin.PartialLinkOfTablesExt | binutils-2.42/bfd/aoutx.h:4328-5300 | the same for extended relocs, whose base-relative ones read the symbols the partial link wrote |
| AoutDrift.TablesExist | binutils-2.42/bfd/aoutx.h:4899-5290 | an instance that meets all hypotheses of the join, with a waiting symbol behind the file's own |
| Align.AndHigh | binutils-2.42/bfd/bfd-in2.h:149-159 | masking with the complement of a power of two takes off the remainder |
| Align.BfdAlignIsLeast | binutils-2.42/bfd/bfd-in2.h:156-159 | the mask form gives the least multiple not below the address, or the largest address if there is none |
| Align.AlignPowerIsLeast | binutils-2.42/bfd/bfd-in2.h:149-150 | likewise, but wrapping to 0 near the end |
| ZMagic.AdjustZMagic | binutils-2.42/bfd/aoutx.h:958-1063 | the code on sections and header computes the specified layout, in 64-bit arithmetic |
| ZMagicLayout.TextPadded | binutils-2.42/bfd/aoutx.h:972-1017 | the text is padded by less than two pages, up to a page boundary of the file |
| ZMagicLayout.TextPlaced | binutils-2.42/bfd/aoutx.h:966-1010 | where the text is in the file and in memory: behind the header or a block; as placed, at 0, or so that the file or the text starts at the default address |
| ZMagicLayout.HeaderSays | binutils-2.42/bfd/aoutx.h:1035-1063 | the text size in the header reaches to the data's file position, counted from where the header says; the bss is behind the data's pages unless placed, and is counted in full unless right behind them |
| ZMagicLayout.PlacedTextEndsPage | binutils-2.42/bfd/aoutx.h:990-1001 | text placed by hand is padded so that what follows it in memory starts a page |
| ZMagicLayout.DataAfterText | binutils-2.42/bfd/aoutx.h:1019-1025 | data not placed by hand is at the least segment boundary behind the padded text, clear of it in memory |
| ZMagicLayout.StretchedIs | binutils-2.42/bfd/aoutx.h:1026-1034 | under contiguous mapping the data is as far behind the text in the file as in memory, even when that is negative |
| ZMagicLayout.DataBehindTextIff | binutils-2.42/bfd/aoutx.h:1026-1035 | the data starts behind the text in the file if and only if not (contiguous mapping and data placed below the end of the text) |
| ZMagicLayout.FileOverlapIff | binutils-2.42/bfd/aoutx.h:1026-1035 | the two ranges of the file have a place in common if and only if mapping is contiguous and the two ranges of memory have one, for which the data must have been placed by hand |
| ZMagicLayout.NegativeIff | binutils-2.42/bfd/aoutx.h:1026-1035 | the data's file position is negative if and only if mapping is contiguous and the data was placed further below the text than the text is into the file |
| ZMagicLayout.SeparateInFile | binutils-2.42/bfd/aout-target.h:274-275 | so for every target of the library, which all leave contiguous mapping off, they never overlap |
| ZMagicLayout.OverlapExists | binutils-2.42/bfd/aoutx.h:1026-1035 | under contiguous mapping an instance: text of 5000 bytes, and data placed four bytes behind its start |
| ZMagicLayout.DataAndBss | binutils-2.42/bfd/aoutx.h:1044-1062 | a_data is whole pages, a_data and a_bss cover data and bss, and are exactly the larger need when bss follows data |
| IoState.EventKeeps | binutils-2.42/bfd/bfdio.c:245-345 | every read, write and seek keeps the cached position equal to the stream's and the trace free of direct turns |
| IoState.EveryRun | binutils-2.42/bfd/bfd-in2.h:2093-2105 | in every run no read directly follows a write or a write a read, and the cached position is the stream's |
| IoState.SeekArrives | binutils-2.42/bfd/bfdio.c:478-482 | a seek that is answered without a call, or that the stream accepts, leaves the stream where it was asked to be |
| IoState.SeekMoves | binutils-2.42/bfd/bfdio.c:478-502 | a refused seek moves neither the stream nor the cached position; any other arrives |
| IoState.TransferMoves | binutils-2.42/bfd/bfdio.c:245-345 | a read or write moves both by the bytes that went over, with exactly one positioning call before it after the other; if that fails nothing is transferred and nothing moves |
| BfdIo.Bfd.Outermost | binutils-2.42/bfd/bfdio.c:253-259 | the loop over containing archives finds the file and the sum of the origins |
| BfdIo.Bfd.Read | binutils-2.42/bfd/bfdio.c:245-296 | a read is one event of the state machine; a member's read is clipped, is refused outside the member, and gives the member's own bytes |
| BfdIo.Bfd.Write | binutils-2.42/bfd/bfdio.c:311-345 | a write is one event of the state machine and overwrites the file at the cached position with what the stream took |
| BfdIo.Bfd.Seek | binutils-2.42/bfd/bfdio.c:449-504 | a seek is one event of the state machine and, when it succeeds, arrives relative to the member's start |
| BfdIo.Bfd.Tell | binutils-2.42/bfd/bfdio.c:358-376 | telling changes no state and gives the position relative to the member's start |
| BfdIo.ClippedIsMember | binutils-2.42/bfd/bfdio.c:262-277 | the container's slice at the clipped range is the member's slice |
| MemoryFile.InMemory.Grow | binutils-2.42/bfd/bfdio.c:704-721 | growing keeps the old bytes and leaves zeros where the caller needs them, though the new memory holds anything |
| MemoryFile.InMemory.Bread | binutils-2.42/bfd/bfdio.c:678-696 | the clipped slice goes to the caller's buffer and nothing behind it changes |
| MemoryFile.InMemory.Bwrite | binutils-2.42/bfd/bfdio.c:698-725 | the bytes are spliced in; the buffer stays as long as the size rounded up to 128 and zero past the size |
| MemoryFile.InMemory.Bseek | binutils-2.42/bfd/bfdio.c:733-785 | past the end of a writable file it extends with zeros; its two failures leave the position at 0 or at the end |
| MemoryFile.InMemory.Read | binutils-2.42/bfd/bfdio.c:245-296 | on an in-memory BFD a read gives the clipped slice and moves the position by it |
| MemoryFile.InMemory.Write | binutils-2.42/bfd/bfdio.c:311-345 | a write splices at the position and moves it |
| MemoryFile.InMemory.Seek | binutils-2.42/bfd/bfdio.c:449-504 | a seek through short-cut or call has the same result |
| MemoryFile.WriteReadsBack | binutils-2.42/bfd/bfdio.c:678-785 | what was written is read back from where it was written, and the bytes around it are as before |
| MemoryFile.GapIsZero | binutils-2.42/bfd/bfdio.c:748-768 | writing after a seek past the end leaves zeros in between |
| MemoryFile.SeekIff | binutils-2.42/bfd/bfdio.c:733-785 | a seek works if and only if it ends within the file or the file is open for writing; how much it extends, where it ends, and where a failing one leaves the position |
| SectionList.Bfd.Remove | binutils-2.42/bfd/bfd-in2.h:2439-2452 | the list loses exactly that section, the pointers stay consistent, the section keeps its stale pointers |
| SectionList.Bfd.Append | binutils-2.42/bfd/bfd-in2.h:2454-2469 | the section becomes the last of the list |
| SectionList.Bfd.Prepend | binutils-2.42/bfd/bfd-in2.h:2471-2486 | the section becomes the first of the list |
| SectionList.Bfd.InsertAfter | binutils-2.42/bfd/bfd-in2.h:2488-2499 | the section comes right behind the other |
| SectionList.Bfd.InsertBefore | binutils-2.42/bfd/bfd-in2.h:2501-2512 | the section comes right before the other |
| SectionList.Bfd.RemovedFromList | binutils-2.42/bfd/bfd-in2.h:2514-2518 | true of exactly the sections not in the list, fresh and removed ones alike, whatever their pointers were left as |
| SectionList.WithoutInserted | binutils-2.42/bfd/bfd-in2.h:2439-2512 | a removal undoes an insertion, wherever it was made |
| SectionList.LinkedWithout | binutils-2.42/bfd/bfd-in2.h:2439-2452 | the two pointer writes of a removal link the shorter list, both ways |
| SectionList.LinkedInserted | binutils-2.42/bfd/bfd-in2.h:2454-2512 | the pointer writes of an insertion link the longer list, both ways |
| ArcGot.FillShape | binutils-2.42/bfd/arc-got.h:217-263 | a request adds one entry at the old end of the GOT with its words and relocations reserved, or changes nothing, or fails without growing the GOT |
| ArcGot.EmitShape | binutils-2.42/bfd/arc-got.h:455-540 | an entry's relocations are at most those reserved, in its own words, each in another one, and come once |
| ArcGot.FillRecords | binutils-2.42/bfd/arc-got.h:199-215 | a request makes its symbol dynamic at most once, under the next index, unless it is forced local or a plug-in's; one that adds an entry leaves nothing to be done for it |
| ArcGotLoad.EmitLoads | binutils-2.42/bfd/arc-got.h:455-540 | the relocations written are those with which the loader leaves in each word of the slot what it stands for, by type: module and offset, thread-pointer offset, address; they are written exactly when needed and touch no other word |
| ArcGotLoad.ReservedUsed | binutils-2.42/bfd/arc-got.h:199-263 | the number reserved by a request is used up by emission if and only if the entry needs the loader, or none was reserved |
| ArcGotLoad.NormalIsAddress | binutils-2.42/bfd/arc-got.h:466-496 | a normal entry ends up with its symbol's address if and only if the object was not moved or a relocation was written |
| ArcGotRuns.FindIff | binutils-2.42/bfd/arc-got.h:79-92 | traversing a symbol's list finds a type exactly when the symbol has a slot of it |
| ArcGotRuns.RepeatedRequest | binutils-2.42/bfd/arc-got.h:225-226 | a repeated request changes nothing |
| ArcGotRuns.RequestKeeps | binutils-2.42/bfd/arc-got.h:217-263 | every request keeps the invariant over all symbols' slots |
| ArcGotRuns.EmissionKeeps | binutils-2.42/bfd/arc-got.h:455-540 | so does every emission |
| ArcGotRuns.RequestKeepsDynamic | binutils-2.42/bfd/arc-got.h:199-215 | requests keep every dynamic symbol's index below the count and its own alone, and take none away |
| ArcGotRuns.SlotsAndRelocations | binutils-2.42/bfd/arc-got.h:94-558 | in every run slots are disjoint and fill what the GOT grew by, one for each symbol and type; relocations stay within the reservation and each in its own slot |
| ArcGotList.GotList.ForType | binutils-2.42/bfd/arc-got.h:79-92 | the list traversal gives the first entry of the type |
| ArcGotList.GotList.NewEntryAtEnd | binutils-2.42/bfd/arc-got.h:94-127 | the entry is linked at the end, unless the type is there |
| ArcGotList.Htab.AddSymbolRef | binutils-2.42/bfd/arc-got.h:199-215 | the macro: reservation first, then recording the symbol, and the GOT grows only if that worked |
| ArcGotList.Htab.FillGotInfo | binutils-2.42/bfd/arc-got.h:217-263 | the code on the linked list and the section sizes is the specified request |
| ArcGotList.Htab.CreateForEntry | binutils-2.42/bfd/arc-got.h:455-540 | the code on one entry writes the specified relocations and marks it |
| ArcGotList.Htab.CreateForList | binutils-2.42/bfd/arc-got.h:542-558 | the whole list's relocations, in order |

## Left out

- AoutPartial.PartialLinkExt: for overlapping fields one direction only; for separate ones it asks that a field's bits lie in its word, as those of every howto do.
- ArRoundTrip.RoundTrip: SVR4-style names in ordinary archives; old BSD names, which are cut, nested thin archives and `:origin` suffixes are not read back, and sizes are assumed below the 32-bit limit of the index arithmetic. A 15-byte name that begins with a space is excluded: the field it makes is read as an offset into the name table, and what is found there depends on the other names.
- ArBsd44.Bsd44RoundTrip: lengths of names are unbounded numbers, as a C `int` holds every name below 2^31 bytes; base names are not empty, as those of files are not; sizes as for `ArRoundTrip.RoundTrip`.
- ArNames.NameResolves: paths of thin archives come as given; `adjust_relative_path` is not part of this model, nor are the flags BFD_TRADITIONAL_FORMAT and BFD_ARCHIVE_FULL_PATH.
- AoutReloc.LinkTwice: an input section keeps its kind (text, data, bss) in the partial link, and base-relative relocs with r_extern set are not covered, nor is a reloc against a symbol that got no index.
- AoutLink.FinalLink.WriteInputSymbols: string table offsets are the names themselves, and adding a string never fails.
- AoutHeaders.FoldingKeepsNesting: header brackets that are external symbols, or that stand right behind a symbol whose masked type is N_INDR, as is that of an N_MAIN stab, or behind a warning; `AoutRenumber.Renumbering` still says which symbols become records.
- AoutHeaders.HeadersOpenedOnce: likewise.
- AoutJoin.ChainsHold: relocs against symbols that end without an index, which the code reports as errors, and against indirect or warning symbols; that definitions move with their sections, and that the final links define the same names, is assumed.
- ZMagicLayout.DataAndBss: addresses and sizes below 2^60, so that nothing wraps.
- FssoWriter.AddFile: files of at most twelve blocks, names that are C strings, and inode numbers up to 106, whose records lie inside the eight table blocks; the code checks neither number, and record 107 ends in the root directory's block.
- FssoFiles.RoundTrip: nothing is promised of what reading gives for inodes from 13 on, which only disks below 48 blocks can name; `FssoSmall.SmallDiskLosesFile` has one such read.
- ArNames.ConstructExtendedNameTable: as for `ArNames.NameResolves`, without the two flags and without origins.
- MemoryFile.InMemory.Read: files that are not members of an archive; the loop over containers and the turn between reading and writing are those of `BfdIo`.
- MemoryFile.InMemory.Write: likewise.
- MemoryFile.InMemory.Seek: likewise.
- MemoryFile.InMemory.Bseek: allocation always succeeds.
- SectionList.Bfd.RemovedFromList: sections of this BFD only; a section in another BFD's list counts there.
- Archive timestamps, owners and modes: 32 bytes of header given as a parameter; the update of an index timestamp is not modelled.
- The archive's element cache and the sharing of open elements.
- Overflow checks and reports of relocation, howto tables, dynamic-link callbacks.
- ArcGotLoad.EmitLoads: what each relocation type means to the loader is that of the ELF TLS ABI, stated with it; the patching of GOT contents before emission is not modelled, the word found there is a parameter.
- AoutValues.LinkValues: entries that only warn; and symbols are as the symbol reader enters them (`ProperLink`): a section symbol's name is defined where the symbol stands. `AoutValues.DefinitionIff` says what happens when it is not.
- AoutCopies.GlobalCopied: stabs, which have no hash table entry.
- `bfd_flush`, `bfd_stat` and memory mapping: they neither move the position nor count as positioning calls here.
- Block reads past the end of a disk leave an arbitrary buffer; the disk controller is not modelled.
- The kernel's memory allocator, shell, screen and PCI code, and the boot loaders: nothing modelled here calls them, and they do not touch the bytes of a disk, an archive or an object file.
