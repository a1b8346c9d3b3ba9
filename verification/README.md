# ZEBRA: file system, scheduler and BASIC

This project models three parts of the ZEBRA operating system and proves what they promise. Each is
given twice: as values with functions and lemmas, and as classes whose methods follow the C code step
by step and are proved against those functions.

## The FAT16 file system

`kernel/file.c` keeps a one-sector write-through cache over a disk, a file allocation table spread over
many sectors, and a flat root directory. `Volume.dfy` reads a disk image as three tables and shows that
each kind of sector write changes one place in one of them. `Positions.dfy`, `Names.dfy`, `Chains.dfy`,
`Directory.dfy` and `Files.dfy` give positions, 8.3 names, cluster chains, the directory and the
contents of a file. `Writing.dfy`, `Appending.dfy`, `Reading.dfy` and `Lifecycle.dfy` say what each
operation does and what it keeps: the volume stays sound, nothing leaks, every other file keeps its slot,
its chain and its bytes. `FileSystem.dfy` is the driver itself, with its cache, loops and three phases.
`FileMachine.dfy` shows that every run of operations implements a finite map from names to byte
sequences; `FileRuns.dfy` says so of the driver. `Formats.dfy` says where all of it is on the raw disk: boot
sector, table, entries, names and the bytes of files.

The format is FAT16 as in sections "FAT Data Structure" and "FAT Directory Structure" of Microsoft's
FAT32 File System Specification, version 1.03. Sectors have 512 bytes, bytes are unsigned, chains end in
exactly 0xffff, and the clusters in use are below 0x8000, where the 16-bit arithmetic is exact
(`Volumes.FatAddressAliases` shows that it is not beyond).

Four things the code does differently from what it is for, with the exact conditions:

- The search for a free cluster misnumbers every FAT sector after the first and reads one word past its
  buffer. It is right if and only if `FileSystems.SearchExact` holds (`FatFindFreeCluster`); an input is
  `SecondSectorMisnumbered`, and `SearchTakesFile` says when the answer is a cluster of another file. The
  driver's own allocations are exact where `SearchSafe` holds, which `CanWrite` and `CanCreate` imply. The
  word behind the buffer is a constant of the driver's model; in the machine it is whatever the linker puts
  there, and it is read only when the first FAT sector is full.
- `file_read` of 0 bytes from the middle of a sector, before the end of the file, reads on. It delivers
  what was asked for if and only if `ReadExact` holds (`Read`); what such a call delivers first is in
  `NothingAsked`.
- Opening a file for writing can lose a cluster: when the name has no dot, and, with a result of success,
  when it starts with 0xe5, the mark of a free slot. The exact condition is `CreateLeakExact`, an input
  `MarkedNameLeaks`.
- Names that are not 8.3 are stored as other names (`PackRoundTrip`, an equivalence; `NineLetters`).

## The scheduler

`Scheduling.dfy` gives the table as a value, the calls of `kernel/scheduler.c` as steps, and proves
what every run keeps, when the search for a ready task ends, and that a ready task runs within 16 ticks.
`Scheduler.dfy` is the table updated in place. A finished task stays finished but for a call of
`scheduler_block` with its pid, or of `scheduler_block_current` by itself, which turns it into a blocked one (`FinishedStays`).

## BASIC

`Expressions.dfy` gives the grammar of expressions as the interpreter has it: plus binds weakest, then
minus, then times; equal operators group to the right; a leading minus covers everything up to the next
plus. `Machines.dfy` has the two stack machines as values, `Evaluator.dfy` the evaluator that keeps its
cursors in statics and calls itself for array indices. `Grammar.dfy` gives the value of every expression in
the arithmetic of integers. `Arrays.dfy` is about declared arrays.

`Statements.dfy` and `Programs.dfy` give a program as a machine on lines, with GOTO and GOSUB
searching every time or overwriting themselves with direct jumps, and prove the two alike. `Loops.dfy`
is about FOR and NEXT, `Calls.dfy` about GOSUB, RETURN and the other lines. `Lexing.dfy`, `Tokens.dfy` and `Tokenizer.dfy` take source text to tokens and
back; `Vocabulary.dfy` has the words and signs. `ProgramText.dfy` has lines in memory as linked records, `Interpreter.dfy` the interpreter that
works on those bytes and rewrites them while it runs, and `Sources.dfy` and `Session.dfy` the way from
typed lines to a program in memory. The main result is the contract of `Interpreter.Run`: on bytes,
with self-modification, it ends as the machine that searches for every jump. Together with
`Sessions.Load`, that starts from source text.

Undefined behaviour of the C code is the outcome `Stuck`: overrunning the return stack, the variables
or the memory, using an uninitialised value, or reaching the program text through an array pointer.

Three results on where the code departs from its intent:

- An IF whose statement fails runs it a second time and returns the second run's error: the macro
  `ERROR_HANDLE` (`builtin/basic/errors.h:22`) evaluates its argument twice. So `IF 1 = 1 THEN PRINT "A" , XY`
  with XY undefined prints A twice (`PrintTwice`), and the program 10 FOR A = 1 TO 2, 20 FOR B = 1 TO 2,
  30 IF 1 = 1 THEN NEXT A, 40 END runs to its end without an error (`CrossedLoopsEnd`, `NextTwice`). The
  machine and the interpreter do the same. With A = 5 and XY undefined, `IF 1 = 1 THEN IF A = 5 THEN A(XY) = 1`
  is no error (`LetTwice`, `UndefinedIndexUnnoticed`). `IfOnce` says exactly, for every IF, when the second run
  makes no difference. Failed evaluations are repeated likewise, which never makes one.
- A GOTO back to the first line's own number finds nothing (`Statements.SearchExact`; `FirstLineNotFound`).
- A FOR whose start is not below its limit does not skip its loop (`ForNotSkipping`; `EmptyLoopUndefined`).

## Reading the proofs

`hide` keeps definitions that a proof does not need out of it. `dafny verify dfyconfig.toml` checks the
whole project.

## Model

| member | source | states |
|---|---|---|
| `Volumes.FatWrite` | kernel/file.c:331-350 | Writing one word of a FAT sector changes that one FAT entry; every other entry, every directory slot and every data sector stays |
| `Volumes.DirWrite` | kernel/file.c:233-243 | Writing 32 bytes of a root directory sector changes that one slot and nothing else |
| `Volumes.DataWrite` | kernel/file.c:798-845 | Writing a data sector leaves the FAT and the directory alone |
| `Volumes.FatAddressExact` | kernel/file.c:311-329 | Below cluster 0x8000 the 16-bit address of a FAT entry is the exact one |
| `Volumes.FatAddressAliases` | kernel/file.c:317-337 | Two clusters share a 16-bit FAT address exactly when they agree modulo 0x8000: the exact range of the previous row |
| `Positions.PositionSplit` | kernel/file.c:712-759 | The cluster index, sector index and offset determine the byte position |
| `Positions.PositionJoin` | kernel/file.c:712-759 | Every in-range triple of cluster index, sector and offset is the split of exactly one position |
| `Positions.PositionStep` | kernel/file.c:744-756 | One byte further is the next offset, else the next sector, else the next cluster: what the position updates of reads and writes rely on |
| `Positions.ClusterIndexIsDivision` | kernel/file.c:798-845 | The cluster index that the step-by-step updates maintain is division of the position by the cluster size |
| `Positions.SectorInData` | kernel/file.c:430-433 | Sectors of clusters on the disk lie in the data region, where the 16-bit product is exact |
| `Positions.SectorInjective` | kernel/file.c:430-433 | Different clusters, or different sectors of one cluster, never share a data sector, and conversely |
| `Names.CStringEnds` | kernel/file.c:123-148 | A name buffer means its bytes up to the first zero, whatever follows |
| `Names.PackRoundTrip` | kernel/file.c:525-543 | For every name with a dot, storing it in padded fields and reading it back returns it if and only if it is a valid 8.3 name |
| `Names.NineLetters` | kernel/file.c:525-543 | Where it is not: a base of nine letters is read back with eight |
| `Names.PackInjective` | kernel/file.c:525-543 | Valid names are stored equally exactly when they are equal |
| `Names.CanonicalForm` | kernel/file.c:21-31 | The form in which a requested name is looked up has no lower case and is its first twelve characters up to case; characters that are no lower-case letters are kept |
| `Names.CanonicalUnique` | kernel/file.c:21-31 | There is only one such form |
| `Names.CanonicalTwice` | kernel/file.c:21-31 | Taking it twice is taking it once |
| `Names.CanonicalEqual` | kernel/file.c:599-605 | Two requests name the same file if and only if their first twelve characters agree up to case |
| `Chains.ChainDistinct` | kernel/file.c:311-329 | A chain that ends in 0xffff never visits a cluster twice |
| `Chains.ChainShort` | kernel/file.c:677-710 | So it is no longer than the FAT: following it ends |
| `Chains.ChainFound` | kernel/file.c:311-329 | Following links from its head gives back exactly the chain, which is therefore unique |
| `Chains.ChainFrame` | kernel/file.c:331-350 | A chain is unaffected by changes to entries that are not on it |
| `Chains.ChainStart` | kernel/file.c:396-406 | A fresh cluster marked as the end is a chain by itself |
| `Chains.ChainExtend` | kernel/file.c:408-422 | Linking a free cluster to the last one makes a chain longer by that cluster, which was not on it |
| `Chains.FreeExists` | kernel/file.c:352-394 | The search for a free cluster below a bound succeeds exactly when the count of free ones there is positive |
| `Chains.FreeUpdate` | kernel/file.c:331-350 | How one update of an entry moves the count of free clusters |
| `Directory.LookupExact` | kernel/file.c:150-201 | On a well-formed directory the scan for a name finds slot k if and only if slot k holds that name |
| `Directory.AddKeepsDirectory` | kernel/file.c:446-475 | Filling the first unused slot keeps the directory well formed if and only if a spare slot remains and the name is new |
| `Directory.RemoveKeepsDirectory` | kernel/file.c:256-309 | Marking a slot free keeps the directory well formed |
| `Directory.ResizeKeepsDirectory` | kernel/file.c:634-649 | Recording a new size keeps the directory well formed |
| `Directory.NewSlotIsFile` | kernel/file.c:525-543 | The slot built for a valid name is a live entry that reads back as that name |
| `Directory.NewSlotIsLive` | kernel/file.c:525-543 | The new slot of any name with a dot reads as a file, under whichever name, if and only if the name does not start with 0xe5 |
| `Directory.ListingAgrees` | kernel/file.c:1005-1094 | The listing holds exactly the live entries, and looking up any listed name leads back to its slot |
| `Directory.FoundUnderAnyCasing` | kernel/file.c:599-605 | A file whose name has no lower case is found under any casing of its name |
| `Files.InUseExactly` | kernel/file.c:352-427 | On a sound volume without leaks a FAT entry from 2 up is nonzero if and only if its cluster lies on some file's chain |
| `Files.FileFrame` | kernel/file.c:311-350 | A file's chain depends only on its slot and its own entries |
| `Files.ContentsFrame` | kernel/file.c:798-845 | Writing a sector of a cluster outside a chain leaves the contents along the chain unchanged |
| `Files.ContentsExtend` | kernel/file.c:408-422 | Contents are unaffected by clusters appended to the chain |
| `Files.PlaceDistinct` | kernel/file.c:430-433 | Within one chain two positions share a place on the disk exactly when they are equal |
| `Files.ContentsAppend` | kernel/file.c:798-845 | Storing a byte at the end of the contents appends it |
| `Writing.RoomForNext` | kernel/file.c:847-901 | Enough free clusters for n bytes are enough for one byte and then for the other n-1 |
| `Writing.RoomForOne` | kernel/file.c:798-845 | One byte can be written if and only if it does not complete a cluster or the search finds a free one |
| `Writing.RoomExact` | kernel/file.c:847-901 | Room for more bytes is exactly room for the first and then for the others, and none need no room: no more clusters are asked for than are taken |
| `Writing.WriteSplit` | kernel/file.c:847-901 | Writing two stretches in two calls is writing their concatenation in one |
| `Writing.ChunkIsBytes` | kernel/file.c:798-845 | One call of the sector write equals its bytes written one at a time |
| `Appending.ClustersOwned` | kernel/file.c:798-845 | A file of n bytes open for writing owns exactly n / cluster size + 1 clusters, since the next one is taken eagerly |
| `Appending.ExtendKeepsSound` | kernel/file.c:408-422 | Taking a free cluster for one file keeps the volume sound and leakless, grows that chain only |
| `Appending.StoreKeeps` | kernel/file.c:798-845 | Storing past the recorded end changes no file's recorded bytes and no chain |
| `Appending.PutByteWithin` | kernel/file.c:798-845 | A byte written inside a cluster is appended to the written bytes; chain, position invariant and other files are kept |
| `Appending.PutByteAcross` | kernel/file.c:798-845 | A byte that completes a cluster is appended, the least free cluster joins the chain and the position starts there |
| `Appending.PutByteKeeps` | kernel/file.c:798-845 | Every written byte keeps: fpos equals size, current cluster, sector and offset match it, the volume stays sound, other files keep slot, chain and bytes |
| `Appending.WriteKeeps` | kernel/file.c:847-901 | The same for any number of bytes, by induction over the run of bytes |
| `Reading.GetByteAt` | kernel/file.c:712-759 | Reading a byte delivers the byte stored at the position and moves the descriptor to the next position |
| `Reading.SectorIsSlice` | kernel/file.c:761-796 | A whole sector read is the next 512 bytes of the contents |
| `Reading.GetNext` | kernel/file.c:712-759 | Before the end of a file a read delivers the file's byte at fpos and leaves the descriptor placed |
| `Reading.GetSector` | kernel/file.c:761-796 | A sector read delivers the file's next 512 bytes and leaves the descriptor placed |
| `Reading.ReadBytesExact` | kernel/file.c:903-974 | Reading n bytes one at a time delivers the next min(n, size - fpos) bytes of the file and moves the position by as many |
| `Reading.ReadSplit` | kernel/file.c:903-974 | Two reads in a row deliver what one read of the sum delivers |
| `Reading.UnderwayEnd` | kernel/file.c:903-974 | The three phases deliver the bytes, count and descriptor of as many single reads exactly when the request is not for 0 bytes inside a sector; else they deliver at least one byte |
| `Reading.NothingAsked` | kernel/file.c:928-940 | A request for 0 bytes inside a sector, before the end, is such a request, and the first byte it delivers is the file's byte at the position |
| `Reading.StaysPlaced` | kernel/file.c:712-796 | Wherever a descriptor stands, a read leaves it inside its chain or at its end |
| `Lifecycle.TakenKeepsFiles` | kernel/file.c:396-406 | Marking a free cluster as an end leaves every file as it was |
| `Lifecycle.TakenLeaks` | kernel/file.c:396-406 | A cluster that was taken and is in no slot is lost |
| `Lifecycle.CreateLeakExact` | kernel/file.c:510-597 | Opening a file for writing, successful or not, loses no cluster if and only if the name exists, the FAT is full, or the name has a dot and does not start with 0xe5 |
| `Lifecycle.MarkedNameLeaks` | kernel/file.c:510-597 | The name 0xe5 and a dot is a valid 8.3 name; its create reports success, the file cannot be found and its cluster is lost |
| `Lifecycle.CreateKeeps` | kernel/file.c:510-597 | Creating a file under a new name that is stored as itself adds an empty file open for writing, keeps every other file's slot and bytes, and leaks nothing |
| `Lifecycle.CloseKeeps` | kernel/file.c:634-649 | Closing records exactly the bytes written, keeps every other file, and leaks nothing |
| `Lifecycle.DeletedOthers` | kernel/file.c:677-710 | Deleting a file leaves the chains of the others |
| `Lifecycle.DeleteKeeps` | kernel/file.c:677-710 | Deleting frees exactly the file's own chain and slot; every other file keeps slot, chain and bytes; nothing leaks |
| `Lifecycle.NewChainWasFree` | kernel/file.c:396-422 | Everything on a new file's chain was free before, and the rest of the table is as it was |
| `Lifecycle.DeleteRestoresTable` | kernel/file.c:677-710 | Create, any writes, close and delete restore the FAT exactly |
| `Lifecycle.ClustersConserved` | kernel/file.c:352-427 | Free clusters plus clusters on files' chains are all clusters, always |
| `Formats.MountedLayout` | kernel/file.c:60-97 | On the bytes of the boot sector: the FATs start behind the reserved sectors, the root directory behind all FATs, it takes 32 bytes an entry rounded down to sectors, the data follow; cluster size and the small or the large count of sectors are those recorded |
| `Formats.ClustersMounted` | kernel/file.c:60-97 | Exactly the clusters are used that have an entry below 0x8000 and sectors on the disk and in reach of 16-bit arithmetic |
| `Formats.OrdinaryLayout` | kernel/file.c:60-97 | An ordinary disk: root directory at sector 65, data at 97 |
| `Formats.TableBytes` | kernel/file.c:311-329 | Entry c of the table is the two bytes at 2c from the start of the FAT, low byte first |
| `Formats.SlotBytes` | kernel/file.c:150-201 | Directory slot k is the 32 bytes at 32k from the start of the root directory |
| `Formats.EntryFields` | kernel/file.c:150-201 | A slot is a file if and only if its first byte is neither 0 nor 0xe5 and bits 3 and 4 of byte 11 are clear; start cluster and size are the little-endian numbers at 26 and 28 |
| `Formats.NameRead` | kernel/file.c:123-148 | Eight and three bytes filled with spaces are read as base, dot and extension |
| `Formats.NameStored` | kernel/file.c:525-543 | And a new file is stored that way, with attributes 0, the fixed date, its start cluster and size 0 |
| `Formats.FileChain` | kernel/file.c:311-329 | A file starts at the cluster in its slot; the table gives the next one, and 0xffff after the last |
| `Formats.FileByteAddress` | kernel/file.c:712-759 | Byte r of the q-th cluster of a file is at the start of the data, plus two less than the number of that cluster times the cluster size, plus r: the contents of files, read off the raw disk |
| `FileSystems.Filename` | kernel/file.c:123-148 | The buffer loops produce the dotted name of a slot as a NUL-terminated string |
| `FileSystems.MakeEntry` | kernel/file.c:525-543 | The field-padding loops build the slot that holds the name and the start cluster |
| `FileSystems.FileSystem.Mount` | kernel/file.c:99-121 | The layout read from the boot sector is the one its fields describe, for sectors of 512 bytes, and the cache is valid from then on |
| `FileSystems.FileSystem.ReadSectorCached` | kernel/file.c:40-49 | The cache is transparent: afterwards the buffer equals the disk sector, and the volume is unchanged |
| `FileSystems.FileSystem.FatNextCluster` | kernel/file.c:311-329 | The cached lookup across FAT sectors is a plain read of one table entry |
| `FileSystems.FileSystem.FatSetCluster` | kernel/file.c:331-350 | The cached write-through update is a plain update of one table entry and of nothing else |
| `FileSystems.FileSystem.FatFindFreeCluster` | kernel/file.c:352-394 | Gives SearchGives: the least free cluster if below 256, else 256 if the word after the buffer is zero, else 0 if none is free, else a number too high by the sectors passed. That is the least free cluster from 2 up, or 0 for none, if and only if SearchExact holds |
| `FileSystems.SearchFromExact` | kernel/file.c:352-394 | The search loop, entry by entry, comes to SearchGives on every table, and that is the least free cluster if and only if SearchExact holds |
| `FileSystems.SearchTakesFile` | kernel/file.c:396-422 | On a sound volume without leaks the cluster that the search gives lies on some file's chain if and only if the first FAT sector is full and that entry is not free: exactly then an allocation takes it away from a file |
| `FileSystems.LayoutValid` | kernel/file.c:60-97 | A layout can be mounted if and only if its regions are in order and below their 16-bit bounds and hold a cluster; clusters out of reach of the 16-bit arithmetic are not used |
| `FileSystems.SecondSectorMisnumbered` | kernel/file.c:378 | Where it is not: with the first FAT sector full and cluster 256 free, the search gives 257 |
| `FileSystems.CorrectedSearchExact` | kernel/file.c:377-382 | Labelled extra: leaving a sector at its end, as the comment intends, gives the least free cluster on every table |
| `FileSystems.FileSystem.FatAllocateStartCluster` | kernel/file.c:396-406 | Marks the cluster that the search gives as an end; where the search is safe that is the least free one, or there is none and nothing changes |
| `FileSystems.FileSystem.FatAllocateCluster` | kernel/file.c:408-422 | Links the cluster that the search gives and marks it as an end; where the search is safe that is the least free one, or there is none and nothing changes |
| `FileSystems.FileSystem.StoreInSector` | kernel/file.c:798-826 | Read, modify, write back stores the bytes at the position and touches nothing else |
| `FileSystems.FileSystem.WriteSector` | kernel/file.c:798-845 | All outcomes: past the sector end, disk full (position left at sector = sectors per cluster), or stored and advanced |
| `FileSystems.FileSystem.Write` | kernel/file.c:847-901 | The three phases leave the volume and descriptor of the bytes written one at a time, and count them |
| `FileSystems.FileSystem.ReadByte` | kernel/file.c:712-759 | Delivers the next byte or end of file, and the moved descriptor |
| `FileSystems.FileSystem.ReadSector` | kernel/file.c:761-796 | Delivers the sector under the position or end of file, and the moved descriptor |
| `FileSystems.FileSystem.Read` | kernel/file.c:903-974 | The three phases equal as many single reads when ReadExact holds, deliver the requested count if and only if it does, and otherwise deliver at least the byte at the position |
| `FileSystems.FileSystem.FindEntry` | kernel/file.c:150-309 | The scan over sectors and slots is the lookup by name, and finds where the slot lies |
| `FileSystems.FileSystem.GetDirectoryEntry` | kernel/file.c:150-201 | The slot with the name, or file not found |
| `FileSystems.FileSystem.SetDirectoryEntry` | kernel/file.c:203-254 | Replaces exactly the slot with the name, or reports file not found and changes nothing |
| `FileSystems.FileSystem.MarkDirectoryEntryFree` | kernel/file.c:256-309 | Marks exactly the slot with the name free, or reports file not found and changes nothing |
| `FileSystems.FileSystem.FileCreate` | kernel/file.c:446-475 | Fills exactly the first unused slot, or reports a full directory and changes nothing |
| `FileSystems.EndBeforeData` | kernel/file.c:446-475 | Where the name lookup ends inside the root directory, a slot is left: the full-directory error cannot follow it |
| `FileSystems.FileSystem.OpenRead` | kernel/file.c:478-507 | The descriptor is at the start of the file with its recorded size, or file not found |
| `FileSystems.FileSystem.OpenWrite` | kernel/file.c:510-597 | All outcomes in the order of the checks, including the cluster lost to an invalid name; the volume after it is that of CreateLeakExact |
| `FileSystems.FileSystem.Open` | kernel/file.c:599-631 | All modes and outcomes, for the upper-case name |
| `FileSystems.FileSystem.Close` | kernel/file.c:634-649 | Records the size of a file open for writing in its slot and changes nothing else |
| `FileSystems.FileSystem.Delete` | kernel/file.c:677-710 | Terminates on every sound volume, frees the whole chain and the slot, and nothing else; or file not found |
| `FileSystems.FileSystem.Entries` | kernel/file.c:1005-1043 | The number of files is the length of the listing |
| `FileSystems.FileSystem.Entry` | kernel/file.c:1048-1094 | Succeeds exactly when the index is below the number of files, with the name of that listed file |
| `FileMachine.NameResolves` | kernel/file.c:150-201 | A name is in the map of the volume exactly when the lookup finds it |
| `FileMachine.CreateCorrect` | kernel/file.c:510-597 | Create refines adding an empty file under the name |
| `FileMachine.WriteCorrect` | kernel/file.c:847-901 | Write refines appending to the bytes not yet recorded |
| `FileMachine.CloseCorrect` | kernel/file.c:634-649 | Close refines recording the bytes under the name |
| `FileMachine.OpenCorrect` | kernel/file.c:478-507 | Open for reading refines a cursor at the start of the named bytes |
| `FileMachine.ReadCorrect` | kernel/file.c:903-974 | Read refines delivering the next bytes and moving the cursor |
| `FileMachine.DeleteCorrect` | kernel/file.c:677-710 | Delete refines removing the name |
| `FileMachine.StepRefines` | kernel/file.c:599-974 | Every operation refines its effect on the map from names to bytes |
| `FileMachine.RunRefines` | kernel/file.c:599-974 | So does every run of operations, with the bytes delivered, on any sound volume; and where no cluster was lost before, none is lost after |
| `FileMachine.FreshVolume` | kernel/file.c:99-121 | A freshly formatted volume represents the empty map, so every run starts well formed |
| `FileMachine.EnabledExact` | kernel/file.c:599-710 | In terms of the named contents: exactly names that are there can be opened, and deleted unless open; exactly an open file can be closed, and read unless 0 bytes are asked for inside a sector |
| `FileMachine.RoundTripEnabled` | kernel/file.c:478-974 | A new name that is stored as itself, and free clusters for all the bytes, checked before the run, suffice for every create, write, close, open and read of it to succeed; reads of 0 bytes are among them where they start on a sector boundary or at the end |
| `FileMachine.WholeFileRoundTrip` | kernel/unit_test/file.c:456-530 | Under that condition, for any split into writes and any split into reads, the bytes read back are the bytes written, in order, up to the recorded size; every other file is as before |
| `FileMachine.OthersKept` | kernel/unit_test/file.c:456-530 | In any run of operations, a file that no operation names keeps its bytes |
| `FileRuns.Perform` | kernel/file.c:599-974 | One request served by the driver has the outcome of the machine's step |
| `FileRuns.PerformAll` | kernel/file.c:599-974 | The driver itself, called for a whole run, leaves the map and delivers the bytes that the run intends, on a sound volume, and loses no cluster |
| `FileRuns.StoreAndFetch` | kernel/file.c:478-974 | The driver itself, called for a round trip under the condition that RoundTripEnabled names, delivers the bytes that went in and keeps every other file |
| `FileRuns.OpenAnyCasing` | kernel/file.c:599-632 | The driver opens a file at its start, with its size, under any casing of its name |
| `Scheduling.SlotOfUsed` | kernel/scheduler.c:49-57 | The search by pid finds a scheduled task in its own slot, stale pids in free slots notwithstanding |
| `Scheduling.SearchEndsExactly` | kernel/scheduler.c:129-150 | The search for a ready task ends if and only if a task is ready or the current one is running |
| `Scheduling.FirstHitIsNext` | kernel/scheduler.c:129-150 | Where it ends is the first ready slot going round from the current one |
| `Scheduling.StepKeepsInv` | kernel/scheduler.c:60-196 | Adds, exits, blocks and ticks keep: used slots are a prefix, at most the current slot is running |
| `Scheduling.StepKeepsDistinct` | kernel/scheduler.c:80-92 | Pids stay distinct if and only if the step does not add, while there is room, one that is in the table |
| `Scheduling.FinishedStays` | kernel/scheduler.c:60-196 | A finished task stays finished if and only if the step does not block it, by its pid or as the current one |
| `Scheduling.ExitWakes` | kernel/scheduler.c:100-108 | An exit finishes its task and readies every other task blocked on a process to finish, and changes no one else |
| `Scheduling.RunKeepsInv` | kernel/scheduler.c:60-196 | The invariant holds at every state of every run |
| `Scheduling.CloserToTurn` | kernel/scheduler.c:129-150 | Each tick that does not run a ready task brings its turn closer; nothing else moves it |
| `Scheduling.WaitingRun` | kernel/scheduler.c:129-150 | Over any stretch of a run in which a ready task does not run, the ticks are paid for by the distance to its turn |
| `Scheduling.BoundedWaiting` | kernel/scheduler.c:129-150 | In every run with 16 ticks, mixed with any additions (also of pids in use), exits and blocks that leave it alone while it waits (Undisturbed: none by its pid, none of it as the current task unless it runs), a ready task gets to run |
| `Scheduling.TurnsDiffer` | kernel/scheduler.c:129-150 | While it waits, no other task is scheduled twice |
| `Scheduling.TickChanges` | kernel/scheduler.c:129-150 | A tick runs one ready task, or the current one again, readies the one that ran, leaves all others, and caches the pid |
| `Scheduling.AddedReady` | kernel/scheduler.c:80-92 | An added task is ready in the slot behind the used ones; all others stay as they were |
| `Scheduling.AddedRuns` | kernel/scheduler.c:80-150 | In every run that starts with adding a task while there is room, leaves it undisturbed, and has 16 ticks, that task gets to run |
| `Scheduling.BroadcastReadies` | kernel/scheduler.c:60-78 | A broadcast readies exactly the tasks blocked on its event, but for the excluded pid, and changes nothing else |
| `Scheduling.BlockingBlocks` | kernel/scheduler.c:172-196 | Blocking leaves the task blocked on that event and every other as it was |
| `Scheduling.BlockedUntil` | kernel/scheduler.c:60-108 | A blocked task becomes ready if and only if another task exits and it waits for that; no tick comes to it |
| `Scheduling.BlockedWaits` | kernel/scheduler.c:60-196 | Over a run: until its event is broadcast, and unless it is exited or blocked anew, a blocked task stays blocked and is not scheduled |
| `Schedulers.Scheduler.Allocate` | kernel/scheduler.c:38-46 | The first free slot is the one behind the used prefix |
| `Schedulers.Scheduler.EntryOf` | kernel/scheduler.c:49-57 | The first slot with the pid |
| `Schedulers.Scheduler.BroadcastEvent` | kernel/scheduler.c:60-78 | Readies exactly the tasks blocked on the event, but for the excluded one |
| `Schedulers.Scheduler.AddTask` | kernel/scheduler.c:80-92 | Is the add step of the machine, or reports too many tasks |
| `Schedulers.Scheduler.ExitTask` | kernel/scheduler.c:100-108 | Is the exit step of the machine |
| `Schedulers.Scheduler.Search` | kernel/scheduler.c:129-150 | The loop terminates and stops at the first ready slot going round |
| `Schedulers.Scheduler.Next` | kernel/scheduler.c:129-150 | Is the tick of the machine, and gives the pid of the task that runs |
| `Schedulers.Scheduler.BlockCurrentTask` | kernel/scheduler.c:172-176 | Is the machine's block of the running task |
| `Schedulers.Scheduler.BlockTask` | kernel/scheduler.c:191-196 | Is the machine's block of another task |
| `Expressions.NegationIsSubtraction` | builtin/basic/eval.c:278-286 | Negating everything up to the first plus is subtraction from zero in the same grammar |
| `Expressions.Reduce` | builtin/basic/eval.c:183-195 | An operator whose left neighbour does not bind stronger and whose right neighbour binds weaker may be applied early without changing the value |
| `Grammar.WrapExact` | builtin/basic/eval.c:251-299 | There is one 16-bit number equal to an integer modulo 65536, and it is what arithmetic wraps to |
| `Grammar.SumExact` | builtin/basic/eval.c:66-79 | In the arithmetic of integers: a sum is split at its first plus, a difference at its first minus, a product is that of all its operands; an expression is worth that number, modulo 65536 |
| `Grammar.TotalExact` | builtin/basic/eval.c:278-286 | The same with a leading minus, which is for the first difference only |
| `Grammar.ValueExact` | builtin/basic/eval.c:322-350 | So is every expression, of the values of its operands; or it has the error of its leftmost operand without a value |
| `Grammar.Samples` | builtin/basic/eval.c:66-79 | 2 * 3 - 1 is 5, and 10 - 4 - 3 is 9 |
| `StackMachines.StartDenotes` | builtin/basic/eval.c:112-125 | The initial configuration of the yard denotes the meaning of the expression |
| `StackMachines.OperandTaken` | builtin/basic/eval.c:133-176 | Sending an operand to the output keeps the outcome and the bounds of stacks and output |
| `StackMachines.OperatorPushed` | builtin/basic/eval.c:193-199 | Pushing an operator keeps the outcome and the bounds |
| `StackMachines.OperatorPopped` | builtin/basic/eval.c:181-191 | Popping an operator of strictly greater precedence keeps the outcome and the bounds |
| `StackMachines.YardDone` | builtin/basic/eval.c:203-217 | When all is read and popped, the output run on the stack machine gives the outcome, within 80 bytes and 16 numbers |
| `Evaluators.Evaluator.Operate` | builtin/basic/eval.c:251-299 | One operator on the number stack, with 16-bit wrap and the single-number minus |
| `Evaluators.Evaluator.EvalRpn` | builtin/basic/eval.c:232-306 | Runs the output bytes as the stack machine does |
| `Evaluators.Evaluator.PopStronger` | builtin/basic/eval.c:181-191 | Pops while the top binds strictly stronger, keeping the outcome |
| `Evaluators.Evaluator.TakeOperator` | builtin/basic/eval.c:178-199 | An operator token is taken with the outcome kept |
| `Evaluators.Evaluator.ShuntingYard` | builtin/basic/eval.c:112-217 | For every expression of at most 16 operands a level, the output computes its meaning, or the error is its leftmost one; the end position is right; static cursors saved around nested calls change nothing |
| `Evaluators.Evaluator.GetNumericRef` | builtin/basic/program.c:349-369 | The register, or the first definition of the name |
| `Evaluators.Evaluator.GetArray` | builtin/basic/program.c:547-574 | The address of the array, or undefined array |
| `Evaluators.Evaluator.GetPtr` | builtin/basic/t_variable.c:148-209 | Where a variable or array element is kept, the index evaluated by the evaluator itself; bounds and errors as in the meaning |
| `Evaluators.Evaluator.EvalNumeric` | builtin/basic/eval.c:322-350 | Evaluation, with nesting to any depth, equals the recursive meaning in value or error, terminates, and ends behind the expression |
| `Evaluators.Shortcut` | builtin/basic/eval.c:324-337 | The shortcut for a lone number or register agrees with the general path |
| `Statements.SearchExact` | builtin/basic/program.c:204-234 | On ascending numbers the search finds the first line at or above its target if and only if it may go forwards or the target is above the first number; otherwise it finds nothing |
| `Statements.ExecValid` | builtin/basic/statement.c:145-208 | Every statement keeps the machine valid, and one that fails is not rewritten and does not stop the run |
| `Statements.SecondRunExact` | builtin/basic/t_keyword.c:538-543 | A failed statement of any kind, run again as the error macro (errors.h:22) makes an IF do, does nothing more if and only if FailsAlike holds before the first run: it does not reach its innermost statement, or that is no PRINT that prints something, no NEXT with more frames on the return stack than it is tried, and no assignment under IFs of which the first decides otherwise once the target is set to 0 |
| `Statements.IfOnce` | builtin/basic/t_keyword.c:501-546 | Any IF whose condition holds does what its statement does once if and only if that does not fail, or would fail alike |
| `Statements.NextTwice` | builtin/basic/t_keyword.c:538-543 | Where it does not: in two crossed loops, NEXT of the outer variable is an error, and under an IF it is none and goes back to the outer FOR |
| `Statements.PrintTwice` | builtin/basic/t_keyword.c:538-543 | Likewise: a PRINT that fails on its second item, under an IF, prints its first item twice |
| `Statements.LetTwice` | builtin/basic/statement.c:175-183 | Likewise: IF A = 5 THEN A(XY) = 1 with XY undefined is an error, and under a second IF it is none, since its own failure has set A to 0 |
| `Statements.LetStores` | builtin/basic/statement.c:166-197 | After an assignment without an error, the place its target has - a variable, or an array element - holds the value of the expression; an undefined target counts as 0 meanwhile, and only variables and memory have changed |
| `Statements.MeaningOutside` | builtin/basic/eval.c:322-350 | An expression whose array pointers do not lead into the program text means the same whatever the text |
| `Statements.PlaceOutside` | builtin/basic/t_variable.c:148-209 | So do the places it assigns to |
| `Arrays.StoreFrame` | builtin/basic/statement.c:196-197 | Storing at a place changes no place that shares no cell or byte with it |
| `Arrays.DimLimit` | builtin/basic/t_keyword.c:439-479 | Exactly the sizes from 0 to 127 can be declared; others are out of range and change nothing |
| `Arrays.DeclaredAt` | builtin/basic/t_keyword.c:439-479 | The array is at the end of memory as it was, zeroed, and the rest of memory is untouched |
| `Arrays.ElementsOfArray` | builtin/basic/t_variable.c:168-197 | Of an array of n elements exactly those from 1 to n can be used; they are 0 at first and lie in the memory just taken |
| `Arrays.ElementsSeparate` | builtin/basic/array.h:3-4 | Different elements share no byte |
| `Arrays.DimOthers` | builtin/basic/t_keyword.c:439-479 | A DIM changes no other variable |
| `Arrays.NoElement` | builtin/basic/t_variable.c:168-197 | An element has the error of its index first, then that of an undefined array |
| `Programs.PatchedExec` | builtin/basic/t_keyword.c:218-251 | A statement rewritten by its own jump does what the original does, and leaves a rewriting of the original |
| `Programs.AgreeStep` | builtin/basic/t_keyword.c:373-421 | One line of the self-modifying run agrees with one line of the searching run |
| `Programs.RewritingInvisible` | builtin/basic/program.c:238-282 | After any number of lines the two runs have visited the same lines, with the same variables, memory, return stack, output, and outcome |
| `Programs.RunsAgree` | builtin/basic/program.c:238-282 | In particular from the start of a run |
| `Programs.SearchKeepsLines` | builtin/basic/program.c:238-282 | The searching run never changes its text |
| `Programs.FirstLineNotFound` | builtin/basic/program.c:204-234 | The input: with lines 10 and 20, GOTO 10 from line 20 finds nothing and ends the run with the GOTO error |
| `Programs.UndefinedIndexUnnoticed` | builtin/basic/t_keyword.c:538-543 | The input, as a whole program: with that line, and XY undefined, the run gets to its END without an error |
| `Loops.ForAgain` | builtin/basic/t_keyword.c:253-331 | FOR, returned to, counts on by one and enters again or leaves past its NEXT |
| `Loops.LoopRuns` | builtin/basic/t_keyword.c:253-371 | A loop with a balanced body runs it exactly limit - start times, with the values from start to limit - 1, then leaves past the NEXT with the return stack as on entry, or ends the run with the GOTO error if no line follows |
| `Loops.LoopKeeps` | builtin/basic/t_keyword.c:253-371 | The loop itself changes no other variable |
| `Loops.NestedLoop` | builtin/basic/t_keyword.c:253-371 | So a loop over another variable is itself a balanced body: loops nest |
| `Loops.ForNotSkipping` | builtin/basic/t_keyword.c:309-323 | A FOR whose start is not below its limit, first met, goes to the line after whatever the return stack has on top, and is undefined if and only if that is empty |
| `Loops.EmptyLoopUndefined` | builtin/basic/t_keyword.c:309-323 | The input: FOR A = 1 TO 1 as a first line is undefined |
| `Loops.CrossedLoopsEnd` | builtin/basic/t_keyword.c:253-371 | The input, as a whole program: two crossed loops with the outer NEXT under an IF run to their END without an error |
| `Loops.AssignLimit` | builtin/basic/program.c:371-395 | Assigning fails if and only if the name is new and sixteen are defined |
| `Calls.CallReturns` | builtin/basic/t_keyword.c:373-437 | A subroutine that comes to a RETURN with the return stack as at its start continues at the line after its GOSUB, with the return stack as before the call and its own effects on variables and output; where no line follows, the run ends with the GOTO error |
| `Calls.NestedCall` | builtin/basic/t_keyword.c:373-437 | A call inside a subroutine is a balanced stretch of it, so subroutines nest |
| `Calls.StretchJoin` | builtin/basic/program.c:238-282 | Balanced stretches follow each other |
| `Calls.GotoLands` | builtin/basic/t_keyword.c:218-238 | A GOTO that may go forwards, or back to above the first number, lands on the first line at or above its target, changing nothing else, and ends the run where there is none |
| `Calls.IfGoto` | builtin/basic/t_keyword.c:501-546 | An IF before a jump jumps exactly where the difference of its sides has the sign of its comparison, and else goes on |
| `Calls.IfFails` | builtin/basic/t_keyword.c:501-546 | An IF whose condition has no value ends the run with the error of its first side without one |
| `Calls.EndAndRemark` | builtin/basic/program.c:238-282 | END ends the run without an error; a remark does nothing |
| `Calls.RunStarts` | builtin/basic/program.c:238-255 | A run starts at the first line, without named variables and frames; registers, memory and output stay |
| `Calls.PrintShows` | builtin/basic/t_keyword.c:126-190 | A PRINT without an error prints its texts and the values of its expressions, in order, and a new line |
| `Calls.PrintStops` | builtin/basic/t_keyword.c:126-190 | One with an error prints what comes before the first expression without a value, in order, and ends with its error |
| `Calls.LetFails` | builtin/basic/statement.c:166-197 | An assignment whose expression has no value ends the run with that error and assigns nothing |
| `Calls.NothingToReturnTo` | builtin/basic/t_keyword.c:342-437 | RETURN and NEXT with nothing to return to, and NEXT of another variable, end the run, each with its own error |
| `Tokens.StatementSize` | builtin/basic/statement.c:89-132 | The size of any well-formed token sequence is its bytes and the terminator, modulo 256, whatever strings, names, numbers and remarks carry |
| `ProgramTexts.InsertKeeps` | builtin/basic/program.c:141-173 | Inserting a line keeps every record with its statement intact and links the new one behind them |
| `ProgramTexts.InsertPlaced` | builtin/basic/program.c:141-173 | Records stay disjoint and in order |
| `ProgramTexts.LinksList` | builtin/basic/program.c:141-173 | Following k links on from any line gives the k-th later line in order of insertion, then the end; links back are the inverse |
| `ProgramTexts.PatchedSize` | builtin/basic/t_keyword.c:218-251 | A rewritten jump has the size of the original, and FORs are never rewritten |
| `ProgramTexts.PatchLaid` | builtin/basic/t_keyword.c:231-235 | Rewriting a line in place leaves its links and every other line intact |
| `ProgramTexts.PatchStack` | builtin/basic/t_keyword.c:231-235 | Pointers from the return stack to variable tokens in the text stay right |
| `ProgramTexts.VarTokenHere` | builtin/basic/program.c:430-438 | A frame's pointer leads to the token of its loop variable |
| `Interpreters.Interpreter.New` | builtin/basic/program.c:116-139 | An empty program: no lines, variables or frames; registers hold no arrays |
| `Interpreters.Interpreter.Insert` | builtin/basic/program.c:141-173 | Appends exactly the record of the line, and keeps all others |
| `Interpreters.Interpreter.SearchLineno` | builtin/basic/program.c:204-234 | Following links in memory is the search over line numbers, for any numbers |
| `Interpreters.Interpreter.TransferControl` | builtin/basic/program.c:316-321 | The next line is what the search finds, or none |
| `Interpreters.Interpreter.PushReturn` | builtin/basic/program.c:430-438 | Pushes the frame |
| `Interpreters.Interpreter.PopReturn` | builtin/basic/program.c:452-462 | Pops the frame, or reports an empty stack |
| `Interpreters.Interpreter.VarCmp` | builtin/basic/t_variable.c:12-33 | Variable tokens compare equal exactly when they are the same variable; null equals nothing |
| `Interpreters.Interpreter.SetNumeric` | builtin/basic/program.c:371-395 | Sets or defines a plain variable, or reports too many |
| `Interpreters.Interpreter.GetNumeric` | builtin/basic/program.c:409-416 | The value of a plain variable, or undefined |
| `Interpreters.Interpreter.Alloc` | builtin/basic/program.c:477-494 | Appends mark, size and zeroes to memory and changes nothing else |
| `Interpreters.Interpreter.CreateArray` | builtin/basic/program.c:508-533 | Makes the variable the name of the new array |
| `Interpreters.Interpreter.Rewrite` | builtin/basic/t_keyword.c:231-235 | Overwrites the keyword and operand of a jump and no other byte of the text |
| `Interpreters.Interpreter.DoGoto` | builtin/basic/t_keyword.c:218-238 | On bytes: does what the machine does, and leaves the tokens of the direct jump |
| `Interpreters.Interpreter.DoJumpto` | builtin/basic/t_keyword.c:240-251 | On bytes: does what the machine does |
| `Interpreters.Interpreter.DoGosub` | builtin/basic/t_keyword.c:373-400 | On bytes: does what the machine does, and leaves the tokens of the direct call |
| `Interpreters.Interpreter.DoJumpsub` | builtin/basic/t_keyword.c:402-421 | On bytes: does what the machine does |
| `Interpreters.Interpreter.DoReturn` | builtin/basic/t_keyword.c:423-437 | On bytes: does what the machine does |
| `Interpreters.Interpreter.DoFor` | builtin/basic/t_keyword.c:253-331 | On bytes: does what the machine does |
| `Interpreters.Interpreter.DoNext` | builtin/basic/t_keyword.c:342-371 | On bytes: does what the machine does |
| `Interpreters.Interpreter.DoDim` | builtin/basic/t_keyword.c:439-479 | On bytes: does what the machine does |
| `Interpreters.ComparisonRead` | builtin/basic/t_keyword.c:482-499 | Each comparison operator decides its relation, and no other code is accepted as one |
| `Interpreters.Interpreter.RunBody` | builtin/basic/t_keyword.c:538-543 | On bytes: runs the statement behind THEN, and where it fails runs it again and returns the error of the second run |
| `Interpreters.Interpreter.DoIf` | builtin/basic/t_keyword.c:501-546 | On bytes: does what the machine does, with the statement behind THEN rewritten in place if it rewrites itself |
| `Interpreters.Interpreter.DoPrint` | builtin/basic/t_keyword.c:126-190 | On bytes: prints the values and texts that the machine prints, up to the first error |
| `Interpreters.Interpreter.Assignment` | builtin/basic/statement.c:166-197 | On bytes: does what the machine does |
| `Interpreters.Interpreter.StatementInterpret` | builtin/basic/statement.c:145-208 | Any statement in memory does what the machine does with it, and leaves its tokens as the machine has it |
| `Interpreters.Interpreter.RunLine` | builtin/basic/program.c:257-279 | One turn of the run loop is one step of the machine; records and links stay |
| `Interpreters.Interpreter.Run` | builtin/basic/program.c:238-282 | The interpreter, overwriting its own jumps in memory, ends with the error, variables, return stack and output of the machine that searches for every jump, whenever that machine ends; the text is the program with some jumps rewritten |
| `Lexing.DecimalValue` | builtin/basic/t_numeric.c:36-47 | Reading decimal digits in 16-bit arithmetic gives back the number they spell |
| `Lexing.SpellingLexes` | builtin/basic/statement.c:21-51 | Every token, spelled as a programmer writes it and followed by anything that does not make it longer, is read as that token and no more: the order of the parsers hides none |
| `Lexing.NameLexes` | builtin/basic/t_variable.c:47-106 | Names of two to four letters that are not reserved are read as themselves |
| `Lexing.KeywordLexes` | builtin/basic/t_keyword.c:82-124 | Every keyword is read as its code |
| `Lexing.SourceLexes` | builtin/basic/statement.c:65-87 | Tokenizing the text of a statement gives exactly the tokens that were meant |
| `Lexing.SpacedLexes` | builtin/basic/statement.c:65-87 | However tokens are spaced, and without spaces where nothing runs together, the text gives exactly the tokens that were meant |
| `Lexing.NoToken` | builtin/basic/statement.c:21-51 | A text is refused if and only if it starts with no capital, digit, sign, quotation mark or comma |
| `Vocabulary.Keywords` | builtin/basic/t_keyword.c:16-80 | Which word is which keyword |
| `Vocabulary.Signs` | builtin/basic/t_operator.c:20-72 | Which sign is which operator, and which comparison |
| `Vocabulary.DigitsExact` | builtin/basic/t_numeric.c:36-47 | Digits are read as the number they spell, modulo 65536, however many there are |
| `Vocabulary.LongName` | builtin/basic/t_variable.c:47-106 | Of names of four to eight letters the first four count |
| `Vocabulary.Registers` | builtin/basic/t_variable.c:47-106 | A letter alone is the register with its place in the alphabet |
| `Vocabulary.NamesAreWords` | builtin/basic/t_variable.c:47-106 | Names are exactly the words of capital letters |
| `Vocabulary.SizeOfTokens` | builtin/basic/statement.c:65-87 | The room a text asks of the token buffer is that of its tokens |
| `Tokenizers.RemParse` | builtin/basic/t_defs.c:29-68 | Stores a remark with its size, to the end of the text |
| `Tokenizers.StringParse` | builtin/basic/t_string.c:18-58 | Stores a quoted string with its size |
| `Tokenizers.OperatorParse` | builtin/basic/t_operator.c:20-72 | Stores an operator, the two-character ones first |
| `Tokenizers.NumericParse` | builtin/basic/t_numeric.c:17-59 | Stores the value of the digits |
| `Tokenizers.KeywordParse` | builtin/basic/t_keyword.c:82-124 | Stores the code of a keyword, if the whole word is one |
| `Tokenizers.FuncParse` | builtin/basic/t_func.c:10-39 | Stores the one function |
| `Tokenizers.VariableParse` | builtin/basic/t_variable.c:47-106 | Stores a register, or up to four letters of a name, and skips the rest |
| `Tokenizers.TokenizeString` | builtin/basic/statement.c:21-51 | Stores the first token of the text, or reports a syntax error |
| `Tokenizers.Tokenize` | builtin/basic/statement.c:65-87 | Fills the buffer with the tokens of the text and the terminator, or reports a syntax error exactly when there is one |
| `Sources.ReadsExpr` | builtin/basic/eval.c:84-95 | The text of an expression is read as its tokens |
| `Sources.ReadsStmt` | builtin/basic/statement.c:65-87 | The text of a statement is read as its tokens |
| `Sources.LineLexes` | builtin/basic/statement.c:65-87 | The text of a numbered line is read as its number and its statement's tokens |
| `Sources.WritableExact` | builtin/basic/statement.c:65-87 | A line can be written as text if and only if all its words can, and it is no rewritten jump: this covers every line that a programmer can type |
| `Sessions.TokensAnywhere` | builtin/basic/t_keyword.c:231-235 | Only rewritten jumps depend on where lines are |
| `Sessions.ProcessLine` | builtin/basic/main.c:33-56 | A numbered line of text becomes the next record of the program |
| `Sessions.LoadedAll` | builtin/basic/program.c:141-173 | The records of all lines are the encoding of the program, which is what a run requires |
| `Sessions.Load` | builtin/basic/main.c:33-56 | Typing in the text of a program leaves that program in memory, and a run of it can begin |

## Left out

- Write: asks for enough free clusters (`CanWrite`); recovery after a full disk is not modelled. `WriteSector` states the disk-full outcome itself.
- Read: requires a descriptor at a position of its file; when `ReadExact` fails, states only that the count is not the one asked for and what the first byte is.
- Delete: requires a sound volume; on a FAT with a cycle the loop of the code does not end.
- FindEntry: is one scan for the three identical ones in the code, and requires that the name or a never-used slot is met inside the root directory.
- OpenWrite: requires that the driver's search for a free cluster is exact, and names of at most 12 bytes, which the buffers of the code assume.
- GetDirectoryEntry: as FindEntry.
- SetDirectoryEntry: as FindEntry.
- MarkDirectoryEntryFree: as FindEntry.
- OpenRead: as FindEntry.
- Open: as FindEntry, and for writing as OpenWrite.
- Close: as FindEntry.
- FatAllocateStartCluster: requires that the search gives a cluster within reach (`SearchGives`); else the driver would write past the table.
- FatAllocateCluster: likewise.
- WriteSector: requires that the search is exact (`SearchSafe`) where it completes a cluster.
- CreateKeeps: covers names that are stored as themselves. What becomes of the clusters under any name is in CreateLeakExact.
- BlockCurrentTask: requires that a task has been scheduled.
- Next: requires that a task is ready or the current one is running; otherwise its loop goes round for ever (`SearchEndsExactly`). The search loop is the method `Search`.
- ShuntingYard: at most 16 operands a level, which the stacks of the code assume. Functions (`RND`) in expressions are not modelled.
- EvalNumeric: as ShuntingYard.
- GetPtr: as ShuntingYard.
- ProcessLine: covers lines with a number; statements typed without one and the display of errors are not modelled.
- Mount: requires the 512 bytes a sector that the rest of the driver's model has as a constant.
- Run: speaks of runs that end; one that goes on for ever agrees with the searching machine step by step (`RewritingInvisible`).
- StatementInterpret: covers well-formed statements of a running program; LIST, NEW and RUN inside a program, a line number after THEN, and malformed token sequences are not modelled.
- VarCmp: says equal or not; the sign of the string comparison is not modelled.
- Tokenize: requires closed strings, words of at most 8 letters, and token bytes that fit the buffer, where the code has no checks.
- Insert: requires room in memory; the code has no check. Memory is 64 KB, the end of the user area is not modelled.
- Several descriptors: the driver has one (`FILE_LIMIT` is 1).
- The second copy of the FAT, which the driver does not write.
- Boot sectors whose regions are out of order or overflow the 16-bit arithmetic (`LayoutValid`), and chains through clusters beyond its reach.
- Dates and attributes in `file_info`, and the check of target addresses at the start of `file_read`.
- Files made elsewhere with start cluster 0 (empty files) or end marks other than 0xffff.
- LIST and the formatting of PRINT: output is a sequence of texts, numbers and line ends.
- The values of `RND`.
- Saving and restoring processes, timers and port I/O: assembly, `kernel/process.c`, `kernel/memory.c` and `kernel/signal.c`. The scheduled pid is recorded.
- The loader's read-only copy of the driver, the shell commands, the monitor and the serial transfer.
