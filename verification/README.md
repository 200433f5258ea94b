# GenericFS and the FAT simulator: a verified model

This project models three programs of the repository and proves what they are
for: the FAT file system simulator (`FAT/FileSystem.cpp` and its checker and
shell), the GenericFS disk tool (`disktool/`), and the reference-counted string
class (`FAT/str.cpp`).

## The FAT simulator

A `FileSystem` object holds a table of 512 links, a directory of 32 entries, 16
handles and a block device, and changes them in place. `FileSystem.dfy` does the
same with arrays; each method is proved equal to a function on the state
(`FatOps.dfy`), and the properties are proved about these functions.

- `FatInvariant`: the invariant. Chains are repetition-free, end in EOF, stay
  behind block 2, are disjoint, and have size/1024+1 blocks; every other block is
  free; names are unique; a reader's cursor is on the block that holds its
  offset, a writer's at the end of its file.
- `FatWriteProofs`, `FatBuffering`, `FatReadProofs`, `FatDirProofs`, `FatRemount`:
  every operation keeps it and does to the files what it should.
- `FatRefinement`: every run refines a map from names to byte sequences.
- `FatCalls`, `FatLayout`: each call, the device and its checksum in plain numbers,
  apart from the functions that specify the class.
- `FatPrograms`: so does every program over `FileSystem` objects, call by call.
- `FatCheck`, `FatVerdict`: what `check()` decides and which exception it throws,
  and how that relates to the invariant.
- `FatLimits`, `FatRoom`, `FatTwoWriters`, `FatReached`: where the interface stops
  working, with exact conditions and runs that lead there.
- `Shell`, `ShellHost`: `vdir`, `vcopy`, `vcopyin` and `vcopyout` as clients.

Assumed, as the code and its comments do: the device has at least 512 blocks of
1024 bytes; `long` has 32 bits, so that a directory entry has 32 bytes, stored
least significant byte first; names passed in have at most 23 characters (the
type `Name`); handles passed to `close` are not negative; operations other than
`format` and construction act on a formatted disk in good order; `format` runs
with nothing open; there is at most one WRITE handle for a file, except where
`FatRoom` and `FatTwoWriters` say what happens with two; `truncate` and `remove`
act on files that are not open (`FAT/FileSystem.hpp` lines 160-163 and
177-179). Exceptions are values of `Result`.

## The disk tool

A partition is a flat array of bytes (`GfsImage`), on which the methods of class
`DiskTool` work through block buffers as the original does.

- `GfsBitmap`, `GfsDirectory`: first-fit allocation; the append to a directory.
- `GfsCounting`: what the checker counts and prints.
- `GfsCreate`: `create_file` keeps any image one that the checker accepts.
- `GfsInitialize`: the initial image, and all files that can be put on it.
- `GfsLayout`: the fields of fresh and created inodes, entries and blocks by byte
  offset, and which words of any inode are block numbers.
- `GfsDiskTool`: the methods, and `Session`, which puts the menu choices together.

Assumed: the partition has 5 to 2^20 blocks (below that the metadata do not fit,
above it 32-bit byte offsets wrap; both bounds are proved exact); block numbers
found on the disk are inside the partition; the root directory is one block
whose entries form a forward list; for `create_file` there is a clear inode bit
and, for a file that is not empty, a clear block bit below the end of the
partition, and room in the directory. On images made by `initialize` the latter
is proved equivalent to counts that are known beforehand. Words are stored least
significant byte first.

## The strings

`SharedStrings` has nodes with a count and a buffer, strings that point to nodes,
and a ghost pool of what is alive. `StringRuns` executes any program over strings
and proves its results to be those without sharing. `Words` says what words are,
independently of the two scanners of `words` and `subword`.

## Where the code does not do what one would expect

- `check()` accepts a table in which a reserved block belongs to a file
  (`FatCheck.BootBlockInFile`): what it says is the invariant exactly where that
  and the like is not so (`FatCheck.ConsistentIsStructure`).
- `check()` does not return when a chain has no end, unless an earlier entry makes
  it throw first; the model calls this outcome `NeverReturns`, and the contract of
  `FileSystem.Check` has the exact condition. `FatCheck.TwoBlockCycle` and
  `FatCheck.CycleBehindWrongSize` are tables of both kinds.
- `open()` admits two WRITE handles on one file (`FatTwoWriters.SecondWriterOpens`);
  then bytes and blocks are lost (`SecondWriterOverwrites`,
  `SecondWriterLosesBlock`), and "can't locate a free block" is thrown after all,
  exactly when the blocks that both fill are more than are free (`SecondWriteIff`,
  with the run of `FatReached.MissReached`). A byte upsets a cursor in no other case
  (`OneWriterNeeded`).
- `truncate()` is harmless on a file whose handles all stand at the beginning,
  which its comment calls undefined as well (`FatLimits.TruncateIff`).
- `vcopy` leaves the source open when no handle is left for the destination, or
  when the destination is missing and cannot be created (`Shell.VCopyClosesIff`,
  with the witness `Shell.SourceLeftOpen`).
- On a full partition the allocators of the disk tool return the number behind its
  end, where `initialize` leaves clear bits; if the size is a multiple of 32768 the
  map has none, and the source marks one outside its buffer (`GfsCreate.FullMap`,
  with the witnesses of `GfsCreate.FullMaps`).
- A custom delimiter set makes the terminating null character a delimiter
  (`Words.IsWhite`); `subword` is safe nevertheless.

## Model

| member | source | states |
|---|---|---|
| FatRefinement.RunRefines | FAT/FileSystem.cpp:98-433 | Over every run of open, close, read, write, truncate, remove, format and remount that the interface allows, the invariant holds, every call returns what a map from names to byte sequences with per-handle views returns, and the state ends as that map, those views and that free space. |
| FatRefinement.StepRefines | FAT/FileSystem.cpp:98-433 | Each single call, including every throwing path, does to the abstract file system what the abstract machine says and keeps the invariant. |
| FatRefinement.FormattedRuns | FAT/FileSystem.cpp:98-136 | Every allowed run from a freshly formatted disk stays valid and keeps free blocks plus the blocks that the sizes account for at 509. |
| FatRefinement.SpaceConserved | FAT/FileSystem.cpp:167-181 | In every valid state the free blocks and size/1024+1 for each file add up to exactly 509. |
| FatRefinement.DirectoryFull | FAT/FileSystem.cpp:323-330 | The search for an unused directory slot fails exactly when there are 32 files. |
| FatRefinement.ListingIsFiles | FAT/FileSystem.cpp:440-461 | A directory scan lists every file once, with its size, and nothing else. |
| FatRefinement.OpenRefines | FAT/FileSystem.cpp:294-382 | open returns the lowest free handle, positions a reader at 0 and a writer at the end, creates a missing file for writing, and throws in the order handles, missing file, directory full, disk full, leaving the state alone. |
| FatRefinement.ReadRefines | FAT/FileSystem.cpp:188-229 | read agrees with the abstract machine on bytes, result and new view, and changes no file. |
| FatRefinement.WriteRefines | FAT/FileSystem.cpp:232-287 | write agrees with the abstract machine, free space included. |
| FatRefinement.WriteTakesBlocks | FAT/FileSystem.cpp:264-281 | A write takes from the free blocks exactly those by which size/1024+1 grows. |
| FatRefinement.CutFreesBlocks | FAT/FileSystem.cpp:396-402 | Cutting a chain gives back exactly the blocks that the sizes account for. |
| FatRefinement.TruncateRefines | FAT/FileSystem.cpp:384-408 | truncate empties the named file, gives back its blocks but one, and changes no other file; a missing name changes nothing. |
| FatRefinement.RemoveRefines | FAT/FileSystem.cpp:410-433 | remove takes the name off the map and gives back all its blocks; a missing name changes nothing. |
| FatRefinement.CreateRefines | FAT/FileSystem.cpp:323-355 | Opening a missing file for writing, with a slot and a block left, makes an empty file and takes one block; OpenRefines has the cases that throw. |
| FatRefinement.AbsStepOk | FAT/FileSystem.cpp:98-433 | On the abstract machine every allowed call keeps all views inside their files, so a run is judged by its calls alone. |
| FatRefinement.CloseRefines | FAT/FileSystem.cpp:146-158 | close takes exactly the one view away, or throws and changes nothing. |
| FatRefinement.FormatRefines | FAT/FileSystem.cpp:98-136 | format leaves no files and 509 free blocks. |
| FatRefinement.RemountRefines | FAT/FileSystem.cpp:36-90 | Destroying the object and constructing another keeps all files and forgets all handles. |
| FatCalls.AllowedCalls | FAT/FileSystem.hpp:160-179 | The calls that runs are made of: no second writer of a file, no more bytes than the buffer has, no truncate or remove of an open file, no format under open handles. |
| FatCalls.OpenForReading | FAT/FileSystem.cpp:294-382 | open for reading, on handles and directory: the lowest of 16 handles, at offset 0, on the entry with the name; out of handles comes before a missing file. |
| FatCalls.OpenForWriting | FAT/FileSystem.cpp:359-379 | open of an existing file for writing: the lowest handle, at the end of the file. |
| FatCalls.OpenToCreate | FAT/FileSystem.cpp:294-340 | open of a missing file for writing throws for handles, then for 32 files, then for no link of 0, and changes nothing; otherwise it returns the handle. |
| FatCalls.CreateCall | FAT/FileSystem.cpp:323-355 | The created file is empty, has the first slot with flag 0 and the first block with link 0, which gets link 2, flag 1, size 0 and the name with a terminator; nothing else changes. |
| FatCalls.CloseCall | FAT/FileSystem.cpp:146-158 | close throws for 16 and above, then for a handle not in use; otherwise that handle is not in use any more. |
| FatCalls.ReadCall | FAT/FileSystem.cpp:188-229 | read returns the smaller of count and what is left, delivers exactly that slice, moves that handle by it, and changes neither files, links nor directory. |
| FatCalls.WriteCall | FAT/FileSystem.cpp:232-287 | write returns the smaller of count and 1024F+1023-size%1024, F being the number of free blocks, appends that many bytes to the one file, takes the blocks by which size/1024 grows, and moves that handle alone. |
| FatCalls.TruncateCall | FAT/FileSystem.cpp:384-408 | truncate empties the one file and gives back size/1024 blocks; a missing name changes nothing. |
| FatCalls.RemoveCall | FAT/FileSystem.cpp:410-433 | remove takes the one name off the map and gives back size/1024+1 blocks; a missing name changes nothing. |
| FatCalls.FormatCall | FAT/FileSystem.cpp:98-136 | After format the links are three of 1 and 509 of 0, no slot is in use, there are no files, and the state is valid. |
| FatCalls.RemountCall | FAT/FileSystem.cpp:36-90 | After a remount files, links and directory are those of before and none of the 16 handles is in use. |
| FatInvariant.BlocksConserved | FAT/FileSystem.cpp:98-136 | In every valid state each of the 509 data blocks is free or on exactly one chain: their numbers add up. |
| FatInvariant.ChainsDetermined | FAT/FileSystem.hpp:85-89 | The chains of an invariant state are a function of the table and the directory: no other family of chains fits. |
| FatInvariant.Pigeonhole | FAT/FileSystem.cpp:375-377 | A repetition-free walk is no longer than the table, which is why the chain walks end. |
| FatInvariant.LinkOnChain | FAT/FileSystem.hpp:85-89 | Links on a chain lead to blocks from 3 on, so they never collide with the FREE, RESERVED and EOF values. |
| FatWriteProofs.WriteCorrect | FAT/FileSystem.cpp:232-287 | write keeps the invariant, throws only for bad handles and then changes nothing; otherwise it appends exactly the first min(count, capacity) bytes to the one file, moves that one view, and the capacity falls by what was written. |
| FatWriteProofs.PutKeepsValid | FAT/FileSystem.cpp:259-282 | Writing one byte keeps every part of the invariant, also when it fills the block and a free block is linked in. |
| FatWriteProofs.PutAppends | FAT/FileSystem.cpp:259-282 | Writing one byte appends it to the file of the handle and leaves all other files alone. |
| FatWriteProofs.PutBytesAppends | FAT/FileSystem.cpp:259-286 | The same for any sequence of bytes that fits. |
| FatWriteProofs.WriterAtEnd | FAT/FileSystem.cpp:254-258 | The current block of a WRITE handle is the last block of its chain, which is never full. |
| FatWriteProofs.PutKeepsCursor | FAT/FileSystem.cpp:259-282 | A byte appended through one handle leaves the cursor of every other handle in order, readers of the same file included. |
| FatWriteProofs.ExtendedStructure | FAT/FileSystem.cpp:268-280 | Linking in a free block keeps chains repetition-free, disjoint and complete. |
| FatWriteProofs.WriteChunks | FAT/FileSystem.cpp:254-286 | Writing a and then b leaves exactly the state, device bytes included, that writing a+b leaves, and the counts add up, however the split falls and also when the disk fills up. |
| FatBuffering.BufferPutRefines | FAT/FileSystem.cpp:259-286 | The delayed block buffer of write: after every byte the device lags behind the plain append by exactly the block in the buffer. |
| FatWriteProofs.RoomForOne | FAT/FileSystem.cpp:268-274 | In a valid state, while bytes within the adjusted count remain, a full block finds a free one. |
| FatWriteProofs.WriteIsPutBytes | FAT/FileSystem.cpp:232-287 | So in a valid state the exception for a missing free block is unreachable, and write is an append of the first min(count, capacity) bytes, of none for a negative count. |
| FatRoom.FirstMissIs | FAT/FileSystem.cpp:264-274 | On any state in which a writer stands on a block in use, the first byte that finds no free block is, counting from zero, number 1024F+1023-offset%1024, F being the number of free blocks, if the data are that long. |
| FatRoom.PutTakes | FAT/FileSystem.cpp:259-282 | As long as no byte misses a block, exactly those blocks are taken that the bytes fill, and no block in use becomes free. |
| FatRoom.CanWriteIff | FAT/FileSystem.cpp:245-274 | On such a state write does not throw for a missing free block if and only if no byte is to be written or the blocks that the adjusted count fills are at most the free ones. |
| FatRoom.WriteIs | FAT/FileSystem.cpp:232-287 | On such a state write appends the adjusted count of bytes, or throws for a missing free block after exactly the bytes up to the first that finds none have been put. |
| FatReadProofs.ReadCorrect | FAT/FileSystem.cpp:188-229 | read keeps the invariant and all files, throws only for bad handles, and delivers exactly the slice of the file at the offset of the handle, cut off at its end. |
| FatReadProofs.CursorFollowsChain | FAT/FileSystem.cpp:213-226 | Following the cursor byte by byte stays on the chain of the file and yields its bytes. |
| FatReadProofs.AdvanceOk | FAT/FileSystem.cpp:218-225 | At an exact block boundary the link leads to a data block of the same file. |
| FatDirProofs.OpenExistingValid | FAT/FileSystem.cpp:359-379 | Opening an existing file keeps the invariant; a new writer stands on the last block. |
| FatDirProofs.CreateValid | FAT/FileSystem.cpp:323-355 | Creating a file keeps the invariant. |
| FatDirProofs.CreateFiles | FAT/FileSystem.cpp:341-355 | Creating a file adds exactly one empty file to the map. |
| FatDirProofs.CloseValid | FAT/FileSystem.cpp:146-158 | Closing a handle keeps the invariant. |
| FatDirProofs.TruncateValid | FAT/FileSystem.cpp:384-408 | truncate of a file that is not open keeps the invariant. |
| FatDirProofs.RemoveValid | FAT/FileSystem.cpp:410-433 | remove of a file that is not open keeps the invariant. |
| FatDirProofs.CutNoneLost | FAT/FileSystem.cpp:396-403 | Freeing a chain while walking it loses no block, frees all its blocks but the one kept, and changes no link of another file. |
| FatDirProofs.CutOther | FAT/FileSystem.cpp:396-403 | After that the entry of every other file is in order on the chain it had. |
| FatDirProofs.CutFiles | FAT/FileSystem.cpp:384-433 | Freeing a chain changes the contents of no other file. |
| FatDirProofs.BootBlockOk | FAT/FileSystem.cpp:103-118 | The boot block that format writes sums to zero modulo 256 and is the one the constructor recognises. |
| FatLayout.ByteSumConcat | FAT/FileSystem.cpp:52-58 | The checksum of two pieces is the sum of their checksums modulo 256. |
| FatLayout.ByteSumOne | FAT/FileSystem.cpp:52-58 | The checksum of one byte is the byte, that of none is zero. |
| FatLayout.BootBlockBytes | FAT/FileSystem.cpp:103-118 | The boot block is 0x6E, 1022 zeros, 0x92. |
| FatLayout.BootBlockIff | FAT/FileSystem.cpp:50-62 | Of the blocks that differ from the boot block in at most one byte the constructor accepts that one only. |
| FatLayout.FormattedDisk | FAT/FileSystem.cpp:98-136 | Byte by byte, what is on the device after format and the destructor: boot block, links 1 1 1 0 ..., a directory of zeros; the other blocks stay. |
| FatLayout.LinkStored | FAT/FileSystem.cpp:21-27 | flush stores link b in bytes 2b and 2b+1 of block 1, low byte first, and changes blocks 1 and 2 only. |
| FatLayout.EntryStored | FAT/FileSystem.hpp:47-60 | flush stores an entry in 32 bytes of block 2: 24 of name, 4 of size in two's complement, 2 of first block, flag and padding. |
| FatLayout.FileIsBlocks | FAT/FileSystem.cpp:209-226 | The contents of a file are the beginning of its blocks laid end to end. |
| FatLayout.FileOnDisk | FAT/FileSystem.hpp:85-89 | In a valid state the file with a directory entry consists of the blocks from its first one along the links to the link 2, laid end to end and cut to its size. |
| FatDirProofs.FormatValid | FAT/FileSystem.cpp:98-136 | format establishes the invariant and an empty file system, whatever was there before, when nothing is open. |
| FatRemount.RemountRecovers | FAT/FileSystem.cpp:21-27 | Flushing in the destructor and constructing again recognises the disk as formatted and recovers the same files with all handles closed. |
| FatRemount.FatRoundTrip | FAT/FileSystem.cpp:24-25 | Every table of 16-bit entries survives the trip to the device and back. |
| FatRemount.DirRoundTrip | FAT/FileSystem.hpp:47-60 | Every directory whose sizes and block numbers fit their fields survives the trip through 32-byte entries. |
| FatRemount.FlushKeepsFiles | FAT/FileSystem.cpp:21-27 | Flushing stores nothing on a block of a file. |
| FatCheck.ValidConsistent | FAT/FileSystem_check.cpp:33-95 | check is complete: a valid state satisfies everything it looks for. |
| FatCheck.ConsistentIsStructure | FAT/FileSystem_check.cpp:33-95 | The structural invariant holds if and only if check accepts table and directory and what it takes for granted is so: fields in range, sizes not negative, exactly the first three blocks reserved, names terminated and unique. |
| FatCheck.ConsistentIff | FAT/FileSystem_check.cpp:63-95 | The verdict on cross links and lost blocks does not depend on which family of chains is meant. |
| FatCheck.LongScanIsEndless | FAT/FileSystem_check.cpp:42-52 | A size scan longer than the table never ends. |
| FatCheck.EndlessInconsistent | FAT/FileSystem_check.cpp:42-52 | A file system on which the size scan never ends is not consistent. |
| FatCheck.FaultNotStuck | FAT/FileSystem_check.cpp:33-58 | A fault in one entry is reported before a later chain without end is reached. |
| FatCheck.StoppedNotEndless | FAT/FileSystem_check.cpp:42-52 | A size scan that comes to EOF or to a free block is not one without end. |
| FatCheck.TwoBlockCycle | FAT/FileSystem_check.cpp:42-52 | A concrete table on which the size scan of the first file never ends. |
| FatCheck.CycleBehindWrongSize | FAT/FileSystem_check.cpp:33-58 | A concrete table with a chain without end that check never reaches, because an earlier file has the wrong size. |
| FatCheck.SizesFit | FAT/FileSystem_check.cpp:63-95 | On chains that the size scan accepts, the check-off scan means the same chains. |
| FatVerdict.SizesVerdictUnique | FAT/FileSystem_check.cpp:33-58 | On every table the outcomes of the size scan exclude each other: no fault, a free block, a wrong length and a chain without end, each at the first entry that is not in order. |
| FatVerdict.BlocksVerdictUnique | FAT/FileSystem_check.cpp:60-95 | On every table the outcomes of the check-off scan exclude each other: in order, a lost block, and the first crossing on or before the block of the EOF entry. |
| FatVerdict.CleanIffConsistent | FAT/FileSystem_check.cpp:33-95 | Both scans have nothing to say if and only if table and directory are consistent. |
| FatVerdict.SizesMean | FAT/FileSystem_check.cpp:33-58 | What the size scan accepts, in numbers: entries with flag 1, links other than 0 and 2 up to a link of 2, as many as the size divided by 1024 toward zero. |
| FatVerdict.BlocksMean | FAT/FileSystem_check.cpp:60-95 | What the check-off scan accepts, in numbers: no block in two places, none with link 1, and every block with another link than 0 and 1 on a chain. |
| FatVerdict.FreeBlockFound | FAT/FileSystem_check.cpp:43-46 | A concrete table with a free block in a chain, and the exception for it. |
| FatVerdict.WrongSizeFound | FAT/FileSystem_check.cpp:53-56 | A concrete table with a wrong size, and the exception for it. |
| FatVerdict.CrossLinkFound | FAT/FileSystem_check.cpp:76-82 | Two files with the same two blocks, and the exception for that. |
| FatVerdict.CrossLinkEofFound | FAT/FileSystem_check.cpp:83-88 | Two files with the same single block, and the exception for that. |
| FatVerdict.LostBlockFound | FAT/FileSystem_check.cpp:91-95 | A block with a link and no file, and the exception for it. |
| FatCheck.BootBlockInFile | FAT/FileSystem_check.cpp:63-95 | A concrete table that check accepts although the boot block belongs to a file: the reserved entries are not looked at. |
| FatTwoWriters.OneWriterNeeded | FAT/FileSystem.cpp:254-281 | A written byte keeps all cursors in order if and only if no other WRITE handle is open on the file, which open does not prevent. |
| FatTwoWriters.SecondWriterOpens | FAT/FileSystem.cpp:367-379 | open gives a second WRITE handle on a file that is being written, both at its end, and the state is not valid any more. |
| FatTwoWriters.SecondWriterOverwrites | FAT/FileSystem.cpp:232-286 | A byte through one writer and a byte through the other: the size grows by two, the old contents stay, and behind them come the second byte and a leftover of the device, whatever the first byte was. |
| FatTwoWriters.SecondWriterLosesBlock | FAT/FileSystem.cpp:264-281 | If the first of these bytes fills the block and two are free, the block it takes ends up not free and on the chain of no file, and no family of chains whatever makes the table and the directory fit the invariant. |
| FatTwoWriters.SecondWriteIff | FAT/FileSystem.cpp:232-287 | Data of any length through one writer, then data of any length through the other: the first write appends what fits, and the second throws for a missing free block if and only if it is to write a byte and the blocks that the two fill, each from the block both stood on, are more than are free. |
| FatReached.MissReached | FAT/FileSystem.cpp:268-274 | A concrete run from a formatted disk, open for writing, write, open for writing again, after which a byte through each handle ends in that exception. |
| FatReached.ReadersReached | FAT/FileSystem.cpp:294-382 | From a formatted disk, creating a file, closing it and opening it k times for reading leads to the state with exactly k readers at offset zero. |
| FatPrograms.Perform | FAT/FileSystem.cpp:98-433 | One call on a file system object, the construction of a new object on the same device included, returns and leaves what the abstract machine does. |
| FatPrograms.Execute | FAT/FileSystem.cpp:36-433 | Any program of allowed calls on a device that is formatted first returns, call by call, what the abstract machine returns, and the object ends in its last state. |
| FatLimits.RemoveIff | FAT/FileSystem.cpp:410-433 | remove keeps the invariant if and only if the file is not open. |
| FatLimits.TruncateIff | FAT/FileSystem.cpp:384-408 | truncate keeps the invariant if and only if every handle open on the file still stands at offset zero. |
| FatTypes.StrCpyRoundTrip | FAT/FileSystem.cpp:348 | A name copied into a field and read back is the name, whatever the field held. |
| FatTypes.FreeBlockExists | FAT/FileSystem.cpp:268-274 | The linear search for a free block succeeds if and only if the count of free blocks is positive. |
| FatFiles.MapUpdated | FAT/FileSystem.cpp:262 | When one slot changes its contents and no slot its name, the map of files changes at that one name. |
| FileSystems.FileSystem.constructor | FAT/FileSystem.cpp:36-78 | Recognises the boot block, loads table and directory, and starts with no open handle. |
| FileSystems.FileSystem.Mount | FAT/FileSystem.cpp:36-46 | The two checks of the constructor: it throws for a wrong block size or fewer than four blocks, in that order, and otherwise yields what the constructor makes, arrays included. |
| FileSystems.FileSystem.Remount | FAT/FileSystem.cpp:36-90 | Flush and a new object on the same device: in good order, with the same files, nothing open, and the state of the specification but for leftovers in unused handles. |
| FileSystems.FileSystem.Load | FAT/FileSystem.cpp:66-70 | Table and directory are decoded from blocks 1 and 2. |
| FileSystems.FileSystem.Flush | FAT/FileSystem.cpp:21-27 | Stores table and directory when formatted, nothing otherwise. |
| FileSystems.FileSystem.WriteBootBlock | FAT/FileSystem.cpp:103-118 | The checksum loop produces the boot block of the specification. |
| FileSystems.FileSystem.Format | FAT/FileSystem.cpp:98-136 | The state becomes the freshly formatted one; it equals the specification on the device, table, directory and flag. |
| FileSystems.FileSystem.FreeSpace | FAT/FileSystem.cpp:167-181 | 1024 times the number of free entries, or the exception. |
| FileSystems.FileSystem.Close | FAT/FileSystem.cpp:146-158 | State and result of the specification, with its three exceptions. |
| FileSystems.FileSystem.Open | FAT/FileSystem.cpp:294-382 | State and result of the specification, all four exceptions included. |
| FileSystems.FileSystem.FindName | FAT/FileSystem.cpp:312-317 | The index of the first used slot with the name. |
| FileSystems.FileSystem.FindLast | FAT/FileSystem.cpp:373-378 | The walk to the last block of a chain ends there. |
| FileSystems.FileSystem.Create | FAT/FileSystem.cpp:323-355 | The create branch of open. |
| FileSystems.FileSystem.Write | FAT/FileSystem.cpp:232-287 | State and result of the specification, from the loop with its block buffer, on any state with arrays in range; the exception for a missing free block is thrown if and only if a byte that would be written finds none. |
| FileSystems.FileSystem.PutThroughBuffer | FAT/FileSystem.cpp:259-281 | One pass through the loop of write on any such state; it reports a missing free block if and only if the byte fills the block and none is free. |
| FileSystems.FileSystem.PutAll | FAT/FileSystem.cpp:254-286 | The whole loop and the last store: all bytes are put, or those up to and including the first that finds no free block. |
| FileSystems.FileSystem.Read | FAT/FileSystem.cpp:188-229 | State, result and buffer of the specification. |
| FileSystems.FileSystem.GetThroughBuffer | FAT/FileSystem.cpp:214-225 | One pass through the loop of read. |
| FileSystems.FileSystem.GetAll | FAT/FileSystem.cpp:209-226 | The whole loop: the bytes under the moving cursor, the rest of the caller's buffer untouched. |
| FileSystems.FileSystem.Truncate | FAT/FileSystem.cpp:384-408 | The state of the specification. |
| FileSystems.FileSystem.Remove | FAT/FileSystem.cpp:410-433 | The state of the specification. |
| FileSystems.FileSystem.FreeChain | FAT/FileSystem.cpp:396-402 | The walk that overwrites each link frees exactly the chain. |
| FileSystems.FileSystem.NextDir | FAT/FileSystem.cpp:440-460 | The next used slot with its name and size, or none. |
| FileSystems.FileSystem.OpenDir | FAT/FileSystem.hpp:181-182 | A directory scan starts at the first slot and touches nothing else. |
| FileSystems.FileSystem.Check | FAT/FileSystem_check.cpp:19-96 | check has exactly one outcome on every state with links and starting blocks in range, and each is characterised: not formatted, open for writing, a free block in a chain or a wrong size at the first entry that is not in order, a chain without end there, a cross link before or on an EOF entry, a lost block, or none; the last if and only if the file system is formatted, has no WRITE handle open, and table and directory are consistent, as on a valid state without a writer. |
| FileSystems.FileSystem.ScanSize | FAT/FileSystem_check.cpp:36-57 | The size scan of one file: clean for a finite chain of size/1024 links, with C++ division, otherwise the exception for what is wrong with it; it does not end if and only if the chain has no end. |
| FileSystems.FileSystem.CheckSizes | FAT/FileSystem_check.cpp:33-58 | The size scan over the whole directory: the outcome is the one of the first entry not in order, with the exact condition for each. |
| FileSystems.FileSystem.CheckOffFile | FAT/FileSystem_check.cpp:73-88 | On any table with links in range, cyclic or not, the scan ends, and it is clean if and only if the links lead to EOF over blocks that are not reserved, free, seen before or met twice. |
| FileSystems.FileSystem.CheckOffAll | FAT/FileSystem_check.cpp:60-95 | The same for all files, whatever their sizes; the error is that of the first file that comes to such a block. |
| FileSystems.FileSystem.CheckBlocks | FAT/FileSystem_check.cpp:60-95 | The second half of check decides between cross links, cross links on an EOF entry, lost blocks and none, with the exact condition for each. |
| Shell.VCopy | FAT/shell.cpp:105-125 | vcopy between different files copies min of the length of the source and 1024F+1023 bytes, F being the free blocks after the destination is truncated and opened, reports a problem exactly when that is less than the source, changes no other file and closes both handles; when the destination cannot be opened the source stays open. |
| Shell.VCopyClosesIff | FAT/shell.cpp:109-122 | vcopy leaves all handles as they were if and only if, before the call, it is not the case that the source exists, a handle is free for it, and either no second handle is or the destination is missing and the directory or the disk is full; otherwise the source remains open. |
| Shell.VCopyMeans | FAT/shell.cpp:105-125 | vcopy succeeds if and only if two handles are unused, the source exists, and the destination exists or can be created; then the destination holds min of the length of the source and 1024F+1023 bytes, F being the free blocks with those of the old destination, or less the one it takes, and files and handles are otherwise as before. |
| Shell.SourceLeftOpen | FAT/shell.cpp:109-112 | A concrete run from a formatted disk that ends in such a case: a file with fifteen readers. |
| Shell.CopyLoop | FAT/shell.cpp:114-120 | The loop of vcopy ends with the source read to its end and the destination holding what fits. |
| Shell.VDir | FAT/shell.cpp:207-217 | vdir prints the listing of the directory. |
| ShellHost.VCopyIn | FAT/shell.cpp:131-157 | vcopyin leaves the destination holding min of the length of the host file and 1024F+1023 bytes of it, reports a problem exactly when that is less, and changes nothing else. |
| ShellHost.VCopyOut | FAT/shell.cpp:163-188 | vcopyout writes exactly the contents of the source and leaves the file system as it was. |
| ShellHost.VCopyInMeans | FAT/shell.cpp:131-157 | vcopyin throws if and only if there is a host file and no unused handle or no way to create the destination; otherwise the destination holds min of the length of the host file and the same number of bytes. |
| ShellHost.VCopyOutMeans | FAT/shell.cpp:163-188 | vcopyout delivers the whole file, or reports that the host file cannot be opened, or throws for handles or a missing source, in each case without a change. |
| ShellHost.HostRoundTrip | FAT/shell.cpp:131-188 | A host file that vcopyin takes in without a problem comes out of vcopyout unchanged. |
| GfsDiskTool.Session | disktool/disktool.c:209-214 | Initialize the partition, create any files that fit, verify: the verification prints nothing, and the directory lists ".", ".." and the files in order, numbered from 1. |
| GfsInitialize.InitializedRuns | disktool/initialize.c:171-180 | The same on images: after initialize and any create_file calls that fit, the checker is silent and the directory is as expected. |
| GfsInitialize.InitializedSound | disktool/initialize.c:29-168 | A fresh image satisfies the checker and holds the entries "." and "..". |
| GfsInitialize.PreallocatedFits | disktool/initialize.c:71-81 | The preallocated bits fit one map block if and only if the partition has at most 2088832 blocks, hence on all that a 32-bit byte offset can reach. |
| GfsInitialize.RootDirectoryEntries | disktool/initialize.c:132-142 | The 21 bytes written by create_root parse as the two entries "." and "..", both with inode 0. |
| GfsInitialize.SuperRead | disktool/initialize.c:151-168 | The words of the superblock read back as the magic number and the sizes in use. |
| GfsInitialize.PiecesInitialized | disktool/initialize.c:171-180 | The blocks that the four steps write on top of each other make exactly the initial image: map bits, root inode, root directory, superblock, unused bytes elsewhere. |
| GfsInitialize.RoomIffFits | disktool/createfile.c:7-12 | There is room for a file if and only if an inode, a block when it is not empty, and directory space are left. |
| GfsInitialize.AllRoomIff | disktool/createfile.c:30-154 | There is room for every file of a run if and only if the files fit, by counts known beforehand. |
| GfsInitialize.AllFitCounts | disktool/createfile.c:30-154 | The files of a run fit if and only if their number, the number of those not empty, and the bytes of their entries do, in total. |
| GfsInitialize.FreshFit | disktool/createfile.c:30-154 | The same on a fresh partition, in numbers: one inode, 2 + 2 ceil(n/32768) + ceil(n/64) blocks and 21 bytes of the root directory are taken. |
| GfsInitialize.CreatedFilled | disktool/createfile.c:92-110 | A created file takes the lowest unused inode and, if not empty, the lowest unused block, and nothing else. |
| GfsInitialize.CreatedAllEntries | disktool/createfile.c:77-101 | A run of create_file appends its names in order with consecutive inode numbers. |
| GfsCreate.CreateKeepsSound | disktool/createfile.c:30-154 | create_file on any image that satisfies the checker, not only fresh ones, leaves such an image with one directory entry more. |
| GfsCreate.CreateAllKeepsSound | disktool/createfile.c:30-154 | The same for any number of calls; the checker stays silent. |
| GfsCreate.CreatedConsistent | disktool/createfile.c:61-149 | After create_file the uses of every block agree with the block map again. |
| GfsCreate.CreatedAttached | disktool/createfile.c:104-134 | The blocks attached to allocated inodes are those of before plus the new data block, if any. |
| GfsCreate.CreatedBytes | disktool/createfile.c:61-149 | Byte by byte, create_file changes one map bit or two, one inode slot, the directory block and the data block, and nothing else. |
| GfsCreate.CreatedDirectory | disktool/createfile.c:77-98 | The root directory keeps its block and its entries and gets the new one at the end. |
| GfsCreate.CreatedInodeBit | disktool/createfile.c:92 | The inode map gains exactly the bit of the new inode. |
| GfsCreate.CreatedBlockBit | disktool/createfile.c:109 | The block map gains exactly the bit of the new block, none for an empty file. |
| GfsCreate.OldInodeRefs | disktool/createfile.c:131-134 | The references of every inode allocated before stay, indirect ones included. |
| GfsCreate.NewInodeRefs | disktool/createfile.c:113-128 | The new inode refers to its one block, that of an empty file to none. |
| GfsCreate.IndirectApart | disktool/verify.c:49-139 | On an image that satisfies the checker an indirection block is a data block and never the root directory. |
| GfsCreate.NumbersInside | disktool/util.c:88-89 | The allocators return numbers inside the partition if and only if a bit below its end is clear. |
| GfsCreate.MapsLonger | disktool/disktool.c:24-38 | The maps have bits behind the end of the partition if and only if its size is no multiple of 32768. |
| GfsCreate.FullMap | disktool/util.c:41-79 | With all bits of the partition set, the allocators return the number one behind its end if there is such a bit and it is clear; on a partition of a multiple of 32768 blocks they find none. |
| GfsCreate.FullMaps | disktool/util.c:88-121 | Both happen, on partitions of 5 and of 32768 blocks. |
| GfsDirectory.AppendEntries | disktool/createfile.c:77-98 | On any forward list of entries the append yields the old entries followed by the new one. |
| GfsDirectory.AppendFrame | disktool/createfile.c:77-98 | Besides the link of the last entry and the new entry no byte of the block changes. |
| GfsBitmap.AllocationsIncrease | disktool/util.c:91-121 | As long as m bits below n are clear, m allocations return m different, increasing numbers below n, all clear before, and m fewer bits are clear after. |
| GfsBitmap.MarkOnly | disktool/util.c:32 | Marking sets that bit and no other. |
| GfsBitmap.NextIsHigher | disktool/util.c:91-121 | The next allocation returns a higher number. |
| GfsBitmap.InsideIff | disktool/util.c:89 | First fit finds a bit inside the partition if and only if there is a clear one. |
| GfsCounting.SilentIff | disktool/verify.c:185-239 | The two reports are empty if and only if every block of the partition is used once when its bit is set and not at all otherwise. |
| GfsCounting.MultipleSilent | disktool/verify.c:185-195 | No multiple use is reported if and only if all counts are zero or one. |
| GfsCounting.FreemapSilent | disktool/verify.c:208-239 | No disagreement with the map is reported if and only if every count is one where the bit is set and zero elsewhere. |
| GfsCounting.MultipleReportsAre | disktool/verify.c:185-195 | There is a report of multiple use for exactly the blocks counted more than once, with number and count, in the order of the blocks. |
| GfsCounting.FreemapReportsAre | disktool/verify.c:208-239 | There is a report of an unused allocated block for exactly the set bits whose count is not one, and one of a used unallocated block for exactly the clear bits whose count is not zero, in the order of the blocks. |
| GfsImage.LayoutHolds | disktool/disktool.c:24-38 | compute_sizes gives a bit and an inode to every block and not a block more than that takes. |
| GfsImage.LayoutFits | disktool/initialize.c:71 | Metadata and root directory fit if and only if the partition has five blocks or more. |
| GfsImage.SeekExact | disktool/util.c:29 | The 32-bit products passed to lseek reach every block if and only if the partition has at most 2^20 blocks. |
| GfsImage.InodeAddresses | disktool/verify.c:116-124 | The inode address by bytes in create_file and the one by block and slot in the checker are the same, inside the inode table. |
| GfsLayout.Places | disktool/disktool.c:24-38 | Where maps and inodes lie, in numbers of bytes and for any partition. |
| GfsLayout.BitPlaces | disktool/util.c:61-68 | Bit i of a map is in its byte i/8, where it counts for 2^(i%8). |
| GfsLayout.RefsOfWords | disktool/verify.c:113-139 | On any inode the references are words 8 to 11 that are not zero, what the indirection block of word 12 refers to, and what the second indirection block of word 13 does. |
| GfsLayout.FirstRefsAre | disktool/verify.c:49-67 | An indirection block refers to itself and to the words in it up to the first zero, at most 1024. |
| GfsLayout.SecondRefsAre | disktool/verify.c:81-99 | A second indirection block refers to itself and to all that its entries, up to the first zero, refer to. |
| GfsLayout.UsesCount | disktool/verify.c:150-174 | Consistent means that for every block the number of references to it, counted as pairs of an allocated inode and a position, plus one for metadata, is one if its bit is set and zero otherwise. |
| GfsLayout.InRangeMeans | disktool/verify.c:113-174 | No reference leads outside means that of no allocated inode any does. |
| GfsLayout.FileInode | disktool/createfile.c:112-134 | The inode of a created file, word by word: 1, 0, 0, 33261, the size, three times the time, its block or 0, and zeros. |
| GfsLayout.FileData | disktool/createfile.c:136-149 | Byte i of the data block of a created file is letter i%26 of the alphabet below its size and zero from there. |
| GfsLayout.FileEntry | disktool/createfile.c:77-101 | The old last entry of the root directory, which referred to none, refers to the new one right behind it: no next entry, the number of the inode, the length of the name, and the name. |
| GfsLayout.FreshInode | disktool/initialize.c:98-128 | The root inode of a fresh partition, word by word: 2, 0, 0, 16877, 4096, three times the time, its block, and zeros. |
| GfsLayout.FreshBytes | disktool/initialize.c:130-148 | The 21 bytes at the beginning of the root directory block, and 0x55 where nothing is in use. |
| GfsDiskTool.DiskTool.constructor | disktool/disktool.c:203-204 | The sizes are computed once for the partition. |
| GfsDiskTool.DiskTool.ComputeSizes | disktool/disktool.c:24-38 | The steps with remainders compute the two ceilings. |
| GfsDiskTool.DiskTool.ScanFreemap | disktool/util.c:41-79 | The scan finds the first clear bit of the map, or reports none. |
| GfsDiskTool.DiskTool.MarkFreemap | disktool/util.c:19-36 | Sets one bit of a map on the device. |
| GfsDiskTool.DiskTool.AllocateInode | disktool/util.c:112-121 | Returns the smallest clear number of the inode map and sets that bit only, or finds none, exactly when the map is full. |
| GfsDiskTool.DiskTool.AllocateBlock | disktool/util.c:91-100 | The same for the block map. |
| GfsDiskTool.DiskTool.ClearPartition | disktool/initialize.c:29-41 | Every byte becomes 0x55. |
| GfsDiskTool.DiskTool.WriteFreemaps | disktool/initialize.c:44-95 | Sets exactly bit 0 of the inode map and exactly the preallocated prefix of the block map, touches no byte outside the maps, and gives up exactly when the prefix exceeds one block. |
| GfsDiskTool.DiskTool.CreateRoot | disktool/initialize.c:98-148 | Writes the block with the root inode and the root directory block. |
| GfsDiskTool.DiskTool.WriteSuper | disktool/initialize.c:151-168 | Writes the superblock. |
| GfsDiskTool.DiskTool.Initialize | disktool/initialize.c:171-180 | The partition becomes the initial image. |
| GfsDiskTool.DiskTool.AddEntry | disktool/createfile.c:60-101 | Walks to the last entry, links and lays down the new one, allocates its inode and writes the block back. |
| GfsDiskTool.DiskTool.CreateFile | disktool/createfile.c:30-154 | create_file as a whole, on any image with room: refuses more than 4096 bytes, otherwise makes the image of the specification; an image that satisfies the checker satisfies it again. |
| GfsDiskTool.DiskTool.InitializeCounters | disktool/verify.c:25-35 | One for the metadata blocks, zero for the others. |
| GfsDiskTool.DiskTool.FindFirstIndirectionBlocks | disktool/verify.c:49-67 | Adds exactly the indirection block and the numbers in it up to the first zero. |
| GfsDiskTool.DiskTool.FindSecondIndirectionBlocks | disktool/verify.c:81-99 | Adds exactly the second indirection block and what its entries reach. |
| GfsDiskTool.DiskTool.FindInodeBlocks | disktool/verify.c:113-139 | Adds exactly the multiset of blocks attached to the inode. |
| GfsDiskTool.DiskTool.ScanInodes | disktool/verify.c:150-174 | Adds the blocks of all allocated inodes below the end of the partition, and of no other. |
| GfsDiskTool.DiskTool.CheckCounters | disktool/verify.c:185-195 | Prints the reports of multiple use. |
| GfsDiskTool.DiskTool.CheckBlockFreemap | disktool/verify.c:208-239 | Prints the disagreements with the block map. |
| GfsDiskTool.DiskTool.VerifyFileSystem | disktool/verify.c:248-271 | What is printed is a function of the uses of the blocks, and nothing is printed if and only if the image is consistent. |
| GfsDiskTool.LowestClear | disktool/util.c:61-68 | The eight tests yield one more than the lowest clear bit, zero when all are set. |
| GfsDiskTool.FindLastEntry | disktool/createfile.c:77-79 | The walk along a forward list of entries ends at the last one. |
| GfsDiskTool.FillPrefix | disktool/initialize.c:82-89 | memset and the loop over the left-over bits set exactly the first bits of the block. |
| GfsDiskTool.FillLetters | disktool/createfile.c:138-150 | The data block holds the letters A to Z over and over, then zeros. |
| Bytes.SetBitOnly | disktool/util.c:32 | Or-ing a shifted one into a byte sets that bit and no other. |
| Bytes.BitValue | disktool/util.c:61-68 | Bit k of a byte is the one that counts for 2^k. |
| Bytes.WordBytes | shared/genericfs.h:33-46 | A word is its four bytes with weights 1, 2^8, 2^16 and 2^24, and is stored in that order. |
| Bytes.WordsRead | disktool/initialize.c:104-123 | Words laid end to end are read back unchanged. |
| Bytes.PatchWord | disktool/createfile.c:85-95 | A stored word is read back, and words elsewhere stay. |
| StringRuns.Execute | FAT/str.cpp:183-397 | Whatever sequence of construction, copying, assignment, append, erase, subword and destruction a program runs, its strings end with the values they would have if nothing were ever shared. |
| StringRuns.Step | FAT/str.cpp:183-397 | The same for one operation on any number of living strings, sharing or not, self-append and self-assignment included. |
| StringRuns.NoLeak | FAT/str.cpp:229-240 | Every living node is used by a living string; when the last string is gone so is every node. |
| StringRuns.MakingOne | FAT/str.cpp:183-222 | What each way of making a string adds to the values of a program. |
| StringRuns.ChangingOne | FAT/str.cpp:229-397 | What assignment, append, erase and destruction do to the values of a program: one value changes, and it becomes the other, the concatenation, empty, or goes. |
| StringRuns.ChangingByChars | FAT/str.cpp:265-373 | The same for assignment and append of characters; the null character has no effect. |
| StringRuns.RunsConcat | FAT/str.cpp:183-397 | Programs one after the other do to the values what they do as one. |
| SharedStrings.String.constructor | FAT/str.cpp:183-190 | A new empty string with a node of its own. |
| SharedStrings.String.Copy | FAT/str.cpp:193-201 | The copy shares the node and has the same value. |
| SharedStrings.String.FromChars | FAT/str.cpp:204-211 | A new string with the characters up to the terminator. |
| SharedStrings.String.FromChar | FAT/str.cpp:214-222 | A new string with one character, empty for the null character. |
| SharedStrings.String.Release | FAT/str.cpp:229-240 | The string dies; its node dies exactly when it was the last owner; all other values stay and all counts stay right. |
| SharedStrings.String.Assign | FAT/str.cpp:243-262 | Takes the value and the node of the other string, also between strings that share already; only this value changes; self-assignment changes nothing. |
| SharedStrings.String.AssignChars | FAT/str.cpp:265-286 | Takes the characters, only this value changes, the old node dies exactly with its last owner; a null pointer changes nothing. |
| SharedStrings.String.Append | FAT/str.cpp:303-324 | The value becomes the concatenation, self-append included; no other value changes although nodes are shared. |
| SharedStrings.String.AppendChars | FAT/str.cpp:327-348 | The same for a C string, which may be the buffer of the string itself. |
| SharedStrings.String.AppendChar | FAT/str.cpp:351-373 | The same for a character; a null character changes nothing. |
| SharedStrings.String.Erase | FAT/str.cpp:380-397 | The value becomes empty, no other value changes. |
| SharedStrings.String.Subword | FAT/str.cpp:893-957 | A new string holding exactly the requested words, empty for positions and counts that make no sense; nothing else changes. |
| SharedStrings.String.WordCount | FAT/str.cpp:965-990 | The number of words of the value. |
| SharedStrings.CountWords | FAT/str.cpp:971-989 | The in-word scan counts the maximal runs. |
| SharedStrings.FindStart | FAT/str.cpp:919-931 | The first scan stops at the start of the requested word and never passes the terminator, although its loops do not look for it. |
| SharedStrings.FindEnd | FAT/str.cpp:933-945 | The second scan stops at the end of the last requested word and never passes the terminator. |
| SharedStrings.Strcat | FAT/str.cpp:309-314 | The concatenation fits its buffer exactly. |
| Words.WordsAreRuns | FAT/str.cpp:92-106 | The words are exactly the maximal runs of characters that are not delimiters, in order and apart. |
| Words.RunsSpan | FAT/str.cpp:899-917 | The requested span lies inside the text. |
| Words.WordOfWord | FAT/str.hpp:136-146 | A single word taken out is one word again, namely itself. |
| Words.WhiteCharacters | FAT/str.cpp:92-106 | The default white characters are 32 and 9 to 13; with a custom set they are its characters and the null character. |
| Words.JoinedWords | FAT/str.cpp:965-990 | The words of two pieces of a text between which no word reaches are those of the first followed by those of the second. |
| Words.OnePiece | FAT/str.cpp:965-990 | A piece without white characters is one word, and the pieces without words are those of white characters. |
| Words.SubwordIsMiddle | FAT/str.cpp:893-957 | Of a text in three pieces, the middle one beginning and ending with a word, subword returns the middle one when asked for as many words as it has from the position behind the words of the first; and for more when the last piece has none. |
| Words.TwoWords | FAT/str.cpp:893-957 | A text of two words with one white character between them has two words, subword 1 is the first and subword 2 the second. |

## Left out

- `BlockDevice`: the host file behind the simulated disk, its creation and its exceptions; the device is an array of blocks.
- Crashes in the middle of a run: table and directory are stored by the destructor only, so nothing is promised.
- The file system on an unformatted disk, apart from construction, `format`, and the exceptions of `check`, `close` and `free_space`.
- Copying a file onto itself with `vcopy`, and formatting under open handles.
- The rest of the shell: command dispatch, prompts, `dir`, `exit`; printing is a returned value.
- A partition with wrapped 32-bit byte offsets, and `get_directory` in `disktool/util.c`, which nothing calls.
- The counters of `verify_file_system` are natural numbers; the failure of `malloc` is not modelled.
- `check_super`, `create_dir` (not implemented there), the `show` commands and the curses display; times are parameters.
- Inode owner, group and mode bits beyond the constants that are written.
- What a bit marked outside the buffer does when a map is full: the model finds no number there.
- `create_file` on a directory without room, or with all inodes or blocks of the partition taken: the code then writes past its buffer or behind the inode table.
- The kernel driver, the tools directory and the documentation sources.
- Strings: the stream and comparison operators, the mutex branch, `right`, `left`, `center`, `copy`, `insert`, `pos`, `last_pos`, `strip`, `substr` and the copying `erase`, which are plain sequence functions; running out of memory.
- Integer limits of `offset` and `count` in `subword`, and of string lengths and reference counts: numbers are unbounded.
