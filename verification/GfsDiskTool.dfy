// The disktool program: its global sizes, the partition, and the operations of
// disktool/verify.c, util.c, createfile.c and initialize.c on it.
module GfsDiskTool {
  import opened Bytes
  import opened GfsImage
  import opened GfsCounting
  import opened GfsBitmap
  import opened GfsDirectory
  import opened GfsCreate
  import opened GfsInitialize

  class DiskTool {
    const disk: array<byte>
    const blockCount: nat
    var freemapBytesize: nat
    var freemapBlocksize: nat
    var inodetableBytesize: nat
    var inodetableBlocksize: nat

    ghost predicate Sized()
      reads this, disk
    {
      && WellSized(disk[..], blockCount)
      && freemapBlocksize == FreemapBlocks(blockCount)
      && inodetableBlocksize == InodeTableBlocks(blockCount)
    }

    constructor (partition: array<byte>, count: nat)
      requires WellSized(partition[..], count)
      ensures disk == partition && blockCount == count && Sized()
    {
      disk := partition;
      blockCount := count;
      freemapBytesize, freemapBlocksize, inodetableBytesize, inodetableBlocksize := 0, 0, 0, 0;
      new;
      ComputeSizes();
    }

    // One inode for every block, so that both free maps have the same size.
    method ComputeSizes()
      modifies this
      ensures freemapBlocksize == FreemapBlocks(blockCount)
      ensures inodetableBlocksize == InodeTableBlocks(blockCount)
    {
      freemapBytesize := blockCount / 8;
      if blockCount % 8 != 0 { freemapBytesize := freemapBytesize + 1; }
      freemapBlocksize := freemapBytesize / BLOCKSIZE;
      if freemapBytesize % BLOCKSIZE != 0 { freemapBlocksize := freemapBlocksize + 1; }

      inodetableBytesize := blockCount * 64;
      inodetableBlocksize := inodetableBytesize / BLOCKSIZE;
      if inodetableBytesize % BLOCKSIZE != 0 { inodetableBlocksize := inodetableBlocksize + 1; }
    }

    // lseek() to a block and read() of it.
    method ReadBlock(block: nat, workspace: array<byte>)
      requires Sized() && block < blockCount && workspace.Length == BLOCKSIZE && workspace != disk
      modifies workspace
      ensures workspace[..] == disk[block * BLOCKSIZE..block * BLOCKSIZE + BLOCKSIZE]
    {
      SeekExact(blockCount);
      var at := Seek(block);
      assert at == block * BLOCKSIZE;
      forall k | 0 <= k < BLOCKSIZE { workspace[k] := disk[at + k]; }
    }

    // write() of the workspace at a file position, which moves on.
    method WriteAt(at: nat, workspace: array<byte>) returns (next: nat)
      requires at + BLOCKSIZE <= disk.Length && workspace.Length == BLOCKSIZE && workspace != disk
      modifies disk
      ensures next == at + BLOCKSIZE
      ensures disk[..] == Patch(old(disk[..]), at, workspace[..])
    {
      forall k | 0 <= k < BLOCKSIZE { disk[at + k] := workspace[k]; }
      next := at + BLOCKSIZE;
    }

    // lseek() to a block and write() of it.
    method WriteBlock(block: nat, workspace: array<byte>)
      requires Sized() && block < blockCount && workspace.Length == BLOCKSIZE && workspace != disk
      modifies disk
      ensures disk[..] == Patch(old(disk[..]), block * BLOCKSIZE, workspace[..])
    {
      SeekExact(blockCount);
      var at := Seek(block);
      assert at == block * BLOCKSIZE;
      var _ := WriteAt(at, workspace);
    }

    // ----- util.c -----

    // Finds the first clear bit of the map in blocks startBlock to endBlock.
    method ScanFreemap(startBlock: nat, endBlock: nat) returns (block: nat, byteIndex: nat, bit: int)
      requires Sized() && startBlock < endBlock <= blockCount
      ensures var limit := (endBlock - startBlock) * BITS_PER_BLOCK;
              var k := FirstClear(disk[..], startBlock * BLOCKSIZE, 0, limit);
              if k < limit then
                0 <= bit < 8 && byteIndex < BLOCKSIZE && block * BITS_PER_BLOCK + byteIndex * 8 + bit == k
              else bit == -1 && block == endBlock - startBlock
    {
      hide FreemapBlocks, InodeTableBlocks, BitSet, MapBit, FirstClear;
      ghost var img, at := disk[..], startBlock * BLOCKSIZE;
      ghost var limit := (endBlock - startBlock) * BITS_PER_BLOCK;
      var workspace := new byte[BLOCKSIZE];
      bit := 0;
      block := 0;
      byteIndex := 0;
      while block < endBlock - startBlock
        invariant 0 <= block <= endBlock - startBlock && bit == 0 && disk[..] == img
        invariant forall j :: 0 <= j < block * BITS_PER_BLOCK ==> MapBit(img, at, j)
      {
        ReadBlock(startBlock + block, workspace);
        byteIndex := 0;
        while byteIndex < BLOCKSIZE
          invariant 0 <= byteIndex <= BLOCKSIZE && bit == 0
          invariant workspace[..] == img[at + block * BLOCKSIZE..at + (block + 1) * BLOCKSIZE]
          invariant forall j :: 0 <= j < block * BITS_PER_BLOCK + byteIndex * 8 ==> MapBit(img, at, j)
        {
          bit := LowestClear(workspace[byteIndex]);
          ByteBits(img, at, workspace[..], block, byteIndex);
          if bit != 0 { break; }
          byteIndex := byteIndex + 1;
        }
        if bit != 0 { break; }
        block := block + 1;
      }
      bit := bit - 1;
      FirstClearIs(img, at, limit, if bit >= 0 then block * BITS_PER_BLOCK + byteIndex * 8 + bit else limit);
    }

    // Sets one bit of the map that starts at startBlock.
    method MarkFreemap(startBlock: nat, block: nat, byteIndex: nat, bit: nat)
      requires Sized() && startBlock + block < blockCount && byteIndex < BLOCKSIZE && bit < 8
      modifies disk
      ensures disk[..] == Mark(old(disk[..]), startBlock * BLOCKSIZE, block * BITS_PER_BLOCK + byteIndex * 8 + bit)
    {
      hide FreemapBlocks, InodeTableBlocks, SetBit;
      ghost var img := disk[..];
      var freemapBlock := new byte[BLOCKSIZE];
      ReadBlock(startBlock + block, freemapBlock);
      ghost var before := freemapBlock[..];
      freemapBlock[byteIndex] := SetBit(freemapBlock[byteIndex], bit);
      WriteBlock(startBlock + block, freemapBlock);
      MarkIsPatch(img, startBlock, block, byteIndex, bit, before, freemapBlock[..]);
    }

    // The first clear bit of a map is set and its number returned. On a full map
    // nothing is found; there the source goes on to mark a bit outside its buffer.
    method Allocate(startBlock: nat, endBlock: nat) returns (found: bool, number: nat)
      requires Sized() && startBlock < endBlock <= blockCount
      modifies disk
      ensures var limit := (endBlock - startBlock) * BITS_PER_BLOCK;
              var k := FirstClear(old(disk[..]), startBlock * BLOCKSIZE, 0, limit);
              && (found <==> k < limit)
              && if k < limit then
                   number == k && startBlock * BLOCKSIZE + k / 8 < disk.Length
                   && disk[..] == Mark(old(disk[..]), startBlock * BLOCKSIZE, k)
                 else disk[..] == old(disk[..])
      ensures Sized()
    {
      hide FreemapBlocks, InodeTableBlocks, FirstClear, Mark;
      var block, byteIndex, bit := ScanFreemap(startBlock, endBlock);
      if bit < 0 { return false, 0; }
      MarkFreemap(startBlock, block, byteIndex, bit);
      found, number := true, block * BITS_PER_BLOCK + byteIndex * 8 + bit;
    }

    method AllocateInode() returns (found: bool, number: nat)
      requires Sized()
      modifies disk
      ensures Sized() && (found <==> NewNumber(old(disk[..]), blockCount) < MapBits(blockCount))
      ensures found ==>
                number == NewNumber(old(disk[..]), blockCount) && disk[..] == WithInode(old(disk[..]), blockCount)
      ensures !found ==> disk[..] == old(disk[..])
    {
      hide FreemapBlocks, InodeTableBlocks, FirstClear, Mark;
      Regions(blockCount);
      MapsInside(blockCount);
      found, number := Allocate(1, 1 + freemapBlocksize);
    }

    method AllocateBlock() returns (found: bool, number: nat)
      requires Sized()
      modifies disk
      ensures Sized() && (found <==> NewBlock(old(disk[..]), blockCount) < MapBits(blockCount))
      ensures found ==>
                && number == NewBlock(old(disk[..]), blockCount) && BlockMap(blockCount) + number / 8 < disk.Length
                && disk[..] == Mark(old(disk[..]), BlockMap(blockCount), number)
      ensures !found ==> disk[..] == old(disk[..])
    {
      hide FreemapBlocks, InodeTableBlocks, FirstClear, Mark;
      Regions(blockCount);
      MapsInside(blockCount);
      found, number := Allocate(1 + freemapBlocksize, 1 + 2 * freemapBlocksize);
    }

    // ----- initialize.c -----

    // Overwrites every byte of the partition.
    method ClearPartition()
      requires disk.Length == blockCount * BLOCKSIZE
      modifies disk
      ensures forall k :: 0 <= k < disk.Length ==> disk[k] == UNUSED_SPACE
    {
      var workspace := new byte[BLOCKSIZE];
      forall k | 0 <= k < BLOCKSIZE { workspace[k] := UNUSED_SPACE; }
      var i, at := 0, 0;
      while i < blockCount
        invariant 0 <= i <= blockCount && at == i * BLOCKSIZE
        invariant forall k :: 0 <= k < BLOCKSIZE ==> workspace[k] == UNUSED_SPACE
        invariant forall k :: 0 <= k < at ==> disk[k] == UNUSED_SPACE
      {
        ghost var was := disk[..];
        at := WriteAt(at, workspace);
        assert forall k :: 0 <= k < at ==> disk[..][k] == UNUSED_SPACE;
        i := i + 1;
      }
    }

    // One free map: its first block from the workspace, then blocks of zeros.
    method WriteMap(start: nat, workspace: array<byte>) returns (at: nat)
      requires Sized() && workspace.Length == BLOCKSIZE && workspace != disk
      requires freemapBlocksize >= 1 && start + freemapBlocksize * BLOCKSIZE <= disk.Length
      modifies disk, workspace
      ensures at == start + freemapBlocksize * BLOCKSIZE && forall k :: 0 <= k < BLOCKSIZE ==> workspace[k] == 0
      ensures MapWritten(old(disk[..]), disk[..], start, at, old(workspace[..]))
    {
      hide FreemapBlocks, InodeTableBlocks, Patch;
      ghost var img, first := disk[..], workspace[..];
      at := WriteAt(start, workspace);
      forall k | 0 <= k < BLOCKSIZE { workspace[k] := 0; }
      var i := 0;
      while i < freemapBlocksize - 1
        invariant 0 <= i <= freemapBlocksize - 1 && at == start + (i + 1) * BLOCKSIZE
        invariant forall k :: 0 <= k < BLOCKSIZE ==> workspace[k] == 0
        invariant MapWritten(img, disk[..], start, at, first)
      {
        ghost var was := disk[..];
        at := WriteAt(at, workspace);
        MoreZeros(img, was, disk[..], start, at, first, workspace[..]);
        i := i + 1;
      }
    }

    // False where the source gives up: the preallocated blocks do not fit one
    // block of the map.
    method WriteFreemaps() returns (ok: bool)
      requires Sized()
      modifies disk
      ensures ok <==> Preallocated(blockCount) <= BITS_PER_BLOCK
      ensures ok ==> forall k: nat :: k < MapBits(blockCount) ==> (MapBit(disk[..], InodeMap(), k) <==> k == 0)
      ensures ok ==> forall k: nat :: k < MapBits(blockCount) ==>
              (MapBit(disk[..], BlockMap(blockCount), k) <==> k < Preallocated(blockCount))
      ensures forall k :: 0 <= k < BLOCKSIZE || InodeAt(blockCount, 0) <= k < disk.Length ==> disk[k] == old(disk[k])
    {
      hide FreemapBlocks, InodeTableBlocks, BitSet, SetBit, MapBit, MapWritten;
      ghost var img, n := disk[..], blockCount;
      Regions(n);
      InodeInside(n, 0);
      var workspace := new byte[BLOCKSIZE];
      forall k | 0 <= k < BLOCKSIZE { workspace[k] := 0; }
      workspace[0] := SetBit(workspace[0], 0);
      ghost var first := workspace[..];
      FirstInodeBit(first);
      SomeMapBlocks(n);
      assert disk[..] == img;
      var at := WriteMap(BLOCKSIZE, workspace);
      ghost var mid := disk[..];
      MapFrame(img, mid, BLOCKSIZE, at, first);

      var totalPreallocated := 1 + 2 * freemapBlocksize + inodetableBlocksize + 1;
      if totalPreallocated > BLOCKSIZE * 8 { return false; }
      FillPrefix(workspace, totalPreallocated);
      ghost var second := workspace[..];
      assert disk[..] == mid;
      at := WriteMap(at, workspace);
      ok := true;

      MapFrame(mid, disk[..], BlockMap(n), at, second);
      forall k: nat | k < MapBits(n)
        ensures MapBit(disk[..], InodeMap(), k) <==> k == 0
        ensures MapBit(disk[..], BlockMap(n), k) <==> k < Preallocated(n)
      {
        MapBitSame(mid, disk[..], InodeMap(), k);
        WrittenBit(img, mid, BLOCKSIZE, BlockMap(n), first, k);
        WrittenBit(mid, disk[..], BlockMap(n), at, second, k);
      }
    }

    // The root directory's inode, and its block with the entries "." and "..".
    method CreateRoot(now: nat)
      requires Sized() && InodeAt(blockCount, 0) + BLOCKSIZE <= disk.Length
               && Preallocated(blockCount) * BLOCKSIZE <= disk.Length
      modifies disk
      ensures disk[..] == Patch(Patch(old(disk[..]), InodeAt(blockCount, 0),
                                      RootInode(blockCount, now) + Filler(BLOCKSIZE - INODE_SIZE)),
                                MetaBlocks(blockCount) * BLOCKSIZE, RootDirectory())
    {
      hide FreemapBlocks, InodeTableBlocks, WordsOf, InodeFields, Patch, RootDirectory, Filler;
      ghost var img := disk[..];
      var workspace := new byte[BLOCKSIZE];
      FillUnused(workspace);
      FillWords(workspace, InodeFields(2, MODE_DIRECTORY, BLOCKSIZE, now,
                                       1 + 2 * freemapBlocksize + inodetableBlocksize));
      assert workspace[..] == RootInode(blockCount, now) + Filler(BLOCKSIZE - INODE_SIZE);
      assert disk[..] == img;
      WriteBlock(1 + 2 * freemapBlocksize, workspace);
      ghost var mid := disk[..];

      FillUnused(workspace);
      FillRootDirectory(workspace);
      assert disk[..] == mid;
      WriteBlock(1 + 2 * freemapBlocksize + inodetableBlocksize, workspace);
    }

    method WriteSuper()
      requires Sized()
      modifies disk
      ensures disk[..] == Patch(old(disk[..]), 0, Super(blockCount) + Filler(BLOCKSIZE - SUPER_SIZE))
    {
      hide FreemapBlocks, InodeTableBlocks, Word, Filler;
      ghost var img := disk[..];
      var workspace := new byte[BLOCKSIZE];
      FillUnused(workspace);
      FillWords(workspace, [MAGIC, BLOCKSIZE, blockCount, freemapBlocksize, freemapBlocksize, inodetableBlocksize]);
      assert workspace[..] == Super(blockCount) + Filler(BLOCKSIZE - SUPER_SIZE);
      assert disk[..] == img;
      WriteBlock(0, workspace);
    }

    // False where the source gives up, which PreallocatedFits shows it never
    // does on a partition that lseek() can reach.
    method Initialize(now: nat) returns (ok: bool)
      requires Sized()
      modifies disk
      ensures ok <==> Preallocated(blockCount) <= BITS_PER_BLOCK
      ensures ok ==> Sized() && Initialized(disk[..], blockCount, now)
    {
      hide FreemapBlocks, InodeTableBlocks, InodeAt, MapBit, Patch, Super, RootInode, RootDirectory, Filler,
           Initialized, MetaBlocks;
      ghost var n := blockCount;
      Regions(n);
      TableSize(n);
      ClearPartition();
      ghost var cleared := disk[..];
      ok := WriteFreemaps();
      if !ok { return; }
      ghost var maps := disk[..];
      CreateRoot(now);
      ghost var root := disk[..];
      WriteSuper();
      PiecesInitialized(cleared, maps, root, disk[..], n, now);
    }

    // ----- createfile.c -----

    // lseek() to an inode and write() of it from the front of the workspace.
    method WriteInode(inodeNumber: nat, workspace: array<byte>)
      requires Sized() && inodeNumber < blockCount && workspace.Length == BLOCKSIZE && workspace != disk
      modifies disk
      ensures InodeAt(blockCount, inodeNumber) + INODE_SIZE <= disk.Length
      ensures disk[..] == Patch(old(disk[..]), InodeAt(blockCount, inodeNumber), workspace[..INODE_SIZE])
    {
      hide FreemapBlocks, InodeTableBlocks;
      InodeInside(blockCount, inodeNumber);
      var at := (1 + 2 * freemapBlocksize) * BLOCKSIZE + INODE_SIZE * inodeNumber;
      forall k | 0 <= k < INODE_SIZE { disk[at + k] := workspace[k]; }
    }

    // The first block of the root directory, from inode 0.
    method ParentBlock(workspace: array<byte>) returns (pblock: nat)
      requires Sized() && workspace.Length == BLOCKSIZE && workspace != disk
      modifies workspace
      ensures pblock == RootBlock(disk[..], blockCount)
    {
      hide FreemapBlocks, InodeTableBlocks, U32;
      InodeInside(blockCount, 0);
      ghost var img := disk[..];
      var at := (1 + 2 * freemapBlocksize) * BLOCKSIZE + INODE_SIZE * 0;
      forall k | 0 <= k < INODE_SIZE { workspace[k] := disk[at + k]; }
      assert workspace[..][..INODE_SIZE] == img[at..at + INODE_SIZE];
      SlotWord(img, at, workspace[..][..INODE_SIZE], DIRECT);
      SameWord(workspace[..], workspace[..][..INODE_SIZE], DIRECT, DIRECT);
      assert disk[..] == img && at == InodeAt(blockCount, 0);
      pblock := U32(workspace[..], DIRECT);
    }

    // The part of create_file that changes the directory block.
    method AddEntry(name: seq<byte>, workspace: array<byte>, ghost q: Request) returns (currentInode: nat)
      requires Sized() && workspace.Length == BLOCKSIZE && workspace != disk
      requires q.name == name && Room(disk[..], blockCount, q)
      modifies disk, workspace
      ensures Sized() && currentInode == NewNumber(old(disk[..]), blockCount)
      ensures disk[..] == WithEntry(old(disk[..]), blockCount, q)
    {
      hide FreemapBlocks, InodeTableBlocks, FirstClear, DirOk, LastAt, NewInode, MetaBlocks, U32, Mark, WithInode,
           Patch, Word;
      ghost var img, n := disk[..], blockCount;
      // The block of the directory.
      var pblock := ParentBlock(workspace);
      ReadBlock(pblock, workspace);
      ghost var d := workspace[..];
      assert d == BlockOf(img, pblock);

      var parent := FindLastEntry(workspace);
      var offset := parent + 4 + 4;
      offset := offset + (workspace[offset] as int + 1);

      PutWord(workspace, parent, offset);
      PutWord(workspace, offset, 0);
      // The inode of the new entry.
      RoomForInode(img, n, q);
      assert disk[..] == img;
      var found;
      found, currentInode := AllocateInode();
      PutWord(workspace, offset + 4, currentInode);
      PutName(workspace, offset, name);
      assert workspace[..] == Append(d, LastAt(d, 0), currentInode, name);

      WriteBlock(pblock, workspace);
    }

    // create_file, on any image with room for the file. It keeps an image one
    // about which the checker has nothing to say.
    method CreateFile(name: seq<byte>, fileSize: nat, now: nat)
      requires Sized()
      requires fileSize <= MAX_SIZE ==>
                 && Room(disk[..], blockCount, Request(name, fileSize, now))
                 && (Sound(disk[..], blockCount) || BlockLeft(disk[..], blockCount, Request(name, fileSize, now)))
      modifies disk
      ensures Sized() && (old(Sound(disk[..], blockCount)) ==> Sound(disk[..], blockCount))
      ensures disk[..] == CreateStep(old(disk[..]), blockCount, Request(name, fileSize, now))
      ensures disk[..] == if fileSize > 4096 then old(disk[..])
                          else Created(old(disk[..]), blockCount, Request(name, fileSize, now))
    {
      hide FreemapBlocks, InodeTableBlocks, Sound, NewInode, MetaBlocks, Mark, NewNumber, NewBlock, WithEntry, Room,
           InodeAt, Patch, Letters, BlockMap, Created, BlockLeft;
      ghost var img, n, q := disk[..], blockCount, Request(name, fileSize, now);
      if fileSize > 4096 { return; }
      if Sound(img, n) {
        SoundBlockLeft(img, n, q);
        CreateKeepsSound(img, n, q);
      }
      CreatedSteps(img, n, q);
      var workspace := new byte[BLOCKSIZE];
      var currentInode := AddEntry(name, workspace, q);

      // An empty file gets no block.
      var currentBlock := 0;
      if fileSize > 0 {
        var found;
        found, currentBlock := AllocateBlock();
      }
      StoreInode(workspace, currentInode, fileSize, now, currentBlock);
      if fileSize > 0 {
        FillLetters(workspace, fileSize);
        WriteBlock(currentBlock, workspace);
      }
    }

    // The inode of a new file, through the workspace.
    method StoreInode(workspace: array<byte>, inode: nat, fileSize: nat, now: nat, block: nat)
      requires Sized() && inode < blockCount && workspace.Length == BLOCKSIZE && workspace != disk
      modifies disk, workspace
      ensures Sized() && InodeAt(blockCount, inode) + INODE_SIZE <= disk.Length
      ensures disk[..] == Patch(old(disk[..]), InodeAt(blockCount, inode), NewInode(fileSize, now, block))
    {
      hide FreemapBlocks, InodeTableBlocks, WordsOf, InodeFields, InodeAt, Patch, NewInode;
      ghost var img := disk[..];
      FillWords(workspace, InodeFields(1, MODE_FILE, fileSize, now, block));
      NewInodeIs(fileSize, now, block);
      assert disk[..] == img;
      WriteInode(inode, workspace);
    }

    // ----- verify.c -----

    ghost predicate Counters(counters: array<nat>) {
      counters.Length == blockCount && counters as object != disk
    }

    method InitializeCounters(counters: array<nat>)
      requires Sized() && Counters(counters)
      modifies counters
      ensures forall b :: 0 <= b < blockCount ==> counters[b] == if b < MetaBlocks(blockCount) then 1 else 0
    {
      LayoutFits(blockCount);
      forall b | 0 <= b < counters.Length { counters[b] := 0; }
      var preallocatedBlockCount := 1 + 2 * freemapBlocksize + inodetableBlocksize;
      var i := 0;
      while i < preallocatedBlockCount
        invariant 0 <= i <= preallocatedBlockCount
        invariant forall b :: 0 <= b < blockCount ==> counters[b] == if b < i then 1 else 0
      {
        counters[i] := 1;
        i := i + 1;
      }
    }

    // Counts an indirection block and the blocks it lists.
    method FindFirstIndirectionBlocks(firstIndirect: nat, counters: array<nat>)
      requires Sized() && Counters(counters) && AllBelow(FirstRefs(disk[..], firstIndirect), blockCount)
      modifies counters
      ensures Counted(old(counters[..]), counters[..], multiset(FirstRefs(disk[..], firstIndirect)))
    {
      hide Counted, AllBelow, Numbers, U32, FreemapBlocks, InodeTableBlocks;
      ghost var img, before := disk[..], counters[..];
      ghost var at := firstIndirect * BLOCKSIZE;
      ghost var nums := Numbers(img, at, WORDS_PER_BLOCK);
      FirstRefsHead(img, firstIndirect, blockCount);
      NumbersLength(img, at, WORDS_PER_BLOCK);

      // One use of the indirection block.
      CountedNone(before);
      CountedOne(before, counters[..], multiset{}, firstIndirect);
      counters[firstIndirect] := counters[firstIndirect] + 1;
      assert multiset([firstIndirect] + nums[..0]) == multiset{} + multiset{firstIndirect};

      var workspace := new byte[BLOCKSIZE];
      ReadBlock(firstIndirect, workspace);
      var i := 0;
      while i < WORDS_PER_BLOCK
        invariant 0 <= i <= |nums| && disk[..] == img && workspace[..] == img[at..at + BLOCKSIZE]
        invariant Counted(before, counters[..], multiset([firstIndirect] + nums[..i]))
      {
        BlockWord(img, at, workspace[..], i);
        NumbersStep(img, at, WORDS_PER_BLOCK, i);
        var number := U32(workspace[..], 4 * i);
        if number == 0 { break; }
        NumberBelow(img, firstIndirect, blockCount, i);
        CountedOne(before, counters[..], multiset([firstIndirect] + nums[..i]), number);
        counters[number] := counters[number] + 1;
        assert [firstIndirect] + nums[..i + 1] == [firstIndirect] + nums[..i] + [number];
        i := i + 1;
      }
      assert nums[..i] == nums;
    }

    // Counts a second indirection block, and the first ones it lists with theirs.
    method FindSecondIndirectionBlocks(secondIndirect: nat, counters: array<nat>)
      requires Sized() && Counters(counters) && AllBelow(SecondRefs(disk[..], secondIndirect), blockCount)
      modifies counters
      ensures Counted(old(counters[..]), counters[..], multiset(SecondRefs(disk[..], secondIndirect)))
    {
      hide Counted, AllBelow, Numbers, U32, FreemapBlocks, InodeTableBlocks, FirstRefs, FirstRefsOf;
      ghost var img, before := disk[..], counters[..];
      ghost var at := secondIndirect * BLOCKSIZE;
      ghost var nums := Numbers(img, at, WORDS_PER_BLOCK);
      SecondRefsParts(img, secondIndirect, blockCount);
      NumbersLength(img, at, WORDS_PER_BLOCK);

      // One use of the indirection block.
      CountedNone(before);
      CountedOne(before, counters[..], multiset{}, secondIndirect);
      counters[secondIndirect] := counters[secondIndirect] + 1;
      ghost var head := multiset{} + multiset{secondIndirect};
      NoRefs(img, nums, head);

      var workspace := new byte[BLOCKSIZE];
      ReadBlock(secondIndirect, workspace);
      var i := 0;
      while i < WORDS_PER_BLOCK
        invariant 0 <= i <= |nums| && disk[..] == img && workspace[..] == img[at..at + BLOCKSIZE]
        invariant Counted(before, counters[..], head + multiset(FirstRefsOf(img, nums[..i])))
      {
        BlockWord(img, at, workspace[..], i);
        NumbersStep(img, at, WORDS_PER_BLOCK, i);
        var number := U32(workspace[..], 4 * i);
        if number == 0 { break; }
        FirstRefsOfBelow(img, nums, blockCount, i);
        FirstRefsOfStep(img, nums, i);
        ghost var middle := counters[..];
        FindFirstIndirectionBlocks(number, counters);
        CountedTwice(before, middle, counters[..], head + multiset(FirstRefsOf(img, nums[..i])),
                     multiset(FirstRefs(img, number)));
        assert head + multiset(FirstRefsOf(img, nums[..i])) + multiset(FirstRefs(img, number)) ==
               head + multiset(FirstRefsOf(img, nums[..i + 1]));
        i := i + 1;
      }
      assert nums[..i] == nums;
      assert multiset(SecondRefs(img, secondIndirect)) == head + multiset(FirstRefsOf(img, nums));
    }

    // The direct blocks of the inode at offset current of a block.
    method FindDirectBlocks(workspace: array<byte>, current: nat, counters: array<nat>, ghost start: nat)
      requires Counters(counters) && start + BLOCKSIZE <= disk.Length && current + INODE_SIZE <= BLOCKSIZE
      requires workspace.Length == BLOCKSIZE && workspace[..] == disk[start..start + BLOCKSIZE]
      requires AllBelow(NonZero(disk[..], start + current + DIRECT, 4), blockCount)
      modifies counters
      ensures Counted(old(counters[..]), counters[..], multiset(NonZero(disk[..], start + current + DIRECT, 4)))
    {
      hide Counted, AllBelow, U32, NonZero;
      ghost var img, before, at := disk[..], counters[..], start + current;
      CountedNone(before);
      NoDirect(img, at);
      var i := 0;
      while i < 4
        invariant 0 <= i <= 4 && disk[..] == img && workspace[..] == img[start..start + BLOCKSIZE]
        invariant Counted(before, counters[..], multiset(NonZero(img, at + DIRECT, i)))
      {
        InodeWord(img, start, workspace[..], current, DIRECT + 4 * i);
        DirectBelow(img, at, blockCount, i);
        var number := U32(workspace[..], current + (DIRECT + 4 * i));
        ghost var refs := multiset(NonZero(img, at + DIRECT, i));
        if number != 0 {
          CountedOne(before, counters[..], refs, number);
          counters[number] := counters[number] + 1;
        } else {
          assert refs + multiset{} == refs;
        }
        i := i + 1;
      }
    }

    // The blocks attached to one inode.
    method FindInodeBlocks(inodeNumber: nat, counters: array<nat>)
      requires Sized() && Counters(counters) && inodeNumber < blockCount
      requires AllBelow(InodeRefs(disk[..], InodeAt(blockCount, inodeNumber)), blockCount)
      modifies counters
      ensures Counted(old(counters[..]), counters[..], multiset(InodeRefs(disk[..], InodeAt(blockCount, inodeNumber))))
    {
      hide Counted, AllBelow, Numbers, U32, FreemapBlocks, InodeTableBlocks, FirstRefs, SecondRefs, InodeAt, NonZero;
      ghost var img, before := disk[..], counters[..];
      ghost var at := InodeAt(blockCount, inodeNumber);
      InodeAddresses(blockCount, inodeNumber);
      LayoutFits(blockCount);
      InodeRefsParts(img, at, blockCount);
      var relativeBlock := inodeNumber / 64;
      var inodeOffset := inodeNumber % 64;
      var workspace := new byte[BLOCKSIZE];
      ReadBlock(1 + 2 * freemapBlocksize + relativeBlock, workspace);
      var current := 64 * inodeOffset;
      ghost var start := (1 + 2 * freemapBlocksize + relativeBlock) * BLOCKSIZE;

      FindDirectBlocks(workspace, current, counters, start);
      ghost var all := multiset(NonZero(img, at + DIRECT, 4));
      InodeWord(img, start, workspace[..], current, FIRST_INDIRECT);
      InodeWord(img, start, workspace[..], current, SECOND_INDIRECT);
      var firstIndirect := U32(workspace[..], current + FIRST_INDIRECT);
      var secondIndirect := U32(workspace[..], current + SECOND_INDIRECT);
      ghost var c1 := counters[..];
      if firstIndirect != 0 {
        FindFirstIndirectionBlocks(firstIndirect, counters);
        CountedTwice(before, c1, counters[..], all, multiset(FirstRefs(img, firstIndirect)));
        all := all + multiset(FirstRefs(img, firstIndirect));
      }
      ghost var c2 := counters[..];
      if secondIndirect != 0 {
        FindSecondIndirectionBlocks(secondIndirect, counters);
        CountedTwice(before, c2, counters[..], all, multiset(SecondRefs(img, secondIndirect)));
        all := all + multiset(SecondRefs(img, secondIndirect));
      }
      assert multiset(InodeRefs(img, at)) == all;
    }

    // One bit of the inode map.
    method ScanInode(taken: bool, inodeNumber: nat, counters: array<nat>, ghost before: seq<nat>)
      requires Sized() && Counters(counters) && InRange(disk[..], blockCount) && inodeNumber < blockCount
      requires taken <==> InodeBit(disk[..], blockCount, inodeNumber)
      requires Counted(before, counters[..], Attached(disk[..], blockCount, inodeNumber))
      modifies counters
      ensures Counted(before, counters[..], Attached(disk[..], blockCount, inodeNumber + 1))
    {
      hide Counted, InRange, FreemapBlocks, InodeTableBlocks, InodeRefs, InodeAt, AllBelow, MapBit, Attached;
      ghost var img, n, middle := disk[..], blockCount, counters[..];
      AttachedStep(img, n, inodeNumber);
      if taken {
        InodeRefsBelow(img, n, inodeNumber);
        FindInodeBlocks(inodeNumber, counters);
        CountedTwice(before, middle, counters[..], Attached(img, n, inodeNumber),
                     multiset(InodeRefs(img, InodeAt(n, inodeNumber))));
      }
      assert disk[..] == img;
    }

    // All allocated inodes.
    method ScanInodes(counters: array<nat>)
      requires Sized() && Counters(counters) && InRange(disk[..], blockCount)
      modifies counters
      ensures Counted(old(counters[..]), counters[..], Attached(disk[..], blockCount, blockCount))
    {
      hide Counted, InRange, FreemapBlocks, InodeTableBlocks, InodeRefs, InodeAt, BitSet, AllBelow, MapBit, Attached,
           MetaBlocks;
      ghost var img, before := disk[..], counters[..];
      ghost var n := blockCount;
      LayoutHolds(n);
      MapsInside(n);
      CountedNone(before);
      NothingAttached(img, n);
      var workspace := new byte[BLOCKSIZE];
      var inodeNumber := 0;
      var blockIndex := 0;
      label done: while blockIndex < freemapBlocksize
        invariant 0 <= blockIndex <= freemapBlocksize && disk[..] == img
        invariant inodeNumber == blockIndex * BITS_PER_BLOCK && inodeNumber < n
        invariant Counted(before, counters[..], Attached(img, n, inodeNumber))
      {
        ReadBlock(1 + blockIndex, workspace);
        ghost var at := (1 + blockIndex) * BLOCKSIZE;
        var blockOffset := 0;
        while blockOffset < BLOCKSIZE
          invariant 0 <= blockOffset <= BLOCKSIZE && disk[..] == img && workspace[..] == img[at..at + BLOCKSIZE]
          invariant inodeNumber == blockIndex * BITS_PER_BLOCK + blockOffset * 8 && inodeNumber < n
          invariant Counted(before, counters[..], Attached(img, n, inodeNumber))
        {
          var bitNumber := 0;
          while bitNumber < 8
            invariant 0 <= bitNumber <= 8 && disk[..] == img && workspace[..] == img[at..at + BLOCKSIZE]
            invariant inodeNumber == blockIndex * BITS_PER_BLOCK + blockOffset * 8 + bitNumber && inodeNumber < n
            invariant Counted(before, counters[..], Attached(img, n, inodeNumber))
          {
            MapBitAt(img, BLOCKSIZE, workspace[..], blockIndex, blockOffset, bitNumber);
            ScanInode(BitSet(workspace[blockOffset], bitNumber), inodeNumber, counters, before);
            inodeNumber := inodeNumber + 1;
            if inodeNumber == blockCount { break done; }
            bitNumber := bitNumber + 1;
          }
          blockOffset := blockOffset + 1;
        }
        blockIndex := blockIndex + 1;
      }
    }

    // Reports counts that are neither zero nor one.
    method CheckCounters(counters: array<nat>) returns (reports: seq<Report>)
      requires Counters(counters)
      ensures reports == MultipleReports(counters[..], blockCount)
    {
      reports := [];
      var i := 0;
      while i < blockCount
        invariant 0 <= i <= blockCount && reports == MultipleReports(counters[..], i)
      {
        if counters[i] != 0 && counters[i] != 1 { reports := reports + [MultipleUse(i, counters[i])]; }
        i := i + 1;
      }
    }

    // Compares the counts with the block free map.
    method CheckBlockFreemap(counters: array<nat>) returns (reports: seq<Report>)
      requires Sized() && Counters(counters)
      ensures reports == FreemapReports(disk[..], blockCount, counters[..], blockCount)
    {
      hide FreemapBlocks, InodeTableBlocks, BitSet, MapBit, FreemapReports, BlockBit, MetaBlocks;
      ghost var img, c := disk[..], counters[..];
      ghost var n := blockCount;
      LayoutHolds(n);
      MapsInside(n);
      NothingReported(img, n, c);
      reports := [];
      var workspace := new byte[BLOCKSIZE];
      var blockNumber := 0;
      var blockIndex := 0;
      label done: while blockIndex < freemapBlocksize
        invariant 0 <= blockIndex <= freemapBlocksize && disk[..] == img && counters[..] == c
        invariant blockNumber == blockIndex * BITS_PER_BLOCK && blockNumber < n
        invariant reports == FreemapReports(img, n, c, blockNumber)
      {
        ReadBlock(1 + freemapBlocksize + blockIndex, workspace);
        ghost var at := (1 + freemapBlocksize + blockIndex) * BLOCKSIZE;
        var blockOffset := 0;
        while blockOffset < BLOCKSIZE
          invariant 0 <= blockOffset <= BLOCKSIZE && disk[..] == img && counters[..] == c
          invariant workspace[..] == img[at..at + BLOCKSIZE]
          invariant blockNumber == blockIndex * BITS_PER_BLOCK + blockOffset * 8 && blockNumber < n
          invariant reports == FreemapReports(img, n, c, blockNumber)
        {
          var bitNumber := 0;
          while bitNumber < 8
            invariant 0 <= bitNumber <= 8 && disk[..] == img && counters[..] == c
            invariant workspace[..] == img[at..at + BLOCKSIZE]
            invariant blockNumber == blockIndex * BITS_PER_BLOCK + blockOffset * 8 + bitNumber && blockNumber < n
            invariant reports == FreemapReports(img, n, c, blockNumber)
          {
            MapBitAt(img, (1 + freemapBlocksize) * BLOCKSIZE, workspace[..], blockIndex, blockOffset, bitNumber);
            FreemapStep(img, n, c, blockNumber);
            if BitSet(workspace[blockOffset], bitNumber) {
              if counters[blockNumber] != 1 { reports := reports + [AllocatedNotUsed(blockNumber)]; }
            } else {
              if counters[blockNumber] != 0 { reports := reports + [UnallocatedInUse(blockNumber)]; }
            }
            blockNumber := blockNumber + 1;
            if blockNumber == blockCount { break done; }
            bitNumber := bitNumber + 1;
          }
          blockOffset := blockOffset + 1;
        }
        blockIndex := blockIndex + 1;
      }
    }

    // The verify option: what it prints depends on the uses of the blocks only,
    // and it prints nothing exactly on consistent images.
    method VerifyFileSystem() returns (reports: seq<Report>)
      requires Sized() && InRange(disk[..], blockCount)
      ensures var counts := UseCounts(disk[..], blockCount);
              reports == MultipleReports(counts, blockCount) + FreemapReports(disk[..], blockCount, counts, blockCount)
      ensures reports == [] <==> Consistent(disk[..], blockCount)
    {
      hide InRange, FreemapBlocks, InodeTableBlocks, Attached, Consistent, MultipleReports, FreemapReports;
      ghost var img := disk[..];
      var blockCounters := new nat[blockCount];
      InitializeCounters(blockCounters);
      ghost var initial := blockCounters[..];
      ScanInodes(blockCounters);
      CountsAreUses(img, blockCount, initial, blockCounters[..]);
      var multiple := CheckCounters(blockCounters);
      var freemap := CheckBlockFreemap(blockCounters);
      reports := multiple + freemap;
      SilentIff(img, blockCount);
    }
  }

  // Choices of the menu: initialize the partition, create files, verify. Whatever
  // files fit, the verification prints nothing.
  method Session(tool: DiskTool, now: nat, requests: seq<Request>) returns (reports: seq<Report>)
    requires tool.Sized() && AllFit(tool.blockCount, FreshLevel(tool.blockCount), requests)
    modifies tool.disk
    ensures reports == []
    ensures HasRoot(tool.disk[..], tool.blockCount)
    ensures RootEntries(tool.disk[..], tool.blockCount) == [Entry(0, [46]), Entry(0, [46, 46])] + Listed(requests, 1)
  {
    hide FreemapBlocks, InodeTableBlocks, MetaBlocks, Initialized, Sound, Created, Room, Silent, HasRoot, RootEntries,
         AllFit;
    ghost var n := tool.blockCount;
    PreallocatedFits(n);
    var _ := tool.Initialize(now);
    ghost var blank := tool.disk[..];
    InitializedRuns(blank, n, now, requests);
    InitializedSound(blank, n, now);
    ghost var last := CreatedAll(blank, n, requests);
    var i := 0;
    while i < |requests|
      invariant 0 <= i <= |requests| && tool.Sized() && Sound(tool.disk[..], n)
      invariant AllRoom(tool.disk[..], n, requests[i..]) && CreatedAll(tool.disk[..], n, requests[i..]) == last
    {
      var q := requests[i];
      assert requests[i..][0] == q && requests[i..][1..] == requests[i + 1..];
      tool.CreateFile(q.name, q.size, q.now);
      i := i + 1;
    }
    SoundIs(last, n);
    reports := tool.VerifyFileSystem();
  }

  lemma SoundIs(img: Image, n: nat)
    requires Sound(img, n)
    ensures InRange(img, n) && Consistent(img, n) && HasRoot(img, n)
  {
  }

  lemma CountedNone(before: seq<nat>)
    ensures Counted(before, before, multiset{})
  {
  }

  lemma FirstRefsHead(img: Image, b: nat, n: nat)
    requires AllBelow(FirstRefs(img, b), n)
    ensures b < n
  {
    assert FirstRefs(img, b)[0] in FirstRefs(img, b);
  }

  lemma NumberBelow(img: Image, b: nat, n: nat, i: nat)
    requires AllBelow(FirstRefs(img, b), n) && i < |Numbers(img, b * BLOCKSIZE, WORDS_PER_BLOCK)|
    ensures Numbers(img, b * BLOCKSIZE, WORDS_PER_BLOCK)[i] < n
  {
    assert FirstRefs(img, b)[i + 1] in FirstRefs(img, b);
  }

  // Word i of a block read into memory.
  lemma BlockWord(img: Image, at: nat, workspace: seq<byte>, i: nat)
    requires at + BLOCKSIZE <= |img| && workspace == img[at..at + BLOCKSIZE] && i < WORDS_PER_BLOCK
    ensures U32(workspace, 4 * i) == U32(img, at + 4 * i)
  {
    var x := 4 * i;
    assert forall k :: 0 <= k < BLOCKSIZE ==> workspace[k] == img[at + k];
    assert workspace[x..x + 4] == img[at + x..at + x + 4];
    SameWord(workspace, img, x, at + x);
  }

  lemma SecondRefsParts(img: Image, b: nat, n: nat)
    requires AllBelow(SecondRefs(img, b), n)
    ensures b < n && AllBelow(FirstRefsOf(img, Numbers(img, b * BLOCKSIZE, WORDS_PER_BLOCK)), n)
  {
    hide FirstRefsOf, Numbers;
    var refs := SecondRefs(img, b);
    assert refs[0] in refs;
    var rest := FirstRefsOf(img, Numbers(img, b * BLOCKSIZE, WORDS_PER_BLOCK));
    forall r | r in rest ensures r < n { assert r in refs; }
  }

  lemma NoRefs(img: Image, nums: seq<nat>, head: multiset<nat>)
    ensures head + multiset(FirstRefsOf(img, nums[..0])) == head
  {
  }

  lemma NoDirect(img: Image, at: nat)
    ensures multiset(NonZero(img, at + DIRECT, 0)) == multiset{}
  {
  }

  lemma InodeRefsParts(img: Image, at: nat, n: nat)
    requires AllBelow(InodeRefs(img, at), n)
    ensures AllBelow(NonZero(img, at + DIRECT, 4), n)
    ensures U32(img, at + FIRST_INDIRECT) != 0 ==> AllBelow(FirstRefs(img, U32(img, at + FIRST_INDIRECT)), n)
    ensures U32(img, at + SECOND_INDIRECT) != 0 ==> AllBelow(SecondRefs(img, U32(img, at + SECOND_INDIRECT)), n)
  {
    hide NonZero, FirstRefs, SecondRefs;
    var refs, direct := InodeRefs(img, at), NonZero(img, at + DIRECT, 4);
    forall r | r in direct ensures r < n { assert r in refs; }
    if U32(img, at + FIRST_INDIRECT) != 0 {
      var first := FirstRefs(img, U32(img, at + FIRST_INDIRECT));
      forall r | r in first ensures r < n { assert r in refs; }
    }
    if U32(img, at + SECOND_INDIRECT) != 0 {
      var second := SecondRefs(img, U32(img, at + SECOND_INDIRECT));
      forall r | r in second ensures r < n { assert r in refs; }
    }
  }

  // Direct block number i, and the numbers up to it.
  lemma DirectBelow(img: Image, at: nat, n: nat, i: nat)
    requires i < 4 && AllBelow(NonZero(img, at + DIRECT, 4), n)
    ensures U32(img, at + DIRECT + 4 * i) != 0 ==> U32(img, at + DIRECT + 4 * i) < n
    ensures multiset(NonZero(img, at + DIRECT, i + 1)) ==
            multiset(NonZero(img, at + DIRECT, i)) +
            (if U32(img, at + DIRECT + 4 * i) != 0 then multiset{U32(img, at + DIRECT + 4 * i)} else multiset{})
  {
    if U32(img, at + DIRECT + 4 * i) != 0 { NonZeroHas(img, at + DIRECT, 4, i); }
  }

  // A word of an inode inside the block read into memory.
  lemma InodeWord(img: Image, start: nat, workspace: seq<byte>, current: nat, field: nat)
    requires start + BLOCKSIZE <= |img| && workspace == img[start..start + BLOCKSIZE]
    requires current + INODE_SIZE <= BLOCKSIZE && field + 4 <= INODE_SIZE
    ensures U32(workspace, current + field) == U32(img, start + current + field)
  {
    var x := current + field;
    assert forall k :: 0 <= k < BLOCKSIZE ==> workspace[k] == img[start + k];
    assert workspace[x..x + 4] == img[start + x..start + x + 4];
    SameWord(workspace, img, x, start + x);
  }

  // One bit of a map, in the block of the map that holds it.
  lemma MapBitAt(img: Image, base: nat, workspace: seq<byte>, block: nat, offset: nat, bit: nat)
    requires base + (block + 1) * BLOCKSIZE <= |img|
    requires workspace == img[base + block * BLOCKSIZE..base + (block + 1) * BLOCKSIZE]
    requires offset < BLOCKSIZE && bit < 8
    ensures MapBit(img, base, block * BITS_PER_BLOCK + offset * 8 + bit) <==> BitSet(workspace[offset], bit)
  {
    hide BitSet;
    var k := block * BITS_PER_BLOCK + offset * 8 + bit;
    assert k / 8 == block * BLOCKSIZE + offset && k % 8 == bit;
    assert workspace[offset] == img[base + block * BLOCKSIZE + offset];
  }

  lemma AttachedStep(img: Image, n: nat, i: nat)
    ensures Attached(img, n, i + 1) ==
            Attached(img, n, i)
            + (if MapBit(img, BLOCKSIZE, i) then multiset(InodeRefs(img, InodeAt(n, i))) else multiset{})
    ensures Attached(img, n, i) + multiset{} == Attached(img, n, i)
    ensures InodeBit(img, n, i) <==> MapBit(img, BLOCKSIZE, i)
  {
  }

  lemma CountsAreUses(img: Image, n: nat, initial: seq<nat>, after: seq<nat>)
    requires |initial| == n && forall b :: 0 <= b < n ==> initial[b] == if b < MetaBlocks(n) then 1 else 0
    requires Counted(initial, after, Attached(img, n, n))
    ensures after == UseCounts(img, n)
  {
    hide Attached;
  }

  lemma FreemapStep(img: Image, n: nat, c: seq<nat>, b: nat)
    requires b < |c|
    ensures FreemapReports(img, n, c, b + 1) == FreemapReports(img, n, c, b) +
              (if MapBit(img, (1 + FreemapBlocks(n)) * BLOCKSIZE, b) && c[b] != 1 then [AllocatedNotUsed(b)]
               else if !MapBit(img, (1 + FreemapBlocks(n)) * BLOCKSIZE, b) && c[b] != 0 then [UnallocatedInUse(b)]
               else [])
  {
    hide MapBit;
  }

  lemma NothingReported(img: Image, n: nat, c: seq<nat>)
    ensures FreemapReports(img, n, c, 0) == []
  {
  }

  lemma NothingAttached(img: Image, n: nat)
    ensures Attached(img, n, 0) == multiset{}
  {
  }

  lemma RoomForInode(img: Image, n: nat, q: Request)
    requires WellSized(img, n) && Room(img, n, q)
    ensures NewNumber(img, n) < MapBits(n)
  {
    hide FreemapBlocks, InodeTableBlocks, FirstClear, DirOk;
    Regions(n);
  }

  lemma InodeInside(n: nat, i: nat)
    requires n >= 5 && i < n
    ensures InodeAt(n, i) + INODE_SIZE <= n * BLOCKSIZE
  {
    Regions(n);
  }

  // memset() of a block to unused space.
  method FillUnused(workspace: array<byte>)
    requires workspace.Length == BLOCKSIZE
    modifies workspace
    ensures workspace[..] == Filler(BLOCKSIZE)
  {
    forall k | 0 <= k < BLOCKSIZE { workspace[k] := UNUSED_SPACE; }
  }

  // One directory entry at an offset.
  method PutEntry(workspace: array<byte>, at: nat, next: nat, inode: nat, name: seq<byte>)
    requires at + 9 + |name| <= workspace.Length && |name| < 256
    modifies workspace
    ensures workspace[..] == Patch(old(workspace[..]), at, Word(next) + Word(inode) + [|name|] + name)
  {
    hide Word, Patch;
    ghost var s := workspace[..];
    PutWord(workspace, at, next);
    PutWord(workspace, at + 4, inode);
    PutName(workspace, at, name);
    EntryPatches(s, at, next, inode, name);
  }

  lemma EntryPatches(s: seq<byte>, at: nat, next: nat, inode: nat, name: seq<byte>)
    requires at + 9 + |name| <= |s| && |name| < 256
    ensures Patch(Patch(Patch(s, at, Word(next)), at + 4, Word(inode))[at + 8 := |name|], at + 9, name)
            == Patch(s, at, Word(next) + Word(inode) + [|name|] + name)
  {
    hide Word, Patch;
    var r := Word(next) + Word(inode) + [|name|] + name;
    var w := Patch(Patch(s, at, Word(next)), at + 4, Word(inode));
    assert |r| == 9 + |name|;
    forall k | 0 <= k < |s| ensures Patch(w[at + 8 := |name|], at + 9, name)[k] == Patch(s, at, r)[k] {
      assert at <= k < at + 4 ==> r[k - at] == Word(next)[k - at];
    }
  }

  method FillRootDirectory(workspace: array<byte>)
    requires workspace.Length == BLOCKSIZE && workspace[..] == Filler(BLOCKSIZE)
    modifies workspace
    ensures workspace[..] == RootDirectory()
  {
    hide Word, Filler, Patch, RootDirectory;
    PutEntry(workspace, 0, 10, 0, [46]);
    PutEntry(workspace, 10, 0, 0, [46, 46]);
    RootDirectoryIs();
  }

  lemma RootDirectoryIs()
    ensures Patch(Patch(Filler(BLOCKSIZE), 0, Word(10) + Word(0) + [1] + [46]), 10, Word(0) + Word(0) + [2] + [46, 46])
            == RootDirectory()
  {
    hide Word;
  }

  // ----- Free maps written by initialize -----

  // The block first and zeros behind it, between start and end.
  ghost predicate MapWritten(img: Image, img': Image, start: nat, end: nat, first: seq<byte>) {
    && |img| == |img'| && |first| == BLOCKSIZE && start + BLOCKSIZE <= end <= |img|
    && forall k :: 0 <= k < |img| ==>
         img'[k] == if start <= k < start + BLOCKSIZE then first[k - start] else if start <= k < end then 0 else img[k]
  }

  lemma MoreZeros(img: Image, was: Image, img': Image, start: nat, end: nat, first: seq<byte>, zeros: seq<byte>)
    requires end >= BLOCKSIZE && |zeros| == BLOCKSIZE && end <= |img|
    requires forall k :: 0 <= k < BLOCKSIZE ==> zeros[k] == 0
    requires MapWritten(img, was, start, end - BLOCKSIZE, first) && img' == Patch(was, end - BLOCKSIZE, zeros)
    ensures MapWritten(img, img', start, end, first)
  {
    hide Patch;
  }

  lemma MapFrame(img: Image, img': Image, start: nat, end: nat, first: seq<byte>)
    requires MapWritten(img, img', start, end, first)
    ensures |img| == |img'| && forall k :: 0 <= k < |img| && !(start <= k < end) ==> img'[k] == img[k]
  {
  }

  lemma {:induction false} BitsOfZero(k: nat)
    ensures !BitSet(0, k)
  {
    if k > 0 { BitsOfZero(k - 1); }
  }

  lemma BitsOfFull(k: nat)
    requires k < 8
    ensures BitSet(255, k)
  {
    assert BitSet(1, 0) && BitSet(3, 1) && BitSet(7, 2) && BitSet(15, 3) && BitSet(31, 4) && BitSet(63, 5)
           && BitSet(127, 6);
  }

  // Bit k of a written map.
  lemma WrittenBit(img: Image, img': Image, start: nat, end: nat, first: seq<byte>, k: nat)
    requires MapWritten(img, img', start, end, first) && start + k / 8 < end
    ensures MapBit(img', start, k) <==> k < BITS_PER_BLOCK && MapBit(first, 0, k)
  {
    hide BitSet;
    if k >= BITS_PER_BLOCK { BitsOfZero(k % 8); }
  }

  lemma FirstInodeBit(first: seq<byte>)
    requires |first| == BLOCKSIZE && first[0] == SetBit(0, 0) && forall k :: 1 <= k < BLOCKSIZE ==> first[k] == 0
    ensures forall k: nat :: MapBit(first, 0, k) <==> k == 0
  {
    hide BitSet, SetBit;
    forall k: nat ensures MapBit(first, 0, k) <==> k == 0 {
      BitsOfZero(k % 8);
      SetBitOnly(0, 0, k % 8);
    }
  }

  lemma SomeMapBlocks(n: nat)
    requires n >= 5
    ensures FreemapBlocks(n) >= 1
  {
  }

  // memset() and the loop over the left-over bits, in a block of zeros.
  method FillPrefix(workspace: array<byte>, total: nat)
    requires workspace.Length == BLOCKSIZE && total <= BITS_PER_BLOCK
    requires forall k :: 0 <= k < BLOCKSIZE ==> workspace[k] == 0
    modifies workspace
    ensures forall k: nat :: k < BITS_PER_BLOCK ==> (MapBit(workspace[..], 0, k) <==> k < total)
  {
    hide BitSet, SetBit;
    forall k | 0 <= k < total / 8 { workspace[k] := 255; }
    var leftovers, bit := total % 8, 0;
    ghost var last := total / 8;
    forall j: nat ensures !BitSet(0, j) { BitsOfZero(j); }
    while leftovers > 0
      invariant 0 <= leftovers && bit + leftovers == total % 8
      invariant forall k :: 0 <= k < BLOCKSIZE && k != last ==> workspace[k] == if k < last then 255 else 0
      invariant last < BLOCKSIZE ==> forall j: nat :: j < 8 ==> (BitSet(workspace[last], j) <==> j < bit)
    {
      ghost var was := workspace[last];
      workspace[total / 8] := SetBit(workspace[total / 8], bit);
      forall j: nat | j < 8 ensures BitSet(workspace[last], j) <==> j < bit + 1 { SetBitOnly(was, bit, j); }
      bit := bit + 1;
      leftovers := leftovers - 1;
    }
    forall k: nat | k < BITS_PER_BLOCK ensures MapBit(workspace[..], 0, k) <==> k < total { BitsOfFull(k % 8); }
  }

  // The two free maps lie inside the partition.
  lemma MapsInside(n: nat)
    requires n >= 5
    ensures 1 + 2 * FreemapBlocks(n) < n
  {
    LayoutFits(n);
  }

  // The tests of scan_freemap: one more than the number of the lowest clear bit,
  // zero when all are set.
  method LowestClear(b: byte) returns (bit: int)
    ensures 0 <= bit <= 8
    ensures bit == 0 ==> forall j :: 0 <= j < 8 ==> BitSet(b, j)
    ensures bit != 0 ==> !BitSet(b, bit - 1) && forall j :: 0 <= j < bit - 1 ==> BitSet(b, j)
  {
    hide BitSet;
    bit := 0;
    if !BitSet(b, 7) { bit := 8; }
    if !BitSet(b, 6) { bit := 7; }
    if !BitSet(b, 5) { bit := 6; }
    if !BitSet(b, 4) { bit := 5; }
    if !BitSet(b, 3) { bit := 4; }
    if !BitSet(b, 2) { bit := 3; }
    if !BitSet(b, 1) { bit := 2; }
    if !BitSet(b, 0) { bit := 1; }
  }

  // The eight bits of one byte of a map.
  lemma ByteBits(img: Image, base: nat, workspace: seq<byte>, block: nat, offset: nat)
    requires base + (block + 1) * BLOCKSIZE <= |img|
    requires workspace == img[base + block * BLOCKSIZE..base + (block + 1) * BLOCKSIZE]
    requires offset < BLOCKSIZE
    ensures var first := block * BITS_PER_BLOCK + offset * 8;
            forall j :: first <= j < first + 8 ==> (MapBit(img, base, j) <==> BitSet(workspace[offset], j - first))
  {
    hide BitSet, MapBit;
    var first := block * BITS_PER_BLOCK + offset * 8;
    forall j | first <= j < first + 8
      ensures MapBit(img, base, j) <==> BitSet(workspace[offset], j - first)
    {
      MapBitAt(img, base, workspace, block, offset, j - first);
    }
  }

  lemma MarkIsPatch(img: Image, start: nat, block: nat, offset: nat, bit: nat, before: seq<byte>, after: seq<byte>)
    requires (start + block + 1) * BLOCKSIZE <= |img| && offset < BLOCKSIZE && bit < 8
    requires before == img[(start + block) * BLOCKSIZE..(start + block) * BLOCKSIZE + BLOCKSIZE]
    requires after == before[offset := SetBit(before[offset], bit)]
    ensures Patch(img, (start + block) * BLOCKSIZE, after)
            == Mark(img, start * BLOCKSIZE, block * BITS_PER_BLOCK + offset * 8 + bit)
  {
    hide SetBit;
    var k := block * BITS_PER_BLOCK + offset * 8 + bit;
    assert k / 8 == block * BLOCKSIZE + offset && k % 8 == bit;
    var at := (start + block) * BLOCKSIZE;
    assert before[offset] == img[at + offset];
    var p, m := Patch(img, at, after), Mark(img, start * BLOCKSIZE, k);
    forall i | 0 <= i < |img| ensures p[i] == m[i] {
      if at <= i < at + BLOCKSIZE { assert before[i - at] == img[i]; }
    }
  }

  // A word stored in a buffer.
  method PutWord(workspace: array<byte>, at: nat, v: nat)
    requires at + 4 <= workspace.Length
    modifies workspace
    ensures workspace[..] == Patch(old(workspace[..]), at, Word(v))
  {
    workspace[at], workspace[at + 1], workspace[at + 2], workspace[at + 3] :=
      Part(v, 0), Part(v, 1), Part(v, 2), Part(v, 3);
  }

  // The walk along the directory entries.
  method FindLastEntry(workspace: array<byte>) returns (parent: nat)
    requires DirOk(workspace[..], 0)
    ensures parent == LastAt(workspace[..], 0)
  {
    hide U32;
    parent := 0;
    while U32(workspace[..], parent) != 0
      invariant DirOk(workspace[..], parent) && LastAt(workspace[..], parent) == LastAt(workspace[..], 0)
      decreases workspace.Length - parent
    {
      parent := U32(workspace[..], parent);
    }
  }

  // Length and characters of a name behind the two words of its entry.
  method PutName(workspace: array<byte>, offset: nat, name: seq<byte>)
    requires offset + 9 + |name| <= workspace.Length && |name| < 256
    modifies workspace
    ensures workspace[..] == Patch(old(workspace[..])[offset + 8 := |name|], offset + 9, name)
  {
    workspace[offset + 8] := |name|;
    forall k | 0 <= k < |name| { workspace[offset + 9 + k] := name[k]; }
  }

  // The assignments to the fields of a structure of words.
  method FillWords(workspace: array<byte>, words: seq<nat>)
    requires 4 * |words| <= workspace.Length
    modifies workspace
    ensures workspace[..4 * |words|] == WordsOf(words) && workspace[4 * |words|..] == old(workspace[4 * |words|..])
  {
    hide Word, WordsOf;
    var i := 0;
    ghost var end := 4 * |words|;
    assert words[..0] == [] && WordsOf(words[..0]) == [];
    while i < |words|
      invariant 0 <= i <= |words|
      invariant workspace[..4 * i] == WordsOf(words[..i])
      invariant workspace[end..] == old(workspace[end..])
    {
      ghost var before := workspace[..];
      PutWord(workspace, 4 * i, words[i]);
      FilledWord(before, workspace[..], words, i, end);
      i := i + 1;
    }
    assert words[..i] == words;
  }

  lemma FilledWord(before: seq<byte>, after: seq<byte>, words: seq<nat>, i: nat, end: nat)
    requires i < |words| && 4 * |words| <= end <= |before|
    requires after == Patch(before, 4 * i, Word(words[i])) && before[..4 * i] == WordsOf(words[..i])
    ensures after[..4 * (i + 1)] == WordsOf(words[..i + 1])
    ensures after[end..] == before[end..]
  {
    hide Word, Patch;
    assert words[..i + 1][..i] == words[..i];
    var a, b := after[..4 * (i + 1)], WordsOf(words[..i]) + Word(words[i]);
    assert forall k :: 0 <= k < 4 * i ==> before[k] == before[..4 * i][k];
    assert a == b;
  }

  lemma NewInodeIs(size: nat, now: nat, block: nat)
    ensures NewInode(size, now, block) == WordsOf(InodeFields(1, MODE_FILE, size, now, block))
  {
  }

  // memset() and the letters 'A' to 'Z' over and over.
  method FillLetters(workspace: array<byte>, fileSize: nat)
    requires workspace.Length == BLOCKSIZE && fileSize <= BLOCKSIZE
    modifies workspace
    ensures workspace[..] == Letters(fileSize)
  {
    forall k | 0 <= k < BLOCKSIZE { workspace[k] := 0; }
    var data: byte := 65;
    var i := 0;
    while i < fileSize
      invariant 0 <= i <= fileSize && data == 65 + i % 26
      invariant forall k :: 0 <= k < BLOCKSIZE ==> workspace[k] == if k < i then 65 + k % 26 else 0
    {
      workspace[i] := data;
      data := data + 1;
      if data > 90 { data := 65; }
      i := i + 1;
    }
  }
}
