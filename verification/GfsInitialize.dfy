// initialize: the image of a fresh file system, and the files put on it.
module GfsInitialize {
  import opened Bytes
  import opened GfsImage
  import opened GfsBitmap
  import opened GfsDirectory
  import opened GfsCreate

  const UNUSED_SPACE: byte := 0x55
  const MAGIC := 0xDEAD_BEEF
  const MODE_DIRECTORY := 16877   // S_IFDIR|S_IRWXU|S_IRGRP|S_IXGRP|S_IROTH|S_IXOTH
  const SUPER_SIZE := 24

  // The metadata and the block of the root directory.
  function Preallocated(n: nat): nat { MetaBlocks(n) + 1 }

  // The bits of the preallocated blocks fit one block of the map exactly on
  // partitions of less than 8 GiB, that is on all that lseek() can reach.
  lemma PreallocatedFits(n: nat)
    ensures Preallocated(n) <= BITS_PER_BLOCK <==> n <= 2088832
    ensures n <= 0x10_0000 ==> Preallocated(n) <= BITS_PER_BLOCK
  {
    LayoutHolds(n);
  }

  function Super(n: nat): (r: seq<byte>)
    ensures |r| == SUPER_SIZE
  {
    WordsOf([MAGIC, BLOCKSIZE, n, FreemapBlocks(n), FreemapBlocks(n), InodeTableBlocks(n)])
  }

  function RootInode(n: nat, now: nat): (r: seq<byte>)
    ensures |r| == INODE_SIZE
  {
    InodeBytes(2, MODE_DIRECTORY, BLOCKSIZE, now, MetaBlocks(n))
  }

  // Unused space.
  function Filler(k: nat): (r: seq<byte>)
    ensures |r| == k && forall i :: 0 <= i < k ==> r[i] == UNUSED_SPACE
  {
    seq(k, _ => UNUSED_SPACE)
  }

  // The entries "." and "..", and unused space.
  function RootDirectory(): (r: seq<byte>)
    ensures |r| == BLOCKSIZE
  {
    Word(10) + Word(0) + [1, 46] + Word(0) + Word(0) + [2, 46, 46] + Filler(BLOCKSIZE - 21)
  }

  // Where a fresh image holds nothing.
  predicate Unused(n: nat, k: nat) {
    || SUPER_SIZE <= k < BLOCKSIZE
    || InodeAt(n, 1) <= k < MetaBlocks(n) * BLOCKSIZE
    || Preallocated(n) * BLOCKSIZE <= k
  }

  // What initialize() promises: the inode map says that inode 0 is taken, the
  // block map that the preallocated blocks are, and nothing else.
  ghost predicate Initialized(img: Image, n: nat, now: nat) {
    && WellSized(img, n)
    && img[..SUPER_SIZE] == Super(n)
    && (forall k: nat :: k < MapBits(n) ==> (MapBit(img, InodeMap(), k) <==> k == 0))
    && (forall k: nat :: k < MapBits(n) ==> (MapBit(img, BlockMap(n), k) <==> k < Preallocated(n)))
    && InodeAt(n, 1) <= |img| && img[InodeAt(n, 0)..InodeAt(n, 1)] == RootInode(n, now)
    && Preallocated(n) * BLOCKSIZE <= |img| && BlockOf(img, MetaBlocks(n)) == RootDirectory()
    && (forall k: nat :: k < |img| && Unused(n, k) ==> img[k] == UNUSED_SPACE)
  }

  // The pieces that initialize() writes, on top of each other, make such an image.
  lemma PiecesInitialized(cleared: Image, maps: Image, root: Image, img: Image, n: nat, now: nat)
    requires WellSized(cleared, n) && |maps| == |cleared| && InodeAt(n, 0) + BLOCKSIZE <= |maps|
    requires forall k :: 0 <= k < |cleared| ==> cleared[k] == UNUSED_SPACE
    requires forall k: nat :: k < MapBits(n) ==> (MapBit(maps, InodeMap(), k) <==> k == 0)
    requires forall k: nat :: k < MapBits(n) ==> (MapBit(maps, BlockMap(n), k) <==> k < Preallocated(n))
    requires forall k :: 0 <= k < BLOCKSIZE || InodeAt(n, 0) <= k < |maps| ==> maps[k] == cleared[k]
    requires Preallocated(n) * BLOCKSIZE <= |maps|
    requires root == Patch(Patch(maps, InodeAt(n, 0), RootInode(n, now) + Filler(BLOCKSIZE - INODE_SIZE)),
                           MetaBlocks(n) * BLOCKSIZE, RootDirectory())
    requires img == Patch(root, 0, Super(n) + Filler(BLOCKSIZE - SUPER_SIZE))
    ensures Initialized(img, n, now)
  {
    hide MapBit, FreemapBlocks, InodeTableBlocks, RootInode, RootDirectory, Super, Filler, Patch, MetaBlocks, InodeAt;
    Regions(n);
    TableSize(n);
    InodeStep(n);
    var inode := RootInode(n, now) + Filler(BLOCKSIZE - INODE_SIZE);
    var super := Super(n) + Filler(BLOCKSIZE - SUPER_SIZE);
    assert forall k :: 0 <= k < INODE_SIZE ==> inode[k] == RootInode(n, now)[k];
    assert forall k :: 0 <= k < SUPER_SIZE ==> super[k] == Super(n)[k];
    assert img[..SUPER_SIZE] == Super(n);
    assert img[InodeAt(n, 0)..InodeAt(n, 1)] == RootInode(n, now);
    assert BlockOf(img, MetaBlocks(n)) == RootDirectory();
    forall k: nat | k < MapBits(n)
      ensures MapBit(img, InodeMap(), k) <==> k == 0
      ensures MapBit(img, BlockMap(n), k) <==> k < Preallocated(n)
    {
      MapBitSame(maps, img, InodeMap(), k);
      MapBitSame(maps, img, BlockMap(n), k);
    }
  }

  // The inode table takes at least one block.
  lemma TableSize(n: nat)
    requires n >= 5
    ensures InodeAt(n, 0) + BLOCKSIZE <= MetaBlocks(n) * BLOCKSIZE
  {
    LayoutHolds(n);
  }

  lemma RootDirectoryFields()
    ensures var d := RootDirectory();
            && U32(d, 0) == 10 && U32(d, 4) == 0 && d[8] == 1 && d[9..10] == [46]
            && U32(d, 10) == 0 && U32(d, 14) == 0 && d[18] == 2 && d[19..21] == [46, 46]
  {
    hide Join, Part;
    JoinParts(10);
    JoinParts(0);
    assert RootDirectory()[9..10] == [46];
    assert RootDirectory()[19..21] == [46, 46];
  }

  // A fresh directory lists "." and "..", both with inode 0.
  lemma RootDirectoryEntries()
    ensures var d := RootDirectory();
            && DirOk(d, 0) && LastAt(d, 0) == 10 && EntryEnd(d, 10) == 21
            && Entries(d, 0) == [Entry(0, [46]), Entry(0, [46, 46])]
  {
    hide RootDirectory, U32;
    RootDirectoryFields();
    var d := RootDirectory();
    assert EntryEnd(d, 10) == 21 && DirOk(d, 10);
    assert EntryEnd(d, 0) == 10;
    assert Entries(d, 10) == [Entry(0, [46, 46])];
  }

  // ----- A fresh image satisfies the checker -----

  lemma OnlyRoot(img: Image, n: nat, now: nat)
    requires Initialized(img, n, now)
    ensures InodeRefs(img, InodeAt(n, 0)) == [MetaBlocks(n)] && RootBlock(img, n) == MetaBlocks(n)
    ensures MetaBlocks(n) < n
  {
    hide MetaBlocks, InodeAt, InodeBytes, InodeRefs, RootDirectory, MapBit, Super, Unused;
    Regions(n);
    InodeStep(n);
    RefsOfInode(img, InodeAt(n, 0), 2, MODE_DIRECTORY, BLOCKSIZE, now, MetaBlocks(n));
    MetaPositive(n);
  }

  lemma InodeStep(n: nat)
    ensures InodeAt(n, 1) == InodeAt(n, 0) + INODE_SIZE
  {
  }

  lemma {:induction false} InitialAttached(img: Image, n: nat, now: nat, k: nat)
    requires Initialized(img, n, now) && k <= n
    ensures Attached(img, n, k) == if k == 0 then multiset{} else multiset{MetaBlocks(n)}
  {
    hide Initialized, MapBit, InodeRefs, MetaBlocks, InodeAt;
    if k > 0 {
      InitialAttached(img, n, now, k - 1);
      InitialBits(img, n, now, k - 1);
      if k == 1 { OnlyRoot(img, n, now); }
    }
  }

  lemma InitialBits(img: Image, n: nat, now: nat, k: nat)
    requires Initialized(img, n, now) && k < n
    ensures InodeBit(img, n, k) <==> k == 0
    ensures BlockBit(img, n, k) <==> k < Preallocated(n)
  {
    hide MapBit, RootInode, RootDirectory, Super, Unused, FreemapBlocks, InodeTableBlocks;
    Regions(n);
  }

  // A fresh image is one about which the checker has nothing to say, and it
  // holds an empty root directory.
  lemma InitializedSound(img: Image, n: nat, now: nat)
    requires Initialized(img, n, now)
    ensures Sound(img, n) && Silent(img, n)
    ensures RootEntries(img, n) == [Entry(0, [46]), Entry(0, [46, 46])]
  {
    hide Initialized, MetaBlocks, Attached, InodeBit, BlockBit, RootDirectory, DirOk, Silent, Entries;
    InitializedIs(img, n, now);
    OnlyRoot(img, n, now);
    InitialAttached(img, n, now, n);
    RootDirectoryEntries();
    InitialBits(img, n, now, 0);
    MetaPositive(n);
    forall b: nat | b < n ensures Uses(img, n, b) == if BlockBit(img, n, b) then 1 else 0 {
      InitialBits(img, n, now, b);
    }
    assert Consistent(img, n);
    SoundSilent(img, n);
  }

  // The magic number is there for check_super(), and the sizes are those in use.
  lemma SuperRead(img: Image, n: nat, now: nat)
    requires Initialized(img, n, now)
    ensures U32(img, 0) == 0xDEAD_BEEF && U32(img, 4) == 4096 && U32(img, 8) == n
    ensures U32(img, 12) == FreemapBlocks(n) && U32(img, 16) == FreemapBlocks(n) && U32(img, 20) == InodeTableBlocks(n)
  {
    hide WordsOf, U32, MapBit, RootInode, RootDirectory, Unused, InodeAt, MetaBlocks;
    var words := [MAGIC, BLOCKSIZE, n, FreemapBlocks(n), FreemapBlocks(n), InodeTableBlocks(n)];
    LayoutHolds(n);
    assert img[0..SUPER_SIZE] == WordsOf(words);
    forall i | 0 <= i < 6 ensures U32(img, 4 * i) == words[i] {
      WordsRead(words, i);
      SlotWord(img, 0, WordsOf(words), 4 * i);
    }
    assert U32(img, 4 * 0) == MAGIC && U32(img, 4 * 1) == BLOCKSIZE && U32(img, 4 * 2) == n;
    assert U32(img, 4 * 3) == words[3] && U32(img, 4 * 4) == words[4] && U32(img, 4 * 5) == words[5];
  }

  lemma InitializedIs(img: Image, n: nat, now: nat)
    requires Initialized(img, n, now)
    ensures WellSized(img, n) && Preallocated(n) * BLOCKSIZE <= |img| && BlockOf(img, MetaBlocks(n)) == RootDirectory()
  {
  }

  // ----- The files put on a fresh image -----

  // How full an image is: the first inodes and the first blocks are taken, and
  // the directory entries end at a byte offset.
  datatype Level = Level(inodes: nat, blocks: nat, end: nat)

  ghost predicate Filled(img: Image, n: nat, v: Level) {
    && v.inodes <= n && v.blocks <= n
    && (forall k: nat :: k < n ==> (InodeBit(img, n, k) <==> k < v.inodes))
    && (forall k: nat :: k < n ==> (BlockBit(img, n, k) <==> k < v.blocks))
    && HasRoot(img, n)
    && var d := BlockOf(img, RootBlock(img, n)); EntryEnd(d, LastAt(d, 0)) == v.end
  }

  function FreshLevel(n: nat): Level { Level(1, Preallocated(n), 21) }

  predicate Fits(n: nat, v: Level, q: Request) {
    && |q.name| < 128 && q.now < WORD_LIMIT
    && v.inodes < n && (q.size > 0 ==> v.blocks < n)
    && v.end + 9 + |q.name| <= BLOCKSIZE
  }

  function NextLevel(v: Level, q: Request): Level {
    Level(v.inodes + 1, v.blocks + (if q.size > 0 then 1 else 0), v.end + 9 + |q.name|)
  }

  // The first clear bit behind a full prefix.
  lemma PrefixClear(img: Image, at: nat, n: nat, limit: nat, k: nat)
    requires k <= n <= limit && forall j: nat :: j < n ==> (MapBit(img, at, j) <==> j < k)
    ensures k < n ==> FirstClear(img, at, 0, limit) == k
    ensures k == n ==> FirstClear(img, at, 0, limit) >= n
  {
    hide MapBit, FirstClear;
    if k < n { FirstClearIs(img, at, limit, k); } else { InsideIff(img, at, n, limit); }
  }

  lemma FilledNumbers(img: Image, n: nat, v: Level)
    requires n >= 5 && Filled(img, n, v)
    ensures if v.inodes < n then NewNumber(img, n) == v.inodes else NewNumber(img, n) >= n
    ensures if v.blocks < n then NewBlock(img, n) == v.blocks else NewBlock(img, n) >= n
  {
    hide MapBit, FirstClear, HasRoot, FreemapBlocks, InodeTableBlocks, LastAt;
    Regions(n);
    assert forall j: nat :: j < n ==> (MapBit(img, InodeMap(), j) <==> InodeBit(img, n, j));
    assert forall j: nat :: j < n ==> (MapBit(img, BlockMap(n), j) <==> BlockBit(img, n, j));
    PrefixClear(img, InodeMap(), n, MapBits(n), v.inodes);
    PrefixClear(img, BlockMap(n), n, MapBits(n), v.blocks);
  }

  // There is room for a file exactly when it fits.
  lemma RoomIffFits(img: Image, n: nat, v: Level, q: Request)
    requires n >= 5 && Filled(img, n, v)
    ensures Room(img, n, q) <==> Fits(n, v, q)
  {
    hide NewNumber, NewBlock, InodeBit, BlockBit, DirOk, LastAt, RootBlock;
    FilledNumbers(img, n, v);
  }

  lemma {:induction false} EndAfterAppend(d: seq<byte>, at: nat, inode: nat, name: seq<byte>)
    requires DirOk(d, at) && |d| <= BLOCKSIZE && |name| < 256 && inode < WORD_LIMIT
    requires EntryEnd(d, LastAt(d, at)) + 9 + |name| <= |d|
    ensures var r := Append(d, LastAt(d, at), inode, name);
            && DirOk(r, at) && LastAt(r, at) == EntryEnd(d, LastAt(d, at))
            && EntryEnd(r, LastAt(r, at)) == LastAt(r, at) + 9 + |name|
    decreases |d| - at
  {
    hide Append, U32, Entries;
    var last := LastAt(d, at);
    var r := Append(d, last, inode, name);
    AppendEntries(d, at, inode, name);
    AppendFrame(d, last, inode, name);
    AppendFields(d, last, inode, name);
    if U32(d, at) != 0 {
      EntryKept(d, r, at);
      EndAfterAppend(d, U32(d, at), inode, name);
    }
  }

  // Creating a file takes the next inode and, if it is not empty, the next block.
  lemma CreatedFilled(img: Image, n: nat, v: Level, q: Request)
    requires Ready(img, n, q) && Filled(img, n, v)
    ensures Filled(Created(img, n, q), n, NextLevel(v, q))
    ensures NewNumber(img, n) == v.inodes
  {
    hide Ready, Created, NewNumber, NewBlock, InodeBit, BlockBit, HasRoot, RootBlock, DirOk, LastAt, Room, Sound;
    ReadyIs(img, n, q);
    SoundSize(img, n);
    RoomIffFits(img, n, v, q);
    FilledNumbers(img, n, v);
    CreatedEnd(img, n, q);
    var r := Created(img, n, q);
    forall k: nat | k < n
      ensures InodeBit(r, n, k) <==> k < v.inodes + 1
      ensures BlockBit(r, n, k) <==> k < NextLevel(v, q).blocks
    {
      CreatedInodeBit(img, n, q, k);
      CreatedBlockBit(img, n, q, k);
    }
  }

  lemma CreatedEnd(img: Image, n: nat, q: Request)
    requires Ready(img, n, q)
    ensures HasRoot(img, n) && HasRoot(Created(img, n, q), n)
    ensures var d := BlockOf(img, RootBlock(img, n));
            var d' := BlockOf(Created(img, n, q), RootBlock(Created(img, n, q), n));
            EntryEnd(d', LastAt(d', 0)) == EntryEnd(d, LastAt(d, 0)) + 9 + |q.name|
  {
    hide SetBit, BitSet, FreemapBlocks, InodeTableBlocks, NewBlock, NewNumber, Created, U32, Consistent, InRange,
         Append, DirOk, LastAt, Entries, MetaBlocks, InodeBit, InodeAt;
    CreatedRegions(img, n, q);
    CreatedDirectory(img, n, q);
    var r, p := Created(img, n, q), RootBlock(img, n);
    forall k | 0 <= k < BLOCKSIZE ensures r[p * BLOCKSIZE + k] == NewDirectory(img, n, q)[k] {
      CreatedBytes(img, n, q, p * BLOCKSIZE + k);
    }
    assert BlockOf(r, p) == NewDirectory(img, n, q);
    EndAfterAppend(BlockOf(img, p), 0, NewNumber(img, n), q.name);
  }

  // Requests of more than 4096 bytes take nothing.
  predicate AllFit(n: nat, v: Level, qs: seq<Request>)
    decreases |qs|
  {
    qs != [] ==>
      if qs[0].size > MAX_SIZE then AllFit(n, v, qs[1..])
      else Fits(n, v, qs[0]) && AllFit(n, NextLevel(v, qs[0]), qs[1..])
  }

  // Number of files made, of those that are not empty, and of bytes in their entries.
  function Files(qs: seq<Request>): nat {
    if qs == [] then 0 else (if qs[0].size <= 4096 then 1 else 0) + Files(qs[1..])
  }

  function NonEmpty(qs: seq<Request>): nat {
    if qs == [] then 0 else (if 0 < qs[0].size <= 4096 then 1 else 0) + NonEmpty(qs[1..])
  }

  function EntryBytes(qs: seq<Request>): nat {
    if qs == [] then 0 else (if qs[0].size <= 4096 then 9 + |qs[0].name| else 0) + EntryBytes(qs[1..])
  }

  // Files fit exactly when their totals do.
  lemma {:induction false} AllFitCounts(n: nat, v: Level, qs: seq<Request>)
    ensures AllFit(n, v, qs) <==>
            && (forall q :: q in qs && q.size <= 4096 ==> |q.name| < 128 && q.now < 0x1_0000_0000)
            && (Files(qs) > 0 ==> v.inodes + Files(qs) <= n && v.end + EntryBytes(qs) <= 4096)
            && (NonEmpty(qs) > 0 ==> v.blocks + NonEmpty(qs) <= n)
    decreases |qs|
  {
    if qs != [] {
      var q, rest := qs[0], qs[1..];
      assert qs == [q] + rest;
      FilesCounted(rest);
      AllFitCounts(n, if q.size > 4096 then v else NextLevel(v, q), rest);
    }
  }

  lemma {:induction false} FilesCounted(qs: seq<Request>)
    ensures Files(qs) == 0 ==> NonEmpty(qs) == 0 && EntryBytes(qs) == 0
    ensures NonEmpty(qs) <= Files(qs)
  {
    if qs != [] { FilesCounted(qs[1..]); }
  }

  // On a fresh partition one inode, the metadata, one block and 21 bytes of the root
  // directory are taken.
  lemma FreshFit(n: nat, qs: seq<Request>)
    ensures AllFit(n, FreshLevel(n), qs) <==>
            && (forall q :: q in qs && q.size <= 4096 ==> |q.name| < 128 && q.now < 0x1_0000_0000)
            && (Files(qs) > 0 ==> 1 + Files(qs) <= n && 21 + EntryBytes(qs) <= 4096)
            && (NonEmpty(qs) > 0 ==>
                  2 + 2 * ((n + 32767) / 32768) + (n + 63) / 64 + NonEmpty(qs) <= n)
  {
    hide AllFit, MetaBlocks, Files, NonEmpty, EntryBytes;
    MetaCount(n);
    AllFitCounts(n, FreshLevel(n), qs);
  }

  lemma MetaCount(n: nat)
    ensures MetaBlocks(n) == 1 + 2 * ((n + 32767) / 32768) + (n + 63) / 64
  {
    LayoutHolds(n);
  }

  // The directory entries of the files made.
  function Listed(qs: seq<Request>, next: nat): seq<Entry>
    decreases |qs|
  {
    if qs == [] then []
    else if qs[0].size > MAX_SIZE then Listed(qs[1..], next)
    else [Entry(next, qs[0].name)] + Listed(qs[1..], next + 1)
  }

  // There is room for a run of create_file exactly when its files fit.
  lemma {:induction false} AllRoomIff(img: Image, n: nat, v: Level, qs: seq<Request>)
    requires WellSized(img, n) && Sound(img, n) && Filled(img, n, v)
    ensures AllRoom(img, n, qs) <==> AllFit(n, v, qs)
    decreases |qs|
  {
    hide Sound, Filled, Created, Room, Fits, WellSized;
    if qs != [] {
      var q := qs[0];
      WellSizedIs(img, n);
      RoomIffFits(img, n, v, q);
      if q.size > MAX_SIZE {
        AllRoomIff(img, n, v, qs[1..]);
      } else if Fits(n, v, q) {
        CreateKeepsSound(img, n, q);
        CreatedFilled(img, n, v, q);
        SameLengthSized(img, Created(img, n, q), n);
        AllRoomIff(Created(img, n, q), n, NextLevel(v, q), qs[1..]);
      }
    }
  }

  lemma WellSizedIs(img: Image, n: nat)
    requires WellSized(img, n)
    ensures n >= 5
  {
  }

  // The run gives the files consecutive inode numbers, in order.
  lemma {:induction false} CreatedAllEntries(img: Image, n: nat, v: Level, qs: seq<Request>)
    requires WellSized(img, n) && Sound(img, n) && Filled(img, n, v) && AllRoom(img, n, qs)
    ensures HasRoot(img, n) && HasRoot(CreatedAll(img, n, qs), n)
    ensures RootEntries(CreatedAll(img, n, qs), n) == RootEntries(img, n) + Listed(qs, v.inodes)
    decreases |qs|
  {
    hide Sound, Filled, Created, Room, WellSized, HasRoot, RootEntries, NewNumber;
    FilledRoot(img, n, v);
    if qs != [] {
      var q := qs[0];
      if q.size > MAX_SIZE {
        CreatedAllEntries(img, n, v, qs[1..]);
      } else {
        CreateKeepsSound(img, n, q);
        CreatedFilled(img, n, v, q);
        SameLengthSized(img, Created(img, n, q), n);
        CreatedAllEntries(Created(img, n, q), n, NextLevel(v, q), qs[1..]);
      }
    }
  }

  lemma FilledRoot(img: Image, n: nat, v: Level)
    requires Filled(img, n, v)
    ensures HasRoot(img, n)
  {
  }

  lemma InitializedFilled(img: Image, n: nat, now: nat)
    requires Initialized(img, n, now)
    ensures Filled(img, n, FreshLevel(n))
  {
    hide Initialized, InodeBit, BlockBit, MetaBlocks, RootDirectory, DirOk, LastAt, Entries, Consistent, InRange,
         Silent;
    InitializedIs(img, n, now);
    OnlyRoot(img, n, now);
    RootDirectoryEntries();
    InitializedSound(img, n, now);
    forall k: nat | k < n
      ensures InodeBit(img, n, k) <==> k < 1
      ensures BlockBit(img, n, k) <==> k < Preallocated(n)
    {
      InitialBits(img, n, now, k);
    }
  }

  // initialize and any number of create_file that fit: the checker stays silent,
  // and the directory lists ".", ".." and the files, numbered from 1 on.
  lemma InitializedRuns(img: Image, n: nat, now: nat, qs: seq<Request>)
    requires Initialized(img, n, now) && AllFit(n, FreshLevel(n), qs)
    ensures WellSized(img, n) && AllRoom(img, n, qs)
    ensures Sound(CreatedAll(img, n, qs), n) && Silent(CreatedAll(img, n, qs), n)
    ensures RootEntries(CreatedAll(img, n, qs), n) == [Entry(0, [46]), Entry(0, [46, 46])] + Listed(qs, 1)
  {
    hide Initialized, Filled, Silent, Created, RootEntries, Consistent, InRange, HasRoot;
    InitializedIs(img, n, now);
    InitializedSound(img, n, now);
    InitializedFilled(img, n, now);
    AllRoomIff(img, n, FreshLevel(n), qs);
    CreateAllKeepsSound(img, n, qs);
    CreatedAllEntries(img, n, FreshLevel(n), qs);
  }
}
