// create_file: what it does to an image, and that it keeps the image one the
// checker accepts.
module GfsCreate {
  import opened Bytes
  import opened GfsImage
  import opened GfsCounting
  import opened GfsBitmap
  import opened GfsDirectory

  const MODE_FILE := 33261   // S_IFREG|S_IRWXU|S_IRGRP|S_IXGRP|S_IROTH|S_IXOTH
  const MAX_SIZE := 4096

  datatype Request = Request(name: seq<byte>, size: nat, now: nat)

  function InodeMap(): nat { BLOCKSIZE }

  function BlockMap(n: nat): nat { (1 + FreemapBlocks(n)) * BLOCKSIZE }

  // Number of bits in each of the maps.
  function MapBits(n: nat): nat { FreemapBlocks(n) * BITS_PER_BLOCK }

  // First block of the root directory, as inode 0 gives it.
  function RootBlock(img: Image, n: nat): nat { U32(img, InodeAt(n, 0) + DIRECT) }

  function BlockOf(img: Image, b: nat): seq<byte>
    requires (b + 1) * BLOCKSIZE <= |img|
  {
    img[b * BLOCKSIZE..(b + 1) * BLOCKSIZE]
  }

  // The words of an inode with one direct block, or none.
  function InodeFields(links: nat, mode: nat, size: nat, now: nat, block: nat): (r: seq<nat>)
    ensures |r| == 16
  {
    [links, 0, 0, mode, size, now, now, now, block, 0, 0, 0, 0, 0, 0, 0]
  }

  function InodeBytes(links: nat, mode: nat, size: nat, now: nat, block: nat): (r: seq<byte>)
    ensures |r| == INODE_SIZE
  {
    WordsOf(InodeFields(links, mode, size, now, block))
  }

  // The inode of a new file.
  function NewInode(size: nat, now: nat, block: nat): (r: seq<byte>)
    ensures |r| == INODE_SIZE
  {
    InodeBytes(1, MODE_FILE, size, now, block)
  }

  // 'A' to 'Z' over and over, then zeros.
  function Letters(size: nat): (r: seq<byte>)
    requires size <= BLOCKSIZE
    ensures |r| == BLOCKSIZE
  {
    seq(BLOCKSIZE, i requires 0 <= i < BLOCKSIZE => if i < size then 65 + i % 26 else 0)
  }

  // The inode and the block a request is given.
  function NewNumber(img: Image, n: nat): nat { FirstClear(img, InodeMap(), 0, MapBits(n)) }

  function NewBlock(img: Image, n: nat): nat { FirstClear(img, BlockMap(n), 0, MapBits(n)) }

  // What the code takes for granted: a clear inode bit and, for a non-empty
  // file, a clear block bit of the partition; room behind the last entry.
  predicate Room(img: Image, n: nat, q: Request) {
    && |q.name| < 128 && q.now < WORD_LIMIT
    && NewNumber(img, n) < n
    && (q.size > 0 ==> NewBlock(img, n) < n)
    && RootBlock(img, n) < n && (RootBlock(img, n) + 1) * BLOCKSIZE <= |img|
    && var d := BlockOf(img, RootBlock(img, n));
       DirOk(d, 0) && EntryEnd(d, LastAt(d, 0)) + 9 + |q.name| <= BLOCKSIZE
  }

  // The next numbers lie inside the partition exactly when bits below its end
  // are clear.
  lemma NumbersInside(img: Image, n: nat)
    ensures NewNumber(img, n) < n <==> exists i :: 0 <= i < n && !MapBit(img, InodeMap(), i)
    ensures NewBlock(img, n) < n <==> exists b :: 0 <= b < n && !MapBit(img, BlockMap(n), b)
  {
    hide MapBit, FreemapBlocks, FirstClear;
    LayoutHolds(n);
    InsideIff(img, InodeMap(), n, MapBits(n));
    InsideIff(img, BlockMap(n), n, MapBits(n));
  }

  // The maps have bits behind the end of the partition exactly when its size is
  // no multiple of the number of bits in a block.
  lemma MapsLonger(n: nat)
    ensures n <= MapBits(n)
    ensures n < MapBits(n) <==> n % BITS_PER_BLOCK != 0
  {
    LayoutHolds(n);
  }

  // When all bits of the partition are set, the next number is one behind its
  // end if the map has such a bit and it is clear, and there is none otherwise.
  lemma FullMap(img: Image, at: nat, n: nat)
    requires forall k :: 0 <= k < n ==> MapBit(img, at, k)
    ensures n <= MapBits(n)
    ensures var k := FirstClear(img, at, 0, MapBits(n));
            && n <= k <= MapBits(n)
            && (k < MapBits(n) <==> exists i :: n <= i < MapBits(n) && !MapBit(img, at, i))
            && (n % BITS_PER_BLOCK == 0 ==> k == MapBits(n) == n)
            && (n % BITS_PER_BLOCK != 0 && !MapBit(img, at, n) ==> k == n < MapBits(n))
  {
    hide MapBit, FirstClear, FreemapBlocks;
    MapsLonger(n);
    InsideIff(img, at, n, MapBits(n));
    InsideIff(img, at, MapBits(n), MapBits(n));
  }

  // Both happen: a full partition of five blocks, for which the allocators
  // return 5, and one of 32768 blocks, for which they find no bit.
  lemma FullMaps() returns (small: Image, large: Image)
    ensures WellSized(small, 5) && NewNumber(small, 5) == 5 < MapBits(5)
    ensures WellSized(large, 32768) && NewNumber(large, 32768) == 32768 == MapBits(32768)
  {
    hide MapBit, FirstClear, FreemapBlocks;
    small := seq(5 * BLOCKSIZE, k => if k == BLOCKSIZE then 31 else 0);
    large := seq(32768 * BLOCKSIZE, k => if BLOCKSIZE <= k < 2 * BLOCKSIZE then 255 else 0);
    forall k | 0 <= k <= 5 ensures MapBit(small, InodeMap(), k) <==> k < 5 { FullBits(small, k); }
    forall k | 0 <= k < 32768 ensures MapBit(large, InodeMap(), k) { FullBits(large, k); }
    FullMap(small, InodeMap(), 5);
    FullMap(large, InodeMap(), 32768);
  }

  lemma FullBits(img: Image, k: nat)
    requires InodeMap() + k / 8 < |img|
    ensures img[InodeMap() + k / 8] == 31 && k < 8 ==> (MapBit(img, InodeMap(), k) <==> k < 5)
    ensures img[InodeMap() + k / 8] == 255 ==> MapBit(img, InodeMap(), k)
  {
    assert BitSet(1, 0) && BitSet(3, 1) && BitSet(7, 2) && BitSet(15, 3) && BitSet(31, 4);
    assert !BitSet(0, 0) && !BitSet(0, 1) && !BitSet(0, 2);
    assert BitSet(63, 5) && BitSet(127, 6) && BitSet(255, 7);
    assert BitSet(15, 0) && BitSet(7, 0) && BitSet(31, 0);
  }

  lemma NumbersWereFree(img: Image, n: nat, q: Request)
    requires n >= 5 && Room(img, n, q)
    ensures NewNumber(img, n) < n && !MapBit(img, InodeMap(), NewNumber(img, n))
    ensures q.size > 0 ==> NewBlock(img, n) < n && !MapBit(img, BlockMap(n), NewBlock(img, n))
  {
    hide MapBit, FreemapBlocks, FirstClear, DirOk, InodeTableBlocks;
    Regions(n);
  }

  // Byte offsets of the pieces of a partition.
  lemma Regions(n: nat)
    requires n >= 5
    ensures InodeMap() + MapBits(n) / 8 == BlockMap(n)
    ensures BlockMap(n) + MapBits(n) / 8 == InodeAt(n, 0)
    ensures forall i: nat :: i < n ==> InodeAt(n, i) + INODE_SIZE <= MetaBlocks(n) * BLOCKSIZE
    ensures MetaBlocks(n) < n <= MapBits(n)
  {
    LayoutHolds(n);
    LayoutFits(n);
    forall i: nat | i < n ensures InodeAt(n, i) + INODE_SIZE <= MetaBlocks(n) * BLOCKSIZE { InodeAddresses(n, i); }
  }

  // The steps of create_file, in order.
  function WithInode(img: Image, n: nat): (r: Image)
    requires WellSized(img, n) && NewNumber(img, n) < MapBits(n)
    ensures |r| == |img|
  {
    Regions(n);
    Mark(img, InodeMap(), NewNumber(img, n))
  }

  function WithEntry(img: Image, n: nat, q: Request): (r: Image)
    requires WellSized(img, n) && Room(img, n, q)
    ensures |r| == |img|
  {
    var p := RootBlock(img, n);
    var d := BlockOf(img, p);
    Regions(n);
    Patch(WithInode(img, n), p * BLOCKSIZE, Append(d, LastAt(d, 0), NewNumber(img, n), q.name))
  }

  function WithBlock(img: Image, n: nat, q: Request): (r: (Image, nat))
    requires WellSized(img, n) && Room(img, n, q)
    ensures |r.0| == |img|
  {
    var e := WithEntry(img, n, q);
    var b := NewBlock(e, n);
    if q.size > 0 && b < n then Regions(n); (Mark(e, BlockMap(n), b), b) else (e, 0)
  }

  // The second search finds a bit of the partition. (On an image without a
  // directory in the data blocks, the new entry may have changed the map.)
  predicate BlockLeft(img: Image, n: nat, q: Request)
    requires WellSized(img, n) && Room(img, n, q)
  {
    q.size > 0 ==> NewBlock(WithEntry(img, n, q), n) < n
  }

  function Created(img: Image, n: nat, q: Request): (r: Image)
    requires WellSized(img, n) && Room(img, n, q) && q.size <= MAX_SIZE
    ensures |r| == |img|
  {
    Regions(n);
    var (a, b) := WithBlock(img, n, q);
    var c := Patch(a, InodeAt(n, NewNumber(img, n)), NewInode(q.size, q.now, b));
    if q.size > 0 && b < n then Patch(c, b * BLOCKSIZE, Letters(q.size)) else c
  }

  // ----- An image the checker accepts, ready for a request -----

  // Inode 0 is allocated and has a first block, which holds a directory.
  ghost predicate HasRoot(img: Image, n: nat) {
    && InodeBit(img, n, 0)
    && RootBlock(img, n) != 0
    && RootBlock(img, n) < n && (RootBlock(img, n) + 1) * BLOCKSIZE <= |img|
    && DirOk(BlockOf(img, RootBlock(img, n)), 0)
  }

  // The checker is silent, and there is a root directory.
  ghost predicate Sound(img: Image, n: nat) {
    WellSized(img, n) && InRange(img, n) && Consistent(img, n) && HasRoot(img, n)
  }

  ghost predicate Ready(img: Image, n: nat, q: Request) {
    Sound(img, n) && Room(img, n, q) && q.size <= MAX_SIZE
  }

  lemma AttachedAtMostOnce(img: Image, n: nat, b: nat)
    requires Consistent(img, n) && b < n
    ensures Attached(img, n, n)[b] <= 1
    ensures b < MetaBlocks(n) || !BlockBit(img, n, b) ==> Attached(img, n, n)[b] == 0
    ensures !BlockBit(img, n, b) ==> MetaBlocks(n) <= b
  {
    hide BlockBit, Attached;
    assert Uses(img, n, b) == if BlockBit(img, n, b) then 1 else 0;
  }

  lemma RootInRefs(img: Image, at: nat)
    requires U32(img, at + DIRECT) != 0
    ensures U32(img, at + DIRECT) in NonZero(img, at + DIRECT, 4)
  {
    NonZeroHas(img, at + DIRECT, 4, 0);
  }

  // The root block is a data block, attached to inode 0 and to nothing else.
  lemma RootIsData(img: Image, n: nat)
    requires Sound(img, n)
    ensures MetaBlocks(n) <= RootBlock(img, n) < n
    ensures Attached(img, n, n)[RootBlock(img, n)] == 1
    ensures RootBlock(img, n) in NonZero(img, InodeAt(n, 0) + DIRECT, 4)
  {
    hide Consistent, InRange, BlockBit, InodeBit, Attached, NonZero, FirstRefs, SecondRefs, U32, MetaBlocks, InodeAt,
         DirOk;
    var p, at := RootBlock(img, n), InodeAt(n, 0);
    RootInRefs(img, at);
    assert p in InodeRefs(img, at);
    AttachedHas(img, n, n, 0);
    assert p in multiset(InodeRefs(img, at));
    assert p in Attached(img, n, n);
    AttachedAtMostOnce(img, n, p);
  }

  lemma MapBitSame(img: Image, img': Image, at: nat, k: nat)
    requires |img| == |img'| && (at + k / 8 < |img| ==> img[at + k / 8] == img'[at + k / 8])
    ensures MapBit(img, at, k) == MapBit(img', at, k)
  {
    hide BitSet;
  }

  lemma FirstClearSame(img: Image, img': Image, at: nat, n: nat)
    requires forall j :: 0 <= j < n ==> MapBit(img, at, j) == MapBit(img', at, j)
    ensures FirstClear(img, at, 0, n) == FirstClear(img', at, 0, n)
  {
    hide MapBit, FirstClear;
    FirstClearIs(img', at, n, FirstClear(img, at, 0, n));
  }

  // Up to the allocation of the block, the block map is untouched.
  lemma EntryKeepsBlockMap(img: Image, n: nat, q: Request, k: nat)
    requires Ready(img, n, q) && BlockMap(n) <= k < InodeAt(n, 0)
    ensures WithEntry(img, n, q)[k] == img[k]
  {
    hide Consistent, InRange, HasRoot, Room, FreemapBlocks, Append, SetBit, FirstClear, MapBit, BitSet, NewNumber,
         MetaBlocks;
    Regions(n);
    NumbersWereFree(img, n, q);
    RootIsData(img, n);
  }

  lemma NewBlockIs(img: Image, n: nat, q: Request)
    requires Ready(img, n, q)
    ensures NewBlock(WithEntry(img, n, q), n) == NewBlock(img, n)
    ensures q.size > 0 ==>
              var b := NewBlock(img, n);
              && WithBlock(img, n, q).1 == b && MetaBlocks(n) <= b < n
              && Attached(img, n, n)[b] == 0 && b != RootBlock(img, n)
  {
    hide Consistent, InRange, HasRoot, Append, SetBit, WithEntry, MapBit, FirstClear, Attached, FreemapBlocks,
         MetaBlocks, InodeAt;
    Regions(n);
    var e := WithEntry(img, n, q);
    forall j | 0 <= j < MapBits(n) ensures MapBit(img, BlockMap(n), j) == MapBit(e, BlockMap(n), j) {
      if BlockMap(n) + j / 8 < |img| { EntryKeepsBlockMap(img, n, q, BlockMap(n) + j / 8); }
      MapBitSame(img, e, BlockMap(n), j);
    }
    FirstClearSame(img, e, BlockMap(n), MapBits(n));
    NumbersWereFree(img, n, q);
    RootIsData(img, n);
    if q.size > 0 { AttachedAtMostOnce(img, n, NewBlock(img, n)); }
  }

  lemma SoundBlockLeft(img: Image, n: nat, q: Request)
    requires Ready(img, n, q)
    ensures BlockLeft(img, n, q)
  {
    hide Ready, WithEntry, NewBlock, MetaBlocks, Attached, Room, Sound;
    ReadyIs(img, n, q);
    NewBlockIs(img, n, q);
  }

  // The image of the specification, once the block has been found.
  lemma CreatedSteps(img: Image, n: nat, q: Request)
    requires WellSized(img, n) && Room(img, n, q) && q.size <= MAX_SIZE && BlockLeft(img, n, q)
    ensures var e := WithEntry(img, n, q); var b := NewBlock(e, n); var slot := InodeAt(n, NewNumber(img, n));
            && NewNumber(img, n) < n <= MapBits(n) && slot + INODE_SIZE <= |img|
            && if q.size > 0 then
                 && b < n && BlockMap(n) + b / 8 < |img| && b * BLOCKSIZE + BLOCKSIZE <= |img|
                 && Created(img, n, q) ==
                    Patch(Patch(Mark(e, BlockMap(n), b), slot, NewInode(q.size, q.now, b)), b * BLOCKSIZE,
                          Letters(q.size))
               else
                 Created(img, n, q) == Patch(e, slot, NewInode(0, q.now, 0))
  {
    hide FreemapBlocks, InodeTableBlocks, FirstClear, WithEntry, NewInode, Letters, Patch, Mark, DirOk;
    Regions(n);
  }

  // ----- The new image, byte by byte -----

  function NewSlot(img: Image, n: nat): nat { InodeAt(n, NewNumber(img, n)) }

  function NewDirectory(img: Image, n: nat, q: Request): (r: seq<byte>)
    requires WellSized(img, n) && Room(img, n, q)
    ensures |r| == BLOCKSIZE
  {
    var d := BlockOf(img, RootBlock(img, n));
    Append(d, LastAt(d, 0), NewNumber(img, n), q.name)
  }

  // The image as a pile of changes to the one with the inode bit set.
  lemma CreatedIs(img: Image, n: nat, q: Request)
    requires Ready(img, n, q)
    ensures RootBlock(img, n) * BLOCKSIZE + BLOCKSIZE <= |img| && NewSlot(img, n) + INODE_SIZE <= |img|
    ensures q.size > 0 ==>
              BlockMap(n) + NewBlock(img, n) / 8 < |img| && NewBlock(img, n) * BLOCKSIZE + BLOCKSIZE <= |img|
    ensures var e := Patch(WithInode(img, n), RootBlock(img, n) * BLOCKSIZE, NewDirectory(img, n, q));
            Created(img, n, q) ==
              if q.size > 0 then
                Patch(Patch(Mark(e, BlockMap(n), NewBlock(img, n)), NewSlot(img, n),
                            NewInode(q.size, q.now, NewBlock(img, n))),
                      NewBlock(img, n) * BLOCKSIZE, Letters(q.size))
              else
                Patch(e, NewSlot(img, n), NewInode(0, q.now, 0))
  {
    hide Consistent, InRange, HasRoot, Append, Mark, MapBit, FirstClear, FreemapBlocks, InodeTableBlocks, NewInode,
         Letters, Patch, NewBlock, NewNumber;
    Regions(n);
    NewBlockIs(img, n, q);
  }

  // What each layer of the pile leaves visible.
  lemma Layers(w: Image, dirAt: nat, dir: seq<byte>, markAt: nat, mark: byte, slot: nat, inode: seq<byte>,
               dataAt: nat, data: seq<byte>, table: nat, end: nat, k: nat)
    requires markAt < table <= slot && slot + |inode| <= end <= dirAt && end <= dataAt
    requires dirAt + |dir| <= |w| && dataAt + |data| <= |w| && k < |w|
    requires dirAt + |dir| <= dataAt || dataAt + |data| <= dirAt
    ensures var e := Patch(w, dirAt, dir);
            var r := Patch(Patch(e[markAt := mark], slot, inode), dataAt, data);
            r[k] == if k == markAt then mark else if slot <= k < slot + |inode| then inode[k - slot]
                    else if dirAt <= k < dirAt + |dir| then dir[k - dirAt]
                    else if dataAt <= k < dataAt + |data| then data[k - dataAt] else w[k]
    ensures var r := Patch(Patch(w, dirAt, dir), slot, inode);
            r[k] == if slot <= k < slot + |inode| then inode[k - slot]
                    else if dirAt <= k < dirAt + |dir| then dir[k - dirAt] else w[k]
  {
  }

  ghost predicate InBlock(k: nat, b: nat) { b * BLOCKSIZE <= k < b * BLOCKSIZE + BLOCKSIZE }

  // Byte k of the new image.
  ghost function CreatedAt(img: Image, n: nat, q: Request, k: nat): byte
    requires Ready(img, n, q) && k < |img|
  {
    var p, slot, b := RootBlock(img, n), NewSlot(img, n), NewBlock(img, n);
    if q.size > 0 && k == BlockMap(n) + b / 8 then SetBit(img[k], b % 8)
    else if slot <= k < slot + INODE_SIZE then NewInode(q.size, q.now, if q.size > 0 then b else 0)[k - slot]
    else if InBlock(k, p) then NewDirectory(img, n, q)[k - p * BLOCKSIZE]
    else if q.size > 0 && InBlock(k, b) then Letters(q.size)[k - b * BLOCKSIZE]
    else if k == InodeMap() + NewNumber(img, n) / 8 then SetBit(img[k], NewNumber(img, n) % 8)
    else img[k]
  }

  // Where the changed pieces lie.
  lemma CreatedRegions(img: Image, n: nat, q: Request)
    requires Ready(img, n, q)
    ensures NewNumber(img, n) < n && InodeMap() + NewNumber(img, n) / 8 < BlockMap(n) < InodeAt(n, 0) <= NewSlot(img, n)
    ensures NewSlot(img, n) + INODE_SIZE <= MetaBlocks(n) * BLOCKSIZE <= RootBlock(img, n) * BLOCKSIZE
    ensures RootBlock(img, n) * BLOCKSIZE + BLOCKSIZE <= |img|
    ensures q.size > 0 ==>
              && BlockMap(n) + NewBlock(img, n) / 8 < InodeAt(n, 0)
              && MetaBlocks(n) <= NewBlock(img, n) < n && NewBlock(img, n) != RootBlock(img, n)
              && NewBlock(img, n) * BLOCKSIZE + BLOCKSIZE <= |img|
  {
    hide Consistent, InRange, HasRoot, MapBit, FirstClear, FreemapBlocks, InodeTableBlocks, NewBlock, NewNumber,
         Attached, Room, MetaBlocks;
    Regions(n);
    NumbersWereFree(img, n, q);
    NewBlockIs(img, n, q);
    RootIsData(img, n);
  }

  lemma CreatedBytes(img: Image, n: nat, q: Request, k: nat)
    requires Ready(img, n, q) && k < |img|
    ensures Created(img, n, q)[k] == CreatedAt(img, n, q, k)
  {
    hide Ready, SetBit, FreemapBlocks, InodeTableBlocks, NewBlock, NewNumber, InodeAt, MetaBlocks, NewDirectory,
         NewInode, Letters, Created, Patch, RootBlock, Room;
    ReadyIs(img, n, q);
    CreatedRegions(img, n, q);
    CreatedIs(img, n, q);
    var w, b := WithInode(img, n), NewBlock(img, n);
    var dirAt := RootBlock(img, n) * BLOCKSIZE;
    if q.size > 0 {
      var markAt := BlockMap(n) + b / 8;
      assert Patch(w, dirAt, NewDirectory(img, n, q))[markAt] == img[markAt];
      Layers(w, dirAt, NewDirectory(img, n, q), markAt, SetBit(img[markAt], b % 8), NewSlot(img, n),
             NewInode(q.size, q.now, b), b * BLOCKSIZE, Letters(q.size), InodeAt(n, 0), MetaBlocks(n) * BLOCKSIZE, k);
    } else {
      Layers(w, dirAt, NewDirectory(img, n, q), 0, 0, NewSlot(img, n),
             NewInode(0, q.now, 0), MetaBlocks(n) * BLOCKSIZE, [], InodeAt(n, 0), MetaBlocks(n) * BLOCKSIZE, k);
    }
  }

  lemma ReadyIs(img: Image, n: nat, q: Request)
    requires Ready(img, n, q)
    ensures Sound(img, n) && WellSized(img, n) && Room(img, n, q) && NewNumber(img, n) < n && q.size <= MAX_SIZE
  {
  }

  // ----- Bits -----

  lemma CreatedInodeBit(img: Image, n: nat, q: Request, i: nat)
    requires Ready(img, n, q) && i < n
    ensures InodeBit(Created(img, n, q), n, i) <==> i == NewNumber(img, n) || InodeBit(img, n, i)
  {
    hide Ready, SetBit, BitSet, FreemapBlocks, InodeTableBlocks, NewNumber, InodeAt, MetaBlocks, Created, RootBlock,
         Room, MapBit;
    ReadyIs(img, n, q);
    CreatedRegions(img, n, q);
    Regions(n);
    var at := InodeMap() + i / 8;
    CreatedBytes(img, n, q, at);
    MapBitSame(Created(img, n, q), Mark(img, InodeMap(), NewNumber(img, n)), InodeMap(), i);
    MarkOnly(img, InodeMap(), NewNumber(img, n), i);
  }

  lemma CreatedBlockBit(img: Image, n: nat, q: Request, b: nat)
    requires Ready(img, n, q) && b < n
    ensures BlockBit(Created(img, n, q), n, b) <==> (q.size > 0 && b == NewBlock(img, n)) || BlockBit(img, n, b)
  {
    hide Ready, SetBit, BitSet, FreemapBlocks, InodeTableBlocks, NewBlock, NewNumber, InodeAt, MetaBlocks, Created,
         RootBlock, Room, MapBit;
    ReadyIs(img, n, q);
    CreatedRegions(img, n, q);
    Regions(n);
    var at := BlockMap(n) + b / 8;
    CreatedBytes(img, n, q, at);
    if q.size > 0 {
      MapBitSame(Created(img, n, q), Mark(img, BlockMap(n), NewBlock(img, n)), BlockMap(n), b);
      MarkOnly(img, BlockMap(n), NewBlock(img, n), b);
    } else {
      MapBitSame(Created(img, n, q), img, BlockMap(n), b);
    }
  }

  // ----- References of the old inodes -----

  ghost predicate SameBlock(img: Image, img': Image, b: nat) {
    |img| == |img'| && b * BLOCKSIZE + BLOCKSIZE <= |img| && forall k: nat :: InBlock(k, b) ==> img[k] == img'[k]
  }

  lemma SameBlockNumbers(img: Image, img': Image, b: nat)
    requires SameBlock(img, img', b)
    ensures Numbers(img, b * BLOCKSIZE, WORDS_PER_BLOCK) == Numbers(img', b * BLOCKSIZE, WORDS_PER_BLOCK)
    ensures FirstRefs(img, b) == FirstRefs(img', b)
  {
    hide Numbers;
    var at := b * BLOCKSIZE;
    assert forall k :: at <= k < at + BLOCKSIZE ==> InBlock(k, b);
    assert img[at..at + BLOCKSIZE] == img'[at..at + BLOCKSIZE];
    NumbersSame(img, img', at, at, WORDS_PER_BLOCK);
  }

  lemma {:induction false} SameFirstRefsOf(img: Image, img': Image, bs: seq<nat>)
    requires forall i :: 0 <= i < |bs| ==> SameBlock(img, img', bs[i])
    ensures FirstRefsOf(img, bs) == FirstRefsOf(img', bs)
  {
    hide FirstRefs, SameBlock;
    if bs != [] {
      var m := |bs| - 1;
      SameFirstRefsOf(img, img', bs[..m]);
      SameBlockNumbers(img, img', bs[m]);
    }
  }

  // The indirection blocks an inode reaches: every block whose contents matter.
  ghost predicate Reaches(img: Image, at: nat, b: nat) {
    || (U32(img, at + FIRST_INDIRECT) != 0 && b == U32(img, at + FIRST_INDIRECT))
    || (U32(img, at + SECOND_INDIRECT) != 0 && b == U32(img, at + SECOND_INDIRECT))
    || (U32(img, at + SECOND_INDIRECT) != 0
        && b in Numbers(img, U32(img, at + SECOND_INDIRECT) * BLOCKSIZE, WORDS_PER_BLOCK))
  }

  lemma SameInodeRefs(img: Image, img': Image, at: nat)
    requires |img| == |img'| && forall k :: at <= k < at + INODE_SIZE && k < |img| ==> img[k] == img'[k]
    requires forall b :: Reaches(img, at, b) ==> SameBlock(img, img', b)
    ensures InodeRefs(img, at) == InodeRefs(img', at)
  {
    hide NonZero, FirstRefs, FirstRefsOf, Numbers, U32, SameBlock;
    forall j | 0 <= j < 4 ensures U32(img, at + DIRECT + 4 * j) == U32(img', at + DIRECT + 4 * j) {
      WordKept(img, img', at + DIRECT + 4 * j);
    }
    WordKept(img, img', at + FIRST_INDIRECT);
    WordKept(img, img', at + SECOND_INDIRECT);
    NonZeroSame(img, img', at + DIRECT, at + DIRECT, 4);
    var first, second := U32(img, at + FIRST_INDIRECT), U32(img, at + SECOND_INDIRECT);
    if first != 0 {
      assert Reaches(img, at, first);
      SameBlockNumbers(img, img', first);
    }
    if second != 0 {
      assert Reaches(img, at, second);
      SameBlockNumbers(img, img', second);
      var bs := Numbers(img, second * BLOCKSIZE, WORDS_PER_BLOCK);
      forall i | 0 <= i < |bs| ensures SameBlock(img, img', bs[i]) { assert Reaches(img, at, bs[i]); }
      SameFirstRefsOf(img, img', bs);
    }
  }

  // The indirection part of an inode's references.
  ghost function IndirectRefs(img: Image, at: nat): seq<nat> {
    (if U32(img, at + FIRST_INDIRECT) != 0 then FirstRefs(img, U32(img, at + FIRST_INDIRECT)) else [])
    + (if U32(img, at + SECOND_INDIRECT) != 0 then SecondRefs(img, U32(img, at + SECOND_INDIRECT)) else [])
  }

  lemma RefsSplit(img: Image, at: nat)
    ensures multiset(InodeRefs(img, at)) == multiset(NonZero(img, at + DIRECT, 4)) + multiset(IndirectRefs(img, at))
  {
    hide NonZero, FirstRefs, SecondRefs, U32;
    var a, c := NonZero(img, at + DIRECT, 4), IndirectRefs(img, at);
    assert InodeRefs(img, at) == a + c;
  }

  lemma {:induction false} FirstRefsOfHas(img: Image, bs: seq<nat>, b: nat)
    requires b in bs
    ensures b in FirstRefsOf(img, bs)
  {
    hide Numbers;
    var m := |bs| - 1;
    if b in bs[..m] {
      FirstRefsOfHas(img, bs[..m], b);
    } else {
      assert FirstRefs(img, bs[m])[0] == b;
    }
  }

  lemma ReachedIsReferred(img: Image, at: nat, b: nat)
    requires Reaches(img, at, b)
    ensures b in IndirectRefs(img, at)
  {
    hide Numbers, FirstRefsOf, U32;
    var first, second := U32(img, at + FIRST_INDIRECT), U32(img, at + SECOND_INDIRECT);
    if first != 0 && b == first {
      assert FirstRefs(img, first)[0] == b;
    } else {
      var bs := Numbers(img, second * BLOCKSIZE, WORDS_PER_BLOCK);
      if b == second { assert SecondRefs(img, second)[0] == b; } else { FirstRefsOfHas(img, bs, b); }
      assert b in SecondRefs(img, second);
    }
  }

  // An indirection block of an allocated inode is a data block, and neither the
  // root directory nor unused.
  lemma IndirectApart(img: Image, n: nat, j: nat, b: nat)
    requires Sound(img, n) && j < n && InodeBit(img, n, j) && Reaches(img, InodeAt(n, j), b)
    ensures MetaBlocks(n) <= b < n && b != RootBlock(img, n) && Attached(img, n, n)[b] >= 1
  {
    hide Consistent, InRange, BlockBit, InodeBit, Attached, NonZero, FirstRefs, SecondRefs, U32, MetaBlocks, InodeAt,
         DirOk, IndirectRefs, Reaches, InodeRefs;
    var at, p := InodeAt(n, j), RootBlock(img, n);
    ReachedIsReferred(img, at, b);
    RefsSplit(img, at);
    AttachedHas(img, n, n, j);
    RootIsData(img, n);
    var refs, rest := multiset(InodeRefs(img, at)), multiset(IndirectRefs(img, at));
    assert b in rest;
    assert refs[b] >= 1;
    BlockInRange(img, n, b);
    AttachedAtMostOnce(img, n, b);
    RefsSplit(img, InodeAt(n, 0));
    assert p in multiset(NonZero(img, InodeAt(n, 0) + DIRECT, 4));
    if j == 0 {
      assert refs[p] >= 1 + rest[p];
    } else {
      AttachedTwo(img, n, n, 0, j);
      assert Attached(img, n, n)[p] >= 1 + refs[p];
    }
  }

  lemma BlockInRange(img: Image, n: nat, b: nat)
    requires InRange(img, n) && Attached(img, n, n)[b] >= 1
    ensures b < n
  {
    hide Attached;
    assert b in Attached(img, n, n);
  }

  // ----- The new inode, and all inodes together -----

  lemma InodeWords(links: nat, mode: nat, size: nat, now: nat, block: nat)
    requires block < WORD_LIMIT
    ensures var inode := InodeBytes(links, mode, size, now, block);
            && U32(inode, DIRECT) == block && U32(inode, DIRECT + 4) == 0
            && U32(inode, DIRECT + 8) == 0 && U32(inode, DIRECT + 12) == 0
            && U32(inode, FIRST_INDIRECT) == 0 && U32(inode, SECOND_INDIRECT) == 0
  {
    hide WordsOf, U32;
    var fields := InodeFields(links, mode, size, now, block);
    WordsRead(fields, 8);
    WordsRead(fields, 9);
    WordsRead(fields, 10);
    WordsRead(fields, 11);
    WordsRead(fields, 12);
    WordsRead(fields, 13);
  }

  lemma RefsOfInode(r: Image, slot: nat, links: nat, mode: nat, size: nat, now: nat, block: nat)
    requires block < WORD_LIMIT
    requires slot + INODE_SIZE <= |r| && r[slot..slot + INODE_SIZE] == InodeBytes(links, mode, size, now, block)
    ensures U32(r, slot + DIRECT) == block
    ensures InodeRefs(r, slot) == if block != 0 then [block] else []
  {
    hide U32, InodeBytes, FirstRefs, SecondRefs, NonZero;
    var inode := InodeBytes(links, mode, size, now, block);
    InodeWords(links, mode, size, now, block);
    SlotWord(r, slot, inode, DIRECT);
    SlotWord(r, slot, inode, DIRECT + 4);
    SlotWord(r, slot, inode, DIRECT + 8);
    SlotWord(r, slot, inode, DIRECT + 12);
    SlotWord(r, slot, inode, FIRST_INDIRECT);
    SlotWord(r, slot, inode, SECOND_INDIRECT);
    FourDirect(r, slot);
  }

  // A new file refers to its one block, an empty one to nothing.
  lemma NewInodeRefs(img: Image, n: nat, q: Request)
    requires Ready(img, n, q)
    ensures InodeRefs(Created(img, n, q), NewSlot(img, n)) == if q.size > 0 then [NewBlock(img, n)] else []
  {
    hide Ready, SetBit, BitSet, FreemapBlocks, InodeTableBlocks, NewBlock, NewNumber, InodeAt, MetaBlocks, Created,
         RootBlock, Room, InodeBytes, InodeRefs, Sound;
    ReadyIs(img, n, q);
    SoundSize(img, n);
    RoomIs(img, n, q);
    CreatedRegions(img, n, q);
    MetaPositive(n);
    var r, slot, block := Created(img, n, q), NewSlot(img, n), if q.size > 0 then NewBlock(img, n) else 0;
    var inode := NewInode(q.size, q.now, block);
    forall k | 0 <= k < INODE_SIZE ensures r[slot + k] == inode[k] { CreatedBytes(img, n, q, slot + k); }
    assert r[slot..slot + INODE_SIZE] == inode;
    RefsOfInode(r, slot, 1, MODE_FILE, q.size, q.now, block);
  }

  lemma MetaPositive(n: nat)
    ensures MetaBlocks(n) >= 1
  {
  }

  lemma RoomIs(img: Image, n: nat, q: Request)
    requires Room(img, n, q)
    ensures q.now < WORD_LIMIT && |q.name| < 128
  {
  }

  lemma SlotWord(r: Image, slot: nat, inode: seq<byte>, field: nat)
    requires slot + |inode| <= |r| && r[slot..slot + |inode|] == inode && field + 4 <= |inode|
    ensures U32(r, slot + field) == U32(inode, field)
  {
    assert forall k :: 0 <= k < |inode| ==> r[slot + k] == inode[k];
    assert r[slot + field..slot + field + 4] == inode[field..field + 4];
    SameWord(r, inode, slot + field, field);
  }

  lemma FourDirect(img: Image, at: nat)
    ensures U32(img, at + DIRECT + 4) == 0 && U32(img, at + DIRECT + 8) == 0 && U32(img, at + DIRECT + 12) == 0 ==>
              NonZero(img, at + DIRECT, 4) == if U32(img, at + DIRECT) != 0 then [U32(img, at + DIRECT)] else []
  {
    hide U32;
    var a := at + DIRECT;
    assert NonZero(img, a, 0) == [];
    assert a + 4 * (1 - 1) == a && a + 4 * (2 - 1) == a + 4 && a + 4 * (3 - 1) == a + 8 && a + 4 * (4 - 1) == a + 12;
    assert NonZero(img, a, 1) == if U32(img, a) != 0 then [U32(img, a)] else [];
    if U32(img, a + 4) == 0 && U32(img, a + 8) == 0 && U32(img, a + 12) == 0 {
      assert NonZero(img, a, 2) == NonZero(img, a, 1);
      assert NonZero(img, a, 3) == NonZero(img, a, 2);
      assert NonZero(img, a, 4) == NonZero(img, a, 3);
    }
  }

  // The references of an inode that was allocated before stay.
  lemma OldInodeRefs(img: Image, n: nat, q: Request, j: nat)
    requires Ready(img, n, q) && j < n && InodeBit(img, n, j) && j != NewNumber(img, n)
    ensures InodeRefs(Created(img, n, q), InodeAt(n, j)) == InodeRefs(img, InodeAt(n, j))
  {
    hide Ready, SetBit, BitSet, FreemapBlocks, InodeTableBlocks, NewBlock, NewNumber, Created, RootBlock, Room, U32,
         InodeRefs, InodeBit, Sound, Attached, Reaches, SameBlock;
    ReadyIs(img, n, q);
    SoundSize(img, n);
    CreatedRegions(img, n, q);
    Regions(n);
    NewBlockIs(img, n, q);
    var r, at := Created(img, n, q), InodeAt(n, j);
    forall k | at <= k < at + INODE_SIZE && k < |img| ensures img[k] == r[k] { CreatedBytes(img, n, q, k); }
    forall b | Reaches(img, at, b) ensures SameBlock(img, r, b) {
      IndirectApart(img, n, j, b);
      DataBlockStays(img, n, q, b);
    }
    SameInodeRefs(img, r, at);
  }

  lemma SoundSize(img: Image, n: nat)
    requires Sound(img, n)
    ensures 5 <= n <= 0x10_0000 && |img| == n * BLOCKSIZE
  {
  }

  lemma DataBlockStays(img: Image, n: nat, q: Request, b: nat)
    requires Ready(img, n, q) && MetaBlocks(n) <= b < n && b != RootBlock(img, n)
             && (q.size > 0 ==> b != NewBlock(img, n))
    ensures SameBlock(img, Created(img, n, q), b)
  {
    hide Ready, SetBit, BitSet, FreemapBlocks, InodeTableBlocks, NewBlock, NewNumber, Created, RootBlock, Room, InodeAt,
         MetaBlocks, Sound;
    ReadyIs(img, n, q);
    SoundSize(img, n);
    CreatedRegions(img, n, q);
    forall k: nat | InBlock(k, b) ensures img[k] == Created(img, n, q)[k] { CreatedBytes(img, n, q, k); }
  }

  ghost function NewRefs(img: Image, n: nat, q: Request): multiset<nat> {
    if q.size > 0 then multiset{NewBlock(img, n)} else multiset{}
  }

  lemma AttachedNext(img: Image, n: nat, k: nat)
    ensures Attached(img, n, k + 1) ==
            Attached(img, n, k) + (if InodeBit(img, n, k) then multiset(InodeRefs(img, InodeAt(n, k))) else multiset{})
  {
    hide InodeRefs, InodeBit, InodeAt;
  }

  // What inode k refers to, before and after.
  lemma CreatedRefs(img: Image, n: nat, q: Request, k: nat)
    requires Ready(img, n, q) && k < n
    ensures var r := Created(img, n, q);
            var was := if InodeBit(img, n, k) then multiset(InodeRefs(img, InodeAt(n, k))) else multiset{};
            var refs := if InodeBit(r, n, k) then multiset(InodeRefs(r, InodeAt(n, k))) else multiset{};
            if k == NewNumber(img, n) then was == multiset{} && refs == NewRefs(img, n, q) else refs == was
  {
    hide Ready, NewBlock, NewNumber, Created, InodeRefs, InodeBit, InodeAt;
    CreatedInodeBit(img, n, q, k);
    if k == NewNumber(img, n) {
      NumberWasFree(img, n, q);
      NewInodeRefs(img, n, q);
    } else if InodeBit(img, n, k) {
      OldInodeRefs(img, n, q, k);
    }
  }

  lemma {:induction false} CreatedAttached(img: Image, n: nat, q: Request, k: nat)
    requires Ready(img, n, q) && k <= n
    ensures Attached(Created(img, n, q), n, k) ==
            Attached(img, n, k) + (if NewNumber(img, n) < k then NewRefs(img, n, q) else multiset{})
  {
    hide Ready, NewBlock, NewNumber, Created, InodeRefs, InodeBit, InodeAt, NewRefs, WellSized, Room, Sound;
    ReadyIs(img, n, q);
    if k > 0 {
      CreatedAttached(img, n, q, k - 1);
      CreatedRefs(img, n, q, k - 1);
      AttachedNext(img, n, k - 1);
      AttachedNext(Created(img, n, q), n, k - 1);
    }
  }

  lemma NumberWasFree(img: Image, n: nat, q: Request)
    requires Ready(img, n, q)
    ensures !InodeBit(img, n, NewNumber(img, n))
  {
    hide Consistent, InRange, HasRoot;
    NumbersWereFree(img, n, q);
  }

  // ----- The main result -----

  // The uses of the blocks follow the block map.
  lemma CreatedConsistent(img: Image, n: nat, q: Request)
    requires Ready(img, n, q)
    ensures Consistent(Created(img, n, q), n) && InRange(Created(img, n, q), n)
  {
    hide Ready, NewBlock, NewNumber, Created, BlockBit, Attached, WellSized, HasRoot, Room, MetaBlocks;
    ReadyIs(img, n, q);
    var r := Created(img, n, q);
    CreatedAttached(img, n, q, n);
    NewBlockIs(img, n, q);
    var was, refs := Attached(img, n, n), NewRefs(img, n, q);
    assert Attached(r, n, n) == was + refs;
    forall b: nat | b < n ensures Uses(r, n, b) == if BlockBit(r, n, b) then 1 else 0 {
      CreatedBlockBit(img, n, q, b);
      assert Uses(img, n, b) == if BlockBit(img, n, b) then 1 else 0;
    }
    forall b | b in Attached(r, n, n) ensures b < n { assert b in was || b in refs; }
  }

  // The entries of the root directory.
  ghost function RootEntries(img: Image, n: nat): seq<Entry>
    requires HasRoot(img, n)
  {
    Entries(BlockOf(img, RootBlock(img, n)), 0)
  }

  // The root directory has one entry more, behind the old ones.
  ghost predicate EntryAdded(img: Image, r: Image, n: nat, q: Request) {
    && HasRoot(img, n) && HasRoot(r, n)
    && RootBlock(r, n) == RootBlock(img, n)
    && RootEntries(r, n) == RootEntries(img, n) + [Entry(NewNumber(img, n), q.name)]
  }

  lemma CreatedDirectory(img: Image, n: nat, q: Request)
    requires Ready(img, n, q)
    ensures EntryAdded(img, Created(img, n, q), n, q)
  {
    hide SetBit, BitSet, FreemapBlocks, InodeTableBlocks, NewBlock, NewNumber, Created, U32, Consistent, InRange,
         Append, DirOk, Entries, MetaBlocks, InodeBit, InodeAt;
    CreatedRegions(img, n, q);
    Regions(n);
    var r, p := Created(img, n, q), RootBlock(img, n);
    var d := BlockOf(img, p);
    // inode 0 keeps its slot and its bit
    NumberWasFree(img, n, q);
    SlotsApart(n, NewNumber(img, n));
    CreatedInodeBit(img, n, q, 0);
    var at := InodeAt(n, 0);
    forall k | at <= k < at + INODE_SIZE ensures r[k] == img[k] { CreatedBytes(img, n, q, k); }
    WordKept(img, r, at + DIRECT);
    // its block holds the longer directory
    forall k | 0 <= k < BLOCKSIZE ensures r[p * BLOCKSIZE + k] == NewDirectory(img, n, q)[k] {
      CreatedBytes(img, n, q, p * BLOCKSIZE + k);
    }
    assert BlockOf(r, p) == NewDirectory(img, n, q);
    AppendEntries(d, 0, NewNumber(img, n), q.name);
  }

  lemma SlotsApart(n: nat, i: nat)
    ensures i != 0 ==> InodeAt(n, 0) + INODE_SIZE <= InodeAt(n, i)
  {
  }

  // A file created on an image about which the checker has nothing to say
  // leaves such an image.
  lemma CreateKeepsSound(img: Image, n: nat, q: Request)
    requires Ready(img, n, q)
    ensures Sound(Created(img, n, q), n)
    ensures EntryAdded(img, Created(img, n, q), n, q)
  {
    hide Ready, Created, Consistent, InRange, HasRoot, Room, RootBlock, NewNumber, RootEntries;
    ReadyIs(img, n, q);
    CreatedConsistent(img, n, q);
    CreatedDirectory(img, n, q);
  }

  // ----- Any number of files -----

  // create_file refuses sizes over 4096 bytes.
  function CreateStep(img: Image, n: nat, q: Request): (r: Image)
    requires WellSized(img, n) && (q.size <= MAX_SIZE ==> Room(img, n, q))
    ensures |r| == |img|
  {
    if q.size > MAX_SIZE then img else Created(img, n, q)
  }

  predicate AllRoom(img: Image, n: nat, qs: seq<Request>)
    requires WellSized(img, n)
    decreases |qs|
  {
    qs != [] ==> (qs[0].size <= MAX_SIZE ==> Room(img, n, qs[0])) && AllRoom(CreateStep(img, n, qs[0]), n, qs[1..])
  }

  function CreatedAll(img: Image, n: nat, qs: seq<Request>): Image
    requires WellSized(img, n) && AllRoom(img, n, qs)
    decreases |qs|
  {
    if qs == [] then img else CreatedAll(CreateStep(img, n, qs[0]), n, qs[1..])
  }

  // The checker prints nothing.
  ghost predicate Silent(img: Image, n: nat) {
    var counts := UseCounts(img, n);
    MultipleReports(counts, n) + FreemapReports(img, n, counts, n) == []
  }

  // Any number of files created one after the other leave an image about which
  // the checker has nothing to say, with the names in the order of creation.
  lemma {:induction false} CreateAllKeepsSound(img: Image, n: nat, qs: seq<Request>)
    requires Sound(img, n) && WellSized(img, n) && AllRoom(img, n, qs)
    ensures Sound(CreatedAll(img, n, qs), n) && Silent(CreatedAll(img, n, qs), n)
    decreases |qs|
  {
    hide Sound, Created, Silent, Consistent, EntryAdded, Room, NewNumber, WellSized;
    if qs != [] {
      if qs[0].size <= MAX_SIZE { CreateKeepsSound(img, n, qs[0]); }
      SameLengthSized(img, CreateStep(img, n, qs[0]), n);
      CreateAllKeepsSound(CreateStep(img, n, qs[0]), n, qs[1..]);
    } else {
      SoundSilent(img, n);
    }
  }

  lemma SameLengthSized(img: Image, r: Image, n: nat)
    requires WellSized(img, n) && |r| == |img|
    ensures WellSized(r, n)
  {
  }

  lemma SoundSilent(img: Image, n: nat)
    requires Sound(img, n)
    ensures Silent(img, n)
  {
    hide Consistent, MultipleReports, FreemapReports, UseCounts;
    SilentIff(img, n);
  }
}
