// The on-disk format in plain numbers: where each field lies, what is in it, and
// which words the checker takes for block numbers.
module GfsLayout {
  import opened Bytes
  import opened GfsImage
  import opened GfsCounting
  import opened GfsDirectory
  import opened GfsCreate
  import opened GfsInitialize

  // ----- Maps and inodes -----

  // The superblock, the inode map, the block map, the inode table and the data
  // follow each other, each on its own blocks of 4096 bytes.
  lemma Places(img: Image, n: nat, i: nat)
    ensures WellSized(img, n) <==> 5 <= n <= 1048576 && |img| == 4096 * n
    ensures var maps, table := (n + 32767) / 32768, (n + 63) / 64;
            && MetaBlocks(n) == 1 + 2 * maps + table
            && InodeAt(n, i) == 4096 * (1 + 2 * maps) + 64 * i
            && InodeMap() == 4096 && BlockMap(n) == 4096 * (1 + maps) && MapBits(n) == 32768 * maps
  {
    MetaCount(n);
    LayoutHolds(n);
  }

  // Bit i of a map is in byte i / 8, where it counts for 2^(i % 8).
  lemma BitPlaces(img: Image, n: nat, i: nat)
    requires |img| >= 4096 * (1 + (n + 32767) / 32768) + i / 8 + 1
    ensures InodeBit(img, n, i) <==> img[4096 + i / 8] / [1, 2, 4, 8, 16, 32, 64, 128][i % 8] % 2 == 1
    ensures BlockBit(img, n, i) <==>
            img[4096 * (1 + (n + 32767) / 32768) + i / 8] / [1, 2, 4, 8, 16, 32, 64, 128][i % 8] % 2 == 1
  {
    hide MapBit;
    LayoutHolds(n);
    MapBitPlace(img, 4096, i);
    MapBitPlace(img, 4096 * (1 + (n + 32767) / 32768), i);
  }

  lemma MapBitPlace(img: Image, at: nat, i: nat)
    requires at + i / 8 < |img|
    ensures MapBit(img, at, i) <==> img[at + i / 8] / [1, 2, 4, 8, 16, 32, 64, 128][i % 8] % 2 == 1
  {
    hide BitSet;
    BitValue(img[at + i / 8], i % 8);
  }

  // Of the sixteen words of an inode, 8 to 11 are numbers of blocks, 12 that of an
  // indirection block and 13 that of a second indirection block.
  lemma RefsOfWords(img: Image, at: nat, w: seq<nat>)
    requires |w| == 16 && (forall i :: 0 <= i < 16 ==> w[i] < 0x1_0000_0000)
    requires at + 64 <= |img| && img[at..at + 64] == WordsOf(w)
    ensures InodeRefs(img, at) ==
              (if w[8] != 0 then [w[8]] else []) + (if w[9] != 0 then [w[9]] else [])
              + (if w[10] != 0 then [w[10]] else []) + (if w[11] != 0 then [w[11]] else [])
              + (if w[12] != 0 then FirstRefs(img, w[12]) else [])
              + (if w[13] != 0 then SecondRefs(img, w[13]) else [])
  {
    hide U32, WordsOf, FirstRefs, SecondRefs, NonZero;
    forall i | 0 <= i < 16 ensures U32(img, at + 4 * i) == w[i] { StoredWord(img, at, w, i); }
    assert U32(img, at + 4 * 8) == w[8] && U32(img, at + 4 * 9) == w[9];
    assert U32(img, at + 4 * 10) == w[10] && U32(img, at + 4 * 11) == w[11];
    assert U32(img, at + 4 * 12) == w[12] && U32(img, at + 4 * 13) == w[13];
    FourNumbers(img, at + 32);
  }

  lemma FourNumbers(img: Image, a: nat)
    ensures NonZero(img, a, 4) ==
              (if U32(img, a) != 0 then [U32(img, a)] else [])
              + (if U32(img, a + 4) != 0 then [U32(img, a + 4)] else [])
              + (if U32(img, a + 8) != 0 then [U32(img, a + 8)] else [])
              + (if U32(img, a + 12) != 0 then [U32(img, a + 12)] else [])
  {
    hide U32;
    assert NonZero(img, a, 0) == [];
    assert NonZero(img, a, 1) == NonZero(img, a, 0) + (if U32(img, a) != 0 then [U32(img, a)] else []);
    assert NonZero(img, a, 2) == NonZero(img, a, 1) + (if U32(img, a + 4) != 0 then [U32(img, a + 4)] else []);
    assert NonZero(img, a, 3) == NonZero(img, a, 2) + (if U32(img, a + 8) != 0 then [U32(img, a + 8)] else []);
  }

  lemma StoredWord(img: Image, at: nat, w: seq<nat>, i: nat)
    requires i < |w| && w[i] < WORD_LIMIT && at + 4 * |w| <= |img| && img[at..at + 4 * |w|] == WordsOf(w)
    ensures U32(img, at + 4 * i) == w[i]
  {
    hide U32, WordsOf;
    WordsRead(w, i);
    SlotWord(img, at, WordsOf(w), 4 * i);
  }

  // An indirection block refers to itself and to the blocks in its 1024 words, up
  // to the first zero.
  lemma FirstRefsAre(img: Image, b: nat)
    ensures var r := FirstRefs(img, b);
            && 1 <= |r| <= 1025 && r[0] == b
            && (forall i :: 0 <= i < |r| - 1 ==> r[i + 1] == U32(img, 4096 * b + 4 * i) != 0)
            && (|r| < 1025 ==> U32(img, 4096 * b + 4 * (|r| - 1)) == 0)
  {
    hide U32, Numbers;
    var nums := Numbers(img, b * BLOCKSIZE, WORDS_PER_BLOCK);
    NumbersLength(img, b * BLOCKSIZE, WORDS_PER_BLOCK);
    forall i | 0 <= i < |nums| ensures nums[i] == U32(img, 4096 * b + 4 * i) != 0 {
      NumbersMember(img, b * BLOCKSIZE, WORDS_PER_BLOCK, i);
    }
    if |nums| < 1024 { NumbersStep(img, b * BLOCKSIZE, WORDS_PER_BLOCK, |nums|); }
  }

  // A second one refers to itself and to all that the indirection blocks in it do.
  lemma SecondRefsAre(img: Image, b: nat, bs: seq<nat>, x: nat)
    ensures SecondRefs(img, b) == [b] + FirstRefsOf(img, FirstRefs(img, b)[1..])
    ensures FirstRefsOf(img, []) == []
    ensures FirstRefsOf(img, bs + [x]) == FirstRefsOf(img, bs) + FirstRefs(img, x)
  {
    hide Numbers;
    assert (bs + [x])[..|bs|] == bs;
  }

  // ----- How often a block is used -----

  // The references to b: which inode, and which of its references.
  ghost function RefsTo(img: Image, n: nat, k: nat, b: nat): set<(nat, nat)> {
    set i: nat, j: nat | i < k && InodeBit(img, n, i) && j < |InodeRefs(img, InodeAt(n, i))|
                         && InodeRefs(img, InodeAt(n, i))[j] == b :: (i, j)
  }

  ghost function In(refs: seq<nat>, b: nat, i: nat): set<(nat, nat)> {
    set j: nat | j < |refs| && refs[j] == b :: (i, j)
  }

  lemma {:induction false} InCount(refs: seq<nat>, b: nat, i: nat)
    ensures |In(refs, b, i)| == multiset(refs)[b]
  {
    if refs == [] {
      assert In(refs, b, i) == {};
    } else {
      var m := |refs| - 1;
      InCount(refs[..m], b, i);
      assert refs == refs[..m] + [refs[m]];
      assert In(refs, b, i) == In(refs[..m], b, i) + (if refs[m] == b then {(i, m as nat)} else {});
    }
  }

  lemma {:induction false} RefsToCount(img: Image, n: nat, k: nat, b: nat)
    ensures |RefsTo(img, n, k, b)| == Attached(img, n, k)[b]
  {
    hide InodeRefs, InodeBit, InodeAt;
    if k == 0 {
      assert RefsTo(img, n, 0, b) == {};
    } else {
      RefsToCount(img, n, k - 1, b);
      var refs := InodeRefs(img, InodeAt(n, k - 1));
      InCount(refs, b, k - 1);
      var more := if InodeBit(img, n, k - 1) then In(refs, b, k - 1) else {};
      assert RefsTo(img, n, k, b) == RefsTo(img, n, k - 1, b) + more;
      assert RefsTo(img, n, k - 1, b) !! more;
    }
  }

  // A block is used once by each reference of an allocated inode below the end of
  // the partition, and once more if it holds metadata; the image is consistent when
  // that is one for the blocks with a set bit and zero for the others.
  lemma UsesCount(img: Image, n: nat)
    ensures Consistent(img, n) <==>
            forall b: nat :: b < n ==>
              |RefsTo(img, n, n, b)| + (if b < MetaBlocks(n) then 1 else 0) == if BlockBit(img, n, b) then 1 else 0
  {
    hide BlockBit, Attached, RefsTo, MetaBlocks;
    forall b: nat | b < n
      ensures Uses(img, n, b) == |RefsTo(img, n, n, b)| + (if b < MetaBlocks(n) then 1 else 0)
    {
      RefsToCount(img, n, n, b);
    }
  }

  // No reference leads out of the partition.
  lemma InRangeMeans(img: Image, n: nat)
    ensures InRange(img, n) <==>
            forall i, j :: 0 <= i < n && InodeBit(img, n, i) && 0 <= j < |InodeRefs(img, InodeAt(n, i))| ==>
              InodeRefs(img, InodeAt(n, i))[j] < n
  {
    hide InodeRefs, InodeBit, InodeAt, Attached;
    forall b: nat ensures b in Attached(img, n, n) <==> RefsTo(img, n, n, b) != {} { RefsToCount(img, n, n, b); }
    forall i, j | 0 <= i < n && InodeBit(img, n, i) && 0 <= j < |InodeRefs(img, InodeAt(n, i))|
      ensures RefsTo(img, n, n, InodeRefs(img, InodeAt(n, i))[j]) != {}
    {
      assert (i as nat, j as nat) in RefsTo(img, n, n, InodeRefs(img, InodeAt(n, i))[j]);
    }
    if !InRange(img, n) {
      var b :| b in Attached(img, n, n) && b >= n;
      var p :| p in RefsTo(img, n, n, b);
      assert InodeRefs(img, InodeAt(n, p.0))[p.1] == b;
    }
  }

  // ----- What initialize and create_file leave on the disk -----

  lemma FieldsStored(img: Image, at: nat, links: nat, mode: nat, size: nat, now: nat, block: nat)
    requires links < WORD_LIMIT && mode < WORD_LIMIT && size < WORD_LIMIT && now < WORD_LIMIT && block < WORD_LIMIT
    requires at + 64 <= |img| && img[at..at + 64] == InodeBytes(links, mode, size, now, block)
    ensures U32(img, at) == links && U32(img, at + 4) == 0 && U32(img, at + 8) == 0 && U32(img, at + 12) == mode
    ensures U32(img, at + 16) == size
    ensures U32(img, at + 20) == now && U32(img, at + 24) == now && U32(img, at + 28) == now
    ensures U32(img, at + 32) == block && forall k :: 9 <= k < 16 ==> U32(img, at + 4 * k) == 0
  {
    hide U32, WordsOf;
    var w := InodeFields(links, mode, size, now, block);
    forall i | 0 <= i < 16 ensures U32(img, at + 4 * i) == w[i] { StoredWord(img, at, w, i); }
    forall k | 9 <= k < 16 ensures U32(img, at + 4 * k) == 0 { assert w[k] == 0; }
    assert U32(img, at + 4 * 0) == w[0] && U32(img, at + 4 * 1) == w[1] && U32(img, at + 4 * 2) == w[2];
    assert U32(img, at + 4 * 3) == w[3] && U32(img, at + 4 * 4) == w[4] && U32(img, at + 4 * 5) == w[5];
    assert U32(img, at + 4 * 6) == w[6] && U32(img, at + 4 * 7) == w[7] && U32(img, at + 4 * 8) == w[8];
  }

  // The inode of a new file, word by word.
  lemma FileInode(img: Image, n: nat, q: Request)
    requires Ready(img, n, q)
    ensures var r, at := Created(img, n, q), 4096 * (1 + 2 * ((n + 32767) / 32768)) + 64 * NewNumber(img, n);
            && U32(r, at) == 1 && U32(r, at + 4) == 0 && U32(r, at + 8) == 0 && U32(r, at + 12) == 33261
            && U32(r, at + 16) == q.size
            && U32(r, at + 20) == q.now && U32(r, at + 24) == q.now && U32(r, at + 28) == q.now
            && U32(r, at + 32) == (if q.size > 0 then NewBlock(img, n) else 0)
            && forall k :: 9 <= k < 16 ==> U32(r, at + 4 * k) == 0
  {
    hide Ready, InodeBytes, U32, FreemapBlocks, InodeTableBlocks, NewBlock, NewNumber, InodeAt, MetaBlocks, Created,
         RootBlock, Room, Sound, SetBit;
    ReadyIs(img, n, q);
    var r, at, block := Created(img, n, q), NewSlot(img, n), if q.size > 0 then NewBlock(img, n) else 0;
    RoomForWords(img, n, q);
    CreatedRegions(img, n, q);
    Places(img, n, NewNumber(img, n));
    forall k | 0 <= k < 64 ensures r[at + k] == NewInode(q.size, q.now, block)[k] { CreatedBytes(img, n, q, at + k); }
    assert r[at..at + 64] == NewInode(q.size, q.now, block);
    FieldsStored(r, at, 1, MODE_FILE, q.size, q.now, block);
  }

  lemma RoomForWords(img: Image, n: nat, q: Request)
    requires Ready(img, n, q)
    ensures q.now < WORD_LIMIT && n < WORD_LIMIT && q.size <= 4096
  {
    hide Sound;
    ReadyIs(img, n, q);
  }

  // The data of a new file: the letters A to Z over and over, then zeros.
  lemma FileData(img: Image, n: nat, q: Request, i: nat)
    requires Ready(img, n, q) && q.size > 0 && i < 4096
    ensures var r, at := Created(img, n, q), 4096 * NewBlock(img, n);
            at + i < |r| && r[at + i] == if i < q.size then "ABCDEFGHIJKLMNOPQRSTUVWXYZ"[i % 26] as int else 0
  {
    hide Ready, InodeBytes, U32, FreemapBlocks, InodeTableBlocks, NewBlock, NewNumber, InodeAt, MetaBlocks, Created,
         RootBlock, Room, Sound, SetBit;
    ReadyIs(img, n, q);
    CreatedRegions(img, n, q);
    CreatedBytes(img, n, q, 4096 * NewBlock(img, n) + i);
    Alphabet(i % 26);
  }

  lemma Alphabet(k: nat)
    requires k < 26
    ensures "ABCDEFGHIJKLMNOPQRSTUVWXYZ"[k] as int == 65 + k
  {
  }

  // The entry of a new file: it lies behind the last one, which now refers to it.
  lemma FileEntry(img: Image, n: nat, q: Request) returns (last: nat, at: nat)
    requires Ready(img, n, q)
    ensures var r, p := Created(img, n, q), 4096 * RootBlock(img, n);
            && p + 4096 <= |r| == |img| && last + 9 <= at && at + 9 + |q.name| <= 4096
            && U32(img, p + last) == 0 && at == last + 9 + img[p + last + 8]
            && U32(r, p + last) == at
            && U32(r, p + at) == 0 && U32(r, p + at + 4) == NewNumber(img, n)
            && r[p + at + 8] == |q.name| && r[p + at + 9..p + at + 9 + |q.name|] == q.name
  {
    hide Ready, U32, FreemapBlocks, InodeTableBlocks, NewNumber, MetaBlocks, Created, Sound, Append, DirOk, Entries,
         LastAt;
    ReadyIs(img, n, q);
    CreatedRegions(img, n, q);
    RoomForWords(img, n, q);
    var r, p := Created(img, n, q), 4096 * RootBlock(img, n);
    var d, d' := BlockOf(img, RootBlock(img, n)), NewDirectory(img, n, q);
    last := LastAt(d, 0);
    at := EntryEnd(d, last);
    AppendFields(d, last, NewNumber(img, n), q.name);
    NewDirectoryStored(img, n, q);
    SlotWord(img, p, d, last);
    SlotWord(r, p, d', last);
    SlotWord(r, p, d', at);
    SlotWord(r, p, d', at + 4);
    assert r[p..p + 4096][at + 8] == d'[at + 8];
    InnerSlice(r, p, 4096, at + 9, |q.name|);
  }

  lemma InnerSlice(s: seq<byte>, p: nat, m: nat, x: nat, k: nat)
    requires p + m <= |s| && x + k <= m
    ensures s[p..p + m][x..x + k] == s[p + x..p + x + k]
  {
    var t := s[p..p + m];
    var a, b := t[x..x + k], s[p + x..p + x + k];
    forall i | 0 <= i < k ensures a[i] == b[i] { assert t[x + i] == s[p + x + i]; }
  }

  lemma NewDirectoryStored(img: Image, n: nat, q: Request)
    requires Ready(img, n, q) && WellSized(img, n) && Room(img, n, q) && q.size <= MAX_SIZE
    ensures var r, p := Created(img, n, q), 4096 * RootBlock(img, n);
            p + 4096 <= |r| && r[p..p + 4096] == NewDirectory(img, n, q)
  {
    hide Ready, FreemapBlocks, InodeTableBlocks, NewNumber, NewBlock, MetaBlocks, Created, Sound, NewDirectory, InodeAt,
         RootBlock, Room, SetBit, InodeBytes;
    CreatedRegions(img, n, q);
    var r, p := Created(img, n, q), 4096 * RootBlock(img, n);
    forall k | 0 <= k < 4096 ensures r[p + k] == NewDirectory(img, n, q)[k] { CreatedBytes(img, n, q, p + k); }
  }

  // A fresh partition: the inode of the root directory word by word, ...
  lemma FreshInode(img: Image, n: nat, now: nat)
    requires Initialized(img, n, now) && now < WORD_LIMIT
    ensures var at := 4096 * (1 + 2 * ((n + 32767) / 32768));
            && U32(img, at) == 2 && U32(img, at + 4) == 0 && U32(img, at + 8) == 0 && U32(img, at + 12) == 16877
            && U32(img, at + 16) == 4096
            && U32(img, at + 20) == now && U32(img, at + 24) == now && U32(img, at + 28) == now
            && U32(img, at + 32) == MetaBlocks(n) && forall k :: 9 <= k < 16 ==> U32(img, at + 4 * k) == 0
  {
    hide InodeBytes, U32, FreemapBlocks, InodeTableBlocks, MapBit, Super, Unused, RootDirectory, MetaBlocks, InodeAt;
    Regions(n);
    InodeStep(n);
    Places(img, n, 0);
    FieldsStored(img, InodeAt(n, 0), 2, MODE_DIRECTORY, BLOCKSIZE, now, MetaBlocks(n));
  }

  // ... its block byte by byte, and the byte that fills what is not in use.
  lemma FreshBytes(img: Image, n: nat, now: nat, k: nat)
    requires Initialized(img, n, now)
    ensures var p := 4096 * MetaBlocks(n);
            && p + 4096 <= |img|
            && img[p..p + 21] == [10, 0, 0, 0, 0, 0, 0, 0, 1, 46, 0, 0, 0, 0, 0, 0, 0, 0, 2, 46, 46]
            && (24 <= k < 4096 || p + 21 <= k < |img| ==> img[k] == 0x55)
  {
    hide RootInode, FreemapBlocks, InodeTableBlocks, MapBit, Super, MetaBlocks;
    InitializedIs(img, n, now);
    var p, d := 4096 * MetaBlocks(n), RootDirectory();
    assert img[p..p + 4096] == d;
    InnerSlice(img, p, 4096, 0, 21);
    if p + 21 <= k < p + 4096 { assert img[p..p + 4096][k - p] == d[k - p]; }
  }
}
