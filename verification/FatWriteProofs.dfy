// write(): appending keeps the invariant and appends exactly the bytes given.
module FatWriteProofs {
  import opened FatTypes
  import opened FatInvariant
  import opened FatOps
  import opened FatFiles

  // The chains after one byte has been written.
  ghost function ChainsAfterPut(s: FsState, c: Chains, h: int): Chains
    requires Opened(s, h) && |c| == DIR_SIZE
  {
    var d := s.handles[h].dirIndex;
    var j := FirstFree(s.fat);
    if s.handles[h].offset % BLOCK_SIZE == BLOCK_SIZE - 1 && j < FAT_SIZE then c[d := c[d] + [j]] else c
  }

  ghost predicate Writing(s: FsState, c: Chains, h: int) {
    ValidWith(s, c) && Opened(s, h) && s.handles[h].mode == WRITE
  }

  // h is a WRITE handle in good order; nothing is said of the other handles.
  ghost predicate AtWork(s: FsState, c: Chains, h: int) {
    && Opened(s, h) && s.handles[h].mode == WRITE
    && StructureOk(s.fat, s.dir, c) && CursorOk(s.handles[h], s.dir, c)
  }

  // A writer's current block is the last of its file's chain.
  lemma WriterAtEnd(s: FsState, c: Chains, h: int)
    requires AtWork(s, c, h)
    ensures var e := s.handles[h]; var ch := c[e.dirIndex];
            ch != [] && e.current == Last(ch) && e.offset == s.dir[e.dirIndex].size &&
            e.offset / BLOCK_SIZE == |ch| - 1
  {
    assert EntryOk(s.fat, s.dir[s.handles[h].dirIndex], c[s.handles[h].dirIndex]);
  }

  // A free block is a data block on no chain.
  lemma FreeBlockOffChains(fat: seq<nat>, dir: seq<DirEntry>, c: Chains, b: nat)
    requires StructureOk(fat, dir, c) && b < FAT_SIZE && fat[b] == FREE_FAT_ENTRY
    ensures 3 <= b && !OnChain(c, b)
  {
    if OnChain(c, b) {
      var i :| 0 <= i < |c| && b in c[i];
      var j :| 0 <= j < |c[i]| && c[i][j] == b;
      LinkOnChain(fat, dir, c, i, j);
    }
  }

  // The table, the directory and the chains after one byte has been written.
  lemma PutIs(s: FsState, c: Chains, h: int, x: byte)
    requires Writing(s, c, h) && Capacity(s, h) > 0
    ensures var e := s.handles[h]; var d, j, r := e.dirIndex, FirstFree(s.fat), PutByte(s, h, x);
            && Used(s.dir[d]) && c[d] != [] && e.current == Last(c[d]) && e.offset == s.dir[d].size
            && r.dir == s.dir[d := s.dir[d].(size := s.dir[d].size + 1)]
            && if e.offset % BLOCK_SIZE == BLOCK_SIZE - 1 then
                 && 3 <= j < FAT_SIZE && !OnChain(c, j)
                 && r.fat == s.fat[Last(c[d]) := j][j := EOF_FAT_ENTRY]
                 && ChainsAfterPut(s, c, h) == c[d := c[d] + [j]]
               else r.fat == s.fat && ChainsAfterPut(s, c, h) == c
  {
    hide NamesUnique, Disjoint, NoneLost, OnChain, EntryOk;
    assert CursorOk(s.handles[h], s.dir, c);
    WriterAtEnd(s, c, h);
    FreeBlockExists(s.fat);
    if FirstFree(s.fat) < FAT_SIZE { FreeBlockOffChains(s.fat, s.dir, c, FirstFree(s.fat)); }
  }

  lemma PutKeepsStructure(s: FsState, c: Chains, h: int, x: byte)
    requires Writing(s, c, h) && Capacity(s, h) > 0
    ensures StructureOk(PutByte(s, h, x).fat, PutByte(s, h, x).dir, ChainsAfterPut(s, c, h))
  {
    hide StructureOk, HandlesOk, PutByte, ChainsAfterPut, OnChain;
    PutIs(s, c, h, x);
    var d := s.handles[h].dirIndex;
    if s.handles[h].offset % BLOCK_SIZE == BLOCK_SIZE - 1 {
      ExtendedStructure(s.fat, s.dir, c, d, FirstFree(s.fat));
    } else {
      GrownStructure(s.fat, s.dir, c, d);
    }
  }

  // One byte more in a block that stays non-full.
  lemma GrownStructure(fat: seq<nat>, dir: seq<DirEntry>, c: Chains, d: nat)
    requires StructureOk(fat, dir, c)
    requires d < DIR_SIZE && Used(dir[d]) && dir[d].size % BLOCK_SIZE != BLOCK_SIZE - 1
    ensures StructureOk(fat, dir[d := dir[d].(size := dir[d].size + 1)], c)
  {
    var dir' := dir[d := dir[d].(size := dir[d].size + 1)];
    assert NamesUnique(dir');
    hide NamesUnique, Disjoint, NoneLost;
    forall i | 0 <= i < DIR_SIZE
      ensures dir'[i].start < FAT_SIZE && EntryOk(fat, dir'[i], c[i])
    {
      assert EntryOk(fat, dir[i], c[i]);
      hide IsChain;
    }
  }

  // Linking a free block behind the last block of a full file.
  lemma ExtendedStructure(fat: seq<nat>, dir: seq<DirEntry>, c: Chains, d: nat, j: nat)
    requires StructureOk(fat, dir, c)
    requires d < DIR_SIZE && Used(dir[d]) && dir[d].size % BLOCK_SIZE == BLOCK_SIZE - 1
    requires 3 <= j < FAT_SIZE && !OnChain(c, j)
    ensures c[d] != []
    ensures StructureOk(fat[Last(c[d]) := j][j := EOF_FAT_ENTRY],
                        dir[d := dir[d].(size := dir[d].size + 1)],
                        c[d := c[d] + [j]])
  {
    assert EntryOk(fat, dir[d], c[d]);
    var fat' := fat[Last(c[d]) := j][j := EOF_FAT_ENTRY];
    var dir' := dir[d := dir[d].(size := dir[d].size + 1)];
    var c' := c[d := c[d] + [j]];
    assert j !in c[d];
    forall i | 0 <= i < DIR_SIZE
      ensures dir'[i].start < FAT_SIZE && EntryOk(fat', dir'[i], c'[i])
    {
      ExtendedEntry(fat, dir, c, d, j, i);
    }
    assert NamesUnique(dir');
    hide EntryOk, NamesUnique;
    ExtendedDisjoint(c, d, j);
    ExtendedNoneLost(fat, c, d, j);
  }

  lemma ExtendedEntry(fat: seq<nat>, dir: seq<DirEntry>, c: Chains, d: nat, j: nat, i: nat)
    requires StructureOk(fat, dir, c)
    requires d < DIR_SIZE && Used(dir[d]) && dir[d].size % BLOCK_SIZE == BLOCK_SIZE - 1
    requires 3 <= j < FAT_SIZE && !OnChain(c, j) && i < DIR_SIZE
    ensures c[d] != []
    ensures EntryOk(fat[Last(c[d]) := j][j := EOF_FAT_ENTRY],
                    dir[d := dir[d].(size := dir[d].size + 1)][i],
                    c[d := c[d] + [j]][i])
  {
    assert EntryOk(fat, dir[d], c[d]);
    assert EntryOk(fat, dir[i], c[i]);
    assert j !in c[i];
    if i == d {
      ChainExtended(fat, dir[d].start, c[d], j);
    } else {
      OtherChain(c, d, i);
      if Used(dir[i]) { ChainUntouched(fat, fat[Last(c[d]) := j][j := EOF_FAT_ENTRY], dir[i].start, c[i]); }
    }
  }

  lemma ExtendedDisjoint(c: Chains, d: nat, j: nat)
    requires Disjoint(c) && d < |c| && !OnChain(c, j)
    ensures Disjoint(c[d := c[d] + [j]])
  {
    forall i, k | 0 <= i < |c| && 0 <= k < |c[i]|
      ensures c[i][k] != j
    {
      assert c[i][k] in c[i];
    }
  }

  lemma ExtendedNoneLost(fat: seq<nat>, c: Chains, d: nat, j: nat)
    requires |fat| == FAT_SIZE && NoneLost(fat, c) && d < |c| && c[d] != []
    requires 3 <= j < FAT_SIZE && Last(c[d]) < FAT_SIZE
    ensures NoneLost(fat[Last(c[d]) := j][j := EOF_FAT_ENTRY], c[d := c[d] + [j]])
  {
    var fat', c' := fat[Last(c[d]) := j][j := EOF_FAT_ENTRY], c[d := c[d] + [j]];
    forall b | 3 <= b < FAT_SIZE && fat'[b] != FREE_FAT_ENTRY
      ensures OnChain(c', b)
    {
      if b == j || b == Last(c[d]) {
        assert b in c'[d];
      } else {
        assert OnChain(c, b);
        var i :| 0 <= i < |c| && b in c[i];
        assert b in c'[i];
      }
    }
  }

  lemma OtherChain(c: Chains, d: nat, i: nat)
    requires Disjoint(c) && d < |c| && i < |c| && i != d && c[d] != []
    ensures Last(c[d]) !in c[i]
  {
  }

  lemma ChainUntouched(fat: seq<nat>, fat': seq<nat>, start: nat, ch: seq<nat>)
    requires IsChain(fat, start, ch)
    requires |fat'| == |fat| && forall j :: 0 <= j < |ch| ==> fat'[ch[j]] == fat[ch[j]]
    ensures IsChain(fat', start, ch)
  {
  }

  lemma ChainExtended(fat: seq<nat>, start: nat, ch: seq<nat>, j: nat)
    requires IsChain(fat, start, ch) && j < |fat| && j !in ch && j != EOF_FAT_ENTRY
    requires forall k, k' :: 0 <= k < k' < |ch| ==> ch[k] != ch[k']
    ensures IsChain(fat[Last(ch) := j][j := EOF_FAT_ENTRY], start, ch + [j])
  {
    var fat', ch' := fat[Last(ch) := j][j := EOF_FAT_ENTRY], ch + [j];
    forall i, k | 0 <= i && k == i + 1 && k < |ch'|
      ensures fat'[ch'[i]] == ch'[k] && fat'[ch'[i]] != EOF_FAT_ENTRY
    {
      if k < |ch| { assert fat[ch[i]] == ch[k]; }
    }
  }

  // The writer's own cursor moves on; the cursor of any other handle, even one
  // that reads the growing file, stays on its block.
  lemma PutKeepsCursor(s: FsState, c: Chains, h: int, x: byte, g: int)
    requires AtWork(s, c, h) && Capacity(s, h) > 0
    requires 0 <= g < HANDLETABLE_SIZE && CursorOk(s.handles[g], s.dir, c)
    requires g != h && IsWriter(s.handles[g]) ==> s.handles[g].dirIndex != s.handles[h].dirIndex
    ensures CursorOk(PutByte(s, h, x).handles[g], PutByte(s, h, x).dir, ChainsAfterPut(s, c, h))
  {
    hide NamesUnique, Disjoint, NoneLost, EntryOk, OnChain;
    WriterAtEnd(s, c, h);
    FreeBlockExists(s.fat);
    var e := s.handles[h];
    if e.offset % BLOCK_SIZE == BLOCK_SIZE - 1 {
      assert (e.offset + 1) / BLOCK_SIZE == |c[e.dirIndex]|;
    } else {
      assert (e.offset + 1) / BLOCK_SIZE == e.offset / BLOCK_SIZE;
    }
  }

  lemma WritersDiffer(handles: seq<Handle>, h: int, g: int)
    requires OneWriter(handles) && 0 <= h < |handles| && 0 <= g < |handles|
    ensures g != h && IsWriter(handles[g]) && IsWriter(handles[h]) ==> handles[g].dirIndex != handles[h].dirIndex
  {
  }

  lemma PutKeepsHandles(s: FsState, c: Chains, h: int, x: byte)
    requires Writing(s, c, h) && Capacity(s, h) > 0
    ensures HandlesOk(PutByte(s, h, x).handles, PutByte(s, h, x).dir, ChainsAfterPut(s, c, h))
  {
    hide Disjoint, NoneLost, NamesUnique, EntryOk, CursorOk;
    var r, c' := PutByte(s, h, x), ChainsAfterPut(s, c, h);
    forall g | 0 <= g < HANDLETABLE_SIZE
      ensures CursorOk(r.handles[g], r.dir, c')
    {
      WritersDiffer(s.handles, h, g);
      PutKeepsCursor(s, c, h, x, g);
    }
    assert OneWriter(r.handles);
  }

  // Every write of one byte keeps the invariant.
  lemma PutKeepsValid(s: FsState, c: Chains, h: int, x: byte)
    requires Writing(s, c, h) && Capacity(s, h) > 0
    ensures Writing(PutByte(s, h, x), ChainsAfterPut(s, c, h), h)
    ensures Capacity(PutByte(s, h, x), h) == Capacity(s, h) - 1
  {
    PutKeepsStructure(s, c, h, x);
    PutKeepsHandles(s, c, h, x);
    WriterAtEnd(s, c, h);
    FreeBlockExists(s.fat);
    var j := FirstFree(s.fat);
    if j < FAT_SIZE {
      var cur := s.handles[h].current;
      assert s.fat[cur] == EOF_FAT_ENTRY by {
        LinkOnChain(s.fat, s.dir, c, s.handles[h].dirIndex, |c[s.handles[h].dirIndex]| - 1);
      }
      CountFreeUpdate(s.fat, cur, j);
      CountFreeUpdate(s.fat[cur := j], j, EOF_FAT_ENTRY);
      FreeBlockOffChains(s.fat, s.dir, c, j);
    }
  }

  // ----- Contents -----

  // The one device byte that a write of one byte changes outside free blocks.
  lemma DiskAfterPut(s: FsState, h: int, x: byte, b: nat, k: nat)
    requires Opened(s, h)
    requires b < FAT_SIZE && k < BLOCK_SIZE && s.fat[b] != FREE_FAT_ENTRY
    ensures PutByte(s, h, x).disk[b][k] ==
            if b == s.handles[h].current && k == s.handles[h].offset % BLOCK_SIZE then x else s.disk[b][k]
  {
  }

  // The bytes in front of the cursor lie elsewhere.
  lemma BytesInFront(ch: seq<nat>, offset: int, k: int)
    requires forall i, j :: 0 <= i < j < |ch| ==> ch[i] != ch[j]
    requires 0 <= k < offset && ch != [] && offset / BLOCK_SIZE == |ch| - 1
    ensures k / BLOCK_SIZE < |ch|
    ensures ch[k / BLOCK_SIZE] == Last(ch) ==> k % BLOCK_SIZE != offset % BLOCK_SIZE
  {
  }

  // Every byte of every file stays, except that the writer's file has one more.
  lemma PutKeepsByte(s: FsState, c: Chains, h: int, x: byte, i: nat, k: int)
    requires Writing(s, c, h)
    requires i < DIR_SIZE && Used(s.dir[i]) && 0 <= k < s.dir[i].size
    ensures ByteAt(PutByte(s, h, x).disk, ChainsAfterPut(s, c, h)[i], k) == ByteAt(s.disk, c[i], k)
  {
    WriterAtEnd(s, c, h);
    assert EntryOk(s.fat, s.dir[i], c[i]);
    LinkOnChain(s.fat, s.dir, c, i, k / BLOCK_SIZE);
    var e := s.handles[h];
    DiskAfterPut(s, h, x, c[i][k / BLOCK_SIZE], k % BLOCK_SIZE);
    if i == e.dirIndex {
      BytesInFront(c[i], e.offset, k);
    } else {
      OtherChain(c, e.dirIndex, i);
    }
  }

  lemma PutLastByte(s: FsState, c: Chains, h: int, x: byte)
    requires Writing(s, c, h) && Capacity(s, h) > 0
    ensures var e := s.handles[h];
            ByteAt(PutByte(s, h, x).disk, ChainsAfterPut(s, c, h)[e.dirIndex], e.offset) == x
  {
    WriterAtEnd(s, c, h);
    var e := s.handles[h];
    LinkOnChain(s.fat, s.dir, c, e.dirIndex, |c[e.dirIndex]| - 1);
    DiskAfterPut(s, h, x, e.current, e.offset % BLOCK_SIZE);
  }

  // The slots of other files keep their bytes, the slot of this one gains x.
  lemma PutSlot(s: FsState, c: Chains, h: int, x: byte, i: nat)
    requires Writing(s, c, h) && Capacity(s, h) > 0
    requires i < DIR_SIZE && Used(s.dir[i])
    ensures SlotBytes(PutByte(s, h, x), ChainsAfterPut(s, c, h), i)
            == SlotBytes(s, c, i) + (if i == s.handles[h].dirIndex then [x] else [])
  {
    hide EntryOk, Disjoint, NoneLost, HandlesOk, CursorOk, PutByte, ChainsAfterPut, NamesUnique, ByteAt;
    PutIs(s, c, h, x);
    var r, c', size := PutByte(s, h, x), ChainsAfterPut(s, c, h), s.dir[i].size;
    SizesNonNegative(s, c);
    forall k | 0 <= k < size
      ensures ByteAt(r.disk, c'[i], k) == ByteAt(s.disk, c[i], k)
    {
      PutKeepsByte(s, c, h, x, i, k);
    }
    PutLastByte(s, c, h, x);
    BytesGrow(s.disk, c[i], r.disk, c'[i], size);
  }

  lemma SizesNonNegative(s: FsState, c: Chains)
    requires ValidWith(s, c)
    ensures forall i :: 0 <= i < DIR_SIZE && Used(s.dir[i]) ==> 0 <= s.dir[i].size
  {
    forall i | 0 <= i < DIR_SIZE && Used(s.dir[i]) ensures 0 <= s.dir[i].size { assert EntryOk(s.fat, s.dir[i], c[i]); }
  }

  lemma BytesGrow(disk: seq<Block>, ch: seq<nat>, disk': seq<Block>, ch': seq<nat>, size: nat)
    requires forall k :: 0 <= k < size ==> ByteAt(disk', ch', k) == ByteAt(disk, ch, k)
    ensures FileBytes(disk', ch', size) == FileBytes(disk, ch, size)
    ensures FileBytes(disk', ch', size + 1) == FileBytes(disk, ch, size) + [ByteAt(disk', ch', size)]
  {
    hide ByteAt;
  }

  // Writing one byte appends it to the file behind the handle and touches no
  // other file.
  lemma PutAppends(s: FsState, c: Chains, h: int, x: byte)
    requires Writing(s, c, h) && Capacity(s, h) > 0
    ensures Writing(PutByte(s, h, x), ChainsAfterPut(s, c, h), h)
    ensures var n := CStr(s.dir[s.handles[h].dirIndex].name);
            n in FilesWith(s, c) &&
            FilesWith(PutByte(s, h, x), ChainsAfterPut(s, c, h)) == FilesWith(s, c)[n := FilesWith(s, c)[n] + [x]]
  {
    hide EntryOk, Disjoint, NoneLost, HandlesOk, CursorOk, SlotBytes, PutByte, ChainsAfterPut, NamesUnique;
    PutKeepsValid(s, c, h, x);
    PutIs(s, c, h, x);
    var r, c', d := PutByte(s, h, x), ChainsAfterPut(s, c, h), s.handles[h].dirIndex;
    forall i | 0 <= i < DIR_SIZE && Used(s.dir[i])
      ensures SlotBytes(r, c', i) == SlotBytes(s, c, i) + (if i == d then [x] else [])
    {
      PutSlot(s, c, h, x, i);
    }
    MapUpdated(s.dir, Contents(s, c), r.dir, Contents(r, c'), d);
  }

  // ----- Whole writes -----

  ghost predicate Writer(s: FsState, h: int) {
    Valid(s) && Opened(s, h) && s.handles[h].mode == WRITE
  }

  // The name of the file behind an open handle.
  ghost function HandleName(s: FsState, h: int): seq<byte>
    requires Opened(s, h)
  {
    CStr(s.dir[s.handles[h].dirIndex].name)
  }

  lemma PutValid(s: FsState, h: int, x: byte)
    requires Writer(s, h) && Capacity(s, h) > 0
    ensures Writer(PutByte(s, h, x), h)
    ensures Capacity(PutByte(s, h, x), h) == Capacity(s, h) - 1
    ensures HandleName(s, h) in FilesOf(s)
    ensures FilesOf(PutByte(s, h, x)) == FilesOf(s)[HandleName(s, h) := FilesOf(s)[HandleName(s, h)] + [x]]
  {
    var c := ValidChains(s);
    PutKeepsValid(s, c, h, x);
    PutAppends(s, c, h, x);
    ValidIs(PutByte(s, h, x), ChainsAfterPut(s, c, h));
  }

  // The file behind a valid handle exists.
  lemma HandleFile(s: FsState, h: int)
    requires Valid(s) && Opened(s, h)
    ensures HandleName(s, h) in FilesOf(s)
    ensures |FilesOf(s)[HandleName(s, h)]| == s.dir[s.handles[h].dirIndex].size
    ensures FilesOf(s)[HandleName(s, h)] == SlotBytes(s, ChainsOf(s.fat, s.dir), s.handles[h].dirIndex)
  {
    var c := ValidChains(s);
    assert CursorOk(s.handles[h], s.dir, c);
    assert EntryOk(s.fat, s.dir[s.handles[h].dirIndex], c[s.handles[h].dirIndex]);
    LookupOwn(s.dir, s.handles[h].dirIndex);
  }

  // As many bytes as fit are appended to the one file, the remaining capacity
  // falls by their number, and the invariant is kept.
  lemma {:induction false} PutBytesAppends(s: FsState, h: int, data: seq<byte>)
    requires Writer(s, h) && |data| <= Capacity(s, h)
    ensures Writer(PutBytes(s, h, data), h)
    ensures Capacity(PutBytes(s, h, data), h) == Capacity(s, h) - |data|
    ensures HandleName(s, h) in FilesOf(s)
    ensures FilesOf(PutBytes(s, h, data)) == FilesOf(s)[HandleName(s, h) := FilesOf(s)[HandleName(s, h)] + data]
    ensures HandleName(PutBytes(s, h, data), h) == HandleName(s, h)
  {
    hide Valid, FilesOf, Capacity, PutByte;
    HandleFile(s, h);
    var n := HandleName(s, h);
    if data == [] {
      assert FilesOf(s)[n] + data == FilesOf(s)[n];
      assert FilesOf(s)[n := FilesOf(s)[n] + data] == FilesOf(s);
    } else {
      var front := data[..|data| - 1];
      PutBytesAppends(s, h, front);
      PutBytesFrame(s, h, data);
      var m := PutBytes(s, h, front);
      PutValid(m, h, data[|data| - 1]);
      assert FilesOf(s)[n] + data == (FilesOf(s)[n] + front) + [data[|data| - 1]] by {
        assert data == front + [data[|data| - 1]];
      }
    }
  }

  // What PutBytes leaves alone.
  lemma {:induction false} PutBytesFrame(s: FsState, h: int, data: seq<byte>)
    requires Opened(s, h)
    ensures var r := PutBytes(s, h, data);
            && r.formatted == s.formatted
            && r.handles[h].offset == s.handles[h].offset + |data|
            && (forall g :: 0 <= g < HANDLETABLE_SIZE && g != h ==> r.handles[g] == s.handles[g])
            && (forall i :: 0 <= i < DIR_SIZE ==> r.dir[i].name == s.dir[i].name && r.dir[i].inUse == s.dir[i].inUse)
            && r.handles[h].mode == s.handles[h].mode && r.handles[h].dirIndex == s.handles[h].dirIndex
            && (forall i :: 0 <= i < DIR_SIZE && i != s.handles[h].dirIndex ==> r.dir[i] == s.dir[i])
            && r.dir[s.handles[h].dirIndex].size == s.dir[s.handles[h].dirIndex].size + |data|
  {
    if data != [] { PutBytesFrame(s, h, data[..|data| - 1]); }
  }

  // The view of the handles after a write of n bytes.
  lemma PutBytesViews(s: FsState, h: int, data: seq<byte>)
    requires Opened(s, h) && s.handles[h].mode == WRITE
    ensures Views(PutBytes(s, h, data)) ==
            Views(s)[h := Some(View(HandleName(s, h), s.handles[h].offset + |data|, WRITE))]
  {
    hide PutBytes;
    PutBytesFrame(s, h, data);
    var r := PutBytes(s, h, data);
    forall g | 0 <= g < HANDLETABLE_SIZE && g != h
      ensures ViewOf(r, g) == ViewOf(s, g)
    {
      assert r.handles[g] == s.handles[g];
    }
  }

  // In a valid state a full block finds a free one while bytes remain that fit.
  lemma RoomForOne(s: FsState, h: int)
    requires Writer(s, h) && Capacity(s, h) > 0
    ensures !Misses(s, h)
  {
    hide CountFree, FirstFreeFrom, StructureOk, BootOk;
    var c := ValidChains(s);
    WriterAtEnd(s, c, h);
    FreeBlockExists(s.fat);
  }

  lemma {:induction false} NothingMissed(s: FsState, h: int, data: seq<byte>)
    requires Writer(s, h) && |data| <= Capacity(s, h)
    ensures FirstMiss(s, h, data) == |data|
  {
    hide PutBytes, Capacity, FilesOf, HandleName, Misses, Valid;
    if data != [] {
      var front := data[..|data| - 1];
      NothingMissed(s, h, front);
      PutBytesAppends(s, h, front);
      RoomForOne(PutBytes(s, h, front), h);
    }
  }

  // So a write is an append of the bytes that fit, and "can't locate a free
  // block" is not thrown there.
  lemma WriteIsPutBytes(s: FsState, h: int, data: seq<byte>, count: int)
    requires Writer(s, h) && count <= |data|
    ensures Capacity(s, h) >= 0 && CanWrite(s, h, data, count)
    ensures var n := Min(count, Capacity(s, h));
            WriteSpec(s, h, data, count) == (if n < 0 then s else PutBytes(s, h, data[..n]), Ok(n))
  {
    hide PutBytes, FirstMiss, StructureOk, BootOk, HandlesOk;
    var n := Min(count, Capacity(s, h));
    var c := ValidChains(s);
    if n > 0 { NothingMissed(s, h, data[..n]); }
    assert PutBytes(s, h, data[..0]) == s by { NoBytesPut(s, h, data[..0]); }
  }

  lemma NoBytesPut(s: FsState, h: int, data: seq<byte>)
    requires Opened(s, h) && data == []
    ensures PutBytes(s, h, data) == s && FirstMiss(s, h, data) == 0
  {
  }

  // What a write of count bytes may do: throw and leave the state alone, or
  // append the first n bytes of the buffer to the file behind the handle, n
  // being the smaller of count and the remaining capacity (a negative count is
  // handed back), and move that handle.
  ghost predicate WriteEffect(s: FsState, h: int, data: seq<byte>, count: int, r: FsState, out: Result<int>)
    requires Shape(s) && Shape(r) && count <= |data|
  {
    if !(0 <= h < HANDLETABLE_SIZE) then out == Throw(InvalidHandle) && r == s
    else if !IsWriter(s.handles[h]) then out == Throw(WrongMode) && r == s
    else
      var n := Min(count, Capacity(s, h));
      && out == Ok(n)
      && (n <= 0 ==> r == s)
      && (n >= 0 ==>
            && Opened(r, h) && Capacity(r, h) == Capacity(s, h) - n
            && HandleName(s, h) in FilesOf(s)
            && FilesOf(r) == FilesOf(s)[HandleName(s, h) := FilesOf(s)[HandleName(s, h)] + data[..n]]
            && Views(r) == Views(s)[h := Some(View(HandleName(s, h), s.handles[h].offset + n, WRITE))])
  }

  lemma WriteCorrect(s: FsState, h: int, data: seq<byte>, count: int)
    requires Valid(s) && count <= |data|
    ensures Valid(WriteSpec(s, h, data, count).0)
    ensures WriteEffect(s, h, data, count, WriteSpec(s, h, data, count).0, WriteSpec(s, h, data, count).1)
  {
    hide Valid, ValidWith, FilesOf, Views;
    var c := ValidChains(s);
    if 0 <= h < HANDLETABLE_SIZE && IsWriter(s.handles[h]) {
      WriteThroughWriter(s, h, data, count);
    }
  }

  lemma WriteThroughWriter(s: FsState, h: int, data: seq<byte>, count: int)
    requires Writer(s, h) && count <= |data|
    ensures Valid(WriteSpec(s, h, data, count).0)
    ensures WriteEffect(s, h, data, count, WriteSpec(s, h, data, count).0, WriteSpec(s, h, data, count).1)
  {
    hide Valid, FilesOf, Views, HandleName, WriteSpec, Shape, Capacity;
    WriteIsPutBytes(s, h, data, count);
    var n := Min(count, Capacity(s, h));
    if n >= 0 {
      var front := data[..n];
      PutBytesAppends(s, h, front);
      PutBytesViews(s, h, front);
    }
  }

  // ----- Chunking -----

  lemma {:induction false} PutBytesConcat(s: FsState, h: int, a: seq<byte>, b: seq<byte>)
    requires Opened(s, h)
    ensures PutBytes(s, h, a + b) == PutBytes(PutBytes(s, h, a), h, b)
  {
    if b == [] {
      assert a + b == a;
    } else {
      var n := |b| - 1;
      assert (a + b)[..|a + b| - 1] == a + b[..n];
      PutBytesConcat(s, h, a, b[..n]);
    }
  }

  // Chunking does not matter: two writes through a handle leave the same
  // table, directory, handles and device as one write of both buffers, and
  // report the same number of bytes, whether or not everything fits.
  lemma WriteChunks(s: FsState, h: int, a: seq<byte>, b: seq<byte>)
    requires Writer(s, h)
    ensures var (s1, out1) := WriteSpec(s, h, a, |a|);
            var (s2, out2) := WriteSpec(s1, h, b, |b|);
            var (t, out) := WriteSpec(s, h, a + b, |a + b|);
            s2 == t && out1.Ok? && out2.Ok? && out == Ok(out1.value + out2.value)
  {
    hide Valid, ValidWith, FilesOf, Capacity, WriteSpec, HandleName, PutBytes;
    var cap := Capacity(s, h);
    WriteIsPutBytes(s, h, a, |a|);
    var n1, n2 := Min(|a|, cap), Min(|b|, cap - Min(|a|, cap));
    var a', b' := a[..n1], b[..n2];
    PutBytesAppends(s, h, a');
    var s1 := PutBytes(s, h, a');
    WriteIsPutBytes(s1, h, b, |b|);
    WriteIsPutBytes(s, h, a + b, |a + b|);
    PutBytesConcat(s, h, a', b');
    PrefixConcat(a, b, cap);
  }

  lemma PrefixConcat(a: seq<byte>, b: seq<byte>, cap: nat)
    ensures Min(|a + b|, cap) == Min(|a|, cap) + Min(|b|, cap - Min(|a|, cap))
    ensures (a + b)[..Min(|a + b|, cap)] == a[..Min(|a|, cap)] + b[..Min(|b|, cap - Min(|a|, cap))]
  {
  }
}
