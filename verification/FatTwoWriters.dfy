// Two WRITE handles on one file: open() hands them out, and then bytes and blocks
// are lost.
module FatTwoWriters {
  import opened FatTypes
  import opened FatInvariant
  import opened FatOps
  import opened FatFiles
  import opened FatWriteProofs
  import opened FatBuffering
  import opened FatDirProofs
  import opened FatRoom

  // ----- Several writers -----

  ghost predicate CursorsOk(s: FsState, c: Chains)
    requires |s.dir| == |c| == DIR_SIZE
  {
    forall g :: 0 <= g < |s.handles| ==> CursorOk(s.handles[g], s.dir, c)
  }

  ghost predicate OtherWriter(s: FsState, h: int)
    requires 0 <= h < |s.handles|
  {
    exists g :: 0 <= g < |s.handles| && g != h && IsWriter(s.handles[g]) &&
      s.handles[g].dirIndex == s.handles[h].dirIndex
  }

  // Writing a byte keeps all cursors in order exactly when no other WRITE
  // handle is open on the file; open() does not see to that.
  lemma OneWriterNeeded(s: FsState, c: Chains, h: int, x: byte)
    requires AtWork(s, c, h) && Capacity(s, h) > 0
    requires CursorsOk(s, c)
    ensures |PutByte(s, h, x).dir| == |ChainsAfterPut(s, c, h)| == DIR_SIZE
    ensures CursorsOk(PutByte(s, h, x), ChainsAfterPut(s, c, h)) <==> !OtherWriter(s, h)
  {
    hide NamesUnique, Disjoint, NoneLost, EntryOk, CountFree, FirstFree, FirstFreeFrom;
    var r, c' := PutByte(s, h, x), ChainsAfterPut(s, c, h);
    if OtherWriter(s, h) {
      var g :| 0 <= g < HANDLETABLE_SIZE && g != h && IsWriter(s.handles[g])
               && s.handles[g].dirIndex == s.handles[h].dirIndex;
      assert !CursorOk(r.handles[g], r.dir, c');
    } else {
      forall g | 0 <= g < HANDLETABLE_SIZE ensures CursorOk(r.handles[g], r.dir, c') { PutKeepsCursor(s, c, h, x, g); }
    }
  }

  // Two writers of one file.
  ghost predicate TwoWriters(s: FsState, c: Chains, h: int, g: int) {
    AtWork(s, c, h) && AtWork(s, c, g) && h != g && s.handles[g].dirIndex == s.handles[h].dirIndex && s.formatted
  }

  // open() hands out a second WRITE handle on a file that is being written; the
  // state is no longer valid then.
  lemma SecondWriterOpens(s: FsState, c: Chains, g: nat, name: Name)
    requires ValidWith(s, c) && g < HANDLETABLE_SIZE && IsWriter(s.handles[g])
    requires CStr(s.dir[s.handles[g].dirIndex].name) == name && FreeHandle(s.handles) < HANDLETABLE_SIZE
    ensures var (r, out) := OpenSpec(s, name, WRITE); var h := FreeHandle(s.handles);
            out == Ok(h) && TwoWriters(r, c, h, g) && !Valid(r)
  {
    hide NamesUnique, Disjoint, NoneLost, BootOk, ChainOf, CStr, EntryOk, LookupFrom, FreeHandleFrom;
    var d := s.handles[g].dirIndex;
    assert CursorOk(s.handles[g], s.dir, c);
    LookupOwn(s.dir, d);
    EntryChain(s.fat, s.dir, c, d);
    FreeHandleFree(s.handles);
    var r := OpenSpec(s, name, WRITE).0;
    TwoWritersInvalid(r, FreeHandle(s.handles), g);
  }

  lemma FreeHandleFree(handles: seq<Handle>)
    ensures var h := FreeHandle(handles); h < |handles| ==> !handles[h].inUse
  {
  }

  lemma TwoWritersInvalid(s: FsState, h: nat, g: nat)
    requires h < |s.handles| && g < |s.handles| && h != g && IsWriter(s.handles[h]) && IsWriter(s.handles[g])
    requires s.handles[h].dirIndex == s.handles[g].dirIndex
    ensures !Valid(s)
  {
    hide StructureOk, BootOk, CursorOk, OneWriter;
    if Valid(s) {
      var c := ValidChains(s);
      WritersDiffer(s.handles, h, g);
    }
  }

  // The next byte fills the last block of the file.
  predicate AtBlockEnd(s: FsState, h: int)
    requires 0 <= h < |s.handles|
  {
    s.handles[h].offset % BLOCK_SIZE == BLOCK_SIZE - 1
  }

  // The chain of the file after two bytes have been written at a block end.
  ghost function SecondFree(fat: seq<nat>): nat
    requires FirstFree(fat) < |fat|
  {
    FirstFree(fat[FirstFree(fat) := EOF_FAT_ENTRY])
  }

  ghost function ChainAfter(s: FsState, c: Chains, h: int): seq<nat>
    requires SlotKnown(s, c, h)
  {
    var ch := c[s.handles[h].dirIndex];
    if AtBlockEnd(s, h) && FirstFree(s.fat) < |s.fat| then ch + [SecondFree(s.fat)] else ch
  }

  ghost predicate SlotKnown(s: FsState, c: Chains, h: int) {
    0 <= h < |s.handles| && 0 <= s.handles[h].dirIndex < |c|
  }

  // The byte that takes the place behind y: what the device held there, or at a
  // block end the first byte of the block before.
  ghost function Leftover(s: FsState, c: Chains, h: int): byte
    requires SlotKnown(s, c, h) && s.handles[h].offset >= 0
  {
    var size := s.handles[h].offset;
    ByteAt(s.disk, c[s.handles[h].dirIndex],
           if size % BLOCK_SIZE == BLOCK_SIZE - 1 then size / BLOCK_SIZE * BLOCK_SIZE else size + 1)
  }

  // Where both writers stand.
  lemma WritersStand(s: FsState, c: Chains, h: int, g: int)
    requires TwoWriters(s, c, h, g)
    ensures var e, d := s.handles[h], s.handles[h].dirIndex;
            && 0 <= d < DIR_SIZE && |c| == DIR_SIZE && Used(s.dir[d]) && c[d] != []
            && s.handles[g].current == e.current == Last(c[d]) && e.current < FAT_SIZE
            && s.fat[e.current] == EOF_FAT_ENTRY
            && s.handles[g].offset == e.offset == s.dir[d].size && 0 <= e.offset && e.offset / BLOCK_SIZE == |c[d]| - 1
            && IsChain(s.fat, s.dir[d].start, c[d]) && (forall j :: 0 <= j < |c[d]| ==> c[d][j] < FAT_SIZE)
            && (forall j, k :: 0 <= j < k < |c[d]| ==> c[d][j] != c[d][k])
            && Reserved(s.fat)
  {
    hide NamesUnique, NoneLost;
    WriterAtEnd(s, c, h);
    WriterAtEnd(s, c, g);
    var d := s.handles[h].dirIndex;
    assert EntryOk(s.fat, s.dir[d], c[d]);
    LinkOnChain(s.fat, s.dir, c, d, |c[d]| - 1);
  }

  // Neither writer, by itself, can miss a block; both stand on a block in use.
  lemma WritersInOrder(s: FsState, c: Chains, h: int, g: int)
    requires TwoWriters(s, c, h, g)
    ensures InOrder(s, h) && InOrder(s, g) && Capacity(s, h) == HandleRoom(s, h)
  {
    hide NamesUnique, NoneLost, Disjoint, CountFree;
    WriterAtEnd(s, c, h);
    WriterAtEnd(s, c, g);
    var d := s.handles[h].dirIndex;
    assert EntryOk(s.fat, s.dir[d], c[d]);
    LinkOnChain(s.fat, s.dir, c, d, |c[d]| - 1);
  }

  // Data written through one of them, then data written through the other: the
  // second write throws for want of a free block exactly when the blocks that
  // each of them fills are together more than are free. The first never does.
  lemma SecondWriteIff(s: FsState, c: Chains, h: int, g: int, a: seq<byte>, b: seq<byte>)
    requires TwoWriters(s, c, h, g)
    ensures var room := Capacity(s, h);
            var first, second := Min(|a|, room), Min(|b|, room - Min(|a|, room));
            var (r, out) := WriteSpec(s, h, a, |a|);
            && out == Ok(first) && Shape(r)
            && WriteSpec(r, g, b, |b|).1 ==
               if second > 0 && Filled(s, h, first) + Filled(s, g, second) > CountFree(s.fat) then Throw(NoFreeBlock)
               else Ok(second)
  {
    hide StructureOk, CountFree, PutBytes, FirstMiss, CursorOk;
    WritersInOrder(s, c, h, g);
    WritersStand(s, c, h, g);
    var first := Min(|a|, Capacity(s, h));
    WriteIs(s, h, a, |a|);
    NoBytesPut(s, h, a[..0]);
    var r := PutBytes(s, h, a[..first]);
    PutTakes(s, h, a[..first]);
    PutBytesFrame(s, h, a[..first]);
    assert r.handles[g] == s.handles[g] && r.dir[s.handles[h].dirIndex].size == s.handles[h].offset + first;
    RoomLeft(s.handles[h].offset, first, CountFree(s.fat));
    assert Capacity(r, g) == Capacity(s, h) - first;
    WriteIs(r, g, b, |b|);
  }

  // Room in free blocks and the rest of a last one, before and after n bytes.
  lemma RoomLeft(size: nat, n: nat, free: int)
    ensures var taken := (size % BLOCK_SIZE + n) / BLOCK_SIZE;
            (free - taken) * BLOCK_SIZE + (BLOCK_SIZE - (size + n) % BLOCK_SIZE) ==
            free * BLOCK_SIZE + (BLOCK_SIZE - size % BLOCK_SIZE) - n
  {
  }

  // One byte through the first writer.
  lemma FirstWrite(s: FsState, c: Chains, h: int, g: int, x: byte)
    requires TwoWriters(s, c, h, g) && Capacity(s, h) > 1
    ensures WriteSpec(s, h, [x], 1) == (PutByte(s, h, x), Ok(1))
    ensures var r := PutByte(s, h, x);
            Opened(r, g) && r.handles[g] == s.handles[g] && r.formatted && Capacity(r, g) > 0
  {
    hide StructureOk, CountFree, FirstFree, IsChain, CursorOk, PutByte;
    WritersStand(s, c, h, g);
    WritersInOrder(s, c, h, g);
    OneByte(s, h, x);
    PutTakes(s, h, [x]);
    OneByteFrame(s, h, x);
  }

  // With two writers of one file the byte written first is gone: both count
  // toward the size, but the file goes on with the second and a leftover.
  lemma SecondWriterOverwrites(s: FsState, c: Chains, h: int, g: int, x: byte, y: byte)
    requires TwoWriters(s, c, h, g) && Capacity(s, h) > 1 && !(AtBlockEnd(s, h) && CountFree(s.fat) == 1)
    ensures var r := WriteSpec(s, h, [x], 1).0; var t := WriteSpec(r, g, [y], 1).0;
            var d, size := s.handles[h].dirIndex, s.handles[h].offset; var ch := ChainAfter(s, c, h);
            && size >= 0 && t.dir == s.dir[d := s.dir[d].(size := size + 2)]
            && IsChain(t.fat, t.dir[d].start, ch)
            && FileBytes(t.disk, ch, size + 2) == FileBytes(s.disk, c[d], size) + [y, Leftover(s, c, h)]
  {
    hide StructureOk, CountFree, FirstFree, IsChain, PutByte, WriteSpec, FileBytes;
    WritersStand(s, c, h, g);
    FirstWrite(s, c, h, g, x);
    var r := PutByte(s, h, x);
    OneByte(r, g, y);
    if AtBlockEnd(s, h) { OverwrittenAtEnd(s, c, h, g, x, y); } else { OverwrittenInside(s, c, h, g, x, y); }
  }

  lemma OverwrittenInside(s: FsState, c: Chains, h: int, g: int, x: byte, y: byte)
    requires TwoWriters(s, c, h, g) && !AtBlockEnd(s, h)
    ensures var t := PutByte(PutByte(s, h, x), g, y);
            var d, size := s.handles[h].dirIndex, s.handles[h].offset; var ch := ChainAfter(s, c, h);
            && size >= 0 && t.dir == s.dir[d := s.dir[d].(size := size + 2)]
            && IsChain(t.fat, t.dir[d].start, ch)
            && FileBytes(t.disk, ch, size + 2) == FileBytes(s.disk, c[d], size) + [y, Leftover(s, c, h)]
  {
    hide StructureOk, FirstFreeFrom, IsChain, CursorOk;
    WritersStand(s, c, h, g);
    var r := PutByte(s, h, x);
    var t := PutByte(r, g, y);
    var d, size := s.handles[h].dirIndex, s.handles[h].offset;
    var ch, b := c[d], s.handles[h].current;
    var o := size % BLOCK_SIZE;
    assert r.disk == s.disk[b := s.disk[b][o := x]] && r.handles[g] == s.handles[g];
    assert t.disk == r.disk[b := r.disk[b][o := y]];
    assert r.disk[b][o := y] == s.disk[b][o := y];
    assert t.disk == s.disk[b := s.disk[b][size % BLOCK_SIZE := y]];
    forall k: nat | k < size + 2
      ensures ByteAt(t.disk, ch, k) == if k == size then y else ByteAt(s.disk, ch, k)
    {
      InChain(ch, size, k);
    }
  }

  // Positions in a chain whose last block holds position size.
  lemma InChain(ch: seq<nat>, size: nat, k: nat)
    requires ch != [] && size / BLOCK_SIZE == |ch| - 1 && k <= size + 1
             && (k == size + 1 ==> size % BLOCK_SIZE != BLOCK_SIZE - 1)
    requires forall j, l :: 0 <= j < l < |ch| ==> ch[j] != ch[l]
    ensures k / BLOCK_SIZE < |ch|
    ensures ch[k / BLOCK_SIZE] == ch[|ch| - 1] && k % BLOCK_SIZE == size % BLOCK_SIZE ==> k == size
  {
  }

  // The block that the first writer takes, and the one behind it.
  lemma TwoFree(s: FsState, c: Chains, h: int, g: int)
    requires TwoWriters(s, c, h, g) && CountFree(s.fat) > 1
    ensures var j := FirstFree(s.fat);
            && 3 <= j < FAT_SIZE && s.fat[j] == FREE_FAT_ENTRY && !OnChain(c, j)
            && var j2 := SecondFree(s.fat);
               3 <= j2 < FAT_SIZE && j2 != j && s.fat[j2] == FREE_FAT_ENTRY && !OnChain(c, j2)
  {
    hide FirstFreeFrom, NamesUnique, EntryOk, Disjoint, NoneLost;
    FreeBlockExists(s.fat);
    var j := FirstFree(s.fat);
    CountFreeUpdate(s.fat, j, EOF_FAT_ENTRY);
    FreeBlockExists(s.fat[j := EOF_FAT_ENTRY]);
    FreeBlockOffChains(s.fat, s.dir, c, j);
    FreeBlockOffChains(s.fat, s.dir, c, SecondFree(s.fat));
  }

  // Byte k of the file when the last block, full with y, has been continued by a
  // block that starts out as its copy.
  lemma ByteAfter(disk: seq<Block>, ch: seq<nat>, j: nat, other: Block, j2: nat, y: byte, size: nat, k: nat)
    requires ch != [] && |disk| >= FAT_SIZE && j < FAT_SIZE && j2 < FAT_SIZE && j !in ch && j2 !in ch && j != j2
    requires size % BLOCK_SIZE == BLOCK_SIZE - 1 && size / BLOCK_SIZE == |ch| - 1 && k < size + 2
    requires forall i :: 0 <= i < |ch| ==> ch[i] < FAT_SIZE
    requires forall i, l :: 0 <= i < l < |ch| ==> ch[i] != ch[l]
    ensures var b := Last(ch); var block: Block := disk[b][BLOCK_SIZE - 1 := y];
            ByteAt(disk[j := other][b := block][j2 := block], ch + [j2], k) ==
            if k == size then y
            else if k == size + 1 then ByteAt(disk, ch, size / BLOCK_SIZE * BLOCK_SIZE)
            else ByteAt(disk, ch, k)
  {
    var q := k / BLOCK_SIZE;
    if k <= size {
      assert q < |ch| && (ch + [j2])[q] == ch[q] && ch[q] in ch;
      if k < size && q == |ch| - 1 { assert k % BLOCK_SIZE != BLOCK_SIZE - 1; }
    } else {
      assert q == |ch| && k % BLOCK_SIZE == 0 && (ch + [j2])[q] == j2;
    }
  }

  // The link to the block that has been taken does not look like a free entry.
  lemma SecondTaken(fat: seq<nat>, b: nat, j: nat)
    requires b < |fat| && j == FirstFree(fat) < |fat| && j != FREE_FAT_ENTRY && fat[b] == EOF_FAT_ENTRY
    ensures FirstFree(fat[b := j][j := EOF_FAT_ENTRY]) == SecondFree(fat)
  {
    hide FirstFreeFrom;
    var one, two := fat[j := EOF_FAT_ENTRY], fat[b := j][j := EOF_FAT_ENTRY];
    forall k | 0 <= k < |fat| ensures one[k] == FREE_FAT_ENTRY <==> two[k] == FREE_FAT_ENTRY {}
    FirstFreeIs(two, SecondFree(fat));
  }

  lemma OverwrittenAtEnd(s: FsState, c: Chains, h: int, g: int, x: byte, y: byte)
    requires TwoWriters(s, c, h, g) && AtBlockEnd(s, h) && CountFree(s.fat) > 1
    ensures var t := PutByte(PutByte(s, h, x), g, y);
            var d, size := s.handles[h].dirIndex, s.handles[h].offset; var ch := ChainAfter(s, c, h);
            && size >= 0 && t.dir == s.dir[d := s.dir[d].(size := size + 2)]
            && IsChain(t.fat, t.dir[d].start, ch)
            && FileBytes(t.disk, ch, size + 2) == FileBytes(s.disk, c[d], size) + [y, Leftover(s, c, h)]
  {
    hide StructureOk, FirstFreeFrom, IsChain, CursorOk, CountFree, ByteAt;
    WritersStand(s, c, h, g);
    TwoFree(s, c, h, g);
    assert forall i :: i in c[s.handles[h].dirIndex] ==> OnChain(c, i);
    var d, size := s.handles[h].dirIndex, s.handles[h].offset;
    var ch, b, j, j2 := c[d], s.handles[h].current, FirstFree(s.fat), SecondFree(s.fat);
    var r := PutByte(s, h, x);
    var t := PutByte(r, g, y);
    SecondTaken(s.fat, b, j);
    assert r.fat == s.fat[b := j][j := EOF_FAT_ENTRY] && r.handles[g] == s.handles[g];
    assert t.fat == r.fat[b := j2][j2 := EOF_FAT_ENTRY];
    assert t.fat == s.fat[j := EOF_FAT_ENTRY][b := j2][j2 := EOF_FAT_ENTRY];
    ChainUntouched(s.fat, s.fat[j := EOF_FAT_ENTRY], s.dir[d].start, ch);
    ChainExtended(s.fat[j := EOF_FAT_ENTRY], s.dir[d].start, ch, j2);
    var first, block := s.disk[b][BLOCK_SIZE - 1 := x], s.disk[b][BLOCK_SIZE - 1 := y];
    assert r.disk == s.disk[b := first][j := first];
    assert r.disk[b][BLOCK_SIZE - 1 := y] == block;
    assert t.disk == r.disk[b := block][j2 := block];
    assert t.disk == s.disk[j := s.disk[b][BLOCK_SIZE - 1 := x]][b := block][j2 := block];
    forall k: nat | k < size + 2
      ensures ByteAt(t.disk, ch + [j2], k) ==
              if k == size then y else if k == size + 1 then Leftover(s, c, h) else ByteAt(s.disk, ch, k)
    {
      ByteAfter(s.disk, ch, j, s.disk[b][BLOCK_SIZE - 1 := x], j2, y, size, k);
    }
  }

  // The table afterwards, at a block end.
  lemma TableAfter(s: FsState, c: Chains, h: int, g: int, x: byte, y: byte)
    requires TwoWriters(s, c, h, g) && AtBlockEnd(s, h) && CountFree(s.fat) > 1
    ensures FirstFree(s.fat) < FAT_SIZE
    ensures var t := PutByte(PutByte(s, h, x), g, y);
            var j, j2, b := FirstFree(s.fat), SecondFree(s.fat), s.handles[h].current;
            && j < FAT_SIZE && j2 < FAT_SIZE && b < FAT_SIZE
            && t.fat == s.fat[b := j][j := EOF_FAT_ENTRY][b := j2][j2 := EOF_FAT_ENTRY]
  {
    hide StructureOk, FirstFreeFrom, IsChain, CursorOk, CountFree;
    WritersStand(s, c, h, g);
    TwoFree(s, c, h, g);
    SecondTaken(s.fat, s.handles[h].current, FirstFree(s.fat));
  }

  // The chains of all files afterwards.
  lemma ChainsAfter(s: FsState, c: Chains, h: int, g: int, x: byte, y: byte, i: nat)
    requires TwoWriters(s, c, h, g) && AtBlockEnd(s, h) && CountFree(s.fat) > 1
    requires i < DIR_SIZE && Used(s.dir[i])
    ensures var t := PutByte(PutByte(s, h, x), g, y); var d := s.handles[h].dirIndex;
            && |c| == DIR_SIZE && 0 <= d < DIR_SIZE && Used(t.dir[i])
            && IsChain(t.fat, t.dir[i].start, c[d := ChainAfter(s, c, h)][i])
  {
    hide FirstFreeFrom, CursorOk, CountFree, PutByte, NoneLost, NamesUnique, ChainAfter;
    WritersStand(s, c, h, g);
    TwoFree(s, c, h, g);
    TableAfter(s, c, h, g, x, y);
    OverwrittenAtEnd(s, c, h, g, x, y);
    OneByteFrame(s, h, x);
    var d, t := s.handles[h].dirIndex, PutByte(PutByte(s, h, x), g, y);
    if i != d {
      assert EntryOk(s.fat, s.dir[i], c[i]);
      OtherChain(c, d, i);
      forall k | 0 <= k < |c[i]| ensures t.fat[c[i][k]] == s.fat[c[i][k]] {
        assert c[i][k] in c[i];
        assert OnChain(c, c[i][k]);
      }
      ChainUntouched(s.fat, t.fat, s.dir[i].start, c[i]);
    }
  }

  // ... and at a block end the block that the first writer took is lost: not free
  // and on the chain of no file, so that no family of chains fits the table.
  lemma SecondWriterLosesBlock(s: FsState, c: Chains, h: int, g: int, x: byte, y: byte)
    requires TwoWriters(s, c, h, g) && AtBlockEnd(s, h) && CountFree(s.fat) > 1
    ensures var t := WriteSpec(WriteSpec(s, h, [x], 1).0, g, [y], 1).0; var j := FirstFree(s.fat);
            && 3 <= j < FAT_SIZE && t.fat[j] == EOF_FAT_ENTRY
            && (forall i, ch :: 0 <= i < DIR_SIZE && Used(t.dir[i]) && IsChain(t.fat, t.dir[i].start, ch) ==> j !in ch)
            && (forall c' :: !StructureOk(t.fat, t.dir, c'))
  {
    hide StructureOk, FirstFree, IsChain, CursorOk, CountFree, PutByte, WriteSpec, Capacity;
    WritersStand(s, c, h, g);
    EnoughRoom(s, h);
    FirstWrite(s, c, h, g, x);
    OneByte(PutByte(s, h, x), g, y);
    TwoFree(s, c, h, g);
    TableAfter(s, c, h, g, x, y);
    var t, j := PutByte(PutByte(s, h, x), g, y), FirstFree(s.fat);
    forall i, ch | 0 <= i < DIR_SIZE && Used(t.dir[i]) && IsChain(t.fat, t.dir[i].start, ch) ensures j !in ch {
      LostBlock(s, c, h, g, x, y, i, ch);
    }
    forall c' ensures !StructureOk(t.fat, t.dir, c') { LostNotStructure(t.fat, t.dir, c', j); }
  }

  lemma EnoughRoom(s: FsState, h: int)
    requires Opened(s, h) && AtBlockEnd(s, h) && CountFree(s.fat) > 1
    ensures Capacity(s, h) > 1
  {
    hide CountFree;
  }

  lemma LostBlock(s: FsState, c: Chains, h: int, g: int, x: byte, y: byte, i: nat, ch: seq<nat>)
    requires TwoWriters(s, c, h, g) && AtBlockEnd(s, h) && CountFree(s.fat) > 1 && i < DIR_SIZE
    requires var t := PutByte(PutByte(s, h, x), g, y); Used(t.dir[i]) && IsChain(t.fat, t.dir[i].start, ch)
    ensures FirstFree(s.fat) !in ch
  {
    hide StructureOk, FirstFreeFrom, IsChain, CursorOk, CountFree;
    WritersStand(s, c, h, g);
    TwoFree(s, c, h, g);
    ChainsAfter(s, c, h, g, x, y, i);
    var t, j := PutByte(PutByte(s, h, x), g, y), FirstFree(s.fat);
    var mine := c[s.handles[h].dirIndex := ChainAfter(s, c, h)][i];
    ChainsAgree(t.fat, t.dir[i].start, ch, mine);
    assert j !in c[i];
  }

  // A block that is neither free nor on a chain contradicts the invariant.
  lemma LostNotStructure(fat: seq<nat>, dir: seq<DirEntry>, c: Chains, j: nat)
    requires |fat| == FAT_SIZE && |dir| == DIR_SIZE && 3 <= j < FAT_SIZE && fat[j] != FREE_FAT_ENTRY
    requires forall i, ch :: 0 <= i < DIR_SIZE && Used(dir[i]) && IsChain(fat, dir[i].start, ch) ==> j !in ch
    ensures !StructureOk(fat, dir, c)
  {
    hide NamesUnique, Disjoint, IsChain;
    if StructureOk(fat, dir, c) { UsedOnChain(fat, dir, c, j); }
  }

  lemma UsedOnChain(fat: seq<nat>, dir: seq<DirEntry>, c: Chains, j: nat)
    requires StructureOk(fat, dir, c) && 3 <= j < FAT_SIZE && fat[j] != FREE_FAT_ENTRY
    ensures exists i, ch :: 0 <= i < DIR_SIZE && Used(dir[i]) && IsChain(fat, dir[i].start, ch) && j in ch
  {
    hide NamesUnique, Disjoint, IsChain;
    assert OnChain(c, j);
    var i :| 0 <= i < |c| && j in c[i];
    assert EntryOk(fat, dir[i], c[i]);
  }
}
