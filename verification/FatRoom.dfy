// How far write() gets through a handle before it finds no free block, on any
// state in which the handle stands on a block in use.
module FatRoom {
  import opened FatTypes
  import opened FatInvariant
  import opened FatOps
  import opened FatBuffering

  // A WRITE handle on a data block that is not free.
  ghost predicate InOrder(s: FsState, h: int) {
    && Opened(s, h) && s.handles[h].mode == WRITE && Reserved(s.fat)
    && 3 <= s.handles[h].current && s.fat[s.handles[h].current] != FREE_FAT_ENTRY
    && 0 <= s.dir[s.handles[h].dirIndex].size
  }

  // Blocks that n bytes fill from where the handle stands.
  function Filled(s: FsState, h: int, n: int): int
    requires 0 <= h < |s.handles|
  {
    (s.handles[h].offset % BLOCK_SIZE + n) / BLOCK_SIZE
  }

  // Bytes that can be put through h before one finds no free block.
  ghost function HandleRoom(s: FsState, h: int): int
    requires Opened(s, h)
  {
    CountFree(s.fat) * BLOCK_SIZE + (BLOCK_SIZE - 1 - s.handles[h].offset % BLOCK_SIZE)
  }

  // One byte takes a block exactly when it fills one.
  lemma PutTakesOne(s: FsState, h: int, x: byte)
    requires InOrder(s, h) && !Misses(s, h)
    ensures var t := PutByte(s, h, x);
            && InOrder(t, h) && CountFree(t.fat) == CountFree(s.fat) - Filled(s, h, 1)
            && t.handles[h].offset == s.handles[h].offset + 1
            && forall b :: 0 <= b < FAT_SIZE && s.fat[b] != FREE_FAT_ENTRY ==> t.fat[b] != FREE_FAT_ENTRY
  {
    hide CountFree, FirstFreeFrom;
    var cur, j := s.handles[h].current, FirstFree(s.fat);
    if s.handles[h].offset % BLOCK_SIZE == BLOCK_SIZE - 1 {
      assert s.fat[cur := j][j] == FREE_FAT_ENTRY;
      CountFreeUpdate(s.fat, cur, j);
      CountFreeUpdate(s.fat[cur := j], j, EOF_FAT_ENTRY);
    }
  }

  // As long as there are blocks enough, none is missed and exactly those that
  // are filled are taken.
  lemma {:induction false} PutTakes(s: FsState, h: int, data: seq<byte>)
    requires InOrder(s, h) && Filled(s, h, |data|) <= CountFree(s.fat)
    ensures FirstMiss(s, h, data) == |data|
    ensures var t := PutBytes(s, h, data);
            && InOrder(t, h) && CountFree(t.fat) == CountFree(s.fat) - Filled(s, h, |data|)
            && t.handles[h].offset == s.handles[h].offset + |data|
            && forall b :: 0 <= b < FAT_SIZE && s.fat[b] != FREE_FAT_ENTRY ==> t.fat[b] != FREE_FAT_ENTRY
  {
    hide CountFree, FirstFree, PutByte, Shape;
    if data != [] {
      var k := |data| - 1;
      PutTakes(s, h, data[..k]);
      var t := PutBytes(s, h, data[..k]);
      FreeBlockExists(t.fat);
      PutTakesOne(t, h, data[k]);
    }
  }

  // The first byte that finds no free block.
  lemma FirstMissIs(s: FsState, h: int, data: seq<byte>)
    requires InOrder(s, h)
    ensures FirstMiss(s, h, data) == Min(|data|, HandleRoom(s, h))
    ensures HandleRoom(s, h) == 1024 * CountFree(s.fat) + 1023 - s.handles[h].offset % 1024
  {
    hide CountFree, FirstFree, PutBytes, Shape;
    var k := HandleRoom(s, h);
    if |data| <= k {
      PutTakes(s, h, data);
    } else {
      PutTakes(s, h, data[..k]);
      var t := PutBytes(s, h, data[..k]);
      FreeBlockExists(t.fat);
      assert data[..k + 1][..k] == data[..k];
      assert FirstMiss(s, h, data[..k + 1]) == k;
      MissOfPrefix(s, h, data, k + 1);
    }
  }

  // write() misses no block exactly when the blocks that the adjusted count of
  // bytes fills are free, or no byte is written.
  lemma CanWriteIff(s: FsState, h: int, data: seq<byte>, count: int)
    requires InOrder(s, h) && count <= |data|
    ensures var n := Min(count, Capacity(s, h));
            CanWrite(s, h, data, count) <==> n <= 0 || (s.handles[h].offset % 1024 + n) / 1024 <= CountFree(s.fat)
  {
    hide CountFree, FirstMiss, Shape;
    var n := Min(count, Capacity(s, h));
    if n > 0 { FirstMissIs(s, h, data[..n]); }
  }

  // The outcome of write(), the exception included.
  lemma WriteIs(s: FsState, h: int, data: seq<byte>, count: int)
    requires InOrder(s, h) && s.formatted && count <= |data|
    ensures var n, room := Min(count, Capacity(s, h)), HandleRoom(s, h);
            && WriteSpec(s, h, data, count) ==
               (if n <= 0 then (s, Ok(n))
                else if n <= room then (PutBytes(s, h, data[..n]), Ok(n))
                else (PutBytes(s, h, data[..room + 1]), Throw(NoFreeBlock)))
            && (n <= room <==> Filled(s, h, n) <= CountFree(s.fat))
  {
    hide CountFree, FirstMiss, PutBytes, Shape;
    var n := Min(count, Capacity(s, h));
    if n > 0 {
      FirstMissIs(s, h, data[..n]);
      if HandleRoom(s, h) < n { assert data[..n][..HandleRoom(s, h) + 1] == data[..HandleRoom(s, h) + 1]; }
    }
  }

  // The write of one byte.
  lemma OneByte(s: FsState, h: int, x: byte)
    requires Opened(s, h) && s.handles[h].mode == WRITE && s.formatted && Capacity(s, h) > 0
    ensures WriteSpec(s, h, [x], 1) == (PutByte(s, h, x), if Misses(s, h) then Throw(NoFreeBlock) else Ok(1))
  {
    hide PutByte, FirstFree, Capacity, HandleInRange, Misses;
    assert [x][..1] == [x] && [x][..0] == [];
    assert PutBytes(s, h, [x][..0]) == s;
    assert FirstMiss(s, h, [x]) == if Misses(s, h) then 0 else 1;
  }

  lemma OneByteFrame(s: FsState, h: int, x: byte)
    requires Opened(s, h)
    ensures PutBytes(s, h, [x]) == PutByte(s, h, x)
    ensures var r := PutByte(s, h, x);
            && r.formatted == s.formatted
            && (forall g :: 0 <= g < HANDLETABLE_SIZE && g != h ==> r.handles[g] == s.handles[g])
            && r.dir == s.dir[s.handles[h].dirIndex :=
                               s.dir[s.handles[h].dirIndex].(size := s.dir[s.handles[h].dirIndex].size + 1)]
  {
    assert [x][..0] == [];
    assert PutBytes(s, h, [x][..0]) == s;
  }
}
