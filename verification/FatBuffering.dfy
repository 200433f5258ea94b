// write() and read() move bytes through a one-block buffer: what the buffer and
// the lagging device have to do with the byte-by-byte specification.
module FatBuffering {
  import opened FatTypes
  import opened FatInvariant
  import opened FatOps

  // The device of s lags behind t by the block that sits in the buffer.
  ghost predicate Buffered(s: FsState, h: int, buffer: seq<byte>, t: FsState) {
    Opened(s, h) && |buffer| == BLOCK_SIZE && t == s.(disk := s.disk[s.handles[h].current := buffer])
  }

  // One pass through the loop of write(): x goes into the buffer; when that is
  // full it goes to the device and block j, if there is one, becomes the current
  // block.
  function BufferPut(s: FsState, h: int, buffer: Block, x: byte, j: nat): (FsState, Block)
    requires 0 <= h < |s.handles| && HandleInRange(s.handles[h])
    requires |s.fat| == FAT_SIZE && |s.dir| == DIR_SIZE && |s.disk| >= FAT_SIZE
  {
    var e := s.handles[h];
    var buffer' := buffer[e.offset % BLOCK_SIZE := x];
    var dir := s.dir[e.dirIndex := s.dir[e.dirIndex].(size := s.dir[e.dirIndex].size + 1)];
    if e.offset % BLOCK_SIZE != BLOCK_SIZE - 1 then
      (s.(dir := dir, handles := s.handles[h := e.(offset := e.offset + 1)]), buffer')
    else
      var disk := s.disk[e.current := buffer'];
      if j < FAT_SIZE then
        (s.(dir := dir, disk := disk,
            fat := s.fat[e.current := j][j := EOF_FAT_ENTRY],
            handles := s.handles[h := e.(offset := e.offset + 1, current := j)]), buffer')
      else
        (s.(dir := dir, disk := disk, handles := s.handles[h := e.(offset := e.offset + 1)]), buffer')
  }

  // The pass refines the write of one byte; when it ends without a free block,
  // the device holds what is in the buffer.
  lemma BufferPutRefines(s: FsState, h: int, buffer: Block, x: byte, t: FsState, j: nat)
    requires Buffered(s, h, buffer, t)
    requires s.handles[h].offset % BLOCK_SIZE == BLOCK_SIZE - 1 ==> j == FirstFree(s.fat)
    ensures var (s', buffer') := BufferPut(s, h, buffer, x, j);
            && Buffered(s', h, buffer', PutByte(t, h, x))
            && (Misses(s, h) ==> s' == PutByte(t, h, x))
  {
    hide FirstFreeFrom;
    var e := s.handles[h];
    var (s', buffer') := BufferPut(s, h, buffer, x, j);
    var r := PutByte(t, h, x);
    assert t.disk[e.current] == buffer;
    if e.offset % BLOCK_SIZE == BLOCK_SIZE - 1 {
      if j < FAT_SIZE {
        assert s'.disk[j := buffer'] == r.disk;
      } else {
        assert s'.disk == r.disk && s'.disk[e.current := buffer'] == r.disk;
      }
    } else {
      assert s'.disk[e.current := buffer'] == r.disk;
    }
  }

  // The first index that a search for a free block stops at.
  lemma FirstFreeIs(fat: seq<nat>, j: nat)
    requires j <= |fat| && forall k :: 0 <= k < j ==> fat[k] != FREE_FAT_ENTRY
    requires j < |fat| ==> fat[j] == FREE_FAT_ENTRY
    ensures FirstFree(fat) == j
  {
    hide FirstFreeFrom;
  }

  // One byte more.
  lemma PutBytesStep(s: FsState, h: int, data: seq<byte>, i: nat)
    requires Opened(s, h) && i < |data|
    ensures PutBytes(s, h, data[..i + 1]) == PutByte(PutBytes(s, h, data[..i]), h, data[i])
  {
    assert data[..i + 1][..i] == data[..i];
  }

  // Sizes are not negative in a valid state.
  lemma HandleSize(s: FsState, h: int)
    requires Valid(s) && Opened(s, h)
    ensures 0 <= s.dir[s.handles[h].dirIndex].size
  {
    var c := ValidChains(s);
    assert CursorOk(s.handles[h], s.dir, c);
    assert EntryOk(s.fat, s.dir[s.handles[h].dirIndex], c[s.handles[h].dirIndex]);
  }

  // Whether the next pass misses a block, told from the state with its buffer.
  lemma MissesBuffered(s: FsState, h: int, data: seq<byte>, i: nat, u: FsState, buffer: seq<byte>)
    requires Opened(s, h) && i < |data| && FirstMiss(s, h, data[..i]) == i
    requires Buffered(u, h, buffer, PutBytes(s, h, data[..i]))
    ensures Misses(u, h) <==> FirstMiss(s, h, data[..i + 1]) == i
    ensures !Misses(u, h) <==> FirstMiss(s, h, data[..i + 1]) == i + 1
  {
    hide PutBytes, FirstFree, FirstFreeFrom;
    assert data[..i + 1][..i] == data[..i];
  }

  // The first miss of a prefix is that of the whole.
  lemma {:induction false} MissOfPrefix(s: FsState, h: int, data: seq<byte>, i: nat)
    requires Opened(s, h) && i <= |data| && FirstMiss(s, h, data[..i]) < i
    ensures FirstMiss(s, h, data) == FirstMiss(s, h, data[..i])
    decreases |data|
  {
    hide PutBytes, Misses;
    if i == |data| {
      assert data[..i] == data;
    } else {
      var k := |data| - 1;
      assert data[..k][..i] == data[..i];
      MissOfPrefix(s, h, data[..k], i);
    }
  }

  lemma PutNothing(s: FsState, h: int, data: seq<byte>)
    requires Opened(s, h)
    ensures Buffered(s, h, s.disk[s.handles[h].current], PutBytes(s, h, data[..0]))
  {
    var b := s.handles[h].current;
    assert s.disk[b := s.disk[b]] == s.disk;
  }
}
