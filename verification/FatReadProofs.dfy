// read(): the cursor follows the chain and delivers the bytes of the file.
module FatReadProofs {
  import opened FatTypes
  import opened FatInvariant
  import opened FatOps
  import opened FatFiles
  import opened FatWriteProofs

  predicate IsReader(e: Handle) { e.inUse && e.mode == READ }

  // One step inside the file: at an exact block boundary the link leads to a
  // data block of the same file.
  lemma AdvanceOk(s: FsState, c: Chains, e: Handle)
    requires ValidWith(s, c)
    requires HandleInRange(e) && IsReader(e) && CursorOk(e, s.dir, c)
    requires e.offset < s.dir[e.dirIndex].size
    ensures CursorOk(Advance(s, e), s.dir, c)
    ensures ByteUnder(s, e) == SlotBytes(s, c, e.dirIndex)[e.offset]
  {
    var d := e.dirIndex;
    assert EntryOk(s.fat, s.dir[d], c[d]);
    hide NamesUnique, NoneLost, Disjoint, HandlesOk, BootOk;
    LinkOnChain(s.fat, s.dir, c, d, e.offset / BLOCK_SIZE);
    if e.offset % BLOCK_SIZE == BLOCK_SIZE - 1 {
      assert (e.offset + 1) / BLOCK_SIZE == e.offset / BLOCK_SIZE + 1;
    } else {
      assert (e.offset + 1) / BLOCK_SIZE == e.offset / BLOCK_SIZE;
    }
    assert ByteUnder(s, e) == ByteAt(s.disk, c[d], e.offset);
  }

  // h reads, and n more bytes lie in front of the end of its file.
  ghost predicate Readable(s: FsState, h: int, n: nat) {
    && Opened(s, h) && IsReader(s.handles[h])
    && s.handles[h].offset + n <= s.dir[s.handles[h].dirIndex].size
  }

  lemma ReadableBounds(s: FsState, c: Chains, h: int, n: nat)
    requires ValidWith(s, c) && Readable(s, h, n)
    ensures |c| == DIR_SIZE && CursorOk(s.handles[h], s.dir, c)
    ensures 0 <= s.handles[h].offset && s.handles[h].offset + n <= |SlotBytes(s, c, s.handles[h].dirIndex)|
    ensures |SlotBytes(s, c, s.handles[h].dirIndex)| == s.dir[s.handles[h].dirIndex].size
  {
    assert CursorOk(s.handles[h], s.dir, c);
    assert EntryOk(s.fat, s.dir[s.handles[h].dirIndex], c[s.handles[h].dirIndex]);
  }

  // Following the cursor for n bytes stays on the chain of the file and
  // delivers its bytes.
  lemma {:induction false} CursorFollowsChain(s: FsState, c: Chains, h: int, n: nat)
    requires ValidWith(s, c) && Readable(s, h, n)
    ensures CursorOk(Cursor(s, h, n), s.dir, c)
    ensures var o := s.handles[h].offset; var bytes := SlotBytes(s, c, s.handles[h].dirIndex);
            0 <= o && o + n <= |bytes| && BytesRead(s, h, n) == bytes[o..o + n]
  {
    hide ValidWith, CursorOk, EntryOk, SlotBytes, ByteUnder, StructureOk, HandlesOk;
    ReadableBounds(s, c, h, n);
    if n > 0 {
      CursorFollowsChain(s, c, h, n - 1);
      AdvanceOk(s, c, Cursor(s, h, n - 1));
      SliceGrows(SlotBytes(s, c, s.handles[h].dirIndex), s.handles[h].offset, n - 1);
    }
  }

  lemma SliceGrows(b: seq<byte>, o: nat, n: nat)
    requires o + n < |b|
    ensures b[o..o + n + 1] == b[o..o + n] + [b[o + n]]
  {
  }

  ghost function MovedTo(s: FsState, h: int, n: nat): (r: FsState)
    requires Opened(s, h)
    ensures Shape(r)
  {
    s.(handles := s.handles[h := Cursor(s, h, n)])
  }

  lemma MovedValid(s: FsState, c: Chains, h: int, n: nat)
    requires ValidWith(s, c) && Readable(s, h, n)
    requires CursorOk(Cursor(s, h, n), s.dir, c)
    ensures ValidWith(MovedTo(s, h, n), c)
  {
    var r := MovedTo(s, h, n);
    assert OneWriter(r.handles);
  }

  // Moving a cursor changes no file, and the view of that handle only.
  lemma MovedFiles(s: FsState, h: int, n: nat)
    requires Opened(s, h)
    ensures FilesOf(MovedTo(s, h, n)) == FilesOf(s)
    ensures Views(MovedTo(s, h, n)) ==
            Views(s)[h := Some(View(HandleName(s, h), s.handles[h].offset + n, s.handles[h].mode))]
  {
    var r, c := MovedTo(s, h, n), ChainsOf(s.fat, s.dir);
    assert Contents(r, c) == Contents(s, c);
  }

  lemma ReaderOffset(s: FsState, h: int)
    requires Valid(s) && Opened(s, h)
    ensures 0 <= s.handles[h].offset <= s.dir[s.handles[h].dirIndex].size
  {
    var c := ValidChains(s);
    assert CursorOk(s.handles[h], s.dir, c);
  }

  // The bytes read are those of the file at the handle's offset.
  ghost predicate Delivered(s: FsState, h: int, n: nat)
    requires Opened(s, h)
  {
    && HandleName(s, h) in FilesOf(s)
    && var bytes, o := FilesOf(s)[HandleName(s, h)], s.handles[h].offset;
       0 <= o && o + n <= |bytes| && BytesRead(s, h, n) == bytes[o..o + n]
  }

  lemma ReadDelivers(s: FsState, c: Chains, h: int, n: nat)
    requires ValidWith(s, c) && Readable(s, h, n)
    ensures Delivered(s, h, n)
  {
    hide ValidWith, CursorOk, BytesRead, SlotBytes, FilesOf, HandleName, Valid;
    ValidIs(s, c);
    HandleFile(s, h);
    CursorFollowsChain(s, c, h, n);
  }

  lemma ReadInside(s: FsState, h: int, n: nat)
    requires Valid(s) && Readable(s, h, n)
    ensures Valid(MovedTo(s, h, n)) && Delivered(s, h, n)
  {
    hide Valid, ValidWith, CursorOk, Shape, Delivered;
    var c := ValidChains(s);
    ReadDelivers(s, c, h, n);
    CursorFollowsChain(s, c, h, n);
    MovedValid(s, c, h, n);
    ValidIs(MovedTo(s, h, n), c);
  }

  lemma ReadIsCursor(s: FsState, h: int, count: int)
    requires Opened(s, h) && s.handles[h].mode == READ
    ensures var n := Min(count, s.dir[s.handles[h].dirIndex].size - s.handles[h].offset);
            ReadSpec(s, h, count) == if n < 0 then (s, [], Ok(n)) else (MovedTo(s, h, n), BytesRead(s, h, n), Ok(n))
    ensures MovedTo(s, h, 0) == s && BytesRead(s, h, 0) == []
  {
    assert s.handles[h := s.handles[h]] == s.handles;
  }

  // What a read may do: throw and leave the state alone, or deliver exactly the
  // slice of the file at the offset of the handle, cut off at the end of the
  // file, and move that handle only.
  ghost predicate ReadEffect(s: FsState, h: int, count: int, r: FsState, data: seq<byte>, out: Result<int>)
    requires Shape(s) && Shape(r)
  {
    if !(0 <= h < HANDLETABLE_SIZE) then out == Throw(InvalidHandle) && r == s && data == []
    else if !IsReader(s.handles[h]) then out == Throw(WrongMode) && r == s && data == []
    else
      && FilesOf(r) == FilesOf(s)
      && HandleName(s, h) in FilesOf(s)
      && var bytes, o := FilesOf(s)[HandleName(s, h)], s.handles[h].offset;
      && o <= |bytes|
      && var n := Min(count, |bytes| - o);
      && out == Ok(n)
      && (n <= 0 ==> r == s && data == [])
      && (n >= 0 ==>
            && data == bytes[o..o + n]
            && Views(r) == Views(s)[h := Some(View(HandleName(s, h), o + n, READ))])
  }

  lemma ReadCorrect(s: FsState, h: int, count: int)
    requires Valid(s)
    ensures Valid(ReadSpec(s, h, count).0)
    ensures ReadEffect(s, h, count, ReadSpec(s, h, count).0, ReadSpec(s, h, count).1, ReadSpec(s, h, count).2)
  {
    hide Valid, ValidWith, FilesOf, Views;
    var c := ValidChains(s);
    if 0 <= h < HANDLETABLE_SIZE && IsReader(s.handles[h]) {
      ReadThroughReader(s, h, count);
    }
  }

  lemma ReadThroughReader(s: FsState, h: int, count: int)
    requires Valid(s) && Opened(s, h) && IsReader(s.handles[h])
    ensures Valid(ReadSpec(s, h, count).0)
    ensures ReadEffect(s, h, count, ReadSpec(s, h, count).0, ReadSpec(s, h, count).1, ReadSpec(s, h, count).2)
  {
    hide Valid, ValidWith, FilesOf, Views, MovedTo, HandleName, Cursor, BytesRead, ReadSpec;
    var n := Min(count, s.dir[s.handles[h].dirIndex].size - s.handles[h].offset);
    ReadIsCursor(s, h, count);
    HandleFile(s, h);
    ReaderOffset(s, h);
    if n >= 0 {
      ReadInside(s, h, n);
      MovedFiles(s, h, n);
    }
  }
}
