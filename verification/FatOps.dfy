// What each file system call does to the state: the specification the
// imperative FileSystem class is verified against.
module FatOps {
  import opened FatTypes
  import opened FatInvariant

  function Min(a: int, b: int): int { if a <= b then a else b }

  // ----- Linear searches -----

  // First used slot with this name at or behind i, DIR_SIZE when there is none.
  function LookupFrom(dir: seq<DirEntry>, name: seq<byte>, i: nat): (r: nat)
    requires i <= |dir|
    ensures i <= r <= |dir|
    ensures r < |dir| ==> Used(dir[r]) && CStr(dir[r].name) == name
    ensures forall k :: i <= k < r ==> !(Used(dir[k]) && CStr(dir[k].name) == name)
    decreases |dir| - i
  {
    if i == |dir| || (Used(dir[i]) && CStr(dir[i].name) == name) then i else LookupFrom(dir, name, i + 1)
  }

  function Lookup(dir: seq<DirEntry>, name: seq<byte>): nat { LookupFrom(dir, name, 0) }

  function FreeSlotFrom(dir: seq<DirEntry>, i: nat): (r: nat)
    requires i <= |dir|
    ensures i <= r <= |dir|
    ensures r < |dir| ==> !Used(dir[r])
    ensures forall k :: i <= k < r ==> Used(dir[k])
    decreases |dir| - i
  {
    if i == |dir| || !Used(dir[i]) then i else FreeSlotFrom(dir, i + 1)
  }

  function FreeSlot(dir: seq<DirEntry>): nat { FreeSlotFrom(dir, 0) }

  function FreeHandleFrom(handles: seq<Handle>, i: nat): (r: nat)
    requires i <= |handles|
    ensures i <= r <= |handles|
    ensures r < |handles| ==> !handles[r].inUse
    ensures forall k :: i <= k < r ==> handles[k].inUse
    decreases |handles| - i
  {
    if i == |handles| || !handles[i].inUse then i else FreeHandleFrom(handles, i + 1)
  }

  function FreeHandle(handles: seq<Handle>): nat { FreeHandleFrom(handles, 0) }

  // ----- format -----

  function Zeros(n: nat): (r: seq<byte>)
    ensures |r| == n
  {
    seq(n, _ => 0)
  }

  // The boot block: the status byte, zeros, and the two's complement of their sum.
  function BootBlock(): Block {
    var b := Zeros(BLOCK_SIZE)[0 := FORMATTED];
    b[BLOCK_SIZE - 1 := (256 - ByteSum(b[..BLOCK_SIZE - 1])) % 256]
  }

  function FreshFat(): seq<nat> {
    seq(FAT_SIZE, b => if b < 3 then RESERVED_FAT_ENTRY else FREE_FAT_ENTRY)
  }

  function ZeroEntry(): DirEntry { DirEntry(Zeros(NAME_SIZE), 0, 0, 0, 0) }

  function FormatSpec(s: FsState): FsState
    requires |s.disk| >= FAT_SIZE
  {
    s.(formatted := true,
       fat := FreshFat(),
       dir := seq(DIR_SIZE, _ => ZeroEntry()),
       disk := s.disk[BOOT_BLOCK := BootBlock()])
  }

  // ----- open and close -----

  ghost function Last(ch: seq<nat>): nat
    requires ch != []
  {
    ch[|ch| - 1]
  }

  // The result of open on an existing file in slot d.
  ghost function OpenExisting(s: FsState, h: nat, d: nat, mode: Mode): FsState
    requires Shape(s) && h < HANDLETABLE_SIZE && d < DIR_SIZE
  {
    var e :=
      if mode == READ then Handle(0, d, s.dir[d].start, true, READ)
      else
        var ch := ChainOf(s.fat, s.dir[d].start);
        Handle(s.dir[d].size, d, if ch == [] then 0 else Last(ch), true, WRITE);
    s.(handles := s.handles[h := e])
  }

  // The result of creating a file in slot d with first block b.
  function OpenCreate(s: FsState, h: nat, d: nat, b: nat, name: Name): FsState
    requires |s.fat| == FAT_SIZE && |s.dir| == DIR_SIZE && |s.handles| == HANDLETABLE_SIZE
    requires h < HANDLETABLE_SIZE && d < DIR_SIZE && b < FAT_SIZE
  {
    s.(fat := s.fat[b := EOF_FAT_ENTRY],
       dir := s.dir[d := s.dir[d].(inUse := 1, start := b, size := 0, name := StrCpy(s.dir[d].name, name))],
       handles := s.handles[h := Handle(0, d, b, true, WRITE)])
  }

  ghost function OpenSpec(s: FsState, name: Name, mode: Mode): (FsState, Result<int>)
    requires Shape(s)
  {
    var h, d := FreeHandle(s.handles), Lookup(s.dir, name);
    if h == HANDLETABLE_SIZE then (s, Throw(OutOfHandles))
    else if d < DIR_SIZE then (OpenExisting(s, h, d, mode), Ok(h))
    else if mode == READ then (s, Throw(FileDoesNotExist))
    else
      var slot, b := FreeSlot(s.dir), FirstFree(s.fat);
      if slot == DIR_SIZE then (s, Throw(RootDirectoryFull))
      else if b == FAT_SIZE then (s, Throw(DiskFull))
      else (OpenCreate(s, h, slot, b, name), Ok(h))
  }

  ghost function CloseSpec(s: FsState, h: nat): (FsState, Result<()>)
    requires Shape(s)
  {
    if !s.formatted then (s, Throw(Unformatted))
    else if h >= HANDLETABLE_SIZE then (s, Throw(InvalidHandle))
    else if !s.handles[h].inUse then (s, Throw(HandleNotOpen))
    else (s.(handles := s.handles[h := s.handles[h].(inUse := false)]), Ok(()))
  }

  // ----- read -----

  ghost predicate Opened(s: FsState, h: int) {
    Shape(s) && 0 <= h < HANDLETABLE_SIZE && s.handles[h].inUse
  }

  function ByteUnder(s: FsState, e: Handle): byte
    requires HandleInRange(e) && |s.disk| >= FAT_SIZE
  {
    s.disk[e.current][e.offset % BLOCK_SIZE]
  }

  // One byte read: at the last byte of a block the cursor follows the link.
  function Advance(s: FsState, e: Handle): Handle
    requires HandleInRange(e) && |s.fat| == FAT_SIZE
  {
    e.(offset := e.offset + 1,
       current := if e.offset % BLOCK_SIZE == BLOCK_SIZE - 1 then s.fat[e.current] else e.current)
  }

  // The cursor after n bytes.
  ghost function Cursor(s: FsState, h: int, n: nat): (e: Handle)
    requires Opened(s, h)
    ensures HandleInRange(e) && e.inUse && e.mode == s.handles[h].mode
    ensures e.dirIndex == s.handles[h].dirIndex && e.offset == s.handles[h].offset + n
  {
    if n == 0 then s.handles[h] else Advance(s, Cursor(s, h, n - 1))
  }

  // The bytes the cursor passes on the way.
  ghost function BytesRead(s: FsState, h: int, n: nat): (r: seq<byte>)
    requires Opened(s, h)
    ensures |r| == n
  {
    if n == 0 then [] else BytesRead(s, h, n - 1) + [ByteUnder(s, Cursor(s, h, n - 1))]
  }

  // New state, the bytes put into the caller's buffer, the value returned.
  ghost function ReadSpec(s: FsState, h: int, count: int): (FsState, seq<byte>, Result<int>)
    requires Shape(s)
  {
    if h < 0 || h >= HANDLETABLE_SIZE then (s, [], Throw(InvalidHandle))
    else if !s.handles[h].inUse || s.handles[h].mode != READ then (s, [], Throw(WrongMode))
    else
      var n := Min(count, s.dir[s.handles[h].dirIndex].size - s.handles[h].offset);
      if n <= 0 then (s, [], Ok(n))
      else (s.(handles := s.handles[h := Cursor(s, h, n)]), BytesRead(s, h, n), Ok(n))
  }

  // ----- write -----

  // One byte written. When it fills the block, the next block is taken from
  // the free blocks; the buffer that write() keeps, and will store there, still
  // holds the old block.
  ghost function PutByte(s: FsState, h: int, x: byte): (r: FsState)
    requires Opened(s, h)
    ensures Opened(r, h) && |r.disk| == |s.disk|
  {
    var e := s.handles[h];
    var d := e.dirIndex;
    var block := s.disk[e.current][e.offset % BLOCK_SIZE := x];
    var dir := s.dir[d := s.dir[d].(size := s.dir[d].size + 1)];
    var disk := s.disk[e.current := block];
    var j := FirstFree(s.fat);
    if e.offset % BLOCK_SIZE == BLOCK_SIZE - 1 && j < FAT_SIZE then
      s.(dir := dir,
         fat := s.fat[e.current := j][j := EOF_FAT_ENTRY],
         disk := disk[j := block],
         handles := s.handles[h := e.(offset := e.offset + 1, current := j)])
    else
      s.(dir := dir, disk := disk, handles := s.handles[h := e.(offset := e.offset + 1)])
  }

  ghost function PutBytes(s: FsState, h: int, data: seq<byte>): (r: FsState)
    requires Opened(s, h)
    ensures Opened(r, h) && |r.disk| == |s.disk|
  {
    if data == [] then s
    else PutByte(PutBytes(s, h, data[..|data| - 1]), h, data[|data| - 1])
  }

  // Bytes that can still be appended through h: the last block of a file is
  // never full.
  ghost function Capacity(s: FsState, h: int): int
    requires Opened(s, h)
  {
    var size := s.dir[s.handles[h].dirIndex].size;
    CountFree(s.fat) * BLOCK_SIZE + (BLOCK_SIZE - size % BLOCK_SIZE) - 1
  }

  // The next byte fills a block and no block is free to follow it.
  ghost predicate Misses(s: FsState, h: int)
    requires Opened(s, h)
  {
    s.handles[h].offset % BLOCK_SIZE == BLOCK_SIZE - 1 && FirstFree(s.fat) == FAT_SIZE
  }

  // Index of the first byte of which that is so, |data| when there is none.
  ghost function FirstMiss(s: FsState, h: int, data: seq<byte>): (m: nat)
    requires Opened(s, h)
    ensures m <= |data|
  {
    if data == [] then 0
    else
      var k := |data| - 1;
      var m := FirstMiss(s, h, data[..k]);
      if m < k || Misses(PutBytes(s, h, data[..k]), h) then m else |data|
  }

  // What write() does after the checks of the handle: when a free block is
  // missing, the exception leaves the byte behind that filled the last one.
  ghost function WriteSpec(s: FsState, h: int, data: seq<byte>, count: int): (FsState, Result<int>)
    requires Shape(s) && count <= |data|
  {
    if h < 0 || h >= HANDLETABLE_SIZE then (s, Throw(InvalidHandle))
    else if !s.handles[h].inUse || s.handles[h].mode != WRITE then (s, Throw(WrongMode))
    else if !s.formatted then (s, Throw(Unformatted))
    else
      var n := Min(count, Capacity(s, h));
      if n <= 0 then (s, Ok(n))
      else
        var m := FirstMiss(s, h, data[..n]);
        if m < n then (PutBytes(s, h, data[..m + 1]), Throw(NoFreeBlock))
        else (PutBytes(s, h, data[..n]), Ok(n))
  }

  // write() comes to its end without missing a free block.
  ghost predicate CanWrite(s: FsState, h: int, data: seq<byte>, count: int)
    requires Opened(s, h) && count <= |data|
  {
    var n := Min(count, Capacity(s, h));
    n <= 0 || FirstMiss(s, h, data[..n]) == n
  }

  // ----- truncate and remove -----

  ghost function FreeBlocks(fat: seq<nat>, ch: seq<nat>): (r: seq<nat>)
    ensures |r| == |fat|
  {
    seq(|fat|, b requires 0 <= b < |fat| => if b in ch then FREE_FAT_ENTRY else fat[b])
  }

  ghost function TruncateSpec(s: FsState, name: Name): FsState
    requires Shape(s)
  {
    var d := Lookup(s.dir, name);
    if d == DIR_SIZE then s
    else
      var start := s.dir[d].start;
      s.(fat := FreeBlocks(s.fat, ChainOf(s.fat, start))[start := EOF_FAT_ENTRY],
         dir := s.dir[d := s.dir[d].(size := 0)])
  }

  ghost function RemoveSpec(s: FsState, name: Name): FsState
    requires Shape(s)
  {
    var d := Lookup(s.dir, name);
    if d == DIR_SIZE then s
    else
      s.(fat := FreeBlocks(s.fat, ChainOf(s.fat, s.dir[d].start)),
         dir := s.dir[d := s.dir[d].(inUse := 0)])
  }
}
