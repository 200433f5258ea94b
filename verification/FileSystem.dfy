// The FileSystem class of FAT/FileSystem.cpp: the calls as the source codes
// them, each verified against its specification on states.
module FileSystems {
  import opened FatTypes
  import opened FatInvariant
  import opened FatOps
  import opened FatFiles
  import opened FatWriteProofs
  import opened FatReadProofs
  import opened FatDirProofs
  import opened FatRemount
  import opened FatBuffering
  import opened FatCheck
  import opened FatVerdict

  // The block device behind the file system.
  class BlockDevice {
    const blkSize: nat
    const blocks: array<Block>

    constructor (size: nat, count: nat)
      ensures blkSize == size && blocks.Length == count && fresh(blocks)
      ensures forall b :: 0 <= b < count ==> blocks[b] == Zeros(BLOCK_SIZE)
    {
      blkSize := size;
      blocks := new Block[count](_ => Zeros(BLOCK_SIZE));
    }

    method Read(b: nat, buffer: array<byte>)
      requires b < blocks.Length && buffer.Length == BLOCK_SIZE && buffer as object != blocks
      modifies buffer
      ensures buffer[..] == blocks[b]
    {
      forall k | 0 <= k < BLOCK_SIZE { buffer[k] := blocks[b][k]; }
    }

    method Write(b: nat, buffer: array<byte>)
      requires b < blocks.Length && buffer.Length == BLOCK_SIZE
      modifies blocks
      ensures blocks[..] == old(blocks[..])[b := buffer[..]]
    {
      blocks[b] := buffer[..];
    }
  }

  class FileSystem {
    const disk: BlockDevice
    const fat: array<nat>
    const root: array<DirEntry>
    const handles: array<Handle>
    var formatted: bool
    var scanIndex: int

    ghost function State(): FsState
      reads this, fat, root, handles, disk.blocks
    {
      FsState(formatted, fat[..], root[..], handles[..], disk.blocks[..])
    }

    // The arrays are different objects.
    ghost predicate Separate() {
      && fat as object != root && fat as object != handles && fat as object != disk.blocks
      && root as object != handles && root as object != disk.blocks
      && handles as object != disk.blocks
    }

    // The caller's buffer is none of them.
    ghost predicate Foreign(buffer: array<byte>) {
      && buffer as object != fat && buffer as object != root
      && buffer as object != handles && buffer as object != disk.blocks
    }

    // A formatted file system in good order.
    ghost predicate Ready()
      reads this, fat, root, handles, disk.blocks
    {
      Separate() && Valid(State())
    }

    // Construction on a device of the right shape: recognise the boot block, load
    // the table and the directory, and start with no open handle.
    constructor (d: BlockDevice)
      requires d.blkSize == BLOCK_SIZE && d.blocks.Length >= 4
      ensures disk == d && Separate()
      ensures fresh(fat) && fresh(root) && fresh(handles)
      ensures fat.Length == FAT_SIZE && root.Length == DIR_SIZE && handles.Length == HANDLETABLE_SIZE
      ensures formatted == BootOk(d.blocks[BOOT_BLOCK])
      ensures formatted ==> fat[..] == FatOfImage(d.blocks[FAT_BLOCK]) && root[..] == DirOfImage(d.blocks[ROOT_BLOCK])
      ensures NothingOpen(State())
    {
      disk := d;
      fat := new nat[FAT_SIZE];
      root := new DirEntry[DIR_SIZE];
      handles := new Handle[HANDLETABLE_SIZE];
      formatted := false;
      scanIndex := 0;
      new;
      var buffer := new byte[BLOCK_SIZE];
      disk.Read(BOOT_BLOCK, buffer);
      if buffer[0] == FORMATTED {
        var sum: byte := 0;
        var i := 0;
        while i < BLOCK_SIZE
          invariant 0 <= i <= BLOCK_SIZE
          invariant sum == ByteSum(buffer[..i])
        {
          assert buffer[..i + 1][..i] == buffer[..i];
          sum := (sum + buffer[i]) % 256;
          i := i + 1;
        }
        assert buffer[..BLOCK_SIZE] == buffer[..];
        if sum == 0 { formatted := true; }
      }
      if formatted {
        Load();
      }
      var h := 0;
      while h < HANDLETABLE_SIZE
        invariant 0 <= h <= HANDLETABLE_SIZE
        invariant forall g :: 0 <= g < h ==> !handles[g].inUse
        modifies handles
      {
        handles[h] := handles[h].(inUse := false);
        h := h + 1;
      }
    }

    // Blocks 1 and 2 of the device become the table and the directory in memory.
    method Load()
      requires Separate() && disk.blocks.Length >= 4 && fat.Length == FAT_SIZE && root.Length == DIR_SIZE
      modifies fat, root
      ensures fat[..] == FatOfImage(disk.blocks[FAT_BLOCK]) && root[..] == DirOfImage(disk.blocks[ROOT_BLOCK])
    {
      var table, dir := FatOfImage(disk.blocks[FAT_BLOCK]), DirOfImage(disk.blocks[ROOT_BLOCK]);
      forall i | 0 <= i < FAT_SIZE { fat[i] := table[i]; }
      forall i | 0 <= i < DIR_SIZE { root[i] := dir[i]; }
    }

    // The constructor with its exceptions.
    static method Mount(d: BlockDevice) returns (r: Result<FileSystem>)
      ensures r.Ok? <==> d.blkSize == BLOCK_SIZE && d.blocks.Length >= 4
      ensures d.blkSize != BLOCK_SIZE ==> r == Throw(BadBlockSize)
      ensures d.blkSize == BLOCK_SIZE && d.blocks.Length < 4 ==> r == Throw(TooFewBlocks)
      ensures r.Ok? ==>
                && fresh(r.value) && r.value.disk == d && r.value.Separate()
                && fresh(r.value.fat) && fresh(r.value.root) && fresh(r.value.handles)
                && r.value.fat.Length == FAT_SIZE && r.value.root.Length == DIR_SIZE
                && r.value.handles.Length == HANDLETABLE_SIZE
                && r.value.formatted == BootOk(d.blocks[BOOT_BLOCK])
                && NothingOpen(r.value.State())
                && (r.value.formatted ==>
                      r.value.fat[..] == FatOfImage(d.blocks[FAT_BLOCK])
                      && r.value.root[..] == DirOfImage(d.blocks[ROOT_BLOCK]))
    {
      if d.blkSize != BLOCK_SIZE { return Throw(BadBlockSize); }
      if d.blocks.Length < 4 { return Throw(TooFewBlocks); }
      var fs := new FileSystem(d);
      return Ok(fs);
    }

    // flush(), which is all the destructor does.
    method Flush()
      requires Separate() && fat.Length == FAT_SIZE && root.Length == DIR_SIZE && disk.blocks.Length >= FAT_SIZE
      modifies disk.blocks
      ensures State() == FlushSpec(old(State()))
    {
      if formatted {
        disk.blocks[FAT_BLOCK] := FatImage(fat[..]);
        disk.blocks[ROOT_BLOCK] := DirImage(root[..]);
      }
    }

    // The destructor, and a new object on the same device: it is in good order,
    // with the files of before and no open handle. Of its state only what is left
    // in the unused handles is not determined.
    static method Remount(fs: FileSystem) returns (r: FileSystem)
      requires fs.Ready() && fs.disk.blkSize == BLOCK_SIZE
      modifies fs.disk.blocks
      ensures fresh(r) && fresh(r.fat) && fresh(r.root) && fresh(r.handles) && r.disk == fs.disk
      ensures r.Ready() && NothingOpen(r.State())
      ensures FilesOf(r.State()) == old(FilesOf(fs.State()))
      ensures r.State().(handles := RemountSpec(old(fs.State())).handles) == RemountSpec(old(fs.State()))
      ensures Shape(r.State()) && Shape(RemountSpec(old(fs.State())))
      ensures Views(r.State()) == Views(RemountSpec(old(fs.State())))
    {
      hide Valid, FilesOf, BootOk, FatOfImage, DirOfImage, FlushSpec, StructureOk;
      ghost var s := fs.State();
      ghost var c := ValidChains(s);
      RemountRecovers(s);
      FlushIs(s);
      fs.Flush();
      ghost var t := fs.State();
      assert t == FlushSpec(s);
      var mounted := Mount(fs.disk);
      r := mounted.value;
      assert r.disk.blocks[..] == t.disk;
      MountedIs(s, r.State());
    }

    // First half of format(): the boot block and its checksum.
    method WriteBootBlock()
      requires disk.blocks.Length >= FAT_SIZE
      modifies disk.blocks
      ensures disk.blocks[..] == old(disk.blocks[..])[BOOT_BLOCK := BootBlock()]
    {
      var buffer := new byte[BLOCK_SIZE](_ => 0);
      buffer[0] := FORMATTED;
      var sum: byte := 0;
      var i := 0;
      while i < BLOCK_SIZE - 1
        invariant 0 <= i <= BLOCK_SIZE - 1
        invariant sum == ByteSum(buffer[..i])
      {
        assert buffer[..i + 1][..i] == buffer[..i];
        sum := (sum + buffer[i]) % 256;
        i := i + 1;
      }
      buffer[BLOCK_SIZE - 1] := (256 - sum) % 256;
      assert buffer[..] == BootBlock() by {
        var z := Zeros(BLOCK_SIZE)[0 := FORMATTED];
        assert buffer[..BLOCK_SIZE - 1] == z[..BLOCK_SIZE - 1];
      }
      disk.Write(BOOT_BLOCK, buffer);
    }

    method Format()
      requires Separate() && fat.Length == FAT_SIZE && root.Length == DIR_SIZE && disk.blocks.Length >= FAT_SIZE
      modifies this`formatted, fat, root, disk.blocks
      ensures State() == FormatSpec(old(State()))
    {
      hide BootBlock, Zeros, BootOk;
      WriteBootBlock();
      forall b | 0 <= b < FAT_SIZE { fat[b] := FREE_FAT_ENTRY; }
      fat[BOOT_BLOCK] := RESERVED_FAT_ENTRY;
      fat[FAT_BLOCK] := RESERVED_FAT_ENTRY;
      fat[ROOT_BLOCK] := RESERVED_FAT_ENTRY;
      var blank := ZeroEntry();
      forall k | 0 <= k < DIR_SIZE { root[k] := blank; }
      formatted := true;
      assert fat[..] == FreshFat();
      assert root[..] == seq(DIR_SIZE, _ => blank);
    }

    method FreeSpace() returns (r: Result<int>)
      requires fat.Length == FAT_SIZE
      ensures r == if formatted then Ok(CountFree(fat[..]) * BLOCK_SIZE) else Throw(Unformatted)
    {
      if !formatted { return Throw(Unformatted); }
      var count := 0;
      var i := 0;
      while i < FAT_SIZE
        invariant 0 <= i <= FAT_SIZE
        invariant count == CountFree(fat[..i])
      {
        assert fat[..i + 1][..i] == fat[..i];
        if fat[i] == FREE_FAT_ENTRY { count := count + 1; }
        i := i + 1;
      }
      assert fat[..FAT_SIZE] == fat[..];
      return Ok(count * BLOCK_SIZE);
    }

    method Close(handle: nat) returns (r: Result<()>)
      requires Separate() && Shape(State())
      modifies handles
      ensures State() == CloseSpec(old(State()), handle).0
      ensures r == CloseSpec(old(State()), handle).1
    {
      if !formatted { return Throw(Unformatted); }
      if handle >= HANDLETABLE_SIZE { return Throw(InvalidHandle); }
      if !handles[handle].inUse { return Throw(HandleNotOpen); }
      handles[handle] := handles[handle].(inUse := false);
      return Ok(());
    }

    // The linear search of write() and open() for a free block.
    method FindFree() returns (j: nat)
      requires fat.Length == FAT_SIZE
      ensures j == FirstFree(fat[..])
    {
      j := 0;
      while j < FAT_SIZE
        invariant 0 <= j <= FAT_SIZE
        invariant forall k :: 0 <= k < j ==> fat[k] != FREE_FAT_ENTRY
      {
        if fat[j] == FREE_FAT_ENTRY { break; }
        j := j + 1;
      }
      FirstFreeIs(fat[..], j);
    }

    // The body of the loop of write(): one byte through the block buffer. It
    // reports where the source throws for want of a free block.
    method PutThroughBuffer(handle: int, blockBuffer: array<byte>, x: byte, blockOffset: nat, blockCount: nat)
      returns (missed: bool, blockOffset': nat, blockCount': nat)
      requires Separate() && Opened(State(), handle) && blockBuffer.Length == BLOCK_SIZE && Foreign(blockBuffer)
      requires blockOffset == handles[handle].offset % BLOCK_SIZE && blockCount == BLOCK_SIZE - blockOffset
      modifies fat, root, handles, disk.blocks, blockBuffer
      ensures missed <==> old(Misses(State(), handle))
      ensures !missed ==>
                blockOffset' == handles[handle].offset % BLOCK_SIZE && blockCount' == BLOCK_SIZE - blockOffset'
      ensures (State(), blockBuffer[..]) ==
              BufferPut(old(State()), handle, old(blockBuffer[..]), x, FirstFree(old(fat[..])))
    {
      hide FirstFreeFrom;
      ghost var s := State();
      var e := handles[handle];
      var d := e.dirIndex;
      blockBuffer[blockOffset] := x;
      blockOffset' := blockOffset + 1;
      handles[handle] := e.(offset := e.offset + 1);
      root[d] := root[d].(size := root[d].size + 1);
      blockCount' := blockCount - 1;
      missed := false;
      assert handles[..] == s.handles[handle := e.(offset := e.offset + 1)];

      // The block is full: it goes to the device, and a free one takes its place.
      if blockCount' == 0 {
        disk.Write(e.current, blockBuffer);
        var j := FindFree();
        if j == FAT_SIZE {
          missed := true;
          return;
        }
        fat[e.current] := j;
        fat[j] := EOF_FAT_ENTRY;
        handles[handle] := handles[handle].(current := j);
        blockOffset' := 0;
        blockCount' := BLOCK_SIZE;
        assert fat[..] == s.fat[e.current := j][j := EOF_FAT_ENTRY];
        assert handles[..] == s.handles[handle := e.(offset := e.offset + 1, current := j)];
      }
    }

    // The copying part of write(): all n bytes, or those up to the first that
    // finds no free block.
    method PutAll(handle: int, buffer: array<byte>, n: nat) returns (missed: bool)
      requires Separate() && Foreign(buffer) && n <= buffer.Length && Opened(State(), handle)
      modifies fat, root, handles, disk.blocks
      ensures var m := FirstMiss(old(State()), handle, buffer[..n]);
              && (missed <==> m < n)
              && State() == PutBytes(old(State()), handle, buffer[..if m < n then m + 1 else n])
    {
      hide FirstFree, FirstFreeFrom, PutByte, PutBytes, BufferPut, FirstMiss, Misses;
      ghost var s, data := State(), buffer[..n];
      var blockBuffer := new byte[BLOCK_SIZE];
      var blockOffset := handles[handle].offset % BLOCK_SIZE;
      var blockCount := BLOCK_SIZE - blockOffset;
      disk.Read(handles[handle].current, blockBuffer);
      PutNothing(s, handle, data);
      NoBytesPut(s, handle, data[..0]);
      var i := 0;
      missed := false;
      while i < n
        invariant 0 <= i <= n && buffer[..n] == data && !missed
        invariant fresh(blockBuffer) && blockBuffer.Length == BLOCK_SIZE
        invariant FirstMiss(s, handle, data[..i]) == i
        invariant Buffered(State(), handle, blockBuffer[..], PutBytes(s, handle, data[..i]))
        invariant blockOffset == handles[handle].offset % BLOCK_SIZE && blockCount == BLOCK_SIZE - blockOffset
      {
        ghost var t, b := PutBytes(s, handle, data[..i]), blockBuffer[..];
        ghost var u := State();
        MissesBuffered(s, handle, data, i, u, b);
        missed, blockOffset, blockCount :=
          PutThroughBuffer(handle, blockBuffer, buffer[i], blockOffset, blockCount);
        BufferPutRefines(u, handle, b, data[i], t, FirstFree(u.fat));
        PutBytesStep(s, handle, data, i);
        i := i + 1;
        if missed {
          MissOfPrefix(s, handle, data, i);
          assert buffer[..i] == data[..i];
          return;
        }
      }
      // The device catches up with the buffer.
      disk.Write(handles[handle].current, blockBuffer);
      assert data[..n] == data;
    }

    // On any state whatever of arrays in range.
    method Write(handle: int, buffer: array<byte>, count: int) returns (r: Result<int>)
      requires Separate() && Foreign(buffer) && count <= buffer.Length && Shape(State())
      requires Valid(State()) || (Opened(State(), handle) ==> 0 <= root[handles[handle].dirIndex].size)
      modifies fat, root, handles, disk.blocks
      ensures State() == WriteSpec(old(State()), handle, buffer[..], count).0
      ensures r == WriteSpec(old(State()), handle, buffer[..], count).1
      ensures old(formatted && Opened(State(), handle)) && old(handles[handle].mode) == WRITE ==>
                (r == Throw(NoFreeBlock) <==> !CanWrite(old(State()), handle, buffer[..], count))
    {
      hide Valid, CountFree, PutBytes, FirstMiss;
      ghost var s := State();
      if Valid(s) && Opened(s, handle) { HandleSize(s, handle); }
      if handle < 0 || handle >= HANDLETABLE_SIZE { return Throw(InvalidHandle); }
      if !handles[handle].inUse || handles[handle].mode != WRITE { return Throw(WrongMode); }

      // What fits: the free blocks and the rest of the last block but for one byte.
      var fileSize := root[handles[handle].dirIndex].size;
      var slackSpace := BLOCK_SIZE - fileSize % BLOCK_SIZE;
      var free := FreeSpace();
      if free.Throw? { return Throw(free.error); }
      var openSpace := free.value + slackSpace - 1;
      var n := count;
      if openSpace < n { n := openSpace; }
      if n == 0 { return Ok(0); }
      ghost var k := if n < 0 then 0 else n;
      NoBytesPut(s, handle, buffer[..0]);
      assert buffer[..][..k] == buffer[..k];
      var missed := PutAll(handle, buffer, if n < 0 then 0 else n);
      if missed {
        ghost var m := FirstMiss(s, handle, buffer[..k]);
        assert buffer[..][..m + 1] == buffer[..m + 1];
        return Throw(NoFreeBlock);
      }
      return Ok(n);
    }

    // The body of the loop of read(): one byte out of the block buffer.
    method GetThroughBuffer(handle: int, blockBuffer: array<byte>, blockOffset: nat, blockCount: nat)
      returns (x: byte, blockOffset': nat, blockCount': nat)
      requires Separate() && Opened(State(), handle) && blockBuffer.Length == BLOCK_SIZE && Foreign(blockBuffer)
      requires blockBuffer[..] == disk.blocks[handles[handle].current]
      requires blockOffset == handles[handle].offset % BLOCK_SIZE && blockCount == BLOCK_SIZE - blockOffset
      modifies handles, blockBuffer
      ensures x == ByteUnder(old(State()), old(handles[handle]))
      ensures handles[..] == old(handles[..])[handle := Advance(old(State()), old(handles[handle]))]
      ensures blockBuffer[..] == disk.blocks[handles[handle].current]
      ensures blockOffset' == handles[handle].offset % BLOCK_SIZE && blockCount' == BLOCK_SIZE - blockOffset'
    {
      x := blockBuffer[blockOffset];
      blockOffset' := blockOffset + 1;
      handles[handle] := handles[handle].(offset := handles[handle].offset + 1);
      blockCount' := blockCount - 1;

      // The block is used up: the link leads to the next one.
      if blockCount' == 0 {
        handles[handle] := handles[handle].(current := fat[handles[handle].current]);
        disk.Read(handles[handle].current, blockBuffer);
        blockOffset' := 0;
        blockCount' := BLOCK_SIZE;
      }
    }

    // The copying part of read(): n bytes that lie in front of the end.
    method GetAll(handle: int, buffer: array<byte>, n: nat)
      requires Separate() && Foreign(buffer) && n <= buffer.Length && Opened(State(), handle)
      modifies handles, buffer
      ensures State() == MovedTo(old(State()), handle, n)
      ensures buffer[..] == BytesRead(old(State()), handle, n) + old(buffer[..])[n..]
    {
      hide Cursor, BytesRead, Advance, ByteUnder;
      ghost var s, rest := State(), buffer[..];
      CursorStart(s, handle);
      var blockBuffer := new byte[BLOCK_SIZE];
      var blockOffset := handles[handle].offset % BLOCK_SIZE;
      var blockCount := BLOCK_SIZE - blockOffset;
      disk.Read(handles[handle].current, blockBuffer);
      var i := 0;
      while i < n
        invariant 0 <= i <= n
        invariant fresh(blockBuffer) && blockBuffer.Length == BLOCK_SIZE
        invariant State() == MovedTo(s, handle, i)
        invariant blockBuffer[..] == disk.blocks[handles[handle].current]
        invariant blockOffset == handles[handle].offset % BLOCK_SIZE && blockCount == BLOCK_SIZE - blockOffset
        invariant buffer[..] == BytesRead(s, handle, i) + rest[i..]
      {
        blockOffset, blockCount := GetNext(handle, buffer, i, blockBuffer, blockOffset, blockCount, s, rest);
        i := i + 1;
      }
    }

    // One pass through that loop.
    method GetNext(handle: int, buffer: array<byte>, i: nat, blockBuffer: array<byte>, blockOffset: nat,
                   blockCount: nat, ghost s: FsState, ghost rest: seq<byte>)
      returns (blockOffset': nat, blockCount': nat)
      requires Separate() && Foreign(buffer) && Opened(s, handle) && i < buffer.Length == |rest|
      requires blockBuffer.Length == BLOCK_SIZE && Foreign(blockBuffer) && blockBuffer != buffer
      requires State() == MovedTo(s, handle, i) && buffer[..] == BytesRead(s, handle, i) + rest[i..]
      requires blockBuffer[..] == disk.blocks[handles[handle].current]
      requires blockOffset == handles[handle].offset % BLOCK_SIZE && blockCount == BLOCK_SIZE - blockOffset
      modifies handles, buffer, blockBuffer
      ensures State() == MovedTo(s, handle, i + 1) && buffer[..] == BytesRead(s, handle, i + 1) + rest[i + 1..]
      ensures blockBuffer[..] == disk.blocks[handles[handle].current]
      ensures blockOffset' == handles[handle].offset % BLOCK_SIZE && blockCount' == BLOCK_SIZE - blockOffset'
    {
      hide Cursor, BytesRead, Advance, ByteUnder;
      CursorNext(s, handle, i);
      var x: byte;
      x, blockOffset', blockCount' := GetThroughBuffer(handle, blockBuffer, blockOffset, blockCount);
      assert buffer[..] == BytesRead(s, handle, i) + rest[i..];
      buffer[i] := x;
    }

    method Read(handle: int, buffer: array<byte>, count: int) returns (r: Result<int>)
      requires Ready() && Foreign(buffer) && count <= buffer.Length
      modifies handles, buffer
      ensures State() == ReadSpec(old(State()), handle, count).0
      ensures r == ReadSpec(old(State()), handle, count).2
      ensures var data := ReadSpec(old(State()), handle, count).1;
              |data| <= buffer.Length && buffer[..] == data + old(buffer[..])[|data|..]
    {
      hide Valid, ValidWith, FilesOf, Cursor, BytesRead, MovedTo, ReadSpec;
      ghost var s := State();
      ghost var c := ValidChains(s);
      ReadThrows(s, handle, count);
      if handle < 0 || handle >= HANDLETABLE_SIZE { return Throw(InvalidHandle); }
      if !handles[handle].inUse || handles[handle].mode != READ { return Throw(WrongMode); }

      ReadIsCursor(s, handle, count);
      var fileSize := root[handles[handle].dirIndex].size;
      var n := count;
      if fileSize - handles[handle].offset < n { n := fileSize - handles[handle].offset; }

      if n == 0 { return Ok(0); }
      GetAll(handle, buffer, if n < 0 then 0 else n);
      return Ok(n);
    }

    method Open(name: Name, mode: Mode) returns (r: Result<int>)
      requires Ready()
      modifies fat, root, handles
      ensures State() == OpenSpec(old(State()), name, mode).0
      ensures r == OpenSpec(old(State()), name, mode).1
    {
      hide Valid, ValidWith, FirstFreeFrom, LookupFrom, FreeSlotFrom, FreeHandleFrom, CStr, ChainOf, StrCpy;
      ghost var s := State();
      ghost var c := ValidChains(s);

      var handle := 0;
      while handle < HANDLETABLE_SIZE
        invariant 0 <= handle <= HANDLETABLE_SIZE
        invariant forall k :: 0 <= k < handle ==> handles[k].inUse
      {
        if !handles[handle].inUse { break; }
        handle := handle + 1;
      }
      FreeHandleIs(s.handles, handle);
      if handle == HANDLETABLE_SIZE { return Throw(OutOfHandles); }

      var dirIndex := FindName(name);

      if dirIndex == DIR_SIZE {
        if mode == READ { return Throw(FileDoesNotExist); }
        r := Create(handle, name);
      } else if mode == READ {
        handles[handle] := Handle(0, dirIndex, root[dirIndex].start, true, READ);
        return Ok(handle);
      } else {
        var last := FindLast(dirIndex, c);
        handles[handle] := Handle(root[dirIndex].size, dirIndex, last, true, WRITE);
        return Ok(handle);
      }
    }

    // The search of open(), truncate() and remove() for a name.
    method FindName(name: Name) returns (dirIndex: nat)
      requires root.Length == DIR_SIZE
      ensures dirIndex == Lookup(root[..], name)
    {
      hide LookupFrom, CStr;
      dirIndex := 0;
      while dirIndex < DIR_SIZE
        invariant 0 <= dirIndex <= DIR_SIZE
        invariant forall k :: 0 <= k < dirIndex ==> !(Used(root[k]) && CStr(root[k].name) == name)
      {
        if root[dirIndex].inUse != 0 {
          if CStr(root[dirIndex].name) == name { break; }
        }
        dirIndex := dirIndex + 1;
      }
      LookupIs(root[..], name, dirIndex);
    }

    // open() for writing walks to the last block of an existing file.
    method FindLast(dirIndex: nat, ghost c: Chains) returns (last: nat)
      requires ValidWith(State(), c) && dirIndex < DIR_SIZE && Used(root[dirIndex])
      ensures ChainOf(fat[..], root[dirIndex].start) != []
      ensures last == Last(ChainOf(fat[..], root[dirIndex].start))
    {
      hide NamesUnique, Disjoint, NoneLost, HandlesOk, BootOk, ChainOf;
      EntryChain(fat[..], root[..], c, dirIndex);
      ghost var ch := c[dirIndex];
      var current := root[dirIndex].start;
      ghost var k := 0;
      while true
        invariant 0 <= k < |ch| && current == ch[k]
        decreases |ch| - k
      {
        LinkOnChain(fat[..], root[..], c, dirIndex, k);
        if fat[current] == EOF_FAT_ENTRY { break; }
        current := fat[current];
        k := k + 1;
      }
      last := current;
    }

    // open() for writing creates the file when the name is not there.
    method Create(handle: nat, name: Name) returns (r: Result<int>)
      requires Separate() && Shape(State())
      requires handle == FreeHandle(handles[..]) < HANDLETABLE_SIZE && Lookup(root[..], name) == DIR_SIZE
      modifies fat, root, handles
      ensures State() == OpenSpec(old(State()), name, WRITE).0
      ensures r == OpenSpec(old(State()), name, WRITE).1
    {
      hide FirstFreeFrom, LookupFrom, FreeSlotFrom, FreeHandleFrom, CStr, ChainOf, StrCpy;
      ghost var s := State();
      var dirIndex := 0;
      while dirIndex < DIR_SIZE
        invariant 0 <= dirIndex <= DIR_SIZE
        invariant forall k :: 0 <= k < dirIndex ==> Used(root[k])
      {
        if root[dirIndex].inUse == 0 { break; }
        dirIndex := dirIndex + 1;
      }
      FreeSlotIs(s.dir, dirIndex);
      if dirIndex == DIR_SIZE { return Throw(RootDirectoryFull); }

      var fatIndex := FindFree();
      if fatIndex == FAT_SIZE { return Throw(DiskFull); }

      fat[fatIndex] := EOF_FAT_ENTRY;
      root[dirIndex] := root[dirIndex].(inUse := 1, start := fatIndex, size := 0,
                                             name := StrCpy(root[dirIndex].name, name));
      handles[handle] := Handle(0, dirIndex, fatIndex, true, WRITE);
      return Ok(handle);
    }

    // The walk of truncate() and remove(): each link is overwritten after it
    // has been read.
    method FreeChain(start: nat, ghost ch: seq<nat>)
      requires fat.Length == FAT_SIZE && IsChain(fat[..], start, ch)
      requires forall j, j' :: 0 <= j < j' < |ch| ==> ch[j] != ch[j']
      modifies fat
      ensures fat[..] == FreeBlocks(old(fat[..]), ch)
    {
      ghost var before := fat[..];
      var current := start;
      ghost var k := 0;
      assert FreeBlocks(before, ch[..0]) == before;
      while fat[current] != EOF_FAT_ENTRY
        invariant 0 <= k < |ch| && current == ch[k]
        invariant fat[..] == FreeBlocks(before, ch[..k])
        decreases |ch| - k
      {
        assert fat[current] == before[current];
        StepOnPath(before, start, ch, k);
        var next := fat[current];
        fat[current] := FREE_FAT_ENTRY;
        FreeOneMore(before, ch, k);
        current := next;
        k := k + 1;
      }
      assert fat[current] == before[current];
      StepOnPath(before, start, ch, k);
      fat[current] := FREE_FAT_ENTRY;
      FreeOneMore(before, ch, k);
      assert ch[..k + 1] == ch;
    }

    method Truncate(name: Name)
      requires Ready()
      modifies fat, root
      ensures State() == TruncateSpec(old(State()), name)
    {
      hide Valid, ValidWith, LookupFrom, CStr, ChainOf, FreeBlocks, IsChain;
      ghost var s := State();
      ghost var c := ValidChains(s);
      var index := FindName(name);
      if index < DIR_SIZE {
        ChainToFree(s, c, index);
        FreeChain(root[index].start, c[index]);
        fat[root[index].start] := EOF_FAT_ENTRY;
        root[index] := root[index].(size := 0);
      }
    }

    method Remove(name: Name)
      requires Ready()
      modifies fat, root
      ensures State() == RemoveSpec(old(State()), name)
    {
      hide Valid, ValidWith, LookupFrom, CStr, ChainOf, FreeBlocks, IsChain;
      ghost var s := State();
      ghost var c := ValidChains(s);
      var index := FindName(name);
      if index < DIR_SIZE {
        ChainToFree(s, c, index);
        FreeChain(root[index].start, c[index]);
        root[index] := root[index].(inUse := 0);
      }
    }

    // ----- Directory scans -----

    method OpenDir()
      modifies this`scanIndex
      ensures scanIndex == 0
    {
      scanIndex := 0;
    }

    // One step of a scan: the next used entry, of which name and size are
    // returned, comes off the list of those still to be seen.
    method NextDir() returns (info: Option<(seq<byte>, int)>)
      requires root.Length == DIR_SIZE && 0 <= scanIndex <= DIR_SIZE
      modifies this`scanIndex
      ensures old(scanIndex) <= scanIndex <= DIR_SIZE
      ensures info.Some? ==> old(scanIndex) < scanIndex
      ensures Listing(root[..], old(scanIndex)) ==
              if info.Some? then [info.value] + Listing(root[..], scanIndex) else []
    {
      hide CStr;
      ghost var rest := Listing(root[..], scanIndex);
      while scanIndex < DIR_SIZE
        invariant old(scanIndex) <= scanIndex <= DIR_SIZE
        invariant Listing(root[..], scanIndex) == rest
      {
        if root[scanIndex].inUse == 0 {
          scanIndex := scanIndex + 1;
        } else {
          info := Some((CStr(root[scanIndex].name), root[scanIndex].size));
          scanIndex := scanIndex + 1;
          return;
        }
      }
      info := None;
    }

    // ----- check() -----

    // The verdict on a whole state, as check() decides it.
    ghost predicate PassesCheck()
      reads this, fat, root, handles
    {
      formatted && !AnyWriter(handles[..]) && Consistent(fat[..], root[..])
    }

    // What check() returns or throws: the handles come first, then the sizes,
    // and only with these in order the blocks.
    ghost predicate Verdict(r: CheckResult)
      reads this, fat, root, handles
    {
      if !formatted then r == NotFormatted
      else if AnyWriter(handles[..]) then r == OpenForWriting
      else if SizesVerdict(fat[..], root[..], Clean) then BlocksVerdict(fat[..], root[..], r)
      else SizesVerdict(fat[..], root[..], r)
    }

    // Links and the starting blocks of files are in range; nothing else is asked
    // of the disk.
    ghost predicate Checkable()
      reads this, fat, root
    {
      && LinksInRange(fat[..]) && root.Length == DIR_SIZE
      && forall i :: 0 <= i < DIR_SIZE && Listed(root[i]) ==> root[i].start < FAT_SIZE
    }

    // Counts the blocks of one file. The loop of check() never ends on a chain
    // that runs into a cycle; a count of FAT_SIZE blocks shows that it has.
    method ScanSize(start: nat, size: int) returns (r: CheckResult, ghost w: seq<nat>)
      requires LinksInRange(fat[..]) && start < FAT_SIZE
      ensures Scan(fat[..], start, w)
      ensures r == Clean ==> ScanEnds(fat[..], start, w) && |w| - 1 == TruncDiv(size, BLOCK_SIZE)
      ensures r == InvalidSize ==> ScanEnds(fat[..], start, w) && |w| - 1 != TruncDiv(size, BLOCK_SIZE)
      ensures r == FreeBlockInChain ==> fat[w[|w| - 1]] == FREE_FAT_ENTRY
      ensures r == NeverReturns <==> Endless(fat[..], start)
      ensures r in {Clean, InvalidSize, FreeBlockInChain, NeverReturns}
    {
      hide Endless;
      var blockCount := 0;
      var currentBlock := start;
      w := [start];
      while fat[currentBlock] != EOF_FAT_ENTRY
        invariant Scan(fat[..], start, w) && currentBlock == w[|w| - 1] && |w| == blockCount + 1 <= FAT_SIZE + 1
        decreases FAT_SIZE - blockCount
      {
        if fat[currentBlock] == FREE_FAT_ENTRY {
          StoppedNotEndless(fat[..], start, w);
          return FreeBlockInChain, w;
        }
        if blockCount == FAT_SIZE {
          LongScanIsEndless(fat[..], start, w);
          return NeverReturns, w;
        }
        ScanExtended(fat[..], start, w);
        blockCount := blockCount + 1;
        currentBlock := fat[currentBlock];
        w := w + [currentBlock];
      }
      StoppedNotEndless(fat[..], start, w);
      r := if TruncDiv(size, BLOCK_SIZE) != blockCount then InvalidSize else Clean;
    }

    // The size scan over all files.
    method CheckSizes() returns (r: CheckResult, ghost c: Chains)
      requires Checkable()
      ensures r == Clean ==> SizesOk(fat[..], root[..], c)
      ensures r != Clean ==> !Consistent(fat[..], root[..])
      ensures forall x :: SizesVerdict(fat[..], root[..], x) <==> x == r
      ensures r in {Clean, InvalidSize, FreeBlockInChain, NeverReturns}
      ensures r == NeverReturns <==> Stuck(fat[..], root[..])
    {
      hide Consistent, Endless, SizeClean, Stuck, SizesVerdict;
      c := [];
      var i := 0;
      while i < DIR_SIZE
        invariant 0 <= i <= DIR_SIZE && |c| == i
        invariant forall k :: 0 <= k < i ==> EntrySizeOk(fat[..], root[k], c[k]) && SizeClean(fat[..], root[k])
      {
        ghost var ch := [];
        if root[i].inUse == 1 {
          r, ch := ScanSize(root[i].start, root[i].size);
          if r == FreeBlockInChain || r == InvalidSize {
            FaultNotClean(fat[..], root[i], ch);
            FaultNotStuck(fat[..], root[..], i);
            NotCleanInconsistent(fat[..], root[..], i);
            EntryDecides(fat[..], root[..], i, r, ch);
            return;
          }
          if r == NeverReturns {
            IsStuck(fat[..], root[..], i);
            EndlessInconsistent(fat[..], root[..], i);
            EntryDecides(fat[..], root[..], i, r, ch);
            return;
          }
        }
        EntryClean(fat[..], root[i], ch);
        c := c + [ch];
        i := i + 1;
      }
      AllCleanNotStuck(fat[..], root[..]);
      AllCleanDecides(fat[..], root[..]);
      r := Clean;
    }

    // check_off records the special blocks and the blocks in `seen`.
    ghost predicate CheckedOff(off: array<bool>, seen: seq<nat>)
      reads fat, off
    {
      && fat.Length == FAT_SIZE && off.Length == FAT_SIZE
      && forall b :: 0 <= b < FAT_SIZE ==> (off[b] <==> Special(fat[b]) || b in seen)
    }

    // Checks off the blocks of one file. Every block on the way is unchecked
    // before, so that the walk ends on any table, also on a cycle.
    method CheckOffFile(off: array<bool>, start: nat, ghost seen: seq<nat>) returns (r: CheckResult, ghost ch: seq<nat>)
      requires LinksInRange(fat[..]) && start < FAT_SIZE
      requires CheckedOff(off, seen) && NoDup(seen) && off as object != fat
      modifies off
      ensures r == Clean ==> Fits(fat[..], start, seen, ch) && CheckedOff(off, seen + ch)
      ensures r != Clean ==> forall x :: !Fits(fat[..], start, seen, x)
      ensures r != Clean ==> exists b: nat :: HitBy(fat[..], start, seen, ch, b, r)
      ensures r in {Clean, CrossLinked, CrossLinkedEof}
    {
      hide NoDup, Fits;
      var currentBlock: nat := start;
      ch := [];
      assert seen + ch == seen;
      while fat[currentBlock] != EOF_FAT_ENTRY
        invariant currentBlock < FAT_SIZE && Scan(fat[..], start, ch + [currentBlock])
        invariant CheckedOff(off, seen + ch) && NoDup(seen + ch) && NoneSpecial(fat[..], ch)
        decreases |Unmarked(off[..])|
      {
        if off[currentBlock] {
          forall x ensures !Fits(fat[..], start, seen, x) { NoFit(fat[..], start, seen, ch, currentBlock, x); }
          assert HitBy(fat[..], start, seen, ch, currentBlock, CrossLinked);
          return CrossLinked, ch;
        }
        OneLessUnmarked(off[..], currentBlock);
        ghost var was := off[..];
        off[currentBlock] := true;
        assert off[..] == was[currentBlock := true];
        FitsMore(fat[..], seen, ch, currentBlock);
        ScanExtended(fat[..], start, ch + [currentBlock]);
        ch := ch + [currentBlock];
        currentBlock := fat[currentBlock];
      }
      // The block of the EOF entry belongs to the file as well.
      if off[currentBlock] {
        forall x ensures !Fits(fat[..], start, seen, x) { NoFit(fat[..], start, seen, ch, currentBlock, x); }
        assert HitBy(fat[..], start, seen, ch, currentBlock, CrossLinkedEof);
        return CrossLinkedEof, ch;
      }
      off[currentBlock] := true;
      FitsMore(fat[..], seen, ch, currentBlock);
      ch := ch + [currentBlock];
      FitsIs(fat[..], start, seen, ch);
      r := Clean;
    }

    // The check-off scan over all files, whatever their sizes.
    method CheckOffAll(off: array<bool>) returns (r: CheckResult, ghost c: Chains)
      requires Checkable() && CheckedOff(off, []) && off as object != fat && off as object != root
      modifies off
      ensures r == Clean ==> AllFit(fat[..], root[..], c) && CheckedOff(off, Flat(c, |c|))
      ensures r != Clean ==> forall x :: !AllFit(fat[..], root[..], x)
      ensures r != Clean ==> BlocksVerdict(fat[..], root[..], r)
      ensures r in {Clean, CrossLinked, CrossLinkedEof}
    {
      hide Fits, CheckedOff, IsChain, AllFit, NoDup, NoneSpecial, HitBy, BlocksVerdict;
      c := [];
      NothingFlat(fat[..]);
      var i := 0;
      while i < DIR_SIZE
        invariant 0 <= i <= DIR_SIZE && |c| == i
        invariant forall k :: 0 <= k < i ==>
                  if Listed(root[k]) then IsChain(fat[..], root[k].start, c[k]) else c[k] == []
        invariant CheckedOff(off, Flat(c, i)) && NoDup(Flat(c, i)) && NoneSpecial(fat[..], Flat(c, i))
      {
        ghost var ch := [];
        if root[i].inUse == 1 {
          r, ch := CheckOffFile(off, root[i].start, Flat(c, i));
          if r != Clean {
            forall x ensures !AllFit(fat[..], root[..], x) {
              if AllFit(fat[..], root[..], x) { NextFits(fat[..], root[..], c, x); }
            }
            ghost var b: nat :| HitBy(fat[..], root[i].start, Flat(c, i), ch, b, r);
            CrossedAt(fat[..], root[..], c, ch, b, r);
            return;
          }
          FitsChain(fat[..], root[i].start, Flat(c, i), ch);
        }
        FlatMore(c, ch);
        c := c + [ch];
        i := i + 1;
      }
      AllFitIs(fat[..], root[..], c);
      r := Clean;
    }

    // Cross links and lost blocks: whatever chains the size scan has accepted,
    // this decides whether they are in order.
    method CheckBlocks() returns (r: CheckResult)
      requires Checkable()
      ensures forall c :: SizesOk(fat[..], root[..], c) ==> (r == Clean <==> BlocksOk(fat[..], c))
      ensures forall x :: BlocksVerdict(fat[..], root[..], x) <==> x == r
      ensures r in {Clean, CrossLinked, CrossLinkedEof, LostChain}
    {
      hide SizesOk, AllFit, BlocksVerdict;
      forall c | SizesOk(fat[..], root[..], c)
        ensures AllFit(fat[..], root[..], c) <==> NoDup(Flat(c, |c|)) && NoneReserved(fat[..], Flat(c, |c|))
        ensures forall x :: AllFit(fat[..], root[..], x) ==> x == c
      {
        SizesFit(fat[..], root[..], c);
      }
      // Special blocks count as checked off from the start.
      var off := new bool[FAT_SIZE];
      var b := 0;
      while b < FAT_SIZE
        invariant 0 <= b <= FAT_SIZE
        invariant forall k :: 0 <= k < b ==> (off[k] <==> Special(fat[k]))
      {
        off[b] := false;
        if fat[b] == RESERVED_FAT_ENTRY { off[b] := true; }
        if fat[b] == FREE_FAT_ENTRY { off[b] := true; }
        b := b + 1;
      }
      ghost var x;
      r, x := CheckOffAll(off);
      if r != Clean {
        BlocksDecided(fat[..], root[..], r);
        return;
      }

      // A block left over is lost.
      b := 0;
      while b < FAT_SIZE
        invariant 0 <= b <= FAT_SIZE
        invariant forall k :: 0 <= k < b ==> off[k]
      {
        if !off[b] {
          assert !Special(fat[..][b]) && b !in Flat(x, |x|);
          LostDecides(fat[..], root[..], x, b);
          return LostChain;
        }
        b := b + 1;
      }
      NoneLostDecides(fat[..], root[..], x);
    }

    // A formatted file system in good order passes unless a writer is open.
    lemma ReadyPasses()
      requires Ready() && Checkable()
      ensures formatted && Consistent(fat[..], root[..])
    {
      hide Valid, Consistent;
      FormattedIs(State());
      ValidConsistent(State());
    }

    method Check() returns (r: CheckResult)
      requires Separate() && fat.Length == 512 && root.Length == 32 && handles.Length == 16
      requires forall b :: 0 <= b < 512 ==> fat[b] < 512
      requires forall i :: 0 <= i < 32 && root[i].inUse == 1 ==> root[i].start < 512
      ensures forall x :: Verdict(x) <==> x == r
      ensures r == Clean <==> PassesCheck()
      ensures r == NotFormatted <==> !formatted
      ensures r == OpenForWriting <==> formatted && AnyWriter(handles[..])
      ensures r == NeverReturns <==> formatted && !AnyWriter(handles[..]) && Stuck(fat[..], root[..])
      ensures Ready() && (forall h :: 0 <= h < handles.Length && handles[h].inUse ==> handles[h].mode == READ) ==>
                r == Clean
      ensures formatted && (exists h :: 0 <= h < handles.Length && handles[h].inUse && handles[h].mode == WRITE) ==>
                r == OpenForWriting
    {
      hide Consistent, SizesOk, BlocksOk, Stuck, Valid, SizesVerdict, BlocksVerdict;
      if Ready() { ReadyPasses(); }
      if !formatted { return NotFormatted; }

      var h := 0;
      while h < HANDLETABLE_SIZE
        invariant 0 <= h <= HANDLETABLE_SIZE
        invariant forall k :: 0 <= k < h ==> !IsWriter(handles[k])
      {
        if handles[h].inUse && handles[h].mode == WRITE {
          assert IsWriter(handles[..][h]);
          return OpenForWriting;
        }
        h := h + 1;
      }
      assert !AnyWriter(handles[..]);

      ghost var c;
      r, c := CheckSizes();
      if r != Clean { return; }
      ConsistentIff(fat[..], root[..], c);
      r := CheckBlocks();
    }
  }

  lemma FlushIs(s: FsState)
    requires Valid(s)
    ensures Shape(s) && |FlushSpec(s).disk| == |s.disk| >= FAT_SIZE
    ensures RemountSpec(s).formatted && RemountSpec(s).disk == FlushSpec(s).disk
  {
    hide StructureOk, BootOk;
    var c := ValidChains(s);
    RemountIs(s, c);
    FlushKeepsBoot(s, c);
  }

  // A state that the constructor may find where the specification has the handles
  // of before, closed.
  lemma MountedIs(s: FsState, r: FsState)
    requires Valid(s) && |r.handles| == HANDLETABLE_SIZE && NothingOpen(r)
    requires |FlushSpec(s).disk| >= FAT_SIZE && r.disk == FlushSpec(s).disk && r.formatted == BootOk(r.disk[BOOT_BLOCK])
    requires r.formatted ==> r.fat == FatOfImage(r.disk[FAT_BLOCK]) && r.dir == DirOfImage(r.disk[ROOT_BLOCK])
    ensures Valid(r) && FilesOf(r) == FilesOf(s)
    ensures r.(handles := RemountSpec(s).handles) == RemountSpec(s)
    ensures Shape(r) && Shape(RemountSpec(s)) && Views(r) == Views(RemountSpec(s))
  {
    hide StructureOk, BootOk, FatOfImage, DirOfImage, FlushSpec, FatImage, DirImage, ByteAt, HandlesOk;
    var q := RemountSpec(s);
    RemountRecovers(s);
    FlushIs(s);
    assert r.formatted && r.(handles := q.handles) == q;
    var c := ValidChains(q);
    ValidLengths(q, c);
    ClosedHandlesOk(r.handles, r.dir, c);
    ValidIs(r, c);
    assert Contents(r, c) == Contents(q, c);
  }

  lemma CursorStart(s: FsState, h: int)
    requires Opened(s, h)
    ensures MovedTo(s, h, 0) == s && BytesRead(s, h, 0) == []
  {
    assert s.handles[h := s.handles[h]] == s.handles;
  }

  lemma CursorNext(s: FsState, h: int, i: nat)
    requires Opened(s, h)
    ensures MovedTo(s, h, i).handles[h] == Cursor(s, h, i)
    ensures MovedTo(s, h, i + 1) ==
            s.(handles := MovedTo(s, h, i).handles[h := Advance(MovedTo(s, h, i), Cursor(s, h, i))])
    ensures BytesRead(s, h, i + 1) == BytesRead(s, h, i) + [ByteUnder(MovedTo(s, h, i), Cursor(s, h, i))]
  {
  }

  lemma ReadThrows(s: FsState, h: int, count: int)
    requires Shape(s)
    ensures h < 0 || h >= HANDLETABLE_SIZE ==> ReadSpec(s, h, count) == (s, [], Throw(InvalidHandle))
    ensures 0 <= h < HANDLETABLE_SIZE && !IsReader(s.handles[h]) ==> ReadSpec(s, h, count) == (s, [], Throw(WrongMode))
  {
  }

  lemma FormattedIs(s: FsState)
    requires Valid(s)
    ensures s.formatted
  {
    hide StructureOk, HandlesOk;
    var c := ValidChains(s);
  }

  lemma FreeHandleIs(handles: seq<Handle>, i: nat)
    requires i <= |handles| && (forall k :: 0 <= k < i ==> handles[k].inUse) && (i < |handles| ==> !handles[i].inUse)
    ensures FreeHandle(handles) == i
  {
    hide FreeHandleFrom;
  }

  lemma FreeSlotIs(dir: seq<DirEntry>, i: nat)
    requires i <= |dir| && (forall k :: 0 <= k < i ==> Used(dir[k])) && (i < |dir| ==> !Used(dir[i]))
    ensures FreeSlot(dir) == i
  {
    hide FreeSlotFrom;
  }

  lemma LookupIs(dir: seq<DirEntry>, name: Name, i: nat)
    requires i <= |dir| && (forall k :: 0 <= k < i ==> !(Used(dir[k]) && CStr(dir[k].name) == name))
    requires i < |dir| ==> Used(dir[i]) && CStr(dir[i].name) == name
    ensures Lookup(dir, name) == i
  {
    hide LookupFrom, CStr;
  }

  lemma FreeOneMore(fat: seq<nat>, ch: seq<nat>, k: nat)
    requires k < |ch| && ch[k] < |fat|
    ensures FreeBlocks(fat, ch[..k])[ch[k] := FREE_FAT_ENTRY] == FreeBlocks(fat, ch[..k + 1])
  {
    assert ch[..k + 1] == ch[..k] + [ch[k]];
  }

  // The chain that truncate() and remove() walk.
  lemma ChainToFree(s: FsState, c: Chains, d: nat)
    requires ValidWith(s, c) && d < DIR_SIZE && Used(s.dir[d])
    ensures |c| == DIR_SIZE && IsChain(s.fat, s.dir[d].start, c[d])
    ensures ChainOf(s.fat, s.dir[d].start) == c[d]
    ensures forall j, j' :: 0 <= j < j' < |c[d]| ==> c[d][j] != c[d][j']
  {
    hide NamesUnique, NoneLost, HandlesOk, BootOk, ChainOf, IsChain;
    EntryChain(s.fat, s.dir, c, d);
    assert EntryOk(s.fat, s.dir[d], c[d]);
  }
}
