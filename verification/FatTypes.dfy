// State of the FAT simulator (FAT/FileSystem.hpp): the in-memory file
// allocation table, the root directory, the handle table and the block device.
module FatTypes {
  import Bytes

  type byte = Bytes.byte

  const BLOCK_SIZE := 1024
  const FAT_SIZE := 512          // BLOCK_SIZE / sizeof(block_number)
  const DIR_SIZE := 32           // BLOCK_SIZE / sizeof(directory_entry)
  const HANDLETABLE_SIZE := 16
  const NAME_SIZE := 24

  const BOOT_BLOCK := 0
  const FAT_BLOCK := 1
  const ROOT_BLOCK := 2

  const FREE_FAT_ENTRY := 0
  const RESERVED_FAT_ENTRY := 1
  const EOF_FAT_ENTRY := 2

  const FORMATTED: byte := 0x6E

  // A device block.
  type Block = b: seq<byte> | |b| == BLOCK_SIZE witness seq(BLOCK_SIZE, _ => 0)

  // The 24-byte name field of a directory entry.
  type RawName = r: seq<byte> | |r| == NAME_SIZE witness seq(NAME_SIZE, _ => 0)

  // A C string that fits a name field together with its terminator.
  type Name = n: seq<byte> | |n| < NAME_SIZE && 0 !in n witness []

  datatype Option<+T> = None | Some(value: T)

  datatype Mode = READ | WRITE

  datatype DirEntry = DirEntry(name: RawName, size: int, start: nat, inUse: byte, pad: byte)

  datatype Handle = Handle(offset: int, dirIndex: int, current: nat, inUse: bool, mode: Mode)

  datatype FsState = FsState(
    formatted: bool,
    fat: seq<nat>,
    dir: seq<DirEntry>,
    handles: seq<Handle>,
    disk: seq<Block>)

  // The exceptions the file system throws.
  datatype Error =
    | BadBlockSize
    | TooFewBlocks
    | Unformatted
    | InvalidHandle
    | HandleNotOpen
    | WrongMode
    | NoFreeBlock
    | OutOfHandles
    | FileDoesNotExist
    | RootDirectoryFull
    | DiskFull

  datatype Result<+T> = Ok(value: T) | Throw(error: Error)

  // What C++ guarantees about the arrays, and the ranges without which an
  // array access in the source would be out of bounds.
  ghost predicate Shape(s: FsState) {
    && |s.fat| == FAT_SIZE
    && |s.dir| == DIR_SIZE
    && |s.handles| == HANDLETABLE_SIZE
    && |s.disk| >= FAT_SIZE
    && (forall b :: 0 <= b < FAT_SIZE ==> s.fat[b] < FAT_SIZE)
    && (forall i :: 0 <= i < DIR_SIZE ==> s.dir[i].start < FAT_SIZE)
    && (forall h :: 0 <= h < HANDLETABLE_SIZE && s.handles[h].inUse ==> HandleInRange(s.handles[h]))
  }

  predicate HandleInRange(e: Handle) {
    0 <= e.offset && 0 <= e.dirIndex < DIR_SIZE && e.current < FAT_SIZE
  }

  // ----- C strings -----

  // The C string stored in a character array: everything before the first NUL.
  function CStr(raw: seq<byte>): (r: seq<byte>)
    ensures 0 !in r && |r| <= |raw|
    ensures 0 in raw ==> |r| < |raw|
  {
    if raw == [] || raw[0] == 0 then [] else [raw[0]] + CStr(raw[1..])
  }

  // strcpy: the bytes behind the terminator keep their old values.
  function StrCpy(raw: RawName, name: Name): RawName {
    name + [0] + raw[|name| + 1..]
  }

  lemma {:induction false} CStrStops(name: seq<byte>, rest: seq<byte>)
    requires 0 !in name
    ensures CStr(name + [0] + rest) == name
  {
    if name == [] {
      assert (name + [0] + rest)[0] == 0;
    } else {
      assert (name + [0] + rest)[1..] == name[1..] + [0] + rest;
      CStrStops(name[1..], rest);
    }
  }

  // Copying a name into a field and reading it back gives the name, whatever
  // the field held before.
  lemma StrCpyRoundTrip(raw: RawName, name: Name)
    ensures CStr(StrCpy(raw, name)) == name && 0 in StrCpy(raw, name)
  {
    CStrStops(name, raw[|name| + 1..]);
    assert StrCpy(raw, name)[|name|] == 0;
  }

  // ----- Free blocks -----

  // Number of FREE entries.
  function CountFree(fat: seq<nat>): (n: nat)
    ensures n <= |fat|
  {
    if fat == [] then 0
    else CountFree(fat[..|fat| - 1]) + (if fat[|fat| - 1] == FREE_FAT_ENTRY then 1 else 0)
  }

  // Index of the first FREE entry at or behind i, |fat| when there is none.
  function FirstFreeFrom(fat: seq<nat>, i: nat): (j: nat)
    requires i <= |fat|
    ensures i <= j <= |fat|
    ensures j < |fat| ==> fat[j] == FREE_FAT_ENTRY
    ensures forall k :: i <= k < j ==> fat[k] != FREE_FAT_ENTRY
    decreases |fat| - i
  {
    if i == |fat| || fat[i] == FREE_FAT_ENTRY then i else FirstFreeFrom(fat, i + 1)
  }

  function FirstFree(fat: seq<nat>): (j: nat)
    ensures j <= |fat|
    ensures j < |fat| ==> fat[j] == FREE_FAT_ENTRY
    ensures forall k :: 0 <= k < j ==> fat[k] != FREE_FAT_ENTRY
  {
    FirstFreeFrom(fat, 0)
  }

  lemma {:induction false} CountFreeUpdate(fat: seq<nat>, b: nat, v: nat)
    requires b < |fat|
    ensures CountFree(fat[b := v]) ==
            CountFree(fat) - (if fat[b] == FREE_FAT_ENTRY then 1 else 0) + (if v == FREE_FAT_ENTRY then 1 else 0)
  {
    var n := |fat| - 1;
    if b == n {
      assert fat[b := v][..n] == fat[..n];
    } else {
      CountFreeUpdate(fat[..n], b, v);
      assert fat[b := v][..n] == fat[..n][b := v];
    }
  }

  // A block is free exactly when the linear search for one succeeds.
  lemma {:induction false} FreeBlockExists(fat: seq<nat>)
    ensures CountFree(fat) > 0 <==> FirstFree(fat) < |fat|
  {
    if CountFree(fat) > 0 {
      SomeFree(fat);
    }
    if FirstFree(fat) < |fat| {
      CountFreeUpdate(fat, FirstFree(fat), EOF_FAT_ENTRY);
    }
  }

  lemma {:induction false} SomeFree(fat: seq<nat>)
    requires CountFree(fat) > 0
    ensures exists b :: 0 <= b < |fat| && fat[b] == FREE_FAT_ENTRY
  {
    var n := |fat| - 1;
    if fat[n] != FREE_FAT_ENTRY {
      SomeFree(fat[..n]);
      var b :| 0 <= b < n && fat[..n][b] == FREE_FAT_ENTRY;
      assert fat[b] == FREE_FAT_ENTRY;
    }
  }
}
