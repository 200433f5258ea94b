// What each call of the interface returns and does to the files, in terms of the
// handles, the directory and the number of free entries alone.
module FatCalls {
  import opened FatTypes
  import opened FatInvariant
  import opened FatOps
  import opened FatFiles
  import opened FatReadProofs
  import opened FatWriteProofs
  import opened FatDirProofs
  import opened FatRemount
  import opened FatRefinement

  // The calls that the interface leaves defined: no second writer of a file, no more
  // bytes than the buffer has, no cut of an open file, no format under open handles.
  lemma AllowedCalls(s: FsState, name: Name, h: int, data: seq<byte>, count: int)
    requires Shape(s)
    ensures Allowed(Abs(s), OpenOp(name, READ)) && Allowed(Abs(s), ReadOp(h, count)) && Allowed(Abs(s), RemountOp)
    ensures h >= 0 ==> Allowed(Abs(s), CloseOp(h))
    ensures Allowed(Abs(s), OpenOp(name, WRITE)) <==>
            forall g :: 0 <= g < 16 && s.handles[g].inUse && s.handles[g].mode == WRITE ==>
              CStr(s.dir[s.handles[g].dirIndex].name) != name
    ensures Allowed(Abs(s), WriteOp(h, data, count)) <==> count <= |data|
    ensures Allowed(Abs(s), TruncateOp(name)) && Allowed(Abs(s), RemoveOp(name)) <==>
            forall g :: 0 <= g < 16 && s.handles[g].inUse ==> CStr(s.dir[s.handles[g].dirIndex].name) != name
    ensures Allowed(Abs(s), TruncateOp(name)) <==> Allowed(Abs(s), RemoveOp(name))
    ensures Allowed(Abs(s), FormatOp) <==> forall g :: 0 <= g < 16 ==> !s.handles[g].inUse
  {
    hide FilesOf, CountFree, CStr;
    var v := Views(s);
    forall g | 0 <= g < 16 ensures v[g] == ViewOf(s, g) && (v[g].Some? <==> s.handles[g].inUse) { ViewAt(s, g); }
  }

  // The 16 handles are given out lowest first.
  lemma FreeHandleIsLowest(s: FsState)
    requires Shape(s)
    ensures var h := FreeHandle(s.handles);
            && h <= 16 && (forall g :: 0 <= g < h ==> s.handles[g].inUse) && (h < 16 ==> !s.handles[h].inUse)
  {
  }

  // open() for reading: the lowest unused handle, at the beginning.
  lemma OpenForReading(s: FsState, name: Name)
    requires Valid(s)
    ensures Shape(s) && Valid(OpenSpec(s, name, READ).0)
    ensures var (r, out) := OpenSpec(s, name, READ);
            if forall h :: 0 <= h < 16 ==> s.handles[h].inUse then r == s && out == Throw(OutOfHandles)
            else if name !in FilesOf(s) then r == s && out == Throw(FileDoesNotExist)
            else
              && out.Ok? && 0 <= out.value < 16 && !s.handles[out.value].inUse
              && (forall h :: 0 <= h < out.value ==> s.handles[h].inUse)
              && r.handles[out.value].inUse && r.handles[out.value].mode == READ && r.handles[out.value].offset == 0
              && 0 <= r.handles[out.value].dirIndex < 32 && CStr(s.dir[r.handles[out.value].dirIndex].name) == name
              && r == s.(handles := s.handles[out.value := r.handles[out.value]])
  {
    hide Valid, FilesOf, CStr, FreeHandleFrom, LookupFrom, ChainOf, FreeSlotFrom;
    OpenedValid(s, name);
    FreeHandleIsLowest(s);
    FileThere(s, name);
  }

  lemma OpenedValid(s: FsState, name: Name)
    requires Valid(s)
    ensures Shape(s) && Valid(OpenSpec(s, name, READ).0)
  {
    hide Valid, Abs, AbsOk, AbsStep, OpenSpec;
    ValidAbsOk(s);
    OpenRefines(s, name, READ);
  }

  // open() for writing: a file that exists is continued at its end ...
  lemma OpenForWriting(s: FsState, name: Name)
    requires Valid(s)
    ensures Shape(s) && Shape(OpenSpec(s, name, WRITE).0)
    ensures var (r, out) := OpenSpec(s, name, WRITE);
            if forall h :: 0 <= h < 16 ==> s.handles[h].inUse then r == s && out == Throw(OutOfHandles)
            else name in FilesOf(s) ==>
              && out.Ok? && 0 <= out.value < 16 && !s.handles[out.value].inUse
              && (forall h :: 0 <= h < out.value ==> s.handles[h].inUse)
              && r.handles[out.value].inUse && r.handles[out.value].mode == WRITE
              && r.handles[out.value].offset == |FilesOf(s)[name]|
              && 0 <= r.handles[out.value].dirIndex < 32 && CStr(s.dir[r.handles[out.value].dirIndex].name) == name
              && r == s.(handles := s.handles[out.value := r.handles[out.value]])
  {
    hide Valid, FilesOf, CStr, FreeHandleFrom, LookupFrom, ChainOf, FreeSlotFrom, FirstFreeFrom;
    OpenedShape(s, name, WRITE);
    FreeHandleIsLowest(s);
    FileThere(s, name);
  }

  lemma OpenedShape(s: FsState, name: Name, mode: Mode)
    requires Valid(s)
    ensures Shape(s) && Shape(OpenSpec(s, name, mode).0)
  {
    hide StructureOk, HandlesOk, BootOk, CStr, LookupFrom, ChainOf, FreeHandleFrom, FreeSlotFrom, FirstFreeFrom;
    var c := ValidChains(s);
    var d := Lookup(s.dir, name);
    if d < DIR_SIZE { EntryChain(s.fat, s.dir, c, d); }
  }

  // ... and one that does not is created, unless one of three things is used up, ...
  lemma OpenToCreate(s: FsState, name: Name)
    requires Valid(s)
    ensures Shape(s)
    ensures name !in FilesOf(s) ==>
              var (r, out) := OpenSpec(s, name, WRITE);
              if forall h :: 0 <= h < 16 ==> s.handles[h].inUse then r == s && out == Throw(OutOfHandles)
              else if |FilesOf(s)| == 32 then r == s && out == Throw(RootDirectoryFull)
              else if forall b :: 0 <= b < 512 ==> s.fat[b] != 0 then r == s && out == Throw(DiskFull)
              else out == Ok(FreeHandle(s.handles))
  {
    hide Valid, FilesOf, CStr, FreeHandleFrom, LookupFrom, FreeSlotFrom, FirstFreeFrom;
    OpenedShape(s, name, WRITE);
    FreeHandleIsLowest(s);
    FileThere(s, name);
    DirectoryFull(s);
  }

  // ... empty, in the first unused slot, with the first free block, to which the
  // entry EOF is given.
  lemma CreateCall(s: FsState, name: Name)
    requires Valid(s) && Shape(s) && name !in FilesOf(s) && OpenSpec(s, name, WRITE).1.Ok?
    ensures var (r, out) := OpenSpec(s, name, WRITE);
            && out.Ok? && 0 <= out.value < 16 && !s.handles[out.value].inUse && Shape(r) && Valid(r)
            && FilesOf(r) == FilesOf(s)[name := []] && CountFree(r.fat) == CountFree(s.fat) - 1
            && (forall h :: 0 <= h < 16 && h != out.value ==> r.handles[h] == s.handles[h])
            && r.handles[out.value].inUse && r.handles[out.value].mode == WRITE && r.handles[out.value].offset == 0
            && var b, d := r.handles[out.value].current, r.handles[out.value].dirIndex;
               && b < 512 && s.fat[b] == 0 && (forall k :: 0 <= k < b ==> s.fat[k] != 0) && r.fat == s.fat[b := 2]
               && 0 <= d < 32 && s.dir[d].inUse == 0 && (forall k :: 0 <= k < d ==> s.dir[k].inUse != 0)
               && (forall k :: 0 <= k < 32 && k != d ==> r.dir[k] == s.dir[k])
               && r.dir[d].inUse == 1 && r.dir[d].start == b && r.dir[d].size == 0
               && r.dir[d].name[..|name|] == name && r.dir[d].name[|name|] == 0
  {
    hide Valid, FilesOf, CStr, FreeHandleFrom, LookupFrom, FreeSlotFrom, FirstFreeFrom, CountFree, Views;
    ValidAbsOk(s);
    FreeHandleIsLowest(s);
    FileThere(s, name);
    CreateRefines(s, name);
  }

  lemma CloseCall(s: FsState, h: nat)
    requires Valid(s) && Shape(s)
    ensures var (r, out) := CloseSpec(s, h);
            if h >= 16 then r == s && out == Throw(InvalidHandle)
            else if !s.handles[h].inUse then r == s && out == Throw(HandleNotOpen)
            else out == Ok(()) && r == s.(handles := s.handles[h := s.handles[h].(inUse := false)])
  {
    hide StructureOk, HandlesOk, BootOk;
    var c := ValidChains(s);
  }

  // read() delivers the bytes of the file from the offset on, at most count.
  lemma ReadCall(s: FsState, h: int, count: int)
    requires Valid(s) && Shape(s)
    ensures var (r, data, out) := ReadSpec(s, h, count);
            if !(0 <= h < 16) then r == s && data == [] && out == Throw(InvalidHandle)
            else if !s.handles[h].inUse || s.handles[h].mode != READ then
              r == s && data == [] && out == Throw(WrongMode)
            else
              && CStr(s.dir[s.handles[h].dirIndex].name) in FilesOf(s)
              && var bytes, o := FilesOf(s)[CStr(s.dir[s.handles[h].dirIndex].name)], s.handles[h].offset;
                 && o <= |bytes|
                 && out == Ok(if count < |bytes| - o then count else |bytes| - o)
                 && data == (if count <= 0 then [] else if count < |bytes| - o then bytes[o..o + count] else bytes[o..])
                 && Shape(r) && FilesOf(r) == FilesOf(s) && r.fat == s.fat && r.dir == s.dir && r.disk == s.disk
                 && (forall g :: 0 <= g < 16 && g != h ==> r.handles[g] == s.handles[g])
                 && r.handles[h].offset == o + |data|
  {
    hide Valid, FilesOf, CStr, Cursor, BytesRead;
    ReadCorrect(s, h, count);
    ReadKeepsTable(s, h, count);
    if Opened(s, h) && s.handles[h].mode == READ { ReadMoves(s, h, count); }
  }

  lemma ReadMoves(s: FsState, h: int, count: int)
    requires Valid(s) && Shape(s) && Opened(s, h) && s.handles[h].mode == READ
    ensures var (r, data, out) := ReadSpec(s, h, count);
            && r.dir == s.dir && r.disk == s.disk && r.handles[h].offset == s.handles[h].offset + |data|
            && forall g :: 0 <= g < 16 && g != h ==> r.handles[g] == s.handles[g]
  {
    hide Valid, FilesOf, CStr, BytesRead;
    var n := Min(count, s.dir[s.handles[h].dirIndex].size - s.handles[h].offset);
    if n > 0 { CursorMoves(s, h, n); }
  }

  lemma {:induction false} CursorMoves(s: FsState, h: int, n: nat)
    requires Opened(s, h)
    ensures Cursor(s, h, n).offset == s.handles[h].offset + n
  {
    if n > 0 { CursorMoves(s, h, n - 1); }
  }

  // write() appends at most count bytes, and at most those that the free blocks and
  // the last block hold, of which one byte stays unused.
  lemma WriteCall(s: FsState, h: int, data: seq<byte>, count: int)
    requires Valid(s) && Shape(s) && count <= |data|
    ensures var (r, out) := WriteSpec(s, h, data, count);
            if !(0 <= h < 16) then r == s && out == Throw(InvalidHandle)
            else if !s.handles[h].inUse || s.handles[h].mode != WRITE then r == s && out == Throw(WrongMode)
            else
              && CStr(s.dir[s.handles[h].dirIndex].name) in FilesOf(s)
              && var name := CStr(s.dir[s.handles[h].dirIndex].name);
                 var bytes := FilesOf(s)[name];
                 var room := 1024 * CountFree(s.fat) + 1023 - |bytes| % 1024;
                 var k := if count <= 0 then 0 else if count < room then count else room;
                 && out == Ok(if count < room then count else room)
                 && Shape(r) && Valid(r) && FilesOf(r) == FilesOf(s)[name := bytes + data[..k]]
                 && CountFree(s.fat) - CountFree(r.fat) == (|bytes| + k) / 1024 - |bytes| / 1024
                 && (forall g :: 0 <= g < 16 && g != h ==> r.handles[g] == s.handles[g])
                 && r.handles[h].offset == |bytes| + k
  {
    hide Valid, FilesOf, CStr, PutBytes, FirstMiss, CountFree;
    if Opened(s, h) && s.handles[h].mode == WRITE {
      HandleFile(s, h);
      WriteIsPutBytes(s, h, data, count);
      WriterOffset(s, h);
      var n := Min(count, Capacity(s, h));
      var k := if n < 0 then 0 else n;
      NoBytesPut(s, h, data[..0]);
      PutBytesAppends(s, h, data[..k]);
      PutBytesFrame(s, h, data[..k]);
      WriteTakesBlocks(s, h, data[..k]);
    }
  }

  lemma WriterOffset(s: FsState, h: int)
    requires Writer(s, h)
    ensures s.handles[h].offset == s.dir[s.handles[h].dirIndex].size >= 0
  {
    hide NamesUnique, NoneLost, Disjoint;
    var c := ValidChains(s);
    WriterAtEnd(s, c, h);
    assert EntryOk(s.fat, s.dir[s.handles[h].dirIndex], c[s.handles[h].dirIndex]);
  }

  // truncate() and remove() of a file that is not open.
  lemma TruncateCall(s: FsState, name: Name)
    requires Valid(s) && Shape(s)
    requires forall h :: 0 <= h < 16 && s.handles[h].inUse ==> CStr(s.dir[s.handles[h].dirIndex].name) != name
    ensures Shape(TruncateSpec(s, name)) && Valid(TruncateSpec(s, name))
    ensures var r := TruncateSpec(s, name);
            && r.handles == s.handles
            && if name in FilesOf(s) then
                 && FilesOf(r) == FilesOf(s)[name := []]
                 && CountFree(r.fat) == CountFree(s.fat) + |FilesOf(s)[name]| / 1024
               else r == s
  {
    hide Valid, CStr, CountFree, LookupFrom, ChainOf, FreeBlocks, FilesOf;
    FileThere(s, name);
    if Lookup(s.dir, name) < 32 {
      TruncateResult(s, name);
      CutFreesBlocks(s, TruncateSpec(s, name), Lookup(s.dir, name));
    }
  }

  lemma RemoveCall(s: FsState, name: Name)
    requires Valid(s) && Shape(s)
    requires forall h :: 0 <= h < 16 && s.handles[h].inUse ==> CStr(s.dir[s.handles[h].dirIndex].name) != name
    ensures Shape(RemoveSpec(s, name)) && Valid(RemoveSpec(s, name))
    ensures var r := RemoveSpec(s, name);
            && r.handles == s.handles
            && if name in FilesOf(s) then
                 && FilesOf(r) == FilesOf(s) - {name}
                 && CountFree(r.fat) == CountFree(s.fat) + |FilesOf(s)[name]| / 1024 + 1
               else r == s
  {
    hide Valid, CStr, CountFree, LookupFrom, ChainOf, FreeBlocks, FilesOf;
    FileThere(s, name);
    if Lookup(s.dir, name) < 32 {
      RemoveResult(s, name);
      CutFreesBlocks(s, RemoveSpec(s, name), Lookup(s.dir, name));
    }
  }

  // format() with nothing open, and a remount.
  lemma FormatCall(s: FsState)
    requires |s.handles| == 16 && |s.disk| >= 512 && forall h :: 0 <= h < 16 ==> !s.handles[h].inUse
    ensures var r := FormatSpec(s);
            && Shape(r) && Valid(r) && r.formatted && FilesOf(r) == map[] && CountFree(r.fat) == 509
            && r.handles == s.handles
            && r.fat == [1, 1, 1] + seq(509, _ => 0) && forall d :: 0 <= d < 32 ==> r.dir[d].inUse == 0
  {
    hide Valid, CStr, CountFree, FilesOf, SlotBlocks, BootBlock;
    FormatValid(s);
    SpaceConserved(FormatSpec(s));
    NoSlotBlocks(FormatSpec(s).dir, DIR_SIZE);
  }

  lemma RemountCall(s: FsState)
    requires Valid(s) && Shape(s)
    ensures var r := RemountSpec(s);
            && Shape(r) && Valid(r) && r.formatted && FilesOf(r) == FilesOf(s) && r.fat == s.fat && r.dir == s.dir
            && |r.handles| == 16 && forall h :: 0 <= h < 16 ==> !r.handles[h].inUse
  {
    hide Valid, CStr, CountFree, FilesOf, RemountSpec;
    RemountRecovers(s);
    var c := ValidChains(RemountSpec(s));
    RemountHandles(s);
    ValidFormatted(RemountSpec(s), c);
  }

  lemma ValidFormatted(s: FsState, c: Chains)
    requires ValidWith(s, c)
    ensures Shape(s) && s.formatted
  {
  }

  lemma RemountHandles(s: FsState)
    requires Shape(s)
    ensures |RemountSpec(s).handles| == 16 && forall h :: 0 <= h < 16 ==> !RemountSpec(s).handles[h].inUse
  {
  }
}
