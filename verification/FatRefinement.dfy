// Over every run, the file system behaves like a map from names to byte
// sequences with append-only writers and sequential readers.
module FatRefinement {
  import opened FatTypes
  import opened FatInvariant
  import opened FatOps
  import opened FatFiles
  import opened FatWriteProofs
  import opened FatReadProofs
  import opened FatDirProofs
  import opened FatRemount

  // ----- The abstract file system -----

  datatype AbsFs = AbsFs(files: Files, views: seq<Option<View>>, free: int)

  datatype Op =
    | OpenOp(name: Name, mode: Mode)
    | CloseOp(handle: nat)
    | ReadOp(h: int, count: int)
    | WriteOp(h: int, data: seq<byte>, count: int)
    | TruncateOp(name: Name)
    | RemoveOp(name: Name)
    | FormatOp
    | RemountOp

  // What a call returns: a number or an error, and the bytes delivered.
  datatype Out = Out(result: Result<int>, data: seq<byte>)

  const Done := Out(Ok(0), [])

  // Blocks a file of this size occupies.
  function Blocks(size: int): int { size / BLOCK_SIZE + 1 }

  function FirstNone(v: seq<Option<View>>, i: nat): (r: nat)
    requires i <= |v|
    ensures i <= r <= |v|
    ensures r < |v| ==> v[r].None?
    ensures forall k :: i <= k < r ==> v[k].Some?
    decreases |v| - i
  {
    if i == |v| || v[i].None? then i else FirstNone(v, i + 1)
  }

  // The views refer to files, at offsets inside them.
  ghost predicate AbsOk(a: AbsFs) {
    && |a.views| == HANDLETABLE_SIZE
    && (forall h :: 0 <= h < |a.views| && a.views[h].Some? ==>
          a.views[h].value.name in a.files &&
          0 <= a.views[h].value.offset <= |a.files[a.views[h].value.name]|)
  }

  ghost predicate NameOpen(a: AbsFs, name: seq<byte>) {
    exists h :: 0 <= h < |a.views| && a.views[h].Some? && a.views[h].value.name == name
  }

  ghost predicate NameOpenForWriting(a: AbsFs, name: seq<byte>) {
    exists h :: 0 <= h < |a.views| && a.views[h].Some? && a.views[h].value.name == name
                && a.views[h].value.mode == WRITE
  }

  // The uses of the interface that its comments leave defined.
  ghost predicate Allowed(a: AbsFs, op: Op) {
    match op
    case OpenOp(name, mode) => mode == WRITE ==> !NameOpenForWriting(a, name)
    case WriteOp(h, data, count) => count <= |data|
    case TruncateOp(name) => !NameOpen(a, name)
    case RemoveOp(name) => !NameOpen(a, name)
    case FormatOp => forall h :: 0 <= h < |a.views| ==> a.views[h].None?
    case _ => true
  }

  function AbsOpen(a: AbsFs, name: Name, mode: Mode): (AbsFs, Out) {
    var h := FirstNone(a.views, 0);
    if h == |a.views| then (a, Out(Throw(OutOfHandles), []))
    else if name in a.files then
      var offset := if mode == READ then 0 else |a.files[name]|;
      (a.(views := a.views[h := Some(View(name, offset, mode))]), Out(Ok(h), []))
    else if mode == READ then (a, Out(Throw(FileDoesNotExist), []))
    else if |a.files| == DIR_SIZE then (a, Out(Throw(RootDirectoryFull), []))
    else if a.free == 0 then (a, Out(Throw(DiskFull), []))
    else
      (AbsFs(a.files[name := []], a.views[h := Some(View(name, 0, WRITE))], a.free - 1), Out(Ok(h), []))
  }

  function AbsClose(a: AbsFs, h: nat): (AbsFs, Out) {
    if h >= |a.views| then (a, Out(Throw(InvalidHandle), []))
    else if a.views[h].None? then (a, Out(Throw(HandleNotOpen), []))
    else (a.(views := a.views[h := None]), Done)
  }

  ghost function AbsRead(a: AbsFs, h: int, count: int): (AbsFs, Out)
    requires AbsOk(a)
  {
    if h < 0 || h >= |a.views| then (a, Out(Throw(InvalidHandle), []))
    else if a.views[h].None? || a.views[h].value.mode != READ then (a, Out(Throw(WrongMode), []))
    else
      var v := a.views[h].value;
      var bytes := a.files[v.name];
      var n := Min(count, |bytes| - v.offset);
      if n < 0 then (a, Out(Ok(n), []))
      else
        (a.(views := a.views[h := Some(v.(offset := v.offset + n))]),
         Out(Ok(n), bytes[v.offset..v.offset + n]))
  }

  // All free blocks and the rest of the last block, which is never filled.
  function Room(free: int, size: int): int {
    free * BLOCK_SIZE + (BLOCK_SIZE - size % BLOCK_SIZE) - 1
  }

  ghost function AbsWrite(a: AbsFs, h: int, data: seq<byte>, count: int): (AbsFs, Out)
    requires AbsOk(a) && count <= |data|
  {
    if h < 0 || h >= |a.views| then (a, Out(Throw(InvalidHandle), []))
    else if a.views[h].None? || a.views[h].value.mode != WRITE then (a, Out(Throw(WrongMode), []))
    else
      var v := a.views[h].value;
      var bytes := a.files[v.name];
      var n := Min(count, Room(a.free, |bytes|));
      if n < 0 then (a, Out(Ok(n), []))
      else
        (AbsFs(a.files[v.name := bytes + data[..n]],
               a.views[h := Some(v.(offset := v.offset + n))],
               a.free - (Blocks(|bytes| + n) - Blocks(|bytes|))),
         Out(Ok(n), []))
  }

  function AbsTruncate(a: AbsFs, name: Name): (AbsFs, Out) {
    if name in a.files then
      (a.(files := a.files[name := []], free := a.free + Blocks(|a.files[name]|) - 1), Done)
    else (a, Done)
  }

  function AbsRemove(a: AbsFs, name: Name): (AbsFs, Out) {
    if name in a.files then
      (a.(files := a.files - {name}, free := a.free + Blocks(|a.files[name]|)), Done)
    else (a, Done)
  }

  ghost function AbsStep(a: AbsFs, op: Op): (AbsFs, Out)
    requires AbsOk(a) && Allowed(a, op)
  {
    match op
    case OpenOp(name, mode) => AbsOpen(a, name, mode)
    case CloseOp(h) => AbsClose(a, h)
    case ReadOp(h, count) => AbsRead(a, h, count)
    case WriteOp(h, data, count) => AbsWrite(a, h, data, count)
    case TruncateOp(name) => AbsTruncate(a, name)
    case RemoveOp(name) => AbsRemove(a, name)
    case FormatOp => (AbsFs(map[], a.views, FAT_SIZE - 3), Done)
    case RemountOp => (a.(views := seq(|a.views|, _ => None)), Done)
  }

  // ----- The concrete file system -----

  ghost function Step(s: FsState, op: Op): (FsState, Out)
    requires Shape(s) && (op.WriteOp? ==> op.count <= |op.data|)
  {
    match op
    case OpenOp(name, mode) => var (r, out) := OpenSpec(s, name, mode); (r, Out(out, []))
    case CloseOp(h) =>
      var (r, out) := CloseSpec(s, h);
      (r, Out(if out.Ok? then Ok(0) else Throw(out.error), []))
    case ReadOp(h, count) => var (r, data, out) := ReadSpec(s, h, count); (r, Out(out, data))
    case WriteOp(h, data, count) => var (r, out) := WriteSpec(s, h, data, count); (r, Out(out, []))
    case TruncateOp(name) => (TruncateSpec(s, name), Done)
    case RemoveOp(name) => (RemoveSpec(s, name), Done)
    case FormatOp => (FormatSpec(s), Done)
    case RemountOp => (RemountSpec(s), Done)
  }

  ghost function Abs(s: FsState): AbsFs
    requires Shape(s)
  {
    AbsFs(FilesOf(s), Views(s), CountFree(s.fat))
  }

  // ----- Free blocks -----

  // Blocks the used slots among the first k account for by their sizes.
  ghost function SlotBlocks(dir: seq<DirEntry>, k: nat): int
    requires k <= |dir|
  {
    if k == 0 then 0 else SlotBlocks(dir, k - 1) + (if Used(dir[k - 1]) then Blocks(dir[k - 1].size) else 0)
  }

  lemma {:induction false} SlotBlocksAreChainBlocks(fat: seq<nat>, dir: seq<DirEntry>, c: Chains, k: nat)
    requires StructureOk(fat, dir, c) && k <= DIR_SIZE
    ensures SlotBlocks(dir, k) == ChainBlocks(c, k)
  {
    hide NamesUnique, Disjoint, NoneLost, IsChain;
    if k > 0 {
      SlotBlocksAreChainBlocks(fat, dir, c, k - 1);
      assert EntryOk(fat, dir[k - 1], c[k - 1]);
    }
  }

  // In every valid state free space and the blocks of the files add up to the
  // 509 data blocks.
  lemma SpaceConserved(s: FsState)
    requires Valid(s)
    ensures CountFree(s.fat) + SlotBlocks(s.dir, DIR_SIZE) == FAT_SIZE - 3
  {
    hide StructureOk, HandlesOk, CountFree, SlotBlocks, ChainBlocks;
    var c := ValidChains(s);
    BlocksConserved(s.fat, s.dir, c);
    SlotBlocksAreChainBlocks(s.fat, s.dir, c, DIR_SIZE);
  }

  lemma {:induction false} SlotBlocksUpdate(dir: seq<DirEntry>, dir': seq<DirEntry>, d: nat, k: nat)
    requires |dir| == |dir'| && d < |dir| && k <= |dir|
    requires forall i :: 0 <= i < |dir| && i != d ==> Used(dir[i]) == Used(dir'[i]) && dir[i].size == dir'[i].size
    ensures SlotBlocks(dir', k) == SlotBlocks(dir, k) +
              (if d < k then
                 (if Used(dir'[d]) then Blocks(dir'[d].size) else 0) - (if Used(dir[d]) then Blocks(dir[d].size) else 0)
               else 0)
  {
    if k > 0 { SlotBlocksUpdate(dir, dir', d, k - 1); }
  }

  // ----- Number of files -----

  function UsedSlots(dir: seq<DirEntry>, k: nat): nat
    requires k <= |dir|
  {
    if k == 0 then 0 else UsedSlots(dir, k - 1) + (if Used(dir[k - 1]) then 1 else 0)
  }

  lemma {:induction false} UsedSlotsBound(dir: seq<DirEntry>, k: nat)
    requires k <= |dir|
    ensures UsedSlots(dir, k) <= k
    ensures UsedSlots(dir, k) == k <==> forall i :: 0 <= i < k ==> Used(dir[i])
  {
    if k > 0 { UsedSlotsBound(dir, k - 1); }
  }

  lemma {:induction false} NamesCount(dir: seq<DirEntry>, k: nat)
    requires NamesUnique(dir) && k <= |dir|
    ensures |Names(dir[..k])| == UsedSlots(dir, k)
  {
    hide CStr;
    if k == 0 {
      assert Names(dir[..0]) == {};
    } else {
      NamesCount(dir, k - 1);
      NamesGrow(dir, k);
      if Used(dir[k - 1]) { NameIsNew(dir, k); }
    }
  }

  lemma NameIsNew(dir: seq<DirEntry>, k: nat)
    requires NamesUnique(dir) && 0 < k <= |dir| && Used(dir[k - 1])
    ensures CStr(dir[k - 1].name) !in Names(dir[..k - 1])
  {
    hide CStr;
  }

  lemma NamesGrow(dir: seq<DirEntry>, k: nat)
    requires 0 < k <= |dir|
    ensures Names(dir[..k]) == Names(dir[..k - 1]) + (if Used(dir[k - 1]) then {CStr(dir[k - 1].name)} else {})
  {
    hide CStr;
    var before, after := dir[..k - 1], dir[..k];
    forall n | n in Names(after) ensures n in Names(before) || (Used(dir[k - 1]) && n == CStr(dir[k - 1].name)) {
      var i :| 0 <= i < |after| && Used(after[i]) && CStr(after[i].name) == n;
      if i < k - 1 { assert before[i] == after[i]; }
    }
    forall n | n in Names(before) ensures n in Names(after) {
      var i :| 0 <= i < |before| && Used(before[i]) && CStr(before[i].name) == n;
      assert after[i] == before[i];
    }
    if Used(dir[k - 1]) { assert after[k - 1] == dir[k - 1]; }
  }

  // The root directory has no free slot exactly when the map has 32 names.
  lemma DirectoryFull(s: FsState)
    requires Valid(s)
    ensures |FilesOf(s)| == DIR_SIZE <==> FreeSlot(s.dir) == DIR_SIZE
  {
    hide StructureOk, HandlesOk, CStr, BootOk;
    var c := ValidChains(s);
    UniqueNames(s, c);
    NamesCount(s.dir, DIR_SIZE);
    UsedSlotsBound(s.dir, DIR_SIZE);
    assert s.dir[..DIR_SIZE] == s.dir;
    FilesKeys(s);
  }

  lemma FilesKeys(s: FsState)
    requires Shape(s)
    ensures FilesOf(s).Keys == Names(s.dir)
  {
    hide CStr, ChainsOf;
    forall n: seq<byte> ensures n in Names(s.dir) <==> n in FilesOf(s) { NamesLookup(s.dir, n); }
  }

  predicate InSlot(dir: seq<DirEntry>, d: int, p: (seq<byte>, int)) {
    0 <= d < |dir| && Used(dir[d]) && (CStr(dir[d].name), dir[d].size) == p
  }

  lemma {:induction false} ListingMember(dir: seq<DirEntry>, i: nat, p: (seq<byte>, int))
    requires i <= |dir|
    ensures p in Listing(dir, i) <==> exists d :: i <= d && InSlot(dir, d, p)
    decreases |dir| - i
  {
    hide CStr;
    if i < |dir| {
      ListingMember(dir, i + 1, p);
      assert p in Listing(dir, i) <==> InSlot(dir, i, p) || p in Listing(dir, i + 1);
    }
  }

  lemma {:induction false} ListingLength(dir: seq<DirEntry>, i: nat)
    requires i <= |dir|
    ensures |Listing(dir, i)| == UsedSlots(dir, |dir|) - UsedSlots(dir, i)
    decreases |dir| - i
  {
    hide CStr;
    if i < |dir| { ListingLength(dir, i + 1); }
  }

  // A directory scan lists every file once, with its size.
  lemma ListingIsFiles(s: FsState, p: (seq<byte>, int))
    requires Valid(s) && Shape(s)
    ensures p in Listing(s.dir, 0) <==> p.0 in FilesOf(s) && |FilesOf(s)[p.0]| == p.1
    ensures |Listing(s.dir, 0)| == |FilesOf(s)|
  {
    hide StructureOk, HandlesOk, CStr, BootOk, FilesOf, LookupFrom;
    var c := ValidChains(s);
    UniqueNames(s, c);
    ListingMember(s.dir, 0, p);
    ListingLength(s.dir, 0);
    NamesCount(s.dir, DIR_SIZE);
    assert s.dir[..DIR_SIZE] == s.dir;
    FilesKeys(s);
    forall d | 0 <= d < DIR_SIZE && Used(s.dir[d])
      ensures CStr(s.dir[d].name) in FilesOf(s) && |FilesOf(s)[CStr(s.dir[d].name)]| == s.dir[d].size
    {
      SlotFile(s, d);
    }
    if p.0 in FilesOf(s) {
      var d :| 0 <= d < DIR_SIZE && Used(s.dir[d]) && CStr(s.dir[d].name) == p.0;
      assert InSlot(s.dir, d, (p.0, s.dir[d].size));
    }
  }

  lemma SlotFile(s: FsState, d: nat)
    requires Valid(s) && Shape(s) && d < DIR_SIZE && Used(s.dir[d])
    ensures CStr(s.dir[d].name) in FilesOf(s) && |FilesOf(s)[CStr(s.dir[d].name)]| == s.dir[d].size
  {
    hide StructureOk, HandlesOk, CStr, BootOk, LookupFrom;
    var c := ValidChains(s);
    UniqueNames(s, c);
    LookupOwn(s.dir, d);
    SizesNonNegative(s, c);
  }

  // ----- Refinement, call by call -----

  // One call does to the abstract state what the abstract machine says, and
  // returns the same.
  ghost predicate Refines(s: FsState, op: Op)
    requires Shape(s) && AbsOk(Abs(s)) && Allowed(Abs(s), op)
  {
    && Valid(Step(s, op).0) && Shape(Step(s, op).0)
    && Abs(Step(s, op).0) == AbsStep(Abs(s), op).0
    && Step(s, op).1 == AbsStep(Abs(s), op).1
  }

  lemma ValidAbsOk(s: FsState)
    requires Valid(s)
    ensures Shape(s) && AbsOk(Abs(s))
  {
    hide StructureOk, HandlesOk, FilesOf, CStr, CountFree, BootOk;
    var c := ValidChains(s);
    forall h | 0 <= h < HANDLETABLE_SIZE && s.handles[h].inUse
      ensures HandleName(s, h) in FilesOf(s)
      ensures 0 <= s.handles[h].offset <= |FilesOf(s)[HandleName(s, h)]|
    {
      HandleFile(s, h);
      ReaderOffset(s, h);
    }
  }

  lemma ViewAt(s: FsState, h: int)
    requires Shape(s) && 0 <= h < HANDLETABLE_SIZE
    ensures Views(s)[h] == ViewOf(s, h)
    ensures Views(s)[h].Some? <==> s.handles[h].inUse
  {
  }

  lemma FreeHandleIsNone(s: FsState)
    requires Shape(s)
    ensures FreeHandle(s.handles) == FirstNone(Views(s), 0)
  {
    hide CStr;
    var i, j := FreeHandle(s.handles), FirstNone(Views(s), 0);
    if i < j { ViewAt(s, i); }
    if j < i { ViewAt(s, j); }
  }

  lemma FileThere(s: FsState, name: Name)
    requires Valid(s)
    ensures Shape(s)
    ensures name in FilesOf(s) <==> Lookup(s.dir, name) < DIR_SIZE
    ensures name in FilesOf(s) ==>
              var d := Lookup(s.dir, name);
              Used(s.dir[d]) && CStr(s.dir[d].name) == name && |FilesOf(s)[name]| == s.dir[d].size
  {
    hide HandlesOk, CStr, BootOk, NamesUnique, Disjoint, NoneLost, IsChain, LookupFrom, ChainOf;
    var c := ValidChains(s);
    if Lookup(s.dir, name) < DIR_SIZE { assert EntryOk(s.fat, s.dir[Lookup(s.dir, name)], c[Lookup(s.dir, name)]); }
  }

  lemma OpenExistingRefines(s: FsState, name: Name, mode: Mode)
    requires Valid(s) && Shape(s) && AbsOk(Abs(s)) && Allowed(Abs(s), OpenOp(name, mode))
    requires FreeHandle(s.handles) < HANDLETABLE_SIZE && Lookup(s.dir, name) < DIR_SIZE
    ensures Refines(s, OpenOp(name, mode))
  {
    hide StructureOk, HandlesOk, FilesOf, CStr, CountFree, BootOk, FreeHandleFrom, LookupFrom, ChainOf;
    var c := ValidChains(s);
    var h, d := FreeHandle(s.handles), Lookup(s.dir, name);
    FreeHandleIsNone(s);
    FileThere(s, name);
    forall g | 0 <= g < HANDLETABLE_SIZE && IsWriter(s.handles[g])
      ensures mode == WRITE ==> s.handles[g].dirIndex != d
    {
      ViewAt(s, g);
    }
    OpenExistingValid(s, c, h, d, mode);
    var r := OpenExisting(s, h, d, mode);
    ValidIs(r, c);
    HandlesOnly(s, r);
    assert Views(r) == Views(s)[h := Some(View(name, r.handles[h].offset, mode))];
  }

  lemma CreateRefines(s: FsState, name: Name)
    requires Valid(s) && Shape(s) && AbsOk(Abs(s))
    requires FreeHandle(s.handles) < HANDLETABLE_SIZE && Lookup(s.dir, name) == DIR_SIZE
    requires FreeSlot(s.dir) < DIR_SIZE && FirstFree(s.fat) < FAT_SIZE
    ensures var h, d, b := FreeHandle(s.handles), FreeSlot(s.dir), FirstFree(s.fat);
            var r := OpenCreate(s, h, d, b, name);
            && Valid(r) && Shape(r)
            && Abs(r) == AbsFs(FilesOf(s)[name := []], Views(s)[h := Some(View(name, 0, WRITE))], CountFree(s.fat) - 1)
  {
    hide StructureOk, HandlesOk, CStr, CountFree, BootOk, FreeHandleFrom, LookupFrom, FreeSlotFrom, ChainOf, StrCpy,
         MapOf;
    var c := ValidChains(s);
    var h, d, b := FreeHandle(s.handles), FreeSlot(s.dir), FirstFree(s.fat);
    CreateValid(s, c, h, d, b, name);
    CreateFiles(s, c, h, d, b, name);
    var r := OpenCreate(s, h, d, b, name);
    ValidIs(r, c[d := [b]]);
    CountFreeUpdate(s.fat, b, EOF_FAT_ENTRY);
    UnusedSlotEmpty(s, c, d);
    StrCpyRoundTrip(s.dir[d].name, name);
    assert Views(r) == Views(s)[h := Some(View(name, 0, WRITE))];
  }

  lemma OpenRefines(s: FsState, name: Name, mode: Mode)
    requires Valid(s) && Shape(s) && AbsOk(Abs(s)) && Allowed(Abs(s), OpenOp(name, mode))
    ensures Refines(s, OpenOp(name, mode))
  {
    hide Valid, FilesOf, CountFree, FreeHandleFrom, LookupFrom, FreeSlotFrom, OpenExisting, OpenCreate, Views, Allowed;
    if FreeHandle(s.handles) < HANDLETABLE_SIZE && Lookup(s.dir, name) < DIR_SIZE {
      OpenExistingRefines(s, name, mode);
    } else {
      FreeHandleIsNone(s);
      FileThere(s, name);
      DirectoryFull(s);
      FreeBlockExists(s.fat);
      if FreeHandle(s.handles) < HANDLETABLE_SIZE && mode == WRITE && FreeSlot(s.dir) < DIR_SIZE
         && FirstFree(s.fat) < FAT_SIZE {
        CreateRefines(s, name);
      }
    }
  }

  lemma CloseRefines(s: FsState, h: nat)
    requires Valid(s) && Shape(s) && AbsOk(Abs(s))
    ensures Refines(s, CloseOp(h))
  {
    hide StructureOk, HandlesOk, FilesOf, CStr, CountFree, BootOk;
    var c := ValidChains(s);
    CloseValid(s, c, h);
    var r := CloseSpec(s, h).0;
    ValidIs(r, c);
    HandlesOnly(s, r);
    if h < HANDLETABLE_SIZE && s.handles[h].inUse { assert Views(r) == Views(s)[h := None]; }
  }

  lemma ReadRefines(s: FsState, h: int, count: int)
    requires Valid(s) && Shape(s) && AbsOk(Abs(s))
    ensures Refines(s, ReadOp(h, count))
  {
    hide Valid, FilesOf, CountFree, CStr, Cursor, BytesRead;
    ReadCorrect(s, h, count);
    if 0 <= h < HANDLETABLE_SIZE { ViewAt(s, h); }
    ReadKeepsTable(s, h, count);
  }

  lemma ReadKeepsTable(s: FsState, h: int, count: int)
    requires Shape(s)
    ensures ReadSpec(s, h, count).0.fat == s.fat && Shape(ReadSpec(s, h, count).0)
  {
  }

  // A write takes from the free blocks exactly those the grown file needs.
  lemma WriteTakesBlocks(s: FsState, h: int, data: seq<byte>)
    requires Writer(s, h) && |data| <= Capacity(s, h)
    ensures Shape(PutBytes(s, h, data))
    ensures var size := s.dir[s.handles[h].dirIndex].size;
            CountFree(PutBytes(s, h, data).fat) == CountFree(s.fat) - (Blocks(size + |data|) - Blocks(size))
  {
    hide Valid, PutBytes, CountFree, SlotBlocks, Capacity, FilesOf, Blocks, HandleName;
    PutBytesAppends(s, h, data);
    PutBytesFrame(s, h, data);
    var r, d := PutBytes(s, h, data), s.handles[h].dirIndex;
    SpaceConserved(s);
    SpaceConserved(r);
    SlotBlocksUpdate(s.dir, r.dir, d, DIR_SIZE);
    HandleUsed(s, h);
  }

  lemma HandleUsed(s: FsState, h: int)
    requires Valid(s) && Opened(s, h)
    ensures Used(s.dir[s.handles[h].dirIndex])
  {
    hide StructureOk;
    var c := ValidChains(s);
    assert CursorOk(s.handles[h], s.dir, c);
  }

  lemma WriteRefines(s: FsState, h: int, data: seq<byte>, count: int)
    requires Valid(s) && Shape(s) && AbsOk(Abs(s)) && count <= |data|
    ensures Refines(s, WriteOp(h, data, count))
  {
    if 0 <= h < HANDLETABLE_SIZE && IsWriter(s.handles[h]) {
      WriteThroughRefines(s, h, data, count);
    } else {
      hide Valid, FilesOf, CountFree, CStr, PutBytes;
      if 0 <= h < HANDLETABLE_SIZE { ViewAt(s, h); }
    }
  }

  lemma WriteThroughRefines(s: FsState, h: int, data: seq<byte>, count: int)
    requires Writer(s, h) && AbsOk(Abs(s)) && count <= |data|
    ensures Refines(s, WriteOp(h, data, count))
  {
    hide Valid, FilesOf, CountFree, CStr, PutBytes, WriteSpec, Views, WriteEffect, Blocks;
    WriteIsPutBytes(s, h, data, count);
    ViewAt(s, h);
    HandleFile(s, h);
    var n := Min(count, Capacity(s, h));
    if n >= 0 {
      PutBytesAppends(s, h, data[..n]);
      PutBytesViews(s, h, data[..n]);
      WriteTakesBlocks(s, h, data[..n]);
    }
  }

  // No handle is open on the name: the guard of truncate and remove.
  lemma NotOpenIs(s: FsState, name: Name)
    requires Shape(s) && !NameOpen(Abs(s), name)
    ensures NotOpen(s, name)
  {
    hide FilesOf, CountFree, CStr;
    forall h | 0 <= h < HANDLETABLE_SIZE && s.handles[h].inUse
      ensures CStr(s.dir[s.handles[h].dirIndex].name) != name
    {
      ViewAt(s, h);
    }
  }

  lemma SameViews(s: FsState, r: FsState)
    requires Shape(s) && Shape(r) && r.handles == s.handles
    requires forall i :: 0 <= i < DIR_SIZE ==> r.dir[i].name == s.dir[i].name
    ensures Views(r) == Views(s)
  {
    hide CStr;
    forall h | 0 <= h < HANDLETABLE_SIZE ensures ViewOf(r, h) == ViewOf(s, h) { }
  }

  // Cutting a chain gives back the blocks that the sizes account for.
  lemma CutFreesBlocks(s: FsState, r: FsState, d: nat)
    requires Valid(s) && Valid(r) && Shape(s) && Shape(r) && d < DIR_SIZE && Used(s.dir[d])
    requires forall i :: 0 <= i < DIR_SIZE && i != d ==> r.dir[i] == s.dir[i]
    ensures CountFree(r.fat) == CountFree(s.fat) + Blocks(s.dir[d].size)
                                - (if Used(r.dir[d]) then Blocks(r.dir[d].size) else 0)
  {
    hide Valid, CountFree, SlotBlocks, Blocks;
    SpaceConserved(s);
    SpaceConserved(r);
    SlotBlocksUpdate(s.dir, r.dir, d, DIR_SIZE);
  }

  lemma TruncateResult(s: FsState, name: Name)
    requires Valid(s) && Shape(s) && NotOpen(s, name) && Lookup(s.dir, name) < DIR_SIZE
    ensures Valid(TruncateSpec(s, name)) && Shape(TruncateSpec(s, name))
    ensures name in FilesOf(s) && FilesOf(TruncateSpec(s, name)) == FilesOf(s)[name := []]
  {
    hide ValidWith, CStr, LookupFrom, FreeBlocks, MapOf, NotOpen, TruncateSpec, Contents;
    var c := ValidChains(s);
    TruncateValid(s, c, name);
    CutFiles(s, c, name);
    var c' := ValidChains(TruncateSpec(s, name));
    ValidIs(TruncateSpec(s, name), c[Lookup(s.dir, name) := [s.dir[Lookup(s.dir, name)].start]]);
  }

  lemma RemoveResult(s: FsState, name: Name)
    requires Valid(s) && Shape(s) && NotOpen(s, name) && Lookup(s.dir, name) < DIR_SIZE
    ensures Valid(RemoveSpec(s, name)) && Shape(RemoveSpec(s, name))
    ensures name in FilesOf(s) && FilesOf(RemoveSpec(s, name)) == FilesOf(s) - {name}
  {
    hide ValidWith, CStr, LookupFrom, FreeBlocks, MapOf, NotOpen, RemoveSpec, Contents;
    var c := ValidChains(s);
    RemoveValid(s, c, name);
    CutFiles(s, c, name);
    var c' := ValidChains(RemoveSpec(s, name));
    ValidIs(RemoveSpec(s, name), c[Lookup(s.dir, name) := []]);
  }

  lemma TruncateRefines(s: FsState, name: Name)
    requires Valid(s) && Shape(s) && AbsOk(Abs(s)) && !NameOpen(Abs(s), name)
    ensures Refines(s, TruncateOp(name))
  {
    hide Valid, CStr, CountFree, LookupFrom, ChainOf, FreeBlocks, FilesOf, NameOpen, NotOpen;
    FileThere(s, name);
    if Lookup(s.dir, name) < DIR_SIZE {
      NotOpenIs(s, name);
      TruncateResult(s, name);
      SameViews(s, TruncateSpec(s, name));
      CutFreesBlocks(s, TruncateSpec(s, name), Lookup(s.dir, name));
    }
  }

  lemma RemoveRefines(s: FsState, name: Name)
    requires Valid(s) && Shape(s) && AbsOk(Abs(s)) && !NameOpen(Abs(s), name)
    ensures Refines(s, RemoveOp(name))
  {
    hide Valid, CStr, CountFree, LookupFrom, ChainOf, FreeBlocks, FilesOf, NameOpen, NotOpen;
    FileThere(s, name);
    if Lookup(s.dir, name) < DIR_SIZE {
      NotOpenIs(s, name);
      RemoveResult(s, name);
      SameViews(s, RemoveSpec(s, name));
      CutFreesBlocks(s, RemoveSpec(s, name), Lookup(s.dir, name));
    }
  }

  lemma FormatRefines(s: FsState)
    requires Valid(s) && Shape(s) && AbsOk(Abs(s)) && Allowed(Abs(s), FormatOp)
    ensures Refines(s, FormatOp)
  {
    hide Valid, CStr, CountFree, FilesOf, SlotBlocks, BootBlock;
    forall h | 0 <= h < HANDLETABLE_SIZE ensures !s.handles[h].inUse { ViewAt(s, h); }
    FormatValid(s);
    var r := FormatSpec(s);
    assert Views(r) == Views(s);
    SpaceConserved(r);
    NoSlotBlocks(r.dir, DIR_SIZE);
  }

  lemma {:induction false} NoSlotBlocks(dir: seq<DirEntry>, k: nat)
    requires k <= |dir| && forall i :: 0 <= i < |dir| ==> !Used(dir[i])
    ensures SlotBlocks(dir, k) == 0
  {
    if k > 0 { NoSlotBlocks(dir, k - 1); }
  }

  lemma RemountRefines(s: FsState)
    requires Valid(s) && Shape(s) && AbsOk(Abs(s))
    ensures Refines(s, RemountOp)
  {
    hide Valid, CStr, CountFree, FilesOf, RemountSpec;
    RemountRecovers(s);
    var r := RemountSpec(s);
    var c := ValidChains(r);
    assert Views(r) == seq(HANDLETABLE_SIZE, _ => None);
  }

  // Every call the interface allows refines the abstract machine.
  lemma StepRefines(s: FsState, op: Op)
    requires Valid(s) && Shape(s) && AbsOk(Abs(s)) && Allowed(Abs(s), op)
    ensures Refines(s, op)
  {
    hide Valid, Refines, Abs, AbsOk, Shape, NameOpen, NameOpenForWriting;
    match op {
      case OpenOp(name, mode) => OpenRefines(s, name, mode);
      case CloseOp(h) => CloseRefines(s, h);
      case ReadOp(h, count) => ReadRefines(s, h, count);
      case WriteOp(h, data, count) => WriteRefines(s, h, data, count);
      case TruncateOp(name) => TruncateRefines(s, name);
      case RemoveOp(name) => RemoveRefines(s, name);
      case FormatOp => FormatRefines(s);
      case RemountOp => RemountRefines(s);
    }
  }

  // ----- Whole runs -----

  // The views stay inside the files.
  lemma AbsStepOk(a: AbsFs, op: Op)
    requires AbsOk(a) && Allowed(a, op)
    ensures AbsOk(AbsStep(a, op).0)
  {
    hide Blocks, Room, Min;
    match op {
      case OpenOp(name, mode) =>
      case CloseOp(h) =>
      case ReadOp(h, count) => AbsReadOk(a, h, count);
      case WriteOp(h, data, count) => AbsWriteOk(a, h, data, count);
      case TruncateOp(name) =>
      case RemoveOp(name) =>
      case FormatOp =>
      case RemountOp =>
    }
  }

  lemma AbsReadOk(a: AbsFs, h: int, count: int)
    requires AbsOk(a)
    ensures AbsOk(AbsRead(a, h, count).0)
  {
  }

  lemma AbsWriteOk(a: AbsFs, h: int, data: seq<byte>, count: int)
    requires AbsOk(a) && count <= |data|
    ensures AbsOk(AbsWrite(a, h, data, count).0)
  {
    hide Blocks, Room;
  }

  // Every call of the run is one that the interface leaves defined.
  ghost predicate AllowedRun(a: AbsFs, ops: seq<Op>)
    requires AbsOk(a)
    decreases |ops|
  {
    ops != [] ==> Allowed(a, ops[0]) && (AbsStepOk(a, ops[0]); AllowedRun(AbsStep(a, ops[0]).0, ops[1..]))
  }

  ghost function AbsRun(a: AbsFs, ops: seq<Op>): (AbsFs, seq<Out>)
    requires AbsOk(a) && AllowedRun(a, ops)
    decreases |ops|
  {
    if ops == [] then (a, [])
    else
      AbsStepOk(a, ops[0]);
      var (a1, out) := AbsStep(a, ops[0]);
      var (a2, outs) := AbsRun(a1, ops[1..]);
      (a2, [out] + outs)
  }

  ghost predicate AllowedFrom(s: FsState, ops: seq<Op>)
    requires Valid(s) && Shape(s)
  {
    ValidAbsOk(s);
    AllowedRun(Abs(s), ops)
  }

  ghost predicate Runnable(s: FsState, ops: seq<Op>)
    decreases |ops|
  {
    ops != [] ==>
      Shape(s) && (ops[0].WriteOp? ==> ops[0].count <= |ops[0].data|) && Runnable(Step(s, ops[0]).0, ops[1..])
  }

  ghost function Run(s: FsState, ops: seq<Op>): (FsState, seq<Out>)
    requires Runnable(s, ops)
    decreases |ops|
  {
    if ops == [] then (s, [])
    else
      var (s1, out) := Step(s, ops[0]);
      var (s2, outs) := Run(s1, ops[1..]);
      (s2, [out] + outs)
  }

  // Every run of calls that the interface allows keeps the invariant, returns
  // what the abstract file system returns and ends in the same files, handles
  // and free space.
  lemma {:induction false} RunRefines(s: FsState, ops: seq<Op>)
    requires Valid(s) && Shape(s) && AllowedFrom(s, ops)
    ensures Runnable(s, ops) && AbsOk(Abs(s))
    ensures Valid(Run(s, ops).0) && Shape(Run(s, ops).0)
    ensures Abs(Run(s, ops).0) == AbsRun(Abs(s), ops).0
    ensures Run(s, ops).1 == AbsRun(Abs(s), ops).1
    decreases |ops|
  {
    hide Valid, Abs, AbsOk, Shape, Step, AbsStep;
    ValidAbsOk(s);
    if ops != [] {
      StepRefines(s, ops[0]);
      AbsStepOk(Abs(s), ops[0]);
      RunRefines(Step(s, ops[0]).0, ops[1..]);
    }
  }

  // From a freshly formatted disk, every allowed run conserves space and ends in
  // a valid state.
  lemma FormattedRuns(s: FsState, ops: seq<Op>)
    requires |s.handles| == HANDLETABLE_SIZE && |s.disk| >= FAT_SIZE && NothingOpen(s)
    requires (FormatValid(s); Shape(FormatSpec(s)) && AllowedFrom(FormatSpec(s), ops))
    ensures Runnable(FormatSpec(s), ops) && Valid(Run(FormatSpec(s), ops).0)
    ensures var r := Run(FormatSpec(s), ops).0;
            Shape(r) && CountFree(r.fat) + SlotBlocks(r.dir, DIR_SIZE) == FAT_SIZE - 3
  {
    hide Valid, Abs, FormatSpec, CountFree, SlotBlocks;
    FormatValid(s);
    RunRefines(FormatSpec(s), ops);
    SpaceConserved(Run(FormatSpec(s), ops).0);
  }
}
