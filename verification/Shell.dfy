// Commands of FAT/shell.cpp as clients of the file system.
module Shell {
  import opened FatTypes
  import opened FatInvariant
  import opened FatOps
  import opened FatFiles
  import opened FatRefinement
  import opened FatReached
  import opened FileSystems
  import opened FatPrograms

  const CHUNK := 1000

  // vdir: the listing of the root directory.
  method VDir(fs: FileSystem) returns (out: seq<(seq<byte>, int)>)
    requires fs.root.Length == DIR_SIZE
    modifies fs`scanIndex
    ensures out == Listing(fs.root[..], 0)
  {
    fs.OpenDir();
    out := [];
    while true
      invariant 0 <= fs.scanIndex <= DIR_SIZE
      invariant out + Listing(fs.root[..], fs.scanIndex) == Listing(fs.root[..], 0)
      decreases DIR_SIZE - fs.scanIndex
    {
      var info := fs.NextDir();
      if info.None? { break; }
      out := out + [info.value];
    }
  }

  // What the copy loop of vcopy is about: the contents of the source, the
  // views before the loop, the two handles, and the room behind an empty
  // destination when the loop starts.
  datatype Copy = Copy(source: Name, dest: Name, h: nat, g: nat, start: AbsFs)

  ghost predicate CopyReady(k: Copy) {
    && AbsOk(k.start)
    && k.h < HANDLETABLE_SIZE && k.g < HANDLETABLE_SIZE && k.h != k.g
    && k.source != k.dest && k.source in k.start.files
    && k.dest in k.start.files && k.start.files[k.dest] == []
    && k.start.views[k.h] == Some(View(k.source, 0, READ))
    && k.start.views[k.g] == Some(View(k.dest, 0, WRITE))
    && k.start.free >= 0
  }

  function Limit(k: Copy): int { Room(k.start.free, 0) }

  // After `offset` bytes have been read, as many as fit have been written.
  ghost predicate Copied(k: Copy, offset: nat, a: AbsFs)
    requires CopyReady(k)
  {
    var bytes := k.start.files[k.source];
    var w := Min(offset, Limit(k));
    && offset <= |bytes|
    && a.files == k.start.files[k.dest := bytes[..w]]
    && a.views == k.start.views[k.h := Some(View(k.source, offset, READ))][k.g := Some(View(k.dest, w, WRITE))]
    && Room(a.free, w) == Limit(k) - w
  }

  lemma CopyStarts(k: Copy)
    requires CopyReady(k)
    ensures Copied(k, 0, k.start)
  {
    assert k.start.files[k.dest := k.start.files[k.source][..0]] == k.start.files;
    assert k.start.views[k.h := k.start.views[k.h]][k.g := k.start.views[k.g]] == k.start.views;
  }

  // Bytes read but not yet written.
  ghost predicate Pending(k: Copy, offset: nat, n: nat, data: seq<byte>, a: AbsFs)
    requires CopyReady(k)
  {
    var bytes := k.start.files[k.source];
    var w := Min(offset, Limit(k));
    && offset + n <= |bytes| && data == bytes[offset..offset + n]
    && a.files == k.start.files[k.dest := bytes[..w]]
    && a.views == k.start.views[k.h := Some(View(k.source, offset + n, READ))][k.g := Some(View(k.dest, w, WRITE))]
    && Room(a.free, w) == Limit(k) - w
  }

  // One read of at most 1000 bytes.
  lemma CopyReads(k: Copy, offset: nat, a: AbsFs)
    requires CopyReady(k) && AbsOk(a) && Copied(k, offset, a)
    ensures var n := Min(CHUNK, |k.start.files[k.source]| - offset);
            var (a1, out) := AbsRead(a, k.h, CHUNK);
            && n >= 0 && out.result == Ok(n) && Pending(k, offset, n, out.data, a1)
  {
    hide Room, Blocks;
    assert a.views[k.h] == Some(View(k.source, offset, READ)) && a.files[k.source] == k.start.files[k.source];
  }

  // ... and one write of what was read.
  lemma CopyWrites(k: Copy, offset: nat, n: nat, data: seq<byte>, a: AbsFs)
    requires CopyReady(k) && AbsOk(a) && n <= |data| && Pending(k, offset, n, data[..n], a)
    ensures var (a2, out) := AbsWrite(a, k.g, data, n);
            && Copied(k, offset + n, a2)
            && out.result.Ok? && (out.result.value == n <==> n == 0 || offset + n <= Limit(k))
  {
    hide Blocks;
    var bytes := k.start.files[k.source];
    var w := Min(offset, Limit(k));
    var m := Min(n, Limit(k) - w);
    assert a.views[k.g] == Some(View(k.dest, w, WRITE)) && a.files[k.dest] == bytes[..w];
    assert data[..m] == data[..n][..m];
    assert bytes[..w] + data[..m] == bytes[..w + m];
    RoomShrinks(a.free, w, m);
  }

  // Taking blocks for m more bytes takes m bytes from the room.
  lemma RoomShrinks(free: int, size: nat, m: nat)
    ensures Room(free - (Blocks(size + m) - Blocks(size)), size + m) == Room(free, size) - m
  {
  }

  lemma ReadStep(s: FsState, k: Copy, offset: nat)
    requires Valid(s) && Shape(s) && CopyReady(k) && Copied(k, offset, Abs(s))
    ensures var (r, data, out) := ReadSpec(s, k.h, CHUNK);
            && Valid(r) && Shape(r) && out.Ok? && 0 <= out.value == |data| <= CHUNK
            && Pending(k, offset, out.value, data, Abs(r))
            && (out.value == 0 ==> offset == |k.start.files[k.source]| && Copied(k, offset, Abs(r)))
  {
    hide Valid, Abs, AbsOk, Shape, ReadSpec, AbsRead, Room;
    ValidAbsOk(s);
    CopyReads(k, offset, Abs(s));
    StepRefines(s, ReadOp(k.h, CHUNK));
  }

  lemma WriteStep(s: FsState, k: Copy, offset: nat, n: nat, data: seq<byte>)
    requires Valid(s) && Shape(s) && CopyReady(k) && n <= |data| && Pending(k, offset, n, data[..n], Abs(s))
    ensures var (r, out) := WriteSpec(s, k.g, data, n);
            && Valid(r) && Shape(r) && out.Ok?
            && Copied(k, offset + n, Abs(r))
            && (out.value == n <==> n == 0 || offset + n <= Limit(k))
  {
    hide Valid, Abs, AbsOk, Shape, WriteSpec, AbsWrite, Pending, Copied, Room, CopyReady;
    ValidAbsOk(s);
    CopyWrites(k, offset, n, data, Abs(s));
    StepRefines(s, WriteOp(k.g, data, n));
  }

  // The loop of vcopy.
  method CopyLoop(fs: FileSystem, h: nat, g: nat, ghost k: Copy) returns (problem: bool)
    requires fs.Ready() && Shape(fs.State()) && k.start == AbsOf(fs) && CopyReady(k) && k.h == h && k.g == g
    modifies fs.fat, fs.root, fs.handles, fs.disk.blocks
    ensures fs.Ready() && Shape(fs.State())
    ensures Copied(k, |k.start.files[k.source]|, AbsOf(fs))
    ensures problem <==> |k.start.files[k.source]| > Limit(k)
  {
    hide Valid, Abs, AbsOk, Shape, Copied, Pending, ReadSpec, WriteSpec, Limit;
    var buffer := new byte[CHUNK];
    ghost var offset := 0;
    problem := false;
    CopyStarts(k);
    RoomNonNegative(k);
    while true
      invariant fs.Ready() && Shape(fs.State()) && fresh(buffer)
      invariant Copied(k, offset, AbsOf(fs))
      invariant 0 <= offset <= |k.start.files[k.source]|
      invariant problem <==> offset > Limit(k)
      decreases |k.start.files[k.source]| - offset
    {
      ReadStep(fs.State(), k, offset);
      var count := fs.Read(h, buffer, CHUNK);
      if count.value == 0 { break; }
      PendingBounds(k, offset, count.value, buffer[..count.value], AbsOf(fs));
      WriteStep(fs.State(), k, offset, count.value, buffer[..]);
      var written := fs.Write(g, buffer, count.value);
      if written.value != count.value { problem := true; }
      offset := offset + count.value;
    }
  }

  lemma RoomNonNegative(k: Copy)
    requires CopyReady(k)
    ensures Limit(k) >= 0
  {
  }

  lemma PendingBounds(k: Copy, offset: nat, n: nat, data: seq<byte>, a: AbsFs)
    requires CopyReady(k) && Pending(k, offset, n, data, a)
    ensures offset + n <= |k.start.files[k.source]|
  {
  }

  // What vcopy does to the abstract file system. When the destination cannot be
  // opened the exception leaves the source open.
  ghost predicate VCopyEffect(a: AbsFs, source: Name, dest: Name, r: Result<bool>, b: AbsFs) {
    var (a1, in1) := AbsOpen(a, source, READ);
    if in1.result.Throw? then r == Throw(in1.result.error) && b == a
    else
      var a2 := AbsTruncate(a1, dest).0;
      var (a3, out3) := AbsOpen(a2, dest, WRITE);
      if out3.result.Throw? then r == Throw(out3.result.error) && b == a2
      else
        && source in a.files
        && var bytes, limit := a.files[source], a3.free * BLOCK_SIZE + BLOCK_SIZE - 1;
        && limit >= 0
        && r == Ok(|bytes| > limit)
        && b.files == a.files[dest := bytes[..Min(|bytes|, limit)]]
        && b.views == a.views
  }

  // vcopy succeeds exactly with two handles to spare, a source, and a destination
  // that exists or can be created; then it copies what the free blocks hold, those
  // of the old destination counted in, but for the last byte of the last block.
  lemma VCopyMeans(a: AbsFs, source: Name, dest: Name, r: Result<bool>, b: AbsFs)
    requires AbsOk(a) && source != dest && VCopyEffect(a, source, dest, r, b)
    ensures r.Ok? <==>
            && (exists h, k :: 0 <= h < k < 16 && a.views[h].None? && a.views[k].None?)
            && source in a.files && (dest in a.files || (|a.files| != 32 && a.free != 0))
    ensures (forall h :: 0 <= h < 16 ==> a.views[h].Some?) ==> r == Throw(OutOfHandles) && b == a
    ensures (exists h :: 0 <= h < 16 && a.views[h].None?) && source !in a.files ==>
              r == Throw(FileDoesNotExist) && b == a
    ensures r.Ok? ==>
              var bytes := a.files[source];
              var limit := 1024 * (a.free + (if dest in a.files then |a.files[dest]| / 1024 else -1)) + 1023;
              && limit >= 0 && r == Ok(|bytes| > limit)
              && b.files == a.files[dest := if |bytes| <= limit then bytes else bytes[..limit]]
              && b.views == a.views
  {
    var h := FirstNone(a.views, 0);
    if h < 16 && source in a.files {
      NextNone(a.views, h, Some(View(source, 0, READ)));
      SecondNone(a.views, h);
      assert a.files[source][..|a.files[source]|] == a.files[source];
    }
  }

  // Two unused handles.
  lemma SecondNone(v: seq<Option<View>>, h: nat)
    requires h == FirstNone(v, 0) < |v|
    ensures FirstNone(v, h + 1) < |v| <==> exists i, k :: 0 <= i < k < |v| && v[i].None? && v[k].None?
  {
    hide FirstNone;
    var k := FirstNone(v, h + 1);
    if k < |v| { assert v[h].None? && v[k].None?; }
    if i, j :| 0 <= i < j < |v| && v[i].None? && v[j].None? { assert h <= i && k <= j; }
  }

  // No handle is left for the destination, or it cannot be created.
  predicate SourceStaysOpen(a: AbsFs, source: Name, dest: Name) {
    var h := FirstNone(a.views, 0);
    && source in a.files && h < |a.views|
    && (FirstNone(a.views, h + 1) == |a.views| || (dest !in a.files && (|a.files| == DIR_SIZE || a.free == 0)))
  }

  // vcopy leaves the handles as it found them exactly outside this condition;
  // under it the source remains open.
  lemma VCopyClosesIff(a: AbsFs, source: Name, dest: Name, r: Result<bool>, b: AbsFs)
    requires AbsOk(a) && source != dest && !NameOpen(a, dest) && VCopyEffect(a, source, dest, r, b)
    ensures b.views == a.views <==> !SourceStaysOpen(a, source, dest)
    ensures SourceStaysOpen(a, source, dest) ==>
              r.Throw? && b.views == a.views[FirstNone(a.views, 0) := Some(View(source, 0, READ))]
  {
    hide Blocks;
    var h := FirstNone(a.views, 0);
    if h < |a.views| {
      NextNone(a.views, h, Some(View(source, 0, READ)));
      assert a.views[h].None?;
    }
  }

  // The next free handle once the first has been taken.
  lemma NextNone(v: seq<Option<View>>, h: nat, x: Option<View>)
    requires h == FirstNone(v, 0) < |v| && x.Some?
    ensures FirstNone(v[h := x], 0) == FirstNone(v, h + 1)
  {
    hide FirstNone;
    FirstNoneIs(v[h := x], 0, FirstNone(v, h + 1));
  }

  // Fifteen readers of one file, as a run from a new disk leaves them: the copy
  // takes the last handle for the source, throws, and keeps it.
  lemma SourceLeftOpen() returns (s: FsState, dest: Name, b: AbsFs)
    ensures Valid(Formatted()) && Shape(Formatted()) && AllowedFrom(Formatted(), ReadersRun(15))
    ensures Runnable(Formatted(), ReadersRun(15)) && s == Run(Formatted(), ReadersRun(15)).0
    ensures Valid(s) && Shape(s) && dest != FILE && !NameOpen(Abs(s), dest) && SourceStaysOpen(Abs(s), FILE, dest)
    ensures VCopyEffect(Abs(s), FILE, dest, Throw(OutOfHandles), b) && b.views != Abs(s).views
  {
    hide FirstNone, Valid, Abs, Formatted, Run, Runnable, ReadersRun, Shape;
    ReadersReached(15);
    s := Run(Formatted(), ReadersRun(15)).0;
    dest := [98];
    var a := Readers(15);
    FirstNoneIs(a.views, 0, 15);
    FirstNoneIs(a.views, 16, 16);
    var a1 := AbsOpen(a, FILE, READ).0;
    assert a1.views == a.views[15 := Some(View(FILE, 0, READ))];
    FirstNoneIs(a1.views, 0, 16);
    b := AbsTruncate(a1, dest).0;
    assert b.views[15] != a.views[15];
  }

  // The set-up of the copy loop.
  lemma CopySetUp(a: AbsFs, source: Name, dest: Name)
    requires AbsOk(a) && source != dest && !NameOpen(a, dest)
    requires AbsOpen(a, source, READ).1.result.Ok?
    ensures var a1 := AbsOpen(a, source, READ).0;
            && !NameOpen(a1, dest)
            && var a2 := AbsTruncate(a1, dest).0; var (a3, out3) := AbsOpen(a2, dest, WRITE);
            && !NameOpenForWriting(a2, dest)
            && (out3.result.Throw? ==> a3 == a2)
            && (out3.result.Ok? && AbsOk(a3) && a3.free >= 0 ==>
                  CopyReady(Copy(source, dest, AbsOpen(a, source, READ).1.result.value, out3.result.value, a3)))
  {
    hide Blocks;
    var (a1, in1) := AbsOpen(a, source, READ);
    assert forall h :: 0 <= h < |a.views| && a.views[h].Some? ==> a.views[h].value.name != dest;
    assert forall h :: 0 <= h < |a1.views| && a1.views[h].Some? ==> a1.views[h].value.name != dest;
  }

  // Closing both handles gives the views of the beginning.
  lemma CopyDone(a: AbsFs, source: Name, dest: Name, k: Copy, b: AbsFs)
    requires AbsOk(a) && source != dest && !NameOpen(a, dest)
    requires var (a1, in1) := AbsOpen(a, source, READ);
             && in1.result.Ok?
             && var (a3, out3) := AbsOpen(AbsTruncate(a1, dest).0, dest, WRITE);
             && out3.result.Ok? && k == Copy(source, dest, in1.result.value, out3.result.value, a3)
    requires CopyReady(k) && Copied(k, |k.start.files[source]|, b)
    ensures var c1 := AbsClose(b, k.h); var c2 := AbsClose(c1.0, k.g);
            && c1.1.result.Ok? && c2.1.result.Ok?
            && VCopyEffect(a, source, dest, Ok(|k.start.files[source]| > Limit(k)), c2.0)
  {
    hide Blocks, NameOpen;
    var c2 := AbsClose(AbsClose(b, k.h).0, k.g).0;
    assert a.views[k.h].None? && a.views[k.g].None?;
    assert c2.views == a.views;
    assert Limit(k) == k.start.free * BLOCK_SIZE + BLOCK_SIZE - 1;
  }

  method VCopy(fs: FileSystem, source: Name, dest: Name) returns (r: Result<bool>)
    requires fs.Ready() && Shape(fs.State()) && source != dest && !NameOpen(AbsOf(fs), dest)
    modifies fs.fat, fs.root, fs.handles, fs.disk.blocks
    ensures fs.Ready() && Shape(fs.State())
    ensures VCopyEffect(old(AbsOf(fs)), source, dest, r, AbsOf(fs))
  {
    hide Valid, Abs, AbsOk, Shape, Copied, NameOpen, OpenSpec, TruncateSpec, CloseSpec, AbsOpen, AbsTruncate, AbsClose,
         CopyReady;
    ghost var a := AbsOf(fs);
    ValidAbsOk(fs.State());
    StepRefines(fs.State(), OpenOp(source, READ));
    var handleIn := fs.Open(source, READ);
    if handleIn.Throw? {
      FailedOpenChangesNothing(a, source, READ);
      return Throw(handleIn.error);
    }

    CopySetUp(a, source, dest);
    ValidAbsOk(fs.State());
    StepRefines(fs.State(), TruncateOp(dest));
    fs.Truncate(dest);

    ValidAbsOk(fs.State());
    StepRefines(fs.State(), OpenOp(dest, WRITE));
    var handleOut := fs.Open(dest, WRITE);
    if handleOut.Throw? { return Throw(handleOut.error); }

    ValidAbsOk(fs.State());
    CopyHandles(a, source, dest);
    FreeNonNegative(fs.State());
    ghost var k := Copy(source, dest, handleIn.value, handleOut.value, AbsOf(fs));
    var problem := CopyLoop(fs, handleIn.value, handleOut.value, k);

    CopyDone(a, source, dest, k, AbsOf(fs));
    ValidAbsOk(fs.State());
    StepRefines(fs.State(), CloseOp(handleIn.value));
    var closed := fs.Close(handleIn.value);
    ValidAbsOk(fs.State());
    StepRefines(fs.State(), CloseOp(handleOut.value));
    closed := fs.Close(handleOut.value);
    return Ok(problem);
  }

  lemma FailedOpenChangesNothing(a: AbsFs, name: Name, mode: Mode)
    ensures AbsOpen(a, name, mode).1.result.Throw? ==> AbsOpen(a, name, mode).0 == a
  {
  }

  lemma CopyHandles(a: AbsFs, source: Name, dest: Name)
    ensures AbsOpen(a, source, READ).1.result.Ok? ==> 0 <= AbsOpen(a, source, READ).1.result.value
    ensures var out := AbsOpen(AbsTruncate(AbsOpen(a, source, READ).0, dest).0, dest, WRITE).1;
            out.result.Ok? ==> 0 <= out.result.value
  {
  }

  lemma FreeNonNegative(s: FsState)
    requires Shape(s)
    ensures Abs(s).free >= 0
  {
  }
}
