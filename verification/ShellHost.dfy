// The shell commands that copy between the host file system and the simulated
// one. A host file is a sequence of bytes, or None when it cannot be opened.
module ShellHost {
  import opened FatTypes
  import opened FatInvariant
  import opened FatOps
  import opened FatFiles
  import opened FatRefinement
  import opened FileSystems
  import opened FatPrograms
  import opened Shell

  // ----- vcopyin -----

  // The destination is open and empty, and nothing of the host file is written.
  datatype Import = Import(dest: Name, g: nat, bytes: seq<byte>, start: AbsFs)

  ghost predicate ImportReady(k: Import) {
    && AbsOk(k.start) && k.start.free >= 0 && k.g < HANDLETABLE_SIZE
    && k.dest in k.start.files && k.start.files[k.dest] == []
    && k.start.views[k.g] == Some(View(k.dest, 0, WRITE))
  }

  function ImportLimit(k: Import): int { Room(k.start.free, 0) }

  // Of the first `offset` bytes as many as fit have been written.
  ghost predicate Imported(k: Import, offset: nat, a: AbsFs)
    requires ImportReady(k)
  {
    var w := Min(offset, ImportLimit(k));
    && offset <= |k.bytes|
    && a.files == k.start.files[k.dest := k.bytes[..w]]
    && a.views == k.start.views[k.g := Some(View(k.dest, w, WRITE))]
    && Room(a.free, w) == ImportLimit(k) - w
  }

  lemma ImportStarts(k: Import)
    requires ImportReady(k)
    ensures Imported(k, 0, k.start) && ImportLimit(k) >= 0
  {
    assert k.start.files[k.dest := k.bytes[..0]] == k.start.files;
    assert k.start.views[k.g := k.start.views[k.g]] == k.start.views;
  }

  lemma ImportWrites(k: Import, offset: nat, n: nat, data: seq<byte>, a: AbsFs)
    requires ImportReady(k) && AbsOk(a) && Imported(k, offset, a)
    requires n <= |data| && offset + n <= |k.bytes| && data[..n] == k.bytes[offset..offset + n]
    ensures var (a2, out) := AbsWrite(a, k.g, data, n);
            && Imported(k, offset + n, a2)
            && out.result.Ok? && (out.result.value == n <==> n == 0 || offset + n <= ImportLimit(k))
  {
    hide Blocks;
    var w := Min(offset, ImportLimit(k));
    var m := Min(n, ImportLimit(k) - w);
    assert a.views[k.g] == Some(View(k.dest, w, WRITE)) && a.files[k.dest] == k.bytes[..w];
    assert data[..m] == data[..n][..m];
    assert k.bytes[..w] + data[..m] == k.bytes[..w + m];
    RoomShrinks(a.free, w, m);
  }

  lemma ImportStep(s: FsState, k: Import, offset: nat, n: nat, data: seq<byte>)
    requires Valid(s) && Shape(s) && ImportReady(k) && Imported(k, offset, Abs(s))
    requires n <= |data| && offset + n <= |k.bytes| && data[..n] == k.bytes[offset..offset + n]
    ensures var (r, out) := WriteSpec(s, k.g, data, n);
            && Valid(r) && Shape(r) && out.Ok?
            && Imported(k, offset + n, Abs(r))
            && (out.value == n <==> n == 0 || offset + n <= ImportLimit(k))
  {
    hide Valid, Abs, AbsOk, Shape, WriteSpec, AbsWrite, Imported, Room, ImportReady;
    ValidAbsOk(s);
    ImportWrites(k, offset, n, data, Abs(s));
    StepRefines(s, WriteOp(k.g, data, n));
  }

  // read() of a host stream and gcount(): at most a buffer full.
  method HostRead(bytes: seq<byte>, position: nat, buffer: array<byte>) returns (count: nat)
    requires position <= |bytes| && buffer.Length == CHUNK
    modifies buffer
    ensures count == Min(CHUNK, |bytes| - position)
    ensures buffer[..count] == bytes[position..position + count]
  {
    count := Min(CHUNK, |bytes| - position);
    forall k | 0 <= k < count { buffer[k] := bytes[position + k]; }
  }

  method ImportLoop(fs: FileSystem, g: nat, bytes: seq<byte>, ghost k: Import) returns (problem: bool)
    requires fs.Ready() && Shape(fs.State()) && k.start == AbsOf(fs) && ImportReady(k) && k.g == g && k.bytes == bytes
    modifies fs.fat, fs.root, fs.handles, fs.disk.blocks
    ensures fs.Ready() && Shape(fs.State())
    ensures Imported(k, |bytes|, AbsOf(fs))
    ensures problem <==> |bytes| > ImportLimit(k)
  {
    hide Valid, Abs, AbsOk, Shape, Imported, WriteSpec, ImportLimit, ImportReady;
    var buffer := new byte[CHUNK];
    problem := false;
    ImportStarts(k);
    var position := 0;
    var count := HostRead(bytes, position, buffer);
    while count != 0
      invariant fs.Ready() && Shape(fs.State()) && fresh(buffer)
      invariant 0 <= position <= |bytes| && count == Min(CHUNK, |bytes| - position)
      invariant buffer[..count] == bytes[position..position + count]
      invariant Imported(k, position, AbsOf(fs))
      invariant problem <==> position > ImportLimit(k)
      decreases |bytes| - position
    {
      ImportStep(fs.State(), k, position, count, buffer[..]);
      assert buffer[..][..count] == buffer[..count];
      var written := fs.Write(g, buffer, count);
      if written.value != count { problem := true; }
      position := position + count;
      count := HostRead(bytes, position, buffer);
    }
  }

  // What vcopyin does to the abstract file system; the result tells of problems
  // reported to the user.
  ghost predicate VCopyInEffect(a: AbsFs, host: Option<seq<byte>>, dest: Name, r: Result<bool>, b: AbsFs) {
    if host.None? then r == Ok(true) && b == a
    else
      var a2 := AbsTruncate(a, dest).0;
      var (a3, out3) := AbsOpen(a2, dest, WRITE);
      if out3.result.Throw? then r == Throw(out3.result.error) && b == a2
      else
        var limit := a3.free * BLOCK_SIZE + BLOCK_SIZE - 1;
        && limit >= 0
        && r == Ok(|host.value| > limit)
        && b.files == a.files[dest := host.value[..Min(|host.value|, limit)]]
        && b.views == a.views
  }

  lemma ImportSetUp(a: AbsFs, dest: Name, bytes: seq<byte>)
    requires AbsOk(a) && !NameOpen(a, dest)
    ensures var a2 := AbsTruncate(a, dest).0; var (a3, out3) := AbsOpen(a2, dest, WRITE);
            && !NameOpenForWriting(a2, dest)
            && (out3.result.Throw? ==> a3 == a2)
            && (out3.result.Ok? ==> 0 <= out3.result.value)
            && (out3.result.Ok? && AbsOk(a3) && a3.free >= 0 ==>
                  ImportReady(Import(dest, out3.result.value, bytes, a3)))
  {
    hide Blocks;
  }

  lemma ImportDone(a: AbsFs, dest: Name, k: Import, b: AbsFs)
    requires AbsOk(a) && !NameOpen(a, dest)
    requires var (a3, out3) := AbsOpen(AbsTruncate(a, dest).0, dest, WRITE);
             out3.result.Ok? && k.dest == dest && k.g == out3.result.value && k.start == a3
    requires ImportReady(k) && Imported(k, |k.bytes|, b)
    ensures var c := AbsClose(b, k.g);
            c.1.result.Ok? && VCopyInEffect(a, Some(k.bytes), dest, Ok(|k.bytes| > ImportLimit(k)), c.0)
  {
    hide Blocks, NameOpen;
    assert a.views[k.g].None?;
    assert AbsClose(b, k.g).0.views == a.views;
    assert ImportLimit(k) == k.start.free * BLOCK_SIZE + BLOCK_SIZE - 1;
  }

  method VCopyIn(fs: FileSystem, host: Option<seq<byte>>, dest: Name) returns (r: Result<bool>)
    requires fs.Ready() && Shape(fs.State()) && !NameOpen(AbsOf(fs), dest)
    modifies fs.fat, fs.root, fs.handles, fs.disk.blocks
    ensures fs.Ready() && Shape(fs.State())
    ensures VCopyInEffect(old(AbsOf(fs)), host, dest, r, AbsOf(fs))
  {
    hide Valid, Abs, AbsOk, Shape, Imported, NameOpen, OpenSpec, TruncateSpec, CloseSpec, AbsOpen, AbsTruncate,
         AbsClose, ImportReady;
    ghost var a := AbsOf(fs);
    if host.None? { return Ok(true); }
    ValidAbsOk(fs.State());
    ImportSetUp(a, dest, host.value);
    StepRefines(fs.State(), TruncateOp(dest));
    fs.Truncate(dest);

    ValidAbsOk(fs.State());
    StepRefines(fs.State(), OpenOp(dest, WRITE));
    var out := fs.Open(dest, WRITE);
    if out.Throw? { return Throw(out.error); }

    ValidAbsOk(fs.State());
    FreeNonNegative(fs.State());
    ghost var k := Import(dest, out.value, host.value, AbsOf(fs));
    var problem := ImportLoop(fs, out.value, host.value, k);

    ImportDone(a, dest, k, AbsOf(fs));
    ValidAbsOk(fs.State());
    StepRefines(fs.State(), CloseOp(out.value));
    var closed := fs.Close(out.value);
    return Ok(problem);
  }

  // ----- vcopyout -----

  // The handle stands at an offset; nothing else has changed.
  ghost predicate ReadUpTo(start: AbsFs, source: Name, h: nat, offset: nat, a: AbsFs) {
    && AbsOk(start) && h < HANDLETABLE_SIZE && source in start.files && offset <= |start.files[source]|
    && a == start.(views := start.views[h := Some(View(source, offset, READ))])
  }

  // data is what the file holds at the offset; it is empty at the end only.
  ghost predicate NextBytes(start: AbsFs, source: Name, offset: nat, data: seq<byte>) {
    && source in start.files && offset + |data| <= |start.files[source]|
    && data == start.files[source][offset..offset + |data|]
    && (data == [] ==> offset == |start.files[source]|)
  }

  lemma ExportReads(start: AbsFs, source: Name, h: nat, offset: nat, a: AbsFs)
    requires AbsOk(a) && ReadUpTo(start, source, h, offset, a)
    ensures var (a1, out) := AbsRead(a, h, CHUNK);
            && out.result == Ok(|out.data|) && |out.data| <= CHUNK
            && ReadUpTo(start, source, h, offset + |out.data|, a1)
            && NextBytes(start, source, offset, out.data)
  {
    assert a.views[h] == Some(View(source, offset, READ));
    var a1 := AbsRead(a, h, CHUNK).0;
    assert a1.views == start.views[h := a1.views[h]];
  }

  lemma ExportStep(s: FsState, start: AbsFs, source: Name, h: nat, offset: nat)
    requires Valid(s) && Shape(s) && ReadUpTo(start, source, h, offset, Abs(s))
    ensures var (r, data, out) := ReadSpec(s, h, CHUNK);
            && Valid(r) && Shape(r) && out.Ok? && 0 <= out.value == |data| <= CHUNK
            && ReadUpTo(start, source, h, offset + |data|, Abs(r))
            && NextBytes(start, source, offset, data)
  {
    hide Valid, Abs, AbsOk, Shape, ReadSpec, AbsRead, ReadUpTo, NextBytes;
    ValidAbsOk(s);
    ExportReads(start, source, h, offset, Abs(s));
    StepRefines(s, ReadOp(h, CHUNK));
  }

  method ExportLoop(fs: FileSystem, h: nat, ghost start: AbsFs, ghost source: Name) returns (out: seq<byte>)
    requires fs.Ready() && Shape(fs.State()) && ReadUpTo(start, source, h, 0, AbsOf(fs))
    modifies fs.fat, fs.root, fs.handles, fs.disk.blocks
    ensures fs.Ready() && Shape(fs.State())
    ensures source in start.files && out == start.files[source]
    ensures ReadUpTo(start, source, h, |out|, AbsOf(fs))
  {
    hide Valid, Abs, AbsOk, Shape, ReadSpec;
    var buffer := new byte[CHUNK];
    out := [];
    while true
      invariant fs.Ready() && Shape(fs.State()) && fresh(buffer)
      invariant ReadUpTo(start, source, h, |out|, AbsOf(fs)) && out == start.files[source][..|out|]
      decreases |start.files[source]| - |out|
    {
      ExportStep(fs.State(), start, source, h, |out|);
      var count := fs.Read(h, buffer, CHUNK);
      if count.value == 0 { break; }
      // out.write() of the host stream.
      out := out + buffer[..count.value];
    }
  }

  ghost predicate VCopyOutEffect(a: AbsFs, source: Name, hostOpens: bool, r: Result<bool>, out: seq<byte>, b: AbsFs) {
    b == a
    && match AbsOpen(a, source, READ).1.result
       case Throw(e) => r == Throw(e) && out == []
       case Ok(_) =>
         source in a.files
         && if hostOpens then r == Ok(false) && out == a.files[source] else r == Ok(true) && out == []
  }

  lemma ExportSetUp(a: AbsFs, source: Name)
    requires AbsOk(a)
    ensures var (a1, in1) := AbsOpen(a, source, READ);
            if in1.result.Throw? then a1 == a
            else
              && 0 <= in1.result.value < HANDLETABLE_SIZE && source in a.files
              && ReadUpTo(a, source, in1.result.value, 0, a1)
              && forall offset: nat, b :: ReadUpTo(a, source, in1.result.value, offset, b) ==>
                   AbsClose(b, in1.result.value) == (a, Done)
  {
    var (a1, in1) := AbsOpen(a, source, READ);
    if in1.result.Ok? {
      var h := in1.result.value;
      forall offset: nat, b | ReadUpTo(a, source, h, offset, b) ensures AbsClose(b, h) == (a, Done) {
        assert b.views[h := None] == a.views;
      }
    }
  }

  method VCopyOut(fs: FileSystem, source: Name, hostOpens: bool) returns (r: Result<bool>, out: seq<byte>)
    requires fs.Ready() && Shape(fs.State())
    modifies fs.fat, fs.root, fs.handles, fs.disk.blocks
    ensures fs.Ready() && Shape(fs.State())
    ensures VCopyOutEffect(old(AbsOf(fs)), source, hostOpens, r, out, AbsOf(fs))
  {
    hide Valid, Abs, AbsOk, Shape, OpenSpec, CloseSpec, AbsOpen, AbsClose, ReadUpTo;
    ghost var a := AbsOf(fs);
    out := [];
    ValidAbsOk(fs.State());
    ExportSetUp(a, source);
    StepRefines(fs.State(), OpenOp(source, READ));
    var in' := fs.Open(source, READ);
    if in'.Throw? { return Throw(in'.error), []; }

    if hostOpens { out := ExportLoop(fs, in'.value, a, source); }
    ValidAbsOk(fs.State());
    StepRefines(fs.State(), CloseOp(in'.value));
    var closed := fs.Close(in'.value);
    r := Ok(!hostOpens);
  }

  // A host file that vcopyin takes in without a problem comes out of vcopyout
  // as it was.
  lemma HostRoundTrip(a: AbsFs, bytes: seq<byte>, name: Name, b: AbsFs, r: Result<bool>, out: seq<byte>, c: AbsFs)
    requires AbsOk(a) && VCopyInEffect(a, Some(bytes), name, Ok(false), b)
    requires VCopyOutEffect(b, name, true, r, out, c)
    ensures r == Ok(false) && out == bytes && c == b
  {
    hide Blocks;
    var a2 := AbsTruncate(a, name).0;
    assert a2.views == a.views == b.views;
  }

  // vcopyin succeeds exactly when there is a host file, an unused handle, and a
  // destination that exists or can be created, or else when there is no host file,
  // which it reports; the destination then holds what the free blocks do.
  lemma VCopyInMeans(a: AbsFs, host: Option<seq<byte>>, dest: Name, r: Result<bool>, b: AbsFs)
    requires AbsOk(a) && VCopyInEffect(a, host, dest, r, b)
    ensures host.None? ==> r == Ok(true) && b == a
    ensures r.Throw? <==>
            && host.Some?
            && ((forall h :: 0 <= h < 16 ==> a.views[h].Some?)
                || (dest !in a.files && (|a.files| == 32 || a.free == 0)))
    ensures host.Some? && r.Ok? ==>
              var bytes := host.value;
              var limit := 1024 * (a.free + (if dest in a.files then |a.files[dest]| / 1024 else -1)) + 1023;
              && limit >= 0 && r == Ok(|bytes| > limit)
              && b.files == a.files[dest := if |bytes| <= limit then bytes else bytes[..limit]]
              && b.views == a.views
  {
    if host.Some? { assert host.value[..|host.value|] == host.value; }
  }

  // vcopyout delivers the whole file, or nothing and a report if the host file
  // cannot be opened, and leaves all as it was.
  lemma VCopyOutMeans(a: AbsFs, source: Name, hostOpens: bool, r: Result<bool>, out: seq<byte>, b: AbsFs)
    requires AbsOk(a) && VCopyOutEffect(a, source, hostOpens, r, out, b)
    ensures b == a
    ensures if forall h :: 0 <= h < 16 ==> a.views[h].Some? then r == Throw(OutOfHandles) && out == []
            else if source !in a.files then r == Throw(FileDoesNotExist) && out == []
            else r == Ok(!hostOpens) && out == if hostOpens then a.files[source] else []
  {
  }
}
