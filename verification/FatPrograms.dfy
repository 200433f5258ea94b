// Programs over file system objects: what they see is the abstract file system.
module FatPrograms {
  import opened FatTypes
  import opened FatInvariant
  import opened FatOps
  import opened FatFiles
  import opened FatRemount
  import opened FatRefinement
  import opened FatReached
  import opened FileSystems

  // The abstract state of a file system object.
  ghost function AbsOf(fs: FileSystem): AbsFs
    requires Shape(fs.State())
    reads fs, fs.fat, fs.root, fs.handles, fs.disk.blocks
  {
    Abs(fs.State())
  }

  ghost predicate InUse(fs: FileSystem)
    reads fs, fs.fat, fs.root, fs.handles, fs.disk.blocks
  {
    fs.Ready() && Shape(fs.State()) && AbsOk(AbsOf(fs)) && fs.disk.blkSize == BLOCK_SIZE
  }

  // The calls that return no bytes.
  method PerformCall(fs: FileSystem, op: Op) returns (out: Out)
    requires InUse(fs) && Allowed(AbsOf(fs), op) && !op.RemountOp? && !op.ReadOp?
    modifies fs`formatted, fs.fat, fs.root, fs.handles, fs.disk.blocks
    ensures InUse(fs) && (AbsOf(fs), out) == old(AbsStep(AbsOf(fs), op))
  {
    hide Valid, Abs, AbsOk, Shape, Allowed, AbsStep, OpenSpec, CloseSpec, WriteSpec, TruncateSpec, RemoveSpec,
         FormatSpec;
    ghost var s := fs.State();
    StepRefines(s, op);
    if op.OpenOp? {
      var h := fs.Open(op.name, op.mode);
      out := Out(h, []);
    } else if op.CloseOp? {
      var closed := fs.Close(op.handle);
      out := Out(if closed.Ok? then Ok(0) else Throw(closed.error), []);
    } else if op.WriteOp? {
      WriteAllowed(AbsOf(fs), op);
      var data := op.data;
      var buffer := new byte[|data|](i requires 0 <= i < |data| => data[i]);
      assert buffer[..] == data;
      var n := fs.Write(op.h, buffer, op.count);
      out := Out(n, []);
    } else if op.TruncateOp? {
      fs.Truncate(op.name);
      out := Done;
    } else if op.RemoveOp? {
      fs.Remove(op.name);
      out := Done;
    } else {
      ShapeSizes(s);
      fs.Format();
      out := Done;
    }
    assert fs.State() == Step(s, op).0;
    ValidAbsOk(fs.State());
  }

  lemma WriteAllowed(a: AbsFs, op: Op)
    requires Allowed(a, op) && op.WriteOp?
    ensures op.count <= |op.data|
  {
  }

  lemma ShapeSizes(s: FsState)
    requires Shape(s)
    ensures |s.fat| == FAT_SIZE && |s.dir| == DIR_SIZE && |s.disk| >= FAT_SIZE
  {
  }

  method PerformRead(fs: FileSystem, h: int, count: int) returns (out: Out)
    requires InUse(fs)
    modifies fs.handles
    ensures InUse(fs) && (AbsOf(fs), out) == old(AbsStep(AbsOf(fs), ReadOp(h, count)))
  {
    hide Valid, Abs, AbsOk, Shape, AbsStep, ReadSpec;
    ghost var s := fs.State();
    ReadAllowed(AbsOf(fs), h, count);
    StepRefines(s, ReadOp(h, count));
    var buffer := new byte[if count < 0 then 0 else count];
    var n := fs.Read(h, buffer, count);
    ReadLength(s, h, count);
    var length := if n.Ok? && n.value > 0 then n.value else 0;
    out := Out(n, buffer[..length]);
    assert buffer[..length] == ReadSpec(s, h, count).1;
    ValidAbsOk(fs.State());
  }

  lemma ReadAllowed(a: AbsFs, h: int, count: int)
    ensures Allowed(a, ReadOp(h, count))
  {
  }

  lemma ReadLength(s: FsState, h: int, count: int)
    requires Shape(s)
    ensures var (_, data, out) := ReadSpec(s, h, count);
            |data| == if out.Ok? && out.value > 0 then out.value else 0
  {
  }

  method PerformRemount(fs: FileSystem) returns (r: FileSystem)
    requires InUse(fs)
    modifies fs.disk.blocks
    ensures InUse(r) && r.disk == fs.disk && fresh(r) && fresh(r.fat) && fresh(r.root) && fresh(r.handles)
    ensures (AbsOf(r), Done) == old(AbsStep(AbsOf(fs), RemountOp))
  {
    hide Valid, AbsOk, Shape, AbsStep, FilesOf, Views, CountFree, RemountSpec;
    ghost var s := fs.State();
    RemountAllowed(AbsOf(fs));
    ShapeSizes(s);
    StepRefines(s, RemountOp);
    RemountRecovers(s);
    r := FileSystem.Remount(fs);
    ghost var q := RemountSpec(s);
    assert r.State().fat == r.State().(handles := q.handles).fat;
    assert Abs(r.State()) == Abs(q);
    ValidAbsOk(r.State());
  }

  lemma RemountAllowed(a: AbsFs)
    ensures Allowed(a, RemountOp)
  {
  }

  // One call, the construction of a new object on the same device included.
  method Perform(fs: FileSystem, op: Op) returns (r: FileSystem, out: Out)
    requires InUse(fs) && Allowed(AbsOf(fs), op)
    modifies fs`formatted, fs.fat, fs.root, fs.handles, fs.disk.blocks
    ensures InUse(r) && r.disk == fs.disk
    ensures r == fs || (fresh(r) && fresh(r.fat) && fresh(r.root) && fresh(r.handles))
    ensures (AbsOf(r), out) == old(AbsStep(AbsOf(fs), op))
  {
    hide Valid, Abs, AbsOk, Shape, Allowed, AbsStep;
    if op.RemountOp? {
      r := PerformRemount(fs);
      out := Done;
    } else if op.ReadOp? {
      r := fs;
      out := PerformRead(fs, op.h, op.count);
    } else {
      r := fs;
      out := PerformCall(fs, op);
    }
  }

  // A program on a device that is formatted first: every call returns what the
  // abstract machine returns, and the object ends up in its last state.
  method Execute(d: BlockDevice, ops: seq<Op>) returns (fs: FileSystem, outs: seq<Out>)
    requires d.blkSize == BLOCK_SIZE && d.blocks.Length >= FAT_SIZE
    requires (NewDiskOk(); AllowedRun(NewDisk(), ops))
    modifies d.blocks
    ensures AbsOk(NewDisk())
    ensures InUse(fs) && fs.disk == d && (AbsOf(fs), outs) == AbsRun(NewDisk(), ops)
  {
    hide Valid, Abs, AbsOk, Shape, Allowed, AbsStep, FormatSpec, BootOk;
    var mounted := FileSystem.Mount(d);
    fs := mounted.value;
    NewDiskOk();
    FormattedIsNew(fs.State());
    fs.Format();
    ValidAbsOk(fs.State());
    ghost var done := AbsRun(NewDisk(), ops);
    outs := [];
    var i := 0;
    assert ops[0..] == ops && outs + done.1 == done.1;
    while i < |ops|
      invariant 0 <= i <= |ops| && InUse(fs) && fs.disk == d
      invariant fresh(fs) && fresh(fs.fat) && fresh(fs.root) && fresh(fs.handles)
      invariant AllowedRun(AbsOf(fs), ops[i..])
      invariant AbsRun(AbsOf(fs), ops[i..]).0 == done.0 && outs + AbsRun(AbsOf(fs), ops[i..]).1 == done.1
    {
      var op := ops[i];
      assert ops[i..][0] == op && ops[i..][1..] == ops[i + 1..];
      AbsRunStep(AbsOf(fs), ops[i..]);
      ghost var rest := AbsRun(AbsStep(AbsOf(fs), op).0, ops[i + 1..]).1;
      var out;
      fs, out := Perform(fs, op);
      assert outs + ([out] + rest) == (outs + [out]) + rest;
      outs := outs + [out];
      i := i + 1;
    }
    assert outs + [] == outs;
  }

  lemma AbsRunStep(a: AbsFs, ops: seq<Op>)
    requires AbsOk(a) && AllowedRun(a, ops) && ops != []
    ensures Allowed(a, ops[0]) && AbsOk(AbsStep(a, ops[0]).0) && AllowedRun(AbsStep(a, ops[0]).0, ops[1..])
    ensures var (b, out) := AbsStep(a, ops[0]); var (last, outs) := AbsRun(b, ops[1..]);
            AbsRun(a, ops) == (last, [out] + outs)
  {
    hide AbsOk, Allowed, AbsStep;
    AbsStepOk(a, ops[0]);
  }
}
