// States that runs from a freshly formatted disk end in.
module FatReached {
  import opened FatTypes
  import opened FatInvariant
  import opened FatOps
  import opened FatFiles
  import opened FatDirProofs
  import opened FatRefinement
  import opened FatTwoWriters

  // A new disk of zeros and a file system object that knows nothing of it.
  function Blank(): FsState {
    FsState(false, seq(FAT_SIZE, _ => 0), seq(DIR_SIZE, _ => ZeroEntry()),
            seq(HANDLETABLE_SIZE, _ => Handle(0, 0, 0, false, READ)), seq(FAT_SIZE, _ => Zeros(BLOCK_SIZE)))
  }

  function Formatted(): FsState { FormatSpec(Blank()) }

  function NoViews(): (v: seq<Option<View>>)
    ensures |v| == HANDLETABLE_SIZE && forall h :: 0 <= h < |v| ==> v[h] == None
  {
    seq(HANDLETABLE_SIZE, _ => None)
  }

  // No files, no handles, all data blocks free.
  function NewDisk(): AbsFs { AbsFs(map[], NoViews(), FAT_SIZE - 3) }

  lemma NewDiskOk()
    ensures AbsOk(NewDisk())
  {
  }

  lemma FormattedIsNew(s: FsState)
    requires |s.handles| == HANDLETABLE_SIZE && |s.disk| >= FAT_SIZE && NothingOpen(s)
    ensures Valid(FormatSpec(s)) && Shape(FormatSpec(s)) && Abs(FormatSpec(s)) == NewDisk()
  {
    hide Valid, CStr, CountFree, FilesOf, SlotBlocks, BootBlock, Zeros;
    var r := FormatSpec(s);
    FormatValid(s);
    SpaceConserved(r);
    NoSlotBlocks(r.dir, DIR_SIZE);
    assert Views(r) == NoViews();
  }

  // One call, seen from the abstract state it starts in.
  lemma StepTo(s: FsState, op: Op, a: AbsFs)
    requires Valid(s) && Shape(s) && Abs(s) == a && (ValidAbsOk(s); Allowed(a, op))
    ensures AbsOk(a) && Valid(Step(s, op).0) && Shape(Step(s, op).0)
    ensures Abs(Step(s, op).0) == AbsStep(a, op).0 && Step(s, op).1 == AbsStep(a, op).1
  {
    hide Valid, Abs, AbsOk, Shape, Step, AbsStep, Allowed;
    ValidAbsOk(s);
    StepRefines(s, op);
  }

  // ----- Fifteen readers -----

  const FILE: Name := [97]

  // One empty file with k readers.
  function Readers(k: nat): (a: AbsFs)
    requires k <= HANDLETABLE_SIZE
    ensures |a.views| == HANDLETABLE_SIZE
  {
    AbsFs(map[FILE := []], seq(HANDLETABLE_SIZE, i => if i < k then Some(View(FILE, 0, READ)) else None), FAT_SIZE - 4)
  }

  function Opens(k: nat): (ops: seq<Op>)
    ensures |ops| == k
  {
    seq(k, _ => OpenOp(FILE, READ))
  }

  lemma NextReader(j: nat)
    requires j < HANDLETABLE_SIZE
    ensures AbsOk(Readers(j)) && Allowed(Readers(j), OpenOp(FILE, READ))
    ensures AbsStep(Readers(j), OpenOp(FILE, READ)).0 == Readers(j + 1)
  {
    hide FirstNone;
    var a := Readers(j);
    FirstNoneIs(a.views, 0, j);
    assert a.views[j := Some(View(FILE, 0, READ))] == Readers(j + 1).views;
  }

  lemma FirstNoneIs(v: seq<Option<View>>, i: nat, r: nat)
    requires i <= r <= |v| && (r < |v| ==> v[r].None?) && forall k :: i <= k < r ==> v[k].Some?
    ensures FirstNone(v, i) == r
  {
    hide FirstNone;
  }

  lemma {:induction false} MoreReaders(j: nat, k: nat)
    requires j + k <= HANDLETABLE_SIZE
    ensures AbsOk(Readers(j)) && AllowedRun(Readers(j), Opens(k)) && AbsRun(Readers(j), Opens(k)).0 == Readers(j + k)
    decreases k
  {
    hide AbsOk, AbsStep, Allowed;
    if k == 0 {
      ReadersOk(j);
    } else {
      NextReader(j);
      MoreReaders(j + 1, k - 1);
      assert Opens(k)[0] == OpenOp(FILE, READ) && Opens(k)[1..] == Opens(k - 1);
    }
  }

  lemma ReadersOk(j: nat)
    requires j <= HANDLETABLE_SIZE
    ensures AbsOk(Readers(j))
  {
  }

  // A file is created and closed and then opened k times for reading.
  function ReadersRun(k: nat): seq<Op> { [OpenOp(FILE, WRITE), CloseOp(0)] + Opens(k) }

  lemma FileCreated()
    ensures var a := NewDisk(); var (b, out) := AbsOpen(a, FILE, WRITE);
            && AbsOk(a) && Allowed(a, OpenOp(FILE, WRITE)) && out.result == Ok(0)
            && b == AbsFs(map[FILE := []], NoViews()[0 := Some(View(FILE, 0, WRITE))], FAT_SIZE - 4) && AbsOk(b)
            && AbsClose(b, 0).0 == Readers(0)
  {
    hide FirstNone;
    FirstNoneIs(NoViews(), 0, 0);
    var v := NoViews()[0 := Some(View(FILE, 0, WRITE))];
    assert v[0 := None] == Readers(0).views;
  }

  lemma ReadersReached(k: nat)
    requires k <= HANDLETABLE_SIZE
    ensures Valid(Formatted()) && Shape(Formatted()) && AllowedFrom(Formatted(), ReadersRun(k))
    ensures Runnable(Formatted(), ReadersRun(k))
    ensures var s := Run(Formatted(), ReadersRun(k)).0; Valid(s) && Shape(s) && Abs(s) == Readers(k)
  {
    hide Valid, Abs, AbsOk, AbsOpen, AbsClose, Run, Runnable;
    var a, ops := NewDisk(), ReadersRun(k);
    FormattedIsNew(Blank());
    FileCreated();
    MoreReaders(0, k);
    assert ops[1..][1..] == Opens(k) && ops[0] == OpenOp(FILE, WRITE) && ops[1..][0] == CloseOp(0);
    var b := AbsStep(a, ops[0]).0;
    assert AllowedRun(b, ops[1..]) && AbsRun(b, ops[1..]).0 == Readers(k);
    assert AllowedRun(a, ops) && AbsRun(a, ops).0 == Readers(k);
    RunRefines(Formatted(), ops);
  }

  // ----- Two writers and one free block -----

  // All blocks but one, the last one short of a byte.
  const SIZE := 507 * BLOCK_SIZE + BLOCK_SIZE - 1

  function Filler(): (d: seq<byte>)
    ensures |d| == SIZE
  {
    seq(SIZE, _ => 0)
  }

  // A writer fills the disk up to one block and a byte; then open() gives out
  // another.
  function WritersRun(): seq<Op> { [OpenOp(FILE, WRITE), WriteOp(0, Filler(), SIZE), OpenOp(FILE, WRITE)] }

  lemma FileFilled()
    ensures var b := AbsFs(map[FILE := []], NoViews()[0 := Some(View(FILE, 0, WRITE))], FAT_SIZE - 4);
            && AbsOk(b)
            && AbsWrite(b, 0, Filler(), SIZE).0 ==
               AbsFs(map[FILE := Filler()], NoViews()[0 := Some(View(FILE, SIZE, WRITE))], 1)
  {
    hide Filler;
    var v := NoViews()[0 := Some(View(FILE, 0, WRITE))];
    assert v[0 := Some(View(FILE, SIZE, WRITE))] == NoViews()[0 := Some(View(FILE, SIZE, WRITE))];
    assert Filler()[..SIZE] == Filler();
    assert [] + Filler() == Filler();
  }

  // What the views say of handles 0 and 1.
  lemma OneHandle(s: FsState)
    requires Valid(s) && Shape(s)
    requires Abs(s).views == NoViews()[0 := Some(View(FILE, SIZE, WRITE))] && Abs(s).free == 1
    ensures CountFree(s.fat) == 1
    ensures IsWriter(s.handles[0]) && s.handles[0].offset == SIZE && CStr(s.dir[s.handles[0].dirIndex].name) == FILE
    ensures FreeHandle(s.handles) == 1
  {
    hide Valid, FilesOf, CountFree, CStr, FirstNone, FreeHandleFrom;
    ViewAt(s, 0);
    ViewAt(s, 1);
    FreeHandleIsNone(s);
    FirstNoneIs(Views(s), 0, 1);
  }

  lemma OneWriterReached() returns (s1: FsState, s2: FsState)
    ensures Valid(s2) && Shape(Formatted()) && Shape(s1) && Shape(s2)
    ensures s1 == Step(Formatted(), OpenOp(FILE, WRITE)).0 && s2 == Step(s1, WriteOp(0, Filler(), SIZE)).0
    ensures Abs(s2).views == NoViews()[0 := Some(View(FILE, SIZE, WRITE))] && Abs(s2).free == 1
  {
    hide Valid, Abs, FormatSpec, Blank, Step, AbsOpen, AbsWrite, Shape;
    var s0 := Formatted();
    FormattedIsNew(Blank());
    FileCreated();
    StepTo(s0, OpenOp(FILE, WRITE), NewDisk());
    s1 := Step(s0, OpenOp(FILE, WRITE)).0;
    FileFilled();
    StepTo(s1, WriteOp(0, Filler(), SIZE), Abs(s1));
    s2 := Step(s1, WriteOp(0, Filler(), SIZE)).0;
  }

  lemma SecondOpened(s: FsState) returns (r: FsState, c: Chains)
    requires Valid(s) && Shape(s)
    requires Abs(s).views == NoViews()[0 := Some(View(FILE, SIZE, WRITE))] && Abs(s).free == 1
    ensures r == OpenSpec(s, FILE, WRITE).0
    ensures TwoWriters(r, c, 1, 0) && AtBlockEnd(r, 1) && CountFree(r.fat) == 1
  {
    hide Valid, CountFree, FilesOf, Views, OpenSpec, Shape, TwoWriters, CStr, AtBlockEnd, Abs;
    OneHandle(s);
    c := ValidChains(s);
    SecondWriterOpens(s, c, 0, FILE);
    SecondWriterKeeps(s, FILE);
    r := OpenSpec(s, FILE, WRITE).0;
    BothAtBlockEnd(r, c, 1, 0);
  }

  lemma WritersReached() returns (s: FsState, c: Chains)
    ensures Runnable(Formatted(), WritersRun()) && s == Run(Formatted(), WritersRun()).0
    ensures TwoWriters(s, c, 1, 0) && AtBlockEnd(s, 1) && CountFree(s.fat) == 1
  {
    hide Valid, CountFree, Formatted, OpenSpec, Shape, TwoWriters, Run, Runnable, AtBlockEnd, Abs, Filler;
    var s1, s2 := OneWriterReached();
    s, c := SecondOpened(s2);
    ThreeSteps(Formatted(), WritersRun(), s1, s2, s);
  }

  lemma BothAtBlockEnd(s: FsState, c: Chains, h: int, g: int)
    requires TwoWriters(s, c, h, g) && 0 <= g < |s.handles| && s.handles[g].offset == SIZE
    ensures 0 <= h < |s.handles| && AtBlockEnd(s, h)
  {
    hide StructureOk;
    WritersStand(s, c, h, g);
  }

  lemma SecondWriterKeeps(s: FsState, name: Name)
    requires Valid(s) && Shape(s) && FreeHandle(s.handles) == 1
    requires IsWriter(s.handles[0]) && CStr(s.dir[s.handles[0].dirIndex].name) == name
    ensures var r := OpenSpec(s, name, WRITE).0;
            r.fat == s.fat && |r.handles| == HANDLETABLE_SIZE && r.handles[0] == s.handles[0]
  {
    hide StructureOk, BootOk, CStr, ChainOf, LookupFrom;
    var c := ValidChains(s);
    assert CursorOk(s.handles[0], s.dir, c);
    UniqueNames(s, c);
    LookupOwn(s.dir, s.handles[0].dirIndex);
  }

  lemma ThreeSteps(s: FsState, ops: seq<Op>, s1: FsState, s2: FsState, s3: FsState)
    requires |ops| == 3 && Shape(s) && Shape(s1) && Shape(s2)
    requires forall i :: 0 <= i < 3 && ops[i].WriteOp? ==> ops[i].count <= |ops[i].data|
    requires s1 == Step(s, ops[0]).0 && s2 == Step(s1, ops[1]).0 && s3 == Step(s2, ops[2]).0
    ensures Runnable(s, ops) && Run(s, ops).0 == s3
  {
    hide Shape, Step;
    var o1, o2 := ops[1..], ops[1..][1..];
    assert o1[0] == ops[1] && o2[0] == ops[2] && o2[1..] == [];
    assert Runnable(s3, []) && Run(s3, []).0 == s3;
    assert Runnable(s2, o2) && Run(s2, o2).0 == s3;
    assert Runnable(s1, o1) && Run(s1, o1).0 == s3;
  }

  // In that state one byte through the first writer and one through the second
  // end in the exception for a missing free block.
  lemma MissReached(x: byte, y: byte) returns (s: FsState)
    ensures Runnable(Formatted(), WritersRun()) && s == Run(Formatted(), WritersRun()).0 && Shape(s)
    ensures var (r, out) := WriteSpec(s, 1, [x], 1);
            out == Ok(1) && Shape(r) && WriteSpec(r, 0, [y], 1).1 == Throw(NoFreeBlock)
  {
    hide CountFree, FormatSpec, WriteSpec, WritersRun, Run, Runnable, StructureOk, CursorOk;
    var c;
    s, c := WritersReached();
    WritersStand(s, c, 1, 0);
    SecondWriteIff(s, c, 1, 0, [x], [y]);
  }
}
