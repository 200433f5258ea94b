// The device image: flush() stores the table and the directory as the bytes
// of blocks 1 and 2, the constructor checks the boot block and reads them back.
module FatRemount {
  import opened FatTypes
  import opened FatInvariant
  import opened FatFiles
  import opened FatDirProofs

  // ----- Little-endian images of the in-memory structures -----

  function FatImage(fat: seq<nat>): Block
    requires |fat| == FAT_SIZE
  {
    seq(BLOCK_SIZE, k requires 0 <= k < BLOCK_SIZE =>
      if k % 2 == 0 then fat[k / 2] % 256 else fat[k / 2] / 256 % 256)
  }

  function HalfWord(low: nat, high: nat): nat { low + 0x100 * high }

  function FatOfImage(b: Block): (fat: seq<nat>)
    ensures |fat| == FAT_SIZE
  {
    seq(FAT_SIZE, i requires 0 <= i < FAT_SIZE => HalfWord(b[2 * i], b[2 * i + 1]))
  }

  // A 32-bit long as an unsigned number, and back.
  function Unsigned32(n: int): nat { n % 0x1_0000_0000 }

  function Signed32(n: nat): int { if n < 0x8000_0000 then n else n - 0x1_0000_0000 }

  // Byte k of the 32 bytes of a directory entry.
  function EntryByte(e: DirEntry, k: nat): byte
    requires k < 32
  {
    if k < 24 then e.name[k]
    else if k == 24 then Unsigned32(e.size) % 0x100
    else if k == 25 then Unsigned32(e.size) / 0x100 % 0x100
    else if k == 26 then Unsigned32(e.size) / 0x1_0000 % 0x100
    else if k == 27 then Unsigned32(e.size) / 0x100_0000 % 0x100
    else if k == 28 then e.start % 0x100
    else if k == 29 then e.start / 0x100 % 0x100
    else if k == 30 then e.inUse
    else e.pad
  }

  function DirImage(dir: seq<DirEntry>): Block
    requires |dir| == DIR_SIZE
  {
    seq(BLOCK_SIZE, k requires 0 <= k < BLOCK_SIZE => EntryByte(dir[k / 32], k % 32))
  }

  function EntryOf(b: seq<byte>): DirEntry
    requires |b| == 32
  {
    DirEntry(b[..24], Signed32(HalfWord(b[24], b[25]) + 0x1_0000 * HalfWord(b[26], b[27])), HalfWord(b[28], b[29]),
             b[30], b[31])
  }

  function DirOfImage(b: Block): (dir: seq<DirEntry>)
    ensures |dir| == DIR_SIZE
  {
    seq(DIR_SIZE, i requires 0 <= i < DIR_SIZE => EntryOf(b[32 * i..32 * i + 32]))
  }

  // ----- flush and mount -----

  function FlushSpec(s: FsState): FsState
    requires |s.fat| == FAT_SIZE && |s.dir| == DIR_SIZE && |s.disk| >= FAT_SIZE
  {
    if s.formatted then s.(disk := s.disk[FAT_BLOCK := FatImage(s.fat)][ROOT_BLOCK := DirImage(s.dir)]) else s
  }

  // A file system object constructed on the device of s; without a valid boot
  // block the table and the directory stay as they happened to be.
  function MountSpec(s: FsState): FsState
    requires |s.disk| >= FAT_SIZE
  {
    var formatted := BootOk(s.disk[BOOT_BLOCK]);
    FsState(
      formatted,
      if formatted then FatOfImage(s.disk[FAT_BLOCK]) else s.fat,
      if formatted then DirOfImage(s.disk[ROOT_BLOCK]) else s.dir,
      seq(|s.handles|, h requires 0 <= h < |s.handles| => s.handles[h].(inUse := false)),
      s.disk)
  }

  function RemountSpec(s: FsState): FsState
    requires |s.fat| == FAT_SIZE && |s.dir| == DIR_SIZE && |s.disk| >= FAT_SIZE
  {
    MountSpec(FlushSpec(s))
  }

  // ----- Round trips -----

  lemma TwoBytes(n: nat)
    requires n < 0x1_0000
    ensures n % 256 + 256 * (n / 256 % 256) == n
  {
  }

  lemma FourBytes(n: nat)
    requires n < 0x1_0000_0000
    ensures n % 0x100 + 0x100 * (n / 0x100 % 0x100) + 0x1_0000 * (n / 0x1_0000 % 0x100)
            + 0x100_0000 * (n / 0x100_0000 % 0x100) == n
  {
    var a, b, c := n / 0x100, n / 0x1_0000, n / 0x100_0000;
    assert a / 0x100 == b && b / 0x100 == c;
  }

  // Every table of 16-bit entries survives the trip to the device and back.
  lemma FatRoundTrip(fat: seq<nat>)
    requires |fat| == FAT_SIZE && forall b :: 0 <= b < FAT_SIZE ==> fat[b] < 0x1_0000
    ensures FatOfImage(FatImage(fat)) == fat
  {
    forall i | 0 <= i < FAT_SIZE
      ensures FatOfImage(FatImage(fat))[i] == fat[i]
    {
      TwoBytes(fat[i]);
      assert (2 * i) / 2 == i && (2 * i) % 2 == 0 && (2 * i + 1) / 2 == i && (2 * i + 1) % 2 == 1;
    }
  }

  lemma SignedRoundTrip(n: int)
    requires -0x8000_0000 <= n < 0x8000_0000
    ensures Signed32(Unsigned32(n)) == n
  {
  }

  lemma EntryRoundTrip(e: DirEntry, b: seq<byte>)
    requires -0x8000_0000 <= e.size < 0x8000_0000 && e.start < 0x1_0000
    requires |b| == 32 && forall k :: 0 <= k < 32 ==> b[k] == EntryByte(e, k)
    ensures EntryOf(b) == e
  {
    FourBytes(Unsigned32(e.size));
    SignedRoundTrip(e.size);
    TwoBytes(e.start);
    assert b[..24] == e.name;
  }

  // Every directory whose sizes and block numbers fit their fields does too.
  lemma DirRoundTrip(dir: seq<DirEntry>)
    requires |dir| == DIR_SIZE
    requires forall i :: 0 <= i < DIR_SIZE ==>
               -0x8000_0000 <= dir[i].size < 0x8000_0000 && dir[i].start < 0x1_0000
    ensures DirOfImage(DirImage(dir)) == dir
  {
    hide EntryByte, EntryOf;
    forall i | 0 <= i < DIR_SIZE
      ensures DirOfImage(DirImage(dir))[i] == dir[i]
    {
      var b := DirImage(dir)[32 * i..32 * i + 32];
      forall k | 0 <= k < 32
        ensures b[k] == EntryByte(dir[i], k)
      {
        assert (32 * i + k) / 32 == i && (32 * i + k) % 32 == k;
      }
      EntryRoundTrip(dir[i], b);
    }
  }

  // Sizes and block numbers of a valid state fit their fields.
  lemma FieldsFit(fat: seq<nat>, dir: seq<DirEntry>, c: Chains)
    requires StructureOk(fat, dir, c)
    ensures forall i :: 0 <= i < DIR_SIZE ==> 0 <= dir[i].size < FAT_SIZE * BLOCK_SIZE && dir[i].start < FAT_SIZE
  {
    hide NamesUnique, NoneLost, Disjoint, IsChain, ChainOf;
    forall i | 0 <= i < DIR_SIZE
      ensures 0 <= dir[i].size < FAT_SIZE * BLOCK_SIZE
    {
      if Used(dir[i]) { EntryChain(fat, dir, c, i); } else { assert EntryOk(fat, dir[i], c[i]); }
    }
  }

  // Flushing stores nothing on the blocks of a file.
  lemma FlushKeepsFiles(s: FsState, c: Chains)
    requires ValidWith(s, c)
    ensures Shape(FlushSpec(s)) && Contents(FlushSpec(s), c) == Contents(s, c)
  {
    hide NamesUnique, NoneLost, HandlesOk, FatImage, DirImage, ByteAt, BootOk;
    var r := FlushSpec(s);
    forall i | 0 <= i < DIR_SIZE
      ensures SlotBytes(r, c, i) == SlotBytes(s, c, i)
    {
      if Used(s.dir[i]) {
        forall k: nat | k < s.dir[i].size
          ensures ByteAt(r.disk, c[i], k) == ByteAt(s.disk, c[i], k)
        {
          DataByteStays(s, c, i, k);
        }
      }
    }
  }

  lemma DataByteStays(s: FsState, c: Chains, i: nat, k: nat)
    requires ValidWith(s, c) && i < DIR_SIZE && Used(s.dir[i])
    ensures ByteAt(FlushSpec(s).disk, c[i], k) == ByteAt(s.disk, c[i], k)
  {
    hide NamesUnique, NoneLost, HandlesOk, FatImage, DirImage, BootOk, Disjoint;
    if k / BLOCK_SIZE < |c[i]| { LinkOnChain(s.fat, s.dir, c, i, k / BLOCK_SIZE); }
  }

  // What the constructor finds after the destructor has flushed.
  lemma RemountIs(s: FsState, c: Chains)
    requires ValidWith(s, c)
    ensures var r := RemountSpec(s);
            && r.formatted && r.fat == s.fat && r.dir == s.dir
            && |r.handles| == |s.handles| && NothingOpen(r)
            && r.disk == FlushSpec(s).disk
  {
    hide NamesUnique, NoneLost, Disjoint, HandlesOk, FatImage, DirImage, FatOfImage, DirOfImage, BootOk, EntryOk;
    FieldsFit(s.fat, s.dir, c);
    FatRoundTrip(s.fat);
    DirRoundTrip(s.dir);
  }

  // Unmounting and mounting again recognises the disk as formatted and recovers
  // the same files; all handles are closed.
  lemma RemountRecovers(s: FsState)
    requires Valid(s)
    ensures Valid(RemountSpec(s)) && NothingOpen(RemountSpec(s))
    ensures FilesOf(RemountSpec(s)) == FilesOf(s)
    ensures RemountSpec(s).fat == s.fat && RemountSpec(s).dir == s.dir
  {
    hide StructureOk, FlushSpec, RemountSpec, BootOk, ByteAt;
    var c := ValidChains(s);
    RemountIs(s, c);
    var r := RemountSpec(s);
    FlushKeepsFiles(s, c);
    FlushKeepsBoot(s, c);
    ClosedHandlesOk(r.handles, r.dir, c);
    ValidIs(r, c);
    assert Contents(r, c) == Contents(FlushSpec(s), c);
  }

  lemma FlushKeepsBoot(s: FsState, c: Chains)
    requires ValidWith(s, c)
    ensures |FlushSpec(s).disk| == |s.disk| && FlushSpec(s).disk[BOOT_BLOCK] == s.disk[BOOT_BLOCK]
    ensures |c| == DIR_SIZE
  {
    hide StructureOk, HandlesOk, BootOk, FatImage, DirImage;
    assert |c| == DIR_SIZE by { ValidLengths(s, c); }
  }

  lemma ClosedHandlesOk(handles: seq<Handle>, dir: seq<DirEntry>, c: Chains)
    requires |dir| == |c| == DIR_SIZE && forall h :: 0 <= h < |handles| ==> !handles[h].inUse
    ensures HandlesOk(handles, dir, c)
  {
  }
}
