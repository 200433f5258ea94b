// The state and the device of the FAT simulator in plain numbers.
module FatLayout {
  import opened FatTypes
  import opened FatInvariant
  import opened FatOps
  import opened FatFiles
  import opened FatDirProofs
  import opened FatRemount

  // ----- The boot block -----

  // The checksum is the sum of the bytes modulo 256.
  lemma ByteSumOne(x: byte)
    ensures ByteSum([]) == 0 && ByteSum([x]) == x
  {
    assert [x][..0] == [];
  }

  lemma {:induction false} ByteSumConcat(a: seq<byte>, b: seq<byte>)
    ensures ByteSum(a + b) == (ByteSum(a) + ByteSum(b)) % 256
  {
    if b == [] {
      assert a + b == a;
    } else {
      var m := |b| - 1;
      ByteSumConcat(a, b[..m]);
      assert (a + b)[..|a + b| - 1] == a + b[..m];
      SumMore(ByteSum(a), ByteSum(b[..m]), b[m]);
    }
  }

  lemma SumMore(x: int, y: int, z: int)
    ensures ((x + y) % 256 + z) % 256 == (x + (y + z) % 256) % 256
  {
  }

  lemma {:induction false} ByteSumZeros(z: seq<byte>)
    requires forall k :: 0 <= k < |z| ==> z[k] == 0
    ensures ByteSum(z) == 0
  {
    if z != [] { ByteSumZeros(z[..|z| - 1]); }
  }

  // The boot block that format() writes.
  lemma BootBlockBytes()
    ensures BootBlock() == [0x6E] + seq(1022, _ => 0) + [0x92]
  {
    hide ByteSum;
    var zeros: seq<byte> := seq(1022, _ => 0);
    var b := Zeros(BLOCK_SIZE)[0 := FORMATTED];
    ByteSumZeros(zeros);
    ByteSumOne(0x6E);
    ByteSumConcat([0x6E], zeros);
    assert b[..1023] == [0x6E] + zeros;
  }

  // The constructor accepts it, and no block with another byte in one place.
  lemma BootBlockIff(b: Block, i: nat)
    requires i < 1024 && forall k :: 0 <= k < 1024 && k != i ==> b[k] == BootBlock()[k]
    ensures BootOk(b) <==> b[i] == BootBlock()[i]
  {
    hide ByteSum;
    var c, zeros: seq<byte> := BootBlock(), seq(1022, _ => 0);
    BootBlockBytes();
    ByteSumZeros(zeros);
    ByteSumOne(0x6E);
    ByteSumOne(0x92);
    ByteSumConcat([0x6E], zeros);
    ByteSumConcat([0x6E] + zeros, [0x92]);
    SumInParts(b, i);
    SumInParts(c, i);
    assert b[..i] == c[..i] && b[i + 1..] == c[i + 1..];
  }

  lemma SumInParts(b: seq<byte>, i: nat)
    requires i < |b|
    ensures ByteSum(b) == ((ByteSum(b[..i]) + b[i]) % 256 + ByteSum(b[i + 1..])) % 256
  {
    hide ByteSum;
    ByteSumOne(b[i]);
    ByteSumConcat(b[..i], [b[i]]);
    ByteSumConcat(b[..i] + [b[i]], b[i + 1..]);
    assert b == b[..i] + [b[i]] + b[i + 1..];
  }

  // ----- Tables on the device -----

  // flush() stores the links in block 1, two bytes each, low byte first, ...
  lemma LinkStored(s: FsState, b: nat)
    requires Shape(s) && s.formatted && b < 512
    ensures var t := FlushSpec(s).disk;
            && |t| == |s.disk| && (forall i :: 0 <= i < |t| && i != 1 && i != 2 ==> t[i] == s.disk[i])
            && t[1][2 * b] as int + 256 * t[1][2 * b + 1] as int == s.fat[b]
  {
    TwoBytes(s.fat[b]);
  }

  // ... and the entries in block 2, 32 bytes each: name, size, first block, flag.
  lemma EntryStored(s: FsState, d: nat)
    requires Shape(s) && s.formatted && d < 32 && -0x8000_0000 <= s.dir[d].size < 0x8000_0000
    ensures var t, e, at := FlushSpec(s).disk[2], s.dir[d], 32 * d;
            var size := t[at + 24] as int + 256 * t[at + 25] as int + 65536 * t[at + 26] as int
                        + 16777216 * t[at + 27] as int;
            && t[at..at + 24] == e.name
            && size == (if e.size >= 0 then e.size else e.size + 0x1_0000_0000)
            && t[at + 28] as int + 256 * t[at + 29] as int == e.start
            && t[at + 30] == e.inUse && t[at + 31] == e.pad
  {
    hide FatImage, DirImage, EntryByte;
    var t, e, at := FlushSpec(s).disk[2], s.dir[d], 32 * d;
    forall k | 0 <= k < 32 ensures t[at..at + 32][k] == EntryByte(e, k) { EntryByteStored(s, d, k); }
    EntryFields(t[at..at + 32], e);
  }

  lemma EntryByteStored(s: FsState, d: nat, k: nat)
    requires Shape(s) && s.formatted && d < 32 && k < 32
    ensures FlushSpec(s).disk[2][32 * d..32 * d + 32][k] == EntryByte(s.dir[d], k)
  {
    hide FatImage, EntryByte;
    assert (32 * d + k) / 32 == d && (32 * d + k) % 32 == k;
  }

  lemma EntryFields(x: seq<byte>, e: DirEntry)
    requires |x| == 32 && forall k :: 0 <= k < 32 ==> x[k] == EntryByte(e, k)
    requires e.start < 65536 && -0x8000_0000 <= e.size < 0x8000_0000
    ensures x[24] as int + 256 * x[25] as int + 65536 * x[26] as int + 16777216 * x[27] as int ==
            if e.size >= 0 then e.size else e.size + 0x1_0000_0000
    ensures x[..24] == e.name && x[28] as int + 256 * x[29] as int == e.start && x[30] == e.inUse && x[31] == e.pad
  {
    FourBytes(Unsigned32(e.size));
    TwoBytes(e.start);
  }

  // What is on the device after format() and the destructor.
  lemma FormattedDisk(s: FsState)
    requires |s.disk| >= 512
    ensures var t := FlushSpec(FormatSpec(s)).disk;
            && |t| == |s.disk|
            && t[0] == [0x6E] + seq(1022, _ => 0) + [0x92]
            && t[1] == [1, 0, 1, 0, 1, 0] + seq(1018, _ => 0)
            && t[2] == seq(1024, _ => 0)
            && forall i :: 3 <= i < |t| ==> t[i] == s.disk[i]
  {
    hide BootBlock;
    BootBlockBytes();
  }

  // ----- Contents -----

  // The blocks of a chain laid end to end.
  ghost function Joined(disk: seq<Block>, ch: seq<nat>): (r: seq<byte>)
    requires forall j :: 0 <= j < |ch| ==> ch[j] < |disk|
    ensures |r| == 1024 * |ch|
  {
    if ch == [] then [] else Joined(disk, ch[..|ch| - 1]) + disk[ch[|ch| - 1]]
  }

  // A file is the beginning of its blocks laid end to end.
  lemma {:induction false} FileIsBlocks(disk: seq<Block>, ch: seq<nat>, size: nat)
    requires size <= 1024 * |ch| && forall j :: 0 <= j < |ch| ==> ch[j] < |disk|
    ensures FileBytes(disk, ch, size) == Joined(disk, ch)[..size]
  {
    forall k | 0 <= k < size ensures ByteAt(disk, ch, k) == Joined(disk, ch)[k] { JoinedByte(disk, ch, k); }
  }

  lemma {:induction false} JoinedByte(disk: seq<Block>, ch: seq<nat>, k: nat)
    requires k < 1024 * |ch| && forall j :: 0 <= j < |ch| ==> ch[j] < |disk|
    ensures ByteAt(disk, ch, k) == Joined(disk, ch)[k]
  {
    var m := |ch| - 1;
    if k < 1024 * m {
      JoinedByte(disk, ch[..m], k);
      assert k / 1024 < m && ch[..m][k / 1024] == ch[k / 1024];
    } else {
      assert k / 1024 == m && k % 1024 == k - 1024 * m;
    }
  }

  // The contents of a file in a valid state, from the directory entry, the links and
  // the device.
  lemma FileOnDisk(s: FsState, d: nat, ch: seq<nat>)
    requires Valid(s) && Shape(s) && d < 32 && s.dir[d].inUse != 0
    requires ch != [] && ch[0] == s.dir[d].start && forall j :: 0 <= j < |ch| ==> ch[j] < 512
    requires forall j, k :: 0 <= j && k == j + 1 && k < |ch| ==> s.fat[ch[j]] == ch[k] && s.fat[ch[j]] != 2
    requires s.fat[ch[|ch| - 1]] == 2
    ensures CStr(s.dir[d].name) in FilesOf(s) && 0 <= s.dir[d].size && |ch| == s.dir[d].size / 1024 + 1
    ensures FilesOf(s)[CStr(s.dir[d].name)] == Joined(s.disk, ch)[..s.dir[d].size]
  {
    hide HandlesOk, BootOk, ChainOf, CStr, NamesUnique, Disjoint, NoneLost, LookupFrom;
    var c := ValidChains(s);
    assert EntryOk(s.fat, s.dir[d], c[d]);
    ChainsAgree(s.fat, s.dir[d].start, ch, c[d]);
    UniqueNames(s, c);
    LookupOwn(s.dir, d);
    FileIsBlocks(s.disk, ch, s.dir[d].size);
  }
}
