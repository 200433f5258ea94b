// The structural invariant of the FAT simulator and the map from names to
// byte sequences that it represents.
module FatInvariant {
  import opened FatTypes

  // ----- Block chains -----

  // ch is a walk through the table from start that passes no EOF entry before
  // its last block.
  ghost predicate Path(fat: seq<nat>, start: nat, ch: seq<nat>) {
    && ch != []
    && ch[0] == start
    && (forall j :: 0 <= j < |ch| ==> ch[j] < |fat|)
    && (forall j, k :: 0 <= j && k == j + 1 && k < |ch| ==>
          fat[ch[j]] == ch[k] && fat[ch[j]] != EOF_FAT_ENTRY)
  }

  // ... and that ends in EOF.
  ghost predicate IsChain(fat: seq<nat>, start: nat, ch: seq<nat>) {
    Path(fat, start, ch) && fat[ch[|ch| - 1]] == EOF_FAT_ENTRY
  }

  ghost predicate LinksInRange(fat: seq<nat>) {
    |fat| == FAT_SIZE && forall b :: 0 <= b < FAT_SIZE ==> fat[b] < FAT_SIZE
  }

  // Following the links from b, at most fuel of them.
  ghost function Chain(fat: seq<nat>, b: nat, fuel: nat): seq<nat>
    requires LinksInRange(fat) && b < FAT_SIZE
    decreases fuel
  {
    if fuel == 0 || fat[b] == EOF_FAT_ENTRY then [b] else [b] + Chain(fat, fat[b], fuel - 1)
  }

  ghost function ChainOf(fat: seq<nat>, b: nat): seq<nat>
    requires LinksInRange(fat) && b < FAT_SIZE
  {
    Chain(fat, b, FAT_SIZE - 1)
  }

  // Walks are deterministic.
  lemma {:induction false} PathsAgree(fat: seq<nat>, start: nat, p: seq<nat>, q: seq<nat>)
    requires Path(fat, start, p) && Path(fat, start, q) && |p| <= |q|
    ensures p == q[..|p|]
  {
    if |p| > 1 {
      var n := |p| - 1;
      PathsAgree(fat, start, p[..n], q);
      assert p[n - 1] == p[..n][n - 1] == q[n - 1];
      assert p == p[..n] + [p[n]];
      assert q[..|p|] == q[..n] + [q[n]];
    }
  }

  lemma ChainsAgree(fat: seq<nat>, start: nat, p: seq<nat>, q: seq<nat>)
    requires IsChain(fat, start, p) && IsChain(fat, start, q)
    ensures p == q
  {
    ChainNotShorter(fat, start, p, q);
    ChainNotShorter(fat, start, q, p);
    PathsAgree(fat, start, p, q);
  }

  lemma StepOnPath(fat: seq<nat>, start: nat, ch: seq<nat>, j: nat)
    requires Path(fat, start, ch) && j < |ch|
    ensures j + 1 < |ch| ==> fat[ch[j]] == ch[j + 1] && fat[ch[j]] != EOF_FAT_ENTRY
    ensures fat[ch[j]] == EOF_FAT_ENTRY ==> j == |ch| - 1
  {
    var next := if j + 1 < |ch| then ch[j + 1] else EOF_FAT_ENTRY;
  }

  lemma ChainNotShorter(fat: seq<nat>, start: nat, p: seq<nat>, q: seq<nat>)
    requires IsChain(fat, start, p) && Path(fat, start, q)
    ensures |q| <= |p|
  {
    if |p| <= |q| {
      PathsAgree(fat, start, p, q);
      StepOnPath(fat, start, q, |p| - 1);
    }
  }

  lemma {:induction false} ChainIs(fat: seq<nat>, b: nat, ch: seq<nat>, fuel: nat)
    requires LinksInRange(fat) && b < FAT_SIZE
    requires IsChain(fat, b, ch) && |ch| <= fuel + 1
    ensures Chain(fat, b, fuel) == ch
    decreases fuel
  {
    if |ch| > 1 {
      var k := 1;
      assert k == 0 + 1 && fat[ch[0]] == ch[k];
      var rest := ch[1..];
      assert IsChain(fat, fat[b], rest) by {
        forall j, k' | 0 <= j && k' == j + 1 && k' < |rest|
          ensures fat[rest[j]] == rest[k'] && fat[rest[j]] != EOF_FAT_ENTRY
        {
          assert fat[ch[j + 1]] == ch[k' + 1];
        }
      }
      ChainIs(fat, fat[b], rest, fuel - 1);
      assert ch == [b] + rest;
    }
  }

  // ----- The invariant -----

  // One chain per directory slot, empty for an unused slot.
  type Chains = seq<seq<nat>>

  predicate Used(e: DirEntry) { e.inUse != 0 }

  ghost predicate Disjoint(c: Chains) {
    forall i, j, i', j' ::
      0 <= i < |c| && 0 <= j < |c[i]| && 0 <= i' < |c| && 0 <= j' < |c[i']| && c[i][j] == c[i'][j'] ==>
        i == i' && j == j'
  }

  ghost predicate Reserved(fat: seq<nat>) {
    && |fat| == FAT_SIZE
    && fat[BOOT_BLOCK] == RESERVED_FAT_ENTRY
    && fat[FAT_BLOCK] == RESERVED_FAT_ENTRY
    && fat[ROOT_BLOCK] == RESERVED_FAT_ENTRY
  }

  // Every block behind the reserved ones is free or on a chain.
  ghost predicate NoneLost(fat: seq<nat>, c: Chains)
    requires |fat| == FAT_SIZE
  {
    forall b :: 3 <= b < FAT_SIZE && fat[b] != FREE_FAT_ENTRY ==> OnChain(c, b)
  }

  ghost predicate OnChain(c: Chains, b: nat) {
    exists i :: 0 <= i < |c| && b in c[i]
  }

  // The chain of one directory entry: it stays behind the reserved blocks and
  // is one block longer than the number of full blocks of the file.
  ghost predicate EntryOk(fat: seq<nat>, e: DirEntry, ch: seq<nat>) {
    if Used(e) then
      && e.inUse == 1
      && 0 in e.name
      && 0 <= e.size
      && IsChain(fat, e.start, ch)
      && (forall j :: 0 <= j < |ch| ==> 3 <= ch[j])
      && |ch| == e.size / BLOCK_SIZE + 1
    else
      // a removed file leaves its size behind
      ch == [] && 0 <= e.size < FAT_SIZE * BLOCK_SIZE
  }

  ghost predicate NamesUnique(dir: seq<DirEntry>) {
    forall i, i' {:trigger CStr(dir[i].name), CStr(dir[i'].name)} ::
      0 <= i < i' < |dir| && Used(dir[i]) && Used(dir[i']) ==> CStr(dir[i].name) != CStr(dir[i'].name)
  }

  // The parts of the state that live on the device between mounts.
  ghost predicate StructureOk(fat: seq<nat>, dir: seq<DirEntry>, c: Chains) {
    && LinksInRange(fat)
    && |dir| == |c| == DIR_SIZE
    && Reserved(fat)
    && (forall i :: 0 <= i < DIR_SIZE ==> dir[i].start < FAT_SIZE && EntryOk(fat, dir[i], c[i]))
    && NamesUnique(dir)
    && Disjoint(c)
    && NoneLost(fat, c)
  }

  // The cursor of an open handle points at the block that holds its offset;
  // a WRITE handle sits at the end of its file.
  ghost predicate CursorOk(e: Handle, dir: seq<DirEntry>, c: Chains)
    requires |dir| == |c| == DIR_SIZE
  {
    e.inUse ==>
      && 0 <= e.dirIndex < DIR_SIZE
      && Used(dir[e.dirIndex])
      && 0 <= e.offset <= dir[e.dirIndex].size
      && e.offset / BLOCK_SIZE < |c[e.dirIndex]|
      && e.current == c[e.dirIndex][e.offset / BLOCK_SIZE]
      && (e.mode == WRITE ==> e.offset == dir[e.dirIndex].size)
  }

  // At most one WRITE handle per file.
  predicate OneWriter(handles: seq<Handle>) {
    forall h, h' :: 0 <= h < h' < |handles| && IsWriter(handles[h]) && IsWriter(handles[h']) ==>
      handles[h].dirIndex != handles[h'].dirIndex
  }

  predicate IsWriter(e: Handle) { e.inUse && e.mode == WRITE }

  ghost predicate HandlesOk(handles: seq<Handle>, dir: seq<DirEntry>, c: Chains)
    requires |dir| == |c| == DIR_SIZE
  {
    && (forall h :: 0 <= h < |handles| ==> CursorOk(handles[h], dir, c))
    && OneWriter(handles)
  }

  // Sum of the bytes of a block modulo 256, as the boot checksum computes it.
  function ByteSum(b: seq<byte>): (r: byte) {
    if b == [] then 0 else (ByteSum(b[..|b| - 1]) + b[|b| - 1]) % 256
  }

  predicate BootOk(b: Block) {
    b[0] == FORMATTED && ByteSum(b) == 0
  }

  ghost predicate ValidWith(s: FsState, c: Chains) {
    && Shape(s)
    && s.formatted
    && BootOk(s.disk[BOOT_BLOCK])
    && StructureOk(s.fat, s.dir, c)
    && HandlesOk(s.handles, s.dir, c)
  }

  ghost function ChainsOf(fat: seq<nat>, dir: seq<DirEntry>): Chains
    requires LinksInRange(fat)
    requires |dir| == DIR_SIZE && forall i :: 0 <= i < DIR_SIZE ==> dir[i].start < FAT_SIZE
  {
    seq(DIR_SIZE, i requires 0 <= i < DIR_SIZE => if Used(dir[i]) then ChainOf(fat, dir[i].start) else [])
  }

  // A formatted file system in good order.
  ghost predicate Valid(s: FsState) {
    exists c :: ValidWith(s, c)
  }

  // ----- Counting blocks -----

  // The blocks of the first k chains.
  ghost function BlockSet(c: Chains, k: nat): set<nat>
    requires k <= |c|
  {
    if k == 0 then {} else BlockSet(c, k - 1) + SeqSet(c[k - 1])
  }

  ghost function SeqSet(ch: seq<nat>): set<nat> { set b | b in ch }

  // Number of blocks on the first k chains.
  ghost function ChainBlocks(c: Chains, k: nat): nat
    requires k <= |c|
  {
    if k == 0 then 0 else ChainBlocks(c, k - 1) + |c[k - 1]|
  }

  lemma {:induction false} SeqSetSize(ch: seq<nat>)
    requires forall j, j' :: 0 <= j < j' < |ch| ==> ch[j] != ch[j']
    ensures |SeqSet(ch)| == |ch|
  {
    if ch != [] {
      var n := |ch| - 1;
      SeqSetSize(ch[..n]);
      assert SeqSet(ch) == SeqSet(ch[..n]) + {ch[n]};
      assert ch[n] !in ch[..n];
    } else {
      assert SeqSet(ch) == {};
    }
  }

  lemma {:induction false} BlockSetMember(c: Chains, k: nat, b: nat)
    requires k <= |c|
    ensures b in BlockSet(c, k) <==> exists i :: 0 <= i < k && b in c[i]
  {
    if k > 0 { BlockSetMember(c, k - 1, b); }
  }

  lemma {:induction false} BlockSetSize(c: Chains, k: nat)
    requires k <= |c| && Disjoint(c)
    ensures |BlockSet(c, k)| == ChainBlocks(c, k)
  {
    if k > 0 {
      BlockSetSize(c, k - 1);
      SeqSetSize(c[k - 1]);
      var earlier, last := BlockSet(c, k - 1), SeqSet(c[k - 1]);
      assert earlier !! last by {
        forall b | b in earlier
          ensures b !in last
        {
          BlockSetMember(c, k - 1, b);
          var i :| 0 <= i < k - 1 && b in c[i];
          var j :| 0 <= j < |c[i]| && c[i][j] == b;
        }
      }
    }
  }

  ghost function FreeSet(fat: seq<nat>): set<nat> {
    set b: nat | b < |fat| && fat[b] == FREE_FAT_ENTRY
  }

  lemma {:induction false} FreeSetSize(fat: seq<nat>)
    ensures |FreeSet(fat)| == CountFree(fat)
  {
    if fat == [] {
      assert FreeSet(fat) == {};
    } else {
      var n := |fat| - 1;
      FreeSetSize(fat[..n]);
      if fat[n] == FREE_FAT_ENTRY {
        assert FreeSet(fat) == FreeSet(fat[..n]) + {n};
      } else {
        assert FreeSet(fat) == FreeSet(fat[..n]);
      }
    }
  }

  ghost function Below(n: nat): (r: set<nat>)
    ensures forall b: nat :: b in r <==> b < n
    ensures |r| == n
  {
    if n == 0 then {} else Below(n - 1) + {n - 1}
  }

  // Repetition-free walks fit in the table.
  lemma Pigeonhole(ch: seq<nat>, n: nat)
    requires forall j :: 0 <= j < |ch| ==> ch[j] < n
    requires forall j, j' :: 0 <= j < j' < |ch| ==> ch[j] != ch[j']
    ensures |ch| <= n
  {
    SeqSetSize(ch);
    SubsetSize(SeqSet(ch), Below(n));
  }

  lemma SubsetSize(a: set<nat>, b: set<nat>)
    requires a <= b
    ensures |a| <= |b|
  {
    assert b == a + (b - a);
  }

  // No block is lost: every one of the 509 data blocks is free or on exactly
  // one chain.
  lemma BlocksConserved(fat: seq<nat>, dir: seq<DirEntry>, c: Chains)
    requires StructureOk(fat, dir, c)
    ensures CountFree(fat) + ChainBlocks(c, DIR_SIZE) == FAT_SIZE - 3
  {
    BlockSetSize(c, DIR_SIZE);
    ChainedBlocks(fat, dir, c);
    PartitionSize(fat, BlockSet(c, DIR_SIZE));
  }

  lemma PartitionSize(fat: seq<nat>, chained: set<nat>)
    requires Reserved(fat)
    requires forall b :: b in chained <==> 3 <= b < FAT_SIZE && fat[b] != FREE_FAT_ENTRY
    ensures CountFree(fat) + |chained| == FAT_SIZE - 3
  {
    var free := FreeSet(fat);
    FreeSetSize(fat);
    DisjointSize(free, chained);
    RangeSize(free + chained, |fat|);
  }

  lemma RangeSize(data: set<nat>, n: nat)
    requires 3 <= n
    requires forall b :: b in data <==> 3 <= b < n
    ensures |data| == n - 3
  {
    var low, all := Below(3), Below(n);
    assert low !! data;
    DisjointSize(low, data);
    assert forall b :: b in all <==> b in low || b in data;
    assert all == low + data;
  }

  lemma DisjointSize(a: set<nat>, b: set<nat>)
    requires a !! b
    ensures |a + b| == |a| + |b|
  {
  }

  lemma ChainedBlocks(fat: seq<nat>, dir: seq<DirEntry>, c: Chains)
    requires StructureOk(fat, dir, c)
    ensures forall b :: b in BlockSet(c, DIR_SIZE) <==> 3 <= b < FAT_SIZE && fat[b] != FREE_FAT_ENTRY
  {
    forall b: nat
      ensures b in BlockSet(c, DIR_SIZE) <==> 3 <= b < FAT_SIZE && fat[b] != FREE_FAT_ENTRY
    {
      BlockSetMember(c, DIR_SIZE, b);
      if b in BlockSet(c, DIR_SIZE) {
        var i :| 0 <= i < DIR_SIZE && b in c[i];
        var j :| 0 <= j < |c[i]| && c[i][j] == b;
        LinkOnChain(fat, dir, c, i, j);
      } else if 3 <= b < FAT_SIZE {
        assert !OnChain(c, b);
      }
    }
  }

  // What the table holds at a block that is on a chain.
  lemma LinkOnChain(fat: seq<nat>, dir: seq<DirEntry>, c: Chains, i: nat, j: nat)
    requires StructureOk(fat, dir, c)
    requires i < DIR_SIZE && j < |c[i]|
    ensures 3 <= c[i][j] < FAT_SIZE
    ensures fat[c[i][j]] == if j + 1 < |c[i]| then c[i][j + 1] else EOF_FAT_ENTRY
    ensures fat[c[i][j]] != FREE_FAT_ENTRY && fat[c[i][j]] != RESERVED_FAT_ENTRY
  {
    assert EntryOk(fat, dir[i], c[i]);
    if j + 1 < |c[i]| {
      var k := j + 1;
      assert fat[c[i][j]] == c[i][k];
    }
  }

  // Chains are determined by the table, so an explicit family of chains is as
  // good as the computed one.
  lemma ChainsDetermined(fat: seq<nat>, dir: seq<DirEntry>, c: Chains)
    requires StructureOk(fat, dir, c)
    ensures ChainsOf(fat, dir) == c
  {
    forall i | 0 <= i < DIR_SIZE
      ensures ChainsOf(fat, dir)[i] == c[i]
    {
      assert EntryOk(fat, dir[i], c[i]);
      if Used(dir[i]) {
        Pigeonhole(c[i], FAT_SIZE);
        ChainIs(fat, dir[i].start, c[i], FAT_SIZE - 1);
      }
    }
  }

  lemma ValidChains(s: FsState) returns (c: Chains)
    requires Valid(s)
    ensures Shape(s) && c == ChainsOf(s.fat, s.dir) && ValidWith(s, c)
  {
    c :| ValidWith(s, c);
    ChainsDetermined(s.fat, s.dir, c);
  }

  lemma ValidIs(s: FsState, c: Chains)
    requires ValidWith(s, c)
    ensures Valid(s) && ChainsOf(s.fat, s.dir) == c
  {
    ChainsDetermined(s.fat, s.dir, c);
  }
}
