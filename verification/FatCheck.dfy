// What FileSystem::check() decides, on any table whose links are in range.
module FatCheck {
  import opened FatTypes
  import opened FatInvariant
  import opened FatOps

  datatype CheckResult =
    | Clean
    | NotFormatted
    | OpenForWriting
    | FreeBlockInChain
    | InvalidSize
    | NeverReturns      // the size scan follows a cycle
    | CrossLinked
    | CrossLinkedEof
    | LostChain

  // Division as C++ does it, truncating toward zero.
  function TruncDiv(a: int, b: int): int
    requires b > 0
  {
    if a >= 0 then a / b else -((-a) / b)
  }

  // A walk that the size scan makes: neither EOF nor FREE before its last block.
  ghost predicate Scan(fat: seq<nat>, start: nat, w: seq<nat>) {
    Path(fat, start, w) && forall j :: 0 <= j < |w| - 1 ==> fat[w[j]] != FREE_FAT_ENTRY
  }

  ghost predicate ScanEnds(fat: seq<nat>, start: nat, w: seq<nat>) {
    Scan(fat, start, w) && fat[w[|w| - 1]] == EOF_FAT_ENTRY
  }

  // The size scan goes on for ever: there is a walk of every length.
  ghost predicate Endless(fat: seq<nat>, start: nat) {
    forall n: nat :: ScanOfLength(fat, start, n)
  }

  ghost predicate ScanOfLength(fat: seq<nat>, start: nat, n: nat) {
    exists w :: |w| == n + 1 && Scan(fat, start, w)
  }

  predicate Listed(e: DirEntry) { e.inUse == 1 }

  // The size scan has nothing to say about this entry.
  ghost predicate SizeClean(fat: seq<nat>, e: DirEntry) {
    Listed(e) ==> exists w :: ScanEnds(fat, e.start, w) && |w| - 1 == TruncDiv(e.size, BLOCK_SIZE)
  }

  // The size scan accepts the entries in front of slot i and hangs on that one.
  ghost predicate StuckAt(fat: seq<nat>, dir: seq<DirEntry>, i: nat) {
    && i < |dir| && Listed(dir[i]) && Endless(fat, dir[i].start)
    && forall k :: 0 <= k < i ==> SizeClean(fat, dir[k])
  }

  ghost predicate Stuck(fat: seq<nat>, dir: seq<DirEntry>) { exists i: nat :: StuckAt(fat, dir, i) }

  // The chains of the first k files laid end to end.
  ghost function Flat(c: Chains, k: nat): seq<nat>
    requires k <= |c|
  {
    if k == 0 then [] else Flat(c, k - 1) + c[k - 1]
  }

  ghost predicate NoDup(s: seq<nat>) { forall i, j :: 0 <= i < j < |s| ==> s[i] != s[j] }

  ghost predicate NoneReserved(fat: seq<nat>, s: seq<nat>) {
    forall b :: b in s ==> b < |fat| && fat[b] != RESERVED_FAT_ENTRY
  }

  predicate Special(v: nat) { v == FREE_FAT_ENTRY || v == RESERVED_FAT_ENTRY }

  // Every listed file has a finite chain without free blocks, as long as its
  // size says.
  ghost predicate SizesOk(fat: seq<nat>, dir: seq<DirEntry>, c: Chains) {
    |c| == |dir| && forall i :: 0 <= i < |dir| ==> EntrySizeOk(fat, dir[i], c[i])
  }

  ghost predicate EntrySizeOk(fat: seq<nat>, e: DirEntry, ch: seq<nat>) {
    if Listed(e) then ScanEnds(fat, e.start, ch) && |ch| - 1 == TruncDiv(e.size, BLOCK_SIZE) else ch == []
  }

  // No block is used twice or reserved, and none is lost.
  ghost predicate BlocksOk(fat: seq<nat>, c: Chains) {
    && NoDup(Flat(c, |c|))
    && NoneReserved(fat, Flat(c, |c|))
    && (forall b :: 0 <= b < |fat| && !Special(fat[b]) ==> b in Flat(c, |c|))
  }

  ghost predicate Consistent(fat: seq<nat>, dir: seq<DirEntry>) {
    exists c :: SizesOk(fat, dir, c) && BlocksOk(fat, c)
  }

  ghost predicate AnyWriter(handles: seq<Handle>) {
    exists h :: 0 <= h < |handles| && IsWriter(handles[h])
  }

  // ----- Chains are unique -----

  lemma SizesAgree(fat: seq<nat>, dir: seq<DirEntry>, c: Chains, c': Chains)
    requires SizesOk(fat, dir, c) && SizesOk(fat, dir, c')
    ensures c == c'
  {
    forall i | 0 <= i < |dir|
      ensures c[i] == c'[i]
    {
      assert EntrySizeOk(fat, dir[i], c[i]) && EntrySizeOk(fat, dir[i], c'[i]);
      if Listed(dir[i]) { ChainsAgree(fat, dir[i].start, c[i], c'[i]); }
    }
  }

  // The verdict on the blocks does not depend on which chains are meant.
  lemma ConsistentIff(fat: seq<nat>, dir: seq<DirEntry>, c: Chains)
    requires SizesOk(fat, dir, c)
    ensures Consistent(fat, dir) <==> BlocksOk(fat, c)
  {
    hide SizesOk, BlocksOk;
    if Consistent(fat, dir) {
      var c' :| SizesOk(fat, dir, c') && BlocksOk(fat, c');
      SizesAgree(fat, dir, c, c');
    }
  }

  // ----- Cycles -----

  lemma {:induction false} RepeatShifts(fat: seq<nat>, start: nat, w: seq<nat>, j: nat, j': nat, t: nat)
    requires Path(fat, start, w) && j < j' && j' + t < |w| && w[j] == w[j']
    ensures w[j + t] == w[j' + t]
  {
    if t > 0 {
      RepeatShifts(fat, start, w, j, j', t - 1);
      StepOnPath(fat, start, w, j + t - 1);
      StepOnPath(fat, start, w, j' + t - 1);
    }
  }

  // A walk longer than the table ends on a block it has met before.
  lemma LongScanRepeats(fat: seq<nat>, start: nat, w: seq<nat>) returns (m: nat)
    requires Path(fat, start, w) && |w| > |fat|
    ensures m < |w| - 1 && w[m] == w[|w| - 1]
  {
    if NoDup(w) { Pigeonhole(w, |fat|); }
    var j, j' :| 0 <= j < j' < |w| && w[j] == w[j'];
    RepeatShifts(fat, start, w, j, j', |w| - 1 - j');
    m := |w| - 1 - (j' - j);
  }

  // ... so it goes on for ever.
  lemma {:induction false} ScanGoesOn(fat: seq<nat>, start: nat, w: seq<nat>, n: nat) returns (x: seq<nat>)
    requires Scan(fat, start, w) && |w| > |fat|
    ensures |x| == n + 1 && Scan(fat, start, x) && exists m :: 0 <= m < |w| - 1 && w[m] == x[n]
  {
    if n == 0 {
      x := [start];
      assert w[0] == x[0];
    } else {
      var y := ScanGoesOn(fat, start, w, n - 1);
      var m :| 0 <= m < |w| - 1 && w[m] == y[n - 1];
      StepOnPath(fat, start, w, m);
      x := y + [w[m + 1]];
      ScanExtended(fat, start, y);
      if m + 1 == |w| - 1 {
        var m' := LongScanRepeats(fat, start, w);
        assert w[m'] == x[n];
      } else {
        assert w[m + 1] == x[n];
      }
    }
  }

  lemma ScanExtended(fat: seq<nat>, start: nat, w: seq<nat>)
    requires Scan(fat, start, w) && fat[w[|w| - 1]] != EOF_FAT_ENTRY && fat[w[|w| - 1]] != FREE_FAT_ENTRY
    requires fat[w[|w| - 1]] < |fat|
    ensures Scan(fat, start, w + [fat[w[|w| - 1]]])
  {
    var n := |w| - 1;
    var x := w + [fat[w[n]]];
    forall j | 0 <= j < |x| ensures x[j] < |fat| { assert j <= n ==> x[j] == w[j]; }
    forall j, k | 0 <= j && k == j + 1 && k < |x|
      ensures fat[x[j]] == x[k] && fat[x[j]] != EOF_FAT_ENTRY
    {
      StepOnPath(fat, start, w, j);
      assert x[j] == w[j];
      if k <= n { assert x[k] == w[j + 1]; }
    }
    forall j | 0 <= j < |x| - 1 ensures fat[x[j]] != FREE_FAT_ENTRY { assert x[j] == w[j]; }
    assert Path(fat, start, x);
  }

  lemma LongScanIsEndless(fat: seq<nat>, start: nat, w: seq<nat>)
    requires Scan(fat, start, w) && |w| > |fat|
    ensures Endless(fat, start)
  {
    forall n: nat ensures ScanOfLength(fat, start, n) { var x := ScanGoesOn(fat, start, w, n); }
  }

  // A scan that stops is not endless.
  lemma StoppedNotEndless(fat: seq<nat>, start: nat, w: seq<nat>)
    requires Scan(fat, start, w) && fat[w[|w| - 1]] in {EOF_FAT_ENTRY, FREE_FAT_ENTRY}
    ensures !Endless(fat, start)
  {
    if Endless(fat, start) {
      assert ScanOfLength(fat, start, |w|);
      var x :| |x| == |w| + 1 && Scan(fat, start, x);
      PathsAgree(fat, start, w, x);
      StepOnPath(fat, start, x, |w| - 1);
    }
  }

  // A table whose scan of one entry neither ends well nor goes on for ever is
  // not stuck anywhere: the scan throws there.
  lemma FaultNotStuck(fat: seq<nat>, dir: seq<DirEntry>, i: nat)
    requires i < |dir| && !SizeClean(fat, dir[i]) && (Listed(dir[i]) ==> !Endless(fat, dir[i].start))
    requires forall k :: 0 <= k < i ==> SizeClean(fat, dir[k])
    ensures !Stuck(fat, dir)
  {
    hide Endless, ScanEnds;
    if j: nat :| StuckAt(fat, dir, j) {
      if j < i { CleanNotEndless(fat, dir[j]); }
    }
  }

  lemma CleanNotEndless(fat: seq<nat>, e: DirEntry)
    requires SizeClean(fat, e) && Listed(e)
    ensures !Endless(fat, e.start)
  {
    var w :| ScanEnds(fat, e.start, w);
    StoppedNotEndless(fat, e.start, w);
  }

  lemma AllCleanNotStuck(fat: seq<nat>, dir: seq<DirEntry>)
    requires forall k :: 0 <= k < |dir| ==> SizeClean(fat, dir[k])
    ensures !Stuck(fat, dir)
  {
    hide Endless, SizeClean;
    if j: nat :| StuckAt(fat, dir, j) { CleanNotEndless(fat, dir[j]); }
  }

  lemma IsStuck(fat: seq<nat>, dir: seq<DirEntry>, i: nat)
    requires i < |dir| && Listed(dir[i]) && Endless(fat, dir[i].start)
    requires forall k :: 0 <= k < i ==> SizeClean(fat, dir[k])
    ensures Stuck(fat, dir)
  {
    assert StuckAt(fat, dir, i);
  }

  lemma EntryClean(fat: seq<nat>, e: DirEntry, ch: seq<nat>)
    requires EntrySizeOk(fat, e, ch)
    ensures SizeClean(fat, e)
  {
  }

  lemma ConsistentClean(fat: seq<nat>, dir: seq<DirEntry>, i: nat)
    requires Consistent(fat, dir) && i < |dir|
    ensures SizeClean(fat, dir[i])
  {
    var c :| SizesOk(fat, dir, c) && BlocksOk(fat, c);
    assert EntrySizeOk(fat, dir[i], c[i]);
  }

  lemma NotCleanInconsistent(fat: seq<nat>, dir: seq<DirEntry>, i: nat)
    requires i < |dir| && !SizeClean(fat, dir[i])
    ensures !Consistent(fat, dir)
  {
    hide Consistent;
    if Consistent(fat, dir) { ConsistentClean(fat, dir, i); }
  }

  // The outcomes of the scan of one entry other than the clean one.
  lemma FaultNotClean(fat: seq<nat>, e: DirEntry, w: seq<nat>)
    requires Listed(e) && Scan(fat, e.start, w)
    requires fat[w[|w| - 1]] == FREE_FAT_ENTRY
             || (fat[w[|w| - 1]] == EOF_FAT_ENTRY && |w| - 1 != TruncDiv(e.size, BLOCK_SIZE))
    ensures !SizeClean(fat, e) && !Endless(fat, e.start)
  {
    StoppedNotEndless(fat, e.start, w);
    var n: nat := |w| - 1;
    if x :| ScanEnds(fat, e.start, x) && |x| - 1 == TruncDiv(e.size, BLOCK_SIZE) {
      ChainNotShorter(fat, e.start, x, w);
      PathsAgree(fat, e.start, w, x);
      StepOnPath(fat, e.start, x, n);
    }
  }

  // Blocks 3 and 4 point to each other: the scan of the first file never ends.
  lemma TwoBlockCycle() returns (fat: seq<nat>, dir: seq<DirEntry>)
    ensures LinksInRange(fat) && |dir| == DIR_SIZE && StuckAt(fat, dir, 0)
  {
    hide Zeros;
    fat := FreshFat()[3 := 4][4 := 3];
    dir := OneFile(3, 0);
    forall n: nat ensures ScanOfLength(fat, 3, n) {
      var w := seq(n + 1, j => if j % 2 == 0 then 3 else 4);
      assert Path(fat, 3, w);
      assert Scan(fat, 3, w);
    }
  }

  // The size scan throws before it reaches a cycle: slot 0 has the wrong size,
  // slot 1 a block that points to itself.
  lemma CycleBehindWrongSize() returns (fat: seq<nat>, dir: seq<DirEntry>)
    ensures LinksInRange(fat) && |dir| == DIR_SIZE
    ensures Listed(dir[1]) && Endless(fat, dir[1].start) && !Stuck(fat, dir)
  {
    hide Zeros;
    fat := FreshFat()[3 := EOF_FAT_ENTRY][4 := 4];
    dir := OneFile(3, 5000)[1 := ZeroEntry().(inUse := 1, start := 4)];
    forall n: nat ensures ScanOfLength(fat, 4, n) {
      var w := seq(n + 1, _ => 4);
      assert Path(fat, 4, w);
      assert Scan(fat, 4, w);
    }
    assert Path(fat, 3, [3]);
    FaultNotClean(fat, dir[0], [3]);
    FaultNotStuck(fat, dir, 0);
  }

  function OneFile(start: nat, size: int): (dir: seq<DirEntry>)
    ensures |dir| == DIR_SIZE
  {
    seq(DIR_SIZE, _ => ZeroEntry())[0 := ZeroEntry().(inUse := 1, start := start, size := size)]
  }

  lemma EndlessInconsistent(fat: seq<nat>, dir: seq<DirEntry>, i: nat)
    requires i < |dir| && Listed(dir[i]) && Endless(fat, dir[i].start)
    ensures !Consistent(fat, dir)
  {
    if Consistent(fat, dir) {
      var c :| SizesOk(fat, dir, c) && BlocksOk(fat, c);
      assert EntrySizeOk(fat, dir[i], c[i]);
      assert ScanOfLength(fat, dir[i].start, |c[i]|);
      var w :| |w| == |c[i]| + 1 && Scan(fat, dir[i].start, w);
      ChainNotShorter(fat, dir[i].start, c[i], w);
    }
  }

  // ----- The check-off scan -----

  // The links from start lead to EOF over blocks that are neither special nor
  // seen before.
  ghost predicate Fits(fat: seq<nat>, start: nat, seen: seq<nat>, ch: seq<nat>) {
    IsChain(fat, start, ch) && NoDup(seen + ch) && forall j :: 0 <= j < |ch| ==> !Special(fat[ch[j]])
  }

  // The same for all files, one after the other.
  ghost predicate AllFit(fat: seq<nat>, dir: seq<DirEntry>, c: Chains) {
    && |c| == |dir|
    && (forall i :: 0 <= i < |dir| ==> if Listed(dir[i]) then IsChain(fat, dir[i].start, c[i]) else c[i] == [])
    && NoDup(Flat(c, |c|))
    && NoneSpecial(fat, Flat(c, |c|))
  }

  ghost predicate NoneSpecial(fat: seq<nat>, s: seq<nat>) { forall b :: b in s ==> b < |fat| && !Special(fat[b]) }

  // The blocks not yet checked off.
  ghost function Unmarked(off: seq<bool>): set<nat> { set b: nat | b < |off| && !off[b] }

  lemma OneLessUnmarked(off: seq<bool>, b: nat)
    requires b < |off| && !off[b]
    ensures |Unmarked(off[b := true])| < |Unmarked(off)|
  {
    assert Unmarked(off[b := true]) == Unmarked(off) - {b};
  }

  // A block in the middle of a walk in order is neither special nor met before.
  lemma InOrderInside(fat: seq<nat>, seen: seq<nat>, x: seq<nat>, n: nat)
    requires n < |x| && NoDup(seen + x) && NoneSpecial(fat, x)
    ensures x[n] < |fat| && !Special(fat[x[n]]) && x[n] !in seen + x[..n]
  {
    var s := seen + x;
    assert x[n] in x;
    assert s[|seen| + n] == x[n] && s[..|seen| + n] == seen + x[..n];
    forall v | v in seen + x[..n] ensures v != x[n] {
      var j :| 0 <= j < |seen| + n && s[..|seen| + n][j] == v;
      assert s[j] == v;
    }
  }

  // A chain that fits stays clear of what has been seen wherever a walk gets.
  lemma FitOnPath(fat: seq<nat>, start: nat, seen: seq<nat>, w: seq<nat>, b: nat, x: seq<nat>)
    requires Path(fat, start, w + [b]) && Fits(fat, start, seen, x)
    ensures b < |fat| && !Special(fat[b]) && b !in seen + w
  {
    var y, n := w + [b], |w|;
    ChainNotShorter(fat, start, x, y);
    PathsAgree(fat, start, y, x);
    assert x[n] == y[n] && x[..n] == w;
    InOrderInside(fat, seen, x, n);
  }

  // A walk that comes to a special block, or to one seen before, rules out that
  // the chain fits.
  lemma NoFit(fat: seq<nat>, start: nat, seen: seq<nat>, w: seq<nat>, b: nat, x: seq<nat>)
    requires b < |fat| && Path(fat, start, w + [b]) && (Special(fat[b]) || b in seen + w)
    ensures !Fits(fat, start, seen, x)
  {
    hide Fits;
    if Fits(fat, start, seen, x) { FitOnPath(fat, start, seen, w, b, x); }
  }

  lemma FitsMore(fat: seq<nat>, seen: seq<nat>, w: seq<nat>, b: nat)
    requires NoDup(seen + w) && NoneSpecial(fat, w) && b < |fat| && !Special(fat[b]) && b !in seen + w
    ensures NoDup(seen + (w + [b])) && NoneSpecial(fat, w + [b])
    ensures forall x :: x in seen + (w + [b]) <==> x in seen + w || x == b
  {
    assert seen + (w + [b]) == (seen + w) + [b];
  }

  // What holds of all chains holds of the first ones.
  lemma {:induction false} FlatPrefix(c: Chains, k: nat, n: nat)
    requires k <= n <= |c|
    ensures |Flat(c, k)| <= |Flat(c, n)| && Flat(c, n)[..|Flat(c, k)|] == Flat(c, k)
    ensures NoDup(Flat(c, n)) ==> NoDup(Flat(c, k))
    ensures forall b :: b in Flat(c, k) ==> b in Flat(c, n)
  {
    if k < n {
      FlatPrefix(c, k, n - 1);
      var s, t := Flat(c, k), Flat(c, n);
      assert t[..|Flat(c, n - 1)|] == Flat(c, n - 1);
      assert t[..|s|] == Flat(c, n - 1)[..|s|];
      forall x | 0 <= x < |s| ensures t[x] == s[x] { assert t[..|s|][x] == s[x]; }
    }
  }

  lemma {:induction false} FlatSame(c: Chains, c': Chains, k: nat)
    requires k <= |c| && k <= |c'| && forall i :: 0 <= i < k ==> c[i] == c'[i]
    ensures Flat(c, k) == Flat(c', k)
  {
    if k > 0 { FlatSame(c, c', k - 1); }
  }

  // If all files fit, the next one fits behind those that have been checked off.
  lemma NextFits(fat: seq<nat>, dir: seq<DirEntry>, c: Chains, x: Chains)
    requires |c| < |dir| && Listed(dir[|c|]) && AllFit(fat, dir, x)
    requires forall i :: 0 <= i < |c| ==> if Listed(dir[i]) then IsChain(fat, dir[i].start, c[i]) else c[i] == []
    ensures |c| < |x| && Fits(fat, dir[|c|].start, Flat(c, |c|), x[|c|])
  {
    hide IsChain;
    var k := |c|;
    forall i | 0 <= i < k ensures c[i] == x[i] {
      if Listed(dir[i]) { ChainsAgree(fat, dir[i].start, c[i], x[i]); }
    }
    FlatSame(c, x, k);
    FlatPrefix(x, k + 1, |x|);
    assert Flat(x, k + 1) == Flat(x, k) + x[k];
    forall b | b in x[k] ensures b < |fat| && !Special(fat[b]) { assert b in Flat(x, k + 1); }
  }

  // On chains that the size scan accepts, the two scans mean the same blocks.
  lemma SizesFit(fat: seq<nat>, dir: seq<DirEntry>, c: Chains)
    requires SizesOk(fat, dir, c)
    ensures AllFit(fat, dir, c) <==> NoDup(Flat(c, |c|)) && NoneReserved(fat, Flat(c, |c|))
    ensures forall x :: AllFit(fat, dir, x) ==> x == c
  {
    hide NoDup;
    forall i | 0 <= i < |dir|
      ensures if Listed(dir[i]) then IsChain(fat, dir[i].start, c[i]) else c[i] == []
      ensures forall b :: b in c[i] ==> b < |fat| && fat[b] != FREE_FAT_ENTRY
    {
      assert EntrySizeOk(fat, dir[i], c[i]);
    }
    forall b: nat | b in Flat(c, |c|) ensures b < |fat| && fat[b] != FREE_FAT_ENTRY { FlatMember(c, |c|, b); }
    forall x | AllFit(fat, dir, x) ensures x == c {
      forall i | 0 <= i < |dir| ensures x[i] == c[i] {
        if Listed(dir[i]) { ChainsAgree(fat, dir[i].start, x[i], c[i]); }
      }
    }
  }

  lemma FitsIs(fat: seq<nat>, start: nat, seen: seq<nat>, ch: seq<nat>)
    requires Path(fat, start, ch) && fat[ch[|ch| - 1]] == EOF_FAT_ENTRY && NoDup(seen + ch) && NoneSpecial(fat, ch)
    ensures Fits(fat, start, seen, ch)
  {
    forall j | 0 <= j < |ch| ensures !Special(fat[ch[j]]) { assert ch[j] in ch; }
  }

  lemma FitsChain(fat: seq<nat>, start: nat, seen: seq<nat>, ch: seq<nat>)
    requires Fits(fat, start, seen, ch) && NoneSpecial(fat, seen)
    ensures IsChain(fat, start, ch) && NoDup(seen + ch) && NoneSpecial(fat, seen + ch)
  {
  }

  lemma FlatMore(c: Chains, ch: seq<nat>)
    ensures Flat(c + [ch], |c| + 1) == Flat(c, |c|) + ch
    ensures Flat(c, |c|) + [] == Flat(c, |c|)
  {
    FlatSame(c, c + [ch], |c|);
  }

  lemma NothingFlat(fat: seq<nat>)
    ensures Flat([], 0) == [] && NoDup(Flat([], 0)) && NoneSpecial(fat, Flat([], 0))
  {
  }

  lemma AllFitIs(fat: seq<nat>, dir: seq<DirEntry>, c: Chains)
    requires |c| == |dir| && NoDup(Flat(c, |c|)) && NoneSpecial(fat, Flat(c, |c|))
    requires forall i :: 0 <= i < |dir| ==> if Listed(dir[i]) then IsChain(fat, dir[i].start, c[i]) else c[i] == []
    ensures AllFit(fat, dir, c)
  {
  }

  // ----- Completeness and what check() does not look at -----

  lemma {:induction false} FlatMember(c: Chains, k: nat, b: nat)
    requires k <= |c|
    ensures b in Flat(c, k) <==> exists i :: 0 <= i < k && b in c[i]
  {
    if k > 0 { FlatMember(c, k - 1, b); }
  }

  lemma {:induction false} FlatNoDup(c: Chains, k: nat)
    requires k <= |c| && Disjoint(c)
    ensures NoDup(Flat(c, k))
  {
    if k > 0 {
      FlatNoDup(c, k - 1);
      var front := Flat(c, k - 1);
      forall x | 0 <= x < |front| ensures front[x] !in c[k - 1] {
        FlatMember(c, k - 1, front[x]);
        var i :| 0 <= i < k - 1 && front[x] in c[i];
        var j :| 0 <= j < |c[i]| && c[i][j] == front[x];
      }
    }
  }

  lemma ValidEntrySize(fat: seq<nat>, dir: seq<DirEntry>, c: Chains, i: nat)
    requires StructureOk(fat, dir, c) && i < DIR_SIZE
    ensures EntrySizeOk(fat, dir[i], c[i])
  {
    hide NamesUnique, Disjoint, NoneLost;
    assert EntryOk(fat, dir[i], c[i]);
    if Used(dir[i]) {
      forall j | 0 <= j < |c[i]| - 1 ensures fat[c[i][j]] != FREE_FAT_ENTRY { LinkOnChain(fat, dir, c, i, j); }
    }
  }

  lemma ValidBlocks(fat: seq<nat>, dir: seq<DirEntry>, c: Chains)
    requires StructureOk(fat, dir, c)
    ensures BlocksOk(fat, c)
  {
    hide NamesUnique, EntryOk, IsChain;
    FlatNoDup(c, DIR_SIZE);
    forall b: nat | b in Flat(c, DIR_SIZE) ensures b < |fat| && fat[b] != RESERVED_FAT_ENTRY {
      FlatMember(c, DIR_SIZE, b);
      var i :| 0 <= i < DIR_SIZE && b in c[i];
      var j :| 0 <= j < |c[i]| && c[i][j] == b;
      LinkOnChain(fat, dir, c, i, j);
    }
    forall b | 0 <= b < |fat| && !Special(fat[b]) ensures b in Flat(c, DIR_SIZE) {
      FlatMember(c, DIR_SIZE, b);
      assert OnChain(c, b);
    }
  }

  lemma StructureLengths(fat: seq<nat>, dir: seq<DirEntry>, c: Chains)
    requires StructureOk(fat, dir, c)
    ensures |dir| == |c| == DIR_SIZE
  {
  }

  ghost predicate DisjointUpTo(c: Chains, n: nat)
    requires n <= |c|
  {
    forall i, j, i', j' ::
      0 <= i < n && 0 <= j < |c[i]| && 0 <= i' < n && 0 <= j' < |c[i']| && c[i][j] == c[i'][j'] ==>
        i == i' && j == j'
  }

  lemma {:induction false} FlatDisjoint(c: Chains, n: nat)
    requires n <= |c| && NoDup(Flat(c, n))
    ensures DisjointUpTo(c, n)
  {
    if n > 0 {
      var front, last := Flat(c, n - 1), c[n - 1];
      forall x, y | 0 <= x < y < |front| ensures front[x] != front[y] { assert Flat(c, n)[x] != Flat(c, n)[y]; }
      forall x, y | 0 <= x < y < |last| ensures last[x] != last[y] {
        assert Flat(c, n)[|front| + x] != Flat(c, n)[|front| + y];
      }
      FlatDisjoint(c, n - 1);
      forall i, j | 0 <= i < n - 1 && 0 <= j < |c[i]| ensures c[i][j] !in last {
        FlatMember(c, n - 1, c[i][j]);
        var x :| 0 <= x < |front| && front[x] == c[i][j];
        forall y | 0 <= y < |last| ensures last[y] != c[i][j] { assert Flat(c, n)[x] != Flat(c, n)[|front| + y]; }
      }
    }
  }

  // What check() takes for granted: the first three blocks, and only those, are
  // reserved, names are terminated and unique, and the fields are in range.
  ghost predicate Unchecked(fat: seq<nat>, dir: seq<DirEntry>) {
    && LinksInRange(fat) && |dir| == DIR_SIZE
    && (forall b :: 0 <= b < FAT_SIZE ==> (fat[b] == RESERVED_FAT_ENTRY <==> b < 3))
    && NamesUnique(dir)
    && (forall i :: 0 <= i < DIR_SIZE ==>
          dir[i].inUse <= 1 && dir[i].start < FAT_SIZE && 0 <= dir[i].size && (Used(dir[i]) ==> 0 in dir[i].name)
          && (!Used(dir[i]) ==> dir[i].size < FAT_SIZE * BLOCK_SIZE))
  }

  lemma ConsistentEntry(fat: seq<nat>, dir: seq<DirEntry>, c: Chains, i: nat)
    requires Unchecked(fat, dir) && SizesOk(fat, dir, c) && BlocksOk(fat, c) && i < DIR_SIZE
    ensures EntryOk(fat, dir[i], c[i])
  {
    hide NamesUnique, NoDup;
    assert EntrySizeOk(fat, dir[i], c[i]);
    forall j | 0 <= j < |c[i]| ensures 3 <= c[i][j] {
      FlatMember(c, |c|, c[i][j]);
      assert c[i][j] in c[i];
    }
  }

  lemma ConsistentChains(fat: seq<nat>, c: Chains)
    requires |fat| == FAT_SIZE && |c| == DIR_SIZE && BlocksOk(fat, c)
    requires forall b :: 0 <= b < FAT_SIZE ==> (fat[b] == RESERVED_FAT_ENTRY <==> b < 3)
    ensures Disjoint(c) && NoneLost(fat, c)
  {
    FlatDisjoint(c, |c|);
    forall b | 3 <= b < FAT_SIZE && fat[b] != FREE_FAT_ENTRY ensures OnChain(c, b) { FlatMember(c, |c|, b); }
  }

  // The invariant says all that check() takes for granted.
  lemma StructureUnchecked(fat: seq<nat>, dir: seq<DirEntry>, c: Chains)
    requires StructureOk(fat, dir, c)
    ensures Unchecked(fat, dir)
  {
    hide NamesUnique, Disjoint, IsChain;
    forall b | 0 <= b < FAT_SIZE ensures fat[b] == RESERVED_FAT_ENTRY <==> b < 3 {
      if 3 <= b && fat[b] != FREE_FAT_ENTRY {
        assert OnChain(c, b);
        var i :| 0 <= i < |c| && b in c[i];
        var j :| 0 <= j < |c[i]| && c[i][j] == b;
        LinkOnChain(fat, dir, c, i, j);
      }
    }
    forall i | 0 <= i < DIR_SIZE
      ensures dir[i].inUse <= 1 && dir[i].start < FAT_SIZE && 0 <= dir[i].size && (Used(dir[i]) ==> 0 in dir[i].name)
      ensures !Used(dir[i]) ==> dir[i].size < FAT_SIZE * BLOCK_SIZE
    {
      assert EntryOk(fat, dir[i], c[i]);
    }
  }

  // The invariant holds exactly on the tables that check() accepts and on which
  // what it takes for granted is so.
  lemma ConsistentIsStructure(fat: seq<nat>, dir: seq<DirEntry>)
    ensures (exists c :: StructureOk(fat, dir, c)) <==> Consistent(fat, dir) && Unchecked(fat, dir)
  {
    hide Unchecked, StructureOk, Consistent;
    if Consistent(fat, dir) && Unchecked(fat, dir) { ConsistentStructure(fat, dir); }
    if exists c :: StructureOk(fat, dir, c) {
      var c :| StructureOk(fat, dir, c);
      StructureUnchecked(fat, dir, c);
      StructureConsistent(fat, dir, c);
    }
  }

  lemma ConsistentStructure(fat: seq<nat>, dir: seq<DirEntry>)
    requires Consistent(fat, dir) && Unchecked(fat, dir)
    ensures exists c :: StructureOk(fat, dir, c)
  {
    hide NamesUnique, EntryOk, BlocksOk, EntrySizeOk, Disjoint, NoneLost;
    var c :| SizesOk(fat, dir, c) && BlocksOk(fat, c);
    forall i | 0 <= i < DIR_SIZE ensures EntryOk(fat, dir[i], c[i]) { ConsistentEntry(fat, dir, c, i); }
    ConsistentChains(fat, c);
    assert StructureOk(fat, dir, c);
  }

  lemma StructureConsistent(fat: seq<nat>, dir: seq<DirEntry>, c: Chains)
    requires StructureOk(fat, dir, c)
    ensures Consistent(fat, dir)
  {
    hide StructureOk, BlocksOk, EntrySizeOk;
    StructureLengths(fat, dir, c);
    forall i | 0 <= i < |dir| ensures EntrySizeOk(fat, dir[i], c[i]) { ValidEntrySize(fat, dir, c, i); }
    ValidBlocks(fat, dir, c);
    assert SizesOk(fat, dir, c);
  }

  // check() is complete: it has nothing to say about a valid state.
  lemma ValidConsistent(s: FsState)
    requires Valid(s)
    ensures Consistent(s.fat, s.dir)
  {
    hide StructureOk, HandlesOk, BootOk, Consistent;
    var c := ValidChains(s);
    StructureConsistent(s.fat, s.dir, c);
  }

  // check() does not look at the reserved blocks: it accepts a table in which
  // the boot block belongs to a file.
  lemma BootBlockInFile() returns (fat: seq<nat>, dir: seq<DirEntry>)
    ensures LinksInRange(fat) && |dir| == DIR_SIZE && Consistent(fat, dir)
    ensures Listed(dir[0]) && dir[0].start == BOOT_BLOCK && fat[BOOT_BLOCK] == EOF_FAT_ENTRY
  {
    hide Zeros, CStr;
    fat := FreshFat()[BOOT_BLOCK := EOF_FAT_ENTRY];
    dir := OneFile(BOOT_BLOCK, 0);
    var c: Chains := seq(DIR_SIZE, i => if i == 0 then [BOOT_BLOCK] else []);
    OneBlockFlat(c, DIR_SIZE);
    assert EntrySizeOk(fat, dir[0], c[0]);
    assert SizesOk(fat, dir, c) && BlocksOk(fat, c);
  }

  lemma {:induction false} OneBlockFlat(c: Chains, k: nat)
    requires 0 < k <= |c| && c[0] == [BOOT_BLOCK] && forall i :: 0 < i < |c| ==> c[i] == []
    ensures Flat(c, k) == [BOOT_BLOCK]
  {
    if k == 1 { assert Flat(c, 0) == []; } else { OneBlockFlat(c, k - 1); }
  }
}
