// Which of its errors FileSystem::check() throws.
module FatVerdict {
  import opened FatTypes
  import opened FatInvariant
  import opened FatCheck
  import opened FatOps

  // What the size scan of one entry comes to.
  ghost predicate EntryVerdict(fat: seq<nat>, e: DirEntry, r: CheckResult) {
    match r
    case Clean => SizeClean(fat, e)
    case FreeBlockInChain => Listed(e) && exists w :: ScanStops(fat, e.start, w)
    case InvalidSize =>
      Listed(e) && exists w :: ScanEnds(fat, e.start, w) && |w| - 1 != TruncDiv(e.size, BLOCK_SIZE)
    case NeverReturns => Listed(e) && Endless(fat, e.start)
    case _ => false
  }

  // The scan comes to a free block.
  ghost predicate ScanStops(fat: seq<nat>, start: nat, w: seq<nat>) {
    Scan(fat, start, w) && fat[w[|w| - 1]] == FREE_FAT_ENTRY
  }

  ghost predicate FirstFault(fat: seq<nat>, dir: seq<DirEntry>, i: nat) {
    i < |dir| && !SizeClean(fat, dir[i]) && forall k :: 0 <= k < i ==> SizeClean(fat, dir[k])
  }

  // The first entry that is not in order decides.
  ghost predicate SizesVerdict(fat: seq<nat>, dir: seq<DirEntry>, r: CheckResult) {
    if r == Clean
    then forall i :: 0 <= i < |dir| ==> SizeClean(fat, dir[i])
    else exists i: nat :: FirstFault(fat, dir, i) && EntryVerdict(fat, dir[i], r)
  }

  // The links from start lead over blocks in order to b, which is special or
  // has been seen before.
  ghost predicate Hit(fat: seq<nat>, start: nat, seen: seq<nat>, w: seq<nat>, b: nat) {
    && b < |fat| && Path(fat, start, w + [b]) && NoDup(seen + w) && NoneSpecial(fat, w)
    && (Special(fat[b]) || b in seen + w)
  }

  // The files c in front fit, and the next one comes to such a block, which ends
  // its chain or does not.
  ghost predicate CrossAt(fat: seq<nat>, dir: seq<DirEntry>, c: Chains, w: seq<nat>, b: nat, ends: bool) {
    && |c| < |dir| && Listed(dir[|c|]) && AllFit(fat, dir[..|c|], c)
    && Hit(fat, dir[|c|].start, Flat(c, |c|), w, b)
    && (fat[b] == EOF_FAT_ENTRY <==> ends)
  }

  ghost predicate Crossing(fat: seq<nat>, dir: seq<DirEntry>, ends: bool) {
    exists c, w, b: nat :: CrossAt(fat, dir, c, w, b, ends)
  }

  ghost predicate Lost(fat: seq<nat>, c: Chains, b: nat) {
    b < |fat| && !Special(fat[b]) && b !in Flat(c, |c|)
  }

  // What the check-off scan and the search for lost blocks come to.
  ghost predicate BlocksVerdict(fat: seq<nat>, dir: seq<DirEntry>, r: CheckResult) {
    match r
    case Clean => exists c :: AllFit(fat, dir, c) && forall b: nat :: !Lost(fat, c, b)
    case CrossLinked => Crossing(fat, dir, false)
    case CrossLinkedEof => Crossing(fat, dir, true)
    case LostChain => exists c, b: nat :: AllFit(fat, dir, c) && Lost(fat, c, b)
    case _ => false
  }

  // ----- The verdict on the sizes is unique -----

  lemma EntryVerdictUnique(fat: seq<nat>, e: DirEntry, r: CheckResult, r': CheckResult)
    requires EntryVerdict(fat, e, r) && EntryVerdict(fat, e, r')
    ensures r == r'
  {
    if r != r' {
      if NeverReturns in {r, r'} {
        NeverAlone(fat, e, if r == NeverReturns then r' else r);
      } else if Clean in {r, r'} {
        CleanAlone(fat, e, if r == Clean then r' else r);
      } else {
        var w :| ScanStops(fat, e.start, w);
        var x :| ScanEnds(fat, e.start, x);
        EndsNotFree(fat, e.start, w, x);
      }
    }
  }

  lemma NeverAlone(fat: seq<nat>, e: DirEntry, r: CheckResult)
    requires EntryVerdict(fat, e, r) && Listed(e) && Endless(fat, e.start)
    ensures r == NeverReturns
  {
    hide Endless, Scan;
    if r == Clean {
      CleanNotEndless(fat, e);
    } else if r == FreeBlockInChain {
      var w :| ScanStops(fat, e.start, w);
      StoppedNotEndless(fat, e.start, w);
    } else if r == InvalidSize {
      var w :| ScanEnds(fat, e.start, w);
      StoppedNotEndless(fat, e.start, w);
    }
  }

  lemma CleanAlone(fat: seq<nat>, e: DirEntry, r: CheckResult)
    requires EntryVerdict(fat, e, r) && SizeClean(fat, e)
    ensures r == Clean
  {
    hide Endless, Scan, SizeClean;
    if r == FreeBlockInChain {
      var w :| ScanStops(fat, e.start, w);
      FaultNotClean(fat, e, w);
    } else if r == InvalidSize {
      var w :| ScanEnds(fat, e.start, w) && |w| - 1 != TruncDiv(e.size, BLOCK_SIZE);
      FaultNotClean(fat, e, w);
    } else if r == NeverReturns {
      CleanNotEndless(fat, e);
    }
  }

  lemma EndsNotFree(fat: seq<nat>, start: nat, w: seq<nat>, x: seq<nat>)
    requires ScanEnds(fat, start, x) && Scan(fat, start, w)
    ensures fat[w[|w| - 1]] != FREE_FAT_ENTRY
  {
    ChainNotShorter(fat, start, x, w);
    PathsAgree(fat, start, w, x);
  }

  lemma SizesVerdictUnique(fat: seq<nat>, dir: seq<DirEntry>, r: CheckResult, r': CheckResult)
    requires SizesVerdict(fat, dir, r) && SizesVerdict(fat, dir, r')
    ensures r == r'
  {
    hide EntryVerdict, SizeClean;
    if r != Clean && r' != Clean {
      var i: nat :| FirstFault(fat, dir, i) && EntryVerdict(fat, dir[i], r);
      var j: nat :| FirstFault(fat, dir, j) && EntryVerdict(fat, dir[j], r');
      assert i == j;
      EntryVerdictUnique(fat, dir[i], r, r');
    }
  }

  // ----- The verdict on the blocks is unique -----

  lemma HitUnique(fat: seq<nat>, start: nat, seen: seq<nat>, w: seq<nat>, b: nat, w': seq<nat>, b': nat)
    requires Hit(fat, start, seen, w, b) && Hit(fat, start, seen, w', b') && |w| <= |w'|
    ensures b == b'
  {
    hide NoDup;
    var y, y', n := w + [b], w' + [b'], |w|;
    PathsAgree(fat, start, y, y');
    assert y'[n] == y[n] == b && y'[..n] == y[..n] == w;
    if n < |w'| {
      assert y'[..n] == w'[..n];
      InOrderInside(fat, seen, w', n);
    }
  }

  lemma AllFitUnique(fat: seq<nat>, dir: seq<DirEntry>, c: Chains, c': Chains)
    requires AllFit(fat, dir, c) && AllFit(fat, dir, c')
    ensures c == c'
  {
    hide IsChain, NoDup, NoneSpecial;
    forall i | 0 <= i < |dir| ensures c[i] == c'[i] {
      if Listed(dir[i]) { ChainsAgree(fat, dir[i].start, c[i], c'[i]); }
    }
  }

  // A file that comes to a block out of order is none of those that fit.
  lemma CrossNotFit(fat: seq<nat>, dir: seq<DirEntry>, c: Chains, w: seq<nat>, b: nat, ends: bool, n: nat,
                     x: Chains)
    requires CrossAt(fat, dir, c, w, b, ends) && |c| < n <= |dir|
    ensures !AllFit(fat, dir[..n], x)
  {
    hide Fits, IsChain, NoDup, NoneSpecial;
    if AllFit(fat, dir[..n], x) {
      forall i | 0 <= i < |c| ensures if Listed(dir[i]) then IsChain(fat, dir[i].start, c[i]) else c[i] == [] {
        assert dir[..|c|][i] == dir[i];
      }
      NextFits(fat, dir[..n], c, x);
      NoFit(fat, dir[|c|].start, Flat(c, |c|), w, b, x[|c|]);
    }
  }

  lemma CrossUnique(fat: seq<nat>, dir: seq<DirEntry>, c: Chains, w: seq<nat>, b: nat, ends: bool,
                    c': Chains, w': seq<nat>, b': nat, ends': bool)
    requires CrossAt(fat, dir, c, w, b, ends) && CrossAt(fat, dir, c', w', b', ends')
    ensures ends == ends'
  {
    hide AllFit, Hit;
    if |c| < |c'| {
      CrossNotFit(fat, dir, c, w, b, ends, |c'|, c');
    } else if |c'| < |c| {
      CrossNotFit(fat, dir, c', w', b', ends', |c|, c);
    } else {
      AllFitUnique(fat, dir[..|c|], c, c');
      if |w| <= |w'| {
        HitUnique(fat, dir[|c|].start, Flat(c, |c|), w, b, w', b');
      } else {
        HitUnique(fat, dir[|c|].start, Flat(c, |c|), w', b', w, b);
      }
    }
  }

  lemma CrossOrFit(fat: seq<nat>, dir: seq<DirEntry>, ends: bool, c: Chains)
    requires AllFit(fat, dir, c)
    ensures !Crossing(fat, dir, ends)
  {
    hide AllFit, Hit;
    if Crossing(fat, dir, ends) {
      var x, w, b: nat :| CrossAt(fat, dir, x, w, b, ends);
      assert dir[..|dir|] == dir;
      CrossNotFit(fat, dir, x, w, b, ends, |dir|, c);
    }
  }

  lemma CrossingUnique(fat: seq<nat>, dir: seq<DirEntry>)
    requires Crossing(fat, dir, true)
    ensures !Crossing(fat, dir, false)
  {
    hide CrossAt;
    if Crossing(fat, dir, false) {
      var c, w, b: nat :| CrossAt(fat, dir, c, w, b, true);
      var c', w', b': nat :| CrossAt(fat, dir, c', w', b', false);
      CrossUnique(fat, dir, c, w, b, true, c', w', b', false);
    }
  }

  lemma BlocksVerdictUnique(fat: seq<nat>, dir: seq<DirEntry>, r: CheckResult, r': CheckResult)
    requires BlocksVerdict(fat, dir, r) && BlocksVerdict(fat, dir, r')
    ensures r == r'
  {
    hide AllFit, Crossing, Lost;
    if Crossing(fat, dir, true) { CrossingUnique(fat, dir); }
    forall c | AllFit(fat, dir, c)
      ensures !Crossing(fat, dir, true) && !Crossing(fat, dir, false)
      ensures forall x :: AllFit(fat, dir, x) ==> x == c
    {
      CrossOrFit(fat, dir, true, c);
      CrossOrFit(fat, dir, false, c);
      forall x | AllFit(fat, dir, x) ensures x == c { AllFitUnique(fat, dir, c, x); }
    }
  }

  // ----- How the scans come to their verdicts -----

  lemma SizesDecided(fat: seq<nat>, dir: seq<DirEntry>, r: CheckResult)
    requires SizesVerdict(fat, dir, r)
    ensures forall x :: SizesVerdict(fat, dir, x) <==> x == r
  {
    hide SizesVerdict;
    forall x | SizesVerdict(fat, dir, x) ensures x == r { SizesVerdictUnique(fat, dir, x, r); }
  }

  lemma BlocksDecided(fat: seq<nat>, dir: seq<DirEntry>, r: CheckResult)
    requires BlocksVerdict(fat, dir, r)
    ensures forall x :: BlocksVerdict(fat, dir, x) <==> x == r
  {
    hide BlocksVerdict;
    forall x | BlocksVerdict(fat, dir, x) ensures x == r { BlocksVerdictUnique(fat, dir, x, r); }
  }

  // The two verdicts are clean exactly on the tables in good order.
  lemma CleanIffConsistent(fat: seq<nat>, dir: seq<DirEntry>)
    ensures SizesVerdict(fat, dir, Clean) && BlocksVerdict(fat, dir, Clean) <==> Consistent(fat, dir)
    ensures Consistent(fat, dir) <==> exists c :: SizesOk(fat, dir, c) && BlocksOk(fat, c)
  {
    hide SizeClean, EntrySizeOk, AllFit, NoDup, NoneReserved;
    if SizesVerdict(fat, dir, Clean) {
      var c := ScannedChains(fat, dir, |dir|);
      assert SizesOk(fat, dir, c);
      SizesFit(fat, dir, c);
      ConsistentIff(fat, dir, c);
      LeftOver(fat, c);
    } else {
      var i :| 0 <= i < |dir| && !SizeClean(fat, dir[i]);
      NotCleanInconsistent(fat, dir, i);
    }
  }

  lemma LeftOver(fat: seq<nat>, c: Chains)
    ensures BlocksOk(fat, c) <==>
            NoDup(Flat(c, |c|)) && NoneReserved(fat, Flat(c, |c|)) && forall b: nat :: !Lost(fat, c, b)
  {
    hide NoDup, NoneReserved;
    if forall b: nat :: !Lost(fat, c, b) {
      forall b | 0 <= b < |fat| && !Special(fat[b]) ensures b in Flat(c, |c|) { assert !Lost(fat, c, b); }
    }
  }

  lemma {:induction false} ScannedChains(fat: seq<nat>, dir: seq<DirEntry>, n: nat) returns (c: Chains)
    requires n <= |dir| && forall i :: 0 <= i < n ==> SizeClean(fat, dir[i])
    ensures |c| == n
    ensures forall i :: 0 <= i < n ==> EntrySizeOk(fat, dir[i], c[i])
  {
    hide ScanEnds;
    if n == 0 { return []; }
    c := ScannedChains(fat, dir, n - 1);
    var ch: seq<nat> := [];
    if Listed(dir[n - 1]) {
      ch :| ScanEnds(fat, dir[n - 1].start, ch) && |ch| - 1 == TruncDiv(dir[n - 1].size, BLOCK_SIZE);
    }
    c := c + [ch];
  }

  lemma EntryDecides(fat: seq<nat>, dir: seq<DirEntry>, i: nat, r: CheckResult, w: seq<nat>)
    requires i < |dir| && Listed(dir[i]) && forall k :: 0 <= k < i ==> SizeClean(fat, dir[k])
    requires Scan(fat, dir[i].start, w) && ScanSays(fat, dir[i], w, r)
    ensures forall x :: SizesVerdict(fat, dir, x) <==> x == r
  {
    hide SizeClean, Endless, Scan, SizesVerdict;
    var e := dir[i];
    if r == NeverReturns {
      if SizeClean(fat, e) { CleanNotEndless(fat, e); }
    } else {
      assert ScanStops(fat, e.start, w) || ScanEnds(fat, e.start, w);
      FaultNotClean(fat, e, w);
    }
    assert EntryVerdict(fat, e, r);
    FirstDecides(fat, dir, i, r);
    SizesDecided(fat, dir, r);
  }

  lemma FirstDecides(fat: seq<nat>, dir: seq<DirEntry>, i: nat, r: CheckResult)
    requires FirstFault(fat, dir, i) && EntryVerdict(fat, dir[i], r)
    ensures SizesVerdict(fat, dir, r)
  {
    hide SizeClean;
  }

  // What a scan over the blocks w has found out.
  ghost predicate ScanSays(fat: seq<nat>, e: DirEntry, w: seq<nat>, r: CheckResult)
    requires Scan(fat, e.start, w)
  {
    match r
    case FreeBlockInChain => fat[w[|w| - 1]] == FREE_FAT_ENTRY
    case InvalidSize => fat[w[|w| - 1]] == EOF_FAT_ENTRY && |w| - 1 != TruncDiv(e.size, BLOCK_SIZE)
    case NeverReturns => Endless(fat, e.start)
    case _ => false
  }

  lemma AllCleanDecides(fat: seq<nat>, dir: seq<DirEntry>)
    requires forall i :: 0 <= i < |dir| ==> SizeClean(fat, dir[i])
    ensures forall x :: SizesVerdict(fat, dir, x) <==> x == Clean
  {
    hide SizeClean;
    SizesDecided(fat, dir, Clean);
  }

  // A walk that comes to a block b and the error it gives rise to.
  ghost predicate HitBy(fat: seq<nat>, start: nat, seen: seq<nat>, w: seq<nat>, b: nat, r: CheckResult) {
    && Hit(fat, start, seen, w, b)
    && r == if fat[b] == EOF_FAT_ENTRY then CrossLinkedEof else CrossLinked
  }

  // The error of a check-off scan that stops at a block b.
  lemma CrossedAt(fat: seq<nat>, dir: seq<DirEntry>, c: Chains, w: seq<nat>, b: nat, r: CheckResult)
    requires |c| < |dir| && Listed(dir[|c|]) && HitBy(fat, dir[|c|].start, Flat(c, |c|), w, b, r)
    requires forall i :: 0 <= i < |c| ==> if Listed(dir[i]) then IsChain(fat, dir[i].start, c[i]) else c[i] == []
    requires NoDup(Flat(c, |c|)) && NoneSpecial(fat, Flat(c, |c|))
    ensures BlocksVerdict(fat, dir, r)
  {
    hide IsChain, NoDup, NoneSpecial;
    AllFitIs(fat, dir[..|c|], c);
    assert CrossAt(fat, dir, c, w, b, fat[b] == EOF_FAT_ENTRY);
  }

  lemma LostDecides(fat: seq<nat>, dir: seq<DirEntry>, c: Chains, b: nat)
    requires AllFit(fat, dir, c) && Lost(fat, c, b)
    ensures forall x :: BlocksVerdict(fat, dir, x) <==> x == LostChain
  {
    hide AllFit, Lost;
    BlocksDecided(fat, dir, LostChain);
  }

  lemma NoneLostDecides(fat: seq<nat>, dir: seq<DirEntry>, c: Chains)
    requires AllFit(fat, dir, c) && forall b: nat :: !Lost(fat, c, b)
    ensures forall x :: BlocksVerdict(fat, dir, x) <==> x == Clean
  {
    hide AllFit, Lost;
    BlocksDecided(fat, dir, Clean);
  }

  // ----- The same without the predicates -----

  // The sizes are in order: entries with a flag of 1 have chains, from their first
  // block over links that are neither 0 nor 2 to a link of 2, of as many links as
  // the size divided by 1024, toward zero.
  lemma SizesMean(fat: seq<nat>, dir: seq<DirEntry>, c: Chains)
    ensures SizesOk(fat, dir, c) <==>
            && |c| == |dir|
            && (forall i :: 0 <= i < |dir| && dir[i].inUse != 1 ==> c[i] == [])
            && (forall i :: 0 <= i < |dir| && dir[i].inUse == 1 ==>
                  && c[i] != [] && c[i][0] == dir[i].start
                  && (forall j :: 0 <= j < |c[i]| ==> c[i][j] < |fat|)
                  && (forall j, k :: 0 <= j && k == j + 1 && k < |c[i]| ==> fat[c[i][j]] == c[i][k])
                  && (forall j :: 0 <= j < |c[i]| - 1 ==> fat[c[i][j]] != 0 && fat[c[i][j]] != 2)
                  && fat[c[i][|c[i]| - 1]] == 2
                  && |c[i]| - 1 == if dir[i].size >= 0 then dir[i].size / 1024 else -(-dir[i].size / 1024))
  {
    forall i | |c| == |dir| && 0 <= i < |dir|
      ensures EntrySizeOk(fat, dir[i], c[i]) <==>
              if dir[i].inUse != 1 then c[i] == [] else
              && c[i] != [] && c[i][0] == dir[i].start
              && (forall j :: 0 <= j < |c[i]| ==> c[i][j] < |fat|)
              && (forall j, k :: 0 <= j && k == j + 1 && k < |c[i]| ==> fat[c[i][j]] == c[i][k])
              && (forall j :: 0 <= j < |c[i]| - 1 ==> fat[c[i][j]] != 0 && fat[c[i][j]] != 2)
              && fat[c[i][|c[i]| - 1]] == 2
              && |c[i]| - 1 == if dir[i].size >= 0 then dir[i].size / 1024 else -(-dir[i].size / 1024)
    {
      EntryMeans(fat, dir[i], c[i]);
    }
  }

  lemma EntryMeans(fat: seq<nat>, e: DirEntry, ch: seq<nat>)
    ensures EntrySizeOk(fat, e, ch) <==>
            if e.inUse != 1 then ch == [] else
            && ch != [] && ch[0] == e.start && (forall j :: 0 <= j < |ch| ==> ch[j] < |fat|)
            && (forall j, k :: 0 <= j && k == j + 1 && k < |ch| ==> fat[ch[j]] == ch[k])
            && (forall j :: 0 <= j < |ch| - 1 ==> fat[ch[j]] != 0 && fat[ch[j]] != 2)
            && fat[ch[|ch| - 1]] == 2
            && |ch| - 1 == if e.size >= 0 then e.size / 1024 else -(-e.size / 1024)
  {
    if Path(fat, e.start, ch) {
      forall j | 0 <= j < |ch| - 1 ensures fat[ch[j]] != 2 { StepOnPath(fat, e.start, ch, j); }
    }
  }

  // The blocks are in order: none is in two places of the chains, none of them has
  // the link 1, and each block with another link than 0 and 1 is on a chain.
  lemma BlocksMean(fat: seq<nat>, c: Chains)
    ensures BlocksOk(fat, c) <==>
            && (forall i, j, k, l ::
                  0 <= i < |c| && 0 <= j < |c[i]| && 0 <= k < |c| && 0 <= l < |c[k]| && c[i][j] == c[k][l] ==>
                    i == k && j == l)
            && (forall i, j :: 0 <= i < |c| && 0 <= j < |c[i]| ==> c[i][j] < |fat| && fat[c[i][j]] != 1)
            && (forall b :: 0 <= b < |fat| && fat[b] != 0 && fat[b] != 1 ==> exists i :: 0 <= i < |c| && b in c[i])
  {
    hide NoDup;
    NoDupMeans(c);
    forall b: nat ensures b in Flat(c, |c|) <==> exists i :: 0 <= i < |c| && b in c[i] { FlatMember(c, |c|, b); }
    forall i, j | 0 <= i < |c| && 0 <= j < |c[i]| ensures c[i][j] in Flat(c, |c|) { assert c[i][j] in c[i]; }
  }

  lemma NoDupMeans(c: Chains)
    ensures NoDup(Flat(c, |c|)) <==> Disjoint(c)
  {
    if NoDup(Flat(c, |c|)) { FlatDisjoint(c, |c|); }
    if Disjoint(c) { FlatNoDup(c, |c|); }
  }

  // Every error occurs: on these tables check() throws the one that is named.
  lemma FreeBlockFound()
    ensures SizesVerdict(FreshFat(), OneFile(3, 0), FreeBlockInChain)
  {
    assert ScanStops(FreshFat(), 3, [3]);
    assert OneFile(3, 0)[0].start == 3;
    EntryDecides(FreshFat(), OneFile(3, 0), 0, FreeBlockInChain, [3]);
  }

  lemma WrongSizeFound()
    ensures SizesVerdict(FreshFat()[3 := 2], OneFile(3, 1024), InvalidSize)
  {
    var fat := FreshFat()[3 := 2];
    assert ScanEnds(fat, 3, [3]);
    assert OneFile(3, 1024)[0].start == 3;
    EntryDecides(fat, OneFile(3, 1024), 0, InvalidSize, [3]);
  }

  function TwoFiles(start: nat, size: int): (dir: seq<DirEntry>)
    ensures |dir| == DIR_SIZE
  {
    OneFile(start, size)[1 := OneFile(start, size)[0]]
  }

  // Two files with the same single block.
  lemma CrossLinkEofFound()
    ensures SizesVerdict(FreshFat()[3 := 2], TwoFiles(3, 0), Clean)
    ensures BlocksVerdict(FreshFat()[3 := 2], TwoFiles(3, 0), CrossLinkedEof)
  {
    var fat, dir := FreshFat()[3 := 2], TwoFiles(3, 0);
    assert ScanEnds(fat, 3, [3]);
    SameStart(fat, dir, [3], true);
  }

  // Two files with the same two blocks.
  lemma CrossLinkFound()
    ensures SizesVerdict(FreshFat()[3 := 4][4 := 2], TwoFiles(3, 1024), Clean)
    ensures BlocksVerdict(FreshFat()[3 := 4][4 := 2], TwoFiles(3, 1024), CrossLinked)
  {
    var fat, dir := FreshFat()[3 := 4][4 := 2], TwoFiles(3, 1024);
    assert ScanEnds(fat, 3, [3, 4]);
    SameStart(fat, dir, [3, 4], false);
  }

  lemma SameStart(fat: seq<nat>, dir: seq<DirEntry>, ch: seq<nat>, ends: bool)
    requires |dir| > 1 && Listed(dir[0]) && Listed(dir[1]) && dir[0].start == dir[1].start
    requires IsChain(fat, dir[0].start, ch) && NoDup(ch) && NoneSpecial(fat, ch)
    requires fat[ch[0]] == EOF_FAT_ENTRY <==> ends
    ensures Crossing(fat, dir, ends)
  {
    var c: Chains := [ch];
    assert Flat(c, 0) == [] && Flat(c, 1) == ch;
    assert AllFit(fat, dir[..1], c);
    assert Path(fat, dir[1].start, [] + [ch[0]]);
    assert ch + [] == ch;
    assert Hit(fat, dir[1].start, ch, [], ch[0]);
    assert CrossAt(fat, dir, c, [], ch[0], ends);
  }

  // A block with a link, and no file.
  lemma LostBlockFound()
    ensures SizesVerdict(FreshFat()[3 := 2], seq(32, _ => ZeroEntry()), Clean)
    ensures BlocksVerdict(FreshFat()[3 := 2], seq(32, _ => ZeroEntry()), LostChain)
  {
    var fat, dir := FreshFat()[3 := 2], seq(32, _ => ZeroEntry());
    var c: Chains := seq(32, _ => []);
    NothingOnChains(c, 32);
    assert AllFit(fat, dir, c) && Lost(fat, c, 3);
  }

  lemma {:induction false} NothingOnChains(c: Chains, k: nat)
    requires k <= |c| && forall i :: 0 <= i < |c| ==> c[i] == []
    ensures Flat(c, k) == []
  {
    if k > 0 { NothingOnChains(c, k - 1); }
  }
}
