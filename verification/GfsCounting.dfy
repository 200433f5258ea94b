// Counting references: what the loops of disktool/verify.c add up to.
module GfsCounting {
  import opened Bytes
  import opened GfsImage

  // refs have been counted on top of before.
  ghost predicate Counted(before: seq<nat>, after: seq<nat>, refs: multiset<nat>) {
    |after| == |before| && forall b :: 0 <= b < |before| ==> after[b] == before[b] + refs[b]
  }

  lemma CountedOne(before: seq<nat>, after: seq<nat>, refs: multiset<nat>, x: nat)
    requires Counted(before, after, refs) && x < |after|
    ensures Counted(before, after[x := after[x] + 1], refs + multiset{x})
  {
  }

  lemma CountedTwice(a: seq<nat>, b: seq<nat>, c: seq<nat>, r: multiset<nat>, s: multiset<nat>)
    requires Counted(a, b, r) && Counted(b, c, s)
    ensures Counted(a, c, r + s)
  {
  }

  ghost predicate AllBelow(refs: seq<nat>, n: nat) { forall r :: r in refs ==> r < n }

  lemma {:induction false} NumbersMember(img: Image, at: nat, k: nat, i: nat)
    requires i < |Numbers(img, at, k)|
    ensures i < k && Numbers(img, at, k)[i] == U32(img, at + 4 * i) != 0
    decreases k
  {
    if i > 0 { NumbersMember(img, at + 4, k - 1, i - 1); }
  }

  // Skipping the first i numbers.
  lemma {:induction false} NumbersStep(img: Image, at: nat, k: nat, i: nat)
    requires i < k && i <= |Numbers(img, at, k)|
    ensures |Numbers(img, at, k)| == i <==> U32(img, at + 4 * i) == 0
    ensures i < |Numbers(img, at, k)| ==> Numbers(img, at, k)[i] == U32(img, at + 4 * i)
    decreases k
  {
    if i > 0 { NumbersStep(img, at + 4, k - 1, i - 1); }
  }

  lemma {:induction false} NumbersLength(img: Image, at: nat, k: nat)
    ensures |Numbers(img, at, k)| <= k
    decreases k
  {
    if k > 0 && U32(img, at) != 0 { NumbersLength(img, at + 4, k - 1); }
  }

  // Numbers depend on the bytes of their block only.
  lemma {:induction false} NumbersSame(img: Image, img': Image, at: nat, at': nat, k: nat)
    requires at + 4 * k <= |img| && at' + 4 * k <= |img'|
    requires img[at..at + 4 * k] == img'[at'..at' + 4 * k]
    ensures Numbers(img, at, k) == Numbers(img', at', k)
    decreases k
  {
    if k > 0 {
      var x, y := img[at..at + 4 * k], img'[at'..at' + 4 * k];
      assert img[at..at + 4] == x[..4] && img'[at'..at' + 4] == y[..4];
      SameWord(img, img', at, at');
      assert img[at + 4..at + 4 + 4 * (k - 1)] == x[4..] && img'[at' + 4..at' + 4 + 4 * (k - 1)] == y[4..];
      NumbersSame(img, img', at + 4, at' + 4, k - 1);
    }
  }

  lemma {:induction false} NonZeroSame(img: Image, img': Image, at: nat, at': nat, k: nat)
    requires forall j :: 0 <= j < k ==> U32(img, at + 4 * j) == U32(img', at' + 4 * j)
    ensures NonZero(img, at, k) == NonZero(img', at', k)
  {
    if k > 0 { NonZeroSame(img, img', at, at', k - 1); }
  }

  lemma {:induction false} NonZeroHas(img: Image, at: nat, k: nat, i: nat)
    requires i < k && U32(img, at + 4 * i) != 0
    ensures U32(img, at + 4 * i) in NonZero(img, at, k)
  {
    if i < k - 1 { NonZeroHas(img, at, k - 1, i); }
  }

  // What one allocated inode refers to is among what is attached.
  lemma {:induction false} AttachedHas(img: Image, n: nat, k: nat, i: nat)
    requires i < k && InodeBit(img, n, i)
    ensures multiset(InodeRefs(img, InodeAt(n, i))) <= Attached(img, n, k)
  {
    hide InodeRefs, InodeBit, InodeAt;
    if i < k - 1 { AttachedHas(img, n, k - 1, i); }
  }

  lemma {:induction false} AttachedGrows(img: Image, n: nat, k: nat, m: nat)
    requires k <= m
    ensures Attached(img, n, k) <= Attached(img, n, m)
  {
    hide InodeRefs, InodeBit, InodeAt;
    if k < m { AttachedGrows(img, n, k, m - 1); }
  }

  // ... and references of two inodes add up.
  lemma {:induction false} AttachedTwo(img: Image, n: nat, k: nat, i: nat, j: nat)
    requires i < j < k && InodeBit(img, n, i) && InodeBit(img, n, j)
    ensures multiset(InodeRefs(img, InodeAt(n, i))) + multiset(InodeRefs(img, InodeAt(n, j))) <= Attached(img, n, k)
  {
    hide InodeRefs, InodeBit, InodeAt;
    if j < k - 1 { AttachedTwo(img, n, k - 1, i, j); } else { AttachedHas(img, n, k - 1, i); }
  }

  lemma InodeRefsBelow(img: Image, n: nat, i: nat)
    requires InRange(img, n) && i < n && InodeBit(img, n, i)
    ensures AllBelow(InodeRefs(img, InodeAt(n, i)), n)
  {
    AttachedHas(img, n, n, i);
    var refs := InodeRefs(img, InodeAt(n, i));
    forall r | r in refs ensures r < n {
      assert r in multiset(refs);
      assert r in Attached(img, n, n);
    }
  }

  lemma FirstRefsOfStep(img: Image, bs: seq<nat>, i: nat)
    requires i < |bs|
    ensures FirstRefsOf(img, bs[..i + 1]) == FirstRefsOf(img, bs[..i]) + FirstRefs(img, bs[i])
  {
    hide FirstRefs, Numbers, U32;
    assert bs[..i + 1][..i] == bs[..i];
  }

  lemma {:induction false} FirstRefsOfBelow(img: Image, bs: seq<nat>, n: nat, i: nat)
    requires AllBelow(FirstRefsOf(img, bs), n) && i < |bs|
    ensures AllBelow(FirstRefs(img, bs[i]), n)
  {
    hide FirstRefs, Numbers, U32;
    var m := |bs| - 1;
    var head, last := FirstRefsOf(img, bs[..m]), FirstRefs(img, bs[m]);
    assert FirstRefsOf(img, bs) == head + last;
    AllBelowParts(head, last, n);
    if i < m { FirstRefsOfBelow(img, bs[..m], n, i); }
  }

  lemma AllBelowParts(head: seq<nat>, last: seq<nat>, n: nat)
    requires AllBelow(head + last, n)
    ensures AllBelow(head, n) && AllBelow(last, n)
  {
    forall r | r in head ensures r < n { assert r in head + last; }
    forall r | r in last ensures r < n { assert r in head + last; }
  }

  // ----- What the checker prints -----

  datatype Report =
    | MultipleUse(block: nat, count: nat)
    | AllocatedNotUsed(block: nat)
    | UnallocatedInUse(block: nat)

  // The reports of multiple use among the first k blocks.
  function MultipleReports(counters: seq<nat>, k: nat): seq<Report>
    requires k <= |counters|
  {
    if k == 0 then []
    else MultipleReports(counters, k - 1)
         + (if counters[k - 1] != 0 && counters[k - 1] != 1 then [MultipleUse(k - 1, counters[k - 1])] else [])
  }

  // The reports on blocks whose bit and count disagree.
  function FreemapReports(img: Image, n: nat, counters: seq<nat>, k: nat): seq<Report>
    requires k <= |counters|
  {
    if k == 0 then []
    else FreemapReports(img, n, counters, k - 1)
         + (if BlockBit(img, n, k - 1) && counters[k - 1] != 1 then [AllocatedNotUsed(k - 1)]
            else if !BlockBit(img, n, k - 1) && counters[k - 1] != 0 then [UnallocatedInUse(k - 1)]
            else [])
  }

  lemma {:induction false} MultipleSilent(counters: seq<nat>, k: nat)
    requires k <= |counters|
    ensures MultipleReports(counters, k) == [] <==> forall b :: 0 <= b < k ==> counters[b] <= 1
  {
    if k > 0 { MultipleSilent(counters, k - 1); }
  }

  lemma {:induction false} FreemapSilent(img: Image, n: nat, counters: seq<nat>, k: nat)
    requires k <= |counters|
    ensures FreemapReports(img, n, counters, k) == [] <==>
            forall b :: 0 <= b < k ==> counters[b] == if BlockBit(img, n, b) then 1 else 0
  {
    hide BlockBit;
    if k > 0 { FreemapSilent(img, n, counters, k - 1); }
  }

  // Each report names a block and, if it is used more than once, how often; there
  // is one for every such block, and they come in the order of the blocks.
  lemma {:induction false} MultipleReportsAre(counters: seq<nat>, k: nat)
    requires k <= |counters|
    ensures var r := MultipleReports(counters, k);
            && (forall x :: x in r <==> x.MultipleUse? && x.block < k && x.count == counters[x.block] && x.count > 1)
            && (forall i, j :: 0 <= i < j < |r| ==> r[i].block < r[j].block)
  {
    if k > 0 { MultipleReportsAre(counters, k - 1); }
  }

  // The same for blocks whose bit is set but that are not used once, and for blocks
  // in use whose bit is clear.
  lemma {:induction false} FreemapReportsAre(img: Image, n: nat, counters: seq<nat>, k: nat)
    requires k <= |counters|
    ensures var r := FreemapReports(img, n, counters, k);
            && (forall x :: x in r <==>
                  x.block < k
                  && ((x.AllocatedNotUsed? && BlockBit(img, n, x.block) && counters[x.block] != 1)
                      || (x.UnallocatedInUse? && !BlockBit(img, n, x.block) && counters[x.block] > 0)))
            && (forall i, j :: 0 <= i < j < |r| ==> r[i].block < r[j].block)
  {
    hide BlockBit;
    if k > 0 { FreemapReportsAre(img, n, counters, k - 1); }
  }

  // The number of uses of every block.
  function UseCounts(img: Image, n: nat): (c: seq<nat>)
    ensures |c| == n
  {
    seq(n, b requires 0 <= b < n => Uses(img, n, b))
  }

  // The checker is silent exactly when every block is used once if its bit is
  // set and not at all otherwise.
  lemma SilentIff(img: Image, n: nat)
    ensures MultipleReports(UseCounts(img, n), n) + FreemapReports(img, n, UseCounts(img, n), n) == []
            <==> Consistent(img, n)
  {
    hide Uses, BlockBit;
    MultipleSilent(UseCounts(img, n), n);
    FreemapSilent(img, n, UseCounts(img, n), n);
    if Consistent(img, n) {
      forall b | 0 <= b < n ensures UseCounts(img, n)[b] == if BlockBit(img, n, b) then 1 else 0 { }
    } else {
      var b: nat :| b < n && Uses(img, n, b) != if BlockBit(img, n, b) then 1 else 0;
      assert UseCounts(img, n)[b] != if BlockBit(img, n, b) then 1 else 0;
    }
  }
}
