// The free maps: first-fit allocation of blocks and inodes.
module GfsBitmap {
  import opened Bytes
  import opened GfsImage

  // The first clear bit among the first n, n when there is none.
  function FirstClear(img: Image, at: nat, k: nat, n: nat): (r: nat)
    requires k <= n
    ensures k <= r <= n
    ensures r < n ==> !MapBit(img, at, r)
    ensures forall j :: k <= j < r ==> MapBit(img, at, j)
    decreases n - k
  {
    if k == n || !MapBit(img, at, k) then k else FirstClear(img, at, k + 1, n)
  }

  lemma FirstClearIs(img: Image, at: nat, n: nat, r: nat)
    requires r <= n && (r < n ==> !MapBit(img, at, r)) && forall j :: 0 <= j < r ==> MapBit(img, at, j)
    ensures FirstClear(img, at, 0, n) == r
  {
    hide MapBit, FirstClear;
  }

  // The image with one more bit of a map set.
  function Mark(img: Image, at: nat, k: nat): (r: Image)
    requires at + k / 8 < |img|
    ensures |r| == |img|
  {
    img[at + k / 8 := SetBit(img[at + k / 8], k % 8)]
  }

  // Marking sets that bit and no other, and changes one byte.
  lemma MarkOnly(img: Image, at: nat, k: nat, j: nat)
    requires at + k / 8 < |img|
    ensures MapBit(Mark(img, at, k), at, j) <==> j == k || MapBit(img, at, j)
  {
    hide BitSet, SetBit;
    SetBitOnly(img[at + k / 8], k % 8, j % 8);
  }

  // The next allocation finds a higher number: numbers handed out increase.
  lemma NextIsHigher(img: Image, at: nat, n: nat)
    requires FirstClear(img, at, 0, n) < n && at + n / 8 < |img|
    ensures var k := FirstClear(img, at, 0, n); k < FirstClear(Mark(img, at, k), at, 0, n)
  {
    hide MapBit, FirstClear, Mark;
    var k := FirstClear(img, at, 0, n);
    var img' := Mark(img, at, k);
    forall j | 0 <= j <= k ensures MapBit(img', at, j) { MarkOnly(img, at, k, j); }
  }

  // The number handed out lies inside the partition exactly when one of the
  // partition's own bits is clear; the maps are longer than that.
  lemma InsideIff(img: Image, at: nat, n: nat, limit: nat)
    requires n <= limit
    ensures FirstClear(img, at, 0, limit) < n <==> exists k :: 0 <= k < n && !MapBit(img, at, k)
  {
    hide MapBit, FirstClear;
  }

  // A run of m allocations from a map with m clear bits among the first n.
  function ClearBits(img: Image, at: nat, n: nat): nat {
    if n == 0 then 0 else ClearBits(img, at, n - 1) + (if MapBit(img, at, n - 1) then 0 else 1)
  }

  lemma {:induction false} ClearBitsFewer(img: Image, at: nat, k: nat, n: nat)
    requires at + k / 8 < |img| && !MapBit(img, at, k)
    ensures ClearBits(Mark(img, at, k), at, n) == ClearBits(img, at, n) - (if k < n then 1 else 0)
  {
    hide MapBit, Mark;
    if n > 0 {
      ClearBitsFewer(img, at, k, n - 1);
      MarkOnly(img, at, k, n - 1);
    }
  }

  lemma {:induction false} ClearBitsSome(img: Image, at: nat, n: nat)
    ensures ClearBits(img, at, n) > 0 <==> exists k :: 0 <= k < n && !MapBit(img, at, k)
  {
    hide MapBit;
    if n > 0 { ClearBitsSome(img, at, n - 1); }
  }

  function Allocations(img: Image, at: nat, limit: nat, m: nat): (seq<nat>, Image)
    requires at + limit / 8 < |img|
    decreases m
  {
    var k := FirstClear(img, at, 0, limit);
    if m == 0 then ([], img)
    else
      var (rest, last) := Allocations(Mark(img, at, k), at, limit, m - 1);
      ([k] + rest, last)
  }

  // As long as m bits below n are clear, m allocations hand out m different,
  // increasing numbers below n, all of them clear before.
  lemma {:induction false} AllocationsIncrease(img: Image, at: nat, n: nat, limit: nat, m: nat)
    requires at + limit / 8 < |img| && n <= limit && m <= ClearBits(img, at, n)
    ensures var (ks, last) := Allocations(img, at, limit, m);
            && |ks| == m
            && (forall i :: 0 <= i < m ==> FirstClear(img, at, 0, limit) <= ks[i] < n && !MapBit(img, at, ks[i]))
            && (forall i, j :: 0 <= i < j < m ==> ks[i] < ks[j])
            && ClearBits(last, at, n) == ClearBits(img, at, n) - m
    decreases m
  {
    hide MapBit, Mark, FirstClear, ClearBits;
    if m > 0 {
      ClearBitsSome(img, at, n);
      InsideIff(img, at, n, limit);
      var k := FirstClear(img, at, 0, limit);
      ClearBitsFewer(img, at, k, n);
      NextIsHigher(img, at, limit);
      var img' := Mark(img, at, k);
      AllocationsIncrease(img', at, n, limit, m - 1);
      var (rest, last) := Allocations(img', at, limit, m - 1);
      forall i | 0 <= i < |rest| ensures !MapBit(img, at, rest[i]) { MarkOnly(img, at, k, rest[i]); }
    }
  }
}
