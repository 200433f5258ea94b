// The on-disk format of GenericFS (shared/genericfs.h) as a flat image of
// bytes, and what an image says about the use of its blocks.
module GfsImage {
  import opened Bytes

  const BLOCKSIZE := 4096
  const INODE_SIZE := 64
  const WORDS_PER_BLOCK := 1024
  const BITS_PER_BLOCK := 32768
  const INODES_PER_BLOCK := 64

  // Byte offsets inside an inode.
  const DIRECT := 32
  const FIRST_INDIRECT := 48
  const SECOND_INDIRECT := 52

  type Image = seq<byte>

  // ----- Sizes -----

  // Number of pieces of size d that hold n.
  function Ceil(n: nat, d: nat): nat
    requires d > 0
  {
    if n % d == 0 then n / d else n / d + 1
  }

  function FreemapBlocks(n: nat): nat { Ceil(Ceil(n, 8), BLOCKSIZE) }

  function InodeTableBlocks(n: nat): nat { Ceil(n * INODE_SIZE, BLOCKSIZE) }

  // Superblock, the two free maps and the inode table.
  function MetaBlocks(n: nat): nat { 1 + 2 * FreemapBlocks(n) + InodeTableBlocks(n) }

  // The free maps hold a bit and the inode table an inode for every block, and
  // no more blocks than that takes.
  lemma LayoutHolds(n: nat)
    ensures (FreemapBlocks(n) - 1) * BITS_PER_BLOCK < n <= FreemapBlocks(n) * BITS_PER_BLOCK
            || n == FreemapBlocks(n) == 0
    ensures (InodeTableBlocks(n) - 1) * INODES_PER_BLOCK < n <= InodeTableBlocks(n) * INODES_PER_BLOCK
            || n == InodeTableBlocks(n) == 0
  {
  }

  // The metadata and the root directory fit exactly on partitions of five
  // blocks or more.
  lemma LayoutFits(n: nat)
    ensures MetaBlocks(n) + 1 <= n <==> n >= 5
  {
    LayoutHolds(n);
  }

  // lseek() receives a product of 32-bit unsigned numbers.
  function Seek(block: nat): nat { block * BLOCKSIZE % WORD_LIMIT }

  // Every block of a partition is reachable exactly up to 4 GiB.
  lemma SeekExact(n: nat)
    ensures (forall b: nat :: b < n ==> Seek(b) == b * BLOCKSIZE) <==> n <= 0x10_0000
  {
    if n > 0x10_0000 {
      var b: nat := 0x10_0000;
      assert Seek(b) != b * BLOCKSIZE;
    }
  }

  // ----- Bits and inodes -----

  // Bit number k of a map that starts at byte offset at.
  predicate MapBit(img: Image, at: nat, k: nat) {
    at + k / 8 < |img| && BitSet(img[at + k / 8], k % 8)
  }

  predicate InodeBit(img: Image, n: nat, i: nat) { MapBit(img, BLOCKSIZE, i) }

  predicate BlockBit(img: Image, n: nat, b: nat) { MapBit(img, (1 + FreemapBlocks(n)) * BLOCKSIZE, b) }

  // Where inode i lies: the address that create_file computes ...
  function InodeAt(n: nat, i: nat): nat { (1 + 2 * FreemapBlocks(n)) * BLOCKSIZE + INODE_SIZE * i }

  // ... is the one at which the checker looks for it.
  lemma InodeAddresses(n: nat, i: nat)
    ensures InodeAt(n, i) == (1 + 2 * FreemapBlocks(n) + i / 64) * BLOCKSIZE + 64 * (i % 64)
    ensures i < n ==> InodeAt(n, i) + INODE_SIZE <= MetaBlocks(n) * BLOCKSIZE
  {
    LayoutHolds(n);
  }

  // ----- References -----

  // The block numbers from byte offset at on, up to the first zero.
  function Numbers(img: Image, at: nat, k: nat): seq<nat>
    decreases k
  {
    if k == 0 || U32(img, at) == 0 then [] else [U32(img, at)] + Numbers(img, at + 4, k - 1)
  }

  // The non-zero ones among k block numbers.
  function NonZero(img: Image, at: nat, k: nat): seq<nat> {
    if k == 0 then []
    else NonZero(img, at, k - 1) + (if U32(img, at + 4 * (k - 1)) != 0 then [U32(img, at + 4 * (k - 1))] else [])
  }

  // An indirection block and the blocks it lists.
  function FirstRefs(img: Image, b: nat): seq<nat> {
    [b] + Numbers(img, b * BLOCKSIZE, WORDS_PER_BLOCK)
  }

  // The same for each of several indirection blocks.
  function FirstRefsOf(img: Image, bs: seq<nat>): seq<nat> {
    if bs == [] then [] else FirstRefsOf(img, bs[..|bs| - 1]) + FirstRefs(img, bs[|bs| - 1])
  }

  function SecondRefs(img: Image, b: nat): seq<nat> {
    [b] + FirstRefsOf(img, Numbers(img, b * BLOCKSIZE, WORDS_PER_BLOCK))
  }

  // All blocks attached to the inode at byte offset at.
  function InodeRefs(img: Image, at: nat): seq<nat> {
    NonZero(img, at + DIRECT, 4)
    + (if U32(img, at + FIRST_INDIRECT) != 0 then FirstRefs(img, U32(img, at + FIRST_INDIRECT)) else [])
    + (if U32(img, at + SECOND_INDIRECT) != 0 then SecondRefs(img, U32(img, at + SECOND_INDIRECT)) else [])
  }

  // The blocks attached to the allocated inodes among the first k.
  function Attached(img: Image, n: nat, k: nat): multiset<nat> {
    if k == 0 then multiset{}
    else Attached(img, n, k - 1)
         + (if InodeBit(img, n, k - 1) then multiset(InodeRefs(img, InodeAt(n, k - 1))) else multiset{})
  }

  // How often block b is used, by metadata or by files.
  function Uses(img: Image, n: nat, b: nat): nat {
    (if b < MetaBlocks(n) then 1 else 0) + Attached(img, n, n)[b]
  }

  // Nothing refers to a block outside the partition.
  ghost predicate InRange(img: Image, n: nat) {
    forall b :: b in Attached(img, n, n) ==> b < n
  }

  // Every block is used once when its bit is set and not at all otherwise.
  ghost predicate Consistent(img: Image, n: nat) {
    forall b: nat :: b < n ==> Uses(img, n, b) == if BlockBit(img, n, b) then 1 else 0
  }

  predicate WellSized(img: Image, n: nat) {
    5 <= n <= 0x10_0000 && |img| == n * BLOCKSIZE
  }
}
