// Bytes as both programs use them.
module Bytes {

  type byte = x: int | 0 <= x < 256

  // 1 << k
  function Weight(k: nat): (w: nat)
    ensures w >= 1
  {
    if k == 0 then 1 else 2 * Weight(k - 1)
  }

  // b & (1 << k)
  predicate BitSet(b: nat, k: nat) {
    if k == 0 then b % 2 == 1 else BitSet(b / 2, k - 1)
  }

  // b | (1 << k)
  function SetBit(b: byte, k: nat): byte
    requires k < 8
  {
    if BitSet(b, k) then b else RoomForBit(b, k, 8); b + Weight(k)
  }

  lemma {:induction false} RoomForBit(b: nat, k: nat, n: nat)
    requires k < n && b < Weight(n) && !BitSet(b, k)
    ensures b + Weight(k) < Weight(n)
    ensures n == 8 ==> Weight(n) == 256
  {
    if k > 0 { RoomForBit(b / 2, k - 1, n - 1); }
    if n == 8 { assert Weight(8) == 256; }
  }

  lemma {:induction false} BitAdded(b: nat, k: nat, j: nat)
    requires !BitSet(b, k)
    ensures BitSet(b + Weight(k), j) <==> j == k || BitSet(b, j)
  {
    if k == 0 {
      assert (b + 1) / 2 == b / 2;
    } else {
      assert (b + Weight(k)) / 2 == b / 2 + Weight(k - 1);
      if j > 0 { BitAdded(b / 2, k - 1, j - 1); }
    }
  }

  // Setting a bit sets that bit and no other.
  lemma SetBitOnly(b: byte, k: nat, j: nat)
    requires k < 8 && j < 8
    ensures BitSet(SetBit(b, k), j) <==> j == k || BitSet(b, j)
  {
    hide BitSet, Weight;
    if !BitSet(b, k) { BitAdded(b, k, j); }
  }

  // Bit k counts for 2^k.
  lemma {:induction false} BitValue(b: nat, k: nat)
    requires k < 8
    ensures BitSet(b, k) <==> b / [1, 2, 4, 8, 16, 32, 64, 128][k] % 2 == 1
  {
    if k > 0 { BitValue(b / 2, k - 1); }
  }

  // ----- 32-bit words, least significant byte first -----

  const WORD_LIMIT := 0x1_0000_0000

  // The word at a byte offset; zero where there are not four bytes.
  function U32(s: seq<byte>, at: nat): (r: nat)
    ensures r < WORD_LIMIT
  {
    if at + 4 <= |s| then Join(s[at], s[at + 1], s[at + 2], s[at + 3]) else 0
  }

  function Join(a: byte, b: byte, c: byte, d: byte): (r: nat)
    ensures r < WORD_LIMIT
  {
    var low: int, mid: int, high: int, top: int := a, b, c, d;
    low + 0x100 * mid + 0x1_0000 * high + 0x100_0000 * top
  }

  // Byte k of a word.
  function Part(v: nat, k: nat): byte
    requires k < 4
  {
    if k == 0 then v % 0x100 else if k == 1 then v / 0x100 % 0x100
    else if k == 2 then v / 0x1_0000 % 0x100 else v / 0x100_0000 % 0x100
  }

  lemma JoinParts(v: nat)
    requires v < WORD_LIMIT
    ensures Join(Part(v, 0), Part(v, 1), Part(v, 2), Part(v, 3)) == v
  {
    var a, b, c := v / 0x100, v / 0x1_0000, v / 0x100_0000;
    assert a / 0x100 == b && b / 0x100 == c;
  }

  // s with bytes r at offset at.
  function Patch(s: seq<byte>, at: nat, r: seq<byte>): (p: seq<byte>)
    requires at + |r| <= |s|
    ensures |p| == |s|
    ensures forall k :: 0 <= k < |s| ==> p[k] == if at <= k < at + |r| then r[k - at] else s[k]
  {
    s[..at] + r + s[at + |r|..]
  }

  function Word(v: nat): (r: seq<byte>)
    ensures |r| == 4
  {
    [Part(v, 0), Part(v, 1), Part(v, 2), Part(v, 3)]
  }

  // A stored word is read back; words elsewhere stay.
  lemma PatchWord(s: seq<byte>, at: nat, v: nat, other: nat)
    requires at + 4 <= |s| && v < WORD_LIMIT
    ensures U32(Patch(s, at, Word(v)), at) == v
    ensures other + 4 <= at || at + 4 <= other ==> U32(Patch(s, at, Word(v)), other) == U32(s, other)
  {
    JoinParts(v);
  }

  // A word is its four bytes with weights 1, 2^8, 2^16 and 2^24, and is stored
  // in that order.
  lemma WordBytes(s: seq<byte>, at: nat)
    requires at + 4 <= |s|
    ensures U32(s, at) == s[at] as int + 256 * s[at + 1] as int + 65536 * s[at + 2] as int + 16777216 * s[at + 3] as int
    ensures Word(U32(s, at)) == s[at..at + 4]
  {
    FourParts(s[at], s[at + 1], s[at + 2], s[at + 3]);
  }

  lemma FourParts(a: int, b: int, c: int, d: int)
    requires 0 <= a < 256 && 0 <= b < 256 && 0 <= c < 256 && 0 <= d < 256
    ensures var v := a + 256 * b + 65536 * c + 16777216 * d;
            v % 256 == a && v / 256 % 256 == b && v / 65536 % 256 == c && v / 16777216 % 256 == d
  {
    var v := a + 256 * b + 65536 * c + 16777216 * d;
    assert v / 256 == b + 256 * c + 65536 * d;
    assert v / 65536 == c + 256 * d;
    assert v / 16777216 == d;
  }

  // Equal bytes make equal words.
  lemma SameWord(s: seq<byte>, t: seq<byte>, at: nat, at': nat)
    requires at + 4 <= |s| && at' + 4 <= |t| && s[at..at + 4] == t[at'..at' + 4]
    ensures U32(s, at) == U32(t, at')
  {
    var x, y := s[at..at + 4], t[at'..at' + 4];
    assert x[0] == y[0] && x[1] == y[1] && x[2] == y[2] && x[3] == y[3];
  }

  // Words laid end to end.
  function WordsOf(words: seq<nat>): (r: seq<byte>)
    ensures |r| == 4 * |words|
  {
    if words == [] then [] else WordsOf(words[..|words| - 1]) + Word(words[|words| - 1])
  }

  // Each of them is read back.
  lemma {:induction false} WordsRead(words: seq<nat>, i: nat)
    requires i < |words| && words[i] < WORD_LIMIT
    ensures U32(WordsOf(words), 4 * i) == words[i]
  {
    hide Join, Part;
    var m := |words| - 1;
    var s, t, at := WordsOf(words), WordsOf(words[..m]), 4 * i;
    if i == m {
      JoinParts(words[i]);
    } else {
      WordsRead(words[..m], i);
      assert s[at..at + 4] == t[at..at + 4];
      SameWord(s, t, at, at);
    }
  }
}
