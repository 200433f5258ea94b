// The entries of a one-block directory: a forward list inside the block.
module GfsDirectory {
  import opened Bytes
  import opened GfsImage

  datatype Entry = Entry(inode: nat, name: seq<byte>)

  // First byte behind the entry at a byte offset.
  function EntryEnd(d: seq<byte>, at: nat): nat
    requires at + 9 <= |d|
  {
    at + 9 + d[at + 8]
  }

  // The list from at on flows forward, its entries do not overlap, and it ends.
  predicate DirOk(d: seq<byte>, at: nat)
    decreases |d| - at
  {
    && at + 9 <= |d|
    && EntryEnd(d, at) <= |d|
    && (U32(d, at) != 0 ==> EntryEnd(d, at) <= U32(d, at) <= |d| && DirOk(d, U32(d, at)))
  }

  function Entries(d: seq<byte>, at: nat): seq<Entry>
    requires DirOk(d, at)
    decreases |d| - at
  {
    [Entry(U32(d, at + 4), d[at + 9..EntryEnd(d, at)])] + (if U32(d, at) == 0 then [] else Entries(d, U32(d, at)))
  }

  // Offset of the last entry.
  function LastAt(d: seq<byte>, at: nat): (last: nat)
    requires DirOk(d, at)
    ensures at <= last && last + 9 <= |d| && EntryEnd(d, last) <= |d| && U32(d, last) == 0
    decreases |d| - at
  {
    if U32(d, at) == 0 then at else LastAt(d, U32(d, at))
  }

  // What create_file does to the directory block: the old last entry points
  // behind itself, where the new one is laid down.
  function Append(d: seq<byte>, last: nat, inode: nat, name: seq<byte>): (r: seq<byte>)
    requires last + 9 <= |d| && EntryEnd(d, last) + 9 + |name| <= |d| && |name| < 256
    ensures |r| == |d|
  {
    var offset := EntryEnd(d, last);
    var linked := Patch(Patch(d, last, Word(offset)), offset, Word(0));
    Patch(Patch(linked, offset + 4, Word(inode))[offset + 8 := |name|], offset + 9, name)
  }

  lemma AppendFrame(d: seq<byte>, last: nat, inode: nat, name: seq<byte>)
    requires last + 9 <= |d| && EntryEnd(d, last) + 9 + |name| <= |d| && |name| < 256
    ensures var r := Append(d, last, inode, name);
            && (forall k :: 0 <= k < last || last + 4 <= k < EntryEnd(d, last) ==> r[k] == d[k])
            && (forall k :: EntryEnd(d, last) + 9 + |name| <= k < |d| ==> r[k] == d[k])
  {
  }

  lemma AppendFields(d: seq<byte>, last: nat, inode: nat, name: seq<byte>)
    requires last + 9 <= |d| && EntryEnd(d, last) + 9 + |name| <= |d| <= BLOCKSIZE && |name| < 256
    requires inode < WORD_LIMIT
    ensures var r, offset := Append(d, last, inode, name), EntryEnd(d, last);
            && U32(r, last) == offset && U32(r, offset) == 0 && U32(r, offset + 4) == inode
            && EntryEnd(r, last) == offset && EntryEnd(r, offset) == offset + 9 + |name|
            && r[offset + 9..offset + 9 + |name|] == name
  {
    var offset := EntryEnd(d, last);
    var r := Append(d, last, inode, name);
    JoinParts(offset);
    JoinParts(0);
    JoinParts(inode);
    assert r[offset + 9..offset + 9 + |name|] == name;
  }

  lemma WordKept(s: seq<byte>, t: seq<byte>, at: nat)
    requires |s| == |t| && forall k :: at <= k < at + 4 && k < |s| ==> s[k] == t[k]
    ensures U32(s, at) == U32(t, at)
  {
  }

  // An entry in front of the changes stays.
  lemma EntryKept(d: seq<byte>, r: seq<byte>, at: nat)
    requires |d| == |r| && at + 9 <= |d| && EntryEnd(d, at) <= |d|
    requires forall k :: at <= k < EntryEnd(d, at) ==> r[k] == d[k]
    ensures U32(r, at) == U32(d, at) && U32(r, at + 4) == U32(d, at + 4)
    ensures EntryEnd(r, at) == EntryEnd(d, at)
    ensures r[at + 9..EntryEnd(d, at)] == d[at + 9..EntryEnd(d, at)]
  {
    WordKept(d, r, at);
    WordKept(d, r, at + 4);
  }

  // The new entry comes behind the old ones, none of which changes.
  lemma {:induction false} AppendEntries(d: seq<byte>, at: nat, inode: nat, name: seq<byte>)
    requires DirOk(d, at) && |d| <= BLOCKSIZE && |name| < 256 && inode < WORD_LIMIT
    requires EntryEnd(d, LastAt(d, at)) + 9 + |name| <= |d|
    ensures DirOk(Append(d, LastAt(d, at), inode, name), at)
    ensures Entries(Append(d, LastAt(d, at), inode, name), at) == Entries(d, at) + [Entry(inode, name)]
    decreases |d| - at
  {
    hide Append, U32;
    var last := LastAt(d, at);
    var r := Append(d, last, inode, name);
    if U32(d, at) == 0 {
      AppendToLast(d, at, inode, name);
    } else {
      AppendFrame(d, last, inode, name);
      AppendEntries(d, U32(d, at), inode, name);
      EntryKept(d, r, at);
    }
  }

  lemma AppendToLast(d: seq<byte>, at: nat, inode: nat, name: seq<byte>)
    requires at + 9 <= |d| <= BLOCKSIZE && EntryEnd(d, at) + 9 + |name| <= |d| && U32(d, at) == 0
    requires |name| < 256 && inode < WORD_LIMIT
    ensures DirOk(Append(d, at, inode, name), at)
    ensures Entries(Append(d, at, inode, name), at) ==
            [Entry(U32(d, at + 4), d[at + 9..EntryEnd(d, at)]), Entry(inode, name)]
  {
    hide Append, U32;
    var r, offset := Append(d, at, inode, name), EntryEnd(d, at);
    AppendFrame(d, at, inode, name);
    AppendFields(d, at, inode, name);
    WordKept(d, r, at + 4);
    assert r[at + 9..offset] == d[at + 9..offset];
    assert DirOk(r, offset);
    assert Entries(r, offset) == [Entry(inode, name)];
  }
}
