// The abstract file system a state represents: a map from names to byte
// sequences, and a name with an offset for every open handle.
module FatFiles {
  import opened FatTypes
  import opened FatInvariant
  import opened FatOps

  type Files = map<seq<byte>, seq<byte>>

  // Byte k of the blocks of a chain. (In a valid state the guard holds for
  // every byte of every file.)
  function ByteAt(disk: seq<Block>, ch: seq<nat>, k: nat): byte {
    if k / BLOCK_SIZE < |ch| && ch[k / BLOCK_SIZE] < |disk| then disk[ch[k / BLOCK_SIZE]][k % BLOCK_SIZE] else 0
  }

  function FileBytes(disk: seq<Block>, ch: seq<nat>, size: nat): (r: seq<byte>)
    ensures |r| == size
  {
    seq(size, k requires 0 <= k < size => ByteAt(disk, ch, k))
  }

  // The contents of the file in directory slot i.
  function SlotBytes(s: FsState, c: Chains, i: nat): seq<byte>
    requires i < |s.dir| && i < |c|
  {
    if Used(s.dir[i]) && 0 <= s.dir[i].size then FileBytes(s.disk, c[i], s.dir[i].size) else []
  }

  function Contents(s: FsState, c: Chains): (r: seq<seq<byte>>)
    requires |s.dir| == |c|
    ensures |r| == |c| && forall i :: 0 <= i < |c| ==> r[i] == SlotBytes(s, c, i)
  {
    seq(|c|, i requires 0 <= i < |c| => SlotBytes(s, c, i))
  }

  function Names(dir: seq<DirEntry>): set<seq<byte>> {
    set i | 0 <= i < |dir| && Used(dir[i]) :: CStr(dir[i].name)
  }

  lemma NamesLookup(dir: seq<DirEntry>, n: seq<byte>)
    ensures n in Names(dir) <==> Lookup(dir, n) < |dir|
  {
  }

  // The map from the names in a directory to what their slots hold.
  function MapOf(dir: seq<DirEntry>, contents: seq<seq<byte>>): (m: Files)
    requires |dir| == |contents|
    ensures forall n :: n in m <==> Lookup(dir, n) < |dir|
    ensures forall n :: n in m ==> m[n] == contents[Lookup(dir, n)]
  {
    assert forall n: seq<byte> :: n in Names(dir) <==> Lookup(dir, n) < |dir| by {
      forall n: seq<byte> ensures n in Names(dir) <==> Lookup(dir, n) < |dir| { NamesLookup(dir, n); }
    }
    map n | n in Names(dir) :: contents[Lookup(dir, n)]
  }

  function FilesWith(s: FsState, c: Chains): Files
    requires |s.dir| == |c|
  {
    MapOf(s.dir, Contents(s, c))
  }

  // The files of a state.
  ghost function FilesOf(s: FsState): Files
    requires Shape(s)
  {
    FilesWith(s, ChainsOf(s.fat, s.dir))
  }

  lemma LookupOwn(dir: seq<DirEntry>, i: nat)
    requires NamesUnique(dir) && i < |dir| && Used(dir[i])
    ensures Lookup(dir, CStr(dir[i].name)) == i
  {
  }

  lemma LookupSame(dir: seq<DirEntry>, dir': seq<DirEntry>, n: seq<byte>)
    requires |dir| == |dir'|
    requires forall i :: 0 <= i < |dir| ==> dir[i].name == dir'[i].name && Used(dir[i]) == Used(dir'[i])
    ensures Lookup(dir, n) == Lookup(dir', n)
  {
  }

  // When one slot changes its contents and no slot its name, the map changes at
  // one name.
  lemma MapUpdated(dir: seq<DirEntry>, contents: seq<seq<byte>>,
                   dir': seq<DirEntry>, contents': seq<seq<byte>>, d: nat)
    requires |dir| == |contents| == |dir'| == |contents'|
    requires d < |dir| && Used(dir[d]) && NamesUnique(dir)
    requires forall i :: 0 <= i < |dir| ==> dir[i].name == dir'[i].name && Used(dir[i]) == Used(dir'[i])
    requires forall i :: 0 <= i < |dir| && Used(dir[i]) && i != d ==> contents'[i] == contents[i]
    ensures CStr(dir[d].name) in MapOf(dir, contents)
    ensures MapOf(dir, contents)[CStr(dir[d].name)] == contents[d]
    ensures MapOf(dir', contents') == MapOf(dir, contents)[CStr(dir[d].name) := contents'[d]]
  {
    hide LookupFrom, NamesUnique, Names, CStr;
    LookupOwn(dir, d);
    forall n: seq<byte>
      ensures Lookup(dir, n) == Lookup(dir', n)
    {
      LookupSame(dir, dir', n);
    }
  }

  // Names and sizes of the used slots from slot i on.
  function Listing(dir: seq<DirEntry>, i: nat): seq<(seq<byte>, int)>
    requires i <= |dir|
    decreases |dir| - i
  {
    if i == |dir| then []
    else (if Used(dir[i]) then [(CStr(dir[i].name), dir[i].size)] else []) + Listing(dir, i + 1)
  }

  // What one handle is in the abstract file system.
  datatype View = View(name: seq<byte>, offset: int, mode: Mode)

  ghost function ViewOf(s: FsState, h: int): Option<View>
    requires Shape(s) && 0 <= h < HANDLETABLE_SIZE
  {
    var e := s.handles[h];
    if e.inUse then Some(View(CStr(s.dir[e.dirIndex].name), e.offset, e.mode)) else None
  }

  ghost function Views(s: FsState): (v: seq<Option<View>>)
    requires Shape(s)
    ensures |v| == HANDLETABLE_SIZE
    ensures forall h :: 0 <= h < HANDLETABLE_SIZE ==> v[h] == ViewOf(s, h)
  {
    seq(HANDLETABLE_SIZE, h requires 0 <= h < HANDLETABLE_SIZE => ViewOf(s, h))
  }
}
