// open(), close(), truncate(), remove() and format() keep the invariant and
// change the map of files in one place.
module FatDirProofs {
  import opened FatTypes
  import opened FatInvariant
  import opened FatOps
  import opened FatFiles
  import opened FatWriteProofs

  // ----- Creating a file -----

  // Claiming a free block as the first block of a new file in an unused slot.
  lemma CreatedEntry(fat: seq<nat>, dir: seq<DirEntry>, c: Chains, d: nat, b: nat, name: Name, i: nat)
    requires StructureOk(fat, dir, c)
    requires d < DIR_SIZE && !Used(dir[d]) && 3 <= b < FAT_SIZE && !OnChain(c, b) && i < DIR_SIZE
    ensures EntryOk(fat[b := EOF_FAT_ENTRY],
                    dir[d := dir[d].(inUse := 1, start := b, size := 0, name := StrCpy(dir[d].name, name))][i],
                    c[d := [b]][i])
  {
    hide Disjoint, NoneLost, NamesUnique, StrCpy, CStr;
    StrCpyRoundTrip(dir[d].name, name);
    assert EntryOk(fat, dir[i], c[i]);
    assert b !in c[i];
    if i != d && Used(dir[i]) { ChainUntouched(fat, fat[b := EOF_FAT_ENTRY], dir[i].start, c[i]); }
  }

  lemma CreatedNames(dir: seq<DirEntry>, d: nat, e: DirEntry)
    requires NamesUnique(dir) && d < |dir| && !Used(dir[d])
    requires Lookup(dir, CStr(e.name)) == |dir|
    ensures NamesUnique(dir[d := e])
  {
    hide CStr;
  }

  lemma CreatedChains(fat: seq<nat>, c: Chains, d: nat, b: nat)
    requires |fat| == FAT_SIZE && Disjoint(c) && NoneLost(fat, c) && d < |c| && c[d] == []
    requires 3 <= b < FAT_SIZE && !OnChain(c, b)
    ensures Disjoint(c[d := [b]])
    ensures NoneLost(fat[b := EOF_FAT_ENTRY], c[d := [b]])
  {
    assert c[d] + [b] == [b];
    ExtendedDisjoint(c, d, b);
    var fat', c' := fat[b := EOF_FAT_ENTRY], c[d := [b]];
    forall x | 3 <= x < FAT_SIZE && fat'[x] != FREE_FAT_ENTRY
      ensures OnChain(c', x)
    {
      if x == b {
        assert b in c'[d];
      } else {
        assert OnChain(c, x);
        var i :| 0 <= i < |c| && x in c[i];
        assert x in c'[i];
      }
    }
  }

  ghost predicate Creatable(s: FsState, c: Chains, h: nat, d: nat, b: nat, name: Name) {
    && ValidWith(s, c)
    && h < HANDLETABLE_SIZE && !s.handles[h].inUse
    && d < DIR_SIZE && !Used(s.dir[d])
    && b < FAT_SIZE && s.fat[b] == FREE_FAT_ENTRY
    && Lookup(s.dir, name) == DIR_SIZE
  }

  lemma CreateStructure(s: FsState, c: Chains, h: nat, d: nat, b: nat, name: Name)
    requires Creatable(s, c, h, d, b, name)
    ensures StructureOk(OpenCreate(s, h, d, b, name).fat, OpenCreate(s, h, d, b, name).dir, c[d := [b]])
  {
    hide EntryOk, Disjoint, NoneLost, NamesUnique, OnChain, StrCpy, CStr, Lookup, HandlesOk, CountFree;
    FreeBlockOffChains(s.fat, s.dir, c, b);
    UnusedSlotEmpty(s, c, d);
    StrCpyRoundTrip(s.dir[d].name, name);
    var r := OpenCreate(s, h, d, b, name);
    forall i | 0 <= i < DIR_SIZE
      ensures r.dir[i].start < FAT_SIZE && EntryOk(r.fat, r.dir[i], c[d := [b]][i])
    {
      CreatedEntry(s.fat, s.dir, c, d, b, name, i);
    }
    CreatedNames(s.dir, d, r.dir[d]);
    CreatedChains(s.fat, c, d, b);
  }

  lemma UnusedSlotEmpty(s: FsState, c: Chains, d: nat)
    requires ValidWith(s, c) && d < DIR_SIZE && !Used(s.dir[d])
    ensures c[d] == []
    ensures forall h :: 0 <= h < HANDLETABLE_SIZE && s.handles[h].inUse ==> s.handles[h].dirIndex != d
  {
    hide Disjoint, NoneLost, NamesUnique;
    assert EntryOk(s.fat, s.dir[d], c[d]);
    forall h | 0 <= h < HANDLETABLE_SIZE && s.handles[h].inUse ensures s.handles[h].dirIndex != d {
      assert CursorOk(s.handles[h], s.dir, c);
    }
  }

  lemma CreateHandles(s: FsState, c: Chains, h: nat, d: nat, b: nat, name: Name)
    requires Creatable(s, c, h, d, b, name)
    ensures HandlesOk(OpenCreate(s, h, d, b, name).handles, OpenCreate(s, h, d, b, name).dir, c[d := [b]])
  {
    hide EntryOk, Disjoint, NoneLost, NamesUnique, StrCpy, CStr, Lookup;
    UnusedSlotEmpty(s, c, d);
    var r := OpenCreate(s, h, d, b, name);
    forall g | 0 <= g < HANDLETABLE_SIZE
      ensures CursorOk(r.handles[g], r.dir, c[d := [b]])
    {
      assert CursorOk(s.handles[g], s.dir, c);
    }
  }

  lemma CreateValid(s: FsState, c: Chains, h: nat, d: nat, b: nat, name: Name)
    requires Creatable(s, c, h, d, b, name)
    ensures ValidWith(OpenCreate(s, h, d, b, name), c[d := [b]])
  {
    hide StructureOk, HandlesOk, Lookup;
    CreateStructure(s, c, h, d, b, name);
    CreateHandles(s, c, h, d, b, name);
    FreeBlockOffChains(s.fat, s.dir, c, b);
  }

  // A new used slot adds one name to the map.
  lemma MapInserted(dir: seq<DirEntry>, contents: seq<seq<byte>>,
                    dir': seq<DirEntry>, contents': seq<seq<byte>>, d: nat)
    requires |dir| == |contents| == |dir'| == |contents'|
    requires d < |dir| && !Used(dir[d]) && Used(dir'[d]) && Lookup(dir, CStr(dir'[d].name)) == |dir|
    requires forall i :: 0 <= i < |dir| && i != d ==> dir[i].name == dir'[i].name && Used(dir[i]) == Used(dir'[i])
    requires forall i :: 0 <= i < |dir| && Used(dir[i]) ==> contents'[i] == contents[i]
    ensures CStr(dir'[d].name) !in MapOf(dir, contents)
    ensures MapOf(dir', contents') == MapOf(dir, contents)[CStr(dir'[d].name) := contents'[d]]
  {
    hide LookupFrom, Names, CStr;
    forall n: seq<byte>
      ensures Lookup(dir', n) == if n == CStr(dir'[d].name) then d else Lookup(dir, n)
    {
    }
  }

  // A slot that becomes unused takes one name off the map.
  lemma MapRemoved(dir: seq<DirEntry>, contents: seq<seq<byte>>,
                   dir': seq<DirEntry>, contents': seq<seq<byte>>, d: nat)
    requires |dir| == |contents| == |dir'| == |contents'|
    requires NamesUnique(dir) && d < |dir| && Used(dir[d]) && !Used(dir'[d])
    requires forall i :: 0 <= i < |dir| && i != d ==> dir[i].name == dir'[i].name && Used(dir[i]) == Used(dir'[i])
    requires forall i :: 0 <= i < |dir| && i != d && Used(dir[i]) ==> contents'[i] == contents[i]
    ensures CStr(dir[d].name) in MapOf(dir, contents)
    ensures MapOf(dir', contents') == MapOf(dir, contents) - {CStr(dir[d].name)}
  {
    hide LookupFrom, Names, CStr, NamesUnique, MapOf;
    forall n: seq<byte>
      ensures Lookup(dir', n) == if n == CStr(dir[d].name) then |dir| else Lookup(dir, n)
      ensures Lookup(dir, n) == d <==> n == CStr(dir[d].name)
    {
      LookupRemoved(dir, dir', d, n);
    }
  }

  lemma LookupRemoved(dir: seq<DirEntry>, dir': seq<DirEntry>, d: nat, n: seq<byte>)
    requires |dir| == |dir'| && NamesUnique(dir) && d < |dir| && Used(dir[d]) && !Used(dir'[d])
    requires forall i :: 0 <= i < |dir| && i != d ==> dir[i].name == dir'[i].name && Used(dir[i]) == Used(dir'[i])
    ensures Lookup(dir', n) == if n == CStr(dir[d].name) then |dir| else Lookup(dir, n)
    ensures Lookup(dir, n) == d <==> n == CStr(dir[d].name)
  {
    hide LookupFrom, CStr;
    LookupOwn(dir, d);
    var i := Lookup(dir', n);
    if i < |dir| { LookupOwn(dir, i); }
  }

  lemma CreateFiles(s: FsState, c: Chains, h: nat, d: nat, b: nat, name: Name)
    requires Creatable(s, c, h, d, b, name)
    ensures FilesWith(OpenCreate(s, h, d, b, name), c[d := [b]]) == FilesWith(s, c)[name := []]
    ensures name !in FilesWith(s, c)
  {
    hide ValidWith, StrCpy, CStr, Lookup, FileBytes, MapOf;
    ValidLengths(s, c);
    StrCpyRoundTrip(s.dir[d].name, name);
    var r, c' := OpenCreate(s, h, d, b, name), c[d := [b]];
    MapInserted(s.dir, Contents(s, c), r.dir, Contents(r, c'), d);
    assert SlotBytes(r, c', d) == [];
  }

  lemma ValidLengths(s: FsState, c: Chains)
    requires ValidWith(s, c)
    ensures |c| == DIR_SIZE && Shape(s)
  {
  }

  // ----- Opening an existing file, closing -----

  lemma OpenExistingValid(s: FsState, c: Chains, h: nat, d: nat, mode: Mode)
    requires ValidWith(s, c)
    requires h < HANDLETABLE_SIZE && !s.handles[h].inUse && d < DIR_SIZE && Used(s.dir[d])
    requires mode == WRITE ==>
               forall g :: 0 <= g < HANDLETABLE_SIZE && IsWriter(s.handles[g]) ==> s.handles[g].dirIndex != d
    ensures ValidWith(OpenExisting(s, h, d, mode), c)
  {
    hide NamesUnique, Disjoint, NoneLost, ChainOf, BootOk;
    EntryChain(s.fat, s.dir, c, d);
    var r := OpenExisting(s, h, d, mode);
    forall g | 0 <= g < HANDLETABLE_SIZE
      ensures CursorOk(r.handles[g], r.dir, c)
    {
      assert CursorOk(s.handles[g], s.dir, c);
    }
  }

  // The computed chain of a used slot is the one in the family.
  lemma EntryChain(fat: seq<nat>, dir: seq<DirEntry>, c: Chains, d: nat)
    requires StructureOk(fat, dir, c) && d < DIR_SIZE && Used(dir[d])
    ensures ChainOf(fat, dir[d].start) == c[d] && c[d] != [] && c[d][0] == dir[d].start
    ensures |c[d]| == dir[d].size / BLOCK_SIZE + 1 && 0 <= dir[d].size
    ensures forall j :: 0 <= j < |c[d]| ==> 3 <= c[d][j] < FAT_SIZE
    ensures dir[d].size < FAT_SIZE * BLOCK_SIZE
  {
    assert EntryOk(fat, dir[d], c[d]);
    Pigeonhole(c[d], FAT_SIZE);
    ChainIs(fat, dir[d].start, c[d], FAT_SIZE - 1);
  }

  lemma CloseValid(s: FsState, c: Chains, h: nat)
    requires ValidWith(s, c)
    ensures ValidWith(CloseSpec(s, h).0, c)
  {
    hide NamesUnique, Disjoint, NoneLost, BootOk, EntryOk;
    var r := CloseSpec(s, h).0;
    forall g | 0 <= g < HANDLETABLE_SIZE
      ensures CursorOk(r.handles[g], r.dir, c)
    {
      assert CursorOk(s.handles[g], s.dir, c);
    }
  }

  // Changing handles changes no file.
  lemma HandlesOnly(s: FsState, r: FsState)
    requires Shape(s) && Shape(r) && r.fat == s.fat && r.dir == s.dir && r.disk == s.disk
    ensures FilesOf(r) == FilesOf(s)
  {
    var c := ChainsOf(s.fat, s.dir);
    assert Contents(r, c) == Contents(s, c);
  }

  // ----- Freeing chains -----

  // keep is all that remains of the chain of slot d.
  ghost function Cut(fat: seq<nat>, ch: seq<nat>, keep: seq<nat>): (r: seq<nat>)
    requires keep == [] || (ch != [] && keep == [ch[0]] && ch[0] < |fat|)
    ensures |r| == |fat|
  {
    if keep == [] then FreeBlocks(fat, ch) else FreeBlocks(fat, ch)[ch[0] := EOF_FAT_ENTRY]
  }

  ghost predicate Cuttable(fat: seq<nat>, dir: seq<DirEntry>, c: Chains, d: nat, keep: seq<nat>) {
    && StructureOk(fat, dir, c)
    && d < DIR_SIZE && Used(dir[d])
    && (keep == [] || (c[d] != [] && keep == [c[d][0]] && c[d][0] < FAT_SIZE))
  }

  // Cutting a chain loses no block, frees all of the chain but what is kept, and
  // touches no link of another file.
  lemma CutNoneLost(fat: seq<nat>, c: Chains, d: nat, keep: seq<nat>)
    requires |fat| == FAT_SIZE && NoneLost(fat, c) && Disjoint(c) && d < |c|
    requires keep == [] || (c[d] != [] && keep == [c[d][0]] && c[d][0] < FAT_SIZE)
    ensures NoneLost(Cut(fat, c[d], keep), c[d := keep])
    ensures forall i, j :: 0 <= i < |c| && i != d && 0 <= j < |c[i]| && c[i][j] < FAT_SIZE ==>
              Cut(fat, c[d], keep)[c[i][j]] == fat[c[i][j]]
    ensures forall b :: b in c[d] && b < FAT_SIZE && b !in keep ==> Cut(fat, c[d], keep)[b] == FREE_FAT_ENTRY
  {
    var fat', c' := Cut(fat, c[d], keep), c[d := keep];
    forall b | 3 <= b < FAT_SIZE && fat'[b] != FREE_FAT_ENTRY
      ensures OnChain(c', b)
    {
      if b in c[d] {
        assert b in c'[d];
      } else {
        assert OnChain(c, b);
        var i :| 0 <= i < |c| && b in c[i];
        assert b in c'[i];
      }
    }
  }

  lemma CutOther(fat: seq<nat>, dir: seq<DirEntry>, c: Chains, d: nat, keep: seq<nat>, i: nat)
    requires Cuttable(fat, dir, c, d, keep) && i < DIR_SIZE && i != d
    ensures EntryOk(Cut(fat, c[d], keep), dir[i], c[i])
  {
    hide NamesUnique, NoneLost;
    assert EntryOk(fat, dir[i], c[i]);
    if Used(dir[i]) {
      var fat' := Cut(fat, c[d], keep);
      forall j | 0 <= j < |c[i]| ensures fat'[c[i][j]] == fat[c[i][j]] { assert c[i][j] !in c[d]; }
      ChainUntouched(fat, fat', dir[i].start, c[i]);
    }
  }

  lemma CutChains(fat: seq<nat>, dir: seq<DirEntry>, c: Chains, d: nat, keep: seq<nat>)
    requires Cuttable(fat, dir, c, d, keep)
    ensures Disjoint(c[d := keep]) && NoneLost(Cut(fat, c[d], keep), c[d := keep])
    ensures LinksInRange(Cut(fat, c[d], keep)) && Reserved(Cut(fat, c[d], keep))
  {
    hide NamesUnique, EntryOk, NoneLost, OnChain, ChainOf;
    EntryChain(fat, dir, c, d);
    CutNoneLost(fat, c, d, keep);
  }

  lemma TruncateStructure(fat: seq<nat>, dir: seq<DirEntry>, c: Chains, d: nat)
    requires StructureOk(fat, dir, c) && d < DIR_SIZE && Used(dir[d])
    ensures StructureOk(FreeBlocks(fat, ChainOf(fat, dir[d].start))[dir[d].start := EOF_FAT_ENTRY],
                        dir[d := dir[d].(size := 0)], c[d := [dir[d].start]])
  {
    hide NoneLost, Disjoint, ChainOf, FreeBlocks, IsChain, Reserved;
    EntryChain(fat, dir, c, d);
    var keep := [dir[d].start];
    CutChains(fat, dir, c, d, keep);
    var fat', dir', c' := Cut(fat, c[d], keep), dir[d := dir[d].(size := 0)], c[d := keep];
    assert NamesUnique(dir');
    forall i | 0 <= i < DIR_SIZE
      ensures dir'[i].start < FAT_SIZE && EntryOk(fat', dir'[i], c'[i])
    {
      assert EntryOk(fat, dir[i], c[i]);
      if i == d { SingleChain(fat', dir[d].start); } else { CutOther(fat, dir, c, d, keep, i); }
    }
  }

  lemma SingleChain(fat: seq<nat>, b: nat)
    requires b < |fat| && fat[b] == EOF_FAT_ENTRY
    ensures IsChain(fat, b, [b])
  {
  }

  lemma RemoveStructure(fat: seq<nat>, dir: seq<DirEntry>, c: Chains, d: nat)
    requires StructureOk(fat, dir, c) && d < DIR_SIZE && Used(dir[d])
    ensures StructureOk(FreeBlocks(fat, ChainOf(fat, dir[d].start)), dir[d := dir[d].(inUse := 0)], c[d := []])
  {
    hide NoneLost, Disjoint, ChainOf, FreeBlocks, IsChain, Reserved;
    EntryChain(fat, dir, c, d);
    CutChains(fat, dir, c, d, []);
    var fat', dir', c' := Cut(fat, c[d], []), dir[d := dir[d].(inUse := 0)], c[d := []];
    assert NamesUnique(dir');
    forall i | 0 <= i < DIR_SIZE
      ensures dir'[i].start < FAT_SIZE && EntryOk(fat', dir'[i], c'[i])
    {
      assert EntryOk(fat, dir[i], c[i]);
      if i != d { CutOther(fat, dir, c, d, [], i); }
    }
  }

  // No open handle refers to the file with this name.
  ghost predicate NotOpen(s: FsState, name: seq<byte>)
    requires Shape(s)
  {
    forall h :: 0 <= h < HANDLETABLE_SIZE && s.handles[h].inUse ==>
      CStr(s.dir[s.handles[h].dirIndex].name) != name
  }

  // Cursors of the other files do not notice.
  lemma CutHandles(s: FsState, c: Chains, d: nat, e: DirEntry, ch: seq<nat>)
    requires ValidWith(s, c) && d < DIR_SIZE && Used(s.dir[d]) && NotOpen(s, CStr(s.dir[d].name))
    ensures HandlesOk(s.handles, s.dir[d := e], c[d := ch])
  {
    hide NamesUnique, Disjoint, NoneLost, BootOk, EntryOk, CStr;
    forall g | 0 <= g < HANDLETABLE_SIZE
      ensures CursorOk(s.handles[g], s.dir[d := e], c[d := ch])
    {
      assert CursorOk(s.handles[g], s.dir, c);
    }
  }

  lemma StructureRanges(fat: seq<nat>, dir: seq<DirEntry>, c: Chains)
    requires StructureOk(fat, dir, c)
    ensures LinksInRange(fat) && |dir| == DIR_SIZE
    ensures forall i :: 0 <= i < DIR_SIZE ==> dir[i].start < FAT_SIZE
  {
  }

  lemma TruncateValid(s: FsState, c: Chains, name: Name)
    requires ValidWith(s, c) && NotOpen(s, name) && Lookup(s.dir, name) < DIR_SIZE
    ensures var d := Lookup(s.dir, name); ValidWith(TruncateSpec(s, name), c[d := [s.dir[d].start]])
  {
    hide StructureOk, HandlesOk, FreeBlocks, ChainOf, LookupFrom, CStr, BootOk;
    var d := Lookup(s.dir, name);
    ValidLengths(s, c);
    TruncateStructure(s.fat, s.dir, c, d);
    StructureRanges(TruncateSpec(s, name).fat, TruncateSpec(s, name).dir, c[d := [s.dir[d].start]]);
    CutHandles(s, c, d, s.dir[d].(size := 0), [s.dir[d].start]);
  }

  lemma RemoveValid(s: FsState, c: Chains, name: Name)
    requires ValidWith(s, c) && NotOpen(s, name) && Lookup(s.dir, name) < DIR_SIZE
    ensures ValidWith(RemoveSpec(s, name), c[Lookup(s.dir, name) := []])
  {
    hide StructureOk, HandlesOk, FreeBlocks, ChainOf, LookupFrom, CStr, BootOk;
    var d := Lookup(s.dir, name);
    ValidLengths(s, c);
    RemoveStructure(s.fat, s.dir, c, d);
    StructureRanges(RemoveSpec(s, name).fat, RemoveSpec(s, name).dir, c[d := []]);
    CutHandles(s, c, d, s.dir[d].(inUse := 0), []);
  }

  lemma CutFiles(s: FsState, c: Chains, name: Name)
    requires ValidWith(s, c) && Lookup(s.dir, name) < DIR_SIZE
    ensures name in FilesWith(s, c)
    ensures var d := Lookup(s.dir, name);
            FilesWith(TruncateSpec(s, name), c[d := [s.dir[d].start]]) == FilesWith(s, c)[name := []]
    ensures FilesWith(RemoveSpec(s, name), c[Lookup(s.dir, name) := []]) == FilesWith(s, c) - {name}
  {
    hide ValidWith, FreeBlocks, ChainOf, LookupFrom, CStr, MapOf, NamesUnique, FileBytes;
    ValidLengths(s, c);
    UniqueNames(s, c);
    var d := Lookup(s.dir, name);
    var t, r := TruncateSpec(s, name), RemoveSpec(s, name);
    MapUpdated(s.dir, Contents(s, c), t.dir, Contents(t, c[d := [s.dir[d].start]]), d);
    assert SlotBytes(t, c[d := [s.dir[d].start]], d) == [];
    MapRemoved(s.dir, Contents(s, c), r.dir, Contents(r, c[d := []]), d);
  }

  lemma UniqueNames(s: FsState, c: Chains)
    requires ValidWith(s, c)
    ensures NamesUnique(s.dir)
  {
  }

  // ----- format -----

  // The boot block that format writes is the one the constructor recognises.
  lemma BootBlockOk()
    ensures BootOk(BootBlock())
  {
    var b := BootBlock();
    var z := Zeros(BLOCK_SIZE)[0 := FORMATTED];
    assert b[..BLOCK_SIZE - 1] == z[..BLOCK_SIZE - 1];
  }

  ghost predicate NothingOpen(s: FsState) {
    forall h :: 0 <= h < |s.handles| ==> !s.handles[h].inUse
  }

  lemma FormatValid(s: FsState)
    requires |s.handles| == HANDLETABLE_SIZE && |s.disk| >= FAT_SIZE && NothingOpen(s)
    ensures Valid(FormatSpec(s)) && FilesOf(FormatSpec(s)) == map[]
  {
    hide BootOk, BootBlock, ChainOf, CStr, Zeros;
    BootBlockOk();
    var r := FormatSpec(s);
    var c: Chains := seq(DIR_SIZE, _ => []);
    assert ValidWith(r, c);
    ValidIs(r, c);
    forall n: seq<byte> ensures n !in FilesOf(r) { }
  }
}
