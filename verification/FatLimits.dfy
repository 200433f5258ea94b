// The exact limits of use: what goes wrong, and exactly when, once the
// interface is used in the ways its comments leave undefined or unmentioned.
module FatLimits {
  import opened FatTypes
  import opened FatInvariant
  import opened FatOps
  import opened FatFiles
  import opened FatDirProofs

  // ----- truncate and remove under open handles -----

  // remove() keeps the invariant exactly when the file is not open.
  lemma RemoveIff(s: FsState, name: Name)
    requires Valid(s) && Shape(s) && Lookup(s.dir, name) < DIR_SIZE
    ensures Valid(RemoveSpec(s, name)) <==> NotOpen(s, name)
  {
    var c := ValidChains(s);
    if NotOpen(s, name) {
      RemoveValid(s, c, name);
      ValidIs(RemoveSpec(s, name), c[Lookup(s.dir, name) := []]);
    } else {
      RemoveBreaks(s, name);
    }
  }

  lemma RemoveBreaks(s: FsState, name: Name)
    requires Valid(s) && Shape(s) && Lookup(s.dir, name) < DIR_SIZE && !NotOpen(s, name)
    ensures !Valid(RemoveSpec(s, name))
  {
    hide StructureOk, BootOk, LookupFrom, CStr, ChainOf, FreeBlocks;
    var r := RemoveSpec(s, name);
    var c := ValidChains(s);
    UniqueNames(s, c);
    var h :| 0 <= h < HANDLETABLE_SIZE && s.handles[h].inUse && CStr(s.dir[s.handles[h].dirIndex].name) == name;
    assert CursorOk(s.handles[h], s.dir, c);
    LookupOwn(s.dir, s.handles[h].dirIndex);
    if Valid(r) {
      var c' := ValidChains(r);
    }
  }

  // Every handle on the file is at its beginning.
  ghost predicate AllAtStart(s: FsState, name: seq<byte>)
    requires Shape(s)
  {
    forall h :: (0 <= h < HANDLETABLE_SIZE && s.handles[h].inUse && CStr(s.dir[s.handles[h].dirIndex].name) == name) ==>
      s.handles[h].offset == 0
  }

  // truncate() keeps the invariant exactly when every handle open on the file
  // is still at offset zero.
  lemma TruncateIff(s: FsState, name: Name)
    requires Valid(s) && Shape(s) && Lookup(s.dir, name) < DIR_SIZE
    ensures Valid(TruncateSpec(s, name)) <==> AllAtStart(s, name)
  {
    if AllAtStart(s, name) {
      TruncateAtStart(s, name);
    } else {
      TruncateBreaks(s, name);
    }
  }

  lemma TruncateBreaks(s: FsState, name: Name)
    requires Valid(s) && Shape(s) && Lookup(s.dir, name) < DIR_SIZE && !AllAtStart(s, name)
    ensures !Valid(TruncateSpec(s, name))
  {
    hide StructureOk, BootOk, LookupFrom, CStr, ChainOf, FreeBlocks;
    var r := TruncateSpec(s, name);
    var c := ValidChains(s);
    UniqueNames(s, c);
    var h :| 0 <= h < HANDLETABLE_SIZE && s.handles[h].inUse
             && CStr(s.dir[s.handles[h].dirIndex].name) == name && s.handles[h].offset != 0;
    assert CursorOk(s.handles[h], s.dir, c);
    LookupOwn(s.dir, s.handles[h].dirIndex);
    if Valid(r) {
      var c' := ValidChains(r);
    }
  }

  lemma TruncateAtStart(s: FsState, name: Name)
    requires Valid(s) && Shape(s) && Lookup(s.dir, name) < DIR_SIZE && AllAtStart(s, name)
    ensures Valid(TruncateSpec(s, name))
  {
    hide StructureOk, BootOk, LookupFrom, CStr, ChainOf, FreeBlocks, HandlesOk, AllAtStart;
    var c := ValidChains(s);
    var d := Lookup(s.dir, name);
    ValidLengths(s, c);
    TruncateStructure(s.fat, s.dir, c, d);
    StructureRanges(TruncateSpec(s, name).fat, TruncateSpec(s, name).dir, c[d := [s.dir[d].start]]);
    StartHandles(s, c, d);
    ValidIs(TruncateSpec(s, name), c[d := [s.dir[d].start]]);
  }

  lemma StartHandles(s: FsState, c: Chains, d: nat)
    requires ValidWith(s, c) && d < DIR_SIZE && Used(s.dir[d]) && AllAtStart(s, CStr(s.dir[d].name))
    ensures HandlesOk(s.handles, s.dir[d := s.dir[d].(size := 0)], c[d := [s.dir[d].start]])
  {
    hide NamesUnique, Disjoint, NoneLost, BootOk, ChainOf, CStr;
    EntryChain(s.fat, s.dir, c, d);
    forall g | 0 <= g < HANDLETABLE_SIZE
      ensures CursorOk(s.handles[g], s.dir[d := s.dir[d].(size := 0)], c[d := [s.dir[d].start]])
    {
      assert CursorOk(s.handles[g], s.dir, c);
    }
  }
}
