/** mapPe as it runs: loops over the file that write a live memory. What it leaves and returns
    is PeMap.Map. */
module PeMapper {
  import opened Bytes
  import opened Buffers
  import opened Store
  import opened Wrappers
  import opened PeImage
  import opened PeParse
  import opened PeMap
  import opened Memory

  datatype Result =
    | Done(base: nat, imageSize: nat, entry: nat, imports: seq<(seq<Byte>, Symbol)>, relocated: nat, warnings: seq<(seq<Byte>, nat, nat)>)
    | Thrown(problem: MapProblem)

  function Reported(r: Mapped): Result {
    match r
    case Mapped(_, base, imageSize, entry, imports, relocated, warnings) => Done(base, imageSize, entry, imports, relocated, warnings)
    case Refused(_, problem) => Thrown(problem)
  }

  method Load(mem: SparseMemory, base: nat, b: seq<Byte>, pe: Pe)
    requires mem.Valid()
    modifies mem, mem.Repr
    ensures mem.Valid() && fresh(mem.Repr - old(mem.Repr)) && mem.Contents == Loaded(old(mem.Contents), base, b, pe)
  {
    hide Put, Sub;
    ghost var m0 := mem.Contents;
    for i := 0 to |pe.sections|
      invariant mem.Valid() && fresh(mem.Repr - old(mem.Repr)) && mem.Contents == Copied(m0, base, b, pe.sections, i)
    {
      var s := pe.sections[i];
      if s.rawSize != 0 { mem.WriteSpan(base + s.rva, Sub(b, s.rawPtr, s.rawPtr + s.rawSize)); }
    }
    ghost var m1 := mem.Contents;
    for i := 0 to |pe.sections|
      invariant mem.Valid() && fresh(mem.Repr - old(mem.Repr)) && mem.Contents == Filled(m1, base, pe.sections, i)
    {
      var s := pe.sections[i];
      if s.virtualSize > s.rawSize { mem.WriteSpan(base + s.rva + s.rawSize, Zeros(s.virtualSize - s.rawSize)); }
    }
    if pe.sizeOfHeaders > 0 { mem.WriteSpan(base, Sub(b, 0, pe.sizeOfHeaders)); }
  }

  method MoveField(mem: SparseMemory, base: nat, delta: int, rva: nat)
    requires mem.Valid()
    modifies mem, mem.Repr
    ensures mem.Valid() && fresh(mem.Repr - old(mem.Repr))
    ensures mem.Contents == W64(old(mem.Contents), base + rva, U64(old(mem.Contents), base + rva) + delta)
  {
    hide U64, W64;
    var v := mem.ReadU64(base + rva);
    mem.WriteU64(base + rva, v + delta);
  }

  lemma RebasedStep(m: Store, base: nat, delta: int, fields: seq<nat>, f: nat)
    ensures var m1 := Rebased(m, base, delta, fields);
      Rebased(m, base, delta, fields + [f]) == W64(m1, base + f, U64(m1, base + f) + delta)
  {
    assert (fields + [f])[..|fields|] == fields;
  }

  /** One relocation block: fields move as they are met, up to an unsupported type. */
  method RelocateBlock(mem: SparseMemory, base: nat, delta: int, b: seq<Byte>, at: nat, pageRva: nat, n: nat, ghost m0: Store, ghost before: seq<nat>)
    returns (bad: Option<nat>, count: nat)
    requires mem.Valid() && mem.Contents == Rebased(m0, base, delta, before)
    modifies mem, mem.Repr
    ensures mem.Valid() && fresh(mem.Repr - old(mem.Repr))
    ensures bad == BlockFields(b, at, pageRva, 0, n).1 && count == |BlockFields(b, at, pageRva, 0, n).0|
    ensures mem.Contents == Rebased(m0, base, delta, before + BlockFields(b, at, pageRva, 0, n).0)
  {
    hide U16At, Rebased, BlockFields, U64, W64;
    ghost var done: seq<nat> := [];
    ghost var all := BlockFields(b, at, pageRva, 0, n);
    bad, count := None, 0;
    BlockEnd(b, at, pageRva, n);
    assert before + [] == before && [] + all.0 == all.0;
    for i := 0 to n
      invariant mem.Valid() && fresh(mem.Repr - old(mem.Repr)) && count == |done| && bad.None?
      invariant mem.Contents == Rebased(m0, base, delta, before + done)
      invariant all.0 == done + BlockFields(b, at, pageRva, i, n).0 && all.1 == BlockFields(b, at, pageRva, i, n).1
    {
      BlockStep(b, at, pageRva, i, n, done);
      var ent := U16At(b, at + i * 2);
      var kind, pos := ent / 4096, ent % 4096;
      if kind != 0 {
        if kind != 10 && kind != 9 { return Some(kind), count; }
        RebasedStep(m0, base, delta, before + done, pageRva + pos);
        MoveField(mem, base, delta, pageRva + pos);
        assert before + done + [pageRva + pos] == before + (done + [pageRva + pos]);
        done := done + [pageRva + pos];
        count := count + 1;
      }
    }
    assert done + [] == done;
  }

  lemma BlockEnd(b: seq<Byte>, at: nat, pageRva: nat, n: nat)
    ensures BlockFields(b, at, pageRva, n, n) == ([], None)
  {
  }

  lemma BlockStep(b: seq<Byte>, at: nat, pageRva: nat, i: nat, n: nat, done: seq<nat>)
    requires i < n
    ensures var ent := U16At(b, at + i * 2);
      var kind, pos := ent / 4096, ent % 4096;
      var f, rest := BlockFields(b, at, pageRva, i, n), BlockFields(b, at, pageRva, i + 1, n);
      if kind == 0 then f == rest
      else if kind != 10 && kind != 9 then f.0 == [] && f.1 == Some(kind) && done + f.0 == done
      else done + f.0 == done + [pageRva + pos] + rest.0 && f.1 == rest.1
  {
    hide U16At;
    var ent := U16At(b, at + i * 2);
    var rest := BlockFields(b, at, pageRva, i + 1, n).0;
    assert done + ([pageRva + ent % 4096] + rest) == done + [pageRva + ent % 4096] + rest;
    assert done + [] == done;
  }

  /** Every block of the directory. */
  method Relocate(mem: SparseMemory, base: nat, delta: int, b: seq<Byte>, off0: nat, end: nat, fromNull: bool)
    returns (bad: Option<nat>, relocated: nat)
    requires mem.Valid()
    modifies mem, mem.Repr
    ensures mem.Valid() && fresh(mem.Repr - old(mem.Repr))
    ensures mem.Contents == Rebased(old(mem.Contents), base, delta, RelocFields(b, off0, end, fromNull).0)
    ensures bad == RelocFields(b, off0, end, fromNull).1 && relocated == |RelocFields(b, off0, end, fromNull).0|
  {
    hide U32At, Rebased, BlockFields;
    ghost var m0 := mem.Contents;
    ghost var all := RelocFields(b, off0, end, fromNull);
    ghost var done: seq<nat> := [];
    var off, first := off0, fromNull;
    bad, relocated := None, 0;
    RebasedNone(m0, base, delta);
    assert [] + all.0 == all.0;
    while off < end
      invariant mem.Valid() && fresh(mem.Repr - old(mem.Repr)) && relocated == |done| && bad.None?
      invariant mem.Contents == Rebased(m0, base, delta, done)
      invariant all == (done + RelocFields(b, off, end, first).0, RelocFields(b, off, end, first).1)
      decreases end - off
    {
      var pageRva := PageRvaAt(b, off, first);
      var size := U32At(b, off + 4);
      if size == 0 { break; }
      var moved: nat;
      bad, moved := RelocateBlock(mem, base, delta, b, off + 8, pageRva, EntryCount(size), m0, done);
      ghost var fields := BlockFields(b, off + 8, pageRva, 0, EntryCount(size)).0;
      relocated := relocated + moved;
      if bad.Some? { return; }
      assert done + (fields + RelocFields(b, off + size, end, false).0) == done + fields + RelocFields(b, off + size, end, false).0;
      done := done + fields;
      off, first := off + size, false;
    }
    assert done + [] == done;
  }

  lemma RebasedNone(m: Store, base: nat, delta: int)
    ensures Rebased(m, base, delta, []) == m
  {
  }

  /** One DLL's thunks. */
  method BindThunks(mem: SparseMemory, b: seq<Byte>, pe: Pe, base: nat, dll: seq<Byte>, thunk0: nat, iat: nat, resolve: Resolver,
                    imports0: seq<(seq<Byte>, Symbol)>, warnings0: seq<(seq<Byte>, nat, nat)>)
    returns (imports: seq<(seq<Byte>, Symbol)>, warnings: seq<(seq<Byte>, nat, nat)>, failed: Option<MapProblem>)
    requires mem.Valid()
    modifies mem, mem.Repr
    ensures mem.Valid() && fresh(mem.Repr - old(mem.Repr))
    ensures Linking(mem.Contents, imports, warnings, failed) ==
      Thunks(Linking(old(mem.Contents), imports0, warnings0, None), b, pe, base, dll, thunk0, iat, 0, resolve)
  {
    hide U32At, W64, RvaToOffset, SymbolAt;
    ghost var all := Thunks(Linking(mem.Contents, imports0, warnings0, None), b, pe, base, dll, thunk0, iat, 0, resolve);
    imports, warnings, failed := imports0, warnings0, None;
    var thunk, index := thunk0, 0;
    while true
      invariant mem.Valid() && fresh(mem.Repr - old(mem.Repr)) && failed.None?
      invariant Thunks(Linking(mem.Contents, imports, warnings, None), b, pe, base, dll, thunk, iat, index, resolve) == all
      decreases if RvaToOffset(pe, thunk).Some? then 1 + Larger(thunk, Limit(pe)) - thunk else 0
    {
      var off := FindOffset(pe, thunk);
      if off.None? { return; }
      LimitBounds(pe, thunk);
      var hint := U32At(b, off.value);
      if hint == 0 { return; }
      var s := SymbolAt(b, pe, hint);
      if s.Bound? { warnings := warnings + [(dll, index, s.hint)]; }
      var found := resolve(dll, s);
      if found.None? { failed := Some(Unresolved(dll, s)); return; }
      mem.WriteU64(base + (iat + index * 8), found.value);
      imports := imports + [(dll, s)];
      thunk, index := thunk + 8, index + 1;
      if RvaToOffset(pe, thunk).Some? { LimitBounds(pe, thunk); }
    }
  }

  /** Every import descriptor. */
  method BindDescriptors(mem: SparseMemory, b: seq<Byte>, pe: Pe, base: nat, off0: nat, resolve: Resolver)
    returns (imports: seq<(seq<Byte>, Symbol)>, warnings: seq<(seq<Byte>, nat, nat)>, failed: Option<MapProblem>)
    requires mem.Valid()
    modifies mem, mem.Repr
    ensures mem.Valid() && fresh(mem.Repr - old(mem.Repr))
    ensures Linking(mem.Contents, imports, warnings, failed) == Descs(Linking(old(mem.Contents), [], [], None), b, pe, base, off0, resolve)
  {
    hide U32At, RvaToOffset, Thunks, CString, Lower;
    ghost var all := Descs(Linking(mem.Contents, [], [], None), b, pe, base, off0, resolve);
    imports, warnings, failed := [], [], None;
    var descOff: nat := off0;
    while true
      invariant mem.Valid() && fresh(mem.Repr - old(mem.Repr)) && failed.None?
      invariant Descs(Linking(mem.Contents, imports, warnings, None), b, pe, base, descOff, resolve) == all
      decreases Larger(descOff, |b|) - descOff
    {
      var ilt, nameRva, iat := U32At(b, descOff), U32At(b, descOff + 12), U32At(b, descOff + 16);
      if ilt == 0 && nameRva == 0 && iat == 0 { return; }
      if descOff >= |b| {
        PastEnd(b, descOff);
        PastEnd(b, descOff + 12);
        PastEnd(b, descOff + 16);
        assert false;
      }
      var off := FindOffset(pe, nameRva);
      if off.None? { failed := Some(NoDllName(nameRva)); return; }
      var name := ReadCString(b, off.value, NAME_WINDOW);
      imports, warnings, failed := BindThunks(mem, b, pe, base, Lower(name), if ilt != 0 then ilt else iat, iat, resolve, imports, warnings);
      if failed.Some? { return; }
      descOff := descOff + 20;
    }
  }

  method LinkImports(mem: SparseMemory, b: seq<Byte>, pe: Pe, base: nat, resolve: Resolver)
    returns (imports: seq<(seq<Byte>, Symbol)>, warnings: seq<(seq<Byte>, nat, nat)>, failed: Option<MapProblem>)
    requires mem.Valid() && |pe.dirs| > 5
    modifies mem, mem.Repr
    ensures mem.Valid() && fresh(mem.Repr - old(mem.Repr))
    ensures Linking(mem.Contents, imports, warnings, failed) == Imported(old(mem.Contents), b, pe, base, resolve)
  {
    hide RvaToOffset, Descs;
    imports, warnings, failed := [], [], None;
    var d := pe.dirs[1];
    if d.rva != 0 && d.size != 0 {
      var off := FindOffset(pe, d.rva);
      if off.None? { return imports, warnings, Some(NoImportDir(d.rva)); }
      imports, warnings, failed := BindDescriptors(mem, b, pe, base, off.value, resolve);
    }
  }

  method ApplyRelocations(mem: SparseMemory, b: seq<Byte>, pe: Pe, base: nat) returns (bad: Option<nat>, relocated: nat)
    requires mem.Valid() && |pe.dirs| > 5
    modifies mem, mem.Repr
    ensures mem.Valid() && fresh(mem.Repr - old(mem.Repr))
    ensures mem.Contents == Rebased(old(mem.Contents), base, base - pe.imageBase, Relocations(b, pe).0)
    ensures bad == Relocations(b, pe).1 && relocated == |Relocations(b, pe).0|
  {
    hide RvaToOffset, RelocFields, Rebased;
    RebasedNone(mem.Contents, base, base - pe.imageBase);
    bad, relocated := None, 0;
    var d := pe.dirs[5];
    if d.rva != 0 && d.size != 0 {
      var off := FindOffset(pe, d.rva);
      if off.None? {
        bad, relocated := Relocate(mem, base, base - pe.imageBase, b, 0, d.size, true);
      } else {
        bad, relocated := Relocate(mem, base, base - pe.imageBase, b, off.value, off.value + d.size, false);
      }
    }
  }

  /** mapPe. */
  method MapPe(b: seq<Byte>, mem: SparseMemory, base: nat, resolve: Resolver) returns (r: Result)
    requires mem.Valid()
    modifies mem, mem.Repr
    ensures mem.Valid() && fresh(mem.Repr - old(mem.Repr))
    ensures mem.Contents == Map(old(mem.Contents), b, base, resolve).mem && r == Reported(Map(old(mem.Contents), b, base, resolve))
  {
    hide Parse, Loaded, Relocations, Imported, Rebased;
    var parsed := ParsePe(b);
    if parsed.Err? { return Thrown(BadFile(parsed.problem)); }
    var pe := parsed.pe;
    Load(mem, base, b, pe);
    if |pe.dirs| <= 5 { return Thrown(TooFewDirs); }
    var bad, relocated := ApplyRelocations(mem, b, pe, base);
    if bad.Some? { return Thrown(BadReloc(bad.value)); }
    var imports, warnings, failed := LinkImports(mem, b, pe, base, resolve);
    if failed.Some? { return Thrown(failed.value); }
    return Done(base, pe.sizeOfImage, base + pe.entryRva, imports, relocated, warnings);
  }
}
