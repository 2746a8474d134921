/** mapModule and applyRelocs as they run, over a live memory. */
module ModuleLoader {
  import opened Bytes
  import opened Store
  import opened Wrappers
  import opened Memory
  import opened Backing
  import opened LiveBacking
  import opened ElfLoader

  lemma AddrsStep(ss: seq<Section>, base: nat, k: nat)
    requires k < |ss|
    ensures Addrs(ss, base, k + 1) == if ss[k].alloc then Addrs(ss, base, k)[k := Addr(ss, base, k)] else Addrs(ss, base, k)
  {
    hide Addr;
  }

  lemma AddrsNone(ss: seq<Section>, base: nat)
    ensures Addrs(ss, base, 0) == map[]
  {
  }

  method FindMaxEnd(ss: seq<Section>) returns (maxEnd: nat)
    ensures maxEnd == MaxEnd(ss, |ss|)
  {
    maxEnd := 0;
    for i := 0 to |ss|
      invariant maxEnd == MaxEnd(ss, i)
    {
      var s := ss[i];
      if s.alloc {
        var end := s.addr + s.size;
        if end > maxEnd { maxEnd := end; }
      }
    }
  }

  method CheckLayout(ss: seq<Section>) returns (needs: bool)
    ensures needs == NeedsLayout(ss)
  {
    needs := false;
    for i := 0 to |ss|
      invariant needs <==> exists k :: 0 <= k < i && ss[k].alloc && ss[k].addr == 0
    {
      if ss[i].alloc && ss[i].addr == 0 { needs := true; }
    }
  }

  /** One section's data, or its pages. */
  method LoadSection(mem: SparseMemory, s: Section, at: nat)
    requires mem.Valid()
    modifies mem, mem.Repr
    ensures mem.Valid() && fresh(mem.Repr - old(mem.Repr))
    ensures mem.Contents == if s.nobits then Backed(old(mem.Contents), at / 4096, PageEnd(at + s.size)) else Put(old(mem.Contents), at, s.data)
  {
    if s.nobits { MakePresent(mem, at / 4096, PageEnd(at + s.size)); } else { mem.WriteSpan(at, s.data); }
  }

  /** Either the sequential layout, or the addresses the module carries. */
  method LoadSections(mem: SparseMemory, ss: seq<Section>, base: nat) returns (addrs: map<nat, nat>, imageSize: int)
    requires mem.Valid()
    modifies mem, mem.Repr
    ensures mem.Valid() && fresh(mem.Repr - old(mem.Repr))
    ensures mem.Contents == Loaded(old(mem.Contents), ss, base, |ss|)
    ensures addrs == Addrs(ss, base, |ss|) && imageSize == ImageSize(ss, base)
  {
    hide Put, Backed, AlignUp, Align, NeedsLayout, Addrs;
    ghost var m0 := mem.Contents;
    var maxEnd := FindMaxEnd(ss);
    var needs := CheckLayout(ss);
    addrs := map[];
    AddrsNone(ss, base);
    if needs {
      var cur := base;
      for i := 0 to |ss|
        invariant mem.Valid() && fresh(mem.Repr - old(mem.Repr)) && mem.Contents == Loaded(m0, ss, base, i)
        invariant cur == Cursor(ss, base, i) && addrs == Addrs(ss, base, i)
      {
        AddrsStep(ss, base, i);
        var s := ss[i];
        if s.alloc {
          cur := AlignUp(cur, Align(s));
          addrs := addrs[i := cur];
          LoadSection(mem, s, cur);
          cur := cur + s.size;
          cur := AlignUp(cur, 16);
        }
      }
      imageSize := cur - base;
    } else {
      for i := 0 to |ss|
        invariant mem.Valid() && fresh(mem.Repr - old(mem.Repr)) && mem.Contents == Loaded(m0, ss, base, i)
        invariant addrs == Addrs(ss, base, i)
      {
        AddrsStep(ss, base, i);
        var s := ss[i];
        if s.alloc {
          var va := base + s.addr;
          addrs := addrs[i := va];
          LoadSection(mem, s, va);
        }
      }
      imageSize := maxEnd;
    }
  }

  /** applyRelocs: what it leaves and counts. */
  method Relocate(mem: SparseMemory, base: nat, relas: seq<Rela>, addrs: map<nat, nat>, resolve: Resolver)
    returns (applied: nat, unresolved: seq<seq<Byte>>, notes: seq<Rela>)
    requires mem.Valid()
    modifies mem, mem.Repr
    ensures mem.Valid() && fresh(mem.Repr - old(mem.Repr))
    ensures Relocating(mem.Contents, applied, unresolved, notes) == ApplyRelocs(old(mem.Contents), relas, base, addrs, resolve)
  {
    hide Put, EffectOf;
    ghost var m0 := mem.Contents;
    applied, unresolved, notes := 0, [], [];
    for i := 0 to |relas|
      invariant mem.Valid() && fresh(mem.Repr - old(mem.Repr))
      invariant Relocating(mem.Contents, applied, unresolved, notes) == ApplyRelocs(m0, relas[..i], base, addrs, resolve)
    {
      assert relas[..i + 1][..i] == relas[..i];
      match EffectOf(relas[i], base, addrs, resolve) {
        case Skip | Ignore =>
        case Missing(name) => unresolved := unresolved + [name];
        case Unhandled => notes := notes + [relas[i]];
        case Patch(at, value, width, noted) =>
          if noted { notes := notes + [relas[i]]; }
          mem.WriteSpan(at, ToLE(value, width));
          applied := applied + 1;
      }
    }
    assert relas[..|relas|] == relas;
  }

  method FindEntry(symbols: seq<Symbol>, name: seq<Byte>, base: nat, addrs: map<nat, nat>) returns (va: Option<nat>)
    ensures va == EntryOf(symbols, name, base, addrs)
  {
    for i := 0 to |symbols|
      invariant EntryOf(symbols[i..], name, base, addrs) == EntryOf(symbols, name, base, addrs)
    {
      var s := symbols[i];
      if s.name == name {
        return Some((if s.shndx in addrs then addrs[s.shndx] else base) + s.value);
      }
    }
    return None;
  }

  method LoadModule(mem: SparseMemory, k: Module, base: nat, resolve: Resolver) returns (r: Mapped)
    requires mem.Valid()
    modifies mem, mem.Repr
    ensures mem.Valid() && fresh(mem.Repr - old(mem.Repr))
    ensures (mem.Contents, r) == MapModule(old(mem.Contents), k, base, resolve)
  {
    hide Loaded, Backed, ApplyRelocs, Addrs, ImageSize, EntryOf, PageEnd;
    var addrs, imageSize := LoadSections(mem, k.sections, base);
    ImageSizeNat(k.sections, base);
    MakePresent(mem, base / 4096, PageEnd(base + imageSize));
    var applied, unresolved, notes := Relocate(mem, base, k.relas, addrs, resolve);
    var init := FindEntry(k.symbols, INIT_NAME, base, addrs);
    var cleanup := FindEntry(k.symbols, CLEANUP_NAME, base, addrs);
    r := Mapped(imageSize, addrs, applied, unresolved, notes, init, cleanup);
  }
}
