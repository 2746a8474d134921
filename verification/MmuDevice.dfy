/** The MMU and the translating memory as objects that update their fields and the
    physical store in place, each method against its function on states. */
module MmuDevice {
  import opened Bytes
  import opened Store
  import opened PageTables
  import opened TableBuilder
  import opened Wrappers
  import opened MmuModel
  import opened DemandPaging
  import opened Memory
  import VM = VirtualMemory

  /** x | (1 << k), for b == 1 << k. */
  function OrBit(x: nat, b: nat): nat
    requires b > 0
  {
    if x / b % 2 == 1 then x else x + b
  }

  /** The indices of a walk, top level first. */
  function Indices(v: nat): (r: seq<nat>)
    ensures |r| == 4
  {
    [v / 0x80_0000_0000 % 512, v / 0x4000_0000 % 512, v / 0x20_0000 % 512, v / 4096 % 512]
  }

  lemma IndicesOf(v: nat)
    ensures forall l: nat | 1 <= l <= 4 :: Indices(v)[4 - l] == Index(PageOf(v), l)
  {
    ShiftedIndices(v);
  }

  predicate Splits(x: nat, k: nat, high: nat, low: nat) { x == (2 * high + 1) * Pow2(k) + low && low < Pow2(k) }

  ghost predicate BitSet(x: nat, k: nat) { exists high: nat, low: nat :: Splits(x, k, high, low) }

  lemma BitIs(x: nat, k: nat)
    ensures BitSet(x, k) <==> x / Pow2(k) % 2 == 1
  {
    hide Pow2;
    if x / Pow2(k) % 2 == 1 { SplitOf(x, Pow2(k)); assert Splits(x, k, x / Pow2(k) / 2, x % Pow2(k)); }
    if high: nat, low: nat :| Splits(x, k, high, low) { ModUnique(x, Pow2(k), 2 * high + 1, low); }
  }

  lemma SplitOf(x: nat, d: nat)
    requires d > 0 && x / d % 2 == 1
    ensures x == (2 * (x / d / 2) + 1) * d + x % d
  {
    var q := x / d;
    assert q == 2 * (q / 2) + 1;
    assert x == q * d + x % d;
  }

  lemma Pow2Values()
    ensures Pow2(5) == 0x20 && Pow2(10) == 0x400 && Pow2(31) == 0x8000_0000
  {
    assert Pow2(15) == 0x8000;
    assert Pow2(20) == 0x10_0000;
    assert Pow2(25) == 0x200_0000;
  }

  class Mmu {
    const raw: SparseMemory
    var cr0: nat
    var cr3: nat
    var cr4: nat
    var efer: nat
    var demandMap: bool
    var nextFrame: nat
    var framesUsed: nat
    var identityRanges: seq<Window>
    var tlb: map<(nat, Access), Hit>

    ghost predicate Valid()
      reads this, raw, raw.Repr
    {
      raw.Valid()
    }

    ghost function St(): State
      reads this, raw
    {
      State(raw.Contents, cr3, cr4, nextFrame, tlb)
    }

    constructor (raw: SparseMemory, demandMap: bool, frameBase: nat)
      requires raw.Valid()
      ensures Valid() && this.raw == raw && this.demandMap == demandMap && identityRanges == []
      ensures St() == State(raw.Contents, 0, 0x370678, frameBase, map[]) && framesUsed == 0
      ensures cr0 == 0x80010031 && efer == 0x500
    {
      this.raw, this.demandMap, nextFrame, framesUsed := raw, demandMap, frameBase, 0;
      cr0, cr3, cr4, efer := 0x80010031, 0, 0x370678, 0x500;
      identityRanges, tlb := [], map[];
    }

    predicate PagingEnabled()
      reads this
    {
      cr0 / 0x8000_0000 % 2 == 1 && efer / 0x400 % 2 == 1 && cr4 / 0x20 % 2 == 1
    }

    /** Translation is on with bit 31 of cr0 (PG), bit 10 of efer (LMA) and bit 5 of cr4 (PAE). */
    lemma PagingIff()
      ensures PagingEnabled() <==> BitSet(cr0, 31) && BitSet(efer, 10) && BitSet(cr4, 5)
    {
      Pow2Values();
      BitIs(cr0, 31);
      BitIs(efer, 10);
      BitIs(cr4, 5);
    }

    method EnablePaging(cr3Frame: nat)
      modifies this`cr0, this`cr3, this`cr4, this`efer, this`tlb
      ensures PagingEnabled()
      ensures St() == SwitchTo(old(St()), cr3Frame).(cr4 := OrBit(old(cr4), 0x20))
    {
      cr3 := cr3Frame;
      cr4 := OrBit(cr4, 0x20);
      cr0 := OrBit(cr0, 0x8000_0000);
      efer := OrBit(OrBit(efer, 0x400), 0x100);
      EnabledBits(old(cr0), old(cr4), old(efer));
      FlushTlb();
    }

    static lemma EnabledBits(cr0: nat, cr4: nat, efer: nat)
      ensures OrBit(cr0, 0x8000_0000) / 0x8000_0000 % 2 == 1 && OrBit(cr4, 0x20) / 0x20 % 2 == 1
      ensures OrBit(OrBit(efer, 0x400), 0x100) / 0x400 % 2 == 1
    {
      var e := OrBit(efer, 0x400);
      assert e / 0x400 % 2 == 1;
      if e / 0x100 % 2 == 0 {
        var t, r := e / 0x200, e % 0x100;
        assert e / 0x100 == 2 * t;
        assert e == 0x200 * t + r;
        assert (e + 0x100) / 0x400 == t / 2 && e / 0x400 == t / 2;
      }
    }

    method FlushTlb()
      modifies this`tlb
      ensures tlb == map[]
    {
      tlb := map[];
    }

    method FrameAlloc(count: nat) returns (pa: nat)
      modifies this`nextFrame, this`framesUsed
      ensures pa == old(nextFrame) && nextFrame == old(nextFrame) + 4096 * count
      ensures framesUsed == old(framesUsed) + count
    {
      pa := nextFrame;
      nextFrame := nextFrame + count * 4096;
      framesUsed := framesUsed + count;
    }

    method ReadTableEntry(pa: nat) returns (entry: nat)
      requires Valid()
      modifies raw`readCount, raw`missCount
      ensures Valid() && entry == U64(raw.Contents, pa)
    {
      entry := raw.ReadU64(pa);
    }

    method WriteTableEntry(pa: nat, value: nat)
      requires Valid()
      modifies this`tlb, raw, raw.Repr
      ensures Valid() && fresh(raw.Repr - old(raw.Repr))
      ensures St() == old(St()).(mem := W64(old(raw.Contents), pa, value), tlb := map[])
    {
      raw.WriteU64(pa, value);
      FlushTlb();
    }

    /** The accessed and dirty update on the leaf. */
    method MarkLeaf(ptePa: Option<nat>, h: Hit, access: Access)
      requires Valid() && h.ptePa == ptePa
      modifies this`tlb, raw, raw.Repr
      ensures Valid() && fresh(raw.Repr - old(raw.Repr))
      ensures St() == TouchLeaf(old(St()), h, access)
    {
      if ptePa.Some? {
        var e := ReadTableEntry(ptePa.value);
        if !Accessed(e) {
          WriteTableEntry(ptePa.value, if access == Writing then SetDirty(SetAccessed(e)) else SetAccessed(e));
        } else if access == Writing && !Dirty(e) {
          WriteTableEntry(ptePa.value, SetDirty(e));
        }
      }
    }

    /** The four-level walk loop, from cr3 to the entry it stops at. */
    method WalkTables(v: nat) returns (level: nat, entry: nat, table: nat)
      requires Valid()
      modifies raw`readCount, raw`missCount
      ensures Valid() && 1 <= level <= 4
      ensures WalkFrom(raw.Contents, FrameOf(cr3), 4, PageOf(v)) == if Present(entry) then Leaf(level, entry, table) else Missing
    {
      ghost var p := PageOf(v);
      hide Index, PageOf, Indices, FrameOf;
      var indexes := Indices(v);
      IndicesOf(v);
      table, level := FrameOf(cr3), 4;
      while true
        invariant Valid() && 1 <= level <= 4 && raw.Contents == old(raw.Contents)
        invariant WalkFrom(raw.Contents, FrameOf(cr3), 4, p) == WalkFrom(raw.Contents, table, level, p)
        decreases level
      {
        assert indexes[4 - level] == Index(p, level);
        entry := ReadTableEntry(table + indexes[4 - level] * 8);
        if !Present(entry) || level == 1 || Large(entry) {
          return;
        }
        table, level := FrameOf(entry), level - 1;
      }
    }

    /** Translation with its cache; a page fault is the method's other outcome. */
    method TranslateVa(va: int, access: Access) returns (o: Outcome)
      requires Valid()
      modifies this`tlb, raw, raw.Repr
      ensures Valid() && fresh(raw.Repr - old(raw.Repr))
      ensures (St(), o) == Translate(old(St()), va, access)
    {
      hide WalkFrom, Put, U64, BitOr, Canonical, PageOf, TouchLeaf, OffsetOf;
      var v := va % TWO_64;
      if !Canonical(v) {
        return PageFault(v, NonCanonical, access);
      }
      if (v / 4096, access) in tlb {
        var hit := tlb[(v / 4096, access)];
        return Translated(BitOr(hit.paBase, OffsetOf(v, hit.level)), hit);
      }
      var level, entry, table := WalkTables(v);
      if !Present(entry) {
        return PageFault(v, NotPresent, access);
      }
      ShiftedIndices(v);
      var ptePa := if level == 1 then Some(table + v / 4096 % 512 * 8) else None;
      var h := Hit(FrameOf(entry), Writable(entry), User(entry), !NoExecute(entry), level, ptePa);
      o := Translated(BitOr(h.paBase, OffsetOf(v, level)), h);
      if access == Writing && !h.w {
        return PageFault(v, WriteToReadOnly, access);
      }
      if access == Fetching && !h.x {
        return PageFault(v, NxExecute, access);
      }
      var smep := cr4 / 0x10_0000 % 2 == 1;
      if smep && access == Fetching && h.u {
        return PageFault(v, SmepViolation, access);
      }
      if |tlb| < TLB_LIMIT {
        tlb := tlb[(v / 4096, access) := h];
      }
      MarkLeaf(ptePa, h, access);
    }

    /** The probe that does not throw. */
    method Lookup(va: int) returns (found: bool, pa: nat)
      requires Valid()
      modifies this`demandMap, this`tlb, raw, raw.Repr
      ensures Valid() && fresh(raw.Repr - old(raw.Repr)) && demandMap == old(demandMap)
      ensures St() == Translate(old(St()), va, Reading).0
      ensures found == Translate(old(St()), va, Reading).1.Translated?
      ensures found ==> pa == Translate(old(St()), va, Reading).1.pa
    {
      var saved := demandMap;
      demandMap := false;
      var o := TranslateVa(va, Reading);
      demandMap := saved;
      found := o.Translated?;
      pa := if found then o.pa else 0;
    }

    method NewAddressSpace() returns (pml4: nat)
      requires Valid()
      modifies this`nextFrame, this`framesUsed, raw, raw.Repr
      ensures Valid() && fresh(raw.Repr - old(raw.Repr))
      ensures (St(), pml4) == MmuModel.NewAddressSpace(old(St()))
    {
      pml4 := FrameAlloc(1);
      raw.WriteSpan(pml4, Zeros(4096));
    }

    /** The table below an entry, made and hung there when the entry is not present. */
    method OpenTable(ePa: nat) returns (table: nat)
      requires Valid()
      modifies this`nextFrame, this`framesUsed, this`tlb, raw, raw.Repr
      ensures Valid() && fresh(raw.Repr - old(raw.Repr))
      ensures Present(U64(old(raw.Contents), ePa)) ==> raw.Contents == old(raw.Contents) && nextFrame == old(nextFrame)
      ensures !Present(U64(old(raw.Contents), ePa)) ==>
        && raw.Contents == W64(Put(old(raw.Contents), old(nextFrame), Zeros(4096)), ePa, FrameOf(old(nextFrame)) + 7)
        && nextFrame == old(nextFrame) + 4096
      ensures table == FrameOf(U64(raw.Contents, ePa))
    {
      hide Put, U64, W64, FrameOf, Present;
      var e := ReadTableEntry(ePa);
      if !Present(e) {
        var nt := FrameAlloc(1);
        raw.WriteSpan(nt, Zeros(4096));
        WriteTableEntry(ePa, FrameOf(nt) + 7);
      }
      var again := ReadTableEntry(ePa);
      table := FrameOf(again);
    }

    static lemma MapFromStep(m: Store, next: nat, table: nat, lvl: nat, p: nat, leaf: nat, m': Store, next': nat)
      requires 2 <= lvl <= 4
      requires var ePa := table + 8 * Index(p, lvl);
        if Present(U64(m, ePa)) then m' == m && next' == next
        else m' == W64(Put(m, next, Zeros(4096)), ePa, FrameOf(next) + 7) && next' == next + 4096
      ensures MapFrom(m, next, table, lvl, p, leaf) ==
        MapFrom(m', next', FrameOf(U64(m', table + 8 * Index(p, lvl))), lvl - 1, p, leaf)
    {
      hide Put, U64, W64, FrameOf, Present, Index;
    }

    static lemma MapFromBase(m: Store, next: nat, table: nat, p: nat, leaf: nat)
      ensures MapFrom(m, next, table, 1, p, leaf) == Built(W64(m, table + 8 * Index(p, 1), leaf), next)
    {
    }

    method MapPage(va: int, pa: nat, fl: Flags)
      requires Valid()
      modifies this`nextFrame, this`framesUsed, this`tlb, raw, raw.Repr
      ensures Valid() && fresh(raw.Repr - old(raw.Repr))
      ensures St() == MmuModel.MapPage(old(St()), va, pa, fl)
    {
      hide Put, U64, W64, LeafEntry, Index, PageOf, Canonicalize, Indices, Canonical, FrameOf, MapFrom, Present;
      var v := Canonicalize(va);
      CanonicalizeFacts(va);
      ghost var p := PageOf(va);
      var idx := Indices(v);
      IndicesOf(v);
      var table := FrameOf(cr3);
      var lvl := 4;
      ghost var leaf := LeafEntry(pa, fl);
      ghost var b := MapFrom(raw.Contents, nextFrame, table, 4, p, leaf);
      while lvl >= 2
        invariant Valid() && fresh(raw.Repr - old(raw.Repr)) && 1 <= lvl <= 4
        invariant MapFrom(raw.Contents, nextFrame, table, lvl, p, leaf) == b
      {
        ghost var m, next, t := raw.Contents, nextFrame, table;
        table := OpenTable(table + idx[4 - lvl] * 8);
        MapFromStep(m, next, t, lvl, p, leaf, raw.Contents, nextFrame);
        lvl := lvl - 1;
      }
      MapFromBase(raw.Contents, nextFrame, table, p, leaf);
      WriteTableEntry(table + idx[3] * 8, LeafEntry(pa, fl));
    }

    method WalkToPte(va: int) returns (pte: Option<nat>)
      requires Valid()
      modifies raw`readCount, raw`missCount
      ensures Valid() && pte == PteSlot(raw.Contents, FrameOf(cr3), 4, PageOf(va))
    {
      hide U64;
      hide Index, PageOf, Canonicalize, Indices, Canonical, FrameOf;
      var v := Canonicalize(va);
      CanonicalizeFacts(va);
      ghost var p := PageOf(va);
      var idx := Indices(v);
      IndicesOf(v);
      var table := FrameOf(cr3);
      var lvl := 4;
      while lvl >= 2
        invariant Valid() && 1 <= lvl <= 4 && raw.Contents == old(raw.Contents)
        invariant PteSlot(raw.Contents, FrameOf(cr3), 4, p) == PteSlot(raw.Contents, table, lvl, p)
      {
        assert idx[4 - lvl] == Index(p, lvl);
        var e := ReadTableEntry(table + idx[4 - lvl] * 8);
        if !Present(e) {
          return None;
        }
        table, lvl := FrameOf(e), lvl - 1;
      }
      pte := Some(table + idx[3] * 8);
    }

    method Unmap(va: int)
      requires Valid()
      modifies this`tlb, raw, raw.Repr
      ensures Valid() && fresh(raw.Repr - old(raw.Repr))
      ensures St() == MmuModel.Unmap(old(St()), va)
    {
      var v := Canonicalize(va);
      CanonicalizeFacts(va);
      hide PageOf, PteSlot;
      var t := WalkToPte(v);
      if t.Some? {
        WriteTableEntry(t.value, 0);
      }
    }

    method IdentityPaFor(va: int) returns (pa: Option<nat>)
      ensures pa == IdentityPa(identityRanges, va)
      ensures pa.Some? <==>
        exists k :: 0 <= k < |identityRanges| && identityRanges[k].base <= va % TWO_64 < identityRanges[k].base + identityRanges[k].size
      ensures pa.Some? ==> pa.value == va % TWO_64 - va % TWO_64 % 4096
    {
      IdentityIff(identityRanges, va);
      var v := va % TWO_64;
      for i := 0 to |identityRanges|
        invariant IdentityPa(identityRanges, va) == IdentityPa(identityRanges[i..], va)
      {
        var r := identityRanges[i];
        assert identityRanges[i..][0] == r && identityRanges[i..][1..] == identityRanges[i + 1..];
        if r.base <= v < r.base + r.size {
          return Some(v / 4096 * 4096);
        }
      }
      return None;
    }

    /** One step of EnsureRange. */
    method EnsureAt(cur: nat, fill: Fill)
      requires Valid()
      modifies this`demandMap, this`nextFrame, this`framesUsed, this`tlb, raw, raw.Repr
      ensures Valid() && fresh(raw.Repr - old(raw.Repr)) && demandMap == old(demandMap)
      ensures St() == EnsurePage(old(St()), identityRanges, cur, fill)
    {
      hide Put, W64, MapFrom, Translate, IdentityPa;
      var found, _ := Lookup(cur);
      if !found {
        var ident := IdentityPaFor(cur);
        if ident.Some? {
          MapPage(cur, ident.value, Flags(fill.w, false, !fill.x, false));
          if !raw.HasPage(ident.value) {
            raw.WriteSpan(ident.value, Zeros(4096));
          }
        } else {
          var frame := FrameAlloc(1);
          MapPage(cur, frame, Flags(fill.w, fill.u, !fill.x, false));
        }
      }
    }

    method EnsureRange(va: int, len: nat, fill: Fill)
      requires Valid()
      modifies this`demandMap, this`nextFrame, this`framesUsed, this`tlb, raw, raw.Repr
      ensures Valid() && fresh(raw.Repr - old(raw.Repr)) && demandMap == old(demandMap)
      ensures St() == Ensure(old(St()), identityRanges, va, len, fill)
    {
      hide EnsurePage;
      var v := va % TWO_64;
      var cur := RoundDown(v);
      var end := RoundDown(v + len - 1);
      while cur <= end
        invariant Valid() && fresh(raw.Repr - old(raw.Repr)) && demandMap == old(demandMap) && cur >= 0
        invariant EnsureFrom(St(), identityRanges, cur, end, fill) == Ensure(old(St()), identityRanges, va, len, fill)
        decreases end - cur
      {
        EnsureAt(cur, fill);
        cur := cur + 4096;
      }
    }

    /** The raw level 1 entry of va. */
    method ReadPte(va: int) returns (pte: Option<nat>)
      requires Valid()
      modifies raw`readCount, raw`missCount
      ensures Valid()
      ensures pte == match PteSlot(raw.Contents, FrameOf(cr3), 4, PageOf(va))
                     case None => None
                     case Some(slot) => Some(U64(raw.Contents, slot))
    {
      hide U64, PteSlot, PageOf;
      var slot := WalkToPte(va);
      if slot.None? {
        return None;
      }
      var e := ReadTableEntry(slot.value);
      pte := Some(e);
    }
  }

  /** The SparseMemory surface over an attached MMU: with paging on every span is
      translated page by page, otherwise it goes to the raw store unchanged. Before an MMU is
      attached no span may be asked for: the source's overriding methods would call themselves
      without end. */
  class TranslatedMemory {
    var mmu: Mmu?
    /** True when an access to the address, a write or a read, must fault; at first never. */
    var accessGuard: (nat, bool) -> bool

    ghost predicate Valid()
      reads this, mmu, if mmu == null then {} else {mmu.raw}, if mmu == null then {} else mmu.raw.Repr
    {
      mmu != null ==> mmu.Valid()
    }

    constructor ()
      ensures Valid() && mmu == null
      ensures forall x: nat, w: bool :: !accessGuard(x, w)
    {
      mmu := null;
      accessGuard := (x, w) => false;
    }

    method Attach(m: Mmu)
      requires Valid() && m.Valid()
      modifies this`mmu, m`tlb
      ensures Valid() && mmu == m
      ensures m.St() == old(m.St()).(tlb := map[])
    {
      mmu := m;
      m.FlushTlb();
    }

    function Cfg(m: Mmu): Config
      reads this, m
    {
      Config(m.demandMap, m.identityRanges, accessGuard)
    }

    method Xlate(addr: nat, access: Access) returns (o: Outcome)
      requires Valid() && mmu != null
      modifies mmu`demandMap, mmu`nextFrame, mmu`framesUsed, mmu`tlb, mmu.raw, mmu.raw.Repr
      ensures Valid() && mmu.demandMap == old(mmu.demandMap) && fresh(mmu.raw.Repr - old(mmu.raw.Repr))
      ensures (mmu.St(), o) == VM.Xlate(old(mmu.St()), old(Cfg(mmu)), addr, access)
    {
      hide Translate, Ensure;
      if access != Fetching && accessGuard(addr, access == Writing) {
        return PageFault(addr % TWO_64, NotPresent, access);
      }
      o := mmu.TranslateVa(addr, access);
      if o.PageFault? && o.reason == NotPresent && mmu.demandMap {
        mmu.EnsureRange(addr, 1, DEFAULT_FILL);
        o := mmu.TranslateVa(addr, access);
      }
    }

    /** With paging off the bytes of the raw store; with paging on those of `ReadBytes`,
        page by page, mapping missing pages as it goes. */
    method ReadSpan(addr: int, len: nat) returns (r: VM.ReadResult)
      requires Valid() && mmu != null
      modifies mmu, mmu.raw, if mmu.PagingEnabled() then mmu.raw.Repr else {}
      ensures Valid() && mmu == old(mmu)
      ensures !old(mmu.PagingEnabled()) ==>
        r == VM.ReadOk(Read(old(mmu.raw.Contents), addr % TWO_64, len)) && mmu.raw.Contents == old(mmu.raw.Contents)
      ensures old(mmu.PagingEnabled()) ==>
        (mmu.St(), r) == VM.ReadBytes(old(mmu.St()), old(Cfg(mmu)), addr % TWO_64, len)
    {
      if !mmu.PagingEnabled() {
        var raw := mmu.raw;
        var bs := raw.ReadSpan(addr % TWO_64, len);
        return VM.ReadOk(bs);
      }
      r := ReadTranslated(addr % TWO_64, len);
    }

    method ReadTranslated(addr: nat, len: nat) returns (r: VM.ReadResult)
      requires Valid() && mmu != null
      modifies mmu, mmu.raw, mmu.raw.Repr
      ensures Valid() && mmu.identityRanges == old(mmu.identityRanges) && mmu.demandMap == old(mmu.demandMap)
      ensures fresh(mmu.raw.Repr - old(mmu.raw.Repr))
      ensures (mmu.St(), r) == VM.ReadBytes(old(mmu.St()), old(Cfg(mmu)), addr, len)
    {
      hide VM.Xlate, Read;
      ghost var whole := VM.ReadBytes(mmu.St(), Cfg(mmu), addr, len);
      var out: seq<Byte> := [];
      if whole.1.ReadOk? { assert [] + whole.1.bytes == whole.1.bytes; }
      var a, done := addr, 0;
      while done < len
        invariant 0 <= done <= len && a >= 0 && Valid() && fresh(mmu.raw.Repr - old(mmu.raw.Repr)) && Cfg(mmu) == old(Cfg(mmu))
        invariant whole == Prepend(out, VM.ReadBytes(mmu.St(), Cfg(mmu), a, len - done))
      {
        var chunk := VM.Chunk(a, len - done);
        ghost var rest := VM.ReadBytes(mmu.St(), Cfg(mmu), a, len - done);
        var o := Xlate(a, Reading);
        if o.PageFault? {
          return VM.ReadFault(o);
        }
        var raw := mmu.raw;
        var bs := raw.ReadSpan(o.pa, chunk);
        PrependTwice(out, bs, VM.ReadBytes(mmu.St(), Cfg(mmu), a + chunk, len - done - chunk));
        out := out + bs;
        a, done := a + chunk, done + chunk;
      }
      assert out + [] == out;
      r := VM.ReadOk(out);
    }

    method WriteSpan(addr: int, bytes: seq<Byte>) returns (r: VM.WriteResult)
      requires Valid() && mmu != null
      modifies mmu, mmu.raw, mmu.raw.Repr
      ensures Valid() && mmu == old(mmu)
      ensures !old(mmu.PagingEnabled()) ==>
        r == VM.WriteOk && mmu.raw.Contents == Put(old(mmu.raw.Contents), addr % TWO_64, bytes)
      ensures old(mmu.PagingEnabled()) ==>
        (mmu.St(), r) == VM.WriteBytes(old(mmu.St()), old(Cfg(mmu)), addr % TWO_64, bytes)
    {
      if !mmu.PagingEnabled() {
        var raw := mmu.raw;
        raw.WriteSpan(addr % TWO_64, bytes);
        return VM.WriteOk;
      }
      r := WriteTranslated(addr % TWO_64, bytes);
    }

    /** One translation for the whole fetch; the bytes follow it in the raw store. */
    method FetchBytes(addr: int, len: nat) returns (r: VM.ReadResult)
      requires Valid() && mmu != null
      modifies mmu, mmu.raw, if mmu.PagingEnabled() then mmu.raw.Repr else {}
      ensures Valid() && mmu == old(mmu)
      ensures !old(mmu.PagingEnabled()) ==>
        r == VM.ReadOk(Read(old(mmu.raw.Contents), addr % TWO_64, len)) && mmu.raw.Contents == old(mmu.raw.Contents)
      ensures old(mmu.PagingEnabled()) ==>
        (mmu.St(), r) == VM.FetchBytes(old(mmu.St()), old(Cfg(mmu)), addr % TWO_64, len)
    {
      hide VM.Xlate, Read;
      if !mmu.PagingEnabled() {
        var raw := mmu.raw;
        var bs := raw.ReadSpan(addr % TWO_64, len);
        return VM.ReadOk(bs);
      }
      var o := Xlate(addr % TWO_64, Fetching);
      if o.PageFault? {
        return VM.ReadFault(o);
      }
      var raw := mmu.raw;
      var bs := raw.ReadSpan(o.pa, len);
      r := VM.ReadOk(bs);
    }

    method WriteTranslated(addr: nat, bytes: seq<Byte>) returns (r: VM.WriteResult)
      requires Valid() && mmu != null
      modifies mmu, mmu.raw, mmu.raw.Repr
      ensures Valid() && mmu.identityRanges == old(mmu.identityRanges) && mmu.demandMap == old(mmu.demandMap)
      ensures fresh(mmu.raw.Repr - old(mmu.raw.Repr))
      ensures (mmu.St(), r) == VM.WriteBytes(old(mmu.St()), old(Cfg(mmu)), addr, bytes)
    {
      hide VM.Xlate, Put, VM.WriteBytes, VM.Chunk;
      ghost var whole := VM.WriteBytes(mmu.St(), Cfg(mmu), addr, bytes);
      var a, done := addr, 0;
      assert bytes[0..] == bytes;
      while done < |bytes|
        invariant 0 <= done <= |bytes| && a >= 0 && Valid() && fresh(mmu.raw.Repr - old(mmu.raw.Repr)) && Cfg(mmu) == old(Cfg(mmu))
        invariant whole == VM.WriteBytes(mmu.St(), Cfg(mmu), a, bytes[done..])
      {
        var chunk := VM.Chunk(a, |bytes| - done);
        WriteStep(mmu.St(), Cfg(mmu), a, bytes, done);
        var o := Xlate(a, Writing);
        if o.PageFault? {
          return VM.WriteFault(o);
        }
        var raw := mmu.raw;
        raw.WriteSpan(o.pa, bytes[done..done + chunk]);
        a, done := a + chunk, done + chunk;
      }
      WriteNothing(mmu.St(), Cfg(mmu), a, bytes[done..]);
      r := VM.WriteOk;
    }
  }

  lemma WriteNothing(s: State, c: Config, a: nat, bs: seq<Byte>)
    requires bs == []
    ensures VM.WriteBytes(s, c, a, bs) == (s, VM.WriteOk)
  {
  }

  /** The write span taken one chunk further. */
  lemma WriteStep(s: State, c: Config, a: nat, bytes: seq<Byte>, done: nat)
    requires done < |bytes|
    ensures var n := VM.Chunk(a, |bytes| - done); var (s1, o) := VM.Xlate(s, c, a, Writing);
      VM.WriteBytes(s, c, a, bytes[done..]) ==
        if o.PageFault? then (s1, VM.WriteFault(o))
        else VM.WriteBytes(s1.(mem := Put(s1.mem, o.pa, bytes[done..done + n])), c, a + n, bytes[done + n..])
  {
    hide VM.Xlate, Put;
    var n := VM.Chunk(a, |bytes| - done);
    assert bytes[done..][..n] == bytes[done..done + n];
    assert bytes[done..][n..] == bytes[done + n..];
  }

  ghost function Prepend(out: seq<Byte>, rest: (State, VM.ReadResult)): (State, VM.ReadResult) {
    (rest.0, if rest.1.ReadOk? then VM.ReadOk(out + rest.1.bytes) else rest.1)
  }

  lemma PrependTwice(out: seq<Byte>, bs: seq<Byte>, rest: (State, VM.ReadResult))
    ensures Prepend(out, Prepend(bs, rest)) == Prepend(out + bs, rest)
  {
    if rest.1.ReadOk? { assert out + (bs + rest.1.bytes) == out + bs + rest.1.bytes; }
  }
}
