/** The page-table space as an object over a sparse memory, each method against its
    function on states. */
module PageTableObject {
  import opened Bytes
  import opened Store
  import opened PageTables
  import opened Wrappers
  import opened Memory
  import P = PageTableSpace

  class PageTableSpace {
    const mem: SparseMemory
    const canonicalHigh: bool
    var nextFrame: nat
    var frames: seq<nat>
    var mirrors: seq<P.Mirror>
    var processes: map<nat, nat>

    ghost predicate Valid()
      reads this, mem, mem.Repr
    {
      mem.Valid()
    }

    ghost function St(): P.Pts
      reads this, mem
    {
      P.Pts(mem.Contents, nextFrame, mirrors, processes, canonicalHigh)
    }

    constructor (mem: SparseMemory, physBase: nat, canonicalHigh: bool)
      requires mem.Valid()
      ensures Valid() && this.mem == mem
      ensures St() == P.Pts(mem.Contents, physBase, [], map[], canonicalHigh)
    {
      this.mem, this.canonicalHigh := mem, canonicalHigh;
      nextFrame, frames, mirrors, processes := physBase, [], [], map[];
    }

    /** One zeroed frame. */
    method AllocFrame() returns (f: nat)
      requires Valid()
      modifies this`nextFrame, this`frames, mem, mem.Repr
      ensures Valid() && fresh(mem.Repr - old(mem.Repr))
      ensures (St(), f) == P.AllocFrame(old(St())) && frames == old(frames) + [f]
    {
      f := nextFrame;
      nextFrame := nextFrame + 4096;
      mem.WriteSpan(f, Zeros(4096));
      frames := frames + [f];
    }

    /** A table frame with its alias; None stands for the alias collision error. */
    method AllocStructFrame(aliasBase: nat) returns (r: Option<nat>)
      requires Valid()
      modifies this`nextFrame, this`frames, this`mirrors, mem, mem.Repr
      ensures Valid() && fresh(mem.Repr - old(mem.Repr))
      ensures (St(), r) == P.AllocStructFrame(old(St()), aliasBase)
    {
      var f := AllocFrame();
      var base := aliasBase / 4096 * 4096;
      for k := 0 to |mirrors|
        invariant forall j | 0 <= j < k :: mirrors[j].base != base
      {
        if mirrors[k].base == base {
          return None;
        }
      }
      mirrors := mirrors + [P.Mirror(f, base)];
      r := Some(f);
    }

    /** mirrors.get(frame). */
    method FindMirror(frame: nat) returns (r: Option<nat>)
      ensures r == P.MirrorOf(mirrors, frame)
    {
      for k := 0 to |mirrors|
        invariant P.MirrorOf(mirrors, frame) == P.MirrorOf(mirrors[k..], frame)
      {
        assert mirrors[k..][0] == mirrors[k] && mirrors[k..][1..] == mirrors[k + 1..];
        if mirrors[k].frame == frame {
          return Some(mirrors[k].base);
        }
      }
      return None;
    }

    /** An entry written on the frame and on its window. */
    method Poke64(entryPa: nat, value: nat)
      requires Valid()
      modifies mem, mem.Repr
      ensures Valid() && fresh(mem.Repr - old(mem.Repr))
      ensures St() == P.Poke(old(St()), entryPa, value)
    {
      hide W64, P.MirrorOf;
      mem.WriteU64(entryPa, value);
      var m := FindMirror(entryPa / 4096 * 4096);
      if m.Some? {
        mem.WriteU64(m.value + entryPa % 4096, value);
      }
    }

    /** Edits made through windows, copied to their frames. */
    method SyncAliasesBack()
      requires Valid()
      modifies mem, mem.Repr
      ensures Valid() && fresh(mem.Repr - old(mem.Repr))
      ensures mem.Contents == P.SyncBack(old(mem.Contents), mirrors)
    {
      hide Put, Read;
      for k := 0 to |mirrors|
        invariant Valid() && fresh(mem.Repr - old(mem.Repr))
        invariant P.SyncBack(old(mem.Contents), mirrors) == P.SyncBack(mem.Contents, mirrors[k..])
      {
        assert mirrors[k..][0] == mirrors[k] && mirrors[k..][1..] == mirrors[k + 1..];
        var r := mirrors[k];
        if mem.HasPage(r.base) {
          var bytes := mem.ReadSpan(r.base, 4096);
          var phys := mem.ReadSpan(r.frame, 4096);
          if bytes != phys {
            mem.WriteSpan(r.frame, bytes);
          }
        }
      }
    }

    method CreateProcess(selfRef: nat) returns (r: P.Result<nat>)
      requires Valid()
      modifies this`nextFrame, this`frames, this`mirrors, this`processes, mem, mem.Repr
      ensures Valid() && fresh(mem.Repr - old(mem.Repr))
      ensures (St(), r) == P.CreateProcess(old(St()), selfRef)
    {
      hide P.Poke, P.AllocStructFrame, P.TableWindow;
      var dtb := AllocStructFrame(P.TableWindow(selfRef, 4, 0, canonicalHigh));
      if dtb.None? {
        return P.Err(P.AliasCollision);
      }
      Poke64(dtb.value + selfRef * 8, P.RootEntry(dtb.value));
      processes := processes[dtb.value := selfRef];
      r := P.Ok(dtb.value);
    }

    /** One level of mapPage: the table below an entry, allocated when the entry holds no
        frame, and the entry rewritten either way. */
    method OpenTable(entryPa: nat, alias: nat, user: bool) returns (r: Option<nat>)
      requires Valid()
      modifies this`nextFrame, this`frames, this`mirrors, mem, mem.Repr
      ensures Valid() && fresh(mem.Repr - old(mem.Repr))
      ensures var e := U64(old(mem.Contents), entryPa);
        var (s1, f) := if e / 4096 == 0 then P.AllocStructFrame(old(St()), alias) else (old(St()), Some(e / 4096 * 4096));
        r == f && St() == if f.Some? then P.Poke(s1, entryPa, P.LinkValue(f.value, user)) else s1
    {
      hide P.Poke, P.AllocStructFrame, P.LinkValue, U64;
      var e := mem.ReadU64(entryPa);
      var frame: nat := 0;
      if e / 4096 == 0 {
        r := AllocStructFrame(alias);
        if r.None? {
          return;
        }
        frame := r.value;
      } else {
        frame := e / 4096 * 4096;
      }
      Poke64(entryPa, P.LinkValue(frame, user));
      r := Some(frame);
    }

    method MapPage(dtb: nat, selfRef: nat, va: nat, o: P.Opts) returns (r: P.Result<nat>)
      requires Valid()
      modifies this`nextFrame, this`frames, this`mirrors, mem, mem.Repr
      ensures Valid() && fresh(mem.Repr - old(mem.Repr))
      ensures (St(), r) == P.MapPage(old(St()), dtb, selfRef, va, o)
    {
      hide P.Poke, P.AllocStructFrame, P.LinkValue, U64, P.SplitVa, P.LeafValue, P.TableWindow, P.AllocFrame, PageOf, Index, P.DescendMap;
      var i := P.SplitVa(va);
      var p := PageOf(va);
      P.IndexOfVa(va);
      if i.pml4 == selfRef {
        return P.Err(P.SelfMapRegion);
      }
      if i.pd == P.SENTINEL || i.pdpt == P.SENTINEL || i.pt == P.SENTINEL {
        return P.Err(P.SentinelIndex);
      }
      var pa: nat;
      if o.pa.Some? {
        pa := o.pa.value;
      } else {
        pa := AllocFrame();
      }
      var done := MapTables(dtb, selfRef, va, o.user, P.LeafValue(pa, o));
      r := if done.Ok? then P.Ok(pa) else P.Err(done.error);
    }

    /** The tables of one path, top level first, and the leaf. */
    method MapTables(dtb: nat, selfRef: nat, va: nat, user: bool, leaf: nat) returns (r: P.Result<()>)
      requires Valid()
      modifies this`nextFrame, this`frames, this`mirrors, mem, mem.Repr
      ensures Valid() && fresh(mem.Repr - old(mem.Repr))
      ensures (St(), r) == P.DescendMap(old(St()), selfRef, dtb, 4, PageOf(va), user, leaf)
    {
      hide P.Poke, P.AllocStructFrame, P.LinkValue, U64, P.SplitVa, P.LeafValue, P.TableWindow, PageOf, Index, P.DescendMap;
      var i := P.SplitVa(va);
      var p := PageOf(va);
      P.IndexOfVa(va);
      DescendStep(St(), selfRef, dtb, 4, p, user, leaf);
      var pdpt := OpenTable(dtb + i.pml4 * 8, P.TableWindow(selfRef, 3, p, canonicalHigh), user);
      if pdpt.None? {
        return P.Err(P.AliasCollision);
      }
      DescendStep(St(), selfRef, pdpt.value, 3, p, user, leaf);
      var pd := OpenTable(pdpt.value + i.pdpt * 8, P.TableWindow(selfRef, 2, p, canonicalHigh), user);
      if pd.None? {
        return P.Err(P.AliasCollision);
      }
      DescendStep(St(), selfRef, pd.value, 2, p, user, leaf);
      var pt := OpenTable(pd.value + i.pd * 8, P.TableWindow(selfRef, 1, p, canonicalHigh), user);
      if pt.None? {
        return P.Err(P.AliasCollision);
      }
      DescendLast(St(), selfRef, pt.value, p, user, leaf);
      Poke64(pt.value + i.pt * 8, leaf);
      r := P.Ok(());
    }

    static lemma DescendLast(s: P.Pts, selfRef: nat, table: nat, p: nat, user: bool, leaf: nat)
      ensures P.DescendMap(s, selfRef, table, 1, p, user, leaf) == (P.Poke(s, table + 8 * Index(p, 1), leaf), P.Ok(()))
    {
      hide P.Poke, Index;
    }

    static lemma DescendStep(s: P.Pts, selfRef: nat, table: nat, level: nat, p: nat, user: bool, leaf: nat)
      requires 2 <= level <= 4
      ensures var slot := table + 8 * Index(p, level); var e := U64(s.mem, slot);
        var (s1, f) :=
          if e / 4096 == 0 then P.AllocStructFrame(s, P.TableWindow(selfRef, level - 1, p, s.high))
          else (s, Some(e / 4096 * 4096));
        P.DescendMap(s, selfRef, table, level, p, user, leaf) ==
          match f
          case None => (s1, P.Err(P.AliasCollision))
          case Some(frame) =>
            P.DescendMap(P.Poke(s1, slot, P.LinkValue(frame, user)), selfRef, frame, level - 1, p, user, leaf)
    {
      hide P.Poke, P.AllocStructFrame, P.LinkValue, U64, P.TableWindow, Index;
    }

    /** The full walk with its rows. */
    method Translate(dtb: nat, va: nat) returns (w: P.Walked)
      requires Valid()
      modifies mem, mem.Repr
      ensures Valid() && fresh(mem.Repr - old(mem.Repr))
      ensures (St(), w) == P.Translate(old(St()), dtb, va)
    {
      hide P.SyncBack, U64, P.SplitVa;
      SyncAliasesBack();
      var i := P.SplitVa(va);
      var a4 := dtb / 4096 * 4096 + i.pml4 * 8;
      var e4 := mem.ReadU64(a4);
      if !Present(e4) {
        return P.Walked(None, [(a4, e4)]);
      }
      var a3 := e4 / 4096 * 4096 + i.pdpt * 8;
      var e3 := mem.ReadU64(a3);
      if !Present(e3) {
        return P.Walked(None, [(a4, e4), (a3, e3)]);
      }
      if Large(e3) {
        return P.Walked(Some(e3 / 0x4000_0000 * 0x4000_0000 + va % 0x4000_0000), [(a4, e4), (a3, e3)]);
      }
      var a2 := e3 / 4096 * 4096 + i.pd * 8;
      var e2 := mem.ReadU64(a2);
      if !Present(e2) {
        return P.Walked(None, [(a4, e4), (a3, e3), (a2, e2)]);
      }
      if Large(e2) {
        return P.Walked(Some(e2 / 0x20_0000 * 0x20_0000 + va % 0x20_0000), [(a4, e4), (a3, e3), (a2, e2)]);
      }
      var a1 := e2 / 4096 * 4096 + i.pt * 8;
      var e1 := mem.ReadU64(a1);
      w := P.Walked(if Present(e1) then Some(e1 / 4096 * 4096 + i.offset) else None, [(a4, e4), (a3, e3), (a2, e2), (a1, e1)]);
    }
  }
}
