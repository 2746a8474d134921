/** The byte-level, cached MMU refines a plain map from (address space, virtual
    page) to frame and permissions, over every run of its operations. */
module MmuRefinement {
  import opened Bytes
  import opened Store
  import opened PageTables
  import opened TableBuilder
  import opened Wrappers
  import opened MmuModel

  /** The tables form a forest below the allocator, cr3 is one of its roots and
      the cache is sound. */
  ghost predicate Sound(s: State, own: Forest) {
    && Grown(s.mem, s.next, own)
    && s.cr3 in own && own[s.cr3].level == 4
    && CacheOk(s)
  }

  ghost predicate IsRoot(own: Forest, r: nat) { r in own && own[r].level == 4 }

  lemma RootFrame(s: State, own: Forest)
    requires Sound(s, own)
    ensures FrameOf(s.cr3) == s.cr3
  {
    ModUnique(s.cr3 / 4096, 0x100_0000_0000, 0, s.cr3 / 4096);
  }

  lemma RootOnPath(own: Forest, m: Store, r: nat, p: nat)
    requires Shape(m, own) && IsRoot(own, r) && p < 0x10_0000_0000
    ensures own[r] == Place(r, 4, 0) && OnPath(own[r], r, p)
  {
    TopOver(p);
  }

  lemma RootAligned(m: Store, own: Forest, r: nat)
    requires Shape(m, own) && IsRoot(own, r)
    ensures r % 4096 == 0 && r < TWO_52
  {
  }

  // -------------------------------------------------------------- map, unmap

  /** Walks from every root, but that of page p from root r, are kept. */
  ghost predicate RootWalksKept(m: Store, m': Store, own: Forest, r: nat, p: nat) {
    forall t, q: nat {:trigger WalkFrom(m', t, 4, q)} | IsRoot(own, t) && q < 0x10_0000_0000 && !(t == r && q == p) ::
      WalkFrom(m', t, 4, q) == WalkFrom(m, t, 4, q)
  }

  lemma OtherToRoot(m: Store, m': Store, own: Forest, r: nat, p: nat)
    requires Shape(m, own) && OtherWalksKept(m, m', own, r, p)
    ensures RootWalksKept(m, m', own, r, p)
  {
    forall t, q: nat | IsRoot(own, t) && q < 0x10_0000_0000 && !(t == r && q == p)
      ensures WalkFrom(m', t, 4, q) == WalkFrom(m, t, 4, q)
    {
      RootOnPath(own, m, t, q);
      assert WalkFrom(m', t, own[t].level, q) == WalkFrom(m, t, own[t].level, q);
    }
  }

  lemma PageOfInRange(va: int)
    ensures PageOf(va) < 0x10_0000_0000
  {
  }

  /** mapPage: the page now ends in the leaf entry asked for; every other page of this
      and every other address space, and every byte outside the tables, is kept. */
  lemma MapPageWorks(s: State, own: Forest, va: int, pa: nat, fl: Flags) returns (own': Forest)
    requires Sound(s, own) && s.next + 3 * 4096 <= TWO_52
    requires NoLarge(s.mem, s.cr3, 4, PageOf(va))
    ensures var s' := MapPage(s, va, pa, fl);
      && Sound(s', own') && Extends(own, own', s.next, s'.next)
      && s.next <= s'.next <= s.next + 3 * 4096
      && s'.cr3 == s.cr3 && s'.cr4 == s.cr4 && s'.tlb == map[]
      && (forall r :: IsRoot(own', r) <==> IsRoot(own, r))
      && RootWalksKept(s.mem, s'.mem, own, s.cr3, PageOf(va))
      && (var w := WalkFrom(s'.mem, s.cr3, 4, PageOf(va)); w.Leaf? && w.level == 1 && w.entry == LeafEntry(pa, fl))
      && OutsideKept(s.mem, s'.mem, own')
      && Grew(s.mem, s.next, own, s.cr3, 4, PageOf(va), Built(s'.mem, s'.next), own')
  {
    hide Entry, Get, FrameOf, WalkFrom, LeafEntry, PageOf, MapFrom, Grew;
    var p := PageOf(va);
    PageOfInRange(va);
    RootFrame(s, own);
    RootOnPath(own, s.mem, s.cr3, p);
    LeafEntryFields(pa, fl);
    own' := MapFromWorks(s.mem, s.next, own, s.cr3, p, LeafEntry(pa, fl));
    var s' := MapPage(s, va, pa, fl);
    OtherToRoot(s.mem, s'.mem, own, s.cr3, p);
  }

  /** unmap: the page is gone, every other page of every address space is kept. */
  lemma UnmapWorks(s: State, own: Forest, va: int)
    requires Sound(s, own) && NoLarge(s.mem, s.cr3, 4, PageOf(va))
    ensures var s' := Unmap(s, va);
      && Sound(s', own) && s' == s.(mem := s'.mem, tlb := s'.tlb)
      && RootWalksKept(s.mem, s'.mem, own, s.cr3, PageOf(va))
      && WalkFrom(s'.mem, s.cr3, 4, PageOf(va)) == Missing
      && OutsideKept(s.mem, s'.mem, own)
      && (Filed(s.mem, own) ==> Filed(s'.mem, own))
  {
    hide Entry, Get, FrameOf, WalkFrom, PageOf, PteSlot, W64, Filed, NoLarge, Present, Large, Index, OnPath;
    var p := PageOf(va);
    PageOfInRange(va);
    RootFrame(s, own);
    RootOnPath(own, s.mem, s.cr3, p);
    if PteSlot(s.mem, s.cr3, 4, p).Some? {
      var t3 := FrameOf(Entry(s.mem, s.cr3, Index(p, 4)));
      var t2 := FrameOf(Entry(s.mem, t3, Index(p, 3)));
      var t := FrameOf(Entry(s.mem, t2, Index(p, 2)));
      WalkDown(s.mem, s.cr3, 4, p);
      PathStep(s.mem, own, s.cr3, p);
      WalkDown(s.mem, t3, 3, p);
      PathStep(s.mem, own, t3, p);
      WalkDown(s.mem, t2, 2, p);
      PathStep(s.mem, own, t2, p);
      PteSlotOne(s.mem, t, p);
      var m' := W64(s.mem, t + 8 * Index(p, 1), 0);
      SetEntryEffect(s.mem, t, Index(p, 1), 0);
      LeafSet(s.mem, m', own, t, p, 0);
      OtherToRoot(s.mem, m', own, s.cr3, p);
      ClearedWalk(s.mem, m', own, s.cr3, t, p);
      if Filed(s.mem, own) { LeafFiled(s.mem, m', own, t, Index(p, 1), 0); }
    } else {
      NoSlotNoWalk(s.mem, s.cr3, 4, p);
    }
  }

  lemma {:induction false} NoSlotNoWalk(m: Store, t: nat, level: nat, p: nat)
    requires 1 <= level <= 4 && NoLarge(m, t, level, p) && PteSlot(m, t, level, p).None?
    ensures WalkFrom(m, t, level, p) == Missing
    decreases level
  {
    var e := Entry(m, t, Index(p, level));
    if level > 1 && Present(e) && !Large(e) { NoSlotNoWalk(m, FrameOf(e), level - 1, p); }
  }

  /** Once the level 1 entry is zero, the walk that went through it finds nothing. */
  lemma {:induction false} ClearedWalk(m: Store, m': Store, own: Forest, t: nat, leafTable: nat, p: nat)
    requires Shape(m, own) && t in own && OnPath(own[t], own[t].root, p)
    requires NoLarge(m, t, own[t].level, p)
    requires PteSlot(m, t, own[t].level, p) == Some(leafTable + 8 * Index(p, 1))
    requires leafTable in own && own[leafTable].level == 1
    requires EntrySet(m, m', leafTable, Index(p, 1), 0)
    ensures WalkFrom(m', t, own[t].level, p) == Missing
    decreases own[t].level
  {
    hide U64, FrameOf, Present, Large, Get, Index;
    var l := own[t].level;
    var i := Index(p, l);
    ZeroAbsent();
    if l == 1 {
      SlotsApart(t, i, leafTable, i);
    } else {
      assert Linked(m, own, t, i);
      assert Entry(m', t, i) == Entry(m, t, i);
      IndexStep(p, l);
      ClearedWalk(m, m', own, FrameOf(Entry(m, t, i)), leafTable, p);
    }
  }

  lemma RootFiled(m: Store, m': Store, own: Forest, r: nat)
    requires Shape(m, own) && Filed(m, own) && r !in own
    requires forall f, i: nat | f in own && i < 512 :: Entry(m', f, i) == Entry(m, f, i)
    requires forall i: nat | i < 512 :: Entry(m', r, i) == 0
    ensures Filed(m', own[r := Place(r, 4, 0)])
  {
    hide Entry, Has, FrameOf, Linked;
    var own' := own[r := Place(r, 4, 0)];
    var at := Place(r, 4, 0);
    forall f | f in own'
      ensures Hooked(own', f)
    {
      if f != r { HookedMore(own, own', f); }
    }
    forall f, i: nat | f in own' && own'[f].level > 1 && i < 512
      ensures Bare(m', own', f, i)
    {
      if f == r {
        NotAbove(own, r, Below(at, i));
        HangHas(own, own', r, at, Below(at, i));
      } else {
        assert Bare(m, own, f, i);
        if !Present(Entry(m, f, i)) { HangHas(own, own', r, at, Below(own[f], i)); }
      }
    }
  }

  lemma NotAbove(own: Forest, r: nat, at: Place)
    requires r !in own && at.root == r && forall f {:trigger Hooked(own, f)} | f in own :: Hooked(own, f)
    ensures !Has(own, at)
  {
    forall f | f in own
      ensures own[f] != at
    {
      assert Hooked(own, f);
    }
  }

  /** A new address space maps nothing and disturbs nothing. */
  lemma NewAddressSpaceWorks(s: State, own: Forest)
    requires Sound(s, own) && s.next + 4096 <= TWO_52
    ensures var (s', r) := NewAddressSpace(s); var own' := own[r := Place(r, 4, 0)];
      && Sound(s', own') && r == s.next && r !in own && s' == s.(mem := s'.mem, next := s.next + 4096)
      && (forall t, q: nat | IsRoot(own, t) && q < 0x10_0000_0000 :: WalkFrom(s'.mem, t, 4, q) == WalkFrom(s.mem, t, 4, q))
      && (forall q: nat :: WalkFrom(s'.mem, r, 4, q) == Missing)
      && OutsideKept(s.mem, s'.mem, own')
      && (Filed(s.mem, own) ==> Filed(s'.mem, own'))
  {
    hide Get, FrameOf, U64, Put, Filed;
    var (s', r) := NewAddressSpace(s);
    var own' := own[r := Place(r, 4, 0)];
    ZeroFrameEffect(s.mem, r);
    FrameBytes(r);
    forall f, i: nat | f in own' && own'[f].level > 1 && i < 512
      ensures Linked(s'.mem, own', f, i)
    {
      if f == r { assert Entry(s'.mem, f, i) == 0; } else { assert Linked(s.mem, own, f, i); }
    }
    forall q: nat
      ensures WalkFrom(s'.mem, r, 4, q) == Missing
    {
      assert Entry(s'.mem, r, Index(q, 4)) == 0;
    }
    forall t, q: nat | IsRoot(own, t) && q < 0x10_0000_0000
      ensures WalkFrom(s'.mem, t, 4, q) == WalkFrom(s.mem, t, 4, q)
    {
      RootOnPath(own, s.mem, t, q);
      WalkOffPath(s.mem, s'.mem, own, t, Elsewhere(q), t, q);
    }
    CacheKept(s, s', own);
    if Filed(s.mem, own) { RootFiled(s.mem, s'.mem, own, r); }
  }

  /** Any entry of a root off the path of page q. */
  function Elsewhere(q: nat): (i: nat)
    ensures i < 512 && i != Index(q, 4)
  {
    if Index(q, 4) == 0 then 1 else 0
  }

  /** The entries of the forest's tables are unchanged. */
  ghost predicate ForestKept(m: Store, m': Store, own: Forest) {
    forall f, i: nat | f in own && i < 512 :: Entry(m', f, i) == Entry(m, f, i)
  }

  /** Nothing has to be flushed when the forest's entries are unchanged: new address
      spaces and data writes leave the cache sound. */
  lemma CacheKept(s: State, s': State, own: Forest)
    requires Sound(s, own) && ForestKept(s.mem, s'.mem, own)
    requires s'.cr3 == s.cr3 && s'.cr4 == s.cr4 && s'.tlb == s.tlb
    ensures CacheOk(s')
  {
    hide Get, FrameOf, U64, WalkFrom, Accessed, Dirty, Shape, HitOf, Denied;
    RootFrame(s, own);
    forall n: nat, access: Access | (n, access) in s'.tlb
      ensures CacheEntryOk(s', n, access)
    {
      assert CacheEntryOk(s, n, access);
      var p := n % 0x10_0000_0000;
      RootOnPath(own, s.mem, s.cr3, p);
      AskedHit(s.mem, s.cr3, s.cr4, p, access);
      WalkOffPath(s.mem, s'.mem, own, s.cr3, Elsewhere(p), s.cr3, p);
      LeafInForest(s.mem, own, s.cr3, p);
      HitSlot(WalkFrom(s.mem, s.cr3, 4, p), p);
    }
  }

  lemma HitSlot(w: Walk, p: nat)
    requires w.Leaf?
    ensures HitOf(w, p).ptePa == if w.level == 1 then Some(w.table + 8 * Index(p, 1)) else None
  {
  }

  /** Translating reads keep the forest and every walk. */
  lemma TranslateKeeps(s: State, own: Forest, va: int, access: Access)
    requires Sound(s, own)
    ensures var (s', o) := Translate(s, va, access);
      && Sound(s', own) && s' == s.(mem := s'.mem, tlb := s'.tlb)
      && o == Uncached(s.mem, s.cr3, s.cr4, va, access)
      && (forall r, q: nat | r % 4096 == 0 :: SameWalk(WalkFrom(s.mem, r, 4, q), WalkFrom(s'.mem, r, 4, q)))
      && OutsideKept(s.mem, s'.mem, own)
      && (o.Translated? ==> LeafMarked(s'.mem, o.hit, access))
      && (Filed(s.mem, own) ==> Filed(s'.mem, own))
  {
    hide WalkFrom, Translate, Uncached, Entry, CacheOk, FrameOf, Present, Large, Writable, User, NoExecute, LeafMarked, Filed;
    TranslateTransparent(s, va, access);
    var s' := Translate(s, va, access).0;
    ShapeKept(s.mem, s'.mem, own);
    if Filed(s.mem, own) { FiledSame(s.mem, s'.mem, own); }
    forall r, q: nat | r % 4096 == 0
      ensures SameWalk(WalkFrom(s.mem, r, 4, q), WalkFrom(s'.mem, r, 4, q))
    {
      WalkSameButAD(s.mem, s'.mem, r, 4, q);
    }
    TranslateBytes(s, own, va, access);
  }

  lemma ShapeKept(m: Store, m': Store, own: Forest)
    requires Shape(m, own) && SameTables(m, m')
    ensures Shape(m', own)
  {
    hide Entry, Present, Large, FrameOf, Writable, User, NoExecute;
    forall f, i: nat | f in own && own[f].level > 1 && i < 512
      ensures Linked(m', own, f, i)
    {
      assert Linked(m, own, f, i);
      assert SameButAD(Entry(m, f, i), Entry(m', f, i));
    }
  }

  /** The only bytes a translation writes lie in a table of the forest. */
  lemma TranslateBytes(s: State, own: Forest, va: int, access: Access)
    requires Sound(s, own)
    ensures OutsideKept(s.mem, Translate(s, va, access).0.mem, own)
  {
    hide WalkFrom, TouchLeaf, Canonical, HitOf, BitOr, OffsetOf, Get, CacheEntryOk, LeafMarked, SameTables, Shape, Asked;
    var v := va % TWO_64;
    var o := Asked(s.mem, s.cr3, s.cr4, PageOf(v), access);
    if Canonical(v) && (v / 4096, access) !in s.tlb && o.Grant? {
      AskedHit(s.mem, s.cr3, s.cr4, PageOf(v), access);
      RootFrame(s, own);
      PageOfInRange(v);
      RootOnPath(own, s.mem, s.cr3, PageOf(v));
      LeafInForest(s.mem, own, s.cr3, PageOf(v));
      var w := WalkFrom(s.mem, s.cr3, 4, PageOf(v));
      var c := if |s.tlb| < TLB_LIMIT then s.(tlb := s.tlb[(v / 4096, access) := o.hit]) else s;
      TouchLeafEffect(c, w, PageOf(v), access);
    }
  }

  /** The state of a new MMU after its first address space is entered. */
  function Boot(frameBase: nat, cr4: nat): State {
    var (s, root) := NewAddressSpace(State(map[], 0, cr4, frameBase, map[]));
    SwitchTo(s, root)
  }

  lemma BootSound(frameBase: nat, cr4: nat)
    requires frameBase % 4096 == 0 && frameBase + 4096 <= TWO_52
    ensures var own: Forest := map[frameBase := Place(frameBase, 4, 0)]; var s := Boot(frameBase, cr4);
      && Sound(s, own) && s.next == frameBase + 4096 && s.cr3 == frameBase && s.cr4 == cr4
      && (forall p: nat :: WalkFrom(s.mem, frameBase, 4, p) == Missing)
      && (forall a: nat :: Get(s.mem, a) == 0)
  {
    hide Get, U64, Put;
    var s := Boot(frameBase, cr4);
    ZeroFrameEffect(map[], frameBase);
    EmptyStore();
    assert forall i: nat | i < 512 :: Entry(s.mem, frameBase, i) == 0;
    forall p: nat
      ensures WalkFrom(s.mem, frameBase, 4, p) == Missing
    {
      assert Entry(s.mem, frameBase, Index(p, 4)) == 0;
    }
  }

  lemma EmptyStore()
    ensures forall a: nat :: Get(map[], a) == 0
  {
  }
}
