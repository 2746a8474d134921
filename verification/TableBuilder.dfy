/** Building page tables: mapping, unmapping and new roots as functions on the
    store and the bump allocator, and what they do to every walk. */
module TableBuilder {
  import opened Bytes
  import opened Store
  import opened PageTables
  import opened Wrappers

  datatype Built = Built(mem: Store, next: nat)

  /** mapPage from a table down: missing tables are allocated, zeroed and hung in. */
  function MapFrom(m: Store, next: nat, table: nat, level: nat, p: nat, leaf: nat): Built
    requires 1 <= level <= 4
    decreases level
  {
    var slot := table + 8 * Index(p, level);
    if level == 1 then Built(W64(m, slot, leaf), next)
    else if !Present(U64(m, slot)) then
      var m2 := W64(Put(m, next, Zeros(4096)), slot, FrameOf(next) + 7);
      MapFrom(m2, next + 4096, FrameOf(U64(m2, slot)), level - 1, p, leaf)
    else MapFrom(m, next, FrameOf(U64(m, slot)), level - 1, p, leaf)
  }

  /** The physical address of the level 1 entry of p; PS bits are not looked at. */
  function PteSlot(m: Store, table: nat, level: nat, p: nat): Option<nat>
    requires 1 <= level <= 4
    decreases level
  {
    var slot := table + 8 * Index(p, level);
    if level == 1 then Some(slot)
    else if !Present(U64(m, slot)) then None
    else PteSlot(m, FrameOf(U64(m, slot)), level - 1, p)
  }

  /** A forest below the allocator's cursor. */
  ghost predicate Grown(m: Store, next: nat, own: Forest) {
    && Shape(m, own)
    && next % 4096 == 0
    && forall f | f in own :: f < next
  }

  /** The forest gained non-root tables in frames the allocator handed out. */
  ghost predicate Extends(own: Forest, own': Forest, next: nat, next': nat) {
    && (forall f | f in own :: f in own' && own'[f] == own[f])
    && (forall f | f in own' && f !in own :: next <= f < next' && own'[f].level < 4)
  }

  /** Bytes outside the forest's frames are kept. */
  ghost predicate OutsideKept(m: Store, m': Store, own: Forest) {
    && (forall a: nat | a / 4096 * 4096 !in own :: Get(m', a) == Get(m, a))
    && m.Keys <= m'.Keys
  }

  /** Every walk from a table of the forest is kept, but that of page p below root. */
  ghost predicate OtherWalksKept(m: Store, m': Store, own: Forest, root: nat, p: nat) {
    forall t, q: nat {:trigger WalkFrom(m', t, own[t].level, q)} |
      t in own && 1 <= own[t].level <= 4 && OnPath(own[t], own[t].root, q) && !(own[t].root == root && q == p) ::
      WalkFrom(m', t, own[t].level, q) == WalkFrom(m, t, own[t].level, q)
  }

  function Hang(own: Forest, f: nat, i: nat, nt: nat): Forest
    requires f in own && own[f].level > 0
  {
    own[nt := Place(own[f].root, own[f].level - 1, own[f].base * 512 + i)]
  }

  // ------------------------------------------------------ which tables there are

  predicate Has(own: Forest, at: Place) {
    exists f :: f in own && own[f] == at
  }

  /** The place below entry i. */
  function Below(at: Place, i: nat): Place
    requires at.level > 0
  {
    Place(at.root, at.level - 1, at.base * 512 + i)
  }

  /** Below an entry that is not present there is no table. */
  ghost predicate Bare(m: Store, own: Forest, f: nat, i: nat)
    requires f in own && own[f].level > 1
  {
    !Present(Entry(m, f, i)) ==> !Has(own, Below(own[f], i))
  }

  /** The root of a table is in the forest, and so is the table above it. */
  predicate Hooked(own: Forest, f: nat)
    requires f in own
  {
    && own[f].root in own
    && (own[f].level < 4 ==> Has(own, Place(own[f].root, own[f].level + 1, own[f].base / 512)))
  }

  /** The forest holds one table a place, and just those that memory links. */
  ghost predicate Filed(m: Store, own: Forest) {
    && (forall f, g | f in own && g in own && own[f] == own[g] :: f == g)
    && (forall f {:trigger Hooked(own, f)} | f in own :: Hooked(own, f))
    && (forall f, i: nat {:trigger Bare(m, own, f, i)} | f in own && own[f].level > 1 && i < 512 :: Bare(m, own, f, i))
  }

  /** The tables, and the cursor, once page p has a table at every level below this one. */
  function Grow(own: Forest, next: nat, root: nat, level: nat, p: nat): (Forest, nat)
    requires 1 <= level <= 4
    decreases level
  {
    if level == 1 then (own, next)
    else
      var at := Place(root, level - 1, Over(p, level - 1));
      if Has(own, at) then Grow(own, next, root, level - 1, p)
      else Grow(own[next := at], next + 4096, root, level - 1, p)
  }

  lemma FiledSame(m: Store, m': Store, own: Forest)
    requires Filed(m, own)
    requires forall f, i: nat | f in own && i < 512 :: Present(Entry(m', f, i)) == Present(Entry(m, f, i))
    ensures Filed(m', own)
  {
    hide Entry, Present, Has;
    forall f, i: nat | f in own && own[f].level > 1 && i < 512
      ensures Bare(m', own, f, i)
    {
      assert Bare(m, own, f, i);
    }
  }

  lemma HangUnique(own: Forest, own': Forest, nt: nat, at: Place)
    requires own' == own[nt := at] && nt !in own && !Has(own, at)
    requires forall f, g | f in own && g in own && own[f] == own[g] :: f == g
    ensures forall f, g | f in own' && g in own' && own'[f] == own'[g] :: f == g
  {
    NotHas(own, at);
    hide Has;
  }

  lemma HangBare(m: Store, m2: Store, own: Forest, f: nat, i: nat, nt: nat, g: nat, j: nat)
    requires f in own && i < 512 && own[f].level > 1 && nt !in own && j < 512
    requires Filed(m, own) && !Present(Entry(m, f, i)) && Present(Entry(m2, f, i)) && !Present(Entry(m2, nt, j))
    requires !Has(own, Below(own[f], i)) && own[f].level <= 4
    requires g == nt || (g in own && ((g == f && j == i) || Entry(m2, g, j) == Entry(m, g, j)))
    ensures var own' := Hang(own, f, i, nt); own'[g].level > 1 ==> Bare(m2, own', g, j)
  {
    hide Entry, Present, Has, Hooked;
    var at := Below(own[f], i);
    var own' := Hang(own, f, i, nt);
    if g == nt && at.level > 1 {
      if Has(own, Below(at, j)) { HasAbove(m, own, at, j); }
      HangHas(own, own', nt, at, Below(at, j));
    } else if g != nt && !(g == f && j == i) && own[g].level > 1 {
      assert Bare(m, own, g, j);
      if Below(own[g], j) == at { PlacesApart(own[g], j, own[f], i); }
      if !Present(Entry(m, g, j)) { HangHas(own, own', nt, at, Below(own[g], j)); }
    }
  }

  lemma HangHooked(own: Forest, f: nat, i: nat, nt: nat)
    requires f in own && i < 512 && own[f].level > 1 && nt !in own
    requires forall g {:trigger Hooked(own, g)} | g in own :: Hooked(own, g)
    ensures var own' := Hang(own, f, i, nt); forall g {:trigger Hooked(own', g)} | g in own' :: Hooked(own', g)
  {
    hide Has;
    var own' := Hang(own, f, i, nt);
    forall g | g in own'
      ensures Hooked(own', g)
    {
      HookedMore(own, own', if g == nt then f else g);
      if g == nt {
        assert (own[f].base * 512 + i) / 512 == own[f].base;
        assert own'[f] == own[f];
        HasAt(own', f);
      }
    }
  }

  lemma HangFiled(m: Store, m2: Store, own: Forest, f: nat, i: nat, nt: nat)
    requires Filed(m, own) && f in own && i < 512 && 1 < own[f].level <= 4 && !Present(Entry(m, f, i)) && nt !in own
    requires Present(Entry(m2, f, i)) && forall j: nat | j < 512 :: !Present(Entry(m2, nt, j))
    requires forall g, j: nat | g in own && j < 512 && !(g == f && j == i) :: Entry(m2, g, j) == Entry(m, g, j)
    ensures Filed(m2, Hang(own, f, i, nt))
  {
    hide Entry, Present, Has, Hooked;
    var at := Below(own[f], i);
    var own' := Hang(own, f, i, nt);
    assert Bare(m, own, f, i);
    HangUnique(own, own', nt, at);
    HangHooked(own, f, i, nt);
    forall g, j: nat | g in own' && own'[g].level > 1 && j < 512
      ensures Bare(m2, own', g, j)
    {
      HangBare(m, m2, own, f, i, nt, g, j);
    }
  }

  lemma PlacesApart(at: Place, j: nat, other: Place, i: nat)
    requires at.level > 0 && other.level > 0 && j < 512 && i < 512 && Below(at, j) == Below(other, i)
    ensures at == other && j == i
  {
  }

  lemma HasAt(own: Forest, f: nat)
    requires f in own
    ensures Has(own, own[f])
  {
  }

  lemma NotHas(own: Forest, at: Place)
    requires !Has(own, at)
    ensures forall f | f in own :: own[f] != at
  {
  }

  lemma HookedMore(own: Forest, own': Forest, f: nat)
    requires f in own && Hooked(own, f) && forall g | g in own :: g in own' && own'[g] == own[g]
    ensures f in own' && Hooked(own', f)
  {
    hide Has;
    if own[f].level < 4 { HasMore(own, own', Place(own[f].root, own[f].level + 1, own[f].base / 512)); }
  }

  lemma HasMore(own: Forest, own': Forest, at: Place)
    requires Has(own, at) && forall f | f in own :: f in own' && own'[f] == own[f]
    ensures Has(own', at)
  {
  }

  lemma HangHas(own: Forest, own': Forest, nt: nat, at: Place, x: Place)
    requires own' == own[nt := at] && x != at && !Has(own, x)
    ensures !Has(own', x)
  {
  }

  lemma HasAbove(m: Store, own: Forest, at: Place, j: nat)
    requires 0 < at.level < 4 && j < 512 && Filed(m, own) && Has(own, Below(at, j))
    ensures Has(own, at)
  {
    var f :| f in own && own[f] == Below(at, j);
    assert Hooked(own, f);
    assert (at.base * 512 + j) / 512 == at.base;
  }

  /** Hanging a zeroed table under an entry that was not present changes no walk. */
  lemma {:induction false} HangKeepsWalk(m: Store, m1: Store, m2: Store, own: Forest, f: nat, i: nat, nt: nat, t: nat, q: nat)
    requires Shape(m, own) && f in own && i < 512 && own[f].level > 1 && !Present(Entry(m, f, i))
    requires nt % 4096 == 0 && nt < TWO_52 && nt !in own
    requires FrameZeroed(m, m1, nt) && EntrySet(m1, m2, f, i, FrameOf(nt) + 7)
    requires t in own && OnPath(own[t], own[t].root, q)
    ensures WalkFrom(m2, t, own[t].level, q) == WalkFrom(m, t, own[t].level, q)
    decreases own[t].level
  {
    var l := own[t].level;
    var j := Index(q, l);
    var e := Entry(m, t, j);
    TableEntryFields(nt);
    if t == f && j == i {
      assert Entry(m2, t, j) == FrameOf(nt) + 7;
      assert Entry(m2, nt, Index(q, l - 1)) == 0;
    } else {
      assert Entry(m2, t, j) == e;
      if l > 1 && Present(e) && !Large(e) {
        assert Linked(m, own, t, j);
        IndexStep(q, l);
        HangKeepsWalk(m, m1, m2, own, f, i, nt, FrameOf(e), q);
      }
    }
  }

  lemma HangKeepsShape(m: Store, m1: Store, m2: Store, own: Forest, f: nat, i: nat, nt: nat)
    requires Shape(m, own) && f in own && i < 512 && own[f].level > 1 && !Present(Entry(m, f, i))
    requires nt % 4096 == 0 && nt < TWO_52 && nt !in own
    requires FrameZeroed(m, m1, nt) && EntrySet(m1, m2, f, i, FrameOf(nt) + 7)
    ensures Shape(m2, Hang(own, f, i, nt))
  {
    var own' := Hang(own, f, i, nt);
    TableEntryFields(nt);
    forall g, j: nat | g in own' && own'[g].level > 1 && j < 512
      ensures Linked(m2, own', g, j)
    {
      if g == nt {
        assert Entry(m2, g, j) == 0;
      } else if g == f && j == i {
        assert Entry(m2, g, j) == FrameOf(nt) + 7;
      } else {
        assert Entry(m2, g, j) == Entry(m, g, j);
        assert Linked(m, own, g, j);
      }
    }
  }

  lemma SlotInFrame(t: nat, i: nat)
    requires t % 4096 == 0 && i < 512
    ensures forall a: nat | t + 8 * i <= a < t + 8 * i + 8 :: a / 4096 * 4096 == t
  {
  }

  lemma FrameBytes(t: nat)
    requires t % 4096 == 0
    ensures forall a: nat | t <= a < t + 4096 :: a / 4096 * 4096 == t
  {
  }

  /** Writing an entry of a level 1 table keeps the shape and every other walk. */
  lemma LeafSet(m: Store, m': Store, own: Forest, t: nat, p: nat, e: nat)
    requires Shape(m, own) && t in own && own[t].level == 1 && OnPath(own[t], own[t].root, p)
    requires EntrySet(m, m', t, Index(p, 1), e)
    ensures Shape(m', own)
    ensures OtherWalksKept(m, m', own, own[t].root, p)
    ensures WalkFrom(m', t, 1, p) == if Present(e) then Leaf(1, e, t) else Missing
    ensures OutsideKept(m, m', own)
  {
    forall g, j: nat | g in own && own[g].level > 1 && j < 512
      ensures Linked(m', own, g, j)
    {
      assert Linked(m, own, g, j);
    }
    forall u, q: nat | u in own && OnPath(own[u], own[u].root, q) && !(own[u].root == own[t].root && q == p)
      ensures WalkFrom(m', u, own[u].level, q) == WalkFrom(m, u, own[u].level, q)
    {
      WalkOffPath(m, m', own, t, Index(p, 1), u, q);
    }
    forall a: nat | a / 4096 * 4096 !in own
      ensures Get(m', a) == Get(m, a)
    {
      SlotInFrame(t, Index(p, 1));
    }
  }

  /** What mapPage does below table t of the forest: page p now ends in the leaf, and
      every other walk, the tables higher up and the bytes outside the forest are kept. */
  ghost predicate Mapped(m: Store, next: nat, own: Forest, t: nat, p: nat, leaf: nat, b: Built, own': Forest)
    requires t in own && 1 <= own[t].level <= 4
  {
    && Grown(b.mem, b.next, own') && Extends(own, own', next, b.next)
    && next <= b.next <= next + 4096 * (own[t].level - 1)
    && OtherWalksKept(m, b.mem, own, own[t].root, p)
    && (var w := WalkFrom(b.mem, t, own[t].level, p); w.Leaf? && w.level == 1 && w.entry == leaf)
    && (forall f, i: nat | f in own && own[f].level > own[t].level && i < 512 :: Entry(b.mem, f, i) == Entry(m, f, i))
    && OutsideKept(m, b.mem, own')
  }

  /** The store after an empty table was hung below entry Index(p, level) of t. */
  ghost predicate Hung(m: Store, next: nat, own: Forest, t: nat, p: nat, m2: Store)
    requires t in own && 1 < own[t].level <= 4
  {
    var own1 := Hang(own, t, Index(p, own[t].level), next);
    && Grown(m2, next + 4096, own1) && Extends(own, own1, next, next + 4096)
    && OnPath(own1[next], own[t].root, p)
    && OutsideKept(m, m2, own1)
    && Entry(m2, t, Index(p, own[t].level)) == FrameOf(next) + 7
    && WalkFrom(m2, next, own[t].level - 1, p) == Missing
    && (forall u, q: nat {:trigger WalkFrom(m2, u, own[u].level, q)} |
          u in own && 1 <= own[u].level <= 4 && OnPath(own[u], own[u].root, q) ::
          WalkFrom(m2, u, own[u].level, q) == WalkFrom(m, u, own[u].level, q))
    && (forall f, j: nat | f in own && j < 512 && own[f].level > own[t].level :: Entry(m2, f, j) == Entry(m, f, j))
  }

  lemma HangStep(m: Store, next: nat, own: Forest, t: nat, p: nat, m2: Store)
    requires Grown(m, next, own) && t in own && OnPath(own[t], own[t].root, p)
    requires own[t].level > 1 && !Present(Entry(m, t, Index(p, own[t].level))) && next + 4096 <= TWO_52
    requires m2 == W64(Put(m, next, Zeros(4096)), t + 8 * Index(p, own[t].level), FrameOf(next) + 7)
    ensures Hung(m, next, own, t, p, m2)
  {
    hide Put, U64, Get, W64;
    var l := own[t].level;
    var i := Index(p, l);
    var m1 := Put(m, next, Zeros(4096));
    TableEntryFields(next);
    ZeroFrameEffect(m, next);
    SetEntryEffect(m1, t, i, FrameOf(next) + 7);
    HangKeepsShape(m, m1, m2, own, t, i, next);
    forall u, q: nat | u in own && OnPath(own[u], own[u].root, q)
      ensures WalkFrom(m2, u, own[u].level, q) == WalkFrom(m, u, own[u].level, q)
    {
      HangKeepsWalk(m, m1, m2, own, t, i, next, u, q);
    }
    IndexStep(p, l);
    assert Entry(m2, next, Index(p, l - 1)) == 0;
    SlotInFrame(t, i);
    FrameBytes(next);
  }

  lemma HangThenMap(m: Store, next: nat, own: Forest, t: nat, p: nat, leaf: nat, m2: Store, b: Built, own': Forest)
    requires t in own && 1 < own[t].level <= 4 && next !in own && next < TWO_52 && next % 4096 == 0
    requires Hung(m, next, own, t, p, m2)
    requires Mapped(m2, next + 4096, Hang(own, t, Index(p, own[t].level), next), next, p, leaf, b, own')
    ensures Mapped(m, next, own, t, p, leaf, b, own')
  {
    hide Entry, Get, FrameOf, Present, Large, Index, Over, Shape;
    TableEntryFields(next);
  }

  lemma DescendThenMap(m: Store, next: nat, own: Forest, t: nat, p: nat, leaf: nat, c: nat, b: Built, own': Forest)
    requires t in own && 1 < own[t].level <= 4 && c in own && own[c].level == own[t].level - 1 && own[c].root == own[t].root
    requires var e := Entry(m, t, Index(p, own[t].level)); Present(e) && !Large(e) && c == FrameOf(e)
    requires Mapped(m, next, own, c, p, leaf, b, own')
    ensures Mapped(m, next, own, t, p, leaf, b, own')
  {
    hide Entry, Get, FrameOf, Present, Large, Index, Over, Shape;
  }

  lemma LeafStep(m: Store, next: nat, own: Forest, t: nat, p: nat, leaf: nat, m': Store)
    requires Grown(m, next, own) && t in own && OnPath(own[t], own[t].root, p)
    requires own[t].level == 1 && leaf < TWO_64 && Present(leaf)
    requires m' == W64(m, t + 8 * Index(p, 1), leaf)
    ensures Mapped(m, next, own, t, p, leaf, Built(m', next), own)
  {
    hide Put, U64, Get, W64;
    SetEntryEffect(m, t, Index(p, 1), leaf);
    LeafSet(m, m', own, t, p, leaf);
  }

  lemma LeafFiled(m: Store, m': Store, own: Forest, t: nat, i: nat, e: nat)
    requires Filed(m, own) && t in own && own[t].level == 1 && EntrySet(m, m', t, i, e)
    requires forall f | f in own :: f % 4096 == 0
    ensures Filed(m', own)
  {
    hide Has, Hooked, Entry, Present;
    forall f, j: nat | f in own && own[f].level > 1 && j < 512
      ensures Bare(m', own, f, j)
    {
      assert Bare(m, own, f, j);
    }
  }

  /** The tables after mapping page p, as the places taken so far determine them. */
  ghost predicate Grew(m: Store, next: nat, own: Forest, root: nat, level: nat, p: nat, b: Built, own': Forest)
    requires 1 <= level <= 4
  {
    Filed(m, own) ==> Filed(b.mem, own') && (own', b.next) == Grow(own, next, root, level, p)
  }

  lemma LeafGrown(m: Store, next: nat, own: Forest, t: nat, p: nat, leaf: nat)
    requires Shape(m, own) && t in own && own[t].level == 1 && leaf < TWO_64
    ensures Grew(m, next, own, own[t].root, 1, p, Built(W64(m, t + 8 * Index(p, 1), leaf), next), own)
  {
    hide Filed, Linked, Index, W64;
    SetEntryEffect(m, t, Index(p, 1), leaf);
    if Filed(m, own) { LeafFiled(m, W64(m, t + 8 * Index(p, 1), leaf), own, t, Index(p, 1), leaf); }
  }

  /** Where memory links a table, no table is added. */
  lemma GrowPresent(m: Store, own: Forest, next: nat, t: nat, p: nat, b: Built, own': Forest)
    requires t in own && 1 < own[t].level <= 4 && OnPath(own[t], own[t].root, p)
    requires Linked(m, own, t, Index(p, own[t].level))
    requires var e := Entry(m, t, Index(p, own[t].level)); Present(e) && !Large(e)
    requires Grew(m, next, own, own[t].root, own[t].level - 1, p, b, own')
    ensures Grew(m, next, own, own[t].root, own[t].level, p, b, own')
  {
    hide Has, Entry, Present, Large, Index, Over, Filed;
    IndexStep(p, own[t].level);
    HasAt(own, FrameOf(Entry(m, t, Index(p, own[t].level))));
  }

  lemma GrowHang(m: Store, next: nat, own: Forest, t: nat, p: nat, m2: Store, b: Built, own': Forest)
    requires Grown(m, next, own) && t in own && OnPath(own[t], own[t].root, p)
    requires own[t].level > 1 && !Present(Entry(m, t, Index(p, own[t].level))) && next + 4096 <= TWO_52
    requires m2 == W64(Put(m, next, Zeros(4096)), t + 8 * Index(p, own[t].level), FrameOf(next) + 7)
    requires Grew(m2, next + 4096, Hang(own, t, Index(p, own[t].level), next), own[t].root, own[t].level - 1, p, b, own')
    ensures Grew(m, next, own, own[t].root, own[t].level, p, b, own')
  {
    hide Has, Hooked, Put, U64, Get, W64, Linked, Index, Over, FrameOf;
    if Filed(m, own) {
      var l := own[t].level;
      var i := Index(p, l);
      var m1 := Put(m, next, Zeros(4096));
      TableEntryFields(next);
      ZeroFrameEffect(m, next);
      SetEntryEffect(m1, t, i, FrameOf(next) + 7);
      HangFiled(m, m2, own, t, i, next);
      IndexStep(p, l);
      assert Bare(m, own, t, i);
    }
  }

  /** One step down a path: the linked table lies on it too. */
  lemma PathStep(m: Store, own: Forest, t: nat, p: nat)
    requires t in own && 1 < own[t].level <= 4 && OnPath(own[t], own[t].root, p) && Linked(m, own, t, Index(p, own[t].level))
    ensures var e := Entry(m, t, Index(p, own[t].level));
      Present(e) && !Large(e) ==>
        FrameOf(e) in own && own[FrameOf(e)].level == own[t].level - 1 && own[FrameOf(e)].root == own[t].root
        && OnPath(own[FrameOf(e)], own[t].root, p)
  {
    hide Entry, Present, Large, FrameOf;
    IndexStep(p, own[t].level);
  }

  lemma PteSlotOne(m: Store, t: nat, p: nat)
    ensures PteSlot(m, t, 1, p) == Some(t + 8 * Index(p, 1))
  {
  }

  lemma WalkDown(m: Store, t: nat, level: nat, p: nat)
    requires 1 < level <= 4
    ensures var e := Entry(m, t, Index(p, level));
      && (NoLarge(m, t, level, p) && Present(e) ==> !Large(e) && NoLarge(m, FrameOf(e), level - 1, p))
      && PteSlot(m, t, level, p) == if Present(e) then PteSlot(m, FrameOf(e), level - 1, p) else None
  {
    hide U64, Present, Large, FrameOf, Index;
  }

  lemma HungReady(m: Store, next: nat, own: Forest, t: nat, p: nat, m2: Store)
    requires t in own && 1 < own[t].level <= 4 && Hung(m, next, own, t, p, m2)
    ensures var own1 := Hang(own, t, Index(p, own[t].level), next);
      && Grown(m2, next + 4096, own1) && own1[next].level == own[t].level - 1 && own1[next].root == own[t].root
      && OnPath(own1[next], own[t].root, p) && NoLarge(m2, next, own[t].level - 1, p)
  {
    hide Entry, Index, Shape, FrameOf;
  }

  lemma {:induction false} MapFromWorks(m: Store, next: nat, own: Forest, t: nat, p: nat, leaf: nat) returns (own': Forest)
    requires Grown(m, next, own) && t in own && OnPath(own[t], own[t].root, p)
    requires NoLarge(m, t, own[t].level, p)
    requires next + 4096 * (own[t].level - 1) <= TWO_52
    requires leaf < TWO_64 && Present(leaf)
    ensures Mapped(m, next, own, t, p, leaf, MapFrom(m, next, t, own[t].level, p, leaf), own')
    ensures Grew(m, next, own, own[t].root, own[t].level, p, MapFrom(m, next, t, own[t].level, p, leaf), own')
    decreases own[t].level
  {
    hide Put, U64, Get, W64, Mapped, Grew, Hung, Entry, Present, Large, FrameOf, Index, Linked, OnPath, NoLarge, Over, WalkFrom;
    var l := own[t].level;
    var i := Index(p, l);
    var b := MapFrom(m, next, t, l, p, leaf);
    EntryAt(m, t, i);
    if l == 1 {
      LeafStep(m, next, own, t, p, leaf, b.mem);
      own' := own;
      LeafGrown(m, next, own, t, p, leaf);
    } else if Present(Entry(m, t, i)) {
      var c := FrameOf(Entry(m, t, i));
      assert Linked(m, own, t, i);
      WalkDown(m, t, l, p);
      PathStep(m, own, t, p);
      own' := MapFromWorks(m, next, own, c, p, leaf);
      GrowPresent(m, own, next, t, p, b, own');
      DescendThenMap(m, next, own, t, p, leaf, c, b, own');
    } else {
      var m2 := W64(Put(m, next, Zeros(4096)), t + 8 * i, FrameOf(next) + 7);
      HangStep(m, next, own, t, p, m2);
      HungReady(m, next, own, t, p, m2);
      HungEntry(m, next, own, t, p, m2);
      own' := MapFromWorks(m2, next + 4096, Hang(own, t, i, next), next, p, leaf);
      HangThenMap(m, next, own, t, p, leaf, m2, b, own');
      GrowHang(m, next, own, t, p, m2, b, own');
    }
  }

  lemma HungEntry(m: Store, next: nat, own: Forest, t: nat, p: nat, m2: Store)
    requires t in own && 1 < own[t].level <= 4 && Hung(m, next, own, t, p, m2)
    requires Grown(m, next, own) && next + 4096 <= TWO_52
    ensures FrameOf(U64(m2, t + 8 * Index(p, own[t].level))) == next && next !in own && next % 4096 == 0
  {
    hide Index, Shape, U64;
    TableEntryFields(next);
  }
}
