/** Reads, writes and fetches through the MMU, page by page, with missing pages mapped in the
    middle of a span, and their agreement with the plain machine. */
module VirtualMemory {
  import opened Bytes
  import opened Store
  import opened Wrappers
  import opened PageTables
  import opened TableBuilder
  import opened MmuModel
  import opened MmuRefinement
  import opened DemandPaging
  import opened PlainMachine
  import opened PlainSpans

  datatype ReadResult = ReadOk(bytes: seq<Byte>) | ReadFault(fault: Outcome)

  datatype WriteResult = WriteOk | WriteFault(fault: Outcome)

  /** A translation that, when the page is not present, maps it and tries once more. A guard
      that vetoes a read or write of the address comes before the tables. */
  function Xlate(s: State, c: Config, addr: nat, access: Access): (State, Outcome) {
    if access != Fetching && c.guard(addr, access == Writing) then
      (s, PageFault(addr % TWO_64, NotPresent, access))
    else
      var (s1, o) := Translate(s, addr, access);
      if o.PageFault? && o.reason == NotPresent && c.demandMap then
        Translate(Ensure(s1, c.windows, addr, 1, DEFAULT_FILL), addr, access)
      else (s1, o)
  }

  function Chunk(a: nat, left: nat): (n: nat)
    ensures n <= left && a % 4096 + n <= 4096 && (left > 0 ==> n > 0)
  {
    if 4096 - a % 4096 < left then 4096 - a % 4096 else left
  }

  function ReadBytes(s: State, c: Config, a: nat, len: nat): (State, ReadResult)
    decreases len
  {
    if len == 0 then (s, ReadOk([]))
    else
      var n := Chunk(a, len);
      var (s1, o) := Xlate(s, c, a, Reading);
      if o.PageFault? then (s1, ReadFault(o))
      else
        var (s2, rest) := ReadBytes(s1, c, a + n, len - n);
        (s2, if rest.ReadOk? then ReadOk(Read(s1.mem, o.pa, n) + rest.bytes) else rest)
  }

  function WriteBytes(s: State, c: Config, a: nat, bs: seq<Byte>): (State, WriteResult)
    decreases |bs|
  {
    if bs == [] then (s, WriteOk)
    else
      var n := Chunk(a, |bs|);
      var (s1, o) := Xlate(s, c, a, Writing);
      if o.PageFault? then (s1, WriteFault(o))
      else WriteBytes(s1.(mem := Put(s1.mem, o.pa, bs[..n])), c, a + n, bs[n..])
  }

  /** One translation, then len bytes of the raw store from there. */
  function FetchBytes(s: State, c: Config, a: nat, len: nat): (State, ReadResult) {
    var (s1, o) := Xlate(s, c, a, Fetching);
    (s1, if o.PageFault? then ReadFault(o) else ReadOk(Read(s1.mem, o.pa, len)))
  }

  // --------------------------------------------------------------- agreement

  /** What the walk of (r, p) says is what the page map holds. */
  ghost predicate Shows(w: Walk, pages: map<(nat, nat), Mapping>, r: nat, p: nat) {
    if (r, p) in pages then
      w.Leaf? && w.level == 1 &&
      pages[(r, p)] == Mapping(FrameOf(w.entry), Writable(w.entry), User(w.entry), !NoExecute(w.entry))
    else w.Missing?
  }

  ghost predicate AllShown(m: Store, own: Forest, pages: map<(nat, nat), Mapping>) {
    forall r, p: nat | IsRoot(own, r) && p < 0x10_0000_0000 :: Shows(WalkFrom(m, r, 4, p), pages, r, p)
  }

  /** Physical memory and the plain bytes are the same off the page tables. */
  ghost predicate Alike(m: Store, bytes: Store, own: Forest) {
    forall x: nat | x / 4096 * 4096 !in own :: Get(m, x) == Get(bytes, x)
  }

  ghost predicate Agrees(s: State, a: Plain) {
    && Sound(s, a.tables) && Filed(s.mem, a.tables)
    && s.cr3 == a.cur && s.cr4 == a.cr4 && s.next == a.next
    && AllShown(s.mem, a.tables, a.pages)
    && (forall k | k in a.pages :: IsRoot(a.tables, k.0))
    && Alike(s.mem, a.bytes, a.tables)
  }

  function Erase(o: Outcome): Verdict {
    match o
    case Translated(pa, h) => Granted(pa, h.w, h.u, h.x)
    case PageFault(_, reason, _) => Refused(reason)
  }

  lemma AlikeKept(m: Store, m': Store, bytes: Store, own: Forest, own': Forest)
    requires Alike(m, bytes, own) && OutsideKept(m, m', own') && forall f | f in own :: f in own'
    ensures Alike(m', bytes, own')
  {
    hide Get;
  }

  lemma MaskedPage(a: int)
    ensures PageOf(a % TWO_64) == PageOf(a) && a % TWO_64 % 4096 == a % 4096
  {
    var q, v := a / TWO_64, a % TWO_64;
    ModUnique(a, 4096, q * 0x10_0000_0000_0000 + v / 4096, v % 4096);
    ModUnique(v / 4096, 0x10_0000_0000, v / 4096 / 0x10_0000_0000, v / 4096 % 0x10_0000_0000);
    ModUnique(a / 4096, 0x10_0000_0000, q * 0x1_0000 + v / 4096 / 0x10_0000_0000, v / 4096 % 0x10_0000_0000);
  }

  lemma OffsetOne(v: nat)
    ensures OffsetOf(v, 1) == v % 4096
  {
  }

  /** On agreeing states the walk in memory answers as the page map does. */
  lemma VerdictAgrees(s: State, a: Plain, va: int, access: Access)
    requires Agrees(s, a)
    ensures var o := Uncached(s.mem, s.cr3, s.cr4, va, access);
      Erase(o) == Look(a, va, access) && (o.PageFault? ==> o.va == va % TWO_64)
  {
    hide WalkFrom, CacheOk, Grown, Canonical, Writable, User, NoExecute, PageOf, BitOr, OffsetOf, Filed, Alike;
    var v := va % TWO_64;
    RootFrame(s, a.tables);
    PageOfInRange(v);
    MaskedPage(va);
    assert Shows(WalkFrom(s.mem, s.cr3, 4, PageOf(v)), a.pages, s.cr3, PageOf(v));
    OffsetOne(v);
    forall f: nat | f % 4096 == 0
      ensures BitOr(f, OffsetOf(v, 1)) == f + v % 4096
    {
      BitOrPage(f, v % 4096);
    }
  }

  lemma TranslateAgrees(s: State, a: Plain, va: int, access: Access)
    requires Agrees(s, a)
    ensures var (s', o) := Translate(s, va, access);
      Erase(o) == Look(a, va, access) && (o.PageFault? ==> o.va == va % TWO_64) && Agrees(s', a)
  {
    hide WalkFrom, Translate, Uncached, Entry, CacheOk, Shape, Look, FrameOf, Present, Large, Writable, User, NoExecute,
      Filed, Alike, OutsideKept;
    VerdictAgrees(s, a, va, access);
    TranslateKeeps(s, a.tables, va, access);
    var s' := Translate(s, va, access).0;
    AlikeKept(s.mem, s'.mem, a.bytes, a.tables, a.tables);
    forall r, p: nat | IsRoot(a.tables, r) && p < 0x10_0000_0000
      ensures Shows(WalkFrom(s'.mem, r, 4, p), a.pages, r, p)
    {
      assert Shows(WalkFrom(s.mem, r, 4, p), a.pages, r, p);
      RootAligned(s.mem, a.tables, r);
      assert SameWalk(WalkFrom(s.mem, r, 4, p), WalkFrom(s'.mem, r, 4, p));
    }
  }

  lemma MapAgrees(s: State, a: Plain, va: int, pa: nat, fl: Flags)
    requires Agrees(s, a) && s.next + 4096 * 3 <= TWO_52
    ensures Agrees(MapPage(s, va, pa, fl), Assign(a, va, Mapping(FrameOf(pa), fl.write, fl.user, !fl.nx)))
  {
    hide WalkFrom, Entry, CacheOk, PageOf, Shape, MapPage, LeafEntry, FrameOf, Present, Large, Writable, User, NoExecute,
         OutsideKept, Filed, Alike, Grow;
    var p := PageOf(va);
    PageOfInRange(va);
    assert Shows(WalkFrom(s.mem, s.cr3, 4, p), a.pages, s.cr3, p);
    var own' := MapPageWorks(s, a.tables, va, pa, fl);
    LeafEntryFields(pa, fl);
    var s' := MapPage(s, va, pa, fl);
    var a' := Assign(a, va, Mapping(FrameOf(pa), fl.write, fl.user, !fl.nx));
    assert own' == a'.tables;
    AlikeKept(s.mem, s'.mem, a.bytes, a.tables, own');
    forall r, q: nat | IsRoot(own', r) && q < 0x10_0000_0000
      ensures Shows(WalkFrom(s'.mem, r, 4, q), a'.pages, r, q)
    {
      assert IsRoot(a.tables, r);
      assert Shows(WalkFrom(s.mem, r, 4, q), a.pages, r, q);
      if !(r == s.cr3 && q == p) {
        assert WalkFrom(s'.mem, r, 4, q) == WalkFrom(s.mem, r, 4, q);
      }
    }
  }

  lemma UnmapAgrees(s: State, a: Plain, va: int)
    requires Agrees(s, a)
    ensures Agrees(Unmap(s, va), a.(pages := a.pages - {(a.cur, PageOf(va))}))
  {
    hide WalkFrom, Entry, CacheOk, PageOf, Shape, Unmap, FrameOf, Present, Large, Writable, User, NoExecute, OutsideKept, Filed, Alike;
    var p := PageOf(va);
    PageOfInRange(va);
    assert Shows(WalkFrom(s.mem, s.cr3, 4, p), a.pages, s.cr3, p);
    UnmapWorks(s, a.tables, va);
    var s' := Unmap(s, va);
    var pages' := a.pages - {(a.cur, PageOf(va))};
    AlikeKept(s.mem, s'.mem, a.bytes, a.tables, a.tables);
    forall r, q: nat | IsRoot(a.tables, r) && q < 0x10_0000_0000
      ensures Shows(WalkFrom(s'.mem, r, 4, q), pages', r, q)
    {
      assert Shows(WalkFrom(s.mem, r, 4, q), a.pages, r, q);
      if !(r == s.cr3 && q == p) {
        assert WalkFrom(s'.mem, r, 4, q) == WalkFrom(s.mem, r, 4, q);
      }
    }
  }

  lemma NewSpaceAgrees(s: State, a: Plain)
    requires Agrees(s, a) && s.next + 4096 <= TWO_52
    ensures NewAddressSpace(s).1 == s.next
    ensures Agrees(NewAddressSpace(s).0, a.(tables := a.tables[a.next := Place(a.next, 4, 0)], next := a.next + 4096))
  {
    hide WalkFrom, Entry, CacheOk, Shape, FrameOf, Present, Large, Writable, User, NoExecute, OutsideKept, Filed, Alike;
    NewAddressSpaceWorks(s, a.tables);
    var (s', root) := NewAddressSpace(s);
    var own' := a.tables[root := Place(root, 4, 0)];
    assert root !in a.tables;
    AlikeKept(s.mem, s'.mem, a.bytes, a.tables, own');
    forall r, q: nat | IsRoot(own', r) && q < 0x10_0000_0000
      ensures Shows(WalkFrom(s'.mem, r, 4, q), a.pages, r, q)
    {
      if r != root {
        assert IsRoot(a.tables, r);
        assert Shows(WalkFrom(s.mem, r, 4, q), a.pages, r, q);
      } else {
        assert !IsRoot(a.tables, r);
      }
    }
  }

  lemma SwitchAgrees(s: State, a: Plain, root: nat)
    requires Agrees(s, a) && IsRoot(a.tables, root)
    ensures Agrees(SwitchTo(s, root), a.(cur := root))
  {
    hide WalkFrom, Shape, Shows, Filed, Alike;
  }

  lemma AllocAgrees(s: State, a: Plain, count: nat)
    requires Agrees(s, a)
    ensures Agrees(s.(next := s.next + 4096 * count), a.(next := a.next + 4096 * count))
  {
    hide WalkFrom, Shape, Shows, Uncached, Filed, Alike;
    CacheKept(s, s.(next := s.next + 4096 * count), a.tables);
  }

  // ------------------------------------------------------------- data writes

  lemma ForestKeptSound(s: State, own: Forest, m': Store)
    requires Sound(s, own) && ForestKept(s.mem, m', own)
    ensures var s' := s.(mem := m');
      && Sound(s', own) && (Filed(s.mem, own) ==> Filed(m', own))
      && (forall r, q: nat | IsRoot(own, r) && q < 0x10_0000_0000 :: WalkFrom(m', r, 4, q) == WalkFrom(s.mem, r, 4, q))
  {
    hide Entry, CacheOk, FrameOf, Present, Large, Filed;
    forall f, i: nat | f in own && own[f].level > 1 && i < 512
      ensures Linked(m', own, f, i)
    {
      assert Linked(s.mem, own, f, i);
    }
    CacheKept(s, s.(mem := m'), own);
    if Filed(s.mem, own) { FiledSame(s.mem, m', own); }
    forall r, q: nat | IsRoot(own, r) && q < 0x10_0000_0000
      ensures WalkFrom(m', r, 4, q) == WalkFrom(s.mem, r, 4, q)
    {
      RootOnPath(own, s.mem, r, q);
      WalkOffPath(s.mem, m', own, r, Elsewhere(q), r, q);
    }
  }

  /** If the bytes of the tables are kept, so are their entries. */
  lemma TableBytesKept(m: Store, m': Store, own: Forest)
    requires Shape(m, own) && forall x: nat | x / 4096 * 4096 in own :: Get(m', x) == Get(m, x)
    ensures ForestKept(m, m', own)
  {
    hide Get, Linked;
    forall g, i: nat | g in own && i < 512
      ensures Entry(m', g, i) == Entry(m, g, i)
    {
      SlotInFrame(g, i);
      U64Same(m, m', g + 8 * i);
    }
  }

  /** Bytes off the tables may change on both sides alike. */
  lemma DataAgrees(s: State, a: Plain, m': Store, bytes': Store)
    requires Agrees(s, a) && Alike(m', bytes', a.tables)
    requires forall x: nat | x / 4096 * 4096 in a.tables :: Get(m', x) == Get(s.mem, x)
    ensures Agrees(s.(mem := m'), a.(bytes := bytes'))
  {
    hide WalkFrom, CacheOk, Shape, Filed, Alike, Get, Shows;
    TableBytesKept(s.mem, m', a.tables);
    ForestKeptSound(s, a.tables, m');
    forall r, q: nat | IsRoot(a.tables, r) && q < 0x10_0000_0000
      ensures Shows(WalkFrom(m', r, 4, q), a.pages, r, q)
    {
      assert Shows(WalkFrom(s.mem, r, 4, q), a.pages, r, q);
    }
  }

  /** The same bytes written off the tables on both sides leave them alike. */
  lemma PutAlike(m: Store, bytes: Store, own: Forest, pa: nat, bs: seq<Byte>)
    requires Alike(m, bytes, own) && forall x: nat | pa <= x < pa + |bs| :: x / 4096 * 4096 !in own
    ensures Alike(Put(m, pa, bs), Put(bytes, pa, bs), own)
    ensures forall x: nat | x / 4096 * 4096 in own :: Get(Put(m, pa, bs), x) == Get(m, x)
  {
    hide Get, Put, Touched;
    PutGet(m, pa, bs);
    PutGet(bytes, pa, bs);
  }

  lemma ClearAt(a: Plain, pa: nat, n: nat)
    requires Clear(a, pa, n)
    ensures forall x: nat | pa <= x < pa + n :: x / 4096 * 4096 !in a.tables
  {
  }

  lemma AgreesAlike(s: State, a: Plain)
    requires Agrees(s, a)
    ensures Alike(s.mem, a.bytes, a.tables)
  {
    hide Sound, Filed, AllShown, Alike;
  }

  lemma ReadsAlike(s: State, a: Plain, pa: nat, n: nat)
    requires Agrees(s, a) && Clear(a, pa, n)
    ensures Read(s.mem, pa, n) == Read(a.bytes, pa, n)
  {
    hide Get, Sound, Filed, AllShown;
  }

  // -------------------------------------------------------- demand mapping

  lemma ZeroBackAgrees(s: State, a: Plain, pa: nat)
    requires Agrees(s, a) && s.tlb == map[] && pa % 4096 == 0 && pa / 4096 !in s.mem
    ensures Agrees(s.(mem := Put(s.mem, pa, Zeros(4096))), a)
  {
    hide Get, Put, CacheOk, Shape, Filed, AllShown;
    ZeroBackKeeps(s, a.tables, pa);
    DataAgrees(s, a, Put(s.mem, pa, Zeros(4096)), a.bytes);
  }

  lemma EnsurePageAgrees(s: State, a: Plain, cur: nat, fill: Fill)
    requires Agrees(s, a) && s.next + 4 * 4096 <= TWO_52
    ensures Agrees(EnsurePage(s, a.config.windows, cur, fill), Demand(a, cur, fill))
  {
    hide Agrees, Translate, MapPage, Put, Look, Assign, FrameOf, InWindow;
    IdentityIff(a.config.windows, cur);
    TranslateAgrees(s, a, cur, Reading);
    AgreesNext(s, a);
    var (s1, o) := Translate(s, cur, Reading);
    AgreesNext(s1, a);
    if o.PageFault? {
      match IdentityPa(a.config.windows, cur)
      case Some(pa) =>
        var fl := Flags(fill.w, false, !fill.x, false);
        MapAgrees(s1, a, cur, pa, fl);
        var s2 := MapPage(s1, cur, pa, fl);
        MapPageFlushes(s1, cur, pa, fl);
        if pa / 4096 !in s2.mem { ZeroBackAgrees(s2, Assign(a, cur, Mapping(FrameOf(pa), fill.w, false, fill.x)), pa); }
      case None =>
        AllocAgrees(s1, a, 1);
        var fl := Flags(fill.w, fill.u, !fill.x, false);
        MapAgrees(s1.(next := s1.next + 4096), a.(next := a.next + 4096), cur, s1.next, fl);
        FrameOfAligned(s1.next);
    }
  }

  lemma AgreesNext(s: State, a: Plain)
    requires Agrees(s, a)
    ensures s.next == a.next && s.cr4 == a.cr4 && s.next % 4096 == 0
  {
  }

  lemma MapPageFlushes(s: State, va: int, pa: nat, fl: Flags)
    ensures MapPage(s, va, pa, fl).tlb == map[]
  {
  }

  lemma {:induction false} EnsureAgrees(s: State, a: Plain, cur: nat, end: int, fill: Fill)
    requires Agrees(s, a) && DemandFrom(a, cur, end, fill).next + 4 * 4096 <= TWO_52
    ensures Agrees(EnsureFrom(s, a.config.windows, cur, end, fill), DemandFrom(a, cur, end, fill))
    decreases end - cur
  {
    hide Agrees, EnsurePage, Demand;
    if cur <= end {
      DemandNext(a, cur, fill);
      DemandFromNext(Demand(a, cur, fill), cur + 4096, end, fill);
      AgreesNext(s, a);
      EnsurePageAgrees(s, a, cur, fill);
      EnsureAgrees(EnsurePage(s, a.config.windows, cur, fill), Demand(a, cur, fill), cur + 4096, end, fill);
    }
  }

  lemma EnsureOne(s: State, windows: seq<Window>, a: int)
    ensures Ensure(s, windows, a, 1, DEFAULT_FILL) == EnsurePage(s, windows, RoundDown(a % TWO_64), DEFAULT_FILL)
  {
    hide EnsurePage, EnsureFrom, RoundDown;
    EnsureFromOne(s, windows, RoundDown(a % TWO_64), DEFAULT_FILL);
  }

  lemma EnsureFromOne(s: State, windows: seq<Window>, c: nat, fill: Fill)
    ensures EnsureFrom(s, windows, c, c, fill) == EnsurePage(s, windows, c, fill)
  {
    hide EnsurePage;
    assert EnsureFrom(EnsurePage(s, windows, c, fill), windows, c + 4096, c, fill) == EnsurePage(s, windows, c, fill);
  }

  /** An access the guard lets through reaches what the plain machine reaches, mapping the page
      on the way if it is missing. */
  lemma XlateAgrees(s: State, a: Plain, va: nat, access: Access)
    requires Agrees(s, a) && Reach(a, va, access).0.next + 4 * 4096 <= TWO_52
    requires access == Fetching || !a.config.guard(va, access == Writing)
    ensures var (s', o) := Xlate(s, a.config, va, access); var (a', v) := Reach(a, va, access);
      Agrees(s', a') && Erase(o) == v && (o.PageFault? ==> o.va == va % TWO_64)
  {
    hide Agrees, Translate, Ensure, EnsurePage, Demand, Look;
    TranslateAgrees(s, a, va, access);
    var (s1, o) := Translate(s, va, access);
    if o.PageFault? && o.reason == NotPresent && a.config.demandMap {
      var base := RoundDown(va % TWO_64);
      DemandNext(a, base, DEFAULT_FILL);
      AgreesNext(s1, a);
      EnsureOne(s1, a.config.windows, va);
      EnsurePageAgrees(s1, a, base, DEFAULT_FILL);
      TranslateAgrees(EnsurePage(s1, a.config.windows, base, DEFAULT_FILL), Demand(a, base, DEFAULT_FILL), va, access);
    }
  }

  // ------------------------------------------------------------------- spans

  function Told(o: Outcome): Answer {
    if o.PageFault? then Fault(o.va, o.reason) else Quiet
  }

  function ReadAnswer(r: ReadResult): Answer {
    match r
    case ReadOk(bs) => Data(bs)
    case ReadFault(o) => Told(o)
  }

  function WriteAnswer(r: WriteResult): Answer {
    match r
    case WriteOk => Quiet
    case WriteFault(o) => Told(o)
  }

  lemma ReadNext(a: Plain, va: nat, n: nat, ask: bool)
    ensures a.next <= ReadPlain(a, va, n, ask).0.next
  {
    hide ReadPlain;
    ReadDoes(a, va, n, ask);
  }

  lemma WriteNext(a: Plain, va: nat, bs: seq<Byte>, ask: bool)
    ensures a.next <= WritePlain(a, va, bs, ask).0.next
  {
    hide WritePlain;
    var k := WriteDoes(a, va, bs, ask);
  }

  lemma ReachFits(a: Plain, va: nat, n: nat, bs: seq<Byte>)
    requires n > 0 && bs != []
    ensures !Vetoed(a.config, va, true, false) ==> Reach(a, va, Reading).0.next <= ReadPlain(a, va, n, true).0.next
    ensures !Vetoed(a.config, va, true, true) ==> Reach(a, va, Writing).0.next <= WritePlain(a, va, bs, true).0.next
  {
    hide Reach, Put, Clear;
    var (a1, v) := Reach(a, va, Reading);
    ReadNext(a1, va + 1, n - 1, false);
    var (b1, w) := Reach(a, va, Writing);
    if w.Granted? { WriteNext(b1.(bytes := Put(b1.bytes, w.pa, bs[..1])), va + 1, bs[1..], false); }
  }

  lemma ReachKeeps(a: Plain, va: nat, access: Access)
    ensures Reach(a, va, access).0.config == a.config
  {
    hide Reach;
    ReachLater(a, va, access);
  }

  /** A read of any span gives the bytes, or the fault, of the plain machine byte by byte. */
  lemma {:induction false} ReadAgrees(s: State, a: Plain, va: nat, n: nat)
    requires Agrees(s, a) && ReadPlain(a, va, n, true).1 != Table
    requires ReadPlain(a, va, n, true).0.next + 4 * 4096 <= TWO_52
    ensures var (s', r) := ReadBytes(s, a.config, va, n); var (a', out) := ReadPlain(a, va, n, true);
      Agrees(s', a') && ReadAnswer(r) == out
    decreases n
  {
    hide Agrees, Xlate, Reach, Clear, Read, Prefixed;
    if n > 0 && !Vetoed(a.config, va, true, false) {
      ReachFits(a, va, n, Zeros(1));
      XlateAgrees(s, a, va, Reading);
      var (s1, o) := Xlate(s, a.config, va, Reading);
      var (a1, v) := Reach(a, va, Reading);
      if o.Translated? {
        var k := Chunk(va, n);
        ReadChunk(a, va, n, true, k);
        ReadsAlike(s1, a1, o.pa, k);
        ReachKeeps(a, va, Reading);
        assert ReadPlain(a, va, n, true).0 == ReadPlain(a1, va + k, n - k, true).0 by {
          PrefixedState(Read(a1.bytes, v.pa, k), ReadPlain(a1, va + k, n - k, true));
        }
        ReadAgrees(s1, a1, va + k, n - k);
        PrefixedAnswer(Read(a1.bytes, v.pa, k), ReadPlain(a1, va + k, n - k, true), ReadBytes(s1, a.config, va + k, n - k).1);
      }
    } else if n > 0 {
      XlateVetoed(s, a.config, va, Reading);
    }
  }

  lemma PrefixedState(bs: seq<Byte>, rest: (Plain, Answer))
    ensures Prefixed(bs, rest).0 == rest.0
  {
  }

  lemma PrefixedAnswer(bs: seq<Byte>, rest: (Plain, Answer), r: ReadResult)
    requires ReadAnswer(r) == rest.1
    ensures ReadAnswer(if r.ReadOk? then ReadOk(bs + r.bytes) else r) == Prefixed(bs, rest).1
  {
  }

  lemma XlateVetoed(s: State, c: Config, va: nat, access: Access)
    requires access != Fetching && c.guard(va, access == Writing)
    ensures Xlate(s, c, va, access) == (s, PageFault(va % TWO_64, NotPresent, access))
  {
  }

  /** A write of any span is the plain machine's, byte by byte, up to the same fault. */
  lemma {:induction false} WriteAgrees(s: State, a: Plain, va: nat, bs: seq<Byte>)
    requires Agrees(s, a) && WritePlain(a, va, bs, true).1 != Table
    requires WritePlain(a, va, bs, true).0.next + 4 * 4096 <= TWO_52
    ensures var (s', r) := WriteBytes(s, a.config, va, bs); var (a', out) := WritePlain(a, va, bs, true);
      Agrees(s', a') && WriteAnswer(r) == out
    decreases |bs|
  {
    hide Agrees, Xlate, Reach, Clear, Put, Alike, Get;
    if bs != [] && !Vetoed(a.config, va, true, true) {
      ReachFits(a, va, 1, bs);
      XlateAgrees(s, a, va, Writing);
      var (s1, o) := Xlate(s, a.config, va, Writing);
      var (a1, v) := Reach(a, va, Writing);
      if o.Translated? {
        var k := Chunk(va, |bs|);
        WriteChunk(a, va, bs, true, k);
        AgreesAlike(s1, a1);
        ClearAt(a1, o.pa, k);
        PutAlike(s1.mem, a1.bytes, a1.tables, o.pa, bs[..k]);
        DataAgrees(s1, a1, Put(s1.mem, o.pa, bs[..k]), Put(a1.bytes, o.pa, bs[..k]));
        ReachKeeps(a, va, Writing);
        WriteAgrees(s1.(mem := Put(s1.mem, o.pa, bs[..k])), a1.(bytes := Put(a1.bytes, o.pa, bs[..k])), va + k, bs[k..]);
      }
    } else if bs != [] {
      XlateVetoed(s, a.config, va, Writing);
    }
  }

  lemma FetchAgrees(s: State, a: Plain, va: nat, n: nat)
    requires Agrees(s, a) && FetchPlain(a, va, n).1 != Table
    requires FetchPlain(a, va, n).0.next + 4 * 4096 <= TWO_52
    ensures var (s', r) := FetchBytes(s, a.config, va, n); var (a', out) := FetchPlain(a, va, n);
      Agrees(s', a') && ReadAnswer(r) == out
  {
    hide Agrees, Xlate, Reach, Clear, Read;
    XlateAgrees(s, a, va, Fetching);
    var (s1, o) := Xlate(s, a.config, va, Fetching);
    if o.Translated? { ReadsAlike(s1, Reach(a, va, Fetching).0, o.pa, n); }
  }

  // -------------------------------------------------------------- write, read

  /** The physical address that the tables give va, if they grant a read. */
  function Home(s: State, va: nat): Option<nat> {
    var o := Uncached(s.mem, s.cr3, s.cr4, va, Reading);
    if o.Translated? then Some(o.pa) else None
  }

  /** Bytes of the span that have one physical address are equal. */
  ghost predicate NoAlias(s: State, va: nat, bs: seq<Byte>) {
    forall x: nat, y: nat | va <= x < y < va + |bs| && Home(s, x) == Home(s, y) :: bs[x - va] == bs[y - va]
  }

  lemma HomeAgrees(s: State, a: Plain, va: nat)
    requires Agrees(s, a)
    ensures Home(s, va) == if Granting(a, va, Reading) then Some(Pa(a, va)) else None
  {
    hide Agrees, Uncached, Canonical;
    VerdictAgrees(s, a, va, Reading);
  }

  /** A write that succeeded is read back from its span exactly when the guard lets the span be
      read and no two bytes that differ have one physical address: on the page map before the write,
      with the pages that the span lacks in their windows or on the frames to come, and just as well
      by the tables after it. */
  lemma WriteReadBack(s: State, a: Plain, va: nat, bs: seq<Byte>)
    requires Agrees(s, a) && WritePlain(a, va, bs, true).1 != Table
    requires ReadPlain(WritePlain(a, va, bs, true).0, va, |bs|, true).1 != Table
    requires WritePlain(a, va, bs, true).0.next + 4 * 4096 <= TWO_52
    ensures var (s1, w) := WriteBytes(s, a.config, va, bs);
      w.WriteOk? ==>
        && (ReadBytes(s1, a.config, va, |bs|).1 == ReadOk(bs) <==>
              GuardLets(a.config, va, |bs|, true, false) && NoClash(Settled(a, va, |bs|), va, bs))
        && (NoAlias(s1, va, bs) <==> NoClash(Settled(a, va, |bs|), va, bs))
  {
    hide Agrees, WriteBytes, ReadBytes, WritePlain, ReadPlain, GuardLets, Pa, Granting, Home, Settled, NoClash, NoAlias;
    WriteAgrees(s, a, va, bs);
    var s1 := WriteBytes(s, a.config, va, bs).0;
    if WriteBytes(s, a.config, va, bs).1.WriteOk? {
      var a1 := WritePlain(a, va, bs, true).0;
      var k := WriteDoes(a, va, bs, true);
      SpannedReading(a1, va, |bs|);
      ReadBackIff(a, va, bs);
      ReadAgrees(s1, a1, va, |bs|);
      AliasIsClash(s1, a1, va, bs);
    }
  }

  lemma AliasIsClash(s: State, a: Plain, va: nat, bs: seq<Byte>)
    requires Agrees(s, a) && Spanned(a, va, |bs|, Reading)
    ensures NoAlias(s, va, bs) <==> NoClash(a, va, bs)
  {
    hide Agrees, Pa, Granting, Home;
    forall x: nat | va <= x < va + |bs|
      ensures Home(s, x) == Some(Pa(a, x))
    {
      HomeAgrees(s, a, x);
    }
  }

  /** Some byte of the span has this physical address. */
  ghost predicate Lands(s: State, va: nat, n: nat, x: nat) {
    exists y: nat :: va <= y < va + n && Home(s, y) == Some(x)
  }

  /** Whatever a write came to, it kept every byte outside the page tables that is not in its span. */
  lemma WriteKeepsOthers(s: State, a: Plain, va: nat, bs: seq<Byte>, x: nat)
    requires Agrees(s, a) && WritePlain(a, va, bs, true).1 != Table
    requires WritePlain(a, va, bs, true).0.next + 4 * 4096 <= TWO_52
    requires x / 4096 * 4096 !in WritePlain(a, va, bs, true).0.tables
    ensures var s1 := WriteBytes(s, a.config, va, bs).0; !Lands(s1, va, |bs|, x) ==> Get(s1.mem, x) == Get(s.mem, x)
  {
    hide WriteBytes, WritePlain, Pa, Granting, Home, Get, Sound, Filed, AllShown;
    WriteAgrees(s, a, va, bs);
    var s1 := WriteBytes(s, a.config, va, bs).0;
    var a1 := WritePlain(a, va, bs, true).0;
    var k := WriteDoes(a, va, bs, true);
    if !Lands(s1, va, |bs|, x) {
      forall y: nat | va <= y < va + |bs| && Granting(a1, y, Reading)
        ensures Pa(a1, y) != x
      {
        HomeAgrees(s1, a1, y);
      }
      assert !Hits(a1, va, |bs|, x);
      WriteKeeps(a, va, bs, true, x);
    }
  }

  /** A read keeps every byte outside the page tables. */
  lemma ReadKeepsBytes(s: State, a: Plain, va: nat, n: nat, x: nat)
    requires Agrees(s, a) && ReadPlain(a, va, n, true).1 != Table
    requires ReadPlain(a, va, n, true).0.next + 4 * 4096 <= TWO_52
    requires x / 4096 * 4096 !in ReadPlain(a, va, n, true).0.tables
    ensures Get(ReadBytes(s, a.config, va, n).0.mem, x) == Get(s.mem, x)
  {
    hide ReadBytes, ReadPlain, Get, Sound, Filed, AllShown;
    ReadAgrees(s, a, va, n);
    ReadDoes(a, va, n, true);
  }
}
