/** ensureRange: every page of a range is made to translate, on fresh frames or,
    inside an identity window, on the frame of the same number. */
module DemandPaging {
  import opened Bytes
  import opened Store
  import opened PageTables
  import opened TableBuilder
  import opened Wrappers
  import opened MmuModel
  import opened MmuRefinement

  datatype Window = Window(base: nat, size: nat)

  /** Demand mapping, the identity windows, and the hook that vetoes an access to an address. */
  datatype Config = Config(demandMap: bool, windows: seq<Window>, guard: (nat, bool) -> bool)

  datatype Fill = Fill(w: bool, u: bool, x: bool)

  const DEFAULT_FILL := Fill(true, false, true)

  function IdentityPa(windows: seq<Window>, va: int): Option<nat> {
    if windows == [] then None
    else
      var v := va % TWO_64;
      if windows[0].base <= v < windows[0].base + windows[0].size then Some(v / 4096 * 4096)
      else IdentityPa(windows[1..], va)
  }

  /** The address lies in one of the windows. */
  predicate InWindow(windows: seq<Window>, va: int) {
    exists k :: 0 <= k < |windows| && windows[k].base <= va % TWO_64 < windows[k].base + windows[k].size
  }

  /** The search finds a window exactly when the address lies in one, and answers the start of the
      address's own page. */
  lemma {:induction false} IdentityIff(windows: seq<Window>, va: int)
    ensures IdentityPa(windows, va).Some? <==>
      exists k :: 0 <= k < |windows| && windows[k].base <= va % TWO_64 < windows[k].base + windows[k].size
    ensures IdentityPa(windows, va).Some? ==> IdentityPa(windows, va).value == va % TWO_64 - va % TWO_64 % 4096
    ensures IdentityPa(windows, va) == if InWindow(windows, va) then Some(va % TWO_64 / 4096 * 4096) else None
  {
    if windows != [] {
      var v, rest := va % TWO_64, windows[1..];
      IdentityIff(rest, va);
      if k :| 0 <= k < |rest| && rest[k].base <= v < rest[k].base + rest[k].size {
        assert windows[k + 1] == rest[k];
      }
      if k :| 0 <= k < |windows| && windows[k].base <= v < windows[k].base + windows[k].size {
        if k > 0 { assert rest[k - 1] == windows[k]; }
      }
    }
  }

  /** One page of ensureRange. */
  function EnsurePage(s: State, windows: seq<Window>, cur: nat, fill: Fill): State {
    var (s1, o) := Translate(s, cur, Reading);
    if o.Translated? then s1
    else match IdentityPa(windows, cur)
      case Some(pa) =>
        var s2 := MapPage(s1, cur, pa, Flags(fill.w, false, !fill.x, false));
        if pa / 4096 in s2.mem then s2 else s2.(mem := Put(s2.mem, pa, Zeros(4096)))
      case None =>
        MapPage(s1.(next := s1.next + 4096), cur, s1.next, Flags(fill.w, fill.u, !fill.x, false))
  }

  function EnsureFrom(s: State, windows: seq<Window>, cur: nat, end: int, fill: Fill): State
    decreases end - cur
  {
    if cur > end then s
    else EnsureFrom(EnsurePage(s, windows, cur, fill), windows, cur + 4096, end, fill)
  }

  /** x & ~0xfff. */
  function RoundDown(x: int): (r: int)
    ensures x >= 0 ==> r >= 0
  {
    x / 4096 * 4096
  }

  function Ensure(s: State, windows: seq<Window>, va: int, len: nat, fill: Fill): State {
    var v := va % TWO_64;
    EnsureFrom(s, windows, RoundDown(v), RoundDown(v + len - 1), fill)
  }

  // -------------------------------------------------------------- the effect

  /** A 4K leaf of the given frame and permissions. */
  ghost predicate LeafOf(w: Walk, frame: nat, fl: Flags) {
    w.Leaf? && w.level == 1 && FrameOf(w.entry) == frame && SameButAD(LeafEntry(frame, fl), w.entry)
  }

  /** The frame with the page's own number, as far as an entry can name it. */
  function OwnFrame(va: int): nat { FrameOf(va % TWO_64 / 4096 * 4096) }

  /** What ensuring the page of address cur did: it translates now; if it did before,
      to the same leaf; if not, to its own frame (in a window) or to a frame the
      allocator just handed out, which is no table. All other walks end where they
      did and no byte outside the tables changed. */
  ghost predicate Ensured(s: State, own: Forest, windows: seq<Window>, cur: nat, fill: Fill, s': State, own': Forest) {
    && Sound(s', own') && s'.cr3 == s.cr3 && s'.cr4 == s.cr4 && s.next <= s'.next <= s.next + 4 * 4096
    && Extends(own, own', s.next, s'.next) && (forall r :: IsRoot(own', r) <==> IsRoot(own, r))
    && (forall r, q: nat {:trigger WalkFrom(s'.mem, r, 4, q)} |
          IsRoot(own, r) && q < 0x10_0000_0000 && !(r == s.cr3 && q == PageOf(cur)) ::
          SameWalk(WalkFrom(s.mem, r, 4, q), WalkFrom(s'.mem, r, 4, q)))
    && OutsideKept(s.mem, s'.mem, own')
    && var w, w' := WalkFrom(s.mem, s.cr3, 4, PageOf(cur)), WalkFrom(s'.mem, s.cr3, 4, PageOf(cur));
       if w.Leaf? then SameWalk(w, w') && s'.next == s.next
       else if InWindow(windows, cur) then LeafOf(w', OwnFrame(cur), Flags(fill.w, false, !fill.x, false))
       else LeafOf(w', s.next, Flags(fill.w, fill.u, !fill.x, false)) && s.next !in own' && s.next < s'.next
  }

  lemma FreshLeafOf(w: Walk, pa: nat, fl: Flags)
    requires w.Leaf? && w.level == 1 && w.entry == LeafEntry(pa, fl)
    ensures LeafOf(w, FrameOf(pa), fl)
  {
    hide FrameOf;
    LeafEntryFields(pa, fl);
    FrameOfFrame(pa);
  }

  lemma FrameOfFrame(pa: nat)
    ensures FrameOf(FrameOf(pa)) == FrameOf(pa)
  {
    var f := pa / 4096 % 0x100_0000_0000;
    ModUnique(f * 4096, 4096, f, 0);
    ModUnique(f, 0x100_0000_0000, 0, f);
  }

  lemma FrameOfAligned(f: nat)
    requires f % 4096 == 0 && f < TWO_52
    ensures FrameOf(f) == f
  {
    ModUnique(f / 4096, 0x100_0000_0000, 0, f / 4096);
  }

  lemma ReadingDecides(s: State, own: Forest, cur: nat)
    requires Sound(s, own) && cur < TWO_64 && Canonical(cur)
    ensures Uncached(s.mem, s.cr3, s.cr4, cur, Reading).Translated? <==> WalkFrom(s.mem, s.cr3, 4, PageOf(cur)).Leaf?
  {
    hide WalkFrom, CacheOk, Grown, Canonical, PageOf, HitOf, BitOr, OffsetOf;
    RootFrame(s, own);
    ModUnique(cur, TWO_64, 0, cur);
  }

  lemma ZeroBackBytes(m: Store, pa: nat)
    requires pa % 4096 == 0 && pa / 4096 !in m
    ensures var m' := Put(m, pa, Zeros(4096)); m.Keys <= m'.Keys && forall a: nat :: Get(m', a) == Get(m, a)
  {
    hide Put, Touched;
    var m' := Put(m, pa, Zeros(4096));
    PutGet(m, pa, Zeros(4096));
    forall a: nat
      ensures Get(m', a) == Get(m, a)
    {
      if pa <= a < pa + 4096 { ModUnique(a, 4096, pa / 4096, a - pa); }
    }
  }

  lemma SameBytesEntry(m: Store, m': Store, f: nat, i: nat)
    requires forall a: nat :: Get(m', a) == Get(m, a)
    ensures Entry(m', f, i) == Entry(m, f, i)
  {
    hide Get, U64;
    U64Same(m, m', f + 8 * i);
  }

  lemma ZeroBackKeeps(s: State, own: Forest, pa: nat)
    requires Sound(s, own) && s.tlb == map[] && pa % 4096 == 0 && pa / 4096 !in s.mem
    ensures var s' := s.(mem := Put(s.mem, pa, Zeros(4096)));
      && Sound(s', own) && (forall a: nat :: Get(s'.mem, a) == Get(s.mem, a)) && s.mem.Keys <= s'.mem.Keys
      && (forall r, q: nat | r % 4096 == 0 :: WalkFrom(s'.mem, r, 4, q) == WalkFrom(s.mem, r, 4, q))
  {
    hide Put, U64, WalkFrom, Get, Entry, FrameOf;
    var m' := Put(s.mem, pa, Zeros(4096));
    ZeroBackBytes(s.mem, pa);
    forall f: nat, i: nat
      ensures Entry(m', f, i) == Entry(s.mem, f, i)
    {
      SameBytesEntry(s.mem, m', f, i);
    }
    forall f, i: nat | f in own && own[f].level > 1 && i < 512
      ensures Linked(m', own, f, i)
    {
      assert Linked(s.mem, own, f, i);
    }
    forall r, q: nat | r % 4096 == 0
      ensures WalkFrom(m', r, 4, q) == WalkFrom(s.mem, r, 4, q)
    {
      SameEntriesWalk(s.mem, m', r, 4, q);
    }
  }

  lemma {:induction false} SameEntriesWalk(m: Store, m': Store, t: nat, level: nat, q: nat)
    requires 1 <= level <= 4 && t % 4096 == 0
    requires forall f: nat, i: nat | f % 4096 == 0 && i < 512 :: Entry(m', f, i) == Entry(m, f, i)
    ensures WalkFrom(m', t, level, q) == WalkFrom(m, t, level, q)
    decreases level
  {
    var e := Entry(m, t, Index(q, level));
    if level > 1 && Present(e) && !Large(e) { SameEntriesWalk(m, m', FrameOf(e), level - 1, q); }
  }

  lemma SkipFrame(s: State, own: Forest)
    requires Sound(s, own)
    ensures Sound(s.(next := s.next + 4096), own)
  {
    hide Shape, Uncached;
    CacheKept(s, s.(next := s.next + 4096), own);
  }

  lemma EnsurePageWorks(s: State, own: Forest, windows: seq<Window>, cur: nat, fill: Fill) returns (own': Forest)
    requires Sound(s, own) && cur < TWO_64 && Canonical(cur) && s.next + 4 * 4096 <= TWO_52
    ensures Ensured(s, own, windows, cur, fill, EnsurePage(s, windows, cur, fill), own')
    ensures var s' := EnsurePage(s, windows, cur, fill); Sound(s', own') && s'.next <= s.next + 4 * 4096
  {
    hide WalkFrom, Translate, Uncached, CacheOk, Shape, PageOf, LeafEntry, FrameOf, Canonical, Get, Put, MapPage, Grew, Filed;
    var p := PageOf(cur);
    PageOfInRange(cur);
    RootFrame(s, own);
    ReadingDecides(s, own, cur);
    TranslateKeeps(s, own, cur, Reading);
    RootsAligned(s, own);
    IdentityIff(windows, cur);
    var (s1, o) := Translate(s, cur, Reading);
    if o.Translated? {
      own' := own;
    } else if IdentityPa(windows, cur).Some? {
      var pa := IdentityPa(windows, cur).value;
      var fl := Flags(fill.w, false, !fill.x, false);
      own' := MapPageWorks(s1, own, cur, pa, fl);
      FreshLeafOf(WalkFrom(MapPage(s1, cur, pa, fl).mem, s.cr3, 4, p), pa, fl);
      if pa / 4096 !in MapPage(s1, cur, pa, fl).mem { ZeroBackKeeps(MapPage(s1, cur, pa, fl), own', pa); }
    } else {
      SkipFrame(s1, own);
      var s2 := s1.(next := s1.next + 4096);
      var fl := Flags(fill.w, fill.u, !fill.x, false);
      own' := MapPageWorks(s2, own, cur, s1.next, fl);
      FreshLeafOf(WalkFrom(MapPage(s2, cur, s1.next, fl).mem, s.cr3, 4, p), s1.next, fl);
      FrameOfAligned(s1.next);
    }
  }

  lemma RootsAligned(s: State, own: Forest)
    requires Sound(s, own)
    ensures forall r | IsRoot(own, r) :: r % 4096 == 0
  {
  }

  // ------------------------------------------------------------------ ranges

  predicate InRange(c: nat, cur: nat, end: int) { c % 4096 == 0 && cur <= c <= end }

  /** All pages from cur to end lie in one half of the canonical addresses. */
  predicate CanonicalRange(cur: nat, end: int) {
    cur % 4096 == 0 && end < TWO_64 && (end < 0x8000_0000_0000 || cur >= 0xffff_8000_0000_0000)
  }

  /** What ensureRange makes of the walk w of page c: it stays, or ends on the page's own frame in a
      window, or on a frame the allocator handed out between lo and hi, which is no table. */
  ghost predicate Became(w: Walk, w': Walk, windows: seq<Window>, c: nat, fill: Fill, lo: nat, hi: nat, own': Forest) {
    if w.Leaf? then SameWalk(w, w')
    else if InWindow(windows, c) then LeafOf(w', OwnFrame(c), Flags(fill.w, false, !fill.x, false))
    else
      && w'.Leaf? && LeafOf(w', FrameOf(w'.entry), Flags(fill.w, fill.u, !fill.x, false))
      && lo <= FrameOf(w'.entry) < hi && FrameOf(w'.entry) !in own'
  }

  /** Page c of the current address space after ensureRange took s to s'. */
  ghost predicate PageEnsured(s: State, windows: seq<Window>, c: nat, fill: Fill, s': State, own': Forest) {
    Became(WalkFrom(s.mem, s.cr3, 4, PageOf(c)), WalkFrom(s'.mem, s.cr3, 4, PageOf(c)), windows, c, fill, s.next, s'.next, own')
  }

  ghost predicate Fresh(s: State, windows: seq<Window>, c: nat) {
    WalkFrom(s.mem, s.cr3, 4, PageOf(c)).Missing? && !InWindow(windows, c)
  }

  ghost predicate RangeEnsured(s: State, own: Forest, windows: seq<Window>, cur: nat, end: int, fill: Fill, s': State, own': Forest) {
    && Sound(s', own') && s'.cr3 == s.cr3 && s'.cr4 == s.cr4 && s.next <= s'.next
    && Extends(own, own', s.next, s'.next) && (forall r :: IsRoot(own', r) <==> IsRoot(own, r))
    && OutsideKept(s.mem, s'.mem, own')
    && (forall r, q: nat {:trigger WalkFrom(s'.mem, r, 4, q)} |
          IsRoot(own, r) && q < 0x10_0000_0000 && !(r == s.cr3 && exists c: nat :: InRange(c, cur, end) && q == PageOf(c)) ::
          SameWalk(WalkFrom(s.mem, r, 4, q), WalkFrom(s'.mem, r, 4, q)))
    && (forall c: nat | InRange(c, cur, end) :: PageEnsured(s, windows, c, fill, s', own'))
    && (forall c: nat, d: nat | InRange(c, cur, end) && InRange(d, cur, end) && c != d && Fresh(s, windows, c) && Fresh(s, windows, d) ::
          var w, x := WalkFrom(s'.mem, s.cr3, 4, PageOf(c)), WalkFrom(s'.mem, s.cr3, 4, PageOf(d));
          w.Leaf? && x.Leaf? && FrameOf(w.entry) != FrameOf(x.entry))
  }

  lemma RangeCanonical(cur: nat, end: int, c: nat)
    requires CanonicalRange(cur, end) && InRange(c, cur, end)
    ensures c < TWO_64 && Canonical(c)
  {
    if end < 0x8000_0000_0000 {
      ModUnique(c, 0x8000_0000_0000, 0, c);
    } else {
      ModUnique(c, 0x8000_0000_0000, 0x1_ffff, c - 0xffff_8000_0000_0000);
    }
  }

  lemma RangePages(cur: nat, end: int, c: nat, d: nat)
    requires CanonicalRange(cur, end) && InRange(c, cur, end) && InRange(d, cur, end)
    ensures PageOf(c) == PageOf(d) ==> c == d
  {
    hide Canonical, PageOf;
    RangeCanonical(cur, end, c);
    RangeCanonical(cur, end, d);
    CanonicalPage(c, d);
  }

  lemma SameWalkTrans(w: Walk, x: Walk, y: Walk)
    requires SameWalk(w, x) && SameWalk(x, y)
    ensures SameWalk(w, y)
  {
    hide Present, Large, FrameOf, Writable, User, NoExecute;
  }

  lemma LeafOfSame(w: Walk, x: Walk, frame: nat, fl: Flags)
    requires LeafOf(w, frame, fl) && SameWalk(w, x)
    ensures LeafOf(x, frame, fl)
  {
    hide Present, Large, FrameOf, Writable, User, NoExecute;
  }

  /** ensureRange terminates with every page of a canonical range translating: mapped
      pages as before, window pages on their own frames, new pages on distinct fresh
      frames. */
  lemma {:induction false} EnsureRangeWorks(s: State, own: Forest, windows: seq<Window>, cur: nat, end: int, fill: Fill) returns (own': Forest)
    requires Sound(s, own) && CanonicalRange(cur, end)
    requires cur <= end ==> s.next + 4 * (end - cur + 4096) <= TWO_52
    ensures RangeEnsured(s, own, windows, cur, end, fill, EnsureFrom(s, windows, cur, end, fill), own')
    decreases end - cur
  {
    hide EnsurePage, Ensured, RangeEnsured, Sound;
    if cur > end {
      own' := own;
      NothingEnsured(s, own, windows, cur, end, fill);
    } else {
      RangeCanonical(cur, end, cur);
      var own1 := EnsurePageWorks(s, own, windows, cur, fill);
      var s1 := EnsurePage(s, windows, cur, fill);
      own' := EnsureRangeWorks(s1, own1, windows, cur + 4096, end, fill);
      EnsuredThenRange(s, own, windows, cur, end, fill, s1, own1, EnsureFrom(s1, windows, cur + 4096, end, fill), own');
    }
  }

  lemma NothingEnsured(s: State, own: Forest, windows: seq<Window>, cur: nat, end: int, fill: Fill)
    requires Sound(s, own) && cur > end
    ensures RangeEnsured(s, own, windows, cur, end, fill, s, own)
  {
    hide WalkFrom, CacheOk, Shape, PageOf, LeafEntry, FrameOf;
  }

  lemma PageAfter(cur: nat, end: int, c: nat)
    requires CanonicalRange(cur, end) && cur <= end && InRange(c, cur, end) && c != cur
    ensures InRange(c, cur + 4096, end) && PageOf(c) != PageOf(cur)
    ensures PageOf(c) < 0x10_0000_0000
  {
    RangePages(cur, end, c, cur);
    hide Canonical, PageOf;
    PageOfInRange(c);
  }

  lemma PageNotLater(cur: nat, end: int)
    requires CanonicalRange(cur, end) && cur <= end
    ensures !exists c: nat :: InRange(c, cur + 4096, end) && PageOf(cur) == PageOf(c)
  {
    hide Canonical, PageOf;
    forall c: nat | InRange(c, cur + 4096, end)
      ensures PageOf(cur) != PageOf(c)
    {
      PageAfter(cur, end, c);
    }
  }

  /** The first page of the range keeps what its own step did. */
  lemma FirstPage(s: State, own: Forest, windows: seq<Window>, cur: nat, end: int, fill: Fill,
                  s1: State, own1: Forest, s': State, own': Forest)
    requires Sound(s, own) && CanonicalRange(cur, end) && cur <= end
    requires Ensured(s, own, windows, cur, fill, s1, own1)
    requires RangeEnsured(s1, own1, windows, cur + 4096, end, fill, s', own')
    ensures PageEnsured(s, windows, cur, fill, s', own')
    ensures Fresh(s, windows, cur) ==>
      var w := WalkFrom(s'.mem, s.cr3, 4, PageOf(cur)); w.Leaf? && FrameOf(w.entry) == s.next && s.next < s1.next
  {
    hide WalkFrom, CacheOk, Shape, PageOf, LeafEntry, FrameOf, SameButAD, InWindow, OwnFrame, InRange, OutsideKept, Became;
    var p := PageOf(cur);
    PageNotLater(cur, end);
    PageOfInRange(cur);
    var w, x, y := WalkFrom(s.mem, s.cr3, 4, p), WalkFrom(s1.mem, s.cr3, 4, p), WalkFrom(s'.mem, s.cr3, 4, p);
    assert SameWalk(x, y);
    FirstPageWalk(w, x, y, windows, cur, fill, s.next, s1.next, s'.next, own1, own');
  }

  /** A walk from w by way of x to y: the step that took w to x decided. */
  lemma FirstPageWalk(w: Walk, x: Walk, y: Walk, windows: seq<Window>, cur: nat, fill: Fill, lo: nat, mid: nat, hi: nat,
                      own1: Forest, own': Forest)
    requires SameWalk(x, y) && mid <= hi && Extends(own1, own', mid, hi)
    requires
      if w.Leaf? then SameWalk(w, x)
      else if InWindow(windows, cur) then LeafOf(x, OwnFrame(cur), Flags(fill.w, false, !fill.x, false))
      else LeafOf(x, lo, Flags(fill.w, fill.u, !fill.x, false)) && lo !in own1 && lo < mid
    ensures Became(w, y, windows, cur, fill, lo, hi, own')
    ensures w.Missing? && !InWindow(windows, cur) ==> y.Leaf? && FrameOf(y.entry) == lo && lo < mid
  {
    hide LeafEntry, FrameOf, SameButAD, InWindow, OwnFrame, LeafOf, SameWalk;
    if w.Leaf? {
      SameWalkTrans(w, x, y);
    } else if InWindow(windows, cur) {
      LeafOfSame(x, y, OwnFrame(cur), Flags(fill.w, false, !fill.x, false));
    } else {
      LeafOfSame(x, y, lo, Flags(fill.w, fill.u, !fill.x, false));
      LeafOfFrame(y, lo, Flags(fill.w, fill.u, !fill.x, false));
    }
  }

  lemma LeafOfFrame(w: Walk, frame: nat, fl: Flags)
    requires LeafOf(w, frame, fl)
    ensures w.Leaf? && FrameOf(w.entry) == frame
  {
  }

  lemma LaterWalk(s: State, own: Forest, windows: seq<Window>, cur: nat, end: int, fill: Fill, s1: State, own1: Forest, c: nat)
    requires Sound(s, own) && CanonicalRange(cur, end) && cur <= end
    requires Ensured(s, own, windows, cur, fill, s1, own1)
    requires InRange(c, cur, end) && c != cur
    ensures InRange(c, cur + 4096, end)
    ensures SameWalk(WalkFrom(s.mem, s.cr3, 4, PageOf(c)), WalkFrom(s1.mem, s1.cr3, 4, PageOf(c)))
    ensures s.next <= s1.next && s1.cr3 == s.cr3
    ensures Fresh(s, windows, c) ==> Fresh(s1, windows, c)
  {
    hide WalkFrom, CacheOk, Shape, PageOf, LeafEntry, FrameOf, SameButAD, InWindow, OwnFrame, InRange, OutsideKept;
    PageAfter(cur, end, c);
  }

  lemma LaterPage(s: State, own: Forest, windows: seq<Window>, cur: nat, end: int, fill: Fill,
                  s1: State, own1: Forest, s': State, own': Forest, c: nat)
    requires Sound(s, own) && CanonicalRange(cur, end) && cur <= end
    requires Ensured(s, own, windows, cur, fill, s1, own1)
    requires InRange(c, cur, end) && c != cur && PageEnsured(s1, windows, c, fill, s', own')
    ensures PageEnsured(s, windows, c, fill, s', own')
  {
    hide Sound, Ensured, WalkFrom, PageOf, LeafEntry, FrameOf, SameButAD, InWindow, OwnFrame, LeafOf;
    LaterWalk(s, own, windows, cur, end, fill, s1, own1, c);
    var w, x, y := WalkFrom(s.mem, s.cr3, 4, PageOf(c)), WalkFrom(s1.mem, s1.cr3, 4, PageOf(c)), WalkFrom(s'.mem, s.cr3, 4, PageOf(c));
    if w.Leaf? { SameWalkTrans(w, x, y); }
  }

  lemma KeptThenKept(s: State, own: Forest, s1: State, own1: Forest, s': State, own': Forest)
    requires Extends(own, own1, s.next, s1.next) && Extends(own1, own', s1.next, s'.next) && s.next <= s1.next <= s'.next
    requires OutsideKept(s.mem, s1.mem, own1) && OutsideKept(s1.mem, s'.mem, own')
    ensures Extends(own, own', s.next, s'.next) && OutsideKept(s.mem, s'.mem, own')
  {
    hide Get;
  }

  lemma EnsuredThenRange(s: State, own: Forest, windows: seq<Window>, cur: nat, end: int, fill: Fill,
                         s1: State, own1: Forest, s': State, own': Forest)
    requires Sound(s, own) && CanonicalRange(cur, end) && cur <= end
    requires Ensured(s, own, windows, cur, fill, s1, own1)
    requires RangeEnsured(s1, own1, windows, cur + 4096, end, fill, s', own')
    ensures RangeEnsured(s, own, windows, cur, end, fill, s', own')
  {
    hide WalkFrom, CacheOk, Shape, PageOf, LeafEntry, FrameOf, SameWalk, LeafOf, InWindow, OwnFrame, PageEnsured, Extends, OutsideKept, Fresh;
    KeptThenKept(s, own, s1, own1, s', own');
    FirstPage(s, own, windows, cur, end, fill, s1, own1, s', own');
    forall r, q: nat | IsRoot(own, r) && q < 0x10_0000_0000 && !(r == s.cr3 && exists c: nat :: InRange(c, cur, end) && q == PageOf(c))
      ensures SameWalk(WalkFrom(s.mem, r, 4, q), WalkFrom(s'.mem, r, 4, q))
    {
      assert InRange(cur, cur, end);
      SameWalkTrans(WalkFrom(s.mem, r, 4, q), WalkFrom(s1.mem, r, 4, q), WalkFrom(s'.mem, r, 4, q));
    }
    forall c: nat | InRange(c, cur, end)
      ensures PageEnsured(s, windows, c, fill, s', own')
    {
      if c != cur {
        LaterWalk(s, own, windows, cur, end, fill, s1, own1, c);
        LaterPage(s, own, windows, cur, end, fill, s1, own1, s', own', c);
      }
    }
    forall c: nat, d: nat | InRange(c, cur, end) && InRange(d, cur, end) && c != d && Fresh(s, windows, c) && Fresh(s, windows, d)
      ensures var w, x := WalkFrom(s'.mem, s.cr3, 4, PageOf(c)), WalkFrom(s'.mem, s.cr3, 4, PageOf(d));
        w.Leaf? && x.Leaf? && FrameOf(w.entry) != FrameOf(x.entry)
    {
      DistinctFrames(s, own, windows, cur, end, fill, s1, own1, s', own', c, d);
    }
  }

  lemma FreshAbove(w: Walk, w': Walk, windows: seq<Window>, c: nat, fill: Fill, lo: nat, hi: nat, own': Forest)
    requires w.Missing? && !InWindow(windows, c) && Became(w, w', windows, c, fill, lo, hi, own')
    ensures w'.Leaf? && FrameOf(w'.entry) >= lo
  {
    hide LeafEntry, FrameOf, SameWalk, LeafOf;
  }

  lemma DistinctFrames(s: State, own: Forest, windows: seq<Window>, cur: nat, end: int, fill: Fill,
                       s1: State, own1: Forest, s': State, own': Forest, c: nat, d: nat)
    requires Sound(s, own) && CanonicalRange(cur, end) && cur <= end
    requires Ensured(s, own, windows, cur, fill, s1, own1)
    requires RangeEnsured(s1, own1, windows, cur + 4096, end, fill, s', own')
    requires InRange(c, cur, end) && InRange(d, cur, end) && c != d && Fresh(s, windows, c) && Fresh(s, windows, d)
    ensures var w, x := WalkFrom(s'.mem, s.cr3, 4, PageOf(c)), WalkFrom(s'.mem, s.cr3, 4, PageOf(d));
      w.Leaf? && x.Leaf? && FrameOf(w.entry) != FrameOf(x.entry)
  {
    hide WalkFrom, Sound, Ensured, PageOf, LeafEntry, FrameOf, SameWalk, LeafOf, InWindow, OwnFrame, Became, Extends, OutsideKept, InRange;
    FirstPage(s, own, windows, cur, end, fill, s1, own1, s', own');
    if c != cur {
      LaterWalk(s, own, windows, cur, end, fill, s1, own1, c);
      FreshAbove(WalkFrom(s1.mem, s1.cr3, 4, PageOf(c)), WalkFrom(s'.mem, s1.cr3, 4, PageOf(c)), windows, c, fill, s1.next, s'.next, own');
    }
    if d != cur {
      LaterWalk(s, own, windows, cur, end, fill, s1, own1, d);
      FreshAbove(WalkFrom(s1.mem, s1.cr3, 4, PageOf(d)), WalkFrom(s'.mem, s1.cr3, 4, PageOf(d)), windows, d, fill, s1.next, s'.next, own');
    }
  }

  /** The condition is needed: of a page already mapped, ensureRange keeps the mapping
      exactly when it is asked by the canonical address. From a non-canonical address
      the lookup fails and the sign-extended page is mapped anew. */
  lemma EnsureKeepsIffCanonical(s: State, own: Forest, windows: seq<Window>, cur: nat, fill: Fill)
    requires Sound(s, own) && cur < TWO_64 && s.next + 4 * 4096 <= TWO_52
    requires !InWindow(windows, cur)
    requires var w := WalkFrom(s.mem, s.cr3, 4, PageOf(cur)); w.Leaf? && w.level == 1 && FrameOf(w.entry) != s.next
    ensures SameWalk(WalkFrom(s.mem, s.cr3, 4, PageOf(cur)), WalkFrom(EnsurePage(s, windows, cur, fill).mem, s.cr3, 4, PageOf(cur)))
      <==> Canonical(cur)
  {
    hide WalkFrom, CacheOk, Shape, PageOf, LeafEntry, FrameOf, Get, Put, MapPage;
    IdentityIff(windows, cur);
    if Canonical(cur) {
      var own' := EnsurePageWorks(s, own, windows, cur, fill);
    } else {
      ModUnique(cur, TWO_64, 0, cur);
      assert Translate(s, cur, Reading) == (s, PageFault(cur, NonCanonical, Reading));
      SkipFrame(s, own);
      var s2 := s.(next := s.next + 4096);
      var fl := Flags(fill.w, fill.u, !fill.x, false);
      var own' := MapPageWorks(s2, own, cur, s.next, fl);
      var w' := WalkFrom(MapPage(s2, cur, s.next, fl).mem, s.cr3, 4, PageOf(cur));
      FreshLeafOf(w', s.next, fl);
      FrameOfAligned(s.next);
      LeafOfFrame(w', s.next, fl);
    }
  }
}
