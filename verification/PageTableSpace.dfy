/** Per-process page tables whose every table frame is mirrored by an alias window
    at an address computed from its place in the tree. */
module PageTableSpace {
  import opened Bytes
  import opened Store
  import opened PageTables
  import opened Wrappers

  const SENTINEL: nat := 0x1ff
  const HIGH: nat := 0xffff_0000_0000_0000

  datatype Mirror = Mirror(frame: nat, base: nat)

  /** procs: root frame to self-reference index. */
  datatype Pts = Pts(mem: Store, next: nat, mirrors: seq<Mirror>, procs: map<nat, nat>, high: bool)

  // ---------------------------------------------------------------- addresses

  datatype Split = Split(pml4: nat, pdpt: nat, pd: nat, pt: nat, offset: nat)

  function SplitVa(va: nat): Split {
    Split(va / 0x80_0000_0000 % 512, va / 0x4000_0000 % 512, va / 0x20_0000 % 512, va / 4096 % 512, va % 4096)
  }

  /** The index fields are disjoint, so the source's `|` is a sum. */
  function JoinVa(a: nat, b: nat, c: nat, d: nat, offset: nat, high: bool): nat {
    var v := a * 0x80_0000_0000 + b * 0x4000_0000 + c * 0x20_0000 + d * 4096 + offset % 4096;
    if high && v / 0x1_0000_0000 % 0x1_0000 != 0 then v + HIGH else v
  }

  /** splitVa undoes joinVa in either canonical half. */
  lemma SplitJoin(a: nat, b: nat, c: nat, d: nat, offset: nat, high: bool)
    requires a < 512 && b < 512 && c < 512 && d < 512 && offset < 4096
    ensures SplitVa(JoinVa(a, b, c, d, offset, high)) == Split(a, b, c, d, offset)
  {
    var top := if JoinVa(a, b, c, d, offset, high) >= HIGH then 0x1ff_fe00 else 0;
    var v := JoinVa(a, b, c, d, offset, high);
    assert v == (top + a) * 0x80_0000_0000 + b * 0x4000_0000 + c * 0x20_0000 + d * 4096 + offset;
    ModUnique(v, 0x80_0000_0000, top + a, b * 0x4000_0000 + c * 0x20_0000 + d * 4096 + offset);
    ModUnique(v, 0x4000_0000, (top + a) * 512 + b, c * 0x20_0000 + d * 4096 + offset);
    ModUnique(v, 0x20_0000, ((top + a) * 512 + b) * 512 + c, d * 4096 + offset);
    ModUnique(v, 4096, (((top + a) * 512 + b) * 512 + c) * 512 + d, offset);
    ModUnique(top + a, 512, top / 512, a);
    ModUnique((top + a) * 512 + b, 512, top + a, b);
    ModUnique(((top + a) * 512 + b) * 512 + c, 512, (top + a) * 512 + b, c);
    ModUnique((((top + a) * 512 + b) * 512 + c) * 512 + d, 512, ((top + a) * 512 + b) * 512 + c, d);
  }

  /** The alias window of the table of this level on the path of page p. */
  function TableWindow(selfRef: nat, level: nat, p: nat, high: bool): nat
    requires 1 <= level <= 4
  {
    if level == 4 then JoinVa(selfRef, SENTINEL, SENTINEL, SENTINEL, 0, high)
    else if level == 3 then JoinVa(selfRef, Index(p, 4), SENTINEL, SENTINEL, 0, high)
    else if level == 2 then JoinVa(selfRef, Index(p, 4), Index(p, 3), SENTINEL, 0, high)
    else JoinVa(selfRef, Index(p, 4), Index(p, 3), Index(p, 2), 0, high)
  }

  // --------------------------------------------------------------- primitives

  function MirrorOf(mirrors: seq<Mirror>, frame: nat): Option<nat> {
    if mirrors == [] then None
    else if mirrors[0].frame == frame then Some(mirrors[0].base)
    else MirrorOf(mirrors[1..], frame)
  }

  function AllocFrame(s: Pts): (Pts, nat) {
    (s.(mem := Put(s.mem, s.next, Zeros(4096)), next := s.next + 4096), s.next)
  }

  predicate BaseTaken(mirrors: seq<Mirror>, base: nat) {
    exists k :: 0 <= k < |mirrors| && mirrors[k].base == base
  }

  /** None: the self-map alias collision error; the frame is already spent then. */
  function AllocStructFrame(s: Pts, alias: nat): (Pts, Option<nat>) {
    var (s1, f) := AllocFrame(s);
    var base := alias / 4096 * 4096;
    if BaseTaken(s.mirrors, base) then (s1, None)
    else (s1.(mirrors := s1.mirrors + [Mirror(f, base)]), Some(f))
  }

  function Poke(s: Pts, pa: nat, v: nat): Pts {
    var m1 := W64(s.mem, pa, v);
    match MirrorOf(s.mirrors, pa / 4096 * 4096)
    case None => s.(mem := m1)
    case Some(base) => s.(mem := W64(m1, base + pa % 4096, v))
  }

  /** Student edits made through the windows, copied to the frames they mirror. */
  function SyncBack(m: Store, mirrors: seq<Mirror>): Store
    decreases |mirrors|
  {
    if mirrors == [] then m
    else
      var r := mirrors[0];
      var bytes := Read(m, r.base, 4096);
      if r.base / 4096 in m && bytes != Read(m, r.frame, 4096)
      then SyncBack(Put(m, r.frame, bytes), mirrors[1..])
      else SyncBack(m, mirrors[1..])
  }

  // --------------------------------------------------------------- operations

  datatype Error = AliasCollision | SelfMapRegion | SentinelIndex

  datatype Result<T> = Ok(value: T) | Err(error: Error)

  /** The self-referencing entry of a root. */
  function RootEntry(frame: nat): nat { frame / 4096 * 4096 + 0x63 }

  function CreateProcess(s: Pts, selfRef: nat): (Pts, Result<nat>) {
    var (s1, dtb) := AllocStructFrame(s, TableWindow(selfRef, 4, 0, s.high));
    match dtb
    case None => (s1, Err(AliasCollision))
    case Some(f) =>
      var s2 := Poke(s1, f + 8 * selfRef, RootEntry(f));
      (s2.(procs := s2.procs[f := selfRef]), Ok(f))
  }

  const NX: nat := 0x8000_0000_0000_0000

  datatype Opts = Opts(pa: Option<nat>, writable: bool, user: bool, nx: bool, present: bool)

  /** The flags are or-ed in, so no-execute adds bit 63 unless the address has it already. */
  function LeafValue(pa: nat, o: Opts): nat {
    pa / 4096 * 4096 + (if o.nx && pa < NX then NX else 0)
    + 0x60 + (if o.writable then 2 else 0) + (if o.user then 4 else 0) + (if o.present then 1 else 0)
  }

  function LinkValue(frame: nat, user: bool): nat {
    frame / 4096 * 4096 + 0x23 + (if user then 4 else 0)
  }

  /** From a table down to the level 1 entry; every entry on the way is rewritten. */
  function DescendMap(s: Pts, selfRef: nat, table: nat, level: nat, p: nat, user: bool, leaf: nat): (Pts, Result<()>)
    requires 1 <= level <= 4
    decreases level
  {
    var slot := table + 8 * Index(p, level);
    if level == 1 then (Poke(s, slot, leaf), Ok(()))
    else
      var e := U64(s.mem, slot);
      var (s1, f) :=
        if e / 4096 == 0 then AllocStructFrame(s, TableWindow(selfRef, level - 1, p, s.high))
        else (s, Some(e / 4096 * 4096));
      match f
      case None => (s1, Err(AliasCollision))
      case Some(frame) => DescendMap(Poke(s1, slot, LinkValue(frame, user)), selfRef, frame, level - 1, p, user, leaf)
  }

  function MapPage(s: Pts, dtb: nat, selfRef: nat, va: nat, o: Opts): (Pts, Result<nat>) {
    var i := SplitVa(va);
    if i.pml4 == selfRef then (s, Err(SelfMapRegion))
    else if i.pd == SENTINEL || i.pdpt == SENTINEL || i.pt == SENTINEL then (s, Err(SentinelIndex))
    else
      var (s1, pa) := match o.pa case Some(pa) => (s, pa) case None => AllocFrame(s);
      var (s2, r) := DescendMap(s1, selfRef, dtb, 4, PageOf(va), o.user, LeafValue(pa, o));
      (s2, match r case Ok(_) => Ok(pa) case Err(e) => Err(e))
  }

  // ---------------------------------------------------------------- the walk

  /** The entries visited, top level first, and the physical address when all are present. */
  datatype Walked = Walked(pa: Option<nat>, rows: seq<(nat, nat)>)

  function Row(m: Store, table: nat, i: nat): (nat, nat) { (table + 8 * i, U64(m, table + 8 * i)) }

  function WalkRows(m: Store, dtb: nat, va: nat): Walked {
    var i := SplitVa(va);
    var r4 := Row(m, dtb / 4096 * 4096, i.pml4);
    if !Present(r4.1) then Walked(None, [r4])
    else
      var r3 := Row(m, r4.1 / 4096 * 4096, i.pdpt);
      if !Present(r3.1) then Walked(None, [r4, r3])
      else if Large(r3.1) then Walked(Some(r3.1 / 0x4000_0000 * 0x4000_0000 + va % 0x4000_0000), [r4, r3])
      else
        var r2 := Row(m, r3.1 / 4096 * 4096, i.pd);
        if !Present(r2.1) then Walked(None, [r4, r3, r2])
        else if Large(r2.1) then Walked(Some(r2.1 / 0x20_0000 * 0x20_0000 + va % 0x20_0000), [r4, r3, r2])
        else
          var r1 := Row(m, r2.1 / 4096 * 4096, i.pt);
          Walked(if Present(r1.1) then Some(r1.1 / 4096 * 4096 + i.offset) else None, [r4, r3, r2, r1])
  }

  function Translate(s: Pts, dtb: nat, va: nat): (Pts, Walked) {
    var s1 := s.(mem := SyncBack(s.mem, s.mirrors));
    (s1, WalkRows(s1.mem, dtb, va))
  }

  // ------------------------------------------------------------- the invariant

  /** The window number of a place below one self-reference index. */
  function WindowIndex(level: nat, base: nat): nat {
    if level == 4 then 0x7ff_ffff
    else if level == 3 then base * 0x4_0000 + 0x3_ffff
    else if level == 2 then base * 512 + 511
    else base
  }

  /** The page of the window whose four indices spell n: in the high half, unless its number is
      below 2^20, which only index 0 gives. */
  function WindowPage(n: nat, high: bool): nat {
    n + (if high && n >= 0x10_0000 then HIGH / 4096 else 0)
  }

  /** The alias window of a place, as one number. */
  function Window(selfRef: nat, at: Place, high: bool): nat {
    WindowPage(selfRef * 0x800_0000 + WindowIndex(at.level, at.base), high) * 4096
  }

  /** Index digits above the place avoid the sentinel. */
  predicate NoSentinel(at: Place) {
    && 1 <= at.level <= 4
    && (at.level == 4 ==> at.base == 0)
    && (at.level == 3 ==> at.base < 511)
    && (at.level == 2 ==> at.base / 512 < 511 && at.base % 512 != 511)
    && (at.level == 1 ==> at.base / 0x4_0000 < 511 && at.base / 512 % 512 != 511 && at.base % 512 != 511)
  }

  /** The top index digit is not the self-reference index. */
  predicate OffSelf(at: Place, selfRef: nat) {
    && (at.level == 3 ==> at.base != selfRef)
    && (at.level == 2 ==> at.base / 512 != selfRef)
    && (at.level == 1 ==> at.base / 0x4_0000 != selfRef)
  }

  lemma WindowInjective(s: nat, at: Place, t: nat, bt: Place, high: bool)
    requires NoSentinel(at) && NoSentinel(bt) && s < 512 && t < 512
    requires Window(s, at, high) == Window(t, bt, high)
    ensures s == t && at.level == bt.level && at.base == bt.base
  {
    var w := Window(s, at, high);
    var i, j := WindowIndex(at.level, at.base), WindowIndex(bt.level, bt.base);
    WindowIndexParts(at);
    WindowIndexParts(bt);
    assert s * 0x800_0000 + i == t * 0x800_0000 + j;
    assert s == t && i == j;
  }

  /** The three digits of a window number tell its level. */
  lemma WindowIndexParts(at: Place)
    requires NoSentinel(at)
    ensures var i := WindowIndex(at.level, at.base);
      && i < 0x800_0000
      && (at.level == 4 <==> i / 0x4_0000 == 511)
      && (at.level == 3 ==> i / 0x4_0000 == at.base && i / 512 % 512 == 511)
      && (at.level == 2 ==> i / 512 == at.base && i / 512 % 512 != 511 && i % 512 == 511)
      && (at.level == 1 ==> i == at.base && i / 512 % 512 != 511 && i % 512 != 511)
  {
    var b := at.base;
    var i := WindowIndex(at.level, b);
    if at.level == 3 {
      ModUnique(i, 0x4_0000, b, 0x3_ffff);
      ModUnique(i, 512, b * 512 + 511, 511);
      ModUnique(b * 512 + 511, 512, b, 511);
    } else if at.level == 2 {
      ModUnique(i, 512, b, 511);
      ModUnique(i, 0x4_0000, b / 512, b % 512 * 512 + 511);
    }
  }

  type Tree = map<nat, Place>

  function Child(at: Place, i: nat): Place
    requires at.level > 0
  {
    Place(at.root, at.level - 1, at.base * 512 + i)
  }

  /** The self-reference entry of a root is no link of the tree: it leads back to the root. */
  predicate Exempt(own: Tree, procs: map<nat, nat>, f: nat, i: nat) {
    f in procs && f in own && own[f].level == 4 && procs[f] == i
  }

  function WindowAt(s: Pts, own: Tree, f: nat): nat {
    if f in own && own[f].root in s.procs then Window(s.procs[own[f].root], own[f], s.high) else 0
  }

  /** Frames stay below every window: below 2^39, or 2^30 once a process has index 0. */
  function FloorOf(selfRef: nat): (n: nat)
    ensures 0x4000_0000 <= n <= 0x80_0000_0000 && n % 4096 == 0
  {
    if selfRef == 0 then 0x4000_0000 else 0x80_0000_0000
  }

  function Floor(procs: map<nat, nat>): (n: nat)
    ensures 0x4000_0000 <= n <= 0x80_0000_0000 && n % 4096 == 0
  {
    if exists r :: r in procs && procs[r] == 0 then 0x4000_0000 else 0x80_0000_0000
  }

  ghost predicate Placed(s: Pts, own: Tree) {
    && s.next % 4096 == 0 && 0 < s.next <= Floor(s.procs)
    && (forall f | f in own :: f % 4096 == 0 && 0 < f < s.next && f / 4096 in s.mem && NoSentinel(own[f]) && own[f].root in s.procs)
    && (forall f | f in own :: OffSelf(own[f], s.procs[own[f].root]))
    && (forall f | f in own :: own[f].level == 4 <==> own[f] == Place(f, 4, 0))
    && (forall f, g | f in own && g in own && own[f] == own[g] :: f == g)
  }

  ghost predicate Numbered(s: Pts, own: Tree) {
    && (forall r | r in s.procs :: r in own && own[r].level == 4 && s.procs[r] < 512)
    && (forall r, t | r in s.procs && t in s.procs && s.procs[r] == s.procs[t] :: r == t)
  }

  /** The mirrors are the tables with their windows. */
  ghost predicate Aliased(s: Pts, own: Tree) {
    && (forall k | 0 <= k < |s.mirrors| :: s.mirrors[k].frame in own && s.mirrors[k].base == WindowAt(s, own, s.mirrors[k].frame))
    && (forall f | f in own :: exists k :: 0 <= k < |s.mirrors| && s.mirrors[k].frame == f)
  }

  /** A table frame and its window hold the same bytes. */
  ghost predicate Twins(m: Store, f: nat, w: nat) {
    forall x: nat | x < 4096 :: Get(m, Off(w, x)) == Get(m, Off(f, x))
  }

  function Off(a: nat, x: nat): nat { a + x }

  ghost predicate Coherent(s: Pts, own: Tree) {
    forall f | f in own :: Twins(s.mem, f, WindowAt(s, own, f))
  }

  /** Pages of windows that start at floor or above. */
  predicate WindowRegion(page: nat, high: bool, floor: nat) {
    var n := if high && page >= HIGH / 4096 then page - HIGH / 4096 else page;
    floor / 4096 <= n < 0x10_0000_0000 && page == WindowPage(n, high)
  }

  /** Nothing but mirrored windows is materialized where windows lie. */
  ghost predicate Clean(s: Pts, own: Tree) {
    forall page | page in s.mem && WindowRegion(page, s.high, Floor(s.procs)) :: exists f :: f in own && WindowAt(s, own, f) == page * 4096
  }

  ghost predicate Base(s: Pts, own: Tree) {
    Placed(s, own) && Numbered(s, own) && Aliased(s, own) && Coherent(s, own) && Clean(s, own)
  }

  ghost predicate LinkOk(m: Store, own: Tree, procs: map<nat, nat>, f: nat, i: nat)
    requires f in own && own[f].level > 1
  {
    var e := Entry(m, f, i);
    if Exempt(own, procs, f, i) then e == RootEntry(f)
    else if e / 4096 == 0 then !Present(e)
    else Present(e) && !Large(e) && e / 4096 * 4096 in own && own[e / 4096 * 4096] == Child(own[f], i)
  }

  ghost predicate Links(m: Store, own: Tree, procs: map<nat, nat>) {
    forall f, i: nat | f in own && own[f].level > 1 && i < 512 :: LinkOk(m, own, procs, f, i)
  }

  /** Table f hangs from entry base % 512 of the table one level up. */
  ghost predicate HangsFrom(m: Store, own: Tree, procs: map<nat, nat>, f: nat, g: nat)
    requires f in own
  {
    && g in own && own[g] == Place(own[f].root, own[f].level + 1, own[f].base / 512)
    && Entry(m, g, own[f].base % 512) / 4096 * 4096 == f
    && !Exempt(own, procs, g, own[f].base % 512)
  }

  ghost predicate Up(m: Store, own: Tree, procs: map<nat, nat>) {
    forall f | f in own && own[f].level < 4 :: exists g :: HangsFrom(m, own, procs, f, g)
  }

  ghost predicate Good(s: Pts, own: Tree) {
    Base(s, own) && Links(s.mem, own, s.procs) && Up(s.mem, own, s.procs)
  }

  // ------------------------------------------------------------ window facts

  lemma JoinWindow(selfRef: nat, a: nat, b: nat, c: nat, high: bool)
    requires selfRef < 512 && a < 512 && b < 512 && c < 512
    ensures JoinVa(selfRef, a, b, c, 0, high) == WindowPage(selfRef * 0x800_0000 + (a * 512 + b) * 512 + c, high) * 4096
  {
    var n := selfRef * 0x800_0000 + (a * 512 + b) * 512 + c;
    ModUnique(n * 4096, 0x1_0000_0000, n / 0x10_0000, n % 0x10_0000 * 4096);
    ModUnique(n / 0x10_0000, 0x1_0000, 0, n / 0x10_0000);
  }

  /** The window the builder computes from index fields is the window of the place. */
  lemma TableWindowIs(selfRef: nat, level: nat, p: nat, root: nat, high: bool)
    requires selfRef < 512 && 1 <= level <= 4 && p < 0x10_0000_0000
    ensures TableWindow(selfRef, level, p, high) == Window(selfRef, Place(root, level, Over(p, level)), high)
  {
    var i4, i3, i2 := Index(p, 4), Index(p, 3), Index(p, 2);
    TopOver(p);
    IndexStep(p, 4);
    IndexStep(p, 3);
    IndexStep(p, 2);
    if level == 4 { JoinWindow(selfRef, SENTINEL, SENTINEL, SENTINEL, high); }
    else if level == 3 { JoinWindow(selfRef, i4, SENTINEL, SENTINEL, high); }
    else if level == 2 { JoinWindow(selfRef, i4, i3, SENTINEL, high); }
    else { JoinWindow(selfRef, i4, i3, i2, high); }
  }

  /** Under self-reference index 0 windows lie among low addresses, none below 2^30, and the window of
      the first mappable level 1 table is at 2^30: a frame there would be that window's own page. */
  lemma ZeroIndexBound(level: nat, p: nat, high: bool)
    requires 1 <= level <= 4 && p < 0x10_0000_0000 && Index(p, 4) != 0
    ensures TableWindow(0, level, p, high) >= 0x4000_0000
    ensures Index(0x800_0000, 4) == 1 && TableWindow(0, 1, 0x800_0000, high) == 0x4000_0000
  {
    assert Index(0x800_0000, 4) == 1 && Index(0x800_0000, 3) == 0 && Index(0x800_0000, 2) == 0;
  }

  lemma FloorBelow(procs: map<nat, nat>, r: nat)
    requires r in procs
    ensures Floor(procs) <= FloorOf(procs[r])
  {
  }

  lemma FloorWith(procs: map<nat, nat>, r: nat, selfRef: nat)
    requires r !in procs
    ensures Floor(procs[r := selfRef]) == if selfRef == 0 then FloorOf(0) else Floor(procs)
  {
    var procs' := procs[r := selfRef];
    assert forall t | t in procs :: t in procs' && procs'[t] == procs[t];
    assert procs'[r] == selfRef;
  }

  lemma WindowPlace(selfRef: nat, at: Place, high: bool)
    requires selfRef < 512 && NoSentinel(at) && OffSelf(at, selfRef)
    ensures var w := Window(selfRef, at, high);
      w % 4096 == 0 && WindowRegion(w / 4096, high, FloorOf(selfRef)) && w >= FloorOf(selfRef)
  {
    WindowIndexParts(at);
    var n := selfRef * 0x800_0000 + WindowIndex(at.level, at.base);
    var page := WindowPage(n, high);
    assert Window(selfRef, at, high) == 4096 * page;
    ModUnique(4096 * page, 4096, page, 0);
  }

  /** A lower floor only adds to the region. */
  lemma RegionGrows(page: nat, high: bool, floor: nat, floor': nat)
    requires floor' <= floor && WindowRegion(page, high, floor)
    ensures WindowRegion(page, high, floor')
  {
  }

  /** Two tables never share a window. */
  lemma WindowsApart(s: Pts, own: Tree, f: nat, g: nat)
    requires Placed(s, own) && Numbered(s, own) && f in own && g in own && WindowAt(s, own, f) == WindowAt(s, own, g)
    ensures f == g
  {
    hide NoSentinel, Window;
    WindowInjective(s.procs[own[f].root], own[f], s.procs[own[g].root], own[g], s.high);
  }

  lemma WindowAtFacts(s: Pts, own: Tree, f: nat)
    requires Placed(s, own) && Numbered(s, own) && f in own
    ensures var w := WindowAt(s, own, f); w % 4096 == 0 && w >= Floor(s.procs) && WindowRegion(w / 4096, s.high, Floor(s.procs))
  {
    hide NoSentinel, Window, WindowRegion, OffSelf, FloorOf;
    WindowPlace(s.procs[own[f].root], own[f], s.high);
    FloorBelow(s.procs, own[f].root);
    RegionGrows(WindowAt(s, own, f) / 4096, s.high, FloorOf(s.procs[own[f].root]), Floor(s.procs));
  }

  lemma {:induction false} MirrorFound(mirrors: seq<Mirror>, f: nat, w: nat)
    requires forall k | 0 <= k < |mirrors| && mirrors[k].frame == f :: mirrors[k].base == w
    requires exists k :: 0 <= k < |mirrors| && mirrors[k].frame == f
    ensures MirrorOf(mirrors, f) == Some(w)
  {
    if mirrors[0].frame != f {
      var k :| 0 <= k < |mirrors| && mirrors[k].frame == f;
      assert mirrors[1..][k - 1].frame == f;
      MirrorFound(mirrors[1..], f, w);
    }
  }

  // ------------------------------------------------------------ entry writes

  /** m' is m with the bytes bs at a and at b. */
  ghost predicate WroteBoth(m: Store, m': Store, a: nat, b: nat, bs: seq<Byte>) {
    && m'.Keys == m.Keys + {a / 4096, b / 4096}
    && forall x: nat :: Get(m', x) == if b <= x < b + |bs| then bs[x - b] else if a <= x < a + |bs| then bs[x - a] else Get(m, x)
  }

  lemma TouchedOne(a: nat, n: nat)
    requires 0 < n && a % 4096 + n <= 4096
    ensures Touched(a, n) == {a / 4096}
  {
    forall q: nat
      ensures Meets(q, a, n) <==> q == a / 4096
    {
      ModUnique(a + n - 1, 4096, a / 4096, a % 4096 + n - 1);
    }
  }

  lemma TwoWrites(m: Store, a: nat, b: nat, v: int)
    requires a % 4096 + 8 <= 4096 && b % 4096 + 8 <= 4096
    ensures WroteBoth(m, W64(W64(m, a, v), b, v), a, b, ToLE(v, 8))
  {
    hide Put, Get, Touched;
    PutGet(m, a, ToLE(v, 8));
    PutGet(W64(m, a, v), b, ToLE(v, 8));
    TouchedOne(a, 8);
    TouchedOne(b, 8);
  }

  lemma SlotPage(f: nat, i: nat)
    requires f % 4096 == 0 && i < 512
    ensures (f + 8 * i) / 4096 == f / 4096 && (f + 8 * i) / 4096 * 4096 == f && (f + 8 * i) % 4096 == 8 * i
  {
    ModUnique(f + 8 * i, 4096, f / 4096, 8 * i);
  }

  lemma TwinsWrite(m: Store, m': Store, f: nat, w: nat, a: nat, b: nat, x: nat, bs: seq<Byte>)
    requires f % 4096 == 0 && w % 4096 == 0 && a % 4096 == 0 && b % 4096 == 0 && f != b && w != a && (f == a <==> w == b)
    requires x + |bs| <= 4096 && WroteBoth(m, m', a + x, b + x, bs) && Twins(m, f, w)
    ensures Twins(m', f, w)
  {
    hide Get;
    forall y: nat | y < 4096
      ensures Get(m', Off(w, y)) == Get(m', Off(f, y))
    {
      assert Get(m, Off(w, y)) == Get(m, Off(f, y));
      if f != a { Apart(f, y, a, x, |bs|); Apart(w, y, b, x, |bs|); }
      Apart(f, y, b, x, |bs|);
      Apart(w, y, a, x, |bs|);
    }
  }

  lemma Apart(f: nat, y: nat, a: nat, x: nat, n: nat)
    requires f % 4096 == 0 && a % 4096 == 0 && f != a && y < 4096 && x + n <= 4096
    ensures f + y < a + x || f + y >= a + x + n
  {
  }

  lemma PokeIs(s: Pts, own: Tree, f: nat, i: nat, e: nat)
    requires Placed(s, own) && Aliased(s, own) && f in own && i < 512
    requires WindowAt(s, own, f) % 4096 == 0
    ensures Poke(s, f + 8 * i, e) ==
      s.(mem := W64(W64(s.mem, f + 8 * i, e), WindowAt(s, own, f) + 8 * i, e))
  {
    hide W64, NoSentinel, WindowAt;
    var w := WindowAt(s, own, f);
    SlotPage(f, i);
    MirrorFound(s.mirrors, f, w);
  }

  /** What poke64 does to memory: the entry's frame slot and window slot get the value. */
  lemma PokeMem(s: Pts, own: Tree, f: nat, i: nat, e: nat)
    requires Base(s, own) && f in own && i < 512 && e < TWO_64
    ensures var s' := Poke(s, f + 8 * i, e);
      && s' == s.(mem := s'.mem)
      && (forall g, j: nat | g in own && j < 512 :: Entry(s'.mem, g, j) == if g == f && j == i then e else Entry(s.mem, g, j))
      && WroteBoth(s.mem, s'.mem, f + 8 * i, WindowAt(s, own, f) + 8 * i, ToLE(e, 8))
  {
    hide Get, Entry, W64, NoSentinel, WroteBoth, Coherent, Clean, WindowAt, EntrySet, Poke, Aliased, Placed, Numbered;
    var w := WindowAt(s, own, f);
    WindowAtFacts(s, own, f);
    PlacedRoot(s, own, f);
    PokeIs(s, own, f, i, e);
    SlotPage(f, i);
    SlotPage(w, i);
    var m1 := W64(s.mem, f + 8 * i, e);
    var m2 := W64(m1, w + 8 * i, e);
    TwoWrites(s.mem, f + 8 * i, w + 8 * i, e);
    SetEntryEffect(s.mem, f, i, e);
    SetEntryEffect(m1, w, i, e);
    PokeEntries(s, own, f, i, e, w, m1, m2);
  }

  lemma PokeTwins(s: Pts, own: Tree, m': Store, f: nat, i: nat, e: nat)
    requires Placed(s, own) && Numbered(s, own) && Coherent(s, own) && f in own && i < 512
    requires WroteBoth(s.mem, m', f + 8 * i, WindowAt(s, own, f) + 8 * i, ToLE(e, 8))
    ensures Coherent(s.(mem := m'), own)
  {
    hide Get, NoSentinel, Window, Twins, WroteBoth, WindowAt;
    var w := WindowAt(s, own, f);
    WindowAtFacts(s, own, f);
    forall g | g in own
      ensures Twins(m', g, WindowAt(s, own, g))
    {
      WindowAtFacts(s, own, g);
      if g != f && WindowAt(s, own, g) == w { WindowsApart(s, own, f, g); }
      TwinsWrite(s.mem, m', g, WindowAt(s, own, g), f, w, 8 * i, ToLE(e, 8));
    }
    WindowMem(s, own, m');
  }

  lemma WindowMem(s: Pts, own: Tree, m': Store)
    ensures forall g :: WindowAt(s.(mem := m'), own, g) == WindowAt(s, own, g)
  {
  }

  /** An entry written through poke64 reaches the frame and its window and nothing else. */
  lemma PokeOk(s: Pts, own: Tree, f: nat, i: nat, e: nat)
    requires Base(s, own) && f in own && i < 512 && e < TWO_64
    ensures var s' := Poke(s, f + 8 * i, e);
      && Base(s', own) && s' == s.(mem := s'.mem)
      && (forall g, j: nat | g in own && j < 512 :: Entry(s'.mem, g, j) == if g == f && j == i then e else Entry(s.mem, g, j))
      && WroteBoth(s.mem, s'.mem, f + 8 * i, WindowAt(s, own, f) + 8 * i, ToLE(e, 8))
  {
    hide Get, Entry, NoSentinel, Window, WroteBoth, Coherent, Poke, WindowAt, Clean, Placed, Numbered, Aliased;
    var w := WindowAt(s, own, f);
    PokeMem(s, own, f, i, e);
    var s' := Poke(s, f + 8 * i, e);
    PokeTwins(s, own, s'.mem, f, i, e);
    WindowAtFacts(s, own, f);
    PlacedRoot(s, own, f);
    BothKeys(s.mem, s'.mem, f + 8 * i, w + 8 * i, ToLE(e, 8));
    SlotPage(f, i);
    SlotPage(w, i);
    CleanKept(s, own, s', f, w);
    BaseMoved(s, own, s'.mem);
  }

  /** Where the frames lie and what they mirror does not depend on the bytes. */
  lemma BaseMoved(s: Pts, own: Tree, m': Store)
    requires Base(s, own) && s.mem.Keys <= m'.Keys
    requires Coherent(s.(mem := m'), own) && Clean(s.(mem := m'), own)
    ensures Base(s.(mem := m'), own)
  {
    hide NoSentinel, WindowAt, Coherent, Clean;
    WindowMem(s, own, m');
  }

  lemma BothKeys(m: Store, m': Store, a: nat, b: nat, bs: seq<Byte>)
    requires WroteBoth(m, m', a, b, bs)
    ensures m'.Keys == m.Keys + {a / 4096, b / 4096}
  {
  }

  lemma PokeEntries(s: Pts, own: Tree, f: nat, i: nat, e: nat, w: nat, m1: Store, m2: Store)
    requires Placed(s, own) && f in own && i < 512 && w >= Floor(s.procs)
    requires EntrySet(s.mem, m1, f, i, e) && EntrySet(m1, m2, w, i, e)
    ensures forall g, j: nat | g in own && j < 512 :: Entry(m2, g, j) == if g == f && j == i then e else Entry(s.mem, g, j)
  {
    hide Entry, Get, NoSentinel;
  }

  lemma CleanKept(s: Pts, own: Tree, s': Pts, f: nat, w: nat)
    requires Clean(s, own) && Placed(s, own) && f in own && w == WindowAt(s, own, f) && w % 4096 == 0
    requires s' == s.(mem := s'.mem) && s'.mem.Keys == s.mem.Keys + {f / 4096, w / 4096}
    ensures Clean(s', own)
  {
    hide NoSentinel, Window;
    forall page | page in s'.mem && WindowRegion(page, s'.high, Floor(s'.procs))
      ensures exists g :: g in own && WindowAt(s', own, g) == page * 4096
    {
      if page in s.mem {
        var g :| g in own && WindowAt(s, own, g) == page * 4096;
        assert WindowAt(s', own, g) == page * 4096;
      } else if page == w / 4096 {
        assert WindowAt(s', own, f) == page * 4096;
      }
    }
  }

  // --------------------------------------------------------- frame allocation

  /** Allocating a frame zeroes it and leaves tables and windows alone. */
  lemma AllocOk(s: Pts, own: Tree)
    requires Base(s, own) && s.next + 4096 <= Floor(s.procs)
    ensures var s' := AllocFrame(s).0;
      && Base(s', own) && s.next !in own && s'.mem.Keys == s.mem.Keys + {s.next / 4096}
      && (forall g: nat, j: nat | g % 4096 == 0 && j < 512 :: Entry(s'.mem, g, j) == if g == s.next then 0 else Entry(s.mem, g, j))
      && (forall x: nat :: Get(s'.mem, x) == if s.next <= x < s.next + 4096 then 0 else Get(s.mem, x))
  {
    hide Get, Entry, Put, NoSentinel, Window, Twins, WindowAt, Touched, Floor, OffSelf, Placed, Numbered, Aliased,
      Coherent, Clean, AllocFrame;
    var s' := AllocFrame(s).0;
    AllocFields(s);
    BasePlaced(s, own);
    NextFrame(s, own);
    ZeroFrameEffect(s.mem, s.next);
    AllocMem(s);
    NextUnused(s, own);
    AllocPlaced(s, own, s');
    AllocCoherent(s, own, s');
    AllocClean(s, own, s');
  }

  lemma AllocMem(s: Pts)
    requires s.next % 4096 == 0
    ensures AllocFrame(s).0.mem == Put(s.mem, s.next, Zeros(4096)) && AllocFrame(s).0.mem.Keys == s.mem.Keys + {s.next / 4096}
  {
    hide Get, Put, Touched;
    PutGet(s.mem, s.next, Zeros(4096));
    TouchedOne(s.next, 4096);
  }

  lemma NextUnused(s: Pts, own: Tree)
    requires Placed(s, own)
    ensures s.next !in own
  {
    hide NoSentinel, OffSelf, Floor;
  }

  lemma AllocPlaced(s: Pts, own: Tree, s': Pts)
    requires Base(s, own) && s.next + 4096 <= Floor(s.procs)
    requires s' == s.(mem := s'.mem, next := s.next + 4096) && s.mem.Keys <= s'.mem.Keys
    ensures Placed(s', own) && Numbered(s', own) && Aliased(s', own)
  {
    hide NoSentinel, OffSelf, Floor, WindowAt, Coherent, Clean;
    WindowMemNext(s, s', own);
  }

  lemma AllocCoherent(s: Pts, own: Tree, s': Pts)
    requires Base(s, own) && s.next + 4096 <= Floor(s.procs) && s.next !in own
    requires s'.procs == s.procs && s'.high == s.high
    requires forall x: nat :: Get(s'.mem, x) == if s.next <= x < s.next + 4096 then 0 else Get(s.mem, x)
    ensures Coherent(s', own)
  {
    hide Get, NoSentinel, OffSelf, Floor, WindowAt, Twins, Placed, Numbered, Aliased, Clean;
    NextFrame(s, own);
    WindowMemNext(s, s', own);
    forall g | g in own
      ensures Twins(s'.mem, g, WindowAt(s', own, g))
    {
      WindowAtFacts(s, own, g);
      TwinsKept(s.mem, s'.mem, g, WindowAt(s, own, g), s.next);
    }
  }

  lemma AllocClean(s: Pts, own: Tree, s': Pts)
    requires Clean(s, own) && s.next + 4096 <= Floor(s.procs)
    requires s'.procs == s.procs && s'.high == s.high && s'.mem.Keys == s.mem.Keys + {s.next / 4096}
    ensures Clean(s', own)
  {
    hide Floor, WindowAt, WindowRegion;
    WindowMemNext(s, s', own);
    LowPage(s.next, s.high, Floor(s.procs));
    forall page | page in s'.mem && WindowRegion(page, s'.high, Floor(s'.procs))
      ensures exists g :: g in own && WindowAt(s', own, g) == page * 4096
    {
      var g :| g in own && WindowAt(s, own, g) == page * 4096;
      assert WindowAt(s', own, g) == page * 4096;
    }
  }

  lemma LowPage(f: nat, high: bool, floor: nat)
    requires f < floor <= 0x80_0000_0000 && floor % 4096 == 0
    ensures !WindowRegion(f / 4096, high, floor)
  {
  }

  lemma WindowMemNext(s: Pts, s': Pts, own: Tree)
    requires s'.procs == s.procs && s'.high == s.high
    ensures forall g :: WindowAt(s', own, g) == WindowAt(s, own, g)
  {
  }

  lemma TwinsKept(m: Store, m': Store, f: nat, w: nat, z: nat)
    requires f % 4096 == 0 && w % 4096 == 0 && z % 4096 == 0 && f != z && w != z && Twins(m, f, w)
    requires forall x: nat :: Get(m', x) == if z <= x < z + 4096 then 0 else Get(m, x)
    ensures Twins(m', f, w)
  {
    hide Get;
    forall x: nat | x < 4096
      ensures Get(m', Off(w, x)) == Get(m', Off(f, x))
    {
      Apart(f, x, z, 0, 4096);
      Apart(w, x, z, 0, 4096);
    }
  }

  /** The state once frame s.next has become the table at a place, mirrored. */
  function WithTable(s: Pts, at: Place, selfRef: nat, procs: map<nat, nat>): Pts {
    AllocFrame(s).0.(mirrors := s.mirrors + [Mirror(s.next, Window(selfRef, at, s.high))], procs := procs)
  }

  /** No page is materialized where windows of the new numbering lie and those of the old do not. */
  ghost predicate RegionKept(s: Pts, procs: map<nat, nat>) {
    forall page | page in s.mem && WindowRegion(page, s.high, Floor(procs)) :: WindowRegion(page, s.high, Floor(s.procs))
  }

  /** A place for a new table: below a known root, or a new root with a new self index. */
  ghost predicate NewPlace(s: Pts, own: Tree, at: Place, selfRef: nat, procs: map<nat, nat>) {
    && NoSentinel(at) && OffSelf(at, selfRef) && (forall f | f in own :: own[f] != at) && selfRef < 512
    && s.next + 4096 <= Floor(procs) && RegionKept(s, procs)
    && if at.level < 4 then procs == s.procs && at.root in procs && procs[at.root] == selfRef
       else at == Place(s.next, 4, 0) && procs == s.procs[s.next := selfRef] && forall r | r in s.procs :: s.procs[r] != selfRef
  }

  /** A process with this index may be made: its root frame is below the floor it brings, and no page is
      materialized where only its windows would lie. For any index but 0 this is the space for one frame. */
  predicate RoomFor(s: Pts, selfRef: nat) {
    && s.next + 4096 <= Floor(s.procs) && s.next + 4096 <= FloorOf(selfRef)
    && forall page | page in s.mem && WindowRegion(page, s.high, FloorOf(selfRef)) :: WindowRegion(page, s.high, Floor(s.procs))
  }

  lemma RoomKept(s: Pts, selfRef: nat)
    requires RoomFor(s, selfRef) && s.next !in s.procs
    ensures var procs := s.procs[s.next := selfRef]; s.next + 4096 <= Floor(procs) && RegionKept(s, procs)
  {
    hide Floor, WindowRegion;
    FloorWith(s.procs, s.next, selfRef);
  }

  lemma NumberedWith(s: Pts, own: Tree, at: Place, selfRef: nat, procs: map<nat, nat>)
    requires Placed(s, own) && Numbered(s, own) && s.next !in own && NewPlace(s, own, at, selfRef, procs)
    ensures var s', own' := WithTable(s, at, selfRef, procs), own[s.next := at];
      && Numbered(s', own')
      && (forall g | g in own :: WindowAt(s', own', g) == WindowAt(s, own, g))
      && WindowAt(s', own', s.next) == Window(selfRef, at, s.high)
  {
    hide NoSentinel, Window, Placed, AllocFrame;
    var s', own' := WithTable(s, at, selfRef, procs), own[s.next := at];
    WithTableIs(s, at, selfRef, procs);
    assert procs[at.root] == selfRef && forall r | r in s.procs :: r in procs && procs[r] == s.procs[r];
    NumberedProcs(s, own, at, selfRef, procs, s', own');
    forall g | g in own
      ensures WindowAt(s', own', g) == WindowAt(s, own, g)
    {
      PlacedRoot(s, own, g);
    }
  }

  lemma PlacedRoot(s: Pts, own: Tree, g: nat)
    requires Placed(s, own) && g in own
    ensures own[g].root in s.procs && NoSentinel(own[g]) && g < s.next && g % 4096 == 0 && g > 0
  {
    hide NoSentinel;
  }

  lemma NumberedProcs(s: Pts, own: Tree, at: Place, selfRef: nat, procs: map<nat, nat>, s': Pts, own': Tree)
    requires Numbered(s, own) && s.next !in own && NewPlace(s, own, at, selfRef, procs)
    requires s'.procs == procs && own' == own[s.next := at]
    ensures Numbered(s', own')
  {
    hide NoSentinel;
  }

  /** No window is taken, or even materialized, at a new place. */
  lemma NewWindow(s: Pts, own: Tree, at: Place, selfRef: nat, procs: map<nat, nat>)
    requires Base(s, own) && s.next !in own && NewPlace(s, own, at, selfRef, procs)
    ensures var w := Window(selfRef, at, s.high);
      && w % 4096 == 0 && w >= Floor(procs) && w / 4096 !in s.mem && !BaseTaken(s.mirrors, w)
  {
    hide NoSentinel, Window, WindowRegion, Coherent, Get;
    var w := Window(selfRef, at, s.high);
    WindowPlace(selfRef, at, s.high);
    forall f | f in own
      ensures WindowAt(s, own, f) != w
    {
      if WindowAt(s, own, f) == w {
        WindowInjective(s.procs[own[f].root], own[f], selfRef, at, s.high);
        assert false;
      }
    }
    FloorBelow(procs, at.root);
    RegionGrows(w / 4096, s.high, FloorOf(selfRef), Floor(procs));
    if w / 4096 in s.mem {
      assert false;
    }
  }

  lemma AddTable(s: Pts, own: Tree, at: Place, selfRef: nat, procs: map<nat, nat>)
    requires Base(s, own) && s.next + 4096 <= Floor(s.procs) && s.next !in own && NewPlace(s, own, at, selfRef, procs)
    ensures Base(WithTable(s, at, selfRef, procs), own[s.next := at])
  {
    hide Get, Entry, Put, NoSentinel, Window, Twins, WindowAt, AllocFrame, WindowRegion, Placed, Numbered, Aliased,
      Coherent, Clean, WithTable, NewPlace, OffSelf, Floor, RegionKept;
    var s1 := AllocFrame(s).0;
    var s', own' := WithTable(s, at, selfRef, procs), own[s.next := at];
    AllocOk(s, own);
    AllocFields(s);
    NumberedWith(s, own, at, selfRef, procs);
    NewWindow(s, own, at, selfRef, procs);
    WindowMemNext(s, s1, own);
    WithTableIs(s, at, selfRef, procs);
    RootsIn(s, own);
    NewPlaceOk(s, own, at, selfRef, procs);
    AddCoherent(s1, own, s', own', s.next);
    AddAliased(s, own, at, selfRef, procs, s', own');
    RegionFrame(s, s1, procs);
    AddClean(s1, own, s', own', s.next);
    AddPlaced(s, s1, own, at, s');
  }

  lemma WithTableIs(s: Pts, at: Place, selfRef: nat, procs: map<nat, nat>)
    ensures var s' := WithTable(s, at, selfRef, procs); var s1 := AllocFrame(s).0;
      s'.mem == s1.mem && s'.next == s.next + 4096 && s'.procs == procs && s'.high == s.high
  {
    hide Put;
  }

  lemma AddCoherent(s1: Pts, own: Tree, s': Pts, own': Tree, nt: nat)
    requires Coherent(s1, own) && s'.mem == s1.mem && nt in own' && forall g | g in own' :: g in own || g == nt
    requires forall g | g in own :: WindowAt(s', own', g) == WindowAt(s1, own, g)
    requires forall x: nat | nt <= x < nt + 4096 :: Get(s1.mem, x) == 0
    requires WindowAt(s', own', nt) % 4096 == 0 && WindowAt(s', own', nt) / 4096 !in s1.mem
    ensures Coherent(s', own')
  {
    hide WindowAt, Get, Twins;
    NewTwins(s1.mem, nt, WindowAt(s', own', nt));
  }

  lemma AddClean(s1: Pts, own: Tree, s': Pts, own': Tree, nt: nat)
    requires Clean(s1, own) && s'.mem == s1.mem && s'.high == s1.high && forall g | g in own :: g in own'
    requires forall g | g in own :: WindowAt(s', own', g) == WindowAt(s1, own, g)
    requires RegionKept(s1, s'.procs)
    ensures Clean(s', own')
  {
    hide WindowAt, WindowRegion;
    forall page | page in s'.mem && WindowRegion(page, s'.high, Floor(s'.procs))
      ensures exists g :: g in own' && WindowAt(s', own', g) == page * 4096
    {
      var g :| g in own && WindowAt(s1, own, g) == page * 4096;
      assert WindowAt(s', own', g) == page * 4096;
    }
  }

  lemma AddPlaced(s: Pts, s1: Pts, own: Tree, at: Place, s': Pts)
    requires Placed(s, own) && Placed(s1, own) && s1.next == s.next + 4096 && s.next / 4096 in s1.mem && s.next !in own
    requires s'.mem == s1.mem && s'.next == s1.next && s.procs.Keys <= s'.procs.Keys
    requires NoSentinel(at) && at.root in s'.procs && (at.level == 4 <==> at == Place(s.next, 4, 0))
    requires forall f | f in own :: own[f] != at
    requires s'.next <= Floor(s'.procs) && OffSelf(at, s'.procs[at.root]) && forall r | r in s.procs :: s'.procs[r] == s.procs[r]
    ensures Placed(s', own[s.next := at])
  {
    hide NoSentinel, OffSelf, Floor;
  }

  /** The new frame lies below the floor, outside every window. */
  lemma RegionFrame(s: Pts, s1: Pts, procs: map<nat, nat>)
    requires RegionKept(s, procs) && s.next + 4096 <= Floor(procs) && s1.procs == s.procs && s1.high == s.high
    requires s1.mem.Keys == s.mem.Keys + {s.next / 4096}
    ensures RegionKept(s1, procs)
  {
    hide Floor, WindowRegion;
    LowPage(s.next, s.high, Floor(procs));
  }

  lemma AllocFields(s: Pts)
    ensures AllocFrame(s).0 == s.(mem := AllocFrame(s).0.mem, next := s.next + 4096) && AllocFrame(s).1 == s.next
  {
  }

  lemma NewPlaceOk(s: Pts, own: Tree, at: Place, selfRef: nat, procs: map<nat, nat>)
    requires NewPlace(s, own, at, selfRef, procs) && s.next !in s.procs
    ensures NoSentinel(at) && at.root in procs && (at.level == 4 <==> at == Place(s.next, 4, 0))
    ensures forall f | f in own :: own[f] != at
    ensures s.procs.Keys <= procs.Keys && OffSelf(at, procs[at.root]) && s.next + 4096 <= Floor(procs) && RegionKept(s, procs)
    ensures forall r | r in s.procs :: procs[r] == s.procs[r]
  {
  }

  lemma NewTwins(m: Store, f: nat, w: nat)
    requires forall x: nat | f <= x < f + 4096 :: Get(m, x) == 0
    requires w % 4096 == 0 && w / 4096 !in m
    ensures Twins(m, f, w)
  {
    forall x: nat | x < 4096
      ensures Get(m, Off(w, x)) == Get(m, Off(f, x))
    {
      ModUnique(w + x, 4096, w / 4096, x);
    }
  }

  lemma AddAliased(s: Pts, own: Tree, at: Place, selfRef: nat, procs: map<nat, nat>, s': Pts, own': Tree)
    requires Aliased(s, own) && s.next !in own && s' == WithTable(s, at, selfRef, procs) && own' == own[s.next := at]
    requires forall g | g in own :: WindowAt(s', own', g) == WindowAt(s, own, g)
    requires WindowAt(s', own', s.next) == Window(selfRef, at, s.high)
    ensures Aliased(s', own')
  {
    hide WindowAt, Window, AllocFrame;
    AllocFields(s);
    forall f | f in own'
      ensures exists k :: 0 <= k < |s'.mirrors| && s'.mirrors[k].frame == f
    {
      if f == s.next {
        assert s'.mirrors[|s.mirrors|].frame == f;
      } else {
        var k :| 0 <= k < |s.mirrors| && s.mirrors[k].frame == f;
        assert s'.mirrors[k].frame == f;
      }
    }
  }

  // ----------------------------------------------------------- links and pages

  lemma LinkBits(user: bool)
    ensures var b := 0x23 + (if user then 4 else 0);
      Present(b) && !Large(b) && Writable(b) && Accessed(b) && !Dirty(b) && User(b) == user
  {
  }

  lemma LinkFields(frame: nat, user: bool)
    requires frame % 4096 == 0 && 0 < frame < 0x80_0000_0000
    ensures var e := LinkValue(frame, user);
      && e < TWO_64 && Present(e) && !Large(e) && e / 4096 != 0 && e / 4096 * 4096 == frame
      && Writable(e) && Accessed(e) && !Dirty(e) && User(e) == user
  {
    hide Present, Large, Writable, User, Accessed, Dirty;
    var low := 0x23 + (if user then 4 else 0);
    var n := frame / 4096;
    assert frame == 4096 * n;
    var e := LinkValue(frame, user);
    ModUnique(e, 4096, n, low);
    ModUnique(e, 256, 16 * n, low);
    LowFlags(e);
    LinkBits(user);
  }

  /** The level 1 entry that governs page p below root r; zero when there is none. */
  ghost function PteOf(m: Store, own: Tree, r: nat, p: nat): nat {
    if exists f :: f in own && own[f] == Place(r, 1, p / 512)
    then var f :| f in own && own[f] == Place(r, 1, p / 512); Entry(m, f, p % 512)
    else 0
  }

  lemma PteAt(s: Pts, own: Tree, m: Store, r: nat, p: nat, f: nat)
    requires Placed(s, own) && f in own && own[f] == Place(r, 1, p / 512)
    ensures PteOf(m, own, r, p) == Entry(m, f, p % 512)
  {
    hide NoSentinel, Entry;
  }

  /** Index digits of a mappable page. */
  predicate PathOk(p: nat, selfRef: nat) {
    && p < 0x10_0000_0000
    && Index(p, 4) != selfRef && Index(p, 4) != SENTINEL && Index(p, 3) != SENTINEL && Index(p, 2) != SENTINEL
  }

  lemma PathPlace(p: nat, selfRef: nat, root: nat, level: nat)
    requires PathOk(p, selfRef) && 1 <= level <= 3
    ensures NoSentinel(Place(root, level, Over(p, level))) && OffSelf(Place(root, level, Over(p, level)), selfRef)
  {
    TopOver(p);
    IndexStep(p, 4);
    IndexStep(p, 3);
    IndexStep(p, 2);
    var i4, i3, i2 := Index(p, 4), Index(p, 3), Index(p, 2);
    ModUnique(Over(p, 2), 512, i4, i3);
    ModUnique(Over(p, 1), 512, i4 * 512 + i3, i2);
    ModUnique(Over(p, 1), 0x4_0000, i4, i3 * 512 + i2);
  }

  /** Rewriting a link that keeps its frame keeps the tree. */
  lemma RelinkOk(s: Pts, own: Tree, t: nat, i: nat, user: bool, s': Pts)
    requires Good(s, own) && t in own && own[t].level > 1 && i < 512 && !Exempt(own, s.procs, t, i)
    requires Entry(s.mem, t, i) / 4096 != 0
    requires s' == Poke(s, t + 8 * i, LinkValue(Entry(s.mem, t, i) / 4096 * 4096, user))
    ensures Good(s', own) && s' == s.(mem := s'.mem)
    ensures forall r, q: nat :: PteOf(s'.mem, own, r, q) == PteOf(s.mem, own, r, q)
  {
    hide Get, Entry, NoSentinel, Base, Poke, WroteBoth, PteOf, LinkValue, Present, Large, Floor, OffSelf, Placed, Numbered;
    var f := Entry(s.mem, t, i) / 4096 * 4096;
    assert LinkOk(s.mem, own, s.procs, t, i);
    BasePlaced(s, own);
    LinkedFrame(s, own, t, i);
    LinkFields(f, user);
    PokeOk(s, own, t, i, LinkValue(f, user));
    forall g, j: nat | g in own && own[g].level > 1 && j < 512
      ensures LinkOk(s'.mem, own, s'.procs, g, j)
    {
      assert LinkOk(s.mem, own, s.procs, g, j);
    }
    forall g | g in own && own[g].level < 4
      ensures exists h :: HangsFrom(s'.mem, own, s'.procs, g, h)
    {
      var h :| HangsFrom(s.mem, own, s.procs, g, h);
      assert HangsFrom(s'.mem, own, s'.procs, g, h);
    }
    PtesKept(s, own, s.mem, s'.mem, t);
  }

  lemma LinkedFrame(s: Pts, own: Tree, t: nat, i: nat)
    requires Placed(s, own) && t in own && own[t].level > 1
    requires var e := Entry(s.mem, t, i); e / 4096 * 4096 in own
    ensures var f := Entry(s.mem, t, i) / 4096 * 4096; f % 4096 == 0 && 0 < f < 0x80_0000_0000
  {
    hide NoSentinel, Entry;
  }

  /** Entries above level 1 decide no page's leaf. */
  lemma PtesKept(s: Pts, own: Tree, m: Store, m': Store, t: nat)
    requires Placed(s, own) && t in own && own[t].level > 1
    requires forall g, j: nat | g in own && j < 512 && g != t :: Entry(m', g, j) == Entry(m, g, j)
    ensures forall r, q: nat :: PteOf(m', own, r, q) == PteOf(m, own, r, q)
  {
    hide NoSentinel, Entry;
    forall r, q: nat
      ensures PteOf(m', own, r, q) == PteOf(m, own, r, q)
    {
      if f :| f in own && own[f] == Place(r, 1, q / 512) {
        PteAt(s, own, m, r, q, f);
        PteAt(s, own, m', r, q, f);
      }
    }
  }

  /** An empty entry has no table below its place. */
  lemma EmptyChild(s: Pts, own: Tree, t: nat, i: nat)
    requires Good(s, own) && t in own && own[t].level > 1 && i < 512 && Entry(s.mem, t, i) / 4096 == 0
    ensures forall f | f in own :: own[f] != Child(own[t], i)
  {
    hide NoSentinel, Entry, Placed, Numbered, Aliased, Coherent, Clean;
    forall f | f in own
      ensures own[f] != Child(own[t], i)
    {
      PlacedRoot(s, own, f);
      PlacedLevel(s, own, t);
      if own[f] == Child(own[t], i) { FullChild(s, own, t, i, f); }
    }
  }

  lemma FullChild(s: Pts, own: Tree, t: nat, i: nat, f: nat)
    requires Placed(s, own) && Up(s.mem, own, s.procs) && t in own && 1 < own[t].level <= 4 && i < 512
    requires f in own && own[f] == Child(own[t], i)
    ensures Entry(s.mem, t, i) / 4096 * 4096 == f
  {
    hide NoSentinel, Entry, Placed;
    ModUnique(own[f].base, 512, own[t].base, i);
    var g :| HangsFrom(s.mem, own, s.procs, f, g);
    SamePlace(s, own, g, t);
  }

  lemma PlacedLevel(s: Pts, own: Tree, t: nat)
    requires Placed(s, own) && t in own
    ensures 1 <= own[t].level <= 4
  {
  }

  lemma BasePlaced(s: Pts, own: Tree)
    requires Base(s, own)
    ensures Placed(s, own) && Numbered(s, own)
  {
  }

  lemma SamePlace(s: Pts, own: Tree, f: nat, g: nat)
    requires Placed(s, own) && f in own && g in own && own[f] == own[g]
    ensures f == g
  {
    hide NoSentinel;
  }

  lemma HangMem(s: Pts, own: Tree, t: nat, i: nat, selfRef: nat, user: bool, s': Pts)
    requires Base(s, own) && t in own && own[t].level > 1 && i < 512 && !Exempt(own, s.procs, t, i)
    requires forall f | f in own :: own[f] != Child(own[t], i)
    requires Entry(s.mem, t, i) / 4096 == 0 && s.next + 4096 <= Floor(s.procs)
    requires own[t].root in s.procs && s.procs[own[t].root] == selfRef && NoSentinel(Child(own[t], i)) && OffSelf(Child(own[t], i), selfRef)
    requires s' == Poke(WithTable(s, Child(own[t], i), selfRef, s.procs), t + 8 * i, LinkValue(s.next, user))
    ensures var own' := own[s.next := Child(own[t], i)];
      && Base(s', own') && HungAs(s, own, t, i, s', own', LinkValue(s.next, user))
      && s'.next == s.next + 4096 && s'.high == s.high
  {
    hide Get, Entry, NoSentinel, Base, Placed, Numbered, Poke, WroteBoth, LinkValue, Present, Large, WithTable, Window, AllocFrame;
    var at := Child(own[t], i);
    var own' := own[s.next := at];
    var s1 := WithTable(s, at, selfRef, s.procs);
    BasePlaced(s, own);
    PlacedLevel(s, own, t);
    AllocOk(s, own);
    NewNumber(s, own, own[t].root);
    AddTable(s, own, at, selfRef, s.procs);
    WithTableIs(s, at, selfRef, s.procs);
    NextFrame(s, own);
    LinkFields(s.next, user);
    PokeOk(s1, own', t, i, LinkValue(s.next, user));
    HungEntries(s, own, s1, own', at, t, i, LinkValue(s.next, user), s');
    RootsIn(s, own);
  }

  lemma RootsIn(s: Pts, own: Tree)
    requires Numbered(s, own)
    ensures forall r | r in s.procs :: r in own
  {
  }

  /** Hanging the new table s.next under the empty entry (t, i). */
  lemma HangOk(s: Pts, own: Tree, t: nat, i: nat, selfRef: nat, user: bool, s': Pts)
    requires Good(s, own) && t in own && own[t].level > 1 && i < 512 && !Exempt(own, s.procs, t, i)
    requires Entry(s.mem, t, i) / 4096 == 0 && s.next + 4096 <= Floor(s.procs)
    requires own[t].root in s.procs && s.procs[own[t].root] == selfRef && NoSentinel(Child(own[t], i)) && OffSelf(Child(own[t], i), selfRef)
    requires s' == Poke(WithTable(s, Child(own[t], i), selfRef, s.procs), t + 8 * i, LinkValue(s.next, user))
    ensures var own' := own[s.next := Child(own[t], i)];
      && Good(s', own') && s.next !in own && s'.next == s.next + 4096 && s'.procs == s.procs && s'.high == s.high
      && (forall r, q: nat :: PteOf(s'.mem, own', r, q) == PteOf(s.mem, own, r, q))
  {
    hide Get, Entry, NoSentinel, Base, Placed, Numbered, Poke, PteOf, LinkValue, Present, Large, WithTable, Links, Up;
    var own' := own[s.next := Child(own[t], i)];
    var e := LinkValue(s.next, user);
    EmptyChild(s, own, t, i);
    HangMem(s, own, t, i, selfRef, user, s');
    BasePlaced(s, own);
    BasePlaced(s', own');
    PlacedPositive(s, own);
    HungLinks(s, own, t, i, s', own', e);
    HungUp(s, own, t, i, s', own', e);
    HungPtes(s, own, t, i, s', own');
  }

  lemma PlacedPositive(s: Pts, own: Tree)
    requires Placed(s, own)
    ensures forall f | f in own :: f != 0
  {
    hide NoSentinel;
  }

  lemma NewNumber(s: Pts, own: Tree, r: nat)
    requires Numbered(s, own) && r in s.procs
    ensures s.procs[r] < 512 && r in own && own[r].level == 4
  {
  }

  lemma NextFrame(s: Pts, own: Tree)
    requires Placed(s, own)
    ensures s.next % 4096 == 0 && 0 < s.next
    ensures forall f | f in own :: f % 4096 == 0
  {
    hide NoSentinel;
  }

  lemma HungEntries(s: Pts, own: Tree, s1: Pts, own': Tree, at: Place, t: nat, i: nat, e: nat, s': Pts)
    requires t in own && s.next !in own && own' == own[s.next := at] && i < 512
    requires s.next % 4096 == 0 && forall f | f in own :: f % 4096 == 0
    requires forall g: nat, j: nat | g % 4096 == 0 && j < 512 :: Entry(s1.mem, g, j) == if g == s.next then 0 else Entry(s.mem, g, j)
    requires forall g, j: nat | g in own' && j < 512 :: Entry(s'.mem, g, j) == if g == t && j == i then e else Entry(s1.mem, g, j)
    ensures forall g, j: nat | g in own' && j < 512 ::
      Entry(s'.mem, g, j) == if g == t && j == i then e else if g == s.next then 0 else Entry(s.mem, g, j)
  {
    hide Entry;
  }

  /** Entries after hanging: the link e at (t, i), zeros in the new table, the rest kept. */
  ghost predicate HungAs(s: Pts, own: Tree, t: nat, i: nat, s': Pts, own': Tree, e: nat) {
    && t in own && own[t].level > 1 && i < 512 && s.next !in own && own' == own[s.next := Child(own[t], i)]
    && s'.procs == s.procs && (forall r | r in s.procs :: r in own)
    && (forall g, j: nat | g in own' && j < 512 ::
          Entry(s'.mem, g, j) == if g == t && j == i then e else if g == s.next then 0 else Entry(s.mem, g, j))
    && !Exempt(own, s.procs, t, i) && Entry(s.mem, t, i) / 4096 == 0
    && Present(e) && !Large(e) && e / 4096 * 4096 == s.next && e / 4096 != 0
  }

  lemma HungLinks(s: Pts, own: Tree, t: nat, i: nat, s': Pts, own': Tree, e: nat)
    requires HungAs(s, own, t, i, s', own', e) && Links(s.mem, own, s.procs)
    ensures Links(s'.mem, own', s'.procs)
  {
    hide Entry, Present, Large;
    ZeroAbsent();
    forall g, j: nat | g in own' && own'[g].level > 1 && j < 512
      ensures LinkOk(s'.mem, own', s'.procs, g, j)
    {
      if g != s.next { assert LinkOk(s.mem, own, s.procs, g, j); }
    }
  }

  lemma HungUp(s: Pts, own: Tree, t: nat, i: nat, s': Pts, own': Tree, e: nat)
    requires HungAs(s, own, t, i, s', own', e) && Up(s.mem, own, s.procs) && forall f | f in own :: f != 0
    ensures Up(s'.mem, own', s'.procs)
  {
    hide Entry, Present, Large;
    forall g | g in own' && own'[g].level < 4
      ensures exists h :: HangsFrom(s'.mem, own', s'.procs, g, h)
    {
      if g == s.next {
        ModUnique(own'[g].base, 512, own[t].base, i);
        assert HangsFrom(s'.mem, own', s'.procs, g, t);
      } else {
        var h :| HangsFrom(s.mem, own, s.procs, g, h);
        assert HangsFrom(s'.mem, own', s'.procs, g, h);
      }
    }
  }

  lemma HungPtes(s: Pts, own: Tree, t: nat, i: nat, s': Pts, own': Tree)
    requires Placed(s, own) && Placed(s', own') && t in own && own[t].level > 1 && i < 512
    requires s.next !in own && own' == own[s.next := Child(own[t], i)]
    requires forall f | f in own :: own[f] != Child(own[t], i)
    requires forall g, j: nat | g in own' && j < 512 && g != t ::
          Entry(s'.mem, g, j) == if g == s.next then 0 else Entry(s.mem, g, j)
    ensures forall r, q: nat :: PteOf(s'.mem, own', r, q) == PteOf(s.mem, own, r, q)
  {
    hide NoSentinel, Entry;
    forall r, q: nat
      ensures PteOf(s'.mem, own', r, q) == PteOf(s.mem, own, r, q)
    {
      if f :| f in own' && own'[f] == Place(r, 1, q / 512) {
        PteAt(s', own', s'.mem, r, q, f);
        if f != s.next { PteAt(s, own, s.mem, r, q, f); }
      }
    }
  }

  // ------------------------------------------------------------------ mapping

  /** The tree grew and only page p of root r has a new leaf. */
  ghost predicate MappedOnly(s: Pts, own: Tree, r: nat, p: nat, leaf: nat, s': Pts, own': Tree) {
    && Good(s', own') && s'.procs == s.procs && s'.high == s.high && s.next <= s'.next
    && (forall f | f in own :: f in own' && own'[f] == own[f])
    && (forall t, q: nat :: PteOf(s'.mem, own', t, q) == if t == r && q == p then leaf else PteOf(s.mem, own, t, q))
  }

  lemma LeafPoke(s: Pts, own: Tree, t: nat, p: nat, leaf: nat)
    requires Good(s, own) && t in own && own[t].level == 1 && OnPath(own[t], own[t].root, p) && leaf < TWO_64
    ensures MappedOnly(s, own, own[t].root, p, leaf, Poke(s, t + 8 * Index(p, 1), leaf), own)
    ensures Poke(s, t + 8 * Index(p, 1), leaf).next == s.next
  {
    hide Get, Entry, NoSentinel, Base, Poke, WroteBoth, PteOf, Present, Large, Floor, OffSelf, Placed, Numbered;
    var i := Index(p, 1);
    var s' := Poke(s, t + 8 * i, leaf);
    BasePlaced(s, own);
    PokeOk(s, own, t, i, leaf);
    forall g, j: nat | g in own && own[g].level > 1 && j < 512
      ensures LinkOk(s'.mem, own, s'.procs, g, j)
    {
      assert LinkOk(s.mem, own, s.procs, g, j);
    }
    LeafUp(s, own, t, s');
    forall r, q: nat
      ensures PteOf(s'.mem, own, r, q) == if r == own[t].root && q == p then leaf else PteOf(s.mem, own, r, q)
    {
      LeafPte(s, own, t, p, leaf, s', r, q);
    }
  }

  lemma LeafUp(s: Pts, own: Tree, t: nat, s': Pts)
    requires Up(s.mem, own, s.procs) && t in own && own[t].level == 1 && s'.procs == s.procs && Placed(s, own)
    requires forall g, j: nat | g in own && j < 512 && g != t :: Entry(s'.mem, g, j) == Entry(s.mem, g, j)
    ensures Up(s'.mem, own, s'.procs)
  {
    hide Entry, NoSentinel;
    forall g | g in own && own[g].level < 4
      ensures exists h :: HangsFrom(s'.mem, own, s'.procs, g, h)
    {
      PlacedLevel(s, own, g);
      var h :| HangsFrom(s.mem, own, s.procs, g, h);
      assert HangsFrom(s'.mem, own, s'.procs, g, h);
    }
  }

  lemma LeafPte(s: Pts, own: Tree, t: nat, p: nat, leaf: nat, s': Pts, r: nat, q: nat)
    requires Placed(s, own) && t in own && own[t].level == 1 && OnPath(own[t], own[t].root, p)
    requires forall g, j: nat | g in own && j < 512 ::
      Entry(s'.mem, g, j) == if g == t && j == Index(p, 1) then leaf else Entry(s.mem, g, j)
    ensures PteOf(s'.mem, own, r, q) == if r == own[t].root && q == p then leaf else PteOf(s.mem, own, r, q)
  {
    hide NoSentinel, Entry;
    assert own[t] == Place(own[t].root, 1, p / 512) && Index(p, 1) == p % 512;
    if f :| f in own && own[f] == Place(r, 1, q / 512) {
      PteAt(s, own, s.mem, r, q, f);
      PteAt(s, own, s'.mem, r, q, f);
      if f == t {
        assert r == own[t].root && q / 512 == p / 512;
      } else if r == own[t].root && q == p {
        SamePlace(s, own, f, t);
      }
    } else {
      assert !(r == own[t].root && q == p);
    }
  }

  /** The tree with the tables missing on the path of page p below this level, on the frames from next on. */
  ghost function Grown(own: Tree, next: nat, root: nat, level: nat, p: nat): Tree
    decreases level
  {
    if level <= 1 then own
    else
      var at := Place(root, level - 1, Over(p, level - 1));
      if exists f :: f in own && own[f] == at then Grown(own, next, root, level - 1, p)
      else Grown(own[next := at], next + 4096, root, level - 1, p)
  }

  /** Below a table on the path of a mappable page no alias ever collides: the missing tables are
      made, and when the level 1 entry is written only that page has changed. */
  lemma {:induction false} DescendOk(s: Pts, own: Tree, t: nat, p: nat, user: bool, leaf: nat) returns (own': Tree)
    requires Good(s, own) && t in own && 1 <= own[t].level <= 4 && OnPath(own[t], own[t].root, p)
    requires own[t].root in s.procs && PathOk(p, s.procs[own[t].root]) && leaf < TWO_64
    requires s.next + 4096 * (own[t].level - 1) <= Floor(s.procs)
    ensures var (s', r) := DescendMap(s, s.procs[own[t].root], t, own[t].level, p, user, leaf);
      && r.Ok? && MappedOnly(s, own, own[t].root, p, leaf, s', own')
      && own' == Grown(own, s.next, own[t].root, own[t].level, p)
      && s'.next <= s.next + 4096 * (own[t].level - 1)
    decreases own[t].level
  {
    hide Get, U64, NoSentinel, Base, Poke, Present, Large, PteOf, AllocStructFrame, LinkValue, TableWindow, PathOk,
      Links, Up, Index, Floor, OffSelf, WithTable, Grown, DescendMap;
    var l := own[t].level;
    own' := own;
    if l == 1 {
      LeafPoke(s, own, t, p, leaf);
      DescendLast(s, own, t, p, user, leaf);
    } else if Entry(s.mem, t, Index(p, l)) / 4096 == 0 {
      var s1 := DescendHang(s, own, t, p, user, leaf);
      own' := DescendOk(s1, own[s.next := Child(own[t], Index(p, l))], s.next, p, user, leaf);
    } else {
      var s1 := DescendLinked(s, own, t, p, user, leaf);
      own' := DescendOk(s1, own, Entry(s.mem, t, Index(p, l)) / 4096 * 4096, p, user, leaf);
    }
  }

  lemma DescendLast(s: Pts, own: Tree, t: nat, p: nat, user: bool, leaf: nat)
    requires t in own && own[t].level == 1 && own[t].root in s.procs
    ensures DescendMap(s, s.procs[own[t].root], t, 1, p, user, leaf) == (Poke(s, t + 8 * Index(p, 1), leaf), Ok(()))
    ensures Grown(own, s.next, own[t].root, 1, p) == own
  {
    hide Poke, Index;
  }

  /** One step down through an empty entry: a new table is hung there. */
  lemma DescendHang(s: Pts, own: Tree, t: nat, p: nat, user: bool, leaf: nat) returns (s1: Pts)
    requires Good(s, own) && t in own && 1 < own[t].level <= 4 && OnPath(own[t], own[t].root, p)
    requires own[t].root in s.procs && PathOk(p, s.procs[own[t].root]) && s.next + 4096 <= Floor(s.procs)
    requires Entry(s.mem, t, Index(p, own[t].level)) / 4096 == 0
    ensures var l, root := own[t].level, own[t].root; var at := Child(own[t], Index(p, l)); var own1 := own[s.next := at];
      && Good(s1, own1) && s.next !in own && s1.next == s.next + 4096 && s1.procs == s.procs && s1.high == s.high
      && OnPath(at, root, p) && (forall r, q: nat :: PteOf(s1.mem, own1, r, q) == PteOf(s.mem, own, r, q))
      && DescendMap(s, s.procs[root], t, l, p, user, leaf) == DescendMap(s1, s.procs[root], s.next, l - 1, p, user, leaf)
      && Grown(own, s.next, root, l, p) == Grown(own1, s1.next, root, l - 1, p)
  {
    hide Get, Entry, NoSentinel, Base, Poke, Present, Large, PteOf, AllocStructFrame, LinkValue, TableWindow, PathOk,
      Links, Up, Index, Floor, OffSelf, WithTable;
    var l, root := own[t].level, own[t].root;
    var i := Index(p, l);
    NotExempt(s, own, t, p);
    IndexStep(p, l);
    s1 := Poke(WithTable(s, Child(own[t], i), s.procs[root], s.procs), t + 8 * i, LinkValue(s.next, user));
    StructAlloc(s, own, t, p);
    PathPlaceChild(s, own, t, p);
    EmptyChild(s, own, t, i);
    HangOk(s, own, t, i, s.procs[root], user, s1);
    EntryAt(s.mem, t, i);
  }

  /** One step down through a link, which is rewritten with its frame. */
  lemma DescendLinked(s: Pts, own: Tree, t: nat, p: nat, user: bool, leaf: nat) returns (s1: Pts)
    requires Good(s, own) && t in own && 1 < own[t].level <= 4 && OnPath(own[t], own[t].root, p)
    requires own[t].root in s.procs && PathOk(p, s.procs[own[t].root])
    requires Entry(s.mem, t, Index(p, own[t].level)) / 4096 != 0
    ensures var l, root := own[t].level, own[t].root; var f := Entry(s.mem, t, Index(p, l)) / 4096 * 4096;
      && Good(s1, own) && s1 == s.(mem := s1.mem) && f in own && own[f] == Child(own[t], Index(p, l)) && OnPath(own[f], root, p)
      && (forall r, q: nat :: PteOf(s1.mem, own, r, q) == PteOf(s.mem, own, r, q))
      && DescendMap(s, s.procs[root], t, l, p, user, leaf) == DescendMap(s1, s.procs[root], f, l - 1, p, user, leaf)
      && Grown(own, s.next, root, l, p) == Grown(own, s1.next, root, l - 1, p)
  {
    hide Get, Entry, NoSentinel, Base, Poke, Present, Large, PteOf, AllocStructFrame, LinkValue, TableWindow, PathOk,
      Links, Up, Index, Floor, OffSelf;
    var l, root := own[t].level, own[t].root;
    var i := Index(p, l);
    NotExempt(s, own, t, p);
    IndexStep(p, l);
    LinkedTo(s, own, t, i);
    s1 := Poke(s, t + 8 * i, LinkValue(Entry(s.mem, t, i) / 4096 * 4096, user));
    RelinkOk(s, own, t, i, user, s1);
    EntryAt(s.mem, t, i);
  }

  lemma LinkedTo(s: Pts, own: Tree, t: nat, i: nat)
    requires Links(s.mem, own, s.procs) && t in own && own[t].level > 1 && i < 512 && !Exempt(own, s.procs, t, i)
    requires Entry(s.mem, t, i) / 4096 != 0
    ensures var f := Entry(s.mem, t, i) / 4096 * 4096; f in own && own[f] == Child(own[t], i)
  {
    hide Entry, Present, Large;
    assert LinkOk(s.mem, own, s.procs, t, i);
  }

  lemma NotExempt(s: Pts, own: Tree, t: nat, p: nat)
    requires Base(s, own) && t in own && 1 < own[t].level <= 4
    requires own[t].root in s.procs && PathOk(p, s.procs[own[t].root])
    ensures !Exempt(own, s.procs, t, Index(p, own[t].level))
  {
    hide Entry, Get;
  }

  lemma PathPlaceChild(s: Pts, own: Tree, t: nat, p: nat)
    requires t in own && 1 < own[t].level <= 4 && OnPath(own[t], own[t].root, p)
    requires own[t].root in s.procs && PathOk(p, s.procs[own[t].root])
    ensures var at := Child(own[t], Index(p, own[t].level)); NoSentinel(at) && OffSelf(at, s.procs[own[t].root])
  {
    hide NoSentinel, OffSelf, PathOk;
    IndexStep(p, own[t].level);
    PathPlace(p, s.procs[own[t].root], own[t].root, own[t].level - 1);
  }

  /** The structure frame for an empty entry is allocated: its window was free. */
  lemma StructAlloc(s: Pts, own: Tree, t: nat, p: nat)
    requires Good(s, own) && t in own && 1 < own[t].level <= 4 && OnPath(own[t], own[t].root, p)
    requires own[t].root in s.procs && PathOk(p, s.procs[own[t].root]) && s.next + 4096 <= Floor(s.procs)
    requires Entry(s.mem, t, Index(p, own[t].level)) / 4096 == 0
    ensures var selfRef := s.procs[own[t].root]; var at := Child(own[t], Index(p, own[t].level));
      AllocStructFrame(s, TableWindow(selfRef, own[t].level - 1, p, s.high)) == (WithTable(s, at, selfRef, s.procs), Some(s.next))
  {
    hide Entry, Get, NoSentinel, PathOk, Placed, Numbered, Aliased, Coherent, Clean, Links, Up, Window, TableWindow;
    var l := own[t].level;
    var root := own[t].root;
    var selfRef := s.procs[root];
    var at := Child(own[t], Index(p, l));
    PathRange(p, selfRef);
    IndexStep(p, l);
    NewNumber(s, own, root);
    TableWindowIs(selfRef, l - 1, p, root, s.high);
    PathPlaceChild(s, own, t, p);
    EmptyChild(s, own, t, Index(p, l));
    AllocOk(s, own);
    NewWindow(s, own, at, selfRef, s.procs);
    AllocFields(s);
  }

  lemma PathRange(p: nat, selfRef: nat)
    requires PathOk(p, selfRef)
    ensures p < 0x10_0000_0000
  {
  }

  lemma LeafValueBound(pa: nat, o: Opts)
    requires pa < TWO_64
    ensures LeafValue(pa, o) < TWO_64
  {
  }

  /** The low bits of the leaf entry: present, writable and user by their options, always accessed and dirty. */
  lemma LeafFlags(pa: nat, o: Opts)
    ensures var e := LeafValue(pa, o);
      && (e % 2 == 1 <==> o.present) && (e / 2 % 2 == 1 <==> o.writable) && (e / 4 % 2 == 1 <==> o.user)
      && e / 8 % 4 == 0 && e / 32 % 2 == 1 && e / 64 % 2 == 1 && e / 128 % 32 == 0
  {
    var n := LeafNumber(pa, o);
    hide LeafValue;
    LowDigits(n, AskedLow(o));
    AskedBits(o);
  }

  function AskedLow(o: Opts): nat {
    0x60 + (if o.writable then 2 else 0) + (if o.user then 4 else 0) + (if o.present then 1 else 0)
  }

  lemma LeafNumber(pa: nat, o: Opts) returns (n: nat)
    ensures n == pa / 4096 + if o.nx && pa < NX then NX / 4096 else 0
    ensures LeafValue(pa, o) == n * 4096 + AskedLow(o)
  {
    n := pa / 4096 + if o.nx && pa < NX then NX / 4096 else 0;
  }

  lemma AskedBits(o: Opts)
    ensures var b := AskedLow(o);
      && (b % 2 == 1 <==> o.present) && (b / 2 % 2 == 1 <==> o.writable) && (b / 4 % 2 == 1 <==> o.user)
      && b / 8 % 4 == 0 && b / 32 % 2 == 1 && b / 64 % 2 == 1 && b / 128 % 32 == 0
  {
  }

  /** Where the entry leads: to the asked frame, but with bit 63 set when it is a no-execute page, since
      translate masks no bit of the entry above the offset. */
  lemma LeafLeads(pa: nat, o: Opts)
    ensures var e := LeafValue(pa, o);
      && (Present(e) <==> o.present) && !Large(e)
      && e / 4096 * 4096 == pa / 4096 * 4096 + (if o.nx && pa < NX then NX else 0)
      && (e / 4096 * 4096 == pa / 4096 * 4096 <==> !o.nx || pa >= NX)
  {
    var n := LeafNumber(pa, o);
    LeafFlags(pa, o);
    ModUnique(LeafValue(pa, o), 4096, n, AskedLow(o));
    hide LeafValue;
    ModUnique(LeafValue(pa, o) / 128, 32, LeafValue(pa, o) / 128 / 32, 0);
  }

  /** Bit 63 is the no-execute option or the top bit of the address. */
  lemma LeafNoExecute(pa: nat, o: Opts)
    requires pa < TWO_64
    ensures LeafValue(pa, o) < TWO_64
    ensures LeafValue(pa, o) / 0x8000_0000_0000_0000 == 1 <==> o.nx || pa >= 0x8000_0000_0000_0000
  {
  }

  // --------------------------------------------------- processes and mapPage

  lemma TableOfRoot(s: Pts, own: Tree, r: nat)
    requires Base(s, own) && r in s.procs
    ensures r in own && own[r] == Place(r, 4, 0) && s.procs[r] < 512 && r % 4096 == 0
  {
    hide Get, NoSentinel, Twins, Window;
  }

  /** The window of an existing table is taken. */
  lemma TakenAt(s: Pts, own: Tree, f: nat)
    requires Aliased(s, own) && f in own
    ensures BaseTaken(s.mirrors, WindowAt(s, own, f))
  {
    hide WindowAt;
    var k :| 0 <= k < |s.mirrors| && s.mirrors[k].frame == f;
    assert s.mirrors[k].base == WindowAt(s, own, f);
  }

  lemma RootWindow(selfRef: nat, root: nat, high: bool)
    requires selfRef < 512
    ensures TableWindow(selfRef, 4, 0, high) == Window(selfRef, Place(root, 4, 0), high)
    ensures NoSentinel(Place(root, 4, 0)) && OffSelf(Place(root, 4, 0), selfRef)
  {
    hide Window;
    TableWindowIs(selfRef, 4, 0, root, high);
  }

  /** createProcess collides exactly when its self-reference index is in use; otherwise
      it adds an address space that maps nothing. */
  lemma CreateProcessOk(s: Pts, own: Tree, selfRef: nat) returns (own': Tree)
    requires Good(s, own) && selfRef < 512 && RoomFor(s, selfRef)
    ensures var (s', r) := CreateProcess(s, selfRef);
      && Good(s', own') && s'.next == s.next + 4096
      && own' == (if r.Ok? then own[s.next := Place(s.next, 4, 0)] else own)
      && (r.Err? <==> exists t :: t in s.procs && s.procs[t] == selfRef)
      && (r.Err? ==> r.error == AliasCollision && s'.procs == s.procs)
      && (r.Ok? ==> r.value == s.next && s.next !in s.procs && s'.procs == s.procs[s.next := selfRef])
      && (forall t, q: nat :: PteOf(s'.mem, own', t, q) == PteOf(s.mem, own, t, q))
  {
    hide Get, Entry, NoSentinel, Base, PteOf, Placed, Numbered, Aliased, Links, Up, OffSelf, NewPlace, RegionKept,
      CreateProcess, AllocFrame, Floor;
    AllocOk(s, own);
    AllocFields(s);
    BasePlaced(s, own);
    RootsIn(s, own);
    if t :| t in s.procs && s.procs[t] == selfRef {
      own' := own;
      CreateCollides(s, own, t);
      AllocGood(s, own);
    } else {
      own' := CreateFresh(s, own, selfRef);
    }
  }

  /** A self-reference index in use: its root's window is taken, and the frame is spent. */
  lemma CreateCollides(s: Pts, own: Tree, t: nat)
    requires Base(s, own) && t in s.procs
    ensures CreateProcess(s, s.procs[t]) == (AllocFrame(s).0, Err(AliasCollision))
  {
    hide Get, NoSentinel, Base, Poke, TableWindow, Window, AllocFrame, Placed, Numbered, Aliased, OffSelf, WindowRegion,
      WindowAt, BaseTaken;
    TableOfRoot(s, own, t);
    RootWindow(s.procs[t], t, s.high);
    WindowPlace(s.procs[t], Place(t, 4, 0), s.high);
    BaseAliased(s, own);
    TakenAt(s, own, t);
    WindowOf(s, own, t);
  }

  lemma BaseAliased(s: Pts, own: Tree)
    requires Base(s, own)
    ensures Aliased(s, own)
  {
  }

  lemma WindowOf(s: Pts, own: Tree, f: nat)
    requires f in own && own[f].root in s.procs
    ensures WindowAt(s, own, f) == Window(s.procs[own[f].root], own[f], s.high)
  {
  }

  /** A data frame, or one spent on a collision, changes no table. */
  lemma AllocGood(s: Pts, own: Tree)
    requires Good(s, own) && s.next + 4096 <= Floor(s.procs)
    ensures var s' := AllocFrame(s).0;
      Good(s', own) && s' == s.(mem := s'.mem, next := s.next + 4096)
      && (forall t, q: nat :: PteOf(s'.mem, own, t, q) == PteOf(s.mem, own, t, q))
  {
    hide Get, Entry, NoSentinel, Base, Present, Large, AllocFrame, Placed;
    var s' := AllocFrame(s).0;
    AllocOk(s, own);
    AllocFields(s);
    BasePlaced(s, own);
    NextFrame(s, own);
    forall g, j: nat | g in own && own[g].level > 1 && j < 512
      ensures LinkOk(s'.mem, own, s'.procs, g, j)
    {
      assert LinkOk(s.mem, own, s.procs, g, j);
    }
    SameEntriesUp(s, own, s'.mem);
    SameEntriesPte(s, own, s'.mem);
  }

  lemma SameEntriesUp(s: Pts, own: Tree, m': Store)
    requires Up(s.mem, own, s.procs)
    requires forall g, j: nat | g in own && j < 512 :: Entry(m', g, j) == Entry(s.mem, g, j)
    ensures Up(m', own, s.procs)
  {
    hide Entry;
    forall g | g in own && own[g].level < 4
      ensures exists h :: HangsFrom(m', own, s.procs, g, h)
    {
      var h :| HangsFrom(s.mem, own, s.procs, g, h);
      assert HangsFrom(m', own, s.procs, g, h);
    }
  }

  lemma SameEntriesPte(s: Pts, own: Tree, m': Store)
    requires Placed(s, own)
    requires forall g, j: nat | g in own && j < 512 :: Entry(m', g, j) == Entry(s.mem, g, j)
    ensures forall t, q: nat :: PteOf(m', own, t, q) == PteOf(s.mem, own, t, q)
  {
    hide Entry, NoSentinel;
    forall t, q: nat
      ensures PteOf(m', own, t, q) == PteOf(s.mem, own, t, q)
    {
      if f :| f in own && own[f] == Place(t, 1, q / 512) {
        PteAt(s, own, s.mem, t, q, f);
        PteAt(s, own, m', t, q, f);
      }
    }
  }

  lemma CreateFresh(s: Pts, own: Tree, selfRef: nat) returns (own': Tree)
    requires Good(s, own) && selfRef < 512 && RoomFor(s, selfRef) && s.next !in own
    requires forall t | t in s.procs :: s.procs[t] != selfRef
    ensures var (s', r) := CreateProcess(s, selfRef);
      && Good(s', own') && own' == own[s.next := Place(s.next, 4, 0)] && s'.next == s.next + 4096
      && r == Ok(s.next) && s'.procs == s.procs[s.next := selfRef]
      && (forall t, q: nat :: PteOf(s'.mem, own', t, q) == PteOf(s.mem, own, t, q))
  {
    hide Get, Entry, NoSentinel, Base, Poke, Present, Large, PteOf, TableWindow, Window, AllocFrame, Placed, Numbered,
      Aliased, Links, Up, WroteBoth,
      NewPlace, RoomFor, RegionKept, Floor, OffSelf, CreateProcess;
    var at := Place(s.next, 4, 0);
    var procs := s.procs[s.next := selfRef];
    own' := own[s.next := at];
    RootWindow(selfRef, s.next, s.high);
    AllocFields(s);
    BasePlaced(s, own);
    RootsIn(s, own);
    FreshPlace(s, own, selfRef);
    NewWindow(s, own, at, selfRef, procs);
    AddTable(s, own, at, selfRef, procs);
    var s1 := WithTable(s, at, selfRef, procs);
    var e := RootEntry(s.next);
    NextFrame(s, own);
    SelfEntry(s, own);
    PokeOk(s1, own', s.next, selfRef, e);
    var s' := Poke(s1, s.next + 8 * selfRef, e);
    CreateIs(s, selfRef);
    BasePlaced(s', own');
    AllocOk(s, own);
    RootEntries(s, own, s1, own', at, selfRef, e, s');
    RootLinks(s, own, selfRef, s', own');
    RootPtes(s, own, s', own');
  }

  lemma PokeProcs(s: Pts, procs: map<nat, nat>, pa: nat, v: nat)
    ensures Poke(s, pa, v).(procs := procs) == Poke(s.(procs := procs), pa, v)
  {
    hide W64;
  }

  /** createProcess, once its window is free, is one new mirrored table and its self entry. */
  lemma CreateIs(s: Pts, selfRef: nat)
    requires selfRef < 512
    requires var w := TableWindow(selfRef, 4, 0, s.high); w % 4096 == 0 && !BaseTaken(s.mirrors, w)
    ensures CreateProcess(s, selfRef) ==
      (Poke(WithTable(s, Place(s.next, 4, 0), selfRef, s.procs[s.next := selfRef]), s.next + 8 * selfRef, RootEntry(s.next)),
       Ok(s.next))
  {
    hide Put, Poke, TableWindow, Window;
    RootWindow(selfRef, s.next, s.high);
    var at, procs := Place(s.next, 4, 0), s.procs[s.next := selfRef];
    var s1 := WithTable(s, at, selfRef, s.procs);
    var w := TableWindow(selfRef, 4, 0, s.high);
    ModUnique(w, 4096, w / 4096, 0);
    assert AllocStructFrame(s, w) == (s1, Some(s.next));
    assert s1.(procs := procs) == WithTable(s, at, selfRef, procs);
    PokeProcs(s1, procs, s.next + 8 * selfRef, RootEntry(s.next));
    PokeKeeps(s1, s.next + 8 * selfRef, RootEntry(s.next));
  }

  lemma PokeKeeps(s: Pts, pa: nat, v: nat)
    ensures Poke(s, pa, v) == s.(mem := Poke(s, pa, v).mem)
  {
    hide W64;
  }

  lemma SelfEntry(s: Pts, own: Tree)
    requires Placed(s, own)
    ensures RootEntry(s.next) < TWO_64
  {
    hide NoSentinel;
  }

  lemma FreshPlace(s: Pts, own: Tree, selfRef: nat)
    requires Placed(s, own) && s.next !in own && s.next !in s.procs && selfRef < 512 && RoomFor(s, selfRef)
    requires forall t | t in s.procs :: s.procs[t] != selfRef
    ensures NewPlace(s, own, Place(s.next, 4, 0), selfRef, s.procs[s.next := selfRef])
    ensures s.next + 4096 <= Floor(s.procs)
  {
    hide Floor, WindowRegion, RegionKept;
    RoomKept(s, selfRef);
  }

  lemma RootEntries(s: Pts, own: Tree, s1: Pts, own': Tree, at: Place, selfRef: nat, e: nat, s': Pts)
    requires s.next !in own && own' == own[s.next := at] && selfRef < 512
    requires s.next % 4096 == 0 && forall f | f in own :: f % 4096 == 0
    requires forall g: nat, j: nat | g % 4096 == 0 && j < 512 :: Entry(s1.mem, g, j) == if g == s.next then 0 else Entry(s.mem, g, j)
    requires forall g, j: nat | g in own' && j < 512 :: Entry(s'.mem, g, j) == if g == s.next && j == selfRef then e else Entry(s1.mem, g, j)
    ensures forall g, j: nat | g in own && j < 512 :: Entry(s'.mem, g, j) == Entry(s.mem, g, j)
    ensures forall j: nat | j < 512 :: Entry(s'.mem, s.next, j) == if j == selfRef then e else 0
  {
    hide Entry;
  }

  lemma RootLinks(s: Pts, own: Tree, selfRef: nat, s': Pts, own': Tree)
    requires Links(s.mem, own, s.procs) && Up(s.mem, own, s.procs) && s.next !in own && (forall r | r in s.procs :: r in own)
    requires own' == own[s.next := Place(s.next, 4, 0)] && s'.procs == s.procs[s.next := selfRef]
    requires forall g, j: nat | g in own && j < 512 :: Entry(s'.mem, g, j) == Entry(s.mem, g, j)
    requires forall j: nat | j < 512 :: Entry(s'.mem, s.next, j) == if j == selfRef then RootEntry(s.next) else 0
    ensures Links(s'.mem, own', s'.procs) && Up(s'.mem, own', s'.procs)
  {
    hide Entry, Present, Large;
    ZeroAbsent();
    forall g, j: nat | g in own' && own'[g].level > 1 && j < 512
      ensures LinkOk(s'.mem, own', s'.procs, g, j)
    {
      if g != s.next { assert LinkOk(s.mem, own, s.procs, g, j); }
    }
    forall g | g in own' && own'[g].level < 4
      ensures exists h :: HangsFrom(s'.mem, own', s'.procs, g, h)
    {
      var h :| HangsFrom(s.mem, own, s.procs, g, h);
      assert HangsFrom(s'.mem, own', s'.procs, g, h);
    }
  }

  lemma RootPtes(s: Pts, own: Tree, s': Pts, own': Tree)
    requires Placed(s, own) && Placed(s', own') && s.next !in own && own' == own[s.next := Place(s.next, 4, 0)]
    requires forall g, j: nat | g in own && j < 512 :: Entry(s'.mem, g, j) == Entry(s.mem, g, j)
    ensures forall t, q: nat :: PteOf(s'.mem, own', t, q) == PteOf(s.mem, own, t, q)
  {
    hide NoSentinel, Entry;
    forall t, q: nat
      ensures PteOf(s'.mem, own', t, q) == PteOf(s.mem, own, t, q)
    {
      if f :| f in own' && own'[f] == Place(t, 1, q / 512) {
        PteAt(s', own', s'.mem, t, q, f);
        PteAt(s, own, s.mem, t, q, f);
      }
    }
  }

  lemma IndexOfVa(va: nat)
    ensures var i, p := SplitVa(va), PageOf(va);
      i.pml4 == Index(p, 4) && i.pdpt == Index(p, 3) && i.pd == Index(p, 2) && i.pt == Index(p, 1) && p < 0x10_0000_0000
  {
    ShiftedIndices(va);
  }

  /** A path through PML4 entry 0x1ff folds into the root's own window, so it collides. */
  lemma SentinelRootCollides(s: Pts, own: Tree, r: nat, p: nat, user: bool, leaf: nat)
    requires Good(s, own) && r in s.procs && p < 0x10_0000_0000 && Index(p, 4) == SENTINEL && s.procs[r] != SENTINEL
    requires s.next + 4096 <= Floor(s.procs)
    ensures DescendMap(s, s.procs[r], r, 4, p, user, leaf) == (AllocFrame(s).0, Err(AliasCollision))
  {
    hide Get, U64, Base, Poke, Present, Large, AllocFrame, TableWindow, Window, NoSentinel, Links, Up, Floor, OffSelf,
      Placed, Numbered, Aliased, SplitVa;
    TableOfRoot(s, own, r);
    BasePlaced(s, own);
    BaseAliased(s, own);
    SentinelEmpty(s, own, r);
    FoldedWindow(s.procs[r], p, s.high);
    RootWindow(s.procs[r], r, s.high);
    TakenAt(s, own, r);
    WindowOf(s, own, r);
    WindowPlace(s.procs[r], Place(r, 4, 0), s.high);
    ModUnique(TableWindow(s.procs[r], 3, p, s.high), 4096, TableWindow(s.procs[r], 3, p, s.high) / 4096, 0);
  }

  lemma SentinelEmpty(s: Pts, own: Tree, f: nat)
    requires Good(s, own) && f in own && 1 < own[f].level <= 4 && !Exempt(own, s.procs, f, SENTINEL)
    ensures Entry(s.mem, f, SENTINEL) / 4096 == 0 && !Present(Entry(s.mem, f, SENTINEL))
  {
    hide Entry, NoSentinel, Up, OffSelf, Floor, Aliased, Coherent, Clean, Numbered, Present, Large;
    assert LinkOk(s.mem, own, s.procs, f, SENTINEL);
    if Entry(s.mem, f, SENTINEL) / 4096 != 0 {
      PlacedRoot(s, own, f);
      SentinelPlace(s, own, Entry(s.mem, f, SENTINEL) / 4096 * 4096, own[f]);
      assert false;
    }
  }

  lemma SentinelPlace(s: Pts, own: Tree, g: nat, at: Place)
    requires Placed(s, own) && g in own && 1 < at.level <= 4 && (at.level == 4 ==> at.base == 0)
    ensures own[g] != Child(at, SENTINEL)
  {
    hide Floor, OffSelf;
    ModUnique(at.base * 512 + SENTINEL, 512, at.base, SENTINEL);
  }

  lemma FoldedWindow(selfRef: nat, p: nat, high: bool)
    requires Index(p, 4) == SENTINEL
    ensures TableWindow(selfRef, 3, p, high) == TableWindow(selfRef, 4, 0, high)
  {
  }

  /** mapPage, for every address: each error is raised exactly on its condition, and only
      the page asked for is changed, in this process and in every other. */
  lemma MapPageOk(s: Pts, own: Tree, dtb: nat, va: nat, o: Opts) returns (own': Tree)
    requires Good(s, own) && dtb in s.procs && (o.pa.Some? ==> o.pa.value < TWO_64)
    requires s.next + 4 * 4096 <= Floor(s.procs)
    ensures var (s', r) := MapPage(s, dtb, s.procs[dtb], va, o); var i := SplitVa(va);
      && Good(s', own') && s'.procs == s.procs && s'.next <= s.next + 4 * 4096
      && (r == Err(SelfMapRegion) <==> i.pml4 == s.procs[dtb])
      && (r == Err(SentinelIndex) <==> i.pml4 != s.procs[dtb] && (i.pdpt == SENTINEL || i.pd == SENTINEL || i.pt == SENTINEL))
      && (r == Err(AliasCollision) <==>
            i.pml4 != s.procs[dtb] && i.pdpt != SENTINEL && i.pd != SENTINEL && i.pt != SENTINEL && i.pml4 == SENTINEL)
      && (r.Ok? <==> i.pml4 != s.procs[dtb] && i.pdpt != SENTINEL && i.pd != SENTINEL && i.pt != SENTINEL && i.pml4 != SENTINEL)
      && (r.Ok? ==> r.value == (if o.pa.Some? then o.pa.value else s.next))
      && own' == (if r.Ok? then Grown(own, if o.pa.Some? then s.next else s.next + 4096, dtb, 4, PageOf(va)) else own)
      && (forall t, q: nat :: PteOf(s'.mem, own', t, q) ==
            if r.Ok? && t == dtb && q == PageOf(va) then LeafValue(r.value, o) else PteOf(s.mem, own, t, q))
  {
    hide Get, Entry, Base, Present, Large, AllocFrame, NoSentinel, Links, Up, PteOf, DescendMap, SplitVa, PageOf, LeafValue, Index;
    var i, p := SplitVa(va), PageOf(va);
    var selfRef := s.procs[dtb];
    IndexOfVa(va);
    own' := own;
    if i.pml4 != selfRef && i.pd != SENTINEL && i.pdpt != SENTINEL && i.pt != SENTINEL {
      AllocGood(s, own);
      AllocFields(s);
      var s1 := if o.pa.Some? then s else AllocFrame(s).0;
      var pa := if o.pa.Some? then o.pa.value else s.next;
      NextBound(s, own);
      LeafValueBound(pa, o);
      if i.pml4 == SENTINEL {
        SentinelRootCollides(s1, own, dtb, p, o.user, LeafValue(pa, o));
        AllocGood(s1, own);
        AllocFields(s1);
      } else {
        TableOfRoot(s1, own, dtb);
        TopOnPath(dtb, p);
        own' := DescendOk(s1, own, dtb, p, o.user, LeafValue(pa, o));
      }
    }
  }

  lemma NextBound(s: Pts, own: Tree)
    requires Good(s, own)
    ensures s.next < TWO_64
  {
    hide NoSentinel;
  }

  lemma TopOnPath(r: nat, p: nat)
    requires p < 0x10_0000_0000
    ensures OnPath(Place(r, 4, 0), r, p)
  {
    TopOver(p);
  }

  // ------------------------------------------------------------------ walking

  /** The next table down a path, by the links of the tree. */
  lemma StepDown(s: Pts, own: Tree, t: nat, p: nat)
    requires Good(s, own) && t in own && 1 < own[t].level <= 4 && OnPath(own[t], own[t].root, p)
    requires !Exempt(own, s.procs, t, Index(p, own[t].level))
    ensures var e := Entry(s.mem, t, Index(p, own[t].level)); var f := e / 4096 * 4096;
      if Present(e) then
        !Large(e) && f in own && own[f].level == own[t].level - 1 && own[f].root == own[t].root && OnPath(own[f], own[t].root, p)
      else forall g | g in own :: own[g] != Child(own[t], Index(p, own[t].level))
  {
    hide Entry, Present, Large, NoSentinel, Base;
    var i := Index(p, own[t].level);
    assert LinkOk(s.mem, own, s.procs, t, i);
    IndexStep(p, own[t].level);
    if Entry(s.mem, t, i) / 4096 == 0 { EmptyChild(s, own, t, i); }
  }

  /** When an upper table of the path is missing, so is the level 1 table. */
  lemma {:induction false} NoneBelow(s: Pts, own: Tree, r: nat, p: nat, level: nat)
    requires Good(s, own) && 1 <= level <= 3
    requires forall g | g in own :: own[g] != Place(r, level, Over(p, level))
    ensures forall g | g in own :: own[g] != Place(r, 1, p / 512)
    decreases level
  {
    hide Entry, Present, Large, NoSentinel, Base;
    if level > 1 {
      BasePlaced(s, own);
      forall g | g in own
        ensures own[g] != Place(r, level - 1, Over(p, level - 1))
      {
        if own[g] == Place(r, level - 1, Over(p, level - 1)) {
          var h :| HangsFrom(s.mem, own, s.procs, g, h);
          IndexStep(p, level);
          ModUnique(Over(p, level - 1), 512, Over(p, level), Index(p, level));
          assert false;
        }
      }
      NoneBelow(s, own, r, p, level - 1);
    }
  }

  lemma PteNone(m: Store, own: Tree, r: nat, p: nat)
    requires forall g | g in own :: own[g] != Place(r, 1, p / 512)
    ensures PteOf(m, own, r, p) == 0
  {
  }

  /** The rows of a walk end where the tree says: at the page's level 1 entry. */
  lemma WalkIsPte(s: Pts, own: Tree, r: nat, va: nat)
    requires Good(s, own) && r in s.procs && Index(PageOf(va), 4) != s.procs[r]
    ensures var e := PteOf(s.mem, own, r, PageOf(va));
      WalkRows(s.mem, r, va).pa == if Present(e) then Some(e / 4096 * 4096 + va % 4096) else None
  {
    hide Entry, Present, Large, NoSentinel, Base, Links, Up, Placed, Numbered, PageOf, Index, PteOf, WalkRows, Exempt, SplitVa;
    var p := PageOf(va);
    IndexOfVa(va);
    OffsetOfVa(va);
    TableOfRoot(s, own, r);
    TopOnPath(r, p);
    BasePlaced(s, own);
    RootExempt(s, own, r, p);
    StepDown(s, own, r, p);
    ZeroAbsent();
    var e4 := Entry(s.mem, r, Index(p, 4));
    var f3 := e4 / 4096 * 4096;
    var e3 := Entry(s.mem, f3, Index(p, 3));
    var f2 := e3 / 4096 * 4096;
    var e2 := Entry(s.mem, f2, Index(p, 2));
    var f1 := e2 / 4096 * 4096;
    ModUnique(r, 4096, r / 4096, 0);
    RowsOf(s.mem, r, va, e4, e3, e2, Entry(s.mem, f1, Index(p, 1)));
    if !Present(e4) {
      Missing(s, own, r, p, 3, r);
    } else {
      LowExempt(s, own, f3);
      StepDown(s, own, f3, p);
      if !Present(e3) {
        Missing(s, own, r, p, 2, f3);
      } else {
        LowExempt(s, own, f2);
        StepDown(s, own, f2, p);
        if !Present(e2) {
          Missing(s, own, r, p, 1, f2);
        } else {
          LevelOnePlace(own[f1], r, p);
          PteAt(s, own, s.mem, r, p, f1);
        }
      }
    }
  }

  lemma OffsetOfVa(va: nat)
    ensures SplitVa(va).offset == va % 4096
  {
  }

  lemma LevelOnePlace(at: Place, r: nat, p: nat)
    requires at.level == 1 && OnPath(at, r, p)
    ensures at == Place(r, 1, p / 512) && Index(p, 1) == p % 512
  {
  }

  lemma RootExempt(s: Pts, own: Tree, r: nat, p: nat)
    requires r in s.procs && r in own && own[r] == Place(r, 4, 0) && Index(p, 4) != s.procs[r]
    ensures !Exempt(own, s.procs, r, Index(p, own[r].level))
  {
  }

  lemma LowExempt(s: Pts, own: Tree, f: nat)
    requires f in own && own[f].level < 4
    ensures forall i :: !Exempt(own, s.procs, f, i)
  {
  }

  lemma Missing(s: Pts, own: Tree, r: nat, p: nat, level: nat, t: nat)
    requires Good(s, own) && 1 <= level <= 3 && t in own && own[t].level == level + 1 && OnPath(own[t], r, p)
    requires forall g | g in own :: own[g] != Child(own[t], Index(p, level + 1))
    ensures PteOf(s.mem, own, r, p) == 0
  {
    hide Entry, NoSentinel, Base, PteOf;
    IndexStep(p, level + 1);
    NoneBelow(s, own, r, p, level);
    PteNone(s.mem, own, r, p);
  }

  /** The walk, entry by entry: it stops at the first entry that is not present. */
  lemma RowsOf(m: Store, r: nat, va: nat, e4: nat, e3: nat, e2: nat, e1: nat)
    requires r / 4096 * 4096 == r
    requires var i := SplitVa(va);
      && e4 == Entry(m, r, i.pml4) && e3 == Entry(m, e4 / 4096 * 4096, i.pdpt)
      && e2 == Entry(m, e3 / 4096 * 4096, i.pd) && e1 == Entry(m, e2 / 4096 * 4096, i.pt)
    ensures !Present(e4) || !Present(e3) || (!Large(e3) && !Present(e2)) ==> WalkRows(m, r, va).pa == None
    ensures Present(e4) && Present(e3) && !Large(e3) && Present(e2) && !Large(e2) ==>
      WalkRows(m, r, va).pa == if Present(e1) then Some(e1 / 4096 * 4096 + SplitVa(va).offset) else None
  {
    hide U64, Present, Large, SplitVa;
    var i := SplitVa(va);
    RowIs(m, r, i.pml4);
    RowIs(m, e4 / 4096 * 4096, i.pdpt);
    RowIs(m, e3 / 4096 * 4096, i.pd);
    RowIs(m, e2 / 4096 * 4096, i.pt);
    hide Row, Entry;
  }

  lemma RowIs(m: Store, t: nat, i: nat)
    ensures Row(m, t, i).1 == Entry(m, t, i)
  {
    hide U64;
  }

  // ---------------------------------------------------------------- windows

  lemma TwinsRead(m: Store, f: nat, w: nat)
    requires Twins(m, f, w)
    ensures Read(m, w, 4096) == Read(m, f, 4096)
  {
    hide Get;
    forall x: nat | x < 4096
      ensures Read(m, w, 4096)[x] == Read(m, f, 4096)[x]
    {
      assert Get(m, Off(w, x)) == Get(m, Off(f, x));
    }
  }

  /** When every table and its window agree, syncing writes nothing. */
  lemma {:induction false} SyncTwins(m: Store, mirrors: seq<Mirror>)
    requires forall k | 0 <= k < |mirrors| :: Twins(m, mirrors[k].frame, mirrors[k].base)
    ensures SyncBack(m, mirrors) == m
    decreases |mirrors|
  {
    hide Twins, Read, Put;
    if mirrors != [] {
      TwinsRead(m, mirrors[0].frame, mirrors[0].base);
      assert forall k | 0 <= k < |mirrors[1..]| :: mirrors[1..][k] == mirrors[k + 1];
      SyncTwins(m, mirrors[1..]);
    }
  }

  lemma SyncNoop(s: Pts, own: Tree)
    requires Base(s, own)
    ensures SyncBack(s.mem, s.mirrors) == s.mem
  {
    hide Twins, WindowAt, Placed, Numbered;
    SyncTwins(s.mem, s.mirrors);
  }

  /** On tables built by createProcess and mapPage, translate finds the page's leaf and
      changes nothing. */
  lemma TranslateOk(s: Pts, own: Tree, r: nat, va: nat)
    requires Good(s, own) && r in s.procs && Index(PageOf(va), 4) != s.procs[r]
    ensures var e := PteOf(s.mem, own, r, PageOf(va)); var (s', w) := Translate(s, r, va);
      s' == s && w.pa == if Present(e) then Some(e / 4096 * 4096 + va % 4096) else None
  {
    hide Entry, Present, NoSentinel, Base, Links, Up, PteOf, WalkRows, PageOf, Index, SyncBack;
    SyncNoop(s, own);
    WalkIsPte(s, own, r, va);
  }

  /** On any tables the walk ends early at a large page: with the entry's bits above the page's offset, and
      the rows seen so far. */
  lemma LargeWalk(m: Store, dtb: nat, va: nat)
    ensures var e4 := U64(m, dtb / 4096 * 4096 + 8 * (va / 0x80_0000_0000 % 512));
      var e3 := U64(m, e4 / 4096 * 4096 + 8 * (va / 0x4000_0000 % 512));
      var e2 := U64(m, e3 / 4096 * 4096 + 8 * (va / 0x20_0000 % 512)); var w := WalkRows(m, dtb, va);
      && (e4 % 2 == 1 && e3 % 2 == 1 && e3 / 128 % 2 == 1 ==>
            w.pa == Some(e3 / 0x4000_0000 * 0x4000_0000 + va % 0x4000_0000) && |w.rows| == 2)
      && (e4 % 2 == 1 && e3 % 2 == 1 && e3 / 128 % 2 == 0 && e2 % 2 == 1 && e2 / 128 % 2 == 1 ==>
            w.pa == Some(e2 / 0x20_0000 * 0x20_0000 + va % 0x20_0000) && |w.rows| == 3)
      && (e4 % 2 == 0 ==> w.pa == None && w.rows == [(dtb / 4096 * 4096 + 8 * (va / 0x80_0000_0000 % 512), e4)])
  {
    hide U64;
  }

  /** The entry a table hangs from, present and no large page. */
  lemma HangPresent(s: Pts, own: Tree, f: nat) returns (g: nat)
    requires Good(s, own) && f in own && own[f].level < 4
    ensures g in own && own[g] == Place(own[f].root, own[f].level + 1, own[f].base / 512)
    ensures var e := Entry(s.mem, g, own[f].base % 512); Present(e) && !Large(e) && e / 4096 * 4096 == f
    ensures own[g].level == 4 ==> g == own[f].root
  {
    hide Entry, Present, Large, NoSentinel, OffSelf, Floor, Numbered, Aliased, Coherent, Clean;
    g :| HangsFrom(s.mem, own, s.procs, f, g);
    PlacedLevel(s, own, f);
    PlacedPositive(s, own);
    assert LinkOk(s.mem, own, s.procs, g, own[f].base % 512);
  }

  /** The self-reference entry leads from the root back to it. */
  lemma SelfReference(s: Pts, own: Tree, r: nat)
    requires Good(s, own) && r in s.procs
    ensures var e := Entry(s.mem, r, s.procs[r]); Present(e) && !Large(e) && e / 4096 * 4096 == r
  {
    hide Entry, NoSentinel, OffSelf, Floor, Aliased, Coherent, Clean;
    TableOfRoot(s, own, r);
    assert LinkOk(s.mem, own, s.procs, r, s.procs[r]);
    RootEntryFields(r);
  }

  lemma RootEntryFields(r: nat)
    requires r % 4096 == 0
    ensures var e := RootEntry(r);
      Present(e) && !Large(e) && e / 4096 * 4096 == r && Writable(e) && !User(e) && Accessed(e) && Dirty(e)
  {
    hide Writable, User, Accessed, Dirty, Present, Large;
    var n := r / 4096;
    ModUnique(r + 0x63, 4096, n, 0x63);
    ModUnique(r + 0x63, 256, 16 * n, 0x63);
    LowFlags(r + 0x63);
    SelfBits();
  }

  lemma SelfBits()
    ensures Present(0x63) && !Large(0x63) && Writable(0x63) && !User(0x63) && Accessed(0x63) && Dirty(0x63)
  {
  }

  /** The four indices of an address in a window: the self-reference index and the window's digits. */
  lemma SplitWindow(selfRef: nat, at: Place, a: nat, b: nat, c: nat, high: bool, off: nat)
    requires selfRef < 512 && a < 512 && b < 512 && c < 512 && off < 4096
    requires WindowIndex(at.level, at.base) == (a * 512 + b) * 512 + c
    ensures SplitVa(Window(selfRef, at, high) + off) == Split(selfRef, a, b, c, off)
  {
    hide SplitVa, WindowIndex;
    JoinWindow(selfRef, a, b, c, high);
    JoinOffset(selfRef, a, b, c, off, high);
    SplitJoin(selfRef, a, b, c, off, high);
  }

  lemma JoinOffset(a: nat, b: nat, c: nat, d: nat, off: nat, high: bool)
    requires a < 512 && b < 512 && c < 512 && d < 512 && off < 4096
    ensures JoinVa(a, b, c, d, 0, high) + off == JoinVa(a, b, c, d, off, high)
  {
    var v := a * 0x80_0000_0000 + b * 0x4000_0000 + c * 0x20_0000 + d * 4096;
    assert (v + off) / 4096 == v / 4096;
    ModUnique(v, 0x1_0000_0000, v / 4096 / 0x10_0000, v / 4096 % 0x10_0000 * 4096);
    ModUnique(v + off, 0x1_0000_0000, v / 4096 / 0x10_0000, v / 4096 % 0x10_0000 * 4096 + off);
  }

  /** The three index digits of a place's window below the self-reference index. */
  function Digits(at: Place): (nat, nat, nat) {
    if at.level == 4 then (SENTINEL, SENTINEL, SENTINEL)
    else if at.level == 3 then (at.base, SENTINEL, SENTINEL)
    else if at.level == 2 then (at.base / 512, at.base % 512, SENTINEL)
    else (at.base / 512 / 512, at.base / 512 % 512, at.base % 512)
  }

  lemma DigitsOf(at: Place)
    requires NoSentinel(at)
    ensures var (a, b, c) := Digits(at);
      a < 512 && b < 512 && c < 512 && WindowIndex(at.level, at.base) == (a * 512 + b) * 512 + c
  {
  }

  /** The indices of an address in the window of table f. */
  lemma WindowSplit(s: Pts, own: Tree, f: nat, off: nat)
    requires Base(s, own) && f in own && off < 4096
    ensures own[f].root in s.procs
    ensures var d := Digits(own[f]);
      SplitVa(WindowAt(s, own, f) + off) == Split(s.procs[own[f].root], d.0, d.1, d.2, off)
  {
    hide *;
    BasePlaced(s, own);
    PlacedRoot(s, own, f);
    WindowOf(s, own, f);
    TableOfRoot(s, own, own[f].root);
    DigitsOf(own[f]);
    var d := Digits(own[f]);
    SplitWindow(s.procs[own[f].root], own[f], d.0, d.1, d.2, s.high, off);
  }

  /** The place that the indices below a self-reference spell: each leading self-reference
      stays at the root, and the ones after it go down. */
  function SelfPlace(r: nat, selfRef: nat, a: nat, b: nat, c: nat): Place {
    if a != selfRef then Place(r, 1, (a * 512 + b) * 512 + c)
    else if b != selfRef then Place(r, 2, b * 512 + c)
    else if c != selfRef then Place(r, 3, c)
    else Place(r, 4, 0)
  }

  /** An entry of an upper table leads to the table at its child place, or there is none. */
  lemma Down(s: Pts, own: Tree, t: nat, i: nat)
    requires Good(s, own) && t in own && 1 < own[t].level <= 4 && i < 512 && !Exempt(own, s.procs, t, i)
    ensures var e := Entry(s.mem, t, i); var f := e / 4096 * 4096;
      if Present(e) then !Large(e) && f in own && own[f] == Child(own[t], i) else forall g | g in own :: own[g] != Child(own[t], i)
  {
    hide Entry, Present, Large, NoSentinel, Base;
    assert LinkOk(s.mem, own, s.procs, t, i);
    if Entry(s.mem, t, i) / 4096 == 0 { EmptyChild(s, own, t, i); }
  }

  /** The table of this level that index i leads to from t, at the root its own self-reference included. */
  ghost predicate Leads(s: Pts, own: Tree, t: nat, i: nat, g: nat)
    requires t in own
  {
    var e := Entry(s.mem, t, i);
    Present(e) && !Large(e) && e / 4096 * 4096 == g && g in own
  }

  /** A table at the place the indices spell is where they lead. */
  lemma SelfFound(s: Pts, own: Tree, r: nat, a: nat, b: nat, c: nat, f: nat) returns (g: nat, h: nat)
    requires Good(s, own) && r in s.procs && a < 512 && b < 512 && c < 512
    requires f in own && own[f] == SelfPlace(r, s.procs[r], a, b, c)
    ensures r in own && g in own && h in own && Leads(s, own, r, a, g) && Leads(s, own, g, b, h) && Leads(s, own, h, c, f)
  {
    hide Entry, Present, Large, NoSentinel, Base, Links, Up, OffSelf, Floor, Placed, Numbered;
    TableOfRoot(s, own, r);
    SelfReference(s, own, r);
    BasePlaced(s, own);
    g, h := r, r;
    if own[f].level == 4 {
      SamePlace(s, own, f, r);
    } else {
      ModUnique(own[f].base, 512, if own[f].level == 1 then a * 512 + b else if own[f].level == 2 then b else 0, c);
      h := HangPresent(s, own, f);
      if own[f].level < 3 {
        ModUnique(own[h].base, 512, if own[f].level == 1 then a else 0, b);
        g := HangPresent(s, own, h);
        if own[f].level == 1 {
          var top := HangPresent(s, own, g);
        }
      }
    }
  }

  /** With no table at that place, some entry on the way is not present. */
  lemma SelfMissing(s: Pts, own: Tree, r: nat, a: nat, b: nat, c: nat, e3: nat, e2: nat, e1: nat)
    requires a < 512 && b < 512 && c < 512
    requires e3 == Entry(s.mem, r, a) && e2 == Entry(s.mem, e3 / 4096 * 4096, b) && e1 == Entry(s.mem, e2 / 4096 * 4096, c)
    requires Good(s, own) && r in s.procs && forall f | f in own :: own[f] != SelfPlace(r, s.procs[r], a, b, c)
    ensures !Present(e3) || (!Large(e3) && !Present(e2)) || (!Large(e3) && !Large(e2) && !Present(e1))
  {
    hide Entry, Present, Large, NoSentinel, Base, Links, Up, OffSelf, Floor;
    TableOfRoot(s, own, r);
    SelfReference(s, own, r);
    var t3, t2 := e3 / 4096 * 4096, e2 / 4096 * 4096;
    if a != s.procs[r] { Down(s, own, r, a); }
    if Present(e3) {
      if t3 != r || b != s.procs[r] { Down(s, own, t3, b); }
      if Present(e2) {
        if t2 != r || c != s.procs[r] { Down(s, own, t2, c); }
      }
    }
  }

  /** Every address of the self-map region, translated in its own process: there is a result exactly
      when the indices below the self-reference spell the place of a table, and it is that table's frame. */
  lemma SelfMapWalk(s: Pts, own: Tree, r: nat, va: nat)
    requires Good(s, own) && r in s.procs && SplitVa(va).pml4 == s.procs[r]
    ensures var i := SplitVa(va); var at := SelfPlace(r, s.procs[r], i.pdpt, i.pd, i.pt); var (s', w) := Translate(s, r, va);
      && s' == s
      && (w.pa.Some? <==> exists f :: f in own && own[f] == at)
      && (forall f | f in own && own[f] == at :: w.pa == Some(f + va % 4096))
  {
    hide Entry, Present, Large, NoSentinel, OffSelf, Floor, Base, Links, Up, WalkRows, SyncBack, SplitVa, SelfPlace, Placed, Numbered;
    var i := SplitVa(va);
    SplitRange(va);
    SyncNoop(s, own);
    SelfReference(s, own, r);
    var e3 := Entry(s.mem, r, i.pdpt);
    var e2 := Entry(s.mem, e3 / 4096 * 4096, i.pd);
    var e1 := Entry(s.mem, e2 / 4096 * 4096, i.pt);
    TableOfRoot(s, own, r);
    ModUnique(r, 4096, r / 4096, 0);
    RowsOf(s.mem, r, va, Entry(s.mem, r, i.pml4), e3, e2, e1);
    var at := SelfPlace(r, s.procs[r], i.pdpt, i.pd, i.pt);
    if f :| f in own && own[f] == at {
      var g, h := SelfFound(s, own, r, i.pdpt, i.pd, i.pt, f);
      BasePlaced(s, own);
      forall f' | f' in own && own[f'] == at
        ensures f' == f
      {
        SamePlace(s, own, f', f);
      }
    } else {
      SelfMissing(s, own, r, i.pdpt, i.pd, i.pt, e3, e2, e1);
    }
  }

  lemma SplitRange(va: nat)
    ensures var i := SplitVa(va); i.pml4 < 512 && i.pdpt < 512 && i.pd < 512 && i.pt < 512 && i.offset == va % 4096
  {
  }

  /** So the window of a level 1 table translates to that table's frame, the root's window under index
      0x1ff to the root, and the other windows not at all. */
  lemma WindowTranslates(s: Pts, own: Tree, f: nat, off: nat)
    requires Good(s, own) && f in own && off < 4096
    ensures var r := own[f].root; var (s', w) := Translate(s, r, WindowAt(s, own, f) + off);
      s' == s && w.pa == if own[f].level == 1 || (own[f].level == 4 && s.procs[r] == SENTINEL) then Some(f + off) else None
  {
    hide Entry, Links, Up, Translate, WindowAt, Numbered, SplitVa, Aliased, Clean, Coherent, Floor;
    var r, at := own[f].root, own[f];
    WindowSplit(s, own, f, off);
    SplitRange(WindowAt(s, own, f) + off);
    SelfMapWalk(s, own, r, WindowAt(s, own, f) + off);
    var d := Digits(at);
    WindowSelfPlace(at, s.procs[r]);
  }

  /** The place a window's digits spell is its own table's at level 1, and no table's elsewhere, but for
      the root under index 0x1ff. */
  lemma WindowSelfPlace(at: Place, selfRef: nat)
    requires NoSentinel(at) && OffSelf(at, selfRef)
    ensures var d := Digits(at); var to := SelfPlace(at.root, selfRef, d.0, d.1, d.2);
      if at.level == 1 || (at.level == 4 && selfRef == SENTINEL) then to == at else !NoSentinel(to)
  {
    var d := Digits(at);
    ModUnique((d.0 * 512 + d.1) * 512 + d.2, 512, d.0 * 512 + d.1, d.2);
    ModUnique(d.0 * 512 + d.1, 512, d.0, d.1);
  }

  // ------------------------------------------------- edits through a window

  /** Memory after the 64-bit entry i of table f was written through its window only. */
  function WindowEdit(s: Pts, own: Tree, f: nat, i: nat, v: nat): Store {
    W64(s.mem, WindowAt(s, own, f) + 8 * i, v)
  }

  lemma EditKeepsOthers(s: Pts, own: Tree, f: nat, i: nat, v: nat, g: nat)
    requires Placed(s, own) && Numbered(s, own) && f in own && g in own && g != f && i < 512
    requires Twins(s.mem, g, WindowAt(s, own, g))
    ensures Twins(WindowEdit(s, own, f, i, v), g, WindowAt(s, own, g))
  {
    hide Get, NoSentinel, Window, WindowAt, Put;
    var w, x := WindowAt(s, own, f), WindowAt(s, own, g);
    WindowAtFacts(s, own, f);
    WindowAtFacts(s, own, g);
    PlacedRoot(s, own, g);
    if w == x { WindowsApart(s, own, f, g); }
    PutGet(s.mem, w + 8 * i, ToLE(v, 8));
    EditTwins(s.mem, WindowEdit(s, own, f, i, v), g, x, w, 8 * i);
  }

  lemma EditTwins(m: Store, m': Store, g: nat, x: nat, w: nat, k: nat)
    requires g % 4096 == 0 && x % 4096 == 0 && w % 4096 == 0 && g != w && x != w && k + 8 <= 4096
    requires Twins(m, g, x) && forall a: nat | !(w + k <= a < w + k + 8) :: Get(m', a) == Get(m, a)
    ensures Twins(m', g, x)
  {
    hide Get;
    forall y: nat | y < 4096
      ensures Get(m', Off(x, y)) == Get(m', Off(g, y))
    {
      Apart(g, y, w, k, 8);
      Apart(x, y, w, k, 8);
      assert Get(m, Off(x, y)) == Get(m, Off(g, y));
    }
  }

  lemma EditIs(m: Store, w: nat, i: nat, v: nat)
    requires w % 4096 == 0 && i < 512
    ensures EditedAt(m, W64(m, w + 8 * i, v), w, w + 8 * i, ToLE(v, 8))
  {
    hide Get, Put, Touched, ToLE;
    SlotPage(w, i);
    var a := w + 8 * i;
    PutGet(m, a, ToLE(v, 8));
    TouchedOne(a, 8);
    WroteEdited(m, W64(m, a, v), w, a, ToLE(v, 8));
  }

  lemma WroteEdited(m: Store, m': Store, w: nat, a: nat, bs: seq<Byte>)
    requires Wrote(m, m', a, bs) && Touched(a, |bs|) == {w / 4096}
    ensures EditedAt(m, m', w, a, bs)
  {
    hide Get, Touched;
  }

  lemma EditKeys(m: Store, m1: Store, w: nat, b: nat, bs: seq<Byte>)
    requires EditedAt(m, m1, w, b, bs)
    ensures w / 4096 in m1
  {
  }

  /** Copying the edited window back gives the store that poke64 would have made. */
  lemma CopyIsPoke(s: Pts, own: Tree, f: nat, i: nat, v: nat)
    requires Base(s, own) && f in own && i < 512 && v < TWO_64
    ensures var m1 := WindowEdit(s, own, f, i, v); var w := WindowAt(s, own, f);
      && w / 4096 in m1
      && (if Read(m1, w, 4096) != Read(m1, f, 4096) then Put(m1, f, Read(m1, w, 4096)) else m1) == Poke(s, f + 8 * i, v).mem
  {
    hide Get, NoSentinel, Window, WindowAt, Put, Poke, WroteBoth, EditedAt, Wrote, Aliased, Clean, Coherent, Placed,
      Numbered, Touched, Twins, Read, W64;
    var w := WindowAt(s, own, f);
    BasePlaced(s, own);
    WindowAtFacts(s, own, f);
    PlacedRoot(s, own, f);
    var m1 := WindowEdit(s, own, f, i, v);
    EditIs(s.mem, w, i, v);
    EditKeys(s.mem, m1, w, w + 8 * i, ToLE(v, 8));
    PokeOk(s, own, f, i, v);
    BaseTwins(s, own, f);
    FrameStored(s, own, f);
    SlotPage(f, i);
    SlotPage(w, i);
    var mp := Poke(s, f + 8 * i, v).mem;
    if Read(m1, w, 4096) != Read(m1, f, 4096) {
      var m2 := Put(m1, f, Read(m1, w, 4096));
      PutGet(m1, f, Read(m1, w, 4096));
      TouchedOne(f, 4096);
      CopyBytes(s.mem, m1, m2, mp, f, w, 8 * i, ToLE(v, 8));
      Extensional(m2, mp);
    } else {
      SameBytes(s.mem, m1, mp, f, w, 8 * i, ToLE(v, 8));
      Extensional(m1, mp);
    }
  }

  lemma BaseTwins(s: Pts, own: Tree, f: nat)
    requires Base(s, own) && f in own
    ensures Twins(s.mem, f, WindowAt(s, own, f))
  {
    hide Twins, WindowAt;
  }

  lemma FrameStored(s: Pts, own: Tree, f: nat)
    requires Placed(s, own) && f in own
    ensures f / 4096 in s.mem && f < 0x80_0000_0000
  {
    hide NoSentinel;
  }

  /** m1 is m with the bytes bs at b, of a page that is now materialized. */
  ghost predicate EditedAt(m: Store, m1: Store, w: nat, b: nat, bs: seq<Byte>) {
    && m1.Keys == m.Keys + {w / 4096}
    && forall x: nat :: Get(m1, x) == if b <= x < b + |bs| then bs[x - b] else Get(m, x)
  }

  lemma CopyByte(m: Store, m1: Store, m2: Store, mp: Store, f: nat, w: nat, k: nat, bs: seq<Byte>, x: nat)
    requires f % 4096 == 0 && w % 4096 == 0 && f != w && k + |bs| <= 4096
    requires Twins(m, f, w) && EditedAt(m, m1, w, w + k, bs) && WroteBoth(m, mp, f + k, w + k, bs)
    requires Get(m2, x) == if f <= x < f + 4096 then Get(m1, w + (x - f)) else Get(m1, x)
    ensures Get(m2, x) == Get(mp, x)
  {
    hide Get;
    if f <= x < f + 4096 {
      var y := x - f;
      assert Get(m, Off(w, y)) == Get(m, Off(f, y));
      Apart(f, y, w, k, |bs|);
    }
  }

  lemma CopyBytes(m: Store, m1: Store, m2: Store, mp: Store, f: nat, w: nat, k: nat, bs: seq<Byte>)
    requires f % 4096 == 0 && w % 4096 == 0 && f != w && k + |bs| <= 4096
    requires Twins(m, f, w) && f / 4096 in m && EditedAt(m, m1, w, w + k, bs)
    requires Wrote(m1, m2, f, Read(m1, w, 4096)) && Touched(f, 4096) == {f / 4096}
    requires WroteBoth(m, mp, f + k, w + k, bs) && (f + k) / 4096 == f / 4096 && (w + k) / 4096 == w / 4096
    ensures m2.Keys == mp.Keys && forall x: nat :: Get(m2, x) == Get(mp, x)
  {
    hide Get, Touched, Twins;
    BothKeys(m, mp, f + k, w + k, bs);
    forall x: nat
      ensures Get(m2, x) == Get(mp, x)
    {
      CopyByte(m, m1, m2, mp, f, w, k, bs, x);
    }
  }

  lemma SameBytes(m: Store, m1: Store, mp: Store, f: nat, w: nat, k: nat, bs: seq<Byte>)
    requires f % 4096 == 0 && w % 4096 == 0 && f != w && k + |bs| <= 4096
    requires f / 4096 in m && EditedAt(m, m1, w, w + k, bs)
    requires Read(m1, w, 4096) == Read(m1, f, 4096)
    requires WroteBoth(m, mp, f + k, w + k, bs) && (f + k) / 4096 == f / 4096 && (w + k) / 4096 == w / 4096
    ensures m1.Keys == mp.Keys && forall x: nat :: Get(m1, x) == Get(mp, x)
  {
    hide Get;
    forall x: nat
      ensures Get(m1, x) == Get(mp, x)
    {
      if f + k <= x < f + k + |bs| {
        var y := x - f;
        assert Read(m1, w, 4096)[y] == Read(m1, f, 4096)[y];
        assert Get(m1, w + y) == Get(m1, f + y);
      }
    }
  }

  lemma {:induction false} SyncEdited(s: Pts, own: Tree, f: nat, i: nat, v: nat, mirrors: seq<Mirror>)
    requires Base(s, own) && f in own && i < 512 && v < TWO_64
    requires forall k | 0 <= k < |mirrors| :: mirrors[k].frame in own && mirrors[k].base == WindowAt(s, own, mirrors[k].frame)
    requires exists k :: 0 <= k < |mirrors| && mirrors[k].frame == f
    ensures SyncBack(WindowEdit(s, own, f, i, v), mirrors) == Poke(s, f + 8 * i, v).mem
    decreases |mirrors|
  {
    hide Get, NoSentinel, WindowAt, Put, Poke, WroteBoth, Aliased, Clean, Coherent, Placed, Numbered, Twins, Read, WindowEdit, Entry;
    var r := mirrors[0];
    var m1 := WindowEdit(s, own, f, i, v);
    BasePlaced(s, own);
    assert forall k | 0 <= k < |mirrors[1..]| :: mirrors[1..][k] == mirrors[k + 1];
    if r.frame == f {
      CopyIsPoke(s, own, f, i, v);
      PokeOk(s, own, f, i, v);
      var sp := Poke(s, f + 8 * i, v);
      WindowMem(s, own, sp.mem);
      forall k | 0 <= k < |mirrors[1..]|
        ensures Twins(sp.mem, mirrors[1..][k].frame, mirrors[1..][k].base)
      {
        BaseTwins(sp, own, mirrors[1..][k].frame);
      }
      SyncTwins(sp.mem, mirrors[1..]);
    } else {
      BaseTwins(s, own, r.frame);
      EditKeepsOthers(s, own, f, i, v, r.frame);
      TwinsRead(m1, r.frame, r.base);
      var k :| 0 <= k < |mirrors| && mirrors[k].frame == f;
      assert mirrors[1..][k - 1].frame == f;
      SyncEdited(s, own, f, i, v, mirrors[1..]);
    }
  }

  /** An entry edited through its window is the one the next translate walks: that translate
      starts from exactly the state poke64 of the entry would have left. */
  lemma WindowEditTakes(s: Pts, own: Tree, f: nat, i: nat, v: nat, dtb: nat, va: nat)
    requires Base(s, own) && f in own && i < 512 && v < TWO_64
    ensures Translate(s.(mem := WindowEdit(s, own, f, i, v)), dtb, va) ==
      (Poke(s, f + 8 * i, v), WalkRows(Poke(s, f + 8 * i, v).mem, dtb, va))
  {
    hide WindowAt, WalkRows, Poke, SyncBack, WindowEdit, Twins, Placed, Numbered;
    SyncEdited(s, own, f, i, v, s.mirrors);
    PokeKeeps(s, f + 8 * i, v);
  }

  /** In particular a level 1 entry edited through its window remaps its page, and only it. */
  lemma LeafEditTakes(s: Pts, own: Tree, f: nat, p: nat, v: nat, r: nat, va: nat)
    requires Good(s, own) && f in own && own[f].level == 1 && OnPath(own[f], own[f].root, p) && v < TWO_64
    requires r in s.procs && Index(PageOf(va), 4) != s.procs[r]
    ensures var e := if r == own[f].root && PageOf(va) == p then v else PteOf(s.mem, own, r, PageOf(va));
      Translate(s.(mem := WindowEdit(s, own, f, p % 512, v)), r, va).1.pa ==
        if Present(e) then Some(e / 4096 * 4096 + va % 4096) else None
  {
    hide Get, Entry, Present, NoSentinel, Base, Links, Up, PteOf, WalkRows, PageOf, Poke, WindowEdit, Translate;
    assert Index(p, 1) == p % 512;
    LeafPoke(s, own, f, p, v);
    WindowEditTakes(s, own, f, p % 512, v, r, va);
    WalkIsPte(Poke(s, f + 8 * (p % 512), v), own, r, va);
  }

  // ------------------------------------------------------------------- runs

  datatype Op =
    | CreateOp(selfRef: nat)
    | MapOp(dtb: nat, va: nat, opts: Opts)
    | WalkOp(dtb: nat, va: nat)
    | EditOp(dtb: nat, va: nat, v: nat, probe: nat)

  datatype Out = Made(dtb: Result<nat>) | Mapped(at: Result<nat>) | Found(pa: Option<nat>)

  /** The window address of the level 1 entry of va. */
  function PteWindow(s: Pts, dtb: nat, va: nat): nat
    requires dtb in s.procs
  {
    TableWindow(s.procs[dtb], 1, PageOf(va), s.high)
  }

  /** EditOp: a value is stored at the window address of an entry, and the next translate follows. */
  function Step(s: Pts, op: Op): (Pts, Out)
    requires op.MapOp? || op.EditOp? ==> op.dtb in s.procs
  {
    match op
    case CreateOp(selfRef) => var (s', r) := CreateProcess(s, selfRef); (s', Made(r))
    case MapOp(dtb, va, opts) => var (s', r) := MapPage(s, dtb, s.procs[dtb], va, opts); (s', Mapped(r))
    case WalkOp(dtb, va) => var (s', w) := Translate(s, dtb, va); (s', Found(w.pa))
    case EditOp(dtb, va, v, probe) =>
      var m := W64(s.mem, PteWindow(s, dtb, va) + 8 * (PageOf(va) % 512), v);
      var (s', w) := Translate(s.(mem := m), dtb, probe);
      (s', Found(w.pa))
  }

  /** Just the self indices in use, the level 1 value of every mapped page, and the frame of the table
      at each place. */
  datatype Plain = Plain(procs: map<nat, nat>, leaves: map<(nat, nat), nat>, tables: map<Place, nat>)

  function LeafOfPlain(a: Plain, r: nat, p: nat): nat {
    if (r, p) in a.leaves then a.leaves[(r, p)] else 0
  }

  function PlainError(a: Plain, dtb: nat, va: nat): Option<Error>
    requires dtb in a.procs
  {
    var i := SplitVa(va);
    if i.pml4 == a.procs[dtb] then Some(SelfMapRegion)
    else if i.pdpt == SENTINEL || i.pd == SENTINEL || i.pt == SENTINEL then Some(SentinelIndex)
    else if i.pml4 == SENTINEL then Some(AliasCollision)
    else None
  }

  /** In the self-map region the table whose place the indices spell; elsewhere the page's leaf. */
  function PlainWalk(a: Plain, dtb: nat, va: nat): Option<nat>
    requires dtb in a.procs
  {
    var i := SplitVa(va);
    if i.pml4 == a.procs[dtb] then
      var at := SelfPlace(dtb, a.procs[dtb], i.pdpt, i.pd, i.pt);
      if at in a.tables then Some(a.tables[at] + va % 4096) else None
    else
      var e := LeafOfPlain(a, dtb, PageOf(va));
      if Present(e) then Some(e / 4096 * 4096 + va % 4096) else None
  }

  /** The places of the tables missing on the path of page p, on the frames from next on. */
  function Extended(tables: map<Place, nat>, next: nat, root: nat, level: nat, p: nat): map<Place, nat>
    decreases level
  {
    if level <= 1 then tables
    else
      var at := Place(root, level - 1, Over(p, level - 1));
      if at in tables then Extended(tables, next, root, level - 1, p)
      else Extended(tables[at := next], next + 4096, root, level - 1, p)
  }

  /** The plain machine is told the address of the next frame, and nothing else. */
  function PlainStep(a: Plain, op: Op, frame: nat): (Plain, Out)
    requires !op.CreateOp? ==> op.dtb in a.procs
  {
    match op
    case CreateOp(selfRef) =>
      if exists t :: t in a.procs && a.procs[t] == selfRef then (a, Made(Err(AliasCollision)))
      else (a.(procs := a.procs[frame := selfRef], tables := a.tables[Place(frame, 4, 0) := frame]), Made(Ok(frame)))
    case MapOp(dtb, va, opts) =>
      var pa := if opts.pa.Some? then opts.pa.value else frame;
      (match PlainError(a, dtb, va)
       case Some(e) => (a, Mapped(Err(e)))
       case None =>
         var next := if opts.pa.Some? then frame else frame + 4096;
         (a.(leaves := a.leaves[(dtb, PageOf(va)) := LeafValue(pa, opts)], tables := Extended(a.tables, next, dtb, 4, PageOf(va))),
          Mapped(Ok(pa))))
    case WalkOp(dtb, va) => (a, Found(PlainWalk(a, dtb, va)))
    case EditOp(dtb, va, v, probe) =>
      var a' := a.(leaves := a.leaves[(dtb, PageOf(va)) := v]);
      (a', Found(PlainWalk(a', dtb, probe)))
  }

  /** Frames do not run out, and edits go to the window of a table that exists. */
  predicate Legal(s: Pts, op: Op) {
    && s.next + 4 * 4096 <= Floor(s.procs)
    && match op
       case CreateOp(selfRef) => selfRef < 512 && RoomFor(s, selfRef)
       case MapOp(dtb, _, opts) => dtb in s.procs && (opts.pa.Some? ==> opts.pa.value < TWO_64)
       case WalkOp(dtb, va) => dtb in s.procs
       case EditOp(dtb, va, v, probe) =>
         && dtb in s.procs && v < TWO_64
         && PathOk(PageOf(va), s.procs[dtb]) && BaseTaken(s.mirrors, PteWindow(s, dtb, va))
  }

  predicate LegalRun(s: Pts, ops: seq<Op>)
    decreases |ops|
  {
    ops == [] || (Legal(s, ops[0]) && LegalRun(Step(s, ops[0]).0, ops[1..]))
  }

  /** The places are those of the tree, and no two tables share one. */
  ghost predicate Tabled(own: Tree, tables: map<Place, nat>) {
    && (forall f | f in own :: own[f] in tables && tables[own[f]] == f)
    && (forall at | at in tables :: tables[at] in own && own[tables[at]] == at)
  }

  ghost predicate Agrees(s: Pts, own: Tree, a: Plain) {
    && Good(s, own) && a.procs == s.procs && Tabled(own, a.tables)
    && forall t, q: nat :: PteOf(s.mem, own, t, q) == LeafOfPlain(a, t, q)
  }

  lemma TabledWith(own: Tree, tables: map<Place, nat>, next: nat, at: Place)
    requires Tabled(own, tables) && next !in own && forall f | f in own :: own[f] != at
    ensures Tabled(own[next := at], tables[at := next])
  {
  }

  lemma {:induction false} GrownTabled(own: Tree, tables: map<Place, nat>, next: nat, root: nat, level: nat, p: nat)
    requires Tabled(own, tables) && forall f | f in own :: f < next
    ensures Tabled(Grown(own, next, root, level, p), Extended(tables, next, root, level, p))
    decreases level
  {
    hide Over;
    if level > 1 {
      var at := Place(root, level - 1, Over(p, level - 1));
      if f :| f in own && own[f] == at {
        GrownTabled(own, tables, next, root, level - 1, p);
      } else {
        TabledWith(own, tables, next, at);
        GrownTabled(own[next := at], tables[at := next], next + 4096, root, level - 1, p);
      }
    }
  }

  lemma BelowNext(s: Pts, own: Tree)
    requires Good(s, own)
    ensures forall f | f in own :: f < s.next
  {
    hide NoSentinel, OffSelf, Floor, Links, Up, Numbered, Aliased, Coherent, Clean;
  }

  lemma NoneAtNext(s: Pts, own: Tree)
    requires Good(s, own)
    ensures forall f | f in own :: own[f] != Place(s.next, 4, 0)
  {
    hide NoSentinel, OffSelf, Floor, Links, Up, Numbered, Aliased, Coherent, Clean;
  }

  lemma CreateAgrees(s: Pts, own: Tree, a: Plain, selfRef: nat) returns (own': Tree)
    requires Agrees(s, own, a) && Legal(s, CreateOp(selfRef))
    ensures var (s', out) := Step(s, CreateOp(selfRef)); var (a', expected) := PlainStep(a, CreateOp(selfRef), s.next);
      expected == out && Agrees(s', own', a')
  {
    hide Good, PteOf, LeafOfPlain, CreateProcess;
    own' := CreateProcessOk(s, own, selfRef);
    var (s', r) := CreateProcess(s, selfRef);
    var (a', expected) := PlainStep(a, CreateOp(selfRef), s.next);
    if r.Err? {
      assert r == Err(AliasCollision);
    } else {
      assert r == Ok(s.next);
    }
    assert a'.leaves == a.leaves;
    LeavesOnly(a, a');
    BelowNext(s, own);
    NoneAtNext(s, own);
    if r.Ok? { TabledWith(own, a.tables, s.next, Place(s.next, 4, 0)); }
  }

  lemma LeavesOnly(a: Plain, a': Plain)
    requires a'.leaves == a.leaves
    ensures forall t: nat, q: nat :: LeafOfPlain(a', t, q) == LeafOfPlain(a, t, q)
  {
  }

  lemma MapAgrees(s: Pts, own: Tree, a: Plain, dtb: nat, va: nat, o: Opts) returns (own': Tree)
    requires Agrees(s, own, a) && Legal(s, MapOp(dtb, va, o))
    ensures var (s', out) := Step(s, MapOp(dtb, va, o)); var (a', expected) := PlainStep(a, MapOp(dtb, va, o), s.next);
      expected == out && Agrees(s', own', a')
  {
    hide Good, PteOf, SplitVa, PageOf, MapPage, LeafValue;
    own' := MapPageOk(s, own, dtb, va, o);
    var (s', r) := MapPage(s, dtb, s.procs[dtb], va, o);
    var (a', expected) := PlainStep(a, MapOp(dtb, va, o), s.next);
    BelowNext(s, own);
    GrownTabled(own, a.tables, if o.pa.Some? then s.next else s.next + 4096, dtb, 4, PageOf(va));
    match PlainError(a, dtb, va)
    case Some(e) => assert r == Err(e);
    case None => assert r.Ok?;
  }

  /** Every translation has the plain machine's answer, in the self-map region or out of it. */
  lemma WalkAgrees(s: Pts, own: Tree, a: Plain, dtb: nat, va: nat)
    requires Agrees(s, own, a) && dtb in s.procs
    ensures Translate(s, dtb, va).0 == s && Translate(s, dtb, va).1.pa == PlainWalk(a, dtb, va)
  {
    hide Good, Translate, SplitVa, SelfPlace, PteOf, LeafOfPlain, PageOf, Index, Present;
    IndexOfVa(va);
    var i := SplitVa(va);
    if i.pml4 == s.procs[dtb] {
      SelfMapWalk(s, own, dtb, va);
      var at := SelfPlace(dtb, s.procs[dtb], i.pdpt, i.pd, i.pt);
      if at in a.tables { assert own[a.tables[at]] == at; }
    } else {
      TranslateOk(s, own, dtb, va);
    }
  }

  /** A live window of a level 1 entry belongs to the table that holds the entry. */
  lemma WindowTable(s: Pts, own: Tree, dtb: nat, p: nat) returns (f: nat)
    requires Base(s, own) && dtb in s.procs && PathOk(p, s.procs[dtb])
    requires BaseTaken(s.mirrors, TableWindow(s.procs[dtb], 1, p, s.high))
    ensures f in own && own[f] == Place(dtb, 1, p / 512) && WindowAt(s, own, f) == TableWindow(s.procs[dtb], 1, p, s.high)
  {
    hide NoSentinel, Window, TableWindow, Coherent, Clean;
    var at := Place(dtb, 1, p / 512);
    var k :| 0 <= k < |s.mirrors| && s.mirrors[k].base == TableWindow(s.procs[dtb], 1, p, s.high);
    f := s.mirrors[k].frame;
    NewNumber(s, own, dtb);
    TableWindowIs(s.procs[dtb], 1, p, dtb, s.high);
    PathPlace(p, s.procs[dtb], dtb, 1);
    PlacedRoot(s, own, f);
    assert WindowAt(s, own, f) == Window(s.procs[own[f].root], own[f], s.high);
    NewNumber(s, own, own[f].root);
    WindowInjective(s.procs[own[f].root], own[f], s.procs[dtb], at, s.high);
  }

  /** An edit through a live window changes the leaf of its page and no other. */
  lemma EditAgrees(s: Pts, own: Tree, a: Plain, dtb: nat, va: nat, v: nat, probe: nat)
    requires Agrees(s, own, a) && Legal(s, EditOp(dtb, va, v, probe))
    ensures var op := EditOp(dtb, va, v, probe); var (s', out) := Step(s, op); var (a', expected) := PlainStep(a, op, s.next);
      expected == out && Agrees(s', own, a')
  {
    hide Get, Entry, Present, NoSentinel, Base, Links, Up, PteOf, WalkRows, PageOf, Poke, Translate, TableWindow,
      WindowAt, SplitVa, Index, BaseTaken, W64;
    var p := PageOf(va);
    var f := WindowTable(s, own, dtb, p);
    IndexOne(p);
    LeafPoke(s, own, f, p, v);
    WindowEditTakes(s, own, f, p % 512, v, dtb, probe);
    var s' := Poke(s, f + 8 * (p % 512), v);
    assert Step(s, EditOp(dtb, va, v, probe)) == (s', Found(WalkRows(s'.mem, dtb, probe).pa));
    SyncNoop(s', own);
    WalkAgrees(s', own, PlainStep(a, EditOp(dtb, va, v, probe), s.next).0, dtb, probe);
    TranslateIs(s', dtb, probe);
  }

  lemma TranslateIs(s: Pts, dtb: nat, va: nat)
    requires SyncBack(s.mem, s.mirrors) == s.mem
    ensures Translate(s, dtb, va) == (s, WalkRows(s.mem, dtb, va))
  {
    hide WalkRows, SyncBack;
  }

  lemma IndexOne(p: nat)
    ensures Index(p, 1) == p % 512 && Over(p, 1) == p / 512
  {
  }

  /** One operation: it has the plain machine's output, raising an alias collision only where
      the plain machine does; translations change nothing, so no window ever disagrees. */
  lemma StepAgrees(s: Pts, own: Tree, a: Plain, op: Op) returns (own': Tree)
    requires Agrees(s, own, a) && Legal(s, op)
    ensures var (s', out) := Step(s, op);
      && PlainStep(a, op, s.next).1 == out && Agrees(s', own', PlainStep(a, op, s.next).0)
      && (op.WalkOp? ==> s' == s)
      && SyncBack(s'.mem, s'.mirrors) == s'.mem
  {
    hide Base, Links, Up, PteOf, SplitVa, PageOf, Present, CreateProcess, MapPage, Translate, SyncBack, LeafValue, Index;
    own' := own;
    match op
    case CreateOp(selfRef) =>
      own' := CreateAgrees(s, own, a, selfRef);
      SyncNoop(Step(s, op).0, own');
    case MapOp(dtb, va, opts) =>
      own' := MapAgrees(s, own, a, dtb, va, opts);
      SyncNoop(Step(s, op).0, own');
    case WalkOp(dtb, va) =>
      WalkAgrees(s, own, a, dtb, va);
      SyncNoop(s, own);
    case EditOp(dtb, va, v, probe) =>
      EditAgrees(s, own, a, dtb, va, v, probe);
      SyncNoop(Step(s, op).0, own);
  }

  /** Every run from a good state has the plain machine's outputs throughout. */
  ghost predicate Predicted(s: Pts, a: Plain, ops: seq<Op>)
    decreases |ops|
  {
    ops == [] ||
    (Legal(s, ops[0]) && (!ops[0].CreateOp? ==> ops[0].dtb in a.procs) &&
     var (s', out) := Step(s, ops[0]);
     var (a', expected) := PlainStep(a, ops[0], s.next);
     out == expected && SyncBack(s'.mem, s'.mirrors) == s'.mem && Predicted(s', a', ops[1..]))
  }

  lemma {:induction false} RunAgrees(s: Pts, own: Tree, a: Plain, ops: seq<Op>)
    requires Agrees(s, own, a) && LegalRun(s, ops)
    ensures Predicted(s, a, ops)
    decreases |ops|
  {
    hide Step, PlainStep, Good, PteOf, SyncBack, LeafOfPlain;
    if ops != [] {
      var own' := StepAgrees(s, own, a, ops[0]);
      RunAgrees(Step(s, ops[0]).0, own', PlainStep(a, ops[0], s.next).0, ops[1..]);
    }
  }

  /** A new page-table space over a memory with nothing where windows lie. */
  lemma StartAgrees(mem: Store, physBase: nat, high: bool)
    requires physBase % 4096 == 0 && 0 < physBase <= 0x80_0000_0000
    requires forall page | page in mem :: !WindowRegion(page, high, 0x80_0000_0000)
    ensures Agrees(Pts(mem, physBase, [], map[], high), map[], Plain(map[], map[], map[]))
  {
    hide NoSentinel, Entry;
  }

  /** The whole claim from the start: no alias collision but where the plain machine has one,
      every window equal to its frame, every translation the plain map's. */
  lemma StartRuns(mem: Store, physBase: nat, high: bool, ops: seq<Op>)
    requires physBase % 4096 == 0 && 0 < physBase <= 0x80_0000_0000
    requires forall page | page in mem :: !WindowRegion(page, high, 0x80_0000_0000)
    requires LegalRun(Pts(mem, physBase, [], map[], high), ops)
    ensures Predicted(Pts(mem, physBase, [], map[], high), Plain(map[], map[], map[]), ops)
  {
    StartAgrees(mem, physBase, high);
    RunAgrees(Pts(mem, physBase, [], map[], high), map[], Plain(map[], map[], map[]), ops);
  }
}
