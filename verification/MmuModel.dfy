/** The guest MMU as a state and functions on it: cached translation, mapping,
    unmapping, address spaces. Its results are compared with the uncached walk
    and with a plain map from virtual pages to leaf entries. */
module MmuModel {
  import opened Bytes
  import opened Store
  import opened PageTables
  import opened TableBuilder
  import opened Wrappers

  datatype Access = Reading | Writing | Fetching

  datatype Reason = NonCanonical | NotPresent | WriteToReadOnly | NxExecute | SmepViolation

  /** What the cache keeps of a successful walk. */
  datatype Hit = Hit(paBase: nat, w: bool, u: bool, x: bool, level: nat, ptePa: Option<nat>)

  datatype PageAnswer = Grant(hit: Hit) | Deny(reason: Reason)

  datatype Outcome =
    | Translated(pa: nat, hit: Hit)
    | PageFault(va: nat, reason: Reason, access: Access)

  const TLB_LIMIT: nat := 4096

  datatype State = State(
    mem: Store,
    cr3: nat,
    cr4: nat,
    next: nat,
    tlb: map<(nat, Access), Hit>)

  // ------------------------------------------------------------- translation

  function OffsetOf(v: nat, level: nat): nat {
    if level == 1 then v % 4096 else if level == 3 then v % 0x4000_0000 else v % 0x20_0000
  }

  function HitOf(w: Walk, p: nat): Hit
    requires w.Leaf?
  {
    Hit(FrameOf(w.entry), Writable(w.entry), User(w.entry), !NoExecute(w.entry), w.level,
        if w.level == 1 then Some(w.table + 8 * Index(p, 1)) else None)
  }

  function Denied(h: Hit, access: Access, cr4: nat): Option<Reason> {
    if access == Writing && !h.w then Some(WriteToReadOnly)
    else if access == Fetching && !h.x then Some(NxExecute)
    else if cr4 / 0x10_0000 % 2 == 1 && access == Fetching && h.u then Some(SmepViolation)
    else None
  }

  /** What the tables say of a page and an access. */
  function Asked(m: Store, cr3: nat, cr4: nat, p: nat, access: Access): PageAnswer {
    var w := WalkFrom(m, FrameOf(cr3), 4, p);
    if w.Missing? then Deny(NotPresent)
    else
      var h := HitOf(w, p);
      match Denied(h, access, cr4) case Some(reason) => Deny(reason) case None => Grant(h)
  }

  /** What a walk of the tables in memory says, with no cache in between. */
  function Uncached(m: Store, cr3: nat, cr4: nat, va: int, access: Access): Outcome {
    var v := va % TWO_64;
    if !Canonical(v) then PageFault(v, NonCanonical, access)
    else
      match Asked(m, cr3, cr4, PageOf(v), access)
      case Deny(reason) => PageFault(v, reason, access)
      case Grant(h) => Translated(BitOr(h.paBase, OffsetOf(v, h.level)), h)
  }

  /** The accessed and dirty update of a 4K leaf; any entry write empties the cache. */
  function TouchLeaf(s: State, h: Hit, access: Access): State {
    match h.ptePa
    case None => s
    case Some(pte) =>
      var e := U64(s.mem, pte);
      if !Accessed(e) then
        s.(mem := W64(s.mem, pte, if access == Writing then SetDirty(SetAccessed(e)) else SetAccessed(e)), tlb := map[])
      else if access == Writing && !Dirty(e) then
        s.(mem := W64(s.mem, pte, SetDirty(e)), tlb := map[])
      else s
  }

  function Translate(s: State, va: int, access: Access): (State, Outcome) {
    var v := va % TWO_64;
    if !Canonical(v) then (s, PageFault(v, NonCanonical, access))
    else if (v / 4096, access) in s.tlb then
      var h := s.tlb[(v / 4096, access)];
      (s, Translated(BitOr(h.paBase, OffsetOf(v, h.level)), h))
    else
      var o := Uncached(s.mem, s.cr3, s.cr4, va, access);
      if o.PageFault? then (s, o)
      else
        var cached := if |s.tlb| < TLB_LIMIT then s.(tlb := s.tlb[(v / 4096, access) := o.hit]) else s;
        (TouchLeaf(cached, o.hit, access), o)
  }

  // -------------------------------------------------------- table operations

  function MapPage(s: State, va: int, pa: nat, fl: Flags): State {
    var b := MapFrom(s.mem, s.next, FrameOf(s.cr3), 4, PageOf(va), LeafEntry(pa, fl));
    s.(mem := b.mem, next := b.next, tlb := map[])
  }

  function Unmap(s: State, va: int): State {
    match PteSlot(s.mem, FrameOf(s.cr3), 4, PageOf(va))
    case None => s
    case Some(pte) => s.(mem := W64(s.mem, pte, 0), tlb := map[])
  }

  function NewAddressSpace(s: State): (State, nat) {
    (s.(mem := Put(s.mem, s.next, Zeros(4096)), next := s.next + 4096), s.next)
  }

  function SwitchTo(s: State, cr3: nat): State {
    s.(cr3 := cr3, tlb := map[])
  }

  // --------------------------------------------------------- TLB transparency

  /** The accessed (and for writes, dirty) bit of a cached 4K leaf is set in memory. */
  predicate LeafMarked(m: Store, h: Hit, access: Access) {
    match h.ptePa
    case None => true
    case Some(pte) => Accessed(U64(m, pte)) && (access == Writing ==> Dirty(U64(m, pte)))
  }

  /** n is an address shifted by 12 bits; its low 36 bits are the page number. */
  ghost predicate CacheEntryOk(s: State, n: nat, access: Access)
    requires (n, access) in s.tlb
  {
    && Asked(s.mem, s.cr3, s.cr4, n % 0x10_0000_0000, access) == Grant(s.tlb[(n, access)])
    && LeafMarked(s.mem, s.tlb[(n, access)], access)
  }

  /** Every cached walk is what the tables say now, and was marked when cached. */
  ghost predicate CacheOk(s: State) {
    && |s.tlb| <= 4096
    && forall n: nat, access: Access | (n, access) in s.tlb :: CacheEntryOk(s, n, access)
  }

  /** The entries of every aligned table keep all but their accessed and dirty bits. */
  ghost predicate SameTables(m: Store, m': Store) {
    forall f: nat, i: nat | f % 4096 == 0 && i < 512 :: SameButAD(Entry(m, f, i), Entry(m', f, i))
  }

  lemma {:induction false} LeafEntryAt(m: Store, table: nat, level: nat, p: nat)
    requires 1 <= level <= 4 && table % 4096 == 0
    requires WalkFrom(m, table, level, p).Leaf?
    ensures var w := WalkFrom(m, table, level, p);
      w.table % 4096 == 0 && w.entry == Entry(m, w.table, Index(p, w.level))
    decreases level
  {
    var e := Entry(m, table, Index(p, level));
    if level > 1 && !Large(e) { LeafEntryAt(m, FrameOf(e), level - 1, p); }
  }

  lemma HitSameTables(w: Walk, w': Walk, p: nat)
    requires w.Leaf? && SameWalk(w, w')
    ensures HitOf(w, p) == HitOf(w', p)
  {
  }

  lemma AskedSame(m: Store, m': Store, cr3: nat, cr4: nat, p: nat, access: Access)
    requires SameTables(m, m')
    ensures Asked(m', cr3, cr4, p, access) == Asked(m, cr3, cr4, p, access)
  {
    hide WalkFrom, FrameOf, Entry, SameButAD, HitOf;
    WalkSameButAD(m, m', FrameOf(cr3), 4, p);
    var w, w' := WalkFrom(m, FrameOf(cr3), 4, p), WalkFrom(m', FrameOf(cr3), 4, p);
    if w.Leaf? { HitSameTables(w, w', p); }
  }

  /** Accessed and dirty bits decide no translation: stores whose tables agree off
      those bits translate every address alike, from every root. */
  lemma UncachedSame(m: Store, m': Store, cr3: nat, cr4: nat, va: int, access: Access)
    requires SameTables(m, m')
    ensures Uncached(m', cr3, cr4, va, access) == Uncached(m, cr3, cr4, va, access)
  {
    hide SameTables, Asked, BitOr, OffsetOf, Canonical;
    AskedSame(m, m', cr3, cr4, PageOf(va % TWO_64), access);
  }

  /** Marking the leaf of a walk changes nothing but its accessed and dirty bits. */
  lemma TouchLeafEffect(s: State, w: Walk, p: nat, access: Access)
    requires w.Leaf? && w.table % 4096 == 0
    ensures var h := HitOf(w, p); var s' := TouchLeaf(s, h, access);
      && SameTables(s.mem, s'.mem) && LeafMarked(s'.mem, h, access)
      && s' == s.(mem := s'.mem, tlb := s'.tlb)
      && (s'.tlb == map[] || (s' == s && LeafMarked(s.mem, h, access)))
      && (forall a: nat | a / 4096 * 4096 != w.table :: Get(s'.mem, a) == Get(s.mem, a))
      && s.mem.Keys <= s'.mem.Keys
  {
    hide Get, U64, W64, SetAccessed, SetDirty, Accessed, Dirty, SameButAD;
    var h := HitOf(w, p);
    var s' := TouchLeaf(s, h, access);
    SameButADRefl(s.mem);
    if w.level == 1 {
      var i := Index(p, 1);
      var pte := w.table + 8 * i;
      var e := Entry(s.mem, w.table, i);
      U64InRange(s.mem, pte);
      SetAccessedSame(e);
      SetDirtySame(e);
      SetDirtySame(SetAccessed(e));
      SameButADTrans(e, SetAccessed(e), SetDirty(SetAccessed(e)));
      SlotInFrame(w.table, i);
      if !Accessed(e) {
        SetEntryEffect(s.mem, w.table, i, if access == Writing then SetDirty(SetAccessed(e)) else SetAccessed(e));
      } else if access == Writing && !Dirty(e) {
        SetEntryEffect(s.mem, w.table, i, SetDirty(e));
      }
    }
  }

  lemma SameButADRefl(m: Store)
    ensures SameTables(m, m)
  {
  }

  lemma SameButADTrans(e: nat, e': nat, e'': nat)
    requires SameButAD(e, e') && SameButAD(e', e'')
    ensures SameButAD(e, e'')
  {
  }

  /** Transparency of one call: on a sound cache, the cached translation returns what
      the uncached walk does, leaves a sound cache, changes no table entry beyond
      accessed and dirty bits, and has marked the 4K leaf it went through. */
  lemma TranslateTransparent(s: State, va: int, access: Access)
    requires CacheOk(s)
    ensures var (s', o) := Translate(s, va, access);
      && o == Uncached(s.mem, s.cr3, s.cr4, va, access)
      && CacheOk(s')
      && SameTables(s.mem, s'.mem) && s' == s.(mem := s'.mem, tlb := s'.tlb)
      && (o.Translated? ==> LeafMarked(s'.mem, o.hit, access))
  {
    hide Get, U64, W64, TouchLeaf, LeafMarked, SameTables, Asked, HitOf, BitOr, OffsetOf, Canonical;
    var v := va % TWO_64;
    SameButADRefl(s.mem);
    if Canonical(v) {
      if (v / 4096, access) in s.tlb {
        assert CacheEntryOk(s, v / 4096, access);
      } else if Asked(s.mem, s.cr3, s.cr4, PageOf(v), access).Grant? {
        MissKeeps(s, v / 4096, access);
      }
    }
  }

  lemma AskedHit(m: Store, cr3: nat, cr4: nat, p: nat, access: Access)
    ensures var o, w := Asked(m, cr3, cr4, p, access), WalkFrom(m, FrameOf(cr3), 4, p);
      o.Grant? ==> w.Leaf? && w.table % 4096 == 0 && o.hit == HitOf(w, p)
  {
    hide WalkFrom, HitOf, Denied, Entry;
    if WalkFrom(m, FrameOf(cr3), 4, p).Leaf? { LeafEntryAt(m, FrameOf(cr3), 4, p); }
  }

  /** The state after a walk that the cache did not have. */
  function Missed(s: State, n: nat, h: Hit, access: Access): State {
    TouchLeaf(if |s.tlb| < TLB_LIMIT then s.(tlb := s.tlb[(n, access) := h]) else s, h, access)
  }

  lemma MissKeeps(s: State, n: nat, access: Access)
    requires CacheOk(s) && (n, access) !in s.tlb
    ensures var o := Asked(s.mem, s.cr3, s.cr4, n % 0x10_0000_0000, access);
      o.Grant? ==>
      var h := o.hit; var s' := Missed(s, n, h, access);
      && CacheOk(s') && SameTables(s.mem, s'.mem) && s' == s.(mem := s'.mem, tlb := s'.tlb) && LeafMarked(s'.mem, h, access)
  {
    hide Get, U64, W64, TouchLeaf, LeafMarked, SameTables, Asked, HitOf, WalkFrom;
    var p := n % 0x10_0000_0000;
    AskedHit(s.mem, s.cr3, s.cr4, p, access);
    if Asked(s.mem, s.cr3, s.cr4, p, access).Deny? { return; }
    var h := Asked(s.mem, s.cr3, s.cr4, p, access).hit;
    var w := WalkFrom(s.mem, FrameOf(s.cr3), 4, p);
    var c := if |s.tlb| < TLB_LIMIT then s.(tlb := s.tlb[(n, access) := h]) else s;
    TouchLeafEffect(c, w, p, access);
    var s' := Missed(s, n, h, access);
    forall k: nat, acc: Access | (k, acc) in s'.tlb
      ensures CacheEntryOk(s', k, acc)
    {
      if (k, acc) != (n, access) { assert CacheEntryOk(s, k, acc); }
    }
  }
}
