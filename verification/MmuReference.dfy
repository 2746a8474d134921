/** The walk as the processor manual draws it: four entries, one after the other, with every bit named by
    its place (Intel SDM volume 3A, section 4.5); and the uncached translation compared with it. */
module MmuReference {
  import opened Bytes
  import opened Store
  import opened PageTables
  import opened MmuModel

  /** Bits 12 to 51. */
  function Base(e: nat): nat { e / 0x1000 % 0x100_0000_0000 * 0x1000 }

  /** Nothing there, or the entry that maps v and the bytes it maps. */
  datatype Found = Nothing | Found(entry: nat, size: nat)

  /** An entry of a table above level 1: no entry, a large page, or the table below. */
  function Down(e: nat, size: nat, below: Found): Found {
    if e % 2 == 0 then Nothing else if e / 128 % 2 == 1 then Found(e, size) else below
  }

  function Walked(m: Store, cr3: nat, v: nat): Found {
    var e4 := U64(m, Base(cr3) + 8 * (v / 0x80_0000_0000 % 512));
    var e3 := U64(m, Base(e4) + 8 * (v / 0x4000_0000 % 512));
    var e2 := U64(m, Base(e3) + 8 * (v / 0x20_0000 % 512));
    var e1 := U64(m, Base(e2) + 8 * (v / 0x1000 % 512));
    Down(e4, 0x20_0000, Down(e3, 0x4000_0000, Down(e2, 0x20_0000, if e1 % 2 == 0 then Nothing else Found(e1, 0x1000))))
  }

  /** Bits 63 to 47 all alike. */
  predicate SignExtended(v: nat) { v < 0x8000_0000_0000 || 0xffff_8000_0000_0000 <= v < 0x1_0000_0000_0000_0000 }

  /** Bit 1 allows writes, bit 63 forbids fetches, and with bit 20 of cr4 bit 2 forbids them too. */
  predicate Refuses(e: nat, cr4: nat, access: Access, reason: Reason) {
    match reason
    case WriteToReadOnly => access == Writing && e / 2 % 2 == 0
    case NxExecute => access == Fetching && e / 0x8000_0000_0000_0000 % 2 == 1
    case SmepViolation =>
      access == Fetching && e / 0x8000_0000_0000_0000 % 2 == 0 && cr4 / 0x10_0000 % 2 == 1 && e / 4 % 2 == 1
    case _ => false
  }

  function SizeAt(level: nat): nat { if level == 1 then 0x1000 else if level == 3 then 0x4000_0000 else 0x20_0000 }

  ghost predicate SameEnd(w: Walk, f: Found) {
    match w case Missing => f == Nothing case Leaf(level, e, _) => f == Found(e, SizeAt(level))
  }

  lemma BaseIs(e: nat)
    ensures FrameOf(e) == Base(e) && Base(e) % 0x1000 == 0
  {
  }

  /** One step of the walk above level 1. */
  lemma StepIs(m: Store, t: nat, level: nat, p: nat, i: nat, below: Found)
    requires 1 < level <= 4 && Index(p, level) == i
    requires SameEnd(WalkFrom(m, Base(U64(m, t + 8 * i)), level - 1, p), below)
    ensures SameEnd(WalkFrom(m, t, level, p), Down(U64(m, t + 8 * i), SizeAt(level), below))
  {
    hide U64, Base, Index, SizeAt;
    BaseIs(U64(m, t + 8 * i));
  }

  lemma LastIs(m: Store, t: nat, p: nat, i: nat)
    requires Index(p, 1) == i
    ensures var e := U64(m, t + 8 * i); SameEnd(WalkFrom(m, t, 1, p), if e % 2 == 0 then Nothing else Found(e, 0x1000))
  {
    hide U64, Index;
  }

  lemma WalkIs(m: Store, cr3: nat, v: nat)
    ensures SameEnd(WalkFrom(m, FrameOf(cr3), 4, PageOf(v)), Walked(m, cr3, v))
  {
    hide U64, WalkFrom, SameEnd, Index, PageOf, Base, Down, FrameOf;
    var p := PageOf(v);
    ShiftedIndices(v);
    BaseIs(cr3);
    var i4, i3, i2, i1 := v / 0x80_0000_0000 % 512, v / 0x4000_0000 % 512, v / 0x20_0000 % 512, v / 0x1000 % 512;
    var e4 := U64(m, Base(cr3) + 8 * i4);
    var e3 := U64(m, Base(e4) + 8 * i3);
    var e2 := U64(m, Base(e3) + 8 * i2);
    var e1 := U64(m, Base(e2) + 8 * i1);
    LastIs(m, Base(e2), p, i1);
    var f1 := if e1 % 2 == 0 then Nothing else Found(e1, 0x1000);
    StepIs(m, Base(e3), 2, p, i2, f1);
    StepIs(m, Base(e4), 3, p, i3, Down(e2, 0x20_0000, f1));
    StepIs(m, Base(cr3), 4, p, i4, Down(e3, 0x4000_0000, Down(e2, 0x20_0000, f1)));
  }

  lemma CanonicalIs(v: nat)
    requires v < TWO_64
    ensures Canonical(v) <==> SignExtended(v)
  {
  }

  lemma DeniedIs(e: nat, cr4: nat, access: Access, h: Hit)
    requires h.w == Writable(e) && h.u == User(e) && h.x == !NoExecute(e)
    ensures match Denied(h, access, cr4)
      case Some(reason) => forall r :: Refuses(e, cr4, access, r) <==> r == reason
      case None => forall r :: !Refuses(e, cr4, access, r)
  {
  }

  /** What the tables grant or deny a page, by the entry found. */
  lemma AskedIs(m: Store, cr3: nat, cr4: nat, v: nat, access: Access)
    ensures var f := Walked(m, cr3, v); var q := Asked(m, cr3, cr4, PageOf(v), access);
      && (f == Nothing ==> q == Deny(NotPresent))
      && (f != Nothing ==>
            && (forall reason | Refuses(f.entry, cr4, access, reason) :: q == Deny(reason))
            && ((forall reason :: !Refuses(f.entry, cr4, access, reason)) ==>
                  q.Grant? && q.hit.paBase == Base(f.entry) && SizeAt(q.hit.level) == f.size))
  {
    WalkIs(m, cr3, v);
    hide Walked, WalkFrom, PageOf, FrameOf, Base, Refuses, Denied, Writable, User, NoExecute, Index, SizeAt;
    var f, w := Walked(m, cr3, v), WalkFrom(m, FrameOf(cr3), 4, PageOf(v));
    if f != Nothing {
      BaseIs(f.entry);
      var h := HitOf(w, PageOf(v));
      DeniedIs(f.entry, cr4, access, h);
      if Denied(h, access, cr4).Some? { assert Refuses(f.entry, cr4, access, Denied(h, access, cr4).value); }
    }
  }

  lemma OffsetIs(v: nat, level: nat)
    ensures OffsetOf(v, level) == v % SizeAt(level)
  {
  }

  /** On any tables, large pages and self-references included, translation without a cache is the manual's
      walk: it faults on a non-canonical address, on a missing entry and on what the last entry forbids, and
      otherwise gives the entry's frame with the offset or-ed in, which adds it where the frame is aligned
      to the page. */
  lemma UncachedIs(m: Store, cr3: nat, cr4: nat, va: int, access: Access)
    ensures var v := va % 0x1_0000_0000_0000_0000; var f := Walked(m, cr3, v); var o := Uncached(m, cr3, cr4, va, access);
      && (!SignExtended(v) ==> o == PageFault(v, NonCanonical, access))
      && (SignExtended(v) && f == Nothing ==> o == PageFault(v, NotPresent, access))
      && (SignExtended(v) && f != Nothing ==>
            && (forall reason | Refuses(f.entry, cr4, access, reason) :: o == PageFault(v, reason, access))
            && ((forall reason :: !Refuses(f.entry, cr4, access, reason)) ==>
                  o.Translated? && o.pa == BitOr(Base(f.entry), v % f.size)
                  && (f.size == 0x1000 ==> o.pa == Base(f.entry) + v % 0x1000)))
  {
    var v: nat := va % TWO_64;
    CanonicalIs(v);
    AskedIs(m, cr3, cr4, v, access);
    hide Walked, Canonical, SignExtended, BitOr, Asked, PageOf, Base, Refuses, OffsetOf, SizeAt;
    var f, q := Walked(m, cr3, v), Asked(m, cr3, cr4, PageOf(v), access);
    if SignExtended(v) && q.Grant? && f != Nothing {
      OffsetIs(v, q.hit.level);
      BaseIs(f.entry);
      if f.size == 0x1000 { BitOrPage(Base(f.entry), v % 0x1000); }
    }
  }
}
