/** Four-level page tables held as bytes in a store (Intel SDM volume 3A,
    section 4.5), the uncached walk over them, and the shape that makes the
    tables of several address spaces a forest. */
module PageTables {
  import opened Bytes
  import opened Store

  // ----------------------------------------------------------- entry format

  predicate Present(e: nat) { e % 2 == 1 }
  predicate Writable(e: nat) { e / 2 % 2 == 1 }
  predicate User(e: nat) { e / 4 % 2 == 1 }
  predicate Accessed(e: nat) { e / 32 % 2 == 1 }
  predicate Dirty(e: nat) { e / 64 % 2 == 1 }
  predicate Large(e: nat) { e / 128 % 2 == 1 }
  predicate NoExecute(e: nat) { e / 0x8000_0000_0000_0000 % 2 == 1 }

  /** e & 0x000f_ffff_ffff_f000. */
  function FrameOf(e: nat): (f: nat)
    ensures f % 4096 == 0 && f < TWO_52
  {
    e / 4096 % 0x100_0000_0000 * 4096
  }

  /** e | ACCESSED, and e | DIRTY. */
  function SetAccessed(e: nat): nat { if Accessed(e) then e else e + 32 }
  function SetDirty(e: nat): nat { if Dirty(e) then e else e + 64 }

  datatype Flags = Flags(write: bool, user: bool, nx: bool, global: bool)

  /** The leaf entry that mapPage writes: present, accessed and dirty always. */
  function LeafEntry(pa: nat, fl: Flags): nat {
    FrameOf(pa) + 0x61 + (if fl.write then 2 else 0) + (if fl.user then 4 else 0)
    + (if fl.global then 0x100 else 0) + (if fl.nx then 0x8000_0000_0000_0000 else 0)
  }

  lemma EntryParts(hi: nat, frame: nat, low: nat)
    requires hi < 2 && frame < 0x100_0000_0000 && low < 4096
    ensures var e := hi * 0x8000_0000_0000_0000 + frame * 4096 + low;
      && e < TWO_64 && FrameOf(e) == frame * 4096 && (NoExecute(e) <==> hi == 1)
      && e % 256 == low % 256
  {
    var e := hi * 0x8000_0000_0000_0000 + frame * 4096 + low;
    var up := hi * 0x8_0000_0000_0000 + frame;
    ModUnique(e, 4096, up, low);
    ModUnique(up, 0x100_0000_0000, hi * 0x800, frame);
    ModUnique(e, 0x8000_0000_0000_0000, hi, frame * 4096 + low);
    ModUnique(e, 256, hi * 0x80_0000_0000_0000 + frame * 16 + low / 256, low % 256);
  }

  lemma EvenAdd(u: nat, x: nat)
    ensures (2 * u + x) % 2 == x % 2
  {
  }

  /** Bit k of e, for k < 8, is bit k of e % 256. */
  lemma LowBit(e: nat, k: nat)
    requires k == 1 || k == 2 || k == 4 || k == 32 || k == 64 || k == 128
    ensures e / k % 2 == e % 256 / k % 2
  {
    var q, b := e / 256, e % 256;
    var u := if k == 1 then 128 * q else if k == 2 then 64 * q else if k == 4 then 32 * q
             else if k == 32 then 4 * q else if k == 64 then 2 * q else q;
    assert e / k == 2 * u + b / k;
    EvenAdd(u, b / k);
  }

  /** The low flag bits are fixed by the entry modulo 256. */
  lemma LowFlags(e: nat)
    ensures var b := e % 256;
      && Present(e) == Present(b) && Writable(e) == Writable(b) && User(e) == User(b)
      && Accessed(e) == Accessed(b) && Dirty(e) == Dirty(b) && Large(e) == Large(b)
  {
    LowBit(e, 1);
    LowBit(e, 2);
    LowBit(e, 4);
    LowBit(e, 32);
    LowBit(e, 64);
    LowBit(e, 128);
  }

  lemma LeafBits(write: bool, user: bool)
    ensures var b := 0x61 + (if write then 2 else 0) + (if user then 4 else 0);
      Present(b) && Accessed(b) && Dirty(b) && !Large(b) && Writable(b) == write && User(b) == user
  {
  }

  lemma LeafEntryFields(pa: nat, fl: Flags)
    ensures LeafEntry(pa, fl) < TWO_64
    ensures var e := LeafEntry(pa, fl);
      && Present(e) && Accessed(e) && Dirty(e) && !Large(e) && FrameOf(e) == FrameOf(pa)
      && Writable(e) == fl.write && User(e) == fl.user && NoExecute(e) == fl.nx
  {
    var bits := 0x61 + (if fl.write then 2 else 0) + (if fl.user then 4 else 0);
    var low := bits + (if fl.global then 0x100 else 0);
    var e := LeafEntry(pa, fl);
    hide FrameOf, NoExecute, Present, Accessed, Dirty, Large, Writable, User;
    EntryParts(if fl.nx then 1 else 0, FrameOf(pa) / 4096, low);
    assert e % 256 == bits;
    LowFlags(e);
    LeafBits(fl.write, fl.user);
  }

  /** The digits below 4096 are those of the low part. */
  lemma LowDigits(n: nat, b: nat)
    requires b < 4096
    ensures var e := n * 4096 + b;
      && e % 2 == b % 2 && e / 2 % 2 == b / 2 % 2 && e / 4 % 2 == b / 4 % 2 && e / 8 % 4 == b / 8 % 4
      && e / 32 % 2 == b / 32 % 2 && e / 64 % 2 == b / 64 % 2 && e / 128 % 32 == b / 128 % 32
  {
    Digit(n, b, 1, 2048, 2);
    Digit(n, b, 2, 1024, 2);
    Digit(n, b, 4, 512, 2);
    Digit(n, b, 8, 128, 4);
    Digit(n, b, 32, 64, 2);
    Digit(n, b, 64, 32, 2);
    Digit(n, b, 128, 1, 32);
  }

  lemma Digit(n: nat, b: nat, k: nat, w: nat, m: nat)
    requires k > 0 && m > 0 && k * m * w == 4096
    ensures (n * 4096 + b) / k % m == b / k % m
  {
    var q, r := b / k, b % k;
    assert n * 4096 + b == k * (n * (m * w) + q) + r;
    ModUnique(n * 4096 + b, k, n * (m * w) + q, r);
    ModUnique(q, m, q / m, q % m);
    assert n * (m * w) + q == m * (n * w + q / m) + q % m;
    ModUnique(n * (m * w) + q, m, n * w + q / m, q % m);
  }

  /** The bits of a leaf entry of mapPage, one by one. */
  lemma LeafEntryBits(pa: nat, fl: Flags)
    ensures var e := LeafEntry(pa, fl);
      && e % 2 == 1 && (e / 2 % 2 == 1 <==> fl.write) && (e / 4 % 2 == 1 <==> fl.user) && e / 8 % 4 == 0
      && e / 32 % 2 == 1 && e / 64 % 2 == 1 && e / 128 % 32 == (if fl.global then 2 else 0)
      && e / 0x1000 % 0x100_0000_0000 == pa / 0x1000 % 0x100_0000_0000
      && e / 0x10_0000_0000_0000 == (if fl.nx then 0x800 else 0)
  {
    var low := LeafLow(fl);
    var f := pa / 4096 % 0x100_0000_0000;
    var n := f + if fl.nx then 0x8_0000_0000_0000 else 0;
    assert LeafEntry(pa, fl) == n * 4096 + low;
    hide LeafEntry;
    LowDigits(n, low);
    LeafLowBits(fl);
    ModUnique(n * 4096 + low, 4096, n, low);
    ModUnique(n, 0x100_0000_0000, if fl.nx then 0x800 else 0, f);
    ModUnique(n * 4096 + low, 0x10_0000_0000_0000, if fl.nx then 0x800 else 0, f * 4096 + low);
  }

  function LeafLow(fl: Flags): nat {
    0x61 + (if fl.write then 2 else 0) + (if fl.user then 4 else 0) + (if fl.global then 0x100 else 0)
  }

  lemma LeafLowBits(fl: Flags)
    ensures var b := LeafLow(fl);
      && b % 2 == 1 && (b / 2 % 2 == 1 <==> fl.write) && (b / 4 % 2 == 1 <==> fl.user) && b / 8 % 4 == 0
      && b / 32 % 2 == 1 && b / 64 % 2 == 1 && b / 128 % 32 == (if fl.global then 2 else 0)
  {
  }

  lemma TableEntryFields(nt: nat)
    requires nt % 4096 == 0 && nt < TWO_52
    ensures var e := FrameOf(nt) + 7;
      e < TWO_64 && Present(e) && Writable(e) && User(e) && !Accessed(e) && !Dirty(e) && !Large(e) && !NoExecute(e) && FrameOf(e) == nt
  {
    var n := nt / 4096;
    ModUnique(n, 0x100_0000_0000, 0, n);
    assert FrameOf(nt) == nt;
    EntryParts(0, n, 7);
    hide FrameOf, Present, Large, Writable, User, Accessed, Dirty, NoExecute;
    LowFlags(nt + 7);
    TableBits();
  }

  lemma TableBits()
    ensures Present(7) && !Large(7) && Writable(7) && User(7) && !Accessed(7) && !Dirty(7)
  {
  }

  /** Two entries that differ at most in the accessed and dirty bits. */
  ghost predicate SameButAD(e: nat, e': nat) {
    && Present(e) == Present(e') && Writable(e) == Writable(e') && User(e) == User(e')
    && Large(e) == Large(e') && NoExecute(e) == NoExecute(e') && FrameOf(e) == FrameOf(e')
  }

  lemma LowBits(e: nat)
    ensures var s := e % 32; Present(e) == Present(s) && Writable(e) == Writable(s) && User(e) == User(s)
  {
    var u, s := e / 32, e % 32;
    assert e == 2 * (16 * u) + s;
    EvenAdd(16 * u, s);
    assert e / 2 == 2 * (8 * u) + s / 2;
    EvenAdd(8 * u, s / 2);
    assert e / 4 == 2 * (4 * u) + s / 4;
    EvenAdd(4 * u, s / 4);
  }

  lemma HighBits(e: nat)
    ensures e / 4096 == e / 128 / 32 && e / 0x8000_0000_0000_0000 == e / 128 / 0x100_0000_0000_0000
  {
  }

  lemma AgreeOffAD(e: nat, e': nat)
    requires e / 128 == e' / 128 && e % 32 == e' % 32
    ensures SameButAD(e, e')
  {
    LowBits(e);
    LowBits(e');
    HighBits(e);
    HighBits(e');
    hide Writable, User;
  }

  lemma AddAccessed(e: nat)
    requires !Accessed(e)
    ensures (e + 32) / 128 == e / 128 && (e + 32) % 32 == e % 32 && (e + 32) / 64 == e / 64 && Accessed(e + 32)
  {
    var h, s := e / 32, e % 32;
    var t := h / 2;
    assert h == 2 * t && e == 64 * t + s;
    ModUnique(e, 64, t, s);
    ModUnique(e + 32, 64, t, s + 32);
    ModUnique(e + 32, 32, h + 1, s);
    HalfAgain(e);
    HalfAgain(e + 32);
  }

  lemma HalfAgain(v: nat)
    ensures v / 128 == v / 64 / 2
  {
    var q, r := v / 64, v % 64;
    ModUnique(v, 128, q / 2, 64 * (q % 2) + r);
  }

  lemma AddDirty(e: nat)
    requires !Dirty(e)
    ensures (e + 64) / 128 == e / 128 && (e + 64) % 32 == e % 32 && (e + 64) / 32 == e / 32 + 2 && Dirty(e + 64)
  {
    var h, s := e / 64, e % 64;
    var t := h / 2;
    assert h == 2 * t && e == 128 * t + s;
    ModUnique(e, 128, t, s);
    ModUnique(e + 64, 128, t, s + 64);
    ModUnique(e + 64, 64, h + 1, s);
    ModUnique(e + 64, 32, e / 32 + 2, e % 32);
  }

  lemma SetAccessedSame(e: nat)
    requires e < TWO_64
    ensures SetAccessed(e) < TWO_64 && Accessed(SetAccessed(e)) && SameButAD(e, SetAccessed(e))
    ensures Dirty(SetAccessed(e)) == Dirty(e)
  {
    hide SameButAD;
    if !Accessed(e) { AddAccessed(e); }
    AgreeOffAD(e, SetAccessed(e));
  }

  lemma SetDirtySame(e: nat)
    requires e < TWO_64
    ensures SetDirty(e) < TWO_64 && Dirty(SetDirty(e)) && SameButAD(e, SetDirty(e))
    ensures Accessed(SetDirty(e)) == Accessed(e)
  {
    hide SameButAD;
    if !Dirty(e) { AddDirty(e); }
    AgreeOffAD(e, SetDirty(e));
  }

  // ------------------------------------------------------- virtual addresses

  /** Bits 47..63 all equal. */
  predicate Canonical(v: nat) {
    v / 0x8000_0000_0000 == 0 || v / 0x8000_0000_0000 == 0x1_ffff
  }

  /** Sign extension of bit 47, on the low 64 bits of va. */
  function Canonicalize(va: int): nat {
    var low := va % 0x1_0000_0000_0000;
    if low / 0x8000_0000_0000 == 1 then low + 0xffff_0000_0000_0000 else low
  }

  /** The 36-bit number of a virtual page: what the four indices spell. */
  function PageOf(va: int): nat { va / 4096 % 0x10_0000_0000 }

  /** The number of the table of this level that covers page p: p divided by the pages it covers. */
  function Over(p: nat, level: nat): nat {
    if level == 0 then p else if level == 1 then p / 512 else if level == 2 then p / 0x4_0000
    else if level == 3 then p / 0x800_0000 else p / 0x10_0000_0000
  }

  /** The 9-bit index that page p uses in a table of this level. */
  function Index(p: nat, level: nat): (i: nat)
    requires 1 <= level <= 4
    ensures i < 512
  {
    Over(p, level - 1) % 512
  }

  /** The two halves of the canonical range, by page number. */
  lemma CanonicalHalves(v: nat)
    requires v < TWO_64 && Canonical(v)
    ensures PageOf(v) < 0x8_0000_0000 ==> v / 4096 == PageOf(v)
    ensures PageOf(v) >= 0x8_0000_0000 ==> v / 4096 == PageOf(v) + 0xf_fff0_0000_0000
  {
    var n := v / 4096;
    ModUnique(v, 0x8000_0000_0000, n / 0x8_0000_0000, n % 0x8_0000_0000 * 4096 + v % 4096);
    if n / 0x8_0000_0000 == 0 {
      ModUnique(n, 0x10_0000_0000, 0, n);
    } else {
      ModUnique(n, 0x10_0000_0000, 0xffff, n - 0xf_fff0_0000_0000);
    }
  }

  /** A canonical address is its page and its offset. */
  lemma CanonicalPage(v: nat, w: nat)
    requires v < TWO_64 && w < TWO_64 && Canonical(v) && Canonical(w)
    ensures PageOf(v) == PageOf(w) <==> v / 4096 == w / 4096
  {
    CanonicalHalves(v);
    CanonicalHalves(w);
  }

  lemma CanonicalizeFacts(va: int)
    ensures Canonicalize(va) < TWO_64 && Canonical(Canonicalize(va)) && PageOf(Canonicalize(va)) == PageOf(va)
    ensures Canonicalize(va) % 4096 == va % 4096
  {
    var q, low := va / 0x1_0000_0000_0000, va % 0x1_0000_0000_0000;
    var n := low / 4096;
    ModUnique(va, 4096, q * 0x10_0000_0000 + n, low % 4096);
    ModUnique(va / 4096, 0x10_0000_0000, q, n);
    var c := Canonicalize(va);
    if low / 0x8000_0000_0000 == 1 {
      ModUnique(c, 0x8000_0000_0000, 0x1_ffff, low - 0x8000_0000_0000);
      ModUnique(c, 4096, 0xf_fff0_0000_0000 + n, low % 4096);
      ModUnique(c / 4096, 0x10_0000_0000, 0xffff, n);
    } else {
      ModUnique(c, 0x8000_0000_0000, 0, low);
      ModUnique(c / 4096, 0x10_0000_0000, 0, n);
    }
  }

  /** The four table indices, from the address as the source shifts it. */
  lemma ShiftedIndices(v: nat)
    ensures v / 0x80_0000_0000 % 512 == Index(PageOf(v), 4)
    ensures v / 0x4000_0000 % 512 == Index(PageOf(v), 3)
    ensures v / 0x20_0000 % 512 == Index(PageOf(v), 2)
    ensures v / 4096 % 512 == Index(PageOf(v), 1)
  {
    var n := v / 4096;
    var q, p := n / 0x10_0000_0000, n % 0x10_0000_0000;
    ModUnique(v, 0x80_0000_0000, n / 0x800_0000, n % 0x800_0000 * 4096 + v % 4096);
    ModUnique(v, 0x4000_0000, n / 0x4_0000, n % 0x4_0000 * 4096 + v % 4096);
    ModUnique(v, 0x20_0000, n / 512, n % 512 * 4096 + v % 4096);
    ModUnique(n, 0x800_0000, q * 512 + p / 0x800_0000, p % 0x800_0000);
    ModUnique(n, 0x4_0000, q * 0x4_0000 + p / 0x4_0000, p % 0x4_0000);
    ModUnique(n, 512, q * 0x800_0000 + p / 512, p % 512);
    ModUnique(n / 0x800_0000, 512, q, p / 0x800_0000);
    ModUnique(n / 0x4_0000, 512, q * 512 + p / 0x4_0000 / 512, p / 0x4_0000 % 512);
    ModUnique(n / 512, 512, q * 0x4_0000 + p / 512 / 512, p / 512 % 512);
  }

  lemma IndexStep(p: nat, level: nat)
    requires 1 <= level <= 4
    ensures Over(p, level - 1) == Over(p, level) * 512 + Index(p, level)
  {
  }

  lemma TopOver(p: nat)
    requires p < 0x10_0000_0000
    ensures Over(p, 4) == 0
  {
  }

  // ------------------------------------------------------------ entry access

  /** Entry i of a table: the eight bytes at table + 8 * i. */
  function Entry(m: Store, table: nat, i: nat): nat { U64(m, table + 8 * i) }

  lemma EntryAt(m: Store, t: nat, i: nat)
    ensures Entry(m, t, i) == U64(m, t + 8 * i)
  {
    hide U64;
  }

  lemma ZeroAbsent()
    ensures !Present(0)
  {
  }

  /** Only the entry (f0, i0) may differ, and it holds e. */
  ghost predicate EntrySet(m: Store, m': Store, f0: nat, i0: nat, e: nat) {
    && (forall f: nat, i: nat | f % 4096 == 0 && i < 512 ::
          Entry(m', f, i) == if f == f0 && i == i0 then e else Entry(m, f, i))
    && (forall a: nat | !(f0 + 8 * i0 <= a < f0 + 8 * i0 + 8) :: Get(m', a) == Get(m, a))
    && m.Keys <= m'.Keys
  }

  lemma SetEntryEffect(m: Store, f0: nat, i0: nat, e: nat)
    requires f0 % 4096 == 0 && i0 < 512 && e < TWO_64
    ensures EntrySet(m, W64(m, f0 + 8 * i0, e), f0, i0, e)
  {
    hide Put, U64, Get, Touched, W64;
    var a := f0 + 8 * i0;
    var m' := W64(m, a, e);
    W64Bytes(m, a, e);
    forall f: nat, i: nat | f % 4096 == 0 && i < 512
      ensures Entry(m', f, i) == if f == f0 && i == i0 then e else Entry(m, f, i)
    {
      SlotsApart(f, i, f0, i0);
      W64U64(m, a, e, f + 8 * i);
    }
  }

  lemma SlotsApart(f: nat, i: nat, g: nat, j: nat)
    requires f % 4096 == 0 && g % 4096 == 0 && i < 512 && j < 512
    ensures f + 8 * i == g + 8 * j <==> f == g && i == j
    ensures f + 8 * i == g + 8 * j || f + 8 * i + 8 <= g + 8 * j || g + 8 * j + 8 <= f + 8 * i
  {
  }

  /** Frame f0 reads as zero and every other byte is kept. */
  ghost predicate FrameZeroed(m: Store, m': Store, f0: nat) {
    && (forall f: nat, i: nat | f % 4096 == 0 && i < 512 ::
          Entry(m', f, i) == if f == f0 then 0 else Entry(m, f, i))
    && (forall a: nat :: Get(m', a) == if f0 <= a < f0 + 4096 then 0 else Get(m, a))
    && m.Keys <= m'.Keys
  }

  lemma ZeroFrameEffect(m: Store, f0: nat)
    requires f0 % 4096 == 0
    ensures FrameZeroed(m, Put(m, f0, Zeros(4096)), f0)
  {
    hide Put, Get;
    var m' := Put(m, f0, Zeros(4096));
    PutGet(m, f0, Zeros(4096));
    forall f: nat, i: nat | f % 4096 == 0 && i < 512
      ensures Entry(m', f, i) == if f == f0 then 0 else Entry(m, f, i)
    {
      if f == f0 {
        assert Read(m', f + 8 * i, 8) == Zeros(8);
        FromLEZeros(8);
      } else {
        U64Same(m, m', f + 8 * i);
      }
    }
  }

  // --------------------------------------------------------------- the walk

  /** What a walk ends in: an entry that is not present, or a leaf. */
  datatype Walk = Missing | Leaf(level: nat, entry: nat, table: nat)

  /** The walk of page p from a table of the given level; a set PS bit above
      level 1 ends it. */
  function WalkFrom(m: Store, table: nat, level: nat, p: nat): (w: Walk)
    requires 1 <= level <= 4
    ensures w.Leaf? ==> Present(w.entry) && 1 <= w.level <= level
    decreases level
  {
    var e := Entry(m, table, Index(p, level));
    if !Present(e) then Missing
    else if level == 1 || Large(e) then Leaf(level, e, table)
    else WalkFrom(m, FrameOf(e), level - 1, p)
  }

  ghost predicate SameWalk(w: Walk, w': Walk) {
    match (w, w')
    case (Missing, Missing) => true
    case (Leaf(l, e, t), Leaf(l', e', t')) => l == l' && t == t' && SameButAD(e, e')
    case _ => false
  }

  /** If every aligned entry keeps all but its accessed and dirty bits, every walk
      from every table ends in the same place. */
  lemma {:induction false} WalkSameButAD(m: Store, m': Store, table: nat, level: nat, p: nat)
    requires 1 <= level <= 4 && table % 4096 == 0
    requires forall f: nat, i: nat | f % 4096 == 0 && i < 512 :: SameButAD(Entry(m, f, i), Entry(m', f, i))
    ensures SameWalk(WalkFrom(m, table, level, p), WalkFrom(m', table, level, p))
    decreases level
  {
    var e, e' := Entry(m, table, Index(p, level)), Entry(m', table, Index(p, level));
    assert SameButAD(e, e');
    if Present(e) && level > 1 && !Large(e) {
      WalkSameButAD(m, m', FrameOf(e), level - 1, p);
    }
  }

  // --------------------------------------------------------------- the shape

  /** The place of a table in the forest: below which root, at which level, and
      over which pages (those p with Over(p, level) == base). */
  datatype Place = Place(root: nat, level: nat, base: nat)

  predicate OnPath(at: Place, root: nat, p: nat) {
    at.root == root && Over(p, at.level) == at.base
  }

  type Forest = map<nat, Place>

  /** The entries of the tables above level 1 lead to the tables they should. */
  ghost predicate Linked(m: Store, own: Forest, f: nat, i: nat)
    requires f in own && own[f].level > 1
  {
    var e := Entry(m, f, i);
    Present(e) && !Large(e) ==>
      FrameOf(e) in own && own[FrameOf(e)] == Place(own[f].root, own[f].level - 1, own[f].base * 512 + i)
  }

  ghost predicate Shape(m: Store, own: Forest) {
    && (forall f | f in own :: f % 4096 == 0 && f < TWO_52 && 1 <= own[f].level <= 4)
    && (forall f | f in own && own[f].level == 4 :: own[f].root == f && own[f].base == 0)
    && (forall f, i: nat | f in own && own[f].level > 1 && i < 512 :: Linked(m, own, f, i))
  }

  /** No large-page entry lies on the path of p at or below this table. */
  ghost predicate NoLarge(m: Store, table: nat, level: nat, p: nat)
    requires 1 <= level <= 4
  {
    var w := WalkFrom(m, table, level, p);
    w.Leaf? ==> w.level == 1
  }

  /** A walk is settled by the entries on its own path: changing another entry of
      the forest leaves it alone. */
  lemma {:induction false} WalkOffPath(m: Store, m': Store, own: Forest, f0: nat, i0: nat, t: nat, p: nat)
    requires Shape(m, own) && f0 in own && i0 < 512 && t in own
    requires OnPath(own[t], own[t].root, p)
    requires forall f, i: nat | f in own && i < 512 && !(f == f0 && i == i0) :: Entry(m', f, i) == Entry(m, f, i)
    requires !(OnPath(own[f0], own[t].root, p) && i0 == Index(p, own[f0].level))
    ensures WalkFrom(m', t, own[t].level, p) == WalkFrom(m, t, own[t].level, p)
    decreases own[t].level
  {
    var l := own[t].level;
    var i := Index(p, l);
    var e := Entry(m, t, i);
    assert Entry(m', t, i) == e;
    if l > 1 && Present(e) && !Large(e) {
      assert Linked(m, own, t, i);
      IndexStep(p, l);
      WalkOffPath(m, m', own, f0, i0, FrameOf(e), p);
    }
  }

  /** The table a walk stops in is a table of the forest, on the path. */
  lemma {:induction false} LeafInForest(m: Store, own: Forest, t: nat, p: nat)
    requires Shape(m, own) && t in own && OnPath(own[t], own[t].root, p)
    requires WalkFrom(m, t, own[t].level, p).Leaf?
    ensures var w := WalkFrom(m, t, own[t].level, p);
      && w.table in own && OnPath(own[w.table], own[t].root, p) && own[w.table].level == w.level
      && w.entry == Entry(m, w.table, Index(p, w.level))
    decreases own[t].level
  {
    var l := own[t].level;
    var i := Index(p, l);
    var e := Entry(m, t, i);
    if l > 1 && !Large(e) {
      assert Linked(m, own, t, i);
      IndexStep(p, l);
      LeafInForest(m, own, FrameOf(e), p);
    }
  }
}
