/** What reads and writes of spans do to the plain machine: which bytes change, what is read
    back, and when a page that was demanded reads as zero. */
module PlainSpans {
  import opened Bytes
  import opened Store
  import opened Wrappers
  import opened PageTables
  import opened TableBuilder
  import opened MmuModel
  import opened DemandPaging
  import opened PlainMachine

  // -------------------------------------------------------------- addresses

  /** Whether an address is canonical is settled by its page number. */
  lemma CanonicalByPage(va: int)
    ensures Canonical(va % TWO_64) <==>
      (var c := va / 4096 % 0x10_0000_0000_0000 / 0x8_0000_0000; c == 0 || c == 0x1_ffff)
  {
    var n, i := va / 4096, va % 4096;
    var q, m := n / 0x10_0000_0000_0000, n % 0x10_0000_0000_0000;
    ModUnique(va, TWO_64, q, m * 4096 + i);
    ModUnique(m * 4096 + i, 0x8000_0000_0000, m / 0x8_0000_0000, m % 0x8_0000_0000 * 4096 + i);
  }

  /** Addresses of one page. */
  lemma SamePage(va: int, i: nat)
    requires va % 4096 + i < 4096
    ensures PageOf(va + i) == PageOf(va) && (va + i) % 4096 == va % 4096 + i
    ensures Canonical((va + i) % TWO_64) == Canonical(va % TWO_64)
  {
    ModUnique(va + i, 4096, va / 4096, va % 4096 + i);
    CanonicalByPage(va);
    CanonicalByPage(va + i);
    hide Canonical;
  }

  /** Where the page map puts va. */
  function Pa(a: Plain, va: int): nat {
    if (a.cur, PageOf(va)) in a.pages then a.pages[(a.cur, PageOf(va))].frame + va % 4096 else 0
  }

  /** The access is granted as the page map stands. */
  predicate Granting(a: Plain, va: int, access: Access) {
    Look(a, va, access).Granted?
  }

  lemma GrantingAt(a: Plain, va: int, access: Access)
    requires Granting(a, va, access)
    ensures Look(a, va, access).Granted? && Look(a, va, access).pa == Pa(a, va)
    ensures Reach(a, va, access) == (a, Look(a, va, access))
    ensures Granting(a, va, Reading)
  {
    hide Canonical;
  }

  lemma GrantingSamePage(a: Plain, va: int, i: nat, access: Access)
    requires Granting(a, va, access) && va % 4096 + i < 4096
    ensures Granting(a, va + i, access) && Pa(a, va + i) == Pa(a, va) + i
  {
    hide Canonical;
    SamePage(va, i);
  }

  // ------------------------------------------------------- what accesses keep

  /** Only bytes, new pages and new tables set a' apart from a. */
  ghost predicate Later(a: Plain, a': Plain) {
    && a'.cur == a.cur && a'.cr4 == a.cr4 && a'.config == a.config && a.next <= a'.next
    && (forall k | k in a.pages :: k in a'.pages && a'.pages[k] == a.pages[k])
    && (forall f | f in a.tables :: f in a'.tables)
  }

  lemma LaterTrans(a: Plain, b: Plain, c: Plain)
    requires Later(a, b) && Later(b, c)
    ensures Later(a, c)
  {
  }

  lemma {:induction false} GrowLater(own: Forest, next: nat, root: nat, level: nat, p: nat)
    requires 1 <= level <= 4
    ensures var (own', next') := Grow(own, next, root, level, p);
      next <= next' && (forall f | f in own :: f in own') && (forall f | f in own' && f !in own :: next <= f < next')
    decreases level
  {
    hide Has;
    if level > 1 {
      var at := Place(root, level - 1, Over(p, level - 1));
      if Has(own, at) {
        GrowLater(own, next, root, level - 1, p);
      } else {
        GrowLater(own[next := at], next + 4096, root, level - 1, p);
      }
    }
  }

  lemma {:induction false} GrowBound(own: Forest, next: nat, root: nat, level: nat, p: nat)
    requires 1 <= level <= 4
    ensures Grow(own, next, root, level, p).1 <= next + 4096 * (level - 1)
    decreases level
  {
    hide Has;
    if level > 1 {
      var at := Place(root, level - 1, Over(p, level - 1));
      GrowBound(own, next, root, level - 1, p);
      GrowBound(own[next := at], next + 4096, root, level - 1, p);
    }
  }

  lemma DemandLater(a: Plain, va: int, fill: Fill)
    requires Look(a, va, Reading) == Refused(NotPresent)
    ensures Later(a, Demand(a, va, fill)) && Demand(a, va, fill).bytes == a.bytes
  {
    hide Grow, InWindow, Canonical, FrameOf;
    if InWindow(a.config.windows, va) {
      GrowLater(a.tables, a.next, a.cur, 4, PageOf(va));
    } else {
      GrowLater(a.tables, a.next + 4096, a.cur, 4, PageOf(va));
    }
  }

  lemma DemandNext(a: Plain, va: int, fill: Fill)
    ensures a.next <= Demand(a, va, fill).next && Demand(a, va, fill).config == a.config
  {
    hide Grow, InWindow, Look, FrameOf;
    GrowLater(a.tables, a.next, a.cur, 4, PageOf(va));
    GrowLater(a.tables, a.next + 4096, a.cur, 4, PageOf(va));
  }

  lemma {:induction false} DemandFromNext(a: Plain, cur: nat, end: int, fill: Fill)
    ensures a.next <= DemandFrom(a, cur, end, fill).next
    decreases end - cur
  {
    hide Demand;
    if cur <= end {
      DemandNext(a, cur, fill);
      DemandFromNext(Demand(a, cur, fill), cur + 4096, end, fill);
    }
  }

  lemma PageBaseLook(a: Plain, va: int)
    ensures var b := RoundDown(va % TWO_64);
      (Look(a, b, Reading) == Refused(NotPresent)) == (Look(a, va, Reading) == Refused(NotPresent))
      && PageOf(b) == PageOf(va)
  {
    hide Canonical;
    var n, i := va / 4096, va % 4096;
    var q, m := n / 0x10_0000_0000_0000, n % 0x10_0000_0000_0000;
    ModUnique(va, TWO_64, q, m * 4096 + i);
    ModUnique(m * 4096 + i, 4096, m, i);
    ModUnique(m * 4096, 4096, m, 0);
    ModUnique(m, 0x10_0000_0000_0000, 0, m);
    ModUnique(n, 0x10_0000_0000, q * 0x1_0000 + m / 0x10_0000_0000, m % 0x10_0000_0000);
    CanonicalByPage(va);
    CanonicalByPage(m * 4096);
  }

  lemma ReachLater(a: Plain, va: int, access: Access)
    ensures var (a', v) := Reach(a, va, access);
      Later(a, a') && a'.bytes == a.bytes && (v.Granted? ==> Granting(a', va, access) && v.pa == Pa(a', va))
  {
    hide Canonical, Demand;
    PageBaseLook(a, va);
    if Look(a, va, access) == Refused(NotPresent) && a.config.demandMap {
      DemandLater(a, RoundDown(va % TWO_64), DEFAULT_FILL);
    }
  }

  // ------------------------------------------------------------------ writes

  /** The byte at x once bs is laid at va on the pages of a, later bytes over earlier ones. */
  function Overlay(a: Plain, va: nat, bs: seq<Byte>, x: nat, was: Byte): Byte
    decreases |bs|
  {
    if bs == [] then was else Overlay(a, va + 1, bs[1..], x, if Pa(a, va) == x then bs[0] else was)
  }

  /** All bytes of the span are granted this access, on the pages of a. */
  ghost predicate Spanned(a: Plain, va: nat, n: nat, access: Access) {
    forall x: nat | va <= x < va + n :: Granting(a, x, access)
  }

  lemma PaLater(a: Plain, a': Plain, va: int, access: Access)
    requires Later(a, a') && Granting(a, va, access)
    ensures Granting(a', va, access) && Pa(a', va) == Pa(a, va)
  {
    hide Canonical;
  }

  /** What a write did, whatever its outcome: some prefix of the bytes was laid on the pages the
      span is on now, the rest of memory is as it was, and the prefix is everything exactly when
      the write succeeded. */
  ghost predicate WroteSpan(a: Plain, va: nat, bs: seq<Byte>, a': Plain, r: Answer, k: nat) {
    && Later(a, a') && k <= |bs| && (r == Quiet <==> k == |bs|)
    && Spanned(a', va, k, Writing)
    && (r.Fault? ==> r.at == (va + k) % TWO_64)
    && forall x: nat :: Get(a'.bytes, x) == Overlay(a', va, bs[..k], x, Get(a.bytes, x))
  }

  lemma NothingLaid(a: Plain, va: nat, bs: seq<Byte>, a': Plain, r: Answer)
    requires Later(a, a') && a'.bytes == a.bytes && (r == Quiet <==> bs == []) && (r.Fault? ==> r.at == va % TWO_64)
    ensures WroteSpan(a, va, bs, a', r, 0)
  {
    hide Get, Granting;
  }

  lemma OneMore(a: Plain, a1: Plain, va: nat, bs: seq<Byte>, a': Plain, r: Answer, k: nat)
    requires bs != [] && Later(a, a1) && a1.bytes == a.bytes && Granting(a1, va, Writing)
    requires WroteSpan(a1.(bytes := Put(a1.bytes, Pa(a1, va), bs[..1])), va + 1, bs[1..], a', r, k)
    ensures WroteSpan(a, va, bs, a', r, k + 1)
  {
    hide Get, Put, Granting, Pa, Touched;
    var a2 := a1.(bytes := Put(a1.bytes, Pa(a1, va), bs[..1]));
    LaterTrans(a, a1, a2);
    LaterTrans(a, a2, a');
    PaLater(a1, a2, va, Writing);
    PaLater(a2, a', va, Writing);
    PutGet(a1.bytes, Pa(a1, va), bs[..1]);
    assert bs[..k + 1][1..] == bs[1..][..k] && bs[..k + 1][0] == bs[0];
    forall x: nat
      ensures Get(a'.bytes, x) == Overlay(a', va, bs[..k + 1], x, Get(a.bytes, x))
    {
      assert Get(a2.bytes, x) == if Pa(a', va) == x then bs[0] else Get(a.bytes, x);
    }
  }

  lemma {:induction false} WriteDoes(a: Plain, va: nat, bs: seq<Byte>, ask: bool) returns (k: nat)
    ensures var (a', r) := WritePlain(a, va, bs, ask); WroteSpan(a, va, bs, a', r, k)
    decreases |bs|
  {
    hide WroteSpan, Get, Put, Reach, Pa, Granting, Clear, Later;
    var (a', r) := WritePlain(a, va, bs, ask);
    k := 0;
    LaterRefl(a);
    if bs == [] || Vetoed(a.config, va, ask, true) {
      NothingLaid(a, va, bs, a', r);
    } else {
      ReachLater(a, va, Writing);
      var (a1, v) := Reach(a, va, Writing);
      if v.Refused? || !Clear(a1, v.pa, 1) {
        NothingLaid(a, va, bs, a', r);
      } else {
        var j := WriteDoes(a1.(bytes := Put(a1.bytes, v.pa, bs[..1])), va + 1, bs[1..], false);
        OneMore(a, a1, va, bs, a', r, j);
        k := j + 1;
      }
    }
  }

  lemma LaterRefl(a: Plain)
    ensures Later(a, a)
  {
  }

  // ------------------------------------------------------------------- reads

  function SpanBytes(a: Plain, va: nat, n: nat): seq<Byte> {
    seq(n, i requires 0 <= i < n => Get(a.bytes, Pa(a, va + i)))
  }

  lemma SpanBytesMore(a: Plain, va: nat, n: nat)
    requires n > 0
    ensures [Get(a.bytes, Pa(a, va))] + SpanBytes(a, va + 1, n - 1) == SpanBytes(a, va, n)
  {
    hide Get, Pa;
    var s, t := SpanBytes(a, va, n), SpanBytes(a, va + 1, n - 1);
    forall i: nat | i < n - 1
      ensures t[i] == s[i + 1]
    {
      assert va + 1 + i == va + (i + 1);
    }
  }

  /** What a read did, whatever its outcome: no byte changed, and if it succeeded every byte came
      from where the span's page is now. */
  lemma {:induction false} ReadDoes(a: Plain, va: nat, n: nat, ask: bool)
    ensures var (a', r) := ReadPlain(a, va, n, ask);
      && Later(a, a') && a'.bytes == a.bytes && !r.Quiet?
      && (r.Data? ==> Spanned(a', va, n, Reading) && r.bytes == SpanBytes(a', va, n))
    decreases n
  {
    hide Get, Reach, Pa, Granting, Clear, Later, Canonical;
    LaterRefl(a);
    if n > 0 && !Vetoed(a.config, va, ask, false) {
      ReachLater(a, va, Reading);
      var (a1, v) := Reach(a, va, Reading);
      if v.Granted? && Clear(a1, v.pa, 1) {
        ReadDoes(a1, va + 1, n - 1, false);
        var (a', rest) := ReadPlain(a1, va + 1, n - 1, false);
        LaterTrans(a, a1, a');
        if rest.Data? {
          PaLater(a1, a', va, Reading);
          SpanBytesMore(a', va, n);
        }
      }
    }
  }

  /** The guard lets every page of a span be accessed. */
  ghost predicate GuardLets(c: Config, va: nat, n: nat, ask: bool, write: bool) {
    && (n > 0 ==> !Vetoed(c, va, ask, write))
    && forall x: nat | va < x < va + n && x % 4096 == 0 :: !c.guard(x, write)
  }

  lemma GuardRest(c: Config, va: nat, n: nat, ask: bool)
    requires n > 0 && !Vetoed(c, va, ask, false)
    ensures GuardLets(c, va, n, ask, false) <==> GuardLets(c, va + 1, n - 1, false, false)
  {
    if n > 1 && (va + 1) % 4096 == 0 { assert GuardLets(c, va, n, ask, false) ==> !c.guard(va + 1, false); }
  }

  /** A span on mapped pages that avoids the tables reads exactly when the guard lets it. */
  lemma {:induction false} ReadMapped(a: Plain, va: nat, n: nat, ask: bool)
    requires Spanned(a, va, n, Reading) && ReadPlain(a, va, n, ask).1 != Table
    ensures ReadPlain(a, va, n, ask).0 == a
    ensures ReadPlain(a, va, n, ask).1 == Data(SpanBytes(a, va, n)) <==> GuardLets(a.config, va, n, ask, false)
    ensures ReadPlain(a, va, n, ask).1.Data? <==> GuardLets(a.config, va, n, ask, false)
    decreases n
  {
    hide Get, Reach, Pa, Granting, Clear, Canonical, Vetoed;
    if n > 0 {
      GrantingAt(a, va, Reading);
      if !Vetoed(a.config, va, ask, false) {
        ReadMapped(a, va + 1, n - 1, false);
        GuardRest(a.config, va, n, ask);
        SpanBytesMore(a, va, n);
      }
    }
  }

  /** Off the tables a read of mapped pages is answered. */
  lemma {:induction false} ReadOffTables(a: Plain, va: nat, n: nat, ask: bool)
    requires Spanned(a, va, n, Reading) && forall x: nat | va <= x < va + n :: Clear(a, Pa(a, x), 1)
    ensures ReadPlain(a, va, n, ask).1 != Table
    decreases n
  {
    hide Get, Reach, Pa, Granting, Canonical, Clear;
    if n > 0 {
      GrantingAt(a, va, Reading);
      ReadOffTables(a, va + 1, n - 1, false);
    }
  }

  // -------------------------------------------------------------- write, read

  /** Bytes of a span that share a physical byte are equal. */
  ghost predicate NoClash(a: Plain, va: nat, bs: seq<Byte>) {
    forall x: nat, y: nat | va <= x < y < va + |bs| && Pa(a, x) == Pa(a, y) :: bs[x - va] == bs[y - va]
  }

  /** Some mapped byte of the span is at x. */
  ghost predicate Hits(a: Plain, va: nat, n: nat, x: nat) {
    exists y: nat :: va <= y < va + n && Granting(a, y, Reading) && Pa(a, y) == x
  }

  lemma {:induction false} OverlayAgree(a: Plain, va: nat, bs: seq<Byte>, x: nat, was: Byte, b: Byte)
    requires Spanned(a, va, |bs|, Reading)
    requires forall y: nat | va <= y < va + |bs| && Pa(a, y) == x :: bs[y - va] == b
    ensures Overlay(a, va, bs, x, was) == if Hits(a, va, |bs|, x) then b else was
    decreases |bs|
  {
    hide Pa, Granting;
    if bs != [] {
      OverlayAgree(a, va + 1, bs[1..], x, if Pa(a, va) == x then bs[0] else was, b);
      assert Granting(a, va, Reading);
    }
  }

  lemma {:induction false} OverlayMiss(a: Plain, va: nat, bs: seq<Byte>, x: nat, was: Byte)
    requires Spanned(a, va, |bs|, Reading) && !Hits(a, va, |bs|, x)
    ensures Overlay(a, va, bs, x, was) == was
    decreases |bs|
  {
    hide Pa, Granting;
    if bs != [] {
      assert Granting(a, va, Reading);
      OverlayMiss(a, va + 1, bs[1..], x, was);
    }
  }

  lemma SpannedReading(a: Plain, va: nat, n: nat)
    requires Spanned(a, va, n, Writing)
    ensures Spanned(a, va, n, Reading)
  {
    hide Granting;
    forall x: nat | va <= x < va + n
      ensures Granting(a, x, Reading)
    {
      GrantingAt(a, x, Writing);
    }
  }

  /** What a write that succeeded leaves in its span is the bytes written, exactly when no two
      bytes that differ share a physical byte. */
  lemma LaidIff(a: Plain, va: nat, bs: seq<Byte>, a': Plain)
    requires WroteSpan(a, va, bs, a', Quiet, |bs|)
    ensures SpanBytes(a', va, |bs|) == bs <==> NoClash(a', va, bs)
  {
    hide Get, Pa, Granting, Overlay;
    SpannedReading(a', va, |bs|);
    assert bs[..|bs|] == bs;
    if NoClash(a', va, bs) {
      forall i: nat | i < |bs|
        ensures SpanBytes(a', va, |bs|)[i] == bs[i]
      {
        var x := Pa(a', va + i);
        OverlayAgree(a', va, bs, x, Get(a.bytes, x), bs[i]);
        assert Hits(a', va, |bs|, x) by { assert Granting(a', va + i, Reading); }
      }
    }
    if SpanBytes(a', va, |bs|) == bs {
      forall x: nat, y: nat | va <= x < y < va + |bs| && Pa(a', x) == Pa(a', y)
        ensures bs[x - va] == bs[y - va]
      {
        assert SpanBytes(a', va, |bs|)[x - va] == Get(a'.bytes, Pa(a', va + (x - va)));
        assert SpanBytes(a', va, |bs|)[y - va] == Get(a'.bytes, Pa(a', va + (y - va)));
      }
    }
  }

  /** The page map with the pages of the span on it: those that are missing are mapped as accesses map
      them, in their windows or on the frames to come. No byte of memory is asked. */
  function Settled(a: Plain, va: nat, n: nat): Plain
    decreases n
  {
    if n == 0 then a else Settled(Reach(a, va, Writing).0, va + 1, n - 1)
  }

  lemma LookBytes(a: Plain, bytes': Store, va: int, access: Access)
    ensures Look(a.(bytes := bytes'), va, access) == Look(a, va, access)
  {
    hide PageOf, Canonical;
  }

  lemma DemandBytes(a: Plain, bytes': Store, va: int, fill: Fill)
    ensures Demand(a.(bytes := bytes'), va, fill) == Demand(a, va, fill).(bytes := bytes')
  {
    hide Look, Grow, InWindow, FrameOf, PageOf;
    LookBytes(a, bytes', va, Reading);
  }

  lemma ReachBytes(a: Plain, bytes': Store, va: int, access: Access)
    ensures Reach(a.(bytes := bytes'), va, access) == (Reach(a, va, access).0.(bytes := bytes'), Reach(a, va, access).1)
  {
    hide Look, Demand, RoundDown;
    var a1 := Demand(a, RoundDown(va % TWO_64), DEFAULT_FILL);
    LookBytes(a, bytes', va, access);
    DemandBytes(a, bytes', RoundDown(va % TWO_64), DEFAULT_FILL);
    LookBytes(a1, bytes', va, access);
  }

  lemma {:induction false} SettledBytes(a: Plain, bytes': Store, va: nat, n: nat)
    ensures Settled(a.(bytes := bytes'), va, n) == Settled(a, va, n).(bytes := bytes')
    decreases n
  {
    hide Reach;
    if n > 0 {
      ReachBytes(a, bytes', va, Writing);
      SettledBytes(Reach(a, va, Writing).0, bytes', va + 1, n - 1);
    }
  }

  /** A successful write maps just what the span lacked. */
  lemma {:induction false} WriteSettles(a: Plain, va: nat, bs: seq<Byte>, ask: bool)
    requires WritePlain(a, va, bs, ask).1 == Quiet
    ensures var a' := WritePlain(a, va, bs, ask).0; a' == Settled(a, va, |bs|).(bytes := a'.bytes)
    decreases |bs|
  {
    hide Reach, Clear, Put;
    if bs != [] {
      var (a1, v) := Reach(a, va, Writing);
      var bytes' := Put(a1.bytes, v.pa, bs[..1]);
      WriteSettles(a1.(bytes := bytes'), va + 1, bs[1..], false);
      SettledBytes(a1, bytes', va + 1, |bs| - 1);
    }
  }

  lemma NoClashBytes(a: Plain, bytes': Store, va: nat, bs: seq<Byte>)
    ensures NoClash(a.(bytes := bytes'), va, bs) <==> NoClash(a, va, bs)
  {
    hide PageOf;
    forall x: nat
      ensures Pa(a.(bytes := bytes'), x) == Pa(a, x)
    {
    }
  }

  /** A successful write is read back exactly when the guard lets the span be read and no two
      bytes that differ share a physical byte; and where the bytes go is settled before the write. */
  lemma ReadBackIff(a: Plain, va: nat, bs: seq<Byte>)
    requires WritePlain(a, va, bs, true).1 == Quiet
    requires ReadPlain(WritePlain(a, va, bs, true).0, va, |bs|, true).1 != Table
    ensures var a' := WritePlain(a, va, bs, true).0;
      && ReadPlain(a', va, |bs|, true).0 == a'
      && (ReadPlain(a', va, |bs|, true).1 == Data(bs) <==> GuardLets(a.config, va, |bs|, true, false) && NoClash(a', va, bs))
      && (NoClash(a', va, bs) <==> NoClash(Settled(a, va, |bs|), va, bs))
  {
    hide Get, Pa, Granting, Overlay, GuardLets, NoClash, SpanBytes, ReadPlain, WritePlain, Settled;
    var a' := WritePlain(a, va, bs, true).0;
    var k := WriteDoes(a, va, bs, true);
    SpannedReading(a', va, |bs|);
    ReadMapped(a', va, |bs|, true);
    LaidIff(a, va, bs, a');
    WriteSettles(a, va, bs, true);
    NoClashBytes(Settled(a, va, |bs|), a'.bytes, va, bs);
  }

  /** Bytes that no byte of the span is at are kept, whatever the outcome. */
  lemma WriteKeeps(a: Plain, va: nat, bs: seq<Byte>, ask: bool, x: nat)
    requires !Hits(WritePlain(a, va, bs, ask).0, va, |bs|, x)
    ensures Get(WritePlain(a, va, bs, ask).0.bytes, x) == Get(a.bytes, x)
  {
    hide Get, Pa, Granting, Overlay, WritePlain;
    var a' := WritePlain(a, va, bs, ask).0;
    var k := WriteDoes(a, va, bs, ask);
    SpannedReading(a', va, k);
    assert !Hits(a', va, k, x);
    OverlayMiss(a', va, bs[..k], x, Get(a.bytes, x));
  }

  /** A write to writable pages off the tables succeeds when the guard lets it, and maps nothing. */
  lemma {:induction false} WriteMapped(a: Plain, va: nat, bs: seq<Byte>, ask: bool)
    requires Spanned(a, va, |bs|, Writing) && GuardLets(a.config, va, |bs|, ask, true)
    requires forall x: nat | va <= x < va + |bs| :: Clear(a, Pa(a, x), 1)
    ensures var (a', r) := WritePlain(a, va, bs, ask); r == Quiet && a' == a.(bytes := a'.bytes)
    decreases |bs|
  {
    hide Put, Reach, Pa, Granting, Canonical;
    if bs != [] {
      GrantingAt(a, va, Writing);
      var a1 := a.(bytes := Put(a.bytes, Pa(a, va), bs[..1]));
      forall x: nat | va + 1 <= x < va + |bs|
        ensures Granting(a1, x, Writing) && Clear(a1, Pa(a1, x), 1)
      {
        GrantingBytes(a, a1.bytes, x, Writing);
        ClearBytes(a, a1.bytes, Pa(a, x), 1);
      }
      WriteMapped(a1, va + 1, bs[1..], false);
    }
  }

  /** A demanded page outside the windows reads as the zeros of a frame never used before. */
  lemma DemandedZero(a: Plain, va: nat, access: Access)
    requires access != Fetching && Look(a, va, Reading) == Refused(NotPresent) && a.config.demandMap
    requires !InWindow(a.config.windows, RoundDown(va % TWO_64))
    requires forall x: nat | x >= a.next :: Get(a.bytes, x) == 0
    ensures var (a', v) := Reach(a, va, access);
      && v == Granted(a.next + va % 4096, true, false, true) && a'.next >= a.next + 4096
      && (a.next !in a.tables ==> a.next !in a'.tables)
      && Get(a'.bytes, v.pa) == 0
  {
    hide Get, Canonical, Grow, PageOf, InWindow;
    PageBaseLook(a, va);
    GrowLater(a.tables, a.next + 4096, a.cur, 4, PageOf(RoundDown(va % TWO_64)));
  }

  // ----------------------------------------------------- bytes of one page at once

  function Prefixed(bs: seq<Byte>, rest: (Plain, Answer)): (Plain, Answer) {
    (rest.0, if rest.1.Data? then Data(bs + rest.1.bytes) else rest.1)
  }

  lemma PrefixedTwice(bs: seq<Byte>, cs: seq<Byte>, rest: (Plain, Answer))
    ensures Prefixed(bs, Prefixed(cs, rest)) == Prefixed(bs + cs, rest) && Prefixed([], rest) == rest
  {
    if rest.1.Data? { assert bs + (cs + rest.1.bytes) == bs + cs + rest.1.bytes && [] + rest.1.bytes == rest.1.bytes; }
  }

  /** Inside a page that is reached, k bytes are read at once. */
  lemma {:induction false} ReadOn(a: Plain, va: nat, k: nat, n: nat)
    requires k <= n && ReadPlain(a, va, n, false).1 != Table
    requires k > 0 ==> 0 < va % 4096 && va % 4096 + k <= 4096 && Granting(a, va, Reading)
    ensures Clear(a, Pa(a, va), k)
    ensures ReadPlain(a, va, n, false) == Prefixed(Read(a.bytes, Pa(a, va), k), ReadPlain(a, va + k, n - k, false))
    decreases k
  {
    hide Get, Pa, Granting, Reach, Canonical, Look, Prefixed, Read;
    var rest := ReadPlain(a, va + k, n - k, false);
    if k == 0 {
      assert Read(a.bytes, Pa(a, va), 0) == [];
      PrefixedTwice([], [], rest);
    } else {
      GrantingAt(a, va, Reading);
      var pa := Pa(a, va);
      ReadOne(a, va, n);
      if k > 1 {
        GrantingSamePage(a, va, 1, Reading);
        ModUnique(va + 1, 4096, va / 4096, va % 4096 + 1);
        ReadOn(a, va + 1, k - 1, n - 1);
        PrefixedTwice(Read(a.bytes, pa, 1), Read(a.bytes, pa + 1, k - 1), rest);
        ReadAppend(a.bytes, pa, 1, k - 1);
        ClearMore(a, pa, k);
      }
    }
  }

  lemma ClearMore(a: Plain, pa: nat, k: nat)
    requires k > 0 && Clear(a, pa, 1) && Clear(a, pa + 1, k - 1)
    ensures Clear(a, pa, k)
  {
    forall x: nat | pa <= x < pa + k
      ensures x / 4096 * 4096 !in a.tables
    {
      if x == pa { assert pa <= x < pa + 1; }
    }
  }

  lemma ReadOne(a: Plain, va: nat, n: nat)
    requires n > 0 && va % 4096 > 0 && Granting(a, va, Reading) && ReadPlain(a, va, n, false).1 != Table
    ensures Clear(a, Pa(a, va), 1) && ReadPlain(a, va + 1, n - 1, false).1 != Table
    ensures ReadPlain(a, va, n, false) == Prefixed(Read(a.bytes, Pa(a, va), 1), ReadPlain(a, va + 1, n - 1, false))
  {
    hide Get, Pa, Granting, Reach, Canonical, Look, Clear;
    GrantingAt(a, va, Reading);
    assert Read(a.bytes, Pa(a, va), 1) == [Get(a.bytes, Pa(a, va))];
  }

  /** The first k bytes of a span that begins in a page, up to its end or the page's. */
  lemma ReadChunk(a: Plain, va: nat, n: nat, ask: bool, k: nat)
    requires 0 < k <= n && va % 4096 + k <= 4096 && (k == n || va % 4096 + k == 4096)
    requires !Vetoed(a.config, va, ask, false) && ReadPlain(a, va, n, ask).1 != Table && Reach(a, va, Reading).1.Granted?
    ensures var (a1, v) := Reach(a, va, Reading);
      && Clear(a1, v.pa, k) && ReadPlain(a1, va + k, n - k, true).1 != Table
      && ReadPlain(a, va, n, ask) == Prefixed(Read(a1.bytes, v.pa, k), ReadPlain(a1, va + k, n - k, true))
  {
    hide Get, Pa, Granting, Reach, Canonical, Look, Clear;
    ReachLater(a, va, Reading);
    var (a1, v) := Reach(a, va, Reading);
    assert Read(a1.bytes, v.pa, 1) == [Get(a1.bytes, v.pa)];
    assert ReadPlain(a, va, n, ask) == Prefixed(Read(a1.bytes, v.pa, 1), ReadPlain(a1, va + 1, n - 1, false));
    if k > 1 {
      GrantingSamePage(a1, va, 1, Reading);
      ModUnique(va + 1, 4096, va / 4096, va % 4096 + 1);
    }
    ReadOn(a1, va + 1, k - 1, n - 1);
    var rest := ReadPlain(a1, va + k, n - k, false);
    if k > 1 {
      PrefixedTwice(Read(a1.bytes, v.pa, 1), Read(a1.bytes, v.pa + 1, k - 1), rest);
      ReadAppend(a1.bytes, v.pa, 1, k - 1);
      ClearMore(a1, v.pa, k);
    } else {
      assert Read(a1.bytes, v.pa + 1, 0) == [];
      PrefixedTwice([], [], rest);
    }
    AskAtStart(a1, va + k, n - k) by {
      if k < n { ModUnique(va + k, 4096, va / 4096 + 1, 0); }
    }
  }

  lemma AskAtStart(a: Plain, va: nat, n: nat)
    requires n == 0 || va % 4096 == 0
    ensures ReadPlain(a, va, n, true) == ReadPlain(a, va, n, false)
  {
  }

  lemma GrantingBytes(a: Plain, bytes': Store, va: int, access: Access)
    requires Granting(a, va, access)
    ensures var a' := a.(bytes := bytes'); Granting(a', va, access) && Pa(a', va) == Pa(a, va)
  {
  }

  lemma WriteOne(a: Plain, va: nat, bs: seq<Byte>)
    requires bs != [] && va % 4096 > 0 && Granting(a, va, Writing) && WritePlain(a, va, bs, false).1 != Table
    ensures Clear(a, Pa(a, va), 1)
    ensures WritePlain(a, va, bs, false) == WritePlain(a.(bytes := Put(a.bytes, Pa(a, va), bs[..1])), va + 1, bs[1..], false)
  {
    hide Put, Pa, Granting, Reach, Canonical, Look, Clear;
    GrantingAt(a, va, Writing);
  }

  /** Inside a page that is reached, k bytes are written at once. */
  lemma {:induction false} WriteOn(a: Plain, va: nat, k: nat, bs: seq<Byte>)
    requires k <= |bs| && WritePlain(a, va, bs, false).1 != Table
    requires k > 0 ==> 0 < va % 4096 && va % 4096 + k <= 4096 && Granting(a, va, Writing)
    ensures Clear(a, Pa(a, va), k)
    ensures WritePlain(a, va, bs, false) == WritePlain(a.(bytes := Put(a.bytes, Pa(a, va), bs[..k])), va + k, bs[k..], false)
    decreases k
  {
    hide Put, Pa, Granting, Reach, Canonical, Look, WritePlain;
    var pa := Pa(a, va);
    if k == 0 {
      PutNothing(a.bytes, pa);
      assert a.(bytes := Put(a.bytes, pa, bs[..0])) == a && bs[0..] == bs;
    } else {
      WriteOne(a, va, bs);
      var a1 := a.(bytes := Put(a.bytes, pa, bs[..1]));
      if k > 1 {
        GrantingSamePage(a, va, 1, Writing);
        GrantingBytes(a, a1.bytes, va + 1, Writing);
        ModUnique(va + 1, 4096, va / 4096, va % 4096 + 1);
        WriteOn(a1, va + 1, k - 1, bs[1..]);
        assert bs[1..][..k - 1] == bs[1..k] && bs[1..][k - 1..] == bs[k..] && bs[..1] + bs[1..k] == bs[..k];
        PutAppend(a.bytes, pa, bs[..1], bs[1..k]);
        ClearMore(a, pa, k);
      }
    }
  }

  lemma WriteChunk(a: Plain, va: nat, bs: seq<Byte>, ask: bool, k: nat)
    requires 0 < k <= |bs| && va % 4096 + k <= 4096 && (k == |bs| || va % 4096 + k == 4096)
    requires !Vetoed(a.config, va, ask, true) && WritePlain(a, va, bs, ask).1 != Table && Reach(a, va, Writing).1.Granted?
    ensures var (a1, v) := Reach(a, va, Writing);
      && Clear(a1, v.pa, k)
      && WritePlain(a, va, bs, ask) == WritePlain(a1.(bytes := Put(a1.bytes, v.pa, bs[..k])), va + k, bs[k..], true)
  {
    hide Put, Pa, Granting, Reach, Canonical, Look, Clear;
    ReachLater(a, va, Writing);
    var (a1, v) := Reach(a, va, Writing);
    var a2 := a1.(bytes := Put(a1.bytes, v.pa, bs[..1]));
    assert WritePlain(a, va, bs, ask) == WritePlain(a2, va + 1, bs[1..], false);
    if k > 1 {
      GrantingSamePage(a1, va, 1, Writing);
      GrantingBytes(a1, a2.bytes, va + 1, Writing);
      ModUnique(va + 1, 4096, va / 4096, va % 4096 + 1);
      WriteOn(a2, va + 1, k - 1, bs[1..]);
      assert bs[1..][..k - 1] == bs[1..k] && bs[1..][k - 1..] == bs[k..] && bs[..1] + bs[1..k] == bs[..k];
      PutAppend(a1.bytes, v.pa, bs[..1], bs[1..k]);
      ClearBytes(a1, a2.bytes, v.pa + 1, k - 1);
      ClearMore(a1, v.pa, k);
    }
    var a3 := a1.(bytes := Put(a1.bytes, v.pa, bs[..k]));
    assert WritePlain(a3, va + k, bs[k..], true) == WritePlain(a3, va + k, bs[k..], false) by {
      if k < |bs| { ModUnique(va + k, 4096, va / 4096 + 1, 0); }
    }
  }

  lemma ClearBytes(a: Plain, bytes': Store, pa: nat, n: nat)
    ensures Clear(a.(bytes := bytes'), pa, n) == Clear(a, pa, n)
  {
  }
}
