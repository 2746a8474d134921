/** The value of a sparse memory: the materialized pages and their bytes.
    Addresses are unbounded naturals, as the source's BigInt addresses are, and
    a byte whose page is not materialized reads as zero. */
module Store {
  import opened Bytes

  const PAGE: nat := 4096

  type Page = s: seq<Byte> | |s| == 4096 witness Zeros(4096)

  type Store = map<nat, Page>

  function Get(m: Store, a: nat): Byte {
    if a / 4096 in m then m[a / 4096][a % 4096] else 0
  }

  function Read(m: Store, a: nat, n: nat): (s: seq<Byte>)
    ensures |s| == n
  {
    seq(n, i requires 0 <= i < n => Get(m, a + i))
  }

  predicate Meets(p: nat, a: nat, n: nat) {
    n > 0 && a / 4096 <= p <= (a + n - 1) / 4096
  }

  /** The page numbers that [a, a+n) meets. */
  function Touched(a: nat, n: nat): set<nat> {
    set p: nat | p <= (a + n) / 4096 && Meets(p, a, n)
  }

  function Patch(m: Store, p: nat, a: nat, bs: seq<Byte>): Page {
    var s := seq(PAGE, i requires 0 <= i < PAGE =>
      if a <= p * 4096 + i < a + |bs| then bs[p * 4096 + i - a] else Get(m, p * 4096 + i));
    assert |s| == PAGE;
    s
  }

  /** The store after writing bs at a: the touched pages become materialized. */
  function Put(m: Store, a: nat, bs: seq<Byte>): Store {
    map p | p in m.Keys + Touched(a, |bs|) :: Patch(m, p, a, bs)
  }

  lemma TouchedIff(a: nat, n: nat, x: nat)
    requires a <= x < a + n
    ensures x / 4096 in Touched(a, n)
  {
  }

  /** m' is m after writing bs at a, said byte by byte. */
  ghost predicate Wrote(m: Store, m': Store, a: nat, bs: seq<Byte>) {
    && m'.Keys == m.Keys + Touched(a, |bs|)
    && forall x: nat :: Get(m', x) == if a <= x < a + |bs| then bs[x - a] else Get(m, x)
  }

  /** A write changes exactly the bytes it covers and materializes exactly the pages it meets. */
  lemma PutGet(m: Store, a: nat, bs: seq<Byte>)
    ensures Wrote(m, Put(m, a, bs), a, bs)
  {
    var m' := Put(m, a, bs);
    forall x: nat
      ensures Get(m', x) == if a <= x < a + |bs| then bs[x - a] else Get(m, x)
    {
      var p := x / 4096;
      assert x == p * 4096 + x % 4096;
      if a <= x < a + |bs| { TouchedIff(a, |bs|, x); }
      if p in m' { assert m'[p] == Patch(m, p, a, bs); }
    }
  }

  lemma NothingWrote(m: Store, a: nat)
    ensures Wrote(m, m, a, []) && Touched(a, 0) == {}
  {
  }

  /** Only one store is m after writing bs at a. */
  lemma WroteIsPut(m: Store, m': Store, a: nat, bs: seq<Byte>)
    requires Wrote(m, m', a, bs)
    ensures m' == Put(m, a, bs)
  {
    PutGet(m, a, bs);
    Extensional(m', Put(m, a, bs));
  }

  /** The page set and the bytes determine a store. */
  lemma Extensional(m: Store, m': Store)
    requires m.Keys == m'.Keys
    requires forall x: nat :: Get(m, x) == Get(m', x)
    ensures m == m'
  {
    forall p | p in m
      ensures m[p] == m'[p]
    {
      forall i | 0 <= i < 4096
        ensures m[p][i] == m'[p][i]
      {
        assert Get(m, p * 4096 + i) == Get(m', p * 4096 + i);
        assert (p * 4096 + i) / 4096 == p && (p * 4096 + i) % 4096 == i;
      }
    }
  }

  lemma TouchedAppend(a: nat, n: nat, k: nat)
    ensures Touched(a, n) + Touched(a + n, k) == Touched(a, n + k)
  {
    forall p: nat
      ensures Meets(p, a, n) || Meets(p, a + n, k) <==> Meets(p, a, n + k)
    {
    }
  }

  lemma WroteAppend(m: Store, m1: Store, m2: Store, a: nat, s: seq<Byte>, t: seq<Byte>)
    requires Wrote(m, m1, a, s) && Wrote(m1, m2, a + |s|, t)
    ensures Wrote(m, m2, a, s + t)
  {
    hide Get, Touched;
    TouchedAppend(a, |s|, |t|);
    forall x: nat
      ensures Get(m2, x) == if a <= x < a + |s + t| then (s + t)[x - a] else Get(m, x)
    {
      assert Get(m1, x) == if a <= x < a + |s| then s[x - a] else Get(m, x);
    }
    assert m2.Keys == m.Keys + (Touched(a, |s|) + Touched(a + |s|, |t|));
  }

  /** Writing two adjacent pieces is writing their concatenation. */
  lemma PutAppend(m: Store, a: nat, s: seq<Byte>, t: seq<Byte>)
    ensures Put(Put(m, a, s), a + |s|, t) == Put(m, a, s + t)
  {
    hide *;
    var m1 := Put(m, a, s);
    var m2 := Put(m1, a + |s|, t);
    PutGet(m, a, s);
    PutGet(m1, a + |s|, t);
    WroteAppend(m, m1, m2, a, s, t);
    WroteIsPut(m, m2, a, s + t);
  }

  lemma PutNothing(m: Store, a: nat)
    ensures Put(m, a, []) == m
  {
    hide *;
    NothingWrote(m, a);
    WroteIsPut(m, m, a, []);
  }

  lemma ReadAppend(m: Store, a: nat, n: nat, k: nat)
    ensures Read(m, a, n) + Read(m, a + n, k) == Read(m, a, n + k)
  {
  }

  /** A read inside one page is a slice of that page. */
  lemma ReadInPage(m: Store, a: nat, n: nat)
    requires a % 4096 + n <= 4096
    ensures Read(m, a, n) == if a / 4096 in m then m[a / 4096][a % 4096..a % 4096 + n] else Zeros(n)
  {
    forall i | 0 <= i < n
      ensures Read(m, a, n)[i] == Get(m, a + i)
      ensures (a + i) / 4096 == a / 4096 && (a + i) % 4096 == a % 4096 + i
    {
    }
  }

  function Splice(page: Page, off: nat, bs: seq<Byte>): Page
    requires off + |bs| <= 4096
  {
    page[..off] + bs + page[off + |bs|..]
  }

  /** Overwriting part of one page buffer is a write of the store. */
  lemma SpliceWrote(m: Store, m': Store, a: nat, bs: seq<Byte>, page: Page)
    requires bs != [] && a % 4096 + |bs| <= 4096
    requires page == if a / 4096 in m then m[a / 4096] else Zeros(4096)
    requires m' == m[a / 4096 := Splice(page, a % 4096, bs)]
    ensures Wrote(m, m', a, bs) && Touched(a, |bs|) == {a / 4096}
  {
    var p: nat, off: nat := a / 4096, a % 4096;
    assert a == p * 4096 + off;
    forall q: nat
      ensures Meets(q, a, |bs|) <==> q == p
    {
    }
    forall x: nat
      ensures Get(m', x) == if a <= x < a + |bs| then bs[x - a] else Get(m, x)
    {
      if x / 4096 == p { assert x == p * 4096 + x % 4096; }
    }
  }

  lemma EnsuredSpliceWrote(m: Store, mid: Store, m': Store, a: nat, bs: seq<Byte>)
    requires bs != [] && a % 4096 + |bs| <= 4096
    requires mid == if a / 4096 in m then m else m[a / 4096 := Zeros(4096)]
    requires m' == mid[a / 4096 := Splice(mid[a / 4096], a % 4096, bs)]
    ensures Wrote(m, m', a, bs) && Touched(a, |bs|) == {a / 4096}
  {
    hide Splice, Wrote, Touched;
    assert m' == m[a / 4096 := Splice(mid[a / 4096], a % 4096, bs)];
    SpliceWrote(m, m', a, bs, mid[a / 4096]);
  }

  lemma ReadPut(m: Store, a: nat, bs: seq<Byte>)
    ensures Read(Put(m, a, bs), a, |bs|) == bs
  {
    PutGet(m, a, bs);
  }

  // ------------------------------------------------------------ 64-bit words

  function U64(m: Store, a: nat): nat {
    FromLE(Read(m, a, 8))
  }

  function W64(m: Store, a: nat, v: int): Store {
    Put(m, a, ToLE(v, 8))
  }

  lemma U64InRange(m: Store, a: nat)
    ensures U64(m, a) < TWO_64
  {
    U64Bound(Read(m, a, 8));
  }

  /** A word depends on its eight bytes only. */
  lemma U64Same(m: Store, m': Store, a: nat)
    requires forall x: nat :: a <= x < a + 8 ==> Get(m', x) == Get(m, x)
    ensures U64(m', a) == U64(m, a)
  {
    assert Read(m', a, 8) == Read(m, a, 8);
  }

  lemma W64Bytes(m: Store, a: nat, v: int)
    ensures forall x: nat | !(a <= x < a + 8) :: Get(W64(m, a, v), x) == Get(m, x)
    ensures m.Keys <= W64(m, a, v).Keys
  {
    hide Put, Get, Touched;
    PutGet(m, a, ToLE(v, 8));
  }

  /** A word write is read back, and no word clear of it changes. */
  lemma W64U64(m: Store, a: nat, v: int, b: nat)
    ensures a == b ==> U64(W64(m, a, v), b) == v % TWO_64
    ensures b + 8 <= a || a + 8 <= b ==> U64(W64(m, a, v), b) == U64(m, b)
  {
    var m' := W64(m, a, v);
    PutGet(m, a, ToLE(v, 8));
    if a == b {
      ReadPut(m, a, ToLE(v, 8));
      FromToLE(v, 8);
      Pow256Values();
    } else if b + 8 <= a || a + 8 <= b {
      U64Same(m, m', b);
    }
  }

  /** A word of any width, across page edges or not, reads back modulo that width, and what lies
      clear of it reads as before. */
  lemma WordRoundTrip(m: Store, a: nat, v: int, n: nat, b: nat, k: nat)
    ensures var m' := Put(m, a, ToLE(v, n));
      && FromLE(Read(m', a, n)) == v % Pow256(n)
      && (b + k <= a || a + n <= b ==> Read(m', b, k) == Read(m, b, k))
  {
    hide Get, Put, Touched;
    PutGet(m, a, ToLE(v, n));
    ReadPut(m, a, ToLE(v, n));
    FromToLE(v, n);
  }
}
