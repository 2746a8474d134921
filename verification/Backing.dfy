/** Making pages present without changing what they read as. */
module Backing {
  import opened Bytes
  import opened Store

  /** Pages [k, n) made present; those that are there keep their bytes. */
  function Backed(m: Store, k: nat, n: nat): Store
    decreases n - k
  {
    if k >= n then m else Backed(if k in m then m else Put(m, k * 4096, Zeros(4096)), k + 1, n)
  }

  lemma {:induction false} BackedKeeps(m: Store, k: nat, n: nat)
    ensures var m' := Backed(m, k, n);
      && (forall x: nat :: Get(m', x) == Get(m, x)) && m.Keys <= m'.Keys && (forall p: nat | k <= p < n :: p in m')
    decreases n - k
  {
    hide Get, Put;
    if k < n {
      var m1 := if k in m then m else Put(m, k * 4096, Zeros(4096));
      if k !in m { NewPage(m, k); }
      BackedKeeps(m1, k + 1, n);
    }
  }

  /** No page outside the range becomes present. */
  lemma {:induction false} BackedPages(m: Store, k: nat, n: nat)
    ensures forall p: nat :: p in Backed(m, k, n) <==> p in m || k <= p < n
    decreases n - k
  {
    hide Get, Put;
    if k < n {
      var m1 := if k in m then m else Put(m, k * 4096, Zeros(4096));
      if k !in m { OnePage(m, k); }
      BackedPages(m1, k + 1, n);
    }
  }

  /** A page that a write made present holds one of the bytes written. */
  lemma PutPage(m: Store, a: nat, bs: seq<Byte>, p: nat)
    requires p in Put(m, a, bs) && p !in m
    ensures bs != [] && a / 4096 <= p <= (a + |bs| - 1) / 4096
  {
    hide Get;
    PutGet(m, a, bs);
  }

  lemma OnePage(m: Store, k: nat)
    ensures Put(m, k * 4096, Zeros(4096)).Keys == m.Keys + {k}
  {
    hide Get;
    PutGet(m, k * 4096, Zeros(4096));
    ModUnique(k * 4096 + 4095, 4096, k, 4095);
    ModUnique(k * 4096, 4096, k, 0);
    assert Touched(k * 4096, 4096) == {k};
  }

  lemma NewPage(m: Store, k: nat)
    requires k !in m
    ensures var m' := Put(m, k * 4096, Zeros(4096));
      (forall x: nat :: Get(m', x) == Get(m, x)) && m.Keys <= m'.Keys && k in m'
  {
    PutGet(m, k * 4096, Zeros(4096));
    var m' := Put(m, k * 4096, Zeros(4096));
    ModUnique(k * 4096, 4096, k, 0);
    assert k in Touched(k * 4096, 4096) by { TouchedIff(k * 4096, 4096, k * 4096); }
    forall x: nat
      ensures Get(m', x) == Get(m, x)
    {
      if k * 4096 <= x < k * 4096 + 4096 { ModUnique(x, 4096, k, x - k * 4096); }
    }
  }
}
