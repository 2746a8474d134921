/** The pool as the kernel object runs it, over a live memory. */
module KernelPool {
  import opened Bytes
  import opened Store
  import opened Memory
  import opened Pool
  import opened Prng
  import opened Backing
  import opened LiveBacking

  class KernelPool {
    const mem: SparseMemory
    const aslr: bool
    var nextPool: nat
    var heapPrng: bv32
    var poolAllocs: seq<Block>

    ghost predicate Valid()
      reads this, mem, mem.Repr
    {
      mem.Valid()
    }

    ghost function Value(): State
      reads this, mem
    {
      State(mem.Contents, nextPool, aslr, heapPrng, poolAllocs)
    }

    /** A zero seed is replaced. */
    constructor (mem: SparseMemory, base: nat, aslr: bool, seed: bv32)
      requires mem.Valid()
      ensures Valid() && this.mem == mem
      ensures Value() == Fresh(mem.Contents, base, aslr, if seed == 0 then 0x9e37_79b1 else seed)
    {
      this.mem, this.aslr, nextPool, poolAllocs := mem, aslr, base, [];
      heapPrng := if seed == 0 then 0x9e37_79b1 else seed;
    }

    method HeapNextJitter() returns (j: nat)
      modifies this`heapPrng
      ensures heapPrng == Xorshift(old(heapPrng)) && j == Jitter(heapPrng)
    {
      hide Jitter, Xorshift;
      heapPrng := Xorshift(heapPrng);
      j := Jitter(heapPrng);
    }

    method WriteGuard(addr: nat, size: nat)
      requires Valid()
      modifies mem, mem.Repr
      ensures Valid() && fresh(mem.Repr - old(mem.Repr))
      ensures mem.Contents == Put(old(mem.Contents), addr + size, Guard())
    {
      mem.WriteSpan(addr + size, Guard());
    }

    method AllocPool(size: nat, tag: string) returns (addr: nat)
      requires Valid() && Header(Value()) + AlignUp(size) + 32 >= 0
      modifies this`nextPool, this`heapPrng, this`poolAllocs, mem, mem.Repr
      ensures Valid() && fresh(mem.Repr - old(mem.Repr))
      ensures Value() == Alloc(old(Value()), size, tag) && addr == Header(old(Value())) + 16
    {
      hide Put, W64, Backed, AlignUp, Jitter, Xorshift;
      var aligned := AlignUp(size);
      var hdr := nextPool;
      if aslr {
        var jitter := HeapNextJitter();
        hdr := hdr + jitter;
      }
      addr := hdr + 16;
      nextPool := hdr + aligned + 32 + if aslr then 16 else 0;
      mem.WriteU64(hdr, POOL_MAGIC);
      WriteGuard(addr, size);
      MakePresent(mem, hdr / 4096, SpanEnd(hdr, aligned));
      poolAllocs := poolAllocs + [Block(addr, size, tag, false)];
    }

    method FreePool(addr: int) returns (r: FreeResult)
      modifies this`poolAllocs
      ensures poolAllocs == Free(old(Value()), addr).0.blocks && r == Free(old(Value()), addr).1
    {
      var k := 0;
      while k < |poolAllocs| && poolAllocs[k].addr != addr
        invariant k <= |poolAllocs| && forall i | 0 <= i < k :: poolAllocs[i].addr != addr
        decreases |poolAllocs| - k
      {
        k := k + 1;
      }
      FindIs(poolAllocs, addr, k);
      if k == |poolAllocs| { return Unknown; }
      if poolAllocs[k].freed { return DoubleFree; }
      poolAllocs := poolAllocs[k := poolAllocs[k].(freed := true)];
      return Freed;
    }

    /** Guard byte by guard byte. */
    method IsCorrupt(b: Block) returns (bad: bool)
      requires Valid()
      modifies mem`readCount, mem`missCount
      ensures Valid() && bad == Corrupt(mem.Contents, b)
    {
      hide Get;
      if b.freed { return false; }
      var i := 0;
      while i < GUARD_LEN
        invariant i <= GUARD_LEN && Valid()
        invariant forall x: nat | b.addr + b.size <= x < b.addr + b.size + i :: Get(mem.Contents, x) == GUARD_BYTE
        decreases GUARD_LEN - i
      {
        var c := mem.ReadSpan(b.addr + b.size + i, 1);
        assert c[0] == Get(mem.Contents, b.addr + b.size + i);
        if c[0] != GUARD_BYTE { return true; }
        i := i + 1;
      }
      return false;
    }

    method VerifyAllGuards() returns (out: seq<Block>)
      requires Valid()
      modifies mem`readCount, mem`missCount
      ensures Valid() && out == VerifyGuards(mem.Contents, poolAllocs)
    {
      hide Corrupt;
      out := [];
      for i := 0 to |poolAllocs|
        invariant Valid() && out == VerifyGuards(mem.Contents, poolAllocs[..i])
      {
        var bad := IsCorrupt(poolAllocs[i]);
        assert poolAllocs[..i + 1][..i] == poolAllocs[..i];
        if bad { out := out + [poolAllocs[i]]; }
      }
      assert poolAllocs[..|poolAllocs|] == poolAllocs;
    }
  }

  lemma FindIs(blocks: seq<Block>, addr: int, k: nat)
    requires k <= |blocks| && (forall i | 0 <= i < k :: blocks[i].addr != addr) && (k < |blocks| ==> blocks[k].addr == addr)
    ensures Find(blocks, addr) == k
  {
  }
}
