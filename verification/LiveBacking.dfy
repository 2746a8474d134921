/** The page-by-page loop that makes a range present in a live memory. */
module LiveBacking {
  import opened Bytes
  import opened Store
  import opened Memory
  import opened Backing

  /** Pages that are there already keep their bytes. */
  method MakePresent(mem: SparseMemory, first: nat, end: nat)
    requires mem.Valid()
    modifies mem, mem.Repr
    ensures mem.Valid() && fresh(mem.Repr - old(mem.Repr))
    ensures mem.Contents == Backed(old(mem.Contents), first, end)
  {
    hide Put;
    ghost var m0 := mem.Contents;
    var k := first;
    while k < end
      invariant mem.Valid() && fresh(mem.Repr - old(mem.Repr))
      invariant Backed(mem.Contents, k, end) == Backed(m0, first, end)
      decreases end - k
    {
      assert k * 4096 / 4096 == k by { ModUnique(k * 4096, 4096, k, 0); }
      var present := mem.HasPage(k * 4096);
      if !present { mem.WriteSpan(k * 4096, Zeros(4096)); }
      k := k + 1;
    }
  }
}
