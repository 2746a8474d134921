/** The page-keyed byte store, updated in place, against its value as a `Store`. */
module Memory {
  import opened Bytes
  import opened Store

  class SparseMemory {
    /** Page number to page buffer. */
    var pages: map<nat, array<Byte>>
    /** Pages written since the last checkpoint. */
    var dirty: set<nat>
    var readCount: nat
    var writeCount: nat
    var missCount: nat

    /** The value this object stands for, and the buffers it owns. */
    ghost var Contents: Store
    ghost var Repr: set<array<Byte>>

    ghost predicate Valid()
      reads this, Repr
    {
      && Contents.Keys == pages.Keys
      && (forall p | p in pages :: pages[p] in Repr && pages[p].Length == 4096 && pages[p][..] == Contents[p])
      && (forall p, q | p in pages && q in pages && p != q :: pages[p] != pages[q])
    }

    constructor ()
      ensures Valid() && Repr == {} && Contents == map[]
      ensures dirty == {} && readCount == writeCount == missCount == 0
    {
      pages, dirty, readCount, writeCount, missCount := map[], {}, 0, 0, 0;
      Contents, Repr := map[], {};
    }

    static method NewPage(bs: seq<Byte>) returns (buf: array<Byte>)
      requires |bs| == 4096
      ensures fresh(buf) && buf[..] == bs
    {
      buf := new Byte[4096];
      forall k | 0 <= k < 4096 {
        buf[k] := bs[k];
      }
    }

    /** The buffer of a page, created zero-filled when missing. */
    method EnsurePage(p: nat) returns (buf: array<Byte>)
      requires Valid()
      modifies this`pages, this`Contents, this`Repr
      ensures Valid() && p in pages && buf == pages[p] && fresh(Repr - old(Repr))
      ensures Contents == if p in old(Contents) then old(Contents) else old(Contents)[p := Zeros(4096)]
    {
      if p in pages {
        buf := pages[p];
      } else {
        buf := NewPage(Zeros(4096));
        pages, Contents, Repr := pages[p := buf], Contents[p := Zeros(4096)], Repr + {buf};
      }
    }

    /** Missing pages read as zeros and are not materialized. */
    method ReadSpan(addr: nat, len: nat) returns (out: seq<Byte>)
      requires Valid()
      modifies this`readCount, this`missCount
      ensures Valid() && out == Read(Contents, addr, len)
      ensures readCount == old(readCount) + 1 && missCount >= old(missCount)
    {
      out := [];
      var a, done := addr, 0;
      while done < len
        invariant 0 <= done <= len && a == addr + done
        invariant Valid() && out == Read(Contents, addr, done)
        invariant readCount == old(readCount) && missCount >= old(missCount)
      {
        var off := a % 4096;
        var chunk := if 4096 - off < len - done then 4096 - off else len - done;
        ReadInPage(Contents, a, chunk);
        ReadAppend(Contents, addr, done, chunk);
        if a / 4096 in pages {
          out := out + pages[a / 4096][off..off + chunk];
        } else {
          out := out + Zeros(chunk);
          missCount := missCount + 1;
        }
        a, done := a + chunk, done + chunk;
      }
      readCount := readCount + 1;
    }

    /** p.set(bytes, off) on one buffer. */
    static method SetBytes(buf: array<Byte>, off: nat, bs: seq<Byte>)
      requires buf.Length == 4096 && off + |bs| <= 4096
      modifies buf
      ensures buf[..] == Splice(old(buf[..]), off, bs)
    {
      forall i | 0 <= i < |bs| {
        buf[off + i] := bs[i];
      }
    }

    /** One page-bounded piece of a write: the buffer is updated in place. */
    method SetChunk(a: nat, bs: seq<Byte>)
      requires Valid() && bs != [] && a % 4096 + |bs| <= 4096
      modifies this`pages, this`dirty, this`Contents, this`Repr, Repr
      ensures Valid() && fresh(Repr - old(Repr))
      ensures Wrote(old(Contents), Contents, a, bs)
      ensures dirty == old(dirty) + Touched(a, |bs|)
    {
      hide Wrote, Touched, Splice;
      var p: nat, off: nat := a / 4096, a % 4096;
      var buf := EnsurePage(p);
      ghost var mid := Contents;
      SetBytes(buf, off, bs);
      dirty := dirty + {p};
      Contents := mid[p := Splice(mid[p], off, bs)];
      EnsuredSpliceWrote(old(Contents), mid, Contents, a, bs);
    }

    /** Page by page, as the source splits it; what is left is one flat write. */
    method WriteSpan(addr: nat, bytes: seq<Byte>)
      requires Valid()
      modifies this`pages, this`dirty, this`writeCount, this`Contents, this`Repr, Repr
      ensures Valid() && fresh(Repr - old(Repr))
      ensures Contents == Put(old(Contents), addr, bytes)
      ensures dirty == old(dirty) + Touched(addr, |bytes|)
      ensures writeCount == old(writeCount) + 1
    {
      hide Wrote, Touched, Put;
      ghost var m0 := Contents;
      NothingWrote(m0, addr);
      var a, done := addr, 0;
      while done < |bytes|
        invariant 0 <= done <= |bytes| && a == addr + done
        invariant Valid() && fresh(Repr - old(Repr))
        invariant Wrote(m0, Contents, addr, bytes[..done])
        invariant dirty == old(dirty) + Touched(addr, done)
        invariant writeCount == old(writeCount)
      {
        var off := a % 4096;
        var chunk := if 4096 - off < |bytes| - done then 4096 - off else |bytes| - done;
        ghost var m1 := Contents;
        SetChunk(a, bytes[done..done + chunk]);
        WroteAppend(m0, m1, Contents, addr, bytes[..done], bytes[done..done + chunk]);
        assert bytes[..done] + bytes[done..done + chunk] == bytes[..done + chunk];
        TouchedAppend(addr, done, chunk);
        a, done := a + chunk, done + chunk;
      }
      assert bytes[..done] == bytes;
      WroteIsPut(m0, Contents, addr, bytes);
      writeCount := writeCount + 1;
    }

    /** u8, u16 and u32. */
    method ReadWord(addr: nat, n: nat) returns (v: nat)
      requires Valid()
      modifies this`readCount, this`missCount
      ensures Valid() && v == FromLE(Read(Contents, addr, n))
    {
      var bs := ReadSpan(addr, n);
      v := FromLE(bs);
    }

    /** w8, w16 and w32. */
    method WriteWord(addr: nat, v: int, n: nat)
      requires Valid()
      modifies this`pages, this`dirty, this`writeCount, this`Contents, this`Repr, Repr
      ensures Valid() && fresh(Repr - old(Repr))
      ensures Contents == Put(old(Contents), addr, ToLE(v, n))
    {
      WriteSpan(addr, ToLE(v, n));
    }

    method ReadU64(addr: nat) returns (v: nat)
      requires Valid()
      modifies this`readCount, this`missCount
      ensures Valid() && v == U64(Contents, addr)
    {
      var bs := ReadSpan(addr, 8);
      v := FromLE(bs);
    }

    method WriteU64(addr: nat, v: int)
      requires Valid()
      modifies this`pages, this`dirty, this`writeCount, this`Contents, this`Repr, Repr
      ensures Valid() && fresh(Repr - old(Repr))
      ensures Contents == W64(old(Contents), addr, v)
    {
      WriteSpan(addr, ToLE(v, 8));
    }

    predicate HasPage(addr: nat)
      reads this`pages
    {
      addr / 4096 in pages
    }

    /** True exactly when every byte of [addr, addr+len) lies in a materialized page. */
    method CanRead(addr: nat, len: nat) returns (ok: bool)
      ensures ok <==> forall x: nat | addr <= x < addr + len :: HasPage(x)
    {
      var cur := addr;
      while cur < addr + len
        invariant addr <= cur && (cur == addr || cur % 4096 == 0)
        invariant forall x: nat | addr <= x < cur && x < addr + len :: HasPage(x)
        decreases addr + len - cur
      {
        if cur / 4096 !in pages {
          assert !HasPage(cur);
          return false;
        }
        ghost var was := cur;
        cur := cur / 4096 * 4096 + 4096;
        forall x: nat | was <= x < cur
          ensures HasPage(x)
        {
          assert x / 4096 == was / 4096;
        }
      }
      return true;
    }

    /** The materialized pages as (page, bytes) pairs. */
    method Dump() returns (out: seq<(nat, seq<Byte>)>)
      requires Valid()
      ensures forall i | 0 <= i < |out| :: out[i].0 in Contents && out[i].1 == Contents[out[i].0]
      ensures forall i, j | 0 <= i < j < |out| :: out[i].0 != out[j].0
      ensures forall p | p in Contents :: exists i :: 0 <= i < |out| && out[i].0 == p
    {
      out := [];
      var todo := pages.Keys;
      while todo != {}
        invariant todo <= pages.Keys
        invariant forall i | 0 <= i < |out| :: out[i].0 in pages && out[i].0 !in todo && out[i].1 == pages[out[i].0][..]
        invariant forall i, j | 0 <= i < j < |out| :: out[i].0 != out[j].0
        invariant forall p | p in pages && p !in todo :: exists i :: 0 <= i < |out| && out[i].0 == p
        decreases todo
      {
        var p :| p in todo;
        ghost var was := out;
        out := out + [(p, pages[p][..])];
        todo := todo - {p};
        forall q | q in pages && q !in todo
          ensures exists i :: 0 <= i < |out| && out[i].0 == q
        {
          if q == p {
            assert out[|was|].0 == q;
          } else {
            var i :| 0 <= i < |was| && was[i].0 == q;
            assert out[i].0 == q;
          }
        }
      }
    }

    /** Later pairs win, as they do in the source's Map. */
    method Restore(pairs: seq<(nat, seq<Byte>)>)
      requires forall i | 0 <= i < |pairs| :: |pairs[i].1| == 4096
      modifies this`pages, this`dirty, this`Contents, this`Repr
      ensures Valid() && fresh(Repr) && dirty == {}
      ensures Contents == FromPairs(pairs)
    {
      pages, dirty, Contents, Repr := map[], {}, map[], {};
      for i := 0 to |pairs|
        invariant Valid() && fresh(Repr) && dirty == {}
        invariant Contents == FromPairs(pairs[..i])
      {
        var buf := NewPage(pairs[i].1);
        pages, Repr := pages[pairs[i].0 := buf], Repr + {buf};
        Contents := Contents[pairs[i].0 := pairs[i].1];
        assert pairs[..i + 1][..i] == pairs[..i];
      }
      assert pairs[..|pairs|] == pairs;
    }
  }

  function FromPairs(pairs: seq<(nat, seq<Byte>)>): Store
    requires forall i | 0 <= i < |pairs| :: |pairs[i].1| == 4096
  {
    if pairs == [] then map[]
    else FromPairs(pairs[..|pairs| - 1])[pairs[|pairs| - 1].0 := pairs[|pairs| - 1].1]
  }

  lemma {:induction false} FromPairsLookup(pairs: seq<(nat, seq<Byte>)>)
    requires forall i | 0 <= i < |pairs| :: |pairs[i].1| == 4096
    requires forall i, j | 0 <= i < j < |pairs| :: pairs[i].0 != pairs[j].0
    ensures forall p | p in FromPairs(pairs) :: exists i :: 0 <= i < |pairs| && pairs[i].0 == p
    ensures forall i | 0 <= i < |pairs| :: pairs[i].0 in FromPairs(pairs) && FromPairs(pairs)[pairs[i].0] == pairs[i].1
  {
    if pairs != [] {
      var n := |pairs| - 1;
      FromPairsLookup(pairs[..n]);
      forall p | p in FromPairs(pairs)
        ensures exists i :: 0 <= i < |pairs| && pairs[i].0 == p
      {
        if p == pairs[n].0 {
        } else {
          var i :| 0 <= i < n && pairs[..n][i].0 == p;
          assert pairs[i].0 == p;
        }
      }
      forall i | 0 <= i < n
        ensures pairs[i].0 in FromPairs(pairs) && FromPairs(pairs)[pairs[i].0] == pairs[i].1
      {
        assert pairs[..n][i] == pairs[i];
      }
    }
  }

  /** restore(dump()) loses nothing: any listing of a store's pages rebuilds it. */
  lemma DumpRestore(m: Store, pairs: seq<(nat, seq<Byte>)>)
    requires forall i | 0 <= i < |pairs| :: pairs[i].0 in m && pairs[i].1 == m[pairs[i].0]
    requires forall i, j | 0 <= i < j < |pairs| :: pairs[i].0 != pairs[j].0
    requires forall p | p in m :: exists i :: 0 <= i < |pairs| && pairs[i].0 == p
    ensures FromPairs(pairs) == m
  {
    FromPairsLookup(pairs);
    var r := FromPairs(pairs);
    forall p | p in m
      ensures p in r && r[p] == m[p]
    {
      var i :| 0 <= i < |pairs| && pairs[i].0 == p;
      assert pairs[i].0 in r;
    }
  }

  /** The snapshot cycle on a live memory. */
  method SnapshotCycle(mem: SparseMemory)
    requires mem.Valid()
    modifies mem`pages, mem`dirty, mem`Contents, mem`Repr
    ensures mem.Valid() && mem.Contents == old(mem.Contents) && mem.dirty == {}
  {
    var out := mem.Dump();
    DumpRestore(mem.Contents, out);
    mem.Restore(out);
  }
}
