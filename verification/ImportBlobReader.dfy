/** Where each piece of an import blob stands in it. */
module ImportBlobReader {
  import opened Bytes
  import opened Buffers
  import opened ImportBlob

  lemma SixParts(a: seq<Byte>, b: seq<Byte>, c: seq<Byte>, d: seq<Byte>, e: seq<Byte>, f: seq<Byte>)
    ensures var all := (a + b) + c + d + e + f;
      && Holds(all, 0, a) && Holds(all, |a|, b) && Holds(all, |a| + |b|, c) && Holds(all, |a| + |b| + |c|, d)
      && Holds(all, |a| + |b| + |c| + |d|, e)
  {
    hide Holds;
    var p2 := a + b;
    var p3 := p2 + c;
    var p4 := p3 + d;
    var p5 := p4 + e;
    HoldsLast(a, b);
    HoldsLast(p2, c);
    HoldsLast(p3, d);
    HoldsLast(p4, e);
    Grow(p2, c, d, e, f, 0, a);
    Grow(p2, c, d, e, f, |a|, b);
    HoldsMore(p3, d, |p2|, c);
    HoldsMore(p4, e, |p2|, c);
    HoldsMore(p5, f, |p2|, c);
    HoldsMore(p4, e, |p3|, d);
    HoldsMore(p5, f, |p3|, d);
    HoldsMore(p5, f, |p4|, e);
  }

  lemma Grow(p: seq<Byte>, c: seq<Byte>, d: seq<Byte>, e: seq<Byte>, f: seq<Byte>, o: nat, bs: seq<Byte>)
    requires Holds(p, o, bs)
    ensures Holds(p + c + d + e + f, o, bs)
  {
    hide Holds;
    HoldsMore(p, c, o, bs);
    HoldsMore(p + c, d, o, bs);
    HoldsMore(p + c + d, e, o, bs);
    HoldsMore(p + c + d + e, f, o, bs);
  }

  /** The regions of a blob. */
  lemma BlobRegions(imps: seq<Import>, rva: nat)
    ensures var b := Blob(imps, rva);
      && Holds(b, 0, Flat(DescParts(imps, rva))) && Holds(b, 20 * |imps|, Zeros(20))
      && Holds(b, IdtSize(imps), Flat(NameParts(imps))) && Holds(b, OffHnt(imps), Tables(imps, rva))
      && Holds(b, OffStr(imps), Flat(StrsParts(imps)))
  {
    hide Flat, DescParts, TableParts, StrsParts, NameParts, Holds, TableOff;
    var a, c, d, e := Flat(DescParts(imps, rva)), Flat(NameParts(imps)), Tables(imps, rva), Flat(StrsParts(imps));
    var f := Tables(imps, rva) + Zeros(if imps == [] then 0 else BlobSize(imps) - Content(imps));
    SixParts(a, Zeros(20), c, d, e, f);
    DescsLen(imps, rva);
    NamePartsLen(imps);
    AllParts(NameParts(imps));
    TablesLen(imps, rva + OffStr(imps), |imps|);
    TablePartsLen(imps, rva + OffStr(imps));
    AllParts(TableParts(imps, rva + OffStr(imps)));
  }

  lemma DescAt(imps: seq<Import>, rva: nat, i: nat)
    requires i < |imps|
    ensures Holds(Blob(imps, rva), 20 * i, Desc(imps, rva, i))
  {
    hide Flat, Holds, Desc, Blob;
    BlobRegions(imps, rva);
    FlatHolds(DescParts(imps, rva), i);
    DescPrefixLen(imps, rva, i);
    HoldsIn(Blob(imps, rva), 0, Flat(DescParts(imps, rva)), 20 * i, Desc(imps, rva, i));
  }

  lemma DescPrefixLen(imps: seq<Import>, rva: nat, i: nat)
    requires i < |imps|
    ensures |DescParts(imps, rva)| == |imps| && |Flat(DescParts(imps, rva)[..i])| == 20 * i
  {
    hide Desc;
    FlatEven(DescParts(imps, rva)[..i], 20);
  }

  lemma NameAt(imps: seq<Import>, rva: nat, i: nat)
    requires i < |imps|
    ensures Holds(Blob(imps, rva), IdtSize(imps) + NameOff(imps, i), imps[i].dll + [0])
  {
    hide Flat, Holds, Blob;
    BlobRegions(imps, rva);
    FlatHolds(NameParts(imps), i);
    HoldsIn(Blob(imps, rva), IdtSize(imps), Flat(NameParts(imps)), NameOff(imps, i), imps[i].dll + [0]);
  }

  lemma TableAt(imps: seq<Import>, rva: nat, i: nat)
    requires i < |imps|
    ensures Holds(Blob(imps, rva), OffHnt(imps) + TableOff(imps, i), Table(imps[i].funcs, rva + OffStr(imps) + StrsOff(imps, i)))
  {
    hide Flat, Holds, Blob, Table, StrsOff, TableOff;
    BlobRegions(imps, rva);
    var start := rva + OffStr(imps);
    FlatHolds(TableParts(imps, start), i);
    TablesLen(imps, start, i);
    HoldsIn(Blob(imps, rva), OffHnt(imps), Tables(imps, rva), TableOff(imps, i), Table(imps[i].funcs, start + StrsOff(imps, i)));
  }

  lemma EntryAt(funcs: seq<seq<Byte>>, start: nat, j: nat)
    requires j < |funcs|
    ensures Holds(Table(funcs, start), 8 * j, Entry(start + StrOff(funcs, j)))
  {
    hide Flat, Holds, StrOff, Entry;
    FlatHolds(EntryParts(funcs, start), j);
    FlatEven(EntryParts(funcs, start)[..j], 8);
    HoldsMid([], Flat(EntryParts(funcs, start)), Zeros(8));
    assert [] + Flat(EntryParts(funcs, start)) + Zeros(8) == Table(funcs, start);
    HoldsIn(Table(funcs, start), 0, Flat(EntryParts(funcs, start)), 8 * j, Entry(start + StrOff(funcs, j)));
  }

  lemma TableEnd(funcs: seq<seq<Byte>>, start: nat)
    ensures Holds(Table(funcs, start), 8 * |funcs|, Zeros(8)) && |Table(funcs, start)| == 8 * (|funcs| + 1)
  {
    hide Flat, Holds, EntryParts;
    EntriesLen(funcs, start);
    HoldsMid(Flat(EntryParts(funcs, start)), Zeros(8), []);
    assert Flat(EntryParts(funcs, start)) + Zeros(8) + [] == Table(funcs, start);
  }

  lemma StrAt(imps: seq<Import>, rva: nat, i: nat, j: nat)
    requires i < |imps| && j < |imps[i].funcs|
    ensures Holds(Blob(imps, rva), OffStr(imps) + StrsOff(imps, i) + StrOff(imps[i].funcs, j), [0, 0] + imps[i].funcs[j] + [0])
  {
    hide Flat, Holds, Blob;
    BlobRegions(imps, rva);
    var f := imps[i].funcs;
    FlatHolds(StrsParts(imps), i);
    FlatHolds(StrParts(f), j);
    HoldsIn(Flat(StrsParts(imps)), StrsOff(imps, i), Flat(StrParts(f)), StrOff(f, j), [0, 0] + f[j] + [0]);
    HoldsIn(Blob(imps, rva), OffStr(imps), Flat(StrsParts(imps)), StrsOff(imps, i) + StrOff(f, j), [0, 0] + f[j] + [0]);
  }

  // ------------------------------------------------ read from a file that holds a blob

  /** The three RVAs of a descriptor. */
  lemma DescReads(bytes: seq<Byte>, p: nat, imps: seq<Import>, rva: nat, i: nat)
    requires i < |imps| && Holds(bytes, p, Blob(imps, rva)) && rva + Content(imps) < TWO_32
    ensures U32At(bytes, p + 20 * i) == rva + OffHnt(imps) + TableOff(imps, i)
    ensures U32At(bytes, p + 20 * i + 12) == rva + IdtSize(imps) + NameOff(imps, i)
    ensures U32At(bytes, p + 20 * i + 16) == rva + OffIat(imps) + TableOff(imps, i)
  {
    hide U32At, Holds, Blob, Flat, ToLE, TableOff, NameOff, StrsOff;
    DescAt(imps, rva, i);
    HoldsIn(bytes, p, Blob(imps, rva), 20 * i, Desc(imps, rva, i));
    TableOffLe(imps, i, |imps|);
    NameOffLe(imps, i);
    DescWords(imps, rva, i);
    HoldsIn(bytes, p + 20 * i, Desc(imps, rva, i), 0, ToLE(rva + OffHnt(imps) + TableOff(imps, i), 4));
    HoldsIn(bytes, p + 20 * i, Desc(imps, rva, i), 12, ToLE(rva + IdtSize(imps) + NameOff(imps, i), 4));
    HoldsIn(bytes, p + 20 * i, Desc(imps, rva, i), 16, ToLE(rva + OffIat(imps) + TableOff(imps, i), 4));
    HoldsU32(bytes, p + 20 * i, rva + OffHnt(imps) + TableOff(imps, i));
    HoldsU32(bytes, p + 20 * i + 12, rva + IdtSize(imps) + NameOff(imps, i));
    HoldsU32(bytes, p + 20 * i + 16, rva + OffIat(imps) + TableOff(imps, i));
  }

  lemma DescWords(imps: seq<Import>, rva: nat, i: nat)
    requires i < |imps|
    ensures Holds(Desc(imps, rva, i), 0, ToLE(rva + OffHnt(imps) + TableOff(imps, i), 4))
    ensures Holds(Desc(imps, rva, i), 12, ToLE(rva + IdtSize(imps) + NameOff(imps, i), 4))
    ensures Holds(Desc(imps, rva, i), 16, ToLE(rva + OffIat(imps) + TableOff(imps, i), 4))
  {
    hide ToLE, TableOff, NameOff, OffHnt, OffIat;
  }

  lemma NameOffLe(imps: seq<Import>, i: nat)
    requires i < |imps|
    ensures NameOff(imps, i) + |imps[i].dll| + 1 <= NameOff(imps, |imps|)
  {
    hide Flat;
    NamePartsLen(imps);
    NameStep(imps, i);
    FlatLe(NameParts(imps), i + 1);
    AllParts(NameParts(imps));
  }

  /** After the last descriptor come twenty zero bytes. */
  lemma DescEnd(bytes: seq<Byte>, p: nat, imps: seq<Import>, rva: nat)
    requires Holds(bytes, p, Blob(imps, rva))
    ensures U32At(bytes, p + 20 * |imps|) == 0 && U32At(bytes, p + 20 * |imps| + 12) == 0 && U32At(bytes, p + 20 * |imps| + 16) == 0
  {
    hide *;
    BlobRegions(imps, rva);
    ZerosLen(20);
    HoldsIn(bytes, p, Blob(imps, rva), 20 * |imps|, Zeros(20));
    HoldsZero(bytes, p + 20 * |imps|, 20, 0);
    HoldsZero(bytes, p + 20 * |imps|, 20, 12);
    HoldsZero(bytes, p + 20 * |imps|, 20, 16);
  }

  lemma ZerosLen(n: nat)
    ensures |Zeros(n)| == n
  {
  }

  lemma NameReads(bytes: seq<Byte>, p: nat, imps: seq<Import>, rva: nat, i: nat)
    requires i < |imps| && Holds(bytes, p, Blob(imps, rva)) && NoZero(imps[i].dll) && |imps[i].dll| <= 256
    ensures CString(bytes, p + IdtSize(imps) + NameOff(imps, i), 256) == imps[i].dll
  {
    hide Holds, Blob, CString;
    NameAt(imps, rva, i);
    HoldsIn(bytes, p, Blob(imps, rva), IdtSize(imps) + NameOff(imps, i), imps[i].dll + [0]);
    CStringHeld(bytes, p + IdtSize(imps) + NameOff(imps, i), imps[i].dll, 256);
  }

  /** The hint RVA of function j of import i. */
  function HintRva(imps: seq<Import>, rva: nat, i: nat, j: nat): nat
    requires i < |imps| && j <= |imps[i].funcs|
  {
    rva + OffStr(imps) + StrsOff(imps, i) + StrOff(imps[i].funcs, j)
  }

  lemma HintRvaLt(imps: seq<Import>, rva: nat, i: nat, j: nat)
    requires i < |imps| && j < |imps[i].funcs|
    ensures HintRva(imps, rva, i, j) + |imps[i].funcs[j]| + 3 <= rva + OffIat(imps)
  {
    hide Flat;
    var f := imps[i].funcs;
    NamePartsLen(imps);
    StrStep(f, j);
    FlatLe(StrParts(f), j + 1);
    AllParts(StrParts(f));
    StrsStep(imps, i);
    FlatLe(StrsParts(imps), i + 1);
    AllParts(StrsParts(imps));
  }

  lemma TableReads(bytes: seq<Byte>, p: nat, imps: seq<Import>, rva: nat, i: nat, j: nat)
    requires i < |imps| && j <= |imps[i].funcs| && Holds(bytes, p, Blob(imps, rva)) && rva + Content(imps) < TWO_32
    ensures U32At(bytes, p + OffHnt(imps) + TableOff(imps, i) + 8 * j) ==
      if j < |imps[i].funcs| then HintRva(imps, rva, i, j) else 0
  {
    hide U32At, Holds, Blob, Table, OffHnt, TableOff, StrsOff, StrOff;
    var f, start := imps[i].funcs, rva + OffStr(imps) + StrsOff(imps, i);
    var q := p + OffHnt(imps) + TableOff(imps, i);
    TableAt(imps, rva, i);
    HoldsIn(bytes, p, Blob(imps, rva), OffHnt(imps) + TableOff(imps, i), Table(f, start));
    if j < |f| {
      EntryAt(f, start, j);
      HoldsIn(bytes, q, Table(f, start), 8 * j, Entry(start + StrOff(f, j)));
      HintRvaLt(imps, rva, i, j);
      EntryReads(bytes, q + 8 * j, start + StrOff(f, j));
    } else {
      TableEnd(f, start);
      HoldsIn(bytes, q, Table(f, start), 8 * j, Zeros(8));
      HoldsZero(bytes, q + 8 * j, 8, 0);
    }
  }

  lemma EntryReads(bytes: seq<Byte>, q: nat, v: nat)
    requires Holds(bytes, q, Entry(v)) && v < TWO_32
    ensures U32At(bytes, q) == v
  {
    hide U32At, Holds, ToLE;
    HoldsMid([], ToLE(v, 4), Zeros(4));
    assert [] + ToLE(v, 4) + Zeros(4) == Entry(v);
    HoldsIn(bytes, q, Entry(v), 0, ToLE(v, 4));
    HoldsU32(bytes, q, v);
  }

  lemma FuncReads(bytes: seq<Byte>, p: nat, imps: seq<Import>, rva: nat, i: nat, j: nat)
    requires i < |imps| && j < |imps[i].funcs| && Holds(bytes, p, Blob(imps, rva))
    requires NoZero(imps[i].funcs[j]) && |imps[i].funcs[j]| <= 256
    ensures CString(bytes, p + (HintRva(imps, rva, i, j) - rva) + 2, 256) == imps[i].funcs[j]
  {
    hide Holds, Blob, CString, OffStr, StrsOff, StrOff;
    var f := imps[i].funcs[j];
    var q := p + (HintRva(imps, rva, i, j) - rva);
    StrAt(imps, rva, i, j);
    HoldsIn(bytes, p, Blob(imps, rva), HintRva(imps, rva, i, j) - rva, [0, 0] + f + [0]);
    HoldsMid([0, 0], f + [0], []);
    assert [0, 0] + (f + [0]) + [] == [0, 0] + f + [0];
    HoldsIn(bytes, q, [0, 0] + f + [0], 2, f + [0]);
    CStringHeld(bytes, q + 2, f, 256);
  }
}
