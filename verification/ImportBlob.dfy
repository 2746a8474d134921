/** The import section of a built image: its parts, their places, and the cursor loops that
    write it. */
module ImportBlob {
  import opened Bytes
  import opened Buffers

  /** Names as the bytes of their characters. */
  datatype Import = Import(dll: seq<Byte>, funcs: seq<seq<Byte>>)

  function NameParts(imps: seq<Import>): seq<seq<Byte>> {
    seq(|imps|, i requires 0 <= i < |imps| => imps[i].dll + [0])
  }

  /** Hint, name and terminator of each function. */
  function StrParts(funcs: seq<seq<Byte>>): seq<seq<Byte>> {
    seq(|funcs|, j requires 0 <= j < |funcs| => [0, 0] + funcs[j] + [0])
  }

  function StrsParts(imps: seq<Import>): seq<seq<Byte>> {
    seq(|imps|, i requires 0 <= i < |imps| => Flat(StrParts(imps[i].funcs)))
  }

  /** Where the hint of function j stands, from the first of its import. */
  function StrOff(funcs: seq<seq<Byte>>, j: nat): nat
    requires j <= |funcs|
  {
    |Flat(StrParts(funcs)[..j])|
  }

  /** A table entry is eight bytes, of which the upper four stay zero. */
  function Entry(v: nat): (s: seq<Byte>)
    ensures |s| == 8
  {
    ToLE(v, 4) + Zeros(4)
  }

  function EntryParts(funcs: seq<seq<Byte>>, start: nat): seq<seq<Byte>> {
    seq(|funcs|, j requires 0 <= j < |funcs| => Entry(start + StrOff(funcs, j)))
  }

  /** One import's name table, whose strings begin at RVA start. */
  function Table(funcs: seq<seq<Byte>>, start: nat): seq<Byte> { Flat(EntryParts(funcs, start)) + Zeros(8) }

  function StrsOff(imps: seq<Import>, i: nat): nat
    requires i <= |imps|
  {
    |Flat(StrsParts(imps)[..i])|
  }

  function TableParts(imps: seq<Import>, start: nat): seq<seq<Byte>> {
    seq(|imps|, i requires 0 <= i < |imps| => Table(imps[i].funcs, start + StrsOff(imps, i)))
  }

  /** Bytes of the first i tables. */
  function TableOff(imps: seq<Import>, i: nat): nat
    requires i <= |imps|
  {
    if i == 0 then 0 else TableOff(imps, i - 1) + 8 * (|imps[i - 1].funcs| + 1)
  }

  function NameOff(imps: seq<Import>, i: nat): nat
    requires i <= |imps|
  {
    |Flat(NameParts(imps)[..i])|
  }

  function IdtSize(imps: seq<Import>): nat { (|imps| + 1) * 20 }
  function OffHnt(imps: seq<Import>): nat { IdtSize(imps) + NameOff(imps, |imps|) }
  function OffStr(imps: seq<Import>): nat { OffHnt(imps) + TableOff(imps, |imps|) }
  function OffIat(imps: seq<Import>): nat { OffStr(imps) + StrsOff(imps, |imps|) }
  function Content(imps: seq<Import>): nat { OffIat(imps) + TableOff(imps, |imps|) }

  function BlobSize(imps: seq<Import>): nat {
    if imps == [] then 0 else (Content(imps) + 7) / 8 * 8
  }

  function Desc(imps: seq<Import>, rva: nat, i: nat): (s: seq<Byte>)
    requires i < |imps|
    ensures |s| == 20
  {
    ToLE(rva + OffHnt(imps) + TableOff(imps, i), 4) + Zeros(8)
    + ToLE(rva + IdtSize(imps) + NameOff(imps, i), 4) + ToLE(rva + OffIat(imps) + TableOff(imps, i), 4)
  }

  function DescParts(imps: seq<Import>, rva: nat): seq<seq<Byte>> {
    seq(|imps|, i requires 0 <= i < |imps| => Desc(imps, rva, i))
  }

  function Tables(imps: seq<Import>, rva: nat): seq<Byte> { Flat(TableParts(imps, rva + OffStr(imps))) }

  /** Descriptors and a null one, DLL names, name tables, strings, address tables, and padding. */
  function Blob(imps: seq<Import>, rva: nat): seq<Byte> {
    (Flat(DescParts(imps, rva)) + Zeros(20)) + Flat(NameParts(imps)) + Tables(imps, rva) + Flat(StrsParts(imps))
    + (Tables(imps, rva) + Zeros(if imps == [] then 0 else BlobSize(imps) - Content(imps)))
  }

  // ------------------------------------------------------------------ sizes

  lemma {:induction false} TableOffLe(imps: seq<Import>, i: nat, j: nat)
    requires i <= j <= |imps|
    ensures TableOff(imps, i) <= TableOff(imps, j)
    decreases j - i
  {
    if i < j { TableOffLe(imps, i, j - 1); }
  }

  lemma EntriesLen(funcs: seq<seq<Byte>>, start: nat)
    ensures |Flat(EntryParts(funcs, start))| == 8 * |funcs|
  {
    hide StrOff, Entry;
    FlatEven(EntryParts(funcs, start), 8);
  }

  lemma {:induction false} TablesLen(imps: seq<Import>, start: nat, i: nat)
    requires i <= |imps|
    ensures |Flat(TableParts(imps, start)[..i])| == TableOff(imps, i)
    decreases i
  {
    hide StrsOff, EntryParts;
    if i > 0 {
      TablesLen(imps, start, i - 1);
      FlatStep(TableParts(imps, start), i - 1);
      EntriesLen(imps[i - 1].funcs, start + StrsOff(imps, i - 1));
    }
  }

  lemma DescsLen(imps: seq<Import>, rva: nat)
    ensures |Flat(DescParts(imps, rva))| == 20 * |imps|
  {
    hide Desc;
    FlatEven(DescParts(imps, rva), 20);
  }

  lemma AllParts(parts: seq<seq<Byte>>)
    ensures Flat(parts[..|parts|]) == Flat(parts)
  {
    assert parts[..|parts|] == parts;
  }

  lemma BlobLen(imps: seq<Import>, rva: nat)
    requires imps != []
    ensures |Blob(imps, rva)| == BlobSize(imps) && Content(imps) <= BlobSize(imps)
  {
    hide DescParts, NameParts, StrsParts, TableParts, Flat, TableOff;
    DescsLen(imps, rva);
    TablesLen(imps, rva + OffStr(imps), |imps|);
    TablePartsLen(imps, rva + OffStr(imps));
    AllParts(TableParts(imps, rva + OffStr(imps)));
    NamePartsLen(imps);
    AllParts(NameParts(imps));
    AllParts(StrsParts(imps));
  }

  lemma TablePartsLen(imps: seq<Import>, start: nat)
    ensures |TableParts(imps, start)| == |imps|
  {
    hide Table, StrsOff;
  }

  lemma NamePartsLen(imps: seq<Import>)
    ensures |NameParts(imps)| == |imps| && |StrsParts(imps)| == |imps|
  {
    hide Flat;
  }

  /** _impBlobSize. Its final rounding uses 32-bit operators, so the sum must stay below 2^31. */
  method ImpBlobSize(imps: seq<Import>) returns (n: nat)
    ensures n == BlobSize(imps)
  {
    hide NameParts, StrParts, Flat;
    if imps == [] { return 0; }
    n := (|imps| + 1) * 20;
    var entries: nat := 0;
    NoParts(NameParts(imps));
    NoParts(StrsParts(imps));
    for i := 0 to |imps|
      invariant n == IdtSize(imps) + NameOff(imps, i) + StrsOff(imps, i) && entries * 8 == TableOff(imps, i)
    {
      NameStep(imps, i);
      StrsStep(imps, i);
      ghost var n0 := n;
      n := n + |imps[i].dll| + 1;
      entries := entries + |imps[i].funcs| + 1;
      NoParts(StrParts(imps[i].funcs));
      for j := 0 to |imps[i].funcs|
        invariant n == n0 + |imps[i].dll| + 1 + StrOff(imps[i].funcs, j)
      {
        StrStep(imps[i].funcs, j);
        n := n + 2 + |imps[i].funcs[j]| + 1;
      }
    }
    n := n + entries * 8;
    n := n + entries * 8;
    n := (n + 7) - (n + 7) % 8;
  }

  lemma NoParts(parts: seq<seq<Byte>>)
    ensures Flat(parts[..0]) == []
  {
  }

  lemma NameStep(imps: seq<Import>, i: nat)
    requires i < |imps|
    ensures |NameParts(imps)| == |imps| && NameParts(imps)[i] == imps[i].dll + [0]
    ensures Flat(NameParts(imps)[..i + 1]) == Flat(NameParts(imps)[..i]) + imps[i].dll + [0]
    ensures NameOff(imps, i + 1) == NameOff(imps, i) + |imps[i].dll| + 1
  {
    FlatStep(NameParts(imps), i);
  }

  lemma StrStep(funcs: seq<seq<Byte>>, j: nat)
    requires j < |funcs|
    ensures |StrParts(funcs)| == |funcs| && StrParts(funcs)[j] == [0, 0] + funcs[j] + [0]
    ensures Flat(StrParts(funcs)[..j + 1]) == Flat(StrParts(funcs)[..j]) + ([0, 0] + funcs[j] + [0])
    ensures StrOff(funcs, j + 1) == StrOff(funcs, j) + |funcs[j]| + 3
  {
    FlatStep(StrParts(funcs), j);
  }

  lemma StrsStep(imps: seq<Import>, i: nat)
    requires i < |imps|
    ensures |StrsParts(imps)| == |imps| && |StrParts(imps[i].funcs)| == |imps[i].funcs|
    ensures Flat(StrsParts(imps)[..i + 1]) == Flat(StrsParts(imps)[..i]) + Flat(StrParts(imps[i].funcs))
    ensures StrsOff(imps, i + 1) == StrsOff(imps, i) + StrOff(imps[i].funcs, |imps[i].funcs|)
  {
    FlatStep(StrsParts(imps), i);
    AllParts(StrParts(imps[i].funcs));
  }
}
