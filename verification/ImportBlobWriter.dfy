/** The cursor loops that write an import blob: five regions of one zeroed buffer fill up
    side by side, and what is left is the concatenation ImportBlob.Blob. */
module ImportBlobWriter {
  import opened Bytes
  import opened Buffers
  import opened ImportBlob

  /** Region sizes: descriptors, name tables, strings, address tables. */
  datatype Room = Room(idt: nat, tables: nat, strs: nat, rest: nat)

  /** What each region holds so far. */
  datatype Regions = Regions(idt: seq<Byte>, names: seq<Byte>, hnt: seq<Byte>, strs: seq<Byte>, iat: seq<Byte>)

  ghost predicate Fits(z: Room, g: Regions) {
    |g.idt| <= z.idt && |g.hnt| <= z.tables && |g.strs| <= z.strs && |g.iat| <= z.rest
  }

  ghost function Lay(z: Room, g: Regions): seq<Byte>
    requires Fits(z, g)
  {
    Pad(g.idt, z.idt) + g.names + Pad(g.hnt, z.tables) + Pad(g.strs, z.strs) + Pad(g.iat, z.rest)
  }

  lemma FiveParts(a: seq<Byte>, b: seq<Byte>, c: seq<Byte>, d: seq<Byte>, e: seq<Byte>)
    ensures a + b + c + d + e == [] + a + (b + c + d + e)
    ensures a + b + c + d + e == (a + b) + c + (d + e)
    ensures a + b + c + d + e == (a + b + c) + d + e
    ensures a + b + c + d + e == (a + b + c + d) + e + []
  {
    SeqAssoc(a, b + c + d, e);
    SeqAssoc(a, b + c, d);
    SeqAssoc(a, b, c);
    SeqAssoc(a + b + c, d, e);
  }

  ghost function HntAt(z: Room, g: Regions): nat { z.idt + |g.names| + |g.hnt| }
  ghost function StrAt(z: Room, g: Regions): nat { z.idt + |g.names| + z.tables + |g.strs| }
  ghost function IatAt(z: Room, g: Regions): nat { z.idt + |g.names| + z.tables + z.strs + |g.iat| }

  lemma PutIdt(z: Room, g: Regions, t: seq<Byte>)
    requires Fits(z, g) && |g.idt| + |t| <= z.idt
    ensures SpliceAt(Lay(z, g), |g.idt|, t) == Lay(z, g.(idt := g.idt + t))
  {
    hide Pad, SpliceAt;
    FiveParts(Pad(g.idt, z.idt), g.names, Pad(g.hnt, z.tables), Pad(g.strs, z.strs), Pad(g.iat, z.rest));
    FiveParts(Pad(g.idt + t, z.idt), g.names, Pad(g.hnt, z.tables), Pad(g.strs, z.strs), Pad(g.iat, z.rest));
    SplicePad(g.idt, z.idt, t);
    SpliceIn([], Pad(g.idt, z.idt), g.names + Pad(g.hnt, z.tables) + Pad(g.strs, z.strs) + Pad(g.iat, z.rest), |g.idt|, t);
  }

  lemma PutHnt(z: Room, g: Regions, t: seq<Byte>)
    requires Fits(z, g) && |g.hnt| + |t| <= z.tables
    ensures HntAt(z, g) + |t| <= |Lay(z, g)| && SpliceAt(Lay(z, g), HntAt(z, g), t) == Lay(z, g.(hnt := g.hnt + t))
  {
    hide Pad, SpliceAt;
    FiveParts(Pad(g.idt, z.idt), g.names, Pad(g.hnt, z.tables), Pad(g.strs, z.strs), Pad(g.iat, z.rest));
    FiveParts(Pad(g.idt, z.idt), g.names, Pad(g.hnt + t, z.tables), Pad(g.strs, z.strs), Pad(g.iat, z.rest));
    SplicePad(g.hnt, z.tables, t);
    SpliceIn(Pad(g.idt, z.idt) + g.names, Pad(g.hnt, z.tables), Pad(g.strs, z.strs) + Pad(g.iat, z.rest), |g.hnt|, t);
  }

  lemma PutStr(z: Room, g: Regions, t: seq<Byte>)
    requires Fits(z, g) && |g.strs| + |t| <= z.strs
    ensures StrAt(z, g) + |t| <= |Lay(z, g)| && SpliceAt(Lay(z, g), StrAt(z, g), t) == Lay(z, g.(strs := g.strs + t))
  {
    hide Pad, SpliceAt;
    FiveParts(Pad(g.idt, z.idt), g.names, Pad(g.hnt, z.tables), Pad(g.strs, z.strs), Pad(g.iat, z.rest));
    FiveParts(Pad(g.idt, z.idt), g.names, Pad(g.hnt, z.tables), Pad(g.strs + t, z.strs), Pad(g.iat, z.rest));
    SplicePad(g.strs, z.strs, t);
    SpliceIn(Pad(g.idt, z.idt) + g.names + Pad(g.hnt, z.tables), Pad(g.strs, z.strs), Pad(g.iat, z.rest), |g.strs|, t);
  }

  lemma PutIat(z: Room, g: Regions, t: seq<Byte>)
    requires Fits(z, g) && |g.iat| + |t| <= z.rest
    ensures IatAt(z, g) + |t| <= |Lay(z, g)| && SpliceAt(Lay(z, g), IatAt(z, g), t) == Lay(z, g.(iat := g.iat + t))
  {
    hide Pad, SpliceAt;
    FiveParts(Pad(g.idt, z.idt), g.names, Pad(g.hnt, z.tables), Pad(g.strs, z.strs), Pad(g.iat, z.rest));
    FiveParts(Pad(g.idt, z.idt), g.names, Pad(g.hnt, z.tables), Pad(g.strs, z.strs), Pad(g.iat + t, z.rest));
    SplicePad(g.iat, z.rest, t);
    SpliceIn(Pad(g.idt, z.idt) + g.names + Pad(g.hnt, z.tables) + Pad(g.strs, z.strs), Pad(g.iat, z.rest), [], |g.iat|, t);
  }

  /** A region's next k bytes are already the zeros they are to be. */
  lemma SkipHnt(z: Room, g: Regions, k: nat)
    requires Fits(z, g) && |g.hnt| + k <= z.tables
    ensures Lay(z, g.(hnt := g.hnt + Zeros(k))) == Lay(z, g)
  {
    PadGap(g.hnt, z.tables, k);
  }

  lemma SkipIat(z: Room, g: Regions, k: nat)
    requires Fits(z, g) && |g.iat| + k <= z.rest
    ensures Lay(z, g.(iat := g.iat + Zeros(k))) == Lay(z, g)
  {
    PadGap(g.iat, z.rest, k);
  }

  method PutString(buf: array<Byte>, ghost z: Room, ghost g: Regions, sc: nat, f: seq<Byte>) returns (ghost g': Regions)
    requires Fits(z, g) && buf[..] == Lay(z, g)
    requires sc == StrAt(z, g) && |g.strs| + |f| + 3 <= z.strs
    modifies buf
    ensures g' == g.(strs := g.strs + ([0, 0] + f + [0])) && Fits(z, g') && buf[..] == Lay(z, g')
  {
    hide Lay, SpliceAt;
    PutStr(z, g, [0, 0]);
    PutBytes(buf, sc, [0, 0]);
    var g1 := g.(strs := g.strs + [0, 0]);
    PutStr(z, g1, f);
    PutBytes(buf, sc + 2, f);
    var g2 := g1.(strs := g1.strs + f);
    PutStr(z, g2, [0]);
    PutBytes(buf, sc + 2 + |f|, [0]);
    g' := g2.(strs := g2.strs + [0]);
    assert g.strs + [0, 0] + f + [0] == g.strs + ([0, 0] + f + [0]);
  }

  /** The same 32-bit value at both table cursors, which then step by eight. */
  method PutEntries(buf: array<Byte>, ghost z: Room, ghost g: Regions, hc: nat, ic: nat, v: nat) returns (ghost g': Regions)
    requires Fits(z, g) && buf[..] == Lay(z, g)
    requires hc == HntAt(z, g) && ic == IatAt(z, g) && |g.hnt| + 8 <= z.tables && |g.iat| + 8 <= z.rest
    modifies buf
    ensures g' == g.(hnt := g.hnt + Entry(v), iat := g.iat + Entry(v)) && Fits(z, g') && buf[..] == Lay(z, g')
  {
    hide Lay, SpliceAt;
    PutHnt(z, g, ToLE(v, 4));
    PutBytes(buf, hc, ToLE(v, 4));
    var g1 := g.(hnt := g.hnt + ToLE(v, 4));
    PutIat(z, g1, ToLE(v, 4));
    PutBytes(buf, ic, ToLE(v, 4));
    var g2 := g1.(iat := g1.iat + ToLE(v, 4));
    SkipHnt(z, g2, 4);
    var g3 := g2.(hnt := g2.hnt + Zeros(4));
    SkipIat(z, g3, 4);
    g' := g3.(iat := g3.iat + Zeros(4));
    assert g.hnt + ToLE(v, 4) + Zeros(4) == g.hnt + Entry(v);
    assert g.iat + ToLE(v, 4) + Zeros(4) == g.iat + Entry(v);
  }

  lemma ZeroWord(n: nat)
    ensures ToLE(0, n) == Zeros(n)
  {
    if n > 0 {
      ZeroWord(n - 1);
      assert Zeros(n) == [0] + Zeros(n - 1);
    }
  }

  method PutDesc(buf: array<Byte>, ghost z: Room, ghost g: Regions, d: nat, hnt: nat, name: nat, iat: nat) returns (ghost g': Regions)
    requires Fits(z, g) && buf[..] == Lay(z, g)
    requires d == |g.idt| && d + 20 <= z.idt
    modifies buf
    ensures g' == g.(idt := g.idt + (ToLE(hnt, 4) + Zeros(8) + ToLE(name, 4) + ToLE(iat, 4))) && Fits(z, g') && buf[..] == Lay(z, g')
  {
    hide Lay, SpliceAt, ToLE;
    var g1 := PutIdtWord(buf, z, g, d, hnt);
    var g2 := PutIdtWord(buf, z, g1, d + 4, 0);
    var g3 := PutIdtWord(buf, z, g2, d + 8, 0);
    var g4 := PutIdtWord(buf, z, g3, d + 12, name);
    g' := PutIdtWord(buf, z, g4, d + 16, iat);
    ZeroWord(4);
    assert Zeros(4) + Zeros(4) == Zeros(8);
    assert g.idt + ToLE(hnt, 4) + Zeros(4) + Zeros(4) + ToLE(name, 4) + ToLE(iat, 4)
        == g.idt + (ToLE(hnt, 4) + (Zeros(4) + Zeros(4)) + ToLE(name, 4) + ToLE(iat, 4));
  }

  method PutIdtWord(buf: array<Byte>, ghost z: Room, ghost g: Regions, d: nat, v: nat) returns (ghost g': Regions)
    requires Fits(z, g) && buf[..] == Lay(z, g)
    requires d == |g.idt| && d + 4 <= z.idt
    modifies buf
    ensures g' == g.(idt := g.idt + ToLE(v, 4)) && Fits(z, g') && buf[..] == Lay(z, g')
  {
    hide SpliceAt, Pad;
    PutIdt(z, g, ToLE(v, 4));
    PutBytes(buf, d, ToLE(v, 4));
    g' := g.(idt := g.idt + ToLE(v, 4));
  }

  /** One import's strings and both its tables. */
  method PutFuncs(buf: array<Byte>, ghost z: Room, ghost g: Regions, blobRva: nat, sc0: nat, hc0: nat, ic0: nat, funcs: seq<seq<Byte>>)
    returns (ghost g': Regions, sc: nat, hc: nat, ic: nat)
    requires Fits(z, g) && buf[..] == Lay(z, g)
    requires sc0 == StrAt(z, g) && hc0 == HntAt(z, g) && ic0 == IatAt(z, g)
    requires |g.strs| + StrOff(funcs, |funcs|) <= z.strs
    requires |g.hnt| + 8 * (|funcs| + 1) <= z.tables && |g.iat| + 8 * (|funcs| + 1) <= z.rest
    modifies buf
    ensures g' == g.(strs := g.strs + Flat(StrParts(funcs)),
                     hnt := g.hnt + Table(funcs, blobRva + sc0), iat := g.iat + Table(funcs, blobRva + sc0))
    ensures Fits(z, g') && buf[..] == Lay(z, g')
    ensures sc == StrAt(z, g') && hc == HntAt(z, g') && ic == IatAt(z, g')
  {
    hide Lay, Entry, StrParts, EntryParts, Flat, StrOff;
    var start := blobRva + sc0;
    sc, hc, ic, g' := sc0, hc0, ic0, g;
    NoParts(StrParts(funcs));
    NoParts(EntryParts(funcs, start));
    StrOffNone(funcs);
    assert g.strs + [] == g.strs && g.hnt + [] == g.hnt && g.iat + [] == g.iat;
    EntryPartsLen(funcs, start);
    for j := 0 to |funcs|
      invariant |StrParts(funcs)| == |funcs| == |EntryParts(funcs, start)|
      invariant g' == g.(strs := g.strs + Flat(StrParts(funcs)[..j]),
                         hnt := g.hnt + Flat(EntryParts(funcs, start)[..j]), iat := g.iat + Flat(EntryParts(funcs, start)[..j]))
      invariant |g'.hnt| == |g.hnt| + 8 * j && |g'.iat| == |g.iat| + 8 * j && |g'.strs| == |g.strs| + StrOff(funcs, j)
      invariant Fits(z, g') && buf[..] == Lay(z, g')
      invariant sc == StrAt(z, g') && hc == HntAt(z, g') && ic == IatAt(z, g')
    {
      StrStep(funcs, j);
      StrOffLe(funcs, j + 1);
      EntryStep(funcs, start, j);
      var strStart := sc;
      ghost var g1 := PutString(buf, z, g', strStart, funcs[j]);
      sc := sc + 2 + |funcs[j]| + 1;
      g' := PutEntries(buf, z, g1, hc, ic, blobRva + strStart);
      hc, ic := hc + 8, ic + 8;
      SeqAssoc(g.strs, Flat(StrParts(funcs)[..j]), [0, 0] + funcs[j] + [0]);
      SeqAssoc(g.hnt, Flat(EntryParts(funcs, start)[..j]), Entry(blobRva + strStart));
      SeqAssoc(g.iat, Flat(EntryParts(funcs, start)[..j]), Entry(blobRva + strStart));
    }
    AllParts(StrParts(funcs));
    AllParts(EntryParts(funcs, start));
    SeqAssoc(g.hnt, Flat(EntryParts(funcs, start)), Zeros(8));
    SeqAssoc(g.iat, Flat(EntryParts(funcs, start)), Zeros(8));
    EntryZero();
    g' := PutEntries(buf, z, g', hc, ic, 0);
    hc, ic := hc + 8, ic + 8;
  }

  lemma EntryZero()
    ensures Entry(0) == Zeros(8)
  {
    ZeroWord(4);
  }

  lemma SeqAssoc(a: seq<Byte>, b: seq<Byte>, c: seq<Byte>)
    ensures a + b + c == a + (b + c)
  {
  }

  lemma StrOffNone(funcs: seq<seq<Byte>>)
    ensures StrOff(funcs, 0) == 0 && |StrParts(funcs)| == |funcs|
  {
  }

  lemma StrOffLe(funcs: seq<seq<Byte>>, j: nat)
    requires j <= |funcs|
    ensures StrOff(funcs, j) <= StrOff(funcs, |funcs|)
  {
    FlatLe(StrParts(funcs), j);
    AllParts(StrParts(funcs));
  }

  lemma EntryPartsLen(funcs: seq<seq<Byte>>, start: nat)
    ensures |EntryParts(funcs, start)| == |funcs|
  {
    hide StrOff, Entry;
  }

  lemma EntryStep(funcs: seq<seq<Byte>>, start: nat, j: nat)
    requires j < |funcs|
    ensures |EntryParts(funcs, start)| == |funcs|
    ensures Flat(EntryParts(funcs, start)[..j + 1]) == Flat(EntryParts(funcs, start)[..j]) + Entry(start + StrOff(funcs, j))
  {
    hide StrOff, Entry;
    FlatStep(EntryParts(funcs, start), j);
  }

  lemma TableStep(imps: seq<Import>, start: nat, i: nat)
    requires i < |imps|
    ensures |TableParts(imps, start)| == |imps|
    ensures Flat(TableParts(imps, start)[..i + 1]) == Flat(TableParts(imps, start)[..i]) + Table(imps[i].funcs, start + StrsOff(imps, i))
  {
    hide StrsOff, Table;
    FlatStep(TableParts(imps, start), i);
  }

  lemma DescStep(imps: seq<Import>, rva: nat, i: nat)
    requires i < |imps|
    ensures |DescParts(imps, rva)| == |imps|
    ensures Flat(DescParts(imps, rva)[..i + 1]) == Flat(DescParts(imps, rva)[..i]) + Desc(imps, rva, i)
  {
    hide Desc;
    FlatStep(DescParts(imps, rva), i);
  }

  lemma OffsLe(imps: seq<Import>, i: nat)
    requires i < |imps|
    ensures TableOff(imps, i + 1) <= TableOff(imps, |imps|) && StrsOff(imps, i + 1) <= StrsOff(imps, |imps|)
    ensures NameOff(imps, i + 1) <= NameOff(imps, |imps|)
  {
    TableOffLe(imps, i + 1, |imps|);
    NamePartsLen(imps);
    FlatLe(StrsParts(imps), i + 1);
    FlatLe(NameParts(imps), i + 1);
    AllParts(StrsParts(imps));
    AllParts(NameParts(imps));
  }

  /** One pass for each sub-offset. */
  method Offsets(imps: seq<Import>) returns (offHnt: nat, offStr: nat, offIat: nat)
    ensures offHnt == OffHnt(imps) && offStr == OffStr(imps) && offIat == OffIat(imps)
  {
    hide NameParts, StrsParts, StrParts, Flat;
    NoParts(NameParts(imps));
    NoParts(StrsParts(imps));
    offHnt := (|imps| + 1) * 20;
    for i := 0 to |imps|
      invariant offHnt == IdtSize(imps) + NameOff(imps, i)
    {
      NameStep(imps, i);
      offHnt := offHnt + |imps[i].dll| + 1;
    }
    offStr := offHnt;
    for i := 0 to |imps|
      invariant offStr == OffHnt(imps) + TableOff(imps, i)
    {
      offStr := offStr + (|imps[i].funcs| + 1) * 8;
    }
    offIat := offStr;
    for i := 0 to |imps|
      invariant offIat == OffStr(imps) + StrsOff(imps, i)
    {
      StrsStep(imps, i);
      NoParts(StrParts(imps[i].funcs));
      for j := 0 to |imps[i].funcs|
        invariant offIat == OffStr(imps) + StrsOff(imps, i) + StrOff(imps[i].funcs, j)
      {
        StrStep(imps[i].funcs, j);
        offIat := offIat + 2 + |imps[i].funcs[j]| + 1;
      }
    }
  }

  /** The DLL names, and where each begins. */
  method WriteNames(buf: array<Byte>, imps: seq<Import>) returns (starts: seq<nat>)
    requires buf[..] == Zeros(buf.Length) && OffHnt(imps) <= buf.Length
    modifies buf
    ensures OffHnt(imps) == IdtSize(imps) + |Flat(NameParts(imps))|
    ensures buf[..] == (Zeros(IdtSize(imps)) + Flat(NameParts(imps))) + Zeros(buf.Length - OffHnt(imps))
    ensures |starts| == |imps| && forall i: nat | i < |imps| :: starts[i] == IdtSize(imps) + NameOff(imps, i)
  {
    hide NameParts, Flat, SpliceAt;
    var dc := (|imps| + 1) * 20;
    starts := [];
    NoParts(NameParts(imps));
    NamePartsLen(imps);
    AllParts(NameParts(imps));
    assert Zeros(buf.Length) == (Zeros(dc) + []) + Zeros(buf.Length - dc);
    for i := 0 to |imps|
      invariant dc == IdtSize(imps) + NameOff(imps, i) <= buf.Length
      invariant |NameParts(imps)| == |imps|
      invariant buf[..] == (Zeros(IdtSize(imps)) + Flat(NameParts(imps)[..i])) + Zeros(buf.Length - dc)
      invariant |starts| == i && forall k: nat | k < i :: starts[k] == IdtSize(imps) + NameOff(imps, k)
    {
      NameStep(imps, i);
      OffsLe(imps, i);
      starts := starts + [dc];
      var pre := Zeros(IdtSize(imps)) + Flat(NameParts(imps)[..i]);
      AppendName(pre, buf.Length - dc, imps[i].dll);
      PutBytes(buf, dc, imps[i].dll);
      PutBytes(buf, dc + |imps[i].dll|, [0]);
      dc := dc + |imps[i].dll| + 1;
      assert pre + imps[i].dll + [0] == Zeros(IdtSize(imps)) + (Flat(NameParts(imps)[..i]) + imps[i].dll + [0]);
    }
  }

  lemma AppendName(pre: seq<Byte>, m: nat, name: seq<Byte>)
    requires |name| + 1 <= m
    ensures SpliceAt(SpliceAt(pre + Zeros(m), |pre|, name), |pre| + |name|, [0]) == (pre + name + [0]) + Zeros(m - |name| - 1)
  {
    hide SpliceAt;
    SpliceZeros(pre, m, 0, name);
    assert pre + Zeros(0) + name == pre + name;
    SpliceZeros(pre + name, m - |name|, 0, [0]);
    assert pre + name + Zeros(0) + [0] == pre + name + [0];
  }

  /** _writeImpBlob. */
  method WriteImpBlob(imps: seq<Import>, blobRva: nat) returns (buf: array<Byte>)
    requires imps != []
    ensures fresh(buf) && buf[..] == Blob(imps, blobRva)
  {
    hide NameParts, StrsParts, StrParts, TableParts, DescParts, Flat, Lay, Desc, Table, Upto, StrsOff, TableOff, NameOff;
    var total := ImpBlobSize(imps);
    buf := NewBuffer(total);
    BlobLen(imps, blobRva);
    var offHnt, offStr, offIat := Offsets(imps);
    var names := WriteNames(buf, imps);
    ghost var z := BlobRoom(imps);
    ghost var g := Regions([], Flat(NameParts(imps)), [], [], []);
    EmptyLay(z, g.names);
    var sc, hc, ic := offStr, offHnt, offIat;
    UptoNone(imps, blobRva);
    for i := 0 to |imps|
      invariant g == Upto(imps, blobRva, i) && z == BlobRoom(imps) && Fits(z, g) && buf[..] == Lay(z, g)
      invariant sc == OffStr(imps) + StrsOff(imps, i) && hc == OffHnt(imps) + TableOff(imps, i) && ic == OffIat(imps) + TableOff(imps, i)
    {
      g, sc, hc, ic := WriteImport(buf, imps, blobRva, i, sc, hc, ic, names[i]);
    }
    BlobIs(imps, blobRva);
  }

  /** Strings, tables and descriptor of import i. */
  method WriteImport(buf: array<Byte>, imps: seq<Import>, blobRva: nat, i: nat, sc0: nat, hc0: nat, ic0: nat, nameStart: nat)
    returns (ghost g: Regions, sc: nat, hc: nat, ic: nat)
    requires i < |imps|
    requires Fits(BlobRoom(imps), Upto(imps, blobRva, i)) && buf[..] == Lay(BlobRoom(imps), Upto(imps, blobRva, i))
    requires sc0 == OffStr(imps) + StrsOff(imps, i) && hc0 == OffHnt(imps) + TableOff(imps, i) && ic0 == OffIat(imps) + TableOff(imps, i)
    requires nameStart == IdtSize(imps) + NameOff(imps, i)
    modifies buf
    ensures g == Upto(imps, blobRva, i + 1) && Fits(BlobRoom(imps), g) && buf[..] == Lay(BlobRoom(imps), g)
    ensures sc == OffStr(imps) + StrsOff(imps, i + 1) && hc == OffHnt(imps) + TableOff(imps, i + 1) && ic == OffIat(imps) + TableOff(imps, i + 1)
  {
    hide Upto, NameParts, StrsParts, StrParts, Flat, Lay, Desc, Table, StrsOff, TableOff, NameOff, StrOff;
    ghost var z := BlobRoom(imps);
    UptoLens(imps, blobRva, i);
    UptoLens(imps, blobRva, i + 1);
    UptoStep(imps, blobRva, i);
    OffsLe(imps, i);
    StepSizes(imps, i);
    g, sc, hc, ic := PutFuncs(buf, z, Upto(imps, blobRva, i), blobRva, sc0, hc0, ic0, imps[i].funcs);
    DescIs(imps, blobRva, i);
    g := PutDesc(buf, z, g, i * 20, blobRva + hc0, blobRva + nameStart, blobRva + ic0);
  }

  lemma DescIs(imps: seq<Import>, rva: nat, i: nat)
    requires i < |imps|
    ensures Desc(imps, rva, i) ==
      ToLE(rva + (OffHnt(imps) + TableOff(imps, i)), 4) + Zeros(8)
      + ToLE(rva + (IdtSize(imps) + NameOff(imps, i)), 4) + ToLE(rva + (OffIat(imps) + TableOff(imps, i)), 4)
  {
    hide ToLE, TableOff, NameOff, OffHnt, OffIat;
  }

  lemma StepSizes(imps: seq<Import>, i: nat)
    requires i < |imps|
    ensures StrsOff(imps, i + 1) == StrsOff(imps, i) + StrOff(imps[i].funcs, |imps[i].funcs|)
    ensures TableOff(imps, i + 1) == TableOff(imps, i) + 8 * (|imps[i].funcs| + 1)
    ensures imps != [] && Content(imps) <= BlobSize(imps)
  {
    hide StrsOff, StrOff, StrsParts, StrParts;
    StrsStep(imps, i);
    BlobLen(imps, 0);
  }

  lemma UptoLens(imps: seq<Import>, rva: nat, i: nat)
    requires i <= |imps|
    ensures var g := Upto(imps, rva, i);
      && |g.idt| == 20 * i && |g.hnt| == |g.iat| == TableOff(imps, i) && |g.strs| == StrsOff(imps, i)
      && |g.names| == NameOff(imps, |imps|)
  {
    hide Flat, DescParts, TableParts, StrsParts, NameParts, TableOff;
    TablesLen(imps, rva + OffStr(imps), i);
    NamePartsLen(imps);
    AllParts(NameParts(imps));
    DescPartsLen(imps, rva);
    DescPrefix(imps, rva, i);
  }

  lemma DescPrefix(imps: seq<Import>, rva: nat, i: nat)
    requires i <= |DescParts(imps, rva)|
    ensures |Flat(DescParts(imps, rva)[..i])| == 20 * i
  {
    hide Desc;
    FlatEven(DescParts(imps, rva)[..i], 20);
  }

  lemma UptoNone(imps: seq<Import>, rva: nat)
    ensures Upto(imps, rva, 0) == Regions([], Flat(NameParts(imps)), [], [], [])
    ensures StrsOff(imps, 0) == 0 == TableOff(imps, 0)
  {
    hide DescParts, NameParts, StrsParts, TableParts;
  }

  ghost function BlobRoom(imps: seq<Import>): Room {
    Room(IdtSize(imps), TableOff(imps, |imps|), StrsOff(imps, |imps|),
         if BlobSize(imps) >= OffIat(imps) then BlobSize(imps) - OffIat(imps) else 0)
  }

  lemma EmptyLay(z: Room, names: seq<Byte>)
    ensures Lay(z, Regions([], names, [], [], [])) == (Zeros(z.idt) + names) + Zeros(z.tables + z.strs + z.rest)
  {
    assert Zeros(z.tables) + Zeros(z.strs) + Zeros(z.rest) == Zeros(z.tables + z.strs + z.rest);
    assert [] + Zeros(z.idt) == Zeros(z.idt);
  }

  lemma DescPartsLen(imps: seq<Import>, rva: nat)
    ensures |DescParts(imps, rva)| == |imps|
  {
    hide Desc;
  }

  /** What the regions hold after the first i imports. */
  ghost function Upto(imps: seq<Import>, rva: nat, i: nat): Regions
    requires i <= |imps|
  {
    DescPartsLen(imps, rva);
    TablePartsLen(imps, rva + OffStr(imps));
    NamePartsLen(imps);
    Regions(Flat(DescParts(imps, rva)[..i]), Flat(NameParts(imps)), Flat(TableParts(imps, rva + OffStr(imps))[..i]),
            Flat(StrsParts(imps)[..i]), Flat(TableParts(imps, rva + OffStr(imps))[..i]))
  }

  lemma UptoStep(imps: seq<Import>, rva: nat, i: nat)
    requires i < |imps|
    ensures var g, f := Upto(imps, rva, i), imps[i].funcs;
      var t := Table(f, rva + OffStr(imps) + StrsOff(imps, i));
      && Upto(imps, rva, i + 1) == Regions(g.idt + Desc(imps, rva, i), g.names, g.hnt + t, g.strs + Flat(StrParts(f)), g.iat + t)
      && |t| == 8 * (|f| + 1)
  {
    hide Flat, DescParts, TableParts, StrsParts, StrParts, NameParts, Desc, StrsOff, EntryParts;
    DescStep(imps, rva, i);
    TableStep(imps, rva + OffStr(imps), i);
    StrsStep(imps, i);
    EntriesLen(imps[i].funcs, rva + OffStr(imps) + StrsOff(imps, i));
    NamePartsLen(imps);
  }

  lemma BlobIs(imps: seq<Import>, rva: nat)
    requires imps != []
    requires Fits(BlobRoom(imps), Upto(imps, rva, |imps|))
    ensures Lay(BlobRoom(imps), Upto(imps, rva, |imps|)) == Blob(imps, rva)
  {
    hide Flat, DescParts, TableParts, StrsParts, NameParts;
    var z := BlobRoom(imps);
    BlobLen(imps, rva);
    var start := rva + OffStr(imps);
    DescPartsLen(imps, rva);
    TablePartsLen(imps, start);
    NamePartsLen(imps);
    AllParts(DescParts(imps, rva));
    AllParts(TableParts(imps, start));
    AllParts(StrsParts(imps));
    DescsLen(imps, rva);
    TablesLen(imps, start, |imps|);
    assert Pad(Tables(imps, rva), z.tables) == Tables(imps, rva);
    assert Pad(Flat(StrsParts(imps)), z.strs) == Flat(StrsParts(imps));
  }
}
