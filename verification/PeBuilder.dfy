/** The image builder: layout loops, then in-place emission. What it leaves is PeImage.Image. */
module PeBuilder {
  import opened Bytes
  import opened Buffers
  import opened ImportBlob
  import opened Wrappers
  import opened PeImage
  import ImportBlobWriter

  lemma Append(pre: seq<Byte>, m: nat, gap: nat, t: seq<Byte>)
    requires gap + |t| <= m
    ensures |pre + Zeros(m)| == |pre| + m
    ensures SpliceAt(pre + Zeros(m), |pre| + gap, t) == (pre + Zeros(gap) + t) + Zeros(m - gap - |t|)
  {
    SpliceZeros(pre, m, gap, t);
  }

  /** A header field: zeros up to its offset, then its bytes. */
  method Field(out: array<Byte>, ghost pre: seq<Byte>, o: nat, t: seq<Byte>) returns (ghost pre': seq<Byte>)
    requires |pre| <= o && o + |t| <= out.Length && out[..] == pre + Zeros(out.Length - |pre|)
    modifies out
    ensures pre' == pre + Zeros(o - |pre|) + t && |pre'| == o + |t|
    ensures out[..] == pre' + Zeros(out.Length - |pre'|)
  {
    hide SpliceAt;
    Append(pre, out.Length - |pre|, o - |pre|, t);
    PutBytes(out, o, t);
    pre' := pre + Zeros(o - |pre|) + t;
  }

  method EmitDos(out: array<Byte>)
    requires out.Length >= SECTIONS_OFF && out[..] == Zeros(out.Length)
    modifies out
    ensures |Dos()| == 0x84 && out[..] == Dos() + Zeros(out.Length - 0x84)
  {
    hide ToLE;
    ghost var pre := [];
    assert [] + Zeros(out.Length) == Zeros(out.Length);
    pre := Field(out, pre, 0, ToLE(0x5a4d, 2));
    assert pre == ToLE(0x5a4d, 2);
    pre := Field(out, pre, 0x3c, ToLE(0x80, 4));
    pre := Field(out, pre, 0x80, ToLE(0x4550, 4));
    assert pre == Dos();
  }

  method EmitCoff(out: array<Byte>, n: nat)
    requires out.Length >= SECTIONS_OFF && |Dos()| == 0x84 && out[..] == Dos() + Zeros(out.Length - 0x84)
    modifies out
    ensures |Dos() + Coff(n)| == 0x98 && out[..] == Dos() + Coff(n) + Zeros(out.Length - 0x98)
  {
    hide ToLE, Dos;
    ghost var pre := Dos();
    pre := Field(out, pre, 0x84, ToLE(0x8664, 2));
    assert pre == Dos() + ToLE(0x8664, 2);
    pre := Field(out, pre, 0x86, ToLE(n, 2));
    assert pre == Dos() + (ToLE(0x8664, 2) + ToLE(n, 2));
    pre := Field(out, pre, 0x94, ToLE(240, 2));
    assert pre == Dos() + (ToLE(0x8664, 2) + ToLE(n, 2) + Zeros(12) + ToLE(240, 2));
    pre := Field(out, pre, 0x96, ToLE(0x2020, 2));
    assert pre == Dos() + Coff(n);
  }

  method EmitAddresses(out: array<Byte>, p: Plan, entry: nat, ghost pre: seq<Byte>)
    requires out.Length >= SECTIONS_OFF && |pre| == 0x98 && out[..] == pre + Zeros(out.Length - 0x98)
    modifies out
    ensures |pre + OptAddresses(p, entry)| == 0xc0 && out[..] == pre + OptAddresses(p, entry) + Zeros(out.Length - 0xc0)
  {
    hide ToLE;
    ghost var s := pre;
    s := Field(out, s, 0x98, ToLE(0x20b, 2));
    assert s == pre + ToLE(0x20b, 2);
    s := Field(out, s, 0xa8, ToLE(entry, 4));
    assert s == pre + (ToLE(0x20b, 2) + Zeros(14) + ToLE(entry, 4));
    s := Field(out, s, 0xb0, ToLE(p.imageBase, 8));
    assert s == pre + (ToLE(0x20b, 2) + Zeros(14) + ToLE(entry, 4) + Zeros(4) + ToLE(p.imageBase, 8));
    s := Field(out, s, 0xb8, ToLE(PAGE_SIZE, 4));
    assert s == pre + (ToLE(0x20b, 2) + Zeros(14) + ToLE(entry, 4) + Zeros(4) + ToLE(p.imageBase, 8) + ToLE(PAGE_SIZE, 4));
    s := Field(out, s, 0xbc, ToLE(FILE_ALIGN, 4));
    assert s == pre + OptAddresses(p, entry);
  }

  method EmitSizes(out: array<Byte>, ghost p: Plan, imageSize: nat, headersSize: nat, ghost pre: seq<Byte>)
    requires imageSize == ImageSize(p) && headersSize == HeadersSize(Count(p))
    requires out.Length >= SECTIONS_OFF && |pre| == 0xc0 && out[..] == pre + Zeros(out.Length - 0xc0)
    modifies out
    ensures |pre + OptSizes(p)| == 0x108 && out[..] == pre + OptSizes(p) + Zeros(out.Length - 0x108)
  {
    hide ToLE, ImageSize, HeadersSize, Count;
    ghost var s := pre;
    s := Field(out, s, 0xd0, ToLE(imageSize, 4));
    assert s == pre + (Zeros(16) + ToLE(imageSize, 4));
    s := Field(out, s, 0xd4, ToLE(headersSize, 4));
    ghost var a := Zeros(16) + ToLE(imageSize, 4) + ToLE(headersSize, 4);
    assert s == pre + a;
    s := Field(out, s, 0xe0, ToLE(0x100000, 8));
    assert s == pre + (a + Zeros(8) + ToLE(0x100000, 8));
    s := Field(out, s, 0xe8, ToLE(0x1000, 8));
    s := Field(out, s, 0xf0, ToLE(0x100000, 8));
    ghost var b := a + Zeros(8) + ToLE(0x100000, 8) + ToLE(0x1000, 8) + ToLE(0x100000, 8);
    assert s == pre + b;
    s := Field(out, s, 0x104, ToLE(16, 4));
    assert s == pre + (b + Zeros(12) + ToLE(16, 4));
  }

  lemma Extend(s: seq<Byte>, m: nat, k: nat)
    requires k <= m
    ensures s + Zeros(m) == (s + Zeros(k)) + Zeros(m - k)
  {
  }

  lemma NoDirBytes()
    ensures DirBytes(Dir(0, 0)) == Zeros(8)
  {
    ImportBlobWriter.ZeroWord(4);
  }

  /** A directory entry is written only when there is one; otherwise its bytes stay zero. */
  method EmitDir(out: array<Byte>, o: nat, d: Dir, present: bool, ghost pre: seq<Byte>) returns (ghost s: seq<Byte>)
    requires |pre| <= o && o + 8 <= out.Length && out[..] == pre + Zeros(out.Length - |pre|)
    requires !present ==> d == Dir(0, 0)
    modifies out
    ensures s == pre + Zeros(o - |pre|) + DirBytes(d) && |s| == o + 8 && out[..] == s + Zeros(out.Length - |s|)
  {
    hide ToLE;
    s := pre;
    if present {
      s := Field(out, s, o, ToLE(d.rva, 4));
      s := Field(out, s, o + 4, ToLE(d.size, 4));
      assert s == pre + Zeros(o - |pre|) + DirBytes(d);
    } else {
      NoDirBytes();
      Extend(pre, out.Length - |pre|, o + 8 - |pre|);
      assert Zeros(o + 8 - |pre|) == Zeros(o - |pre|) + Zeros(8);
      s := pre + Zeros(o - |pre|) + DirBytes(d);
      assert s == pre + Zeros(o + 8 - |pre|);
    }
  }

  method EmitDirs(out: array<Byte>, ghost p: Plan, imp: Dir, hasImports: bool, exc: Dir, hasExc: bool, ghost pre: seq<Byte>)
    requires imp == ImportDir(p) && hasImports == (p.imports != []) && exc == ExceptionDir(p) && hasExc == p.exceptionDir.Some?
    requires out.Length >= SECTIONS_OFF && |pre| == 0x108 && out[..] == pre + Zeros(out.Length - 0x108)
    modifies out
    ensures |pre + Dirs(p)| == SECTIONS_OFF && out[..] == pre + Dirs(p) + Zeros(out.Length - SECTIONS_OFF)
  {
    hide DirBytes, RdataRva;
    ghost var s := EmitDir(out, 0x110, imp, hasImports, pre);
    ghost var t := EmitDir(out, 0x120, exc, hasExc, s);
    Extend(t, out.Length - 0x128, 96);
    assert pre + Dirs(p) == t + Zeros(96);
  }

  /** The fixed headers, the section headers so far, and the raw data so far. */
  ghost function Emitted(fixed: seq<Byte>, hdrs: seq<Byte>, hn: nat, body: seq<Byte>, bn: nat): seq<Byte>
    requires |hdrs| <= hn && |body| <= bn
  {
    fixed + Pad(hdrs, hn) + Pad(body, bn)
  }

  lemma PutHdr(fixed: seq<Byte>, hdrs: seq<Byte>, hn: nat, body: seq<Byte>, bn: nat, gap: nat, t: seq<Byte>)
    requires |hdrs| + gap + |t| <= hn && |body| <= bn
    ensures |fixed| + |hdrs| + gap + |t| <= |Emitted(fixed, hdrs, hn, body, bn)|
    ensures SpliceAt(Emitted(fixed, hdrs, hn, body, bn), |fixed| + |hdrs| + gap, t) == Emitted(fixed, hdrs + Zeros(gap) + t, hn, body, bn)
  {
    hide SpliceAt, Pad;
    PadGap(hdrs, hn, gap);
    SplicePad(hdrs + Zeros(gap), hn, t);
    SpliceIn(fixed, Pad(hdrs, hn), Pad(body, bn), |hdrs| + gap, t);
  }

  lemma PutBody(fixed: seq<Byte>, hdrs: seq<Byte>, hn: nat, body: seq<Byte>, bn: nat, t: seq<Byte>)
    requires |hdrs| <= hn && |body| + |t| <= bn
    ensures |fixed| + hn + |body| + |t| <= |Emitted(fixed, hdrs, hn, body, bn)|
    ensures SpliceAt(Emitted(fixed, hdrs, hn, body, bn), |fixed| + hn + |body|, t) == Emitted(fixed, hdrs, hn, body + t, bn)
  {
    hide SpliceAt, Pad;
    SplicePad(body, bn, t);
    SpliceIn(fixed + Pad(hdrs, hn), Pad(body, bn), [], |body|, t);
    assert fixed + Pad(hdrs, hn) + Pad(body, bn) + [] == fixed + Pad(hdrs, hn) + Pad(body, bn);
    assert fixed + Pad(hdrs, hn) + Pad(body + t, bn) + [] == fixed + Pad(hdrs, hn) + Pad(body + t, bn);
  }

  method HdrField(out: array<Byte>, ghost fixed: seq<Byte>, ghost hdrs: seq<Byte>, ghost hn: nat, ghost body: seq<Byte>, ghost bn: nat,
                  o: nat, t: seq<Byte>) returns (ghost hdrs': seq<Byte>)
    requires |fixed| + |hdrs| <= o && o + |t| <= |fixed| + hn && |body| <= bn && out[..] == Emitted(fixed, hdrs, hn, body, bn)
    modifies out
    ensures hdrs' == hdrs + Zeros(o - |fixed| - |hdrs|) + t && |hdrs'| == o + |t| - |fixed|
    ensures out[..] == Emitted(fixed, hdrs', hn, body, bn)
  {
    hide SpliceAt, Emitted;
    PutHdr(fixed, hdrs, hn, body, bn, o - |fixed| - |hdrs|, t);
    PutBytes(out, o, t);
    hdrs' := hdrs + Zeros(o - |fixed| - |hdrs|) + t;
  }

  /** writeSection. */
  method WriteSection(out: array<Byte>, ghost fixed: seq<Byte>, ghost hdrs: seq<Byte>, ghost hn: nat, ghost body: seq<Byte>, ghost bn: nat,
                      so: nat, s: Section, vsize: nat, rva: nat, rsize: nat, raw: nat) returns (ghost hdrs': seq<Byte>)
    requires so == |fixed| + |hdrs| && |hdrs| + 40 <= hn && |body| <= bn && out[..] == Emitted(fixed, hdrs, hn, body, bn)
    requires vsize == |s.data| && rsize == RSize(s)
    modifies out
    ensures hdrs' == hdrs + SectHdr(s, rva, raw) && out[..] == Emitted(fixed, hdrs', hn, body, bn)
  {
    hide Emitted, ToLE, RSize;
    hdrs' := HdrField(out, fixed, hdrs, hn, body, bn, so, Cut8(s.name));
    assert hdrs' == hdrs + Cut8(s.name);
    hdrs' := HdrField(out, fixed, hdrs', hn, body, bn, so + 8, ToLE(vsize, 4));
    assert hdrs' == hdrs + (Pad(Cut8(s.name), 8) + ToLE(vsize, 4));
    hdrs' := HdrField(out, fixed, hdrs', hn, body, bn, so + 12, ToLE(rva, 4));
    hdrs' := HdrField(out, fixed, hdrs', hn, body, bn, so + 16, ToLE(rsize, 4));
    assert hdrs' == hdrs + (Pad(Cut8(s.name), 8) + ToLE(vsize, 4) + ToLE(rva, 4) + ToLE(rsize, 4));
    hdrs' := HdrField(out, fixed, hdrs', hn, body, bn, so + 20, ToLE(raw, 4));
    hdrs' := HdrField(out, fixed, hdrs', hn, body, bn, so + 36, ToLE(s.chars, 4));
    assert hdrs' == hdrs + SectHdr(s, rva, raw);
  }

  /** out.set(data, rawPtr): the rest of the raw size is zero already. */
  method SetData(out: array<Byte>, ghost fixed: seq<Byte>, ghost hdrs: seq<Byte>, ghost hn: nat, ghost body: seq<Byte>, ghost bn: nat,
                 raw: nat, s: Section) returns (ghost body': seq<Byte>)
    requires raw == |fixed| + hn + |body| && |hdrs| <= hn && |body| + RSize(s) <= bn && out[..] == Emitted(fixed, hdrs, hn, body, bn)
    modifies out
    ensures body' == body + RawData(s) && out[..] == Emitted(fixed, hdrs, hn, body', bn)
  {
    hide SpliceAt, RSize;
    SpanFacts(s);
    PutBody(fixed, hdrs, hn, body, bn, s.data);
    PutBytes(out, raw, s.data);
    PadGap(body + s.data, bn, RSize(s) - |s.data|);
    body' := body + s.data + Zeros(RSize(s) - |s.data|);
    assert body' == body + RawData(s);
  }

  lemma SectionIs(p: Plan, k: nat)
    requires k < |p.sections|
    ensures Full(p)[k] == p.sections[k]
    ensures Rva(p, k) == RvaOf(FirstRva(Count(p)), p.sections, k)
  {
    hide Blob, VSpan;
    RvaPrefix(FirstRva(Count(p)), p.sections, Full(p), k);
  }

  lemma BlobSpan(p: Plan)
    requires p.imports != []
    ensures |Full(p)[|p.sections|].data| == BlobSize(p.imports) > 1
    ensures ImageSize(p) == RdataRva(p) + CeilTo(BlobSize(p.imports), PAGE_SIZE)
  {
    hide Blob, TableOff, NameOff, StrsOff, CeilTo;
    RdataPlace(p);
    BlobLen(p.imports, RdataRva(p));
  }

  lemma NoBlobSpan(p: Plan)
    requires p.imports == []
    ensures ImageSize(p) == RdataRva(p)
  {
    assert Full(p) == p.sections;
  }

  /** Phase 1: where every section goes in memory. */
  method PlaceInMemory(p: Plan) returns (rvas: seq<nat>, rdataRva: nat, imageSize: nat)
    ensures |rvas| == |p.sections| && forall k: nat | k < |rvas| :: rvas[k] == Rva(p, k)
    ensures rdataRva == RdataRva(p) && imageSize == ImageSize(p)
  {
    hide Blob, VSpan, Full, Rva;
    var headersSize := SECTIONS_OFF + Count(p) * 40;
    var rva := (headersSize + PAGE_SIZE - 1) / PAGE_SIZE * PAGE_SIZE;
    rvas := [];
    for i := 0 to |p.sections|
      invariant rva == RvaOf(FirstRva(Count(p)), p.sections, i)
      invariant |rvas| == i && forall k: nat | k < i :: rvas[k] == Rva(p, k)
    {
      SectionIs(p, i);
      rvas := rvas + [rva];
      rva := rva + VSpan(p.sections[i]);
    }
    rdataRva := rva;
    if p.imports != [] {
      var size := ImpBlobSize(p.imports);
      BlobSpan(p);
      rva := rva + CeilTo(size, PAGE_SIZE);
    } else {
      NoBlobSpan(p);
    }
    imageSize := rva;
  }

  lemma RawIs(p: Plan, k: nat)
    requires k < |p.sections|
    ensures Raw(p, k + 1) == Raw(p, k) + RSize(p.sections[k])
  {
    hide Blob, RSize;
  }

  lemma RawBlob(p: Plan)
    requires p.imports != []
    ensures FileSize(p) == Raw(p, |p.sections|) + RSize(Full(p)[|p.sections|])
  {
    hide Blob, RSize;
  }

  /** File offsets and sizes. */
  method PlaceInFile(p: Plan) returns (raws: seq<nat>, sizes: seq<nat>, blobRaw: nat)
    ensures |raws| == |sizes| == |p.sections| && blobRaw == Raw(p, |p.sections|)
    ensures forall k: nat | k < |raws| :: raws[k] == Raw(p, k) && sizes[k] == RSize(p.sections[k])
  {
    hide Full, Raw, RSize;
    var fileOff := SECTIONS_OFF + Count(p) * 40;
    RawNone(p);
    raws, sizes := [], [];
    for i := 0 to |p.sections|
      invariant fileOff == Raw(p, i)
      invariant |raws| == |sizes| == i && forall k: nat | k < i :: raws[k] == Raw(p, k) && sizes[k] == RSize(p.sections[k])
    {
      RawIs(p, i);
      var rsize := RSize(p.sections[i]);
      raws, sizes := raws + [fileOff], sizes + [rsize];
      fileOff := fileOff + rsize;
    }
    blobRaw := fileOff;
  }

  lemma RawNone(p: Plan)
    ensures Raw(p, 0) == HeadersSize(Count(p))
  {
    hide Full;
  }

  /** What is emitted once the first k sections are. */
  ghost function Upto(p: Plan, entry: nat, k: nat): seq<Byte>
    requires k <= Count(p)
  {
    HdrsLen(p, k);
    HdrsLen(p, Count(p));
    BodyLen(p, k);
    BodyLen(p, Count(p));
    FileSpan(p, k);
    Emitted(Fixed(p, entry), Flat(HdrParts(p)[..k]), 40 * Count(p), Flat(BodyParts(p)[..k]), FileSize(p) - HeadersSize(Count(p)))
  }

  lemma FileSpan(p: Plan, k: nat)
    requires k <= Count(p)
    ensures HeadersSize(Count(p)) <= Raw(p, k) <= FileSize(p)
  {
    hide Full, Count, RSize, VSpan;
    if k < Count(p) { RvaSteps(p, k, Count(p)); }
    if k > 0 { RvaSteps(p, 0, k); }
  }

  lemma UptoStart(p: Plan, entry: nat)
    ensures |Fixed(p, entry)| == SECTIONS_OFF
    ensures Upto(p, entry, 0) == Fixed(p, entry) + Zeros(FileSize(p) - SECTIONS_OFF)
  {
    hide Fixed, HdrParts, BodyParts, FileSize, Count, Emitted;
    FixedLen(p, entry);
    FileSpan(p, 0);
    HdrsLen(p, 0);
    BodyLen(p, 0);
    NoParts(HdrParts(p));
    NoParts(BodyParts(p));
    NoneEmitted(Fixed(p, entry), 40 * Count(p), FileSize(p) - HeadersSize(Count(p)));
  }

  lemma NoneEmitted(fixed: seq<Byte>, hn: nat, bn: nat)
    ensures Emitted(fixed, [], hn, [], bn) == fixed + Zeros(hn + bn)
  {
    assert [] + Zeros(hn) == Zeros(hn) && [] + Zeros(bn) == Zeros(bn);
    assert Zeros(hn) + Zeros(bn) == Zeros(hn + bn);
  }

  lemma UptoEnd(p: Plan, entry: nat)
    ensures Upto(p, entry, Count(p)) == Image(p, entry)
  {
    hide Fixed, HdrParts, BodyParts, FileSize, Count;
    HdrsLen(p, Count(p));
    BodyLen(p, Count(p));
    AllParts(HdrParts(p));
    AllParts(BodyParts(p));
    FileIs(p);
  }

  lemma FileIs(p: Plan)
    ensures FileSize(p) == Raw(p, Count(p))
  {
    hide Raw, Count;
  }

  /** One section's header and data. */
  method EmitSection(out: array<Byte>, ghost p: Plan, ghost entry: nat, k: nat, s: Section, vsize: nat, rva: nat, rsize: nat, raw: nat)
    requires k < Count(p) && s == Full(p)[k] && vsize == |s.data| && rva == Rva(p, k) && rsize == RSize(s) && raw == Raw(p, k)
    requires out[..] == Upto(p, entry, k)
    modifies out
    ensures out[..] == Upto(p, entry, k + 1)
  {
    hide Emitted, Fixed, Full, HdrParts, BodyParts, Flat, RawData, SectHdr, RSize, Raw, Rva, Count, FileSize;
    HdrsLen(p, k);
    BodyLen(p, k);
    FixedLen(p, entry);
    FileSpan(p, k);
    FileSpan(p, k + 1);
    SectionStep(p, k);
    ghost var n := FileSize(p) - HeadersSize(Count(p));
    ghost var hdrs := WriteSection(out, Fixed(p, entry), Flat(HdrParts(p)[..k]), 40 * Count(p), Flat(BodyParts(p)[..k]), n,
                                   SECTIONS_OFF + k * 40, s, vsize, rva, rsize, raw);
    HdrsLen(p, Count(p));
    ghost var body := SetData(out, Fixed(p, entry), hdrs, 40 * Count(p), Flat(BodyParts(p)[..k]), n, raw, s);
  }

  lemma SectionStep(p: Plan, k: nat)
    requires k < Count(p)
    ensures |HdrParts(p)| == |BodyParts(p)| == Count(p)
    ensures Flat(HdrParts(p)[..k + 1]) == Flat(HdrParts(p)[..k]) + SectHdr(Full(p)[k], Rva(p, k), Raw(p, k))
    ensures Flat(BodyParts(p)[..k + 1]) == Flat(BodyParts(p)[..k]) + RawData(Full(p)[k])
    ensures Raw(p, k + 1) == Raw(p, k) + RSize(Full(p)[k])
  {
    hide SectHdr, RawData, Full, Count, Rva, RSize;
    FlatStep(HdrParts(p), k);
    FlatStep(BodyParts(p), k);
  }

  class PeBuilder {
    var sections: seq<Section>
    var imports: seq<Import>
    var imageBase: nat
    var exceptionDir: Option<Dir>

    function Given(): Plan
      reads this
    {
      Plan(sections, imports, imageBase, exceptionDir)
    }

    constructor ()
      ensures Given() == Plan([], [], 0x1_4000_0000, None)
    {
      sections, imports, imageBase, exceptionDir := [], [], 0x1_4000_0000, None;
    }

    method AddSection(name: seq<Byte>, data: seq<Byte>, chars: nat)
      modifies this`sections
      ensures sections == old(sections) + [Section(name, data, chars)]
    {
      sections := sections + [Section(name, data, chars)];
    }

    method AddImports(more: seq<Import>)
      modifies this`imports
      ensures imports == old(imports) + more
    {
      imports := imports + more;
    }

    /** Two phases: exact layout, then every byte with its final RVA. */
    method Build(entry: nat) returns (image: array<Byte>, imageSize: nat, rdataRva: nat)
      ensures fresh(image) && image[..] == Image(Given(), entry)
      ensures imageSize == ImageSize(Given()) && rdataRva == RdataRva(Given())
    {
      hide Image, Fixed, Upto, ImageSize, RdataRva, FileSize, Full, Raw, Rva, RSize, Blob, Flat;
      var p := Plan(sections, imports, imageBase, exceptionDir);
      var rvas: seq<nat>, raws: seq<nat>, sizes: seq<nat>, blobRaw: nat;
      rvas, rdataRva, imageSize := PlaceInMemory(p);
      raws, sizes, blobRaw := PlaceInFile(p);
      var blob: seq<Byte> := [];
      var fileSize := blobRaw;
      if imports != [] {
        var buf := ImportBlobWriter.WriteImpBlob(imports, rdataRva);
        blob := buf[..];
        RawBlob(p);
        BlobSection(p);
        fileSize := blobRaw + RSize(Section(RDATA, blob, 0xc0000040));
      } else {
        NoBlob(p);
      }
      image := NewBuffer(fileSize);
      EmitHeaders(image, p, entry, imageSize, rdataRva);
      for i := 0 to |sections|
        invariant image[..] == Upto(p, entry, i)
      {
        SectionIs(p, i);
        EmitSection(image, p, entry, i, sections[i], |sections[i].data|, rvas[i], sizes[i], raws[i]);
      }
      if imports != [] {
        RdataPlace(p);
        var s := Section(RDATA, blob, 0xc0000040);
        EmitSection(image, p, entry, |sections|, s, |blob|, rdataRva, RSize(s), blobRaw);
      }
      UptoEnd(p, entry);
    }
  }

  lemma BlobSection(p: Plan)
    requires p.imports != []
    ensures Full(p)[|p.sections|] == Section(RDATA, Blob(p.imports, RdataRva(p)), 0xc0000040)
  {
    hide Blob, RdataRva;
  }

  lemma NoBlob(p: Plan)
    requires p.imports == []
    ensures FileSize(p) == Raw(p, |p.sections|)
  {
    hide Raw;
  }

  method EmitHeaders(out: array<Byte>, p: Plan, entry: nat, imageSize: nat, rdataRva: nat)
    requires imageSize == ImageSize(p) && rdataRva == RdataRva(p)
    requires out.Length == FileSize(p) && out[..] == Zeros(out.Length)
    modifies out
    ensures out[..] == Upto(p, entry, 0)
  {
    hide Dos, Coff, OptAddresses, OptSizes, Dirs, ImageSize, RdataRva, FileSize, Count, Upto, Fixed;
    FileSpan(p, 0);
    FixedLen(p, entry);
    UptoStart(p, entry);
    FixedIs(p, entry);
    EmitDos(out);
    var n := Count(p);
    EmitCoff(out, n);
    ghost var a := Dos() + Coff(n);
    EmitAddresses(out, p, entry, a);
    ghost var b := a + OptAddresses(p, entry);
    EmitSizes(out, p, imageSize, SECTIONS_OFF + n * 40, b);
    ghost var c := b + OptSizes(p);
    var imp := if p.imports == [] then Dir(0, 0) else Dir(rdataRva, (|p.imports| + 1) * 20);
    var exc := ExceptionDir(p);
    EmitDirs(out, p, imp, p.imports != [], exc, p.exceptionDir.Some?, c);
  }

  lemma FixedIs(p: Plan, entry: nat)
    ensures Dos() + Coff(Count(p)) + OptAddresses(p, entry) + OptSizes(p) + Dirs(p) == Fixed(p, entry)
  {
    hide Dos, Coff, OptAddresses, OptSizes, Dirs, Count;
    var d, c, a, z := Dos(), Coff(Count(p)), OptAddresses(p, entry), OptSizes(p);
    assert d + c + a + z == d + c + (a + z);
  }
}
