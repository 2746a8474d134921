/** The layout of a built PE32+ image: where each section goes in the file and in memory, and
    the bytes of the whole file. */
module PeImage {
  import opened Bytes
  import opened Buffers
  import opened ImportBlob
  import opened Wrappers

  const FILE_ALIGN: nat := 512
  const PAGE_SIZE: nat := 4096

  datatype Section = Section(name: seq<Byte>, data: seq<Byte>, chars: nat)
  datatype Dir = Dir(rva: nat, size: nat)

  /** What a builder has been given. */
  datatype Plan = Plan(sections: seq<Section>, imports: seq<Import>, imageBase: nat, exceptionDir: Option<Dir>)

  /** n rounded up to a multiple of k. */
  function CeilTo(n: nat, k: nat): nat
    requires k > 0
  {
    (n + k - 1) / k * k
  }

  function VSpan(s: Section): nat { CeilTo(if |s.data| > 1 then |s.data| else 1, PAGE_SIZE) }

  function RSize(s: Section): nat {
    var r := CeilTo(|s.data|, FILE_ALIGN);
    if r > FILE_ALIGN then r else FILE_ALIGN
  }

  const SECTIONS_OFF: nat := 0x188

  function HeadersSize(n: nat): nat { SECTIONS_OFF + 40 * n }

  function FirstRva(n: nat): nat { CeilTo(HeadersSize(n), PAGE_SIZE) }

  function RvaOf(first: nat, ss: seq<Section>, k: nat): nat
    requires k <= |ss|
  {
    if k == 0 then first else RvaOf(first, ss, k - 1) + VSpan(ss[k - 1])
  }

  function RawOf(first: nat, ss: seq<Section>, k: nat): nat
    requires k <= |ss|
  {
    if k == 0 then first else RawOf(first, ss, k - 1) + RSize(ss[k - 1])
  }

  function Count(p: Plan): nat { |p.sections| + if p.imports == [] then 0 else 1 }

  function RdataRva(p: Plan): nat { RvaOf(FirstRva(Count(p)), p.sections, |p.sections|) }

  const RDATA: seq<Byte> := [0x2e, 0x72, 0x64, 0x61, 0x74, 0x61]

  /** The given sections, and the import blob as one more. */
  function Full(p: Plan): (ss: seq<Section>)
    ensures |ss| == Count(p)
  {
    p.sections + if p.imports == [] then [] else [Section(RDATA, Blob(p.imports, RdataRva(p)), 0xc0000040)]
  }

  function Rva(p: Plan, k: nat): nat
    requires k <= Count(p)
  {
    RvaOf(FirstRva(Count(p)), Full(p), k)
  }

  function Raw(p: Plan, k: nat): nat
    requires k <= Count(p)
  {
    RawOf(HeadersSize(Count(p)), Full(p), k)
  }

  function ImageSize(p: Plan): nat { Rva(p, Count(p)) }

  function FileSize(p: Plan): nat { Raw(p, Count(p)) }

  // ------------------------------------------------------------------ the file

  function Dos(): seq<Byte> {
    ToLE(0x5a4d, 2) + Zeros(0x3a) + ToLE(0x80, 4) + Zeros(0x40) + ToLE(0x4550, 4)
  }

  function Coff(n: nat): seq<Byte> {
    ToLE(0x8664, 2) + ToLE(n, 2) + Zeros(12) + ToLE(240, 2) + ToLE(0x2020, 2)
  }

  function OptAddresses(p: Plan, entry: nat): seq<Byte> {
    ToLE(0x20b, 2) + Zeros(14) + ToLE(entry, 4) + Zeros(4) + ToLE(p.imageBase, 8) + ToLE(PAGE_SIZE, 4) + ToLE(FILE_ALIGN, 4)
  }

  function OptSizes(p: Plan): seq<Byte> {
    Zeros(16) + ToLE(ImageSize(p), 4) + ToLE(HeadersSize(Count(p)), 4) + Zeros(8)
    + ToLE(0x100000, 8) + ToLE(0x1000, 8) + ToLE(0x100000, 8) + Zeros(12) + ToLE(16, 4)
  }

  function ImportDir(p: Plan): Dir { if p.imports == [] then Dir(0, 0) else Dir(RdataRva(p), IdtSize(p.imports)) }

  function ExceptionDir(p: Plan): Dir { if p.exceptionDir.Some? then p.exceptionDir.value else Dir(0, 0) }

  function DirBytes(d: Dir): (s: seq<Byte>)
    ensures |s| == 8
  {
    ToLE(d.rva, 4) + ToLE(d.size, 4)
  }

  function Dirs(p: Plan): seq<Byte> {
    Zeros(8) + DirBytes(ImportDir(p)) + Zeros(8) + DirBytes(ExceptionDir(p)) + Zeros(96)
  }

  function Cut8(name: seq<Byte>): (s: seq<Byte>)
    ensures |s| <= 8
  {
    if |name| <= 8 then name else name[..8]
  }

  function SectHdr(s: Section, rva: nat, raw: nat): (h: seq<Byte>)
    ensures |h| == 40
  {
    Pad(Cut8(s.name), 8) + ToLE(|s.data|, 4) + ToLE(rva, 4) + ToLE(RSize(s), 4) + ToLE(raw, 4) + Zeros(12) + ToLE(s.chars, 4)
  }

  function HdrParts(p: Plan): seq<seq<Byte>> {
    seq(Count(p), k requires 0 <= k < Count(p) => SectHdr(Full(p)[k], Rva(p, k), Raw(p, k)))
  }

  function BodyParts(p: Plan): seq<seq<Byte>> {
    seq(Count(p), k requires 0 <= k < Count(p) => RawData(Full(p)[k]))
  }

  lemma CeilFacts(n: nat, k: nat)
    requires k > 0
    ensures CeilTo(n, k) % k == 0 && n <= CeilTo(n, k) < n + k
  {
    var q, r := (n + k - 1) / k, (n + k - 1) % k;
    assert n + k - 1 == k * q + r;
    assert CeilTo(n, k) == k * q;
    ModUnique(k * q, k, q, 0);
  }

  function RawData(s: Section): (d: seq<Byte>)
    ensures |d| == RSize(s)
  {
    CeilFacts(|s.data|, FILE_ALIGN);
    Pad(s.data, RSize(s))
  }

  function Fixed(p: Plan, entry: nat): seq<Byte> { Dos() + Coff(Count(p)) + (OptAddresses(p, entry) + OptSizes(p)) + Dirs(p) }

  /** The file: headers, section headers, then each section's raw data. */
  function Image(p: Plan, entry: nat): seq<Byte> {
    Fixed(p, entry) + Flat(HdrParts(p)) + Flat(BodyParts(p))
  }

  lemma FixedLen(p: Plan, entry: nat)
    ensures |Dos()| == 0x84 && |Coff(Count(p))| == 20 && |OptAddresses(p, entry)| == 40 && |OptSizes(p)| == 72 && |Dirs(p)| == 128
    ensures |Fixed(p, entry)| == SECTIONS_OFF
  {
    hide ToLE, ImageSize, HeadersSize, Count, ImportDir, ExceptionDir;
  }

  lemma HdrsLen(p: Plan, k: nat)
    requires k <= Count(p)
    ensures |HdrParts(p)| == Count(p) && |Flat(HdrParts(p)[..k])| == 40 * k
  {
    hide SectHdr, Rva, Raw, Full, Count;
    FlatEven(HdrParts(p)[..k], 40);
  }

  lemma {:induction false} BodyLen(p: Plan, k: nat)
    requires k <= Count(p)
    ensures |BodyParts(p)| == Count(p) && HeadersSize(Count(p)) + |Flat(BodyParts(p)[..k])| == Raw(p, k)
    decreases k
  {
    hide Full, RSize, Count;
    if k > 0 {
      BodyLen(p, k - 1);
      FlatStep(BodyParts(p), k - 1);
    }
  }

  lemma ImageLen(p: Plan, entry: nat)
    ensures |Image(p, entry)| == FileSize(p)
  {
    hide Fixed, HdrParts, BodyParts, Flat, Raw, Count;
    FixedLen(p, entry);
    HdrsLen(p, Count(p));
    AllParts(HdrParts(p));
    BodyLen(p, Count(p));
    AllParts(BodyParts(p));
  }

  // ---------------------------------------------------------------- disjointness

  lemma SpanFacts(s: Section)
    ensures |s.data| <= RSize(s) <= VSpan(s) && VSpan(s) % PAGE_SIZE == 0 && VSpan(s) > 0 && RSize(s) % FILE_ALIGN == 0 && RSize(s) > 0
  {
    var n := |s.data|;
    CeilFacts(n, FILE_ALIGN);
    CeilFacts(if n > 1 then n else 1, PAGE_SIZE);
    var c, v := CeilTo(n, FILE_ALIGN), VSpan(s);
    var q := v / PAGE_SIZE;
    assert v == PAGE_SIZE * q == FILE_ALIGN * (8 * q);
    if c > v {
      assert c == FILE_ALIGN * (c / FILE_ALIGN);
      assert FILE_ALIGN * (c / FILE_ALIGN - 8 * q) > 0;
      MulAtLeast(FILE_ALIGN, c / FILE_ALIGN - 8 * q);
      assert false;
    }
    ModUnique(FILE_ALIGN, FILE_ALIGN, 1, 0);
  }

  lemma {:induction false} RvaSteps(p: Plan, i: nat, j: nat)
    requires i < j <= Count(p)
    ensures Rva(p, i) + VSpan(Full(p)[i]) <= Rva(p, j) && Rva(p, i) % PAGE_SIZE == 0
    ensures Raw(p, i) + RSize(Full(p)[i]) <= Raw(p, j)
    decreases j
  {
    hide Full, VSpan, RSize, Count;
    RvaAligned(p, i);
    if i + 1 < j {
      RvaSteps(p, i, j - 1);
    }
  }

  lemma {:induction false} RvaAligned(p: Plan, k: nat)
    requires k <= Count(p)
    ensures Rva(p, k) % PAGE_SIZE == 0 && HeadersSize(Count(p)) <= Rva(p, k)
    decreases k
  {
    hide Full, VSpan, Count;
    if k > 0 {
      RvaAligned(p, k - 1);
      SpanFacts(Full(p)[k - 1]);
      var a, v := Rva(p, k - 1), VSpan(Full(p)[k - 1]);
      ModUnique(a + v, PAGE_SIZE, a / PAGE_SIZE + v / PAGE_SIZE, 0);
    } else {
      CeilFacts(HeadersSize(Count(p)), PAGE_SIZE);
    }
  }

  /** Sections, the import blob among them, have pairwise disjoint ranges in the file and in
      memory, after the headers and inside the file and the image; in memory each begins on a
      page and has room for all its raw data. */
  lemma RangesDisjoint(p: Plan, i: nat, j: nat)
    requires i < j < Count(p)
    ensures Rva(p, i) % PAGE_SIZE == 0 && HeadersSize(Count(p)) <= Rva(p, i)
    ensures Rva(p, i) + RSize(Full(p)[i]) <= Rva(p, i) + VSpan(Full(p)[i]) <= Rva(p, j)
    ensures Rva(p, j) + RSize(Full(p)[j]) <= ImageSize(p)
    ensures HeadersSize(Count(p)) <= Raw(p, i) && Raw(p, i) + RSize(Full(p)[i]) <= Raw(p, j)
    ensures Raw(p, j) + RSize(Full(p)[j]) <= FileSize(p) == |Image(p, 0)|
    ensures |Full(p)[i].data| <= RSize(Full(p)[i])
  {
    hide Full, VSpan, RSize, Count, Image;
    RvaAligned(p, i);
    RvaSteps(p, i, j);
    RvaSteps(p, j, Count(p));
    SpanFacts(Full(p)[i]);
    SpanFacts(Full(p)[j]);
    ImageLen(p, 0);
    if i > 0 { RvaSteps(p, 0, i); }
  }

  /** d is the room for n bytes: the least multiple of k, other than zero, that holds them. */
  predicate RoomIs(d: int, n: nat, k: nat)
    requires k > 0
  {
    d > 0 && d % k == 0 && n <= d && (d == k || d - k < n)
  }

  lemma RoundedRoom(n: nat, k: nat)
    requires k > 0
    ensures RoomIs(if CeilTo(n, k) > k then CeilTo(n, k) else k, n, k)
    ensures n > 0 ==> RoomIs(CeilTo(n, k), n, k)
  {
    CeilFacts(n, k);
    ModUnique(k, k, 1, 0);
    var c := CeilTo(n, k);
    if 0 < c < k { ModUnique(c, k, 0, c); }
  }

  /** Where everything goes: in memory the first section at the first page behind the headers and each next
      one after the least number of pages, one at least, that holds the one before; in the file right
      behind the headers and 512-byte blocks in the same way. The import blob is the last section. */
  lemma PlacesAre(p: Plan, k: nat)
    requires k < Count(p)
    ensures RoomIs(Rva(p, 0), 0x188 + 40 * Count(p), 4096) && Raw(p, 0) == 0x188 + 40 * Count(p)
    ensures RoomIs(Rva(p, k + 1) - Rva(p, k), |Full(p)[k].data|, 4096)
    ensures RoomIs(Raw(p, k + 1) - Raw(p, k), |Full(p)[k].data|, 512)
    ensures Full(p)[k] == if k < |p.sections| then p.sections[k]
      else Section([0x2e, 0x72, 0x64, 0x61, 0x74, 0x61], Blob(p.imports, RdataRva(p)), 0xc000_0040)
  {
    hide Blob, RoomIs, CeilTo, RdataRva;
    RoundedRoom(HeadersSize(Count(p)), 4096);
    var n := |Full(p)[k].data|;
    RoundedRoom(if n > 1 then n else 1, 4096);
    RoundedRoom(n, 512);
    RoundedRoom(1, 4096);
    RoomOne(CeilTo(1, 4096));
  }

  lemma RoomOne(d: int)
    requires RoomIs(d, 1, 4096)
    ensures RoomIs(d, 0, 4096)
  {
  }

  lemma {:induction false} FileInImage(p: Plan, k: nat)
    requires k <= Count(p)
    ensures Raw(p, k) <= Rva(p, k)
    decreases k
  {
    hide Full, VSpan, RSize, Count;
    if k > 0 {
      FileInImage(p, k - 1);
      SpanFacts(Full(p)[k - 1]);
    } else {
      CeilFacts(HeadersSize(Count(p)), PAGE_SIZE);
    }
  }

  lemma {:induction false} RvaPrefix(first: nat, ss: seq<Section>, ts: seq<Section>, k: nat)
    requires k <= |ss| && ss <= ts
    ensures RvaOf(first, ss, k) == RvaOf(first, ts, k)
    decreases k
  {
    if k > 0 { RvaPrefix(first, ss, ts, k - 1); }
  }

  /** The import blob stands at its own RVA. */
  lemma RdataPlace(p: Plan)
    requires p.imports != []
    ensures Rva(p, |p.sections|) == RdataRva(p) && Full(p)[|p.sections|].data == Blob(p.imports, RdataRva(p))
  {
    hide Blob;
    RvaPrefix(FirstRva(Count(p)), p.sections, Full(p), |p.sections|);
  }
}
