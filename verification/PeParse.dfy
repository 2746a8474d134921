/** Parsing a PE32+ file, and reading back a built one. */
module PeParse {
  import opened Bytes
  import opened Buffers
  import opened ImportBlob
  import opened Wrappers
  import opened PeImage

  datatype SectionHeader = SectionHeader(name: seq<Byte>, virtualSize: nat, rva: nat, rawSize: nat, rawPtr: nat, chars: nat)

  datatype Pe = Pe(entryRva: nat, imageBase: nat, sizeOfImage: nat, sizeOfHeaders: nat,
                   sections: seq<SectionHeader>, dirs: seq<Dir>, machine: nat, subsystem: nat)

  datatype Problem = NotMz | NoSignature | UnsupportedMachine(machine: nat) | NotPe32Plus

  datatype Parsed = Ok(pe: Pe) | Err(problem: Problem)

  /** No line terminator, over which the source's pattern does not reach. */
  predicate OneLine(s: seq<Byte>) { forall i | 0 <= i < |s| :: s[i] != 10 && s[i] != 13 }

  /** The section-name pattern: cut at the first zero that only one line follows. */
  function Trim(s: seq<Byte>, k: nat): seq<Byte>
    requires k <= |s|
    decreases |s| - k
  {
    if k == |s| then s
    else if s[k] == 0 && OneLine(s[k + 1..]) then s[..k]
    else Trim(s, k + 1)
  }

  /** subarray: both bounds clamped to the buffer. */
  function Sub(b: seq<Byte>, lo: nat, hi: nat): seq<Byte> {
    var l := if lo < |b| then lo else |b|;
    var h := if hi < |b| then hi else |b|;
    if l <= h then b[l..h] else []
  }

  function SectionAt(b: seq<Byte>, s: nat): SectionHeader {
    SectionHeader(Trim(Sub(b, s, s + 8), 0), U32At(b, s + 8), U32At(b, s + 12), U32At(b, s + 16), U32At(b, s + 20), U32At(b, s + 36))
  }

  function DirAt(b: seq<Byte>, o: nat): Dir { Dir(U32At(b, o), U32At(b, o + 4)) }

  function DirList(b: seq<Byte>, o: nat, n: nat): seq<Dir> { seq(n, i requires 0 <= i < n => DirAt(b, o + 8 * i)) }

  function SectionList(b: seq<Byte>, o: nat, n: nat): seq<SectionHeader> {
    seq(n, i requires 0 <= i < n => SectionAt(b, o + 40 * i))
  }

  function PeAt(b: seq<Byte>, coff: nat): Pe {
    var opt := coff + 20;
    Pe(U32At(b, opt + 16), U32At(b, opt + 24) + U32At(b, opt + 28) * TWO_32, U32At(b, opt + 56), U32At(b, opt + 60),
       SectionList(b, opt + U16At(b, coff + 16), U16At(b, coff + 2)), DirList(b, opt + 112, U32At(b, opt + 108)),
       U16At(b, coff), U16At(b, opt + 68))
  }

  /** parsePe. */
  function Parse(b: seq<Byte>): Parsed {
    var lfanew := U32At(b, 0x3c);
    var coff := lfanew + 4;
    if U16At(b, 0) != 0x5a4d then Err(NotMz)
    else if U32At(b, lfanew) != 0x4550 then Err(NoSignature)
    else if U16At(b, coff) != 0x8664 then Err(UnsupportedMachine(U16At(b, coff)))
    else if U16At(b, coff + 20) != 0x20b then Err(NotPe32Plus)
    else Ok(PeAt(b, coff))
  }

  method ReadDirs(b: seq<Byte>, numDirsOff: nat) returns (dirs: seq<Dir>)
    ensures dirs == DirList(b, numDirsOff + 4, U32At(b, numDirsOff))
  {
    hide U32At;
    dirs := [];
    var n := U32At(b, numDirsOff);
    for i := 0 to n
      invariant dirs == DirList(b, numDirsOff + 4, i)
    {
      var dOff := numDirsOff + 4 + i * 8;
      dirs := dirs + [Dir(U32At(b, dOff), U32At(b, dOff + 4))];
    }
  }

  method ReadSections(b: seq<Byte>, sectionsOff: nat, n: nat) returns (sections: seq<SectionHeader>)
    ensures sections == SectionList(b, sectionsOff, n)
  {
    hide U32At, Trim, Sub;
    sections := [];
    for i := 0 to n
      invariant sections == SectionList(b, sectionsOff, i)
    {
      var s := sectionsOff + i * 40;
      var name := Trim(Sub(b, s, s + 8), 0);
      sections := sections + [SectionHeader(name, U32At(b, s + 8), U32At(b, s + 12), U32At(b, s + 16), U32At(b, s + 20), U32At(b, s + 36))];
    }
  }

  method ParsePe(b: seq<Byte>) returns (r: Parsed)
    ensures r == Parse(b)
  {
    hide U32At, U16At, DirList, SectionList;
    if U16At(b, 0) != 0x5a4d { return Err(NotMz); }
    var lfanew := U32At(b, 0x3c);
    if U32At(b, lfanew) != 0x4550 { return Err(NoSignature); }
    var coff := lfanew + 4;
    var machine := U16At(b, coff);
    if machine != 0x8664 { return Err(UnsupportedMachine(machine)); }
    var numSections := U16At(b, coff + 2);
    var opt := coff + 20;
    if U16At(b, opt) != 0x20b { return Err(NotPe32Plus); }
    var dirs := ReadDirs(b, opt + 108);
    var sections := ReadSections(b, opt + U16At(b, coff + 16), numSections);
    r := Ok(Pe(U32At(b, opt + 16), U32At(b, opt + 24) + U32At(b, opt + 28) * TWO_32, U32At(b, opt + 56), U32At(b, opt + 60),
               sections, dirs, machine, U16At(b, opt + 68)));
  }

  // ------------------------------------------------------------- built images

  /** The PE field widths: what a plan must stay within for its numbers to be representable.
      An import's hint RVA also needs bit 31 clear, hence the bound on the image. */
  ghost predicate Representable(p: Plan, entry: nat) {
    && Count(p) < 0x1_0000 && ImageSize(p) <= 0x8000_0000 && entry < TWO_32 && p.imageBase < TWO_64
    && (forall k | 0 <= k < |p.sections| :: p.sections[k].chars < TWO_32 && NoZero(p.sections[k].name))
    && (p.exceptionDir.Some? ==> p.exceptionDir.value.rva < TWO_32 && p.exceptionDir.value.size < TWO_32)
  }

  /** What parsing a built image should find. */
  function HeaderOf(p: Plan, k: nat): SectionHeader
    requires k < Count(p)
  {
    var s := Full(p)[k];
    SectionHeader(Cut8(s.name), |s.data|, Rva(p, k), RSize(s), Raw(p, k), s.chars)
  }

  function Layout(p: Plan, entry: nat): Pe {
    Pe(entry, p.imageBase, ImageSize(p), HeadersSize(Count(p)),
       seq(Count(p), k requires 0 <= k < Count(p) => HeaderOf(p, k)),
       seq(16, i requires 0 <= i < 16 => if i == 1 then ImportDir(p) else if i == 3 then ExceptionDir(p) else Dir(0, 0)),
       0x8664, 0)
  }

  lemma ImageRegions(p: Plan, entry: nat)
    ensures var b := Image(p, entry);
      && Holds(b, 0, Dos()) && Holds(b, 0x84, Coff(Count(p))) && Holds(b, 0x98, OptAddresses(p, entry))
      && Holds(b, 0xc0, OptSizes(p)) && Holds(b, 0x108, Dirs(p))
      && Holds(b, SECTIONS_OFF, Flat(HdrParts(p))) && Holds(b, HeadersSize(Count(p)), Flat(BodyParts(p)))
  {
    hide Dos, Coff, OptAddresses, OptSizes, Dirs, HdrParts, BodyParts, Flat, Count;
    FixedLen(p, entry);
    HdrsLen(p, Count(p));
    AllParts(HdrParts(p));
    FixedParts(Dos(), Coff(Count(p)), OptAddresses(p, entry), OptSizes(p), Dirs(p), Flat(HdrParts(p)), Flat(BodyParts(p)));
  }

  lemma FixedParts(a: seq<Byte>, b: seq<Byte>, c: seq<Byte>, d: seq<Byte>, e: seq<Byte>, f: seq<Byte>, g: seq<Byte>)
    ensures var all := (a + b + (c + d) + e) + f + g;
      && Holds(all, 0, a) && Holds(all, |a|, b) && Holds(all, |a| + |b|, c) && Holds(all, |a| + |b| + |c|, d)
      && Holds(all, |a| + |b| + |c| + |d|, e) && Holds(all, |a| + |b| + |c| + |d| + |e|, f)
      && Holds(all, |a| + |b| + |c| + |d| + |e| + |f|, g)
  {
    hide Holds;
    var p2 := a + b;
    var p4 := p2 + (c + d);
    var p5 := p4 + e;
    var p6 := p5 + f;
    HoldsLast(a, b);
    HoldsLast(c, d);
    HoldsLast(p2, c + d);
    HoldsLast(p4, e);
    HoldsLast(p5, f);
    HoldsLast(p6, g);
    HoldsMore(p2, c + d, 0, a);
    HoldsMore(p2, c + d, |a|, b);
    HoldsIn(p4, |p2|, c + d, 0, c);
    HoldsIn(p4, |p2|, c + d, |c|, d);
    Grow(p4, e, f, g, 0, a);
    Grow(p4, e, f, g, |a|, b);
    Grow(p4, e, f, g, |p2|, c);
    Grow(p4, e, f, g, |p2| + |c|, d);
    HoldsMore(p5, f, |p4|, e);
    HoldsMore(p6, g, |p4|, e);
    HoldsMore(p6, g, |p5|, f);
  }

  lemma Grow(p: seq<Byte>, e: seq<Byte>, f: seq<Byte>, g: seq<Byte>, o: nat, bs: seq<Byte>)
    requires Holds(p, o, bs)
    ensures Holds(p + e + f + g, o, bs)
  {
    hide Holds;
    HoldsMore(p, e, o, bs);
    HoldsMore(p + e, f, o, bs);
    HoldsMore(p + e + f, g, o, bs);
  }

  lemma DosReads(b: seq<Byte>)
    requires Holds(b, 0, Dos())
    ensures U16At(b, 0) == 0x5a4d && U32At(b, 0x3c) == 0x80 && U32At(b, 0x80) == 0x4550
  {
    hide U16At, U32At, Holds;
    DosParts();
    HoldsIn(b, 0, Dos(), 0, ToLE(0x5a4d, 2));
    HoldsIn(b, 0, Dos(), 0x3c, ToLE(0x80, 4));
    HoldsIn(b, 0, Dos(), 0x80, ToLE(0x4550, 4));
    HoldsU16(b, 0, 0x5a4d);
    HoldsU32(b, 0x3c, 0x80);
    HoldsU32(b, 0x80, 0x4550);
  }

  lemma DosParts()
    ensures Holds(Dos(), 0, ToLE(0x5a4d, 2)) && Holds(Dos(), 0x3c, ToLE(0x80, 4)) && Holds(Dos(), 0x80, ToLE(0x4550, 4))
  {
    hide ToLE;
  }

  lemma CoffReads(b: seq<Byte>, n: nat)
    requires Holds(b, 0x84, Coff(n)) && n < 0x1_0000
    ensures U16At(b, 0x84) == 0x8664 && U16At(b, 0x86) == n && U16At(b, 0x94) == 240
  {
    hide U16At, Holds;
    CoffParts(n);
    HoldsIn(b, 0x84, Coff(n), 0, ToLE(0x8664, 2));
    HoldsIn(b, 0x84, Coff(n), 2, ToLE(n, 2));
    HoldsIn(b, 0x84, Coff(n), 16, ToLE(240, 2));
    HoldsU16(b, 0x84, 0x8664);
    HoldsU16(b, 0x86, n);
    HoldsU16(b, 0x94, 240);
  }

  lemma CoffParts(n: nat)
    ensures Holds(Coff(n), 0, ToLE(0x8664, 2)) && Holds(Coff(n), 2, ToLE(n, 2)) && Holds(Coff(n), 16, ToLE(240, 2))
  {
    hide ToLE;
  }

  lemma AddressReads(b: seq<Byte>, p: Plan, entry: nat)
    requires Holds(b, 0x98, OptAddresses(p, entry)) && entry < TWO_32 && p.imageBase < TWO_64
    ensures U16At(b, 0x98) == 0x20b && U32At(b, 0xa8) == entry
    ensures U32At(b, 0xb0) + U32At(b, 0xb4) * TWO_32 == p.imageBase
  {
    hide *;
    AddressParts(p, entry);
    HoldsIn(b, 0x98, OptAddresses(p, entry), 0, ToLE(0x20b, 2));
    HoldsIn(b, 0x98, OptAddresses(p, entry), 16, ToLE(entry, 4));
    HoldsIn(b, 0x98, OptAddresses(p, entry), 24, ToLE(p.imageBase, 8));
    HoldsU16(b, 0x98, 0x20b);
    HoldsU32(b, 0xa8, entry);
    BaseReads(b, 0xb0, p.imageBase);
  }

  lemma BaseReads(b: seq<Byte>, o: nat, v: nat)
    requires Holds(b, o, ToLE(v, 8)) && v < TWO_64
    ensures U32At(b, o) + U32At(b, o + 4) * TWO_32 == v
  {
    hide ToLE, U32At, Holds;
    WordHalves(v);
    HoldsIn(b, o, ToLE(v, 8), 0, ToLE(v % TWO_32, 4));
    HoldsIn(b, o, ToLE(v, 8), 4, ToLE(v / TWO_32, 4));
    HoldsU32(b, o, v % TWO_32);
    HoldsU32(b, o + 4, v / TWO_32);
  }

  lemma AddressParts(p: Plan, entry: nat)
    ensures Holds(OptAddresses(p, entry), 0, ToLE(0x20b, 2)) && Holds(OptAddresses(p, entry), 16, ToLE(entry, 4))
    ensures Holds(OptAddresses(p, entry), 24, ToLE(p.imageBase, 8))
  {
    hide ToLE;
  }

  /** An encoding of n + k bytes is one of n and one of k. */
  lemma {:induction false} ToLESplit(v: int, n: nat, k: nat)
    ensures ToLE(v, n + k) == ToLE(v, n) + ToLE(v / Pow256(n), k)
    decreases n
  {
    if n > 0 {
      ToLESplit(v / 256, n - 1, k);
      DivDiv(v, 256, Pow256(n - 1));
    } else {
      assert v / 1 == v;
    }
  }

  lemma {:induction false} ToLEMod(v: int, n: nat)
    ensures ToLE(v % Pow256(n), n) == ToLE(v, n)
    decreases n
  {
    if n > 0 {
      var k := Pow256(n - 1);
      DivModStep(v, k);
      var w := v % (256 * k);
      ModUnique(w, 256, v / 256 % k, v % 256);
      ToLEMod(v / 256, n - 1);
    }
  }

  lemma WordHalves(v: nat)
    requires v < TWO_64
    ensures Holds(ToLE(v, 8), 0, ToLE(v % TWO_32, 4)) && Holds(ToLE(v, 8), 4, ToLE(v / TWO_32, 4))
    ensures v / TWO_32 < TWO_32
  {
    hide ToLE;
    Pow256Values();
    ToLESplit(v, 4, 4);
    ToLEMod(v, 4);
  }

  lemma SizeReads(b: seq<Byte>, p: Plan)
    requires Holds(b, 0xc0, OptSizes(p)) && ImageSize(p) < TWO_32 && HeadersSize(Count(p)) < TWO_32
    ensures U32At(b, 0xd0) == ImageSize(p) && U32At(b, 0xd4) == HeadersSize(Count(p)) && U16At(b, 0xdc) == 0 && U32At(b, 0x104) == 16
  {
    hide U16At, U32At, Holds, ImageSize, HeadersSize, Count;
    SizeParts(p);
    HoldsIn(b, 0xc0, OptSizes(p), 16, ToLE(ImageSize(p), 4));
    HoldsIn(b, 0xc0, OptSizes(p), 20, ToLE(HeadersSize(Count(p)), 4));
    HoldsIn(b, 0xc0, OptSizes(p), 24, Zeros(8));
    HoldsIn(b, 0xc0, OptSizes(p), 68, ToLE(16, 4));
    HoldsU32(b, 0xd0, ImageSize(p));
    HoldsU32(b, 0xd4, HeadersSize(Count(p)));
    HoldsZero(b, 0xd8, 8, 4);
    HoldsU32(b, 0x104, 16);
  }

  lemma SizeParts(p: Plan)
    ensures Holds(OptSizes(p), 16, ToLE(ImageSize(p), 4)) && Holds(OptSizes(p), 20, ToLE(HeadersSize(Count(p)), 4))
    ensures Holds(OptSizes(p), 24, Zeros(8)) && Holds(OptSizes(p), 68, ToLE(16, 4))
  {
    hide ToLE, ImageSize, HeadersSize, Count;
  }

  /** Directory 1 is the imports, directory 3 the exceptions, the other fourteen are empty. */
  lemma DirReads(b: seq<Byte>, p: Plan, i: nat)
    requires Holds(b, 0x108, Dirs(p)) && i < 16
    requires ImportDir(p).rva < TWO_32 && ImportDir(p).size < TWO_32 && ExceptionDir(p).rva < TWO_32 && ExceptionDir(p).size < TWO_32
    ensures DirAt(b, 0x108 + 8 * i) == if i == 1 then ImportDir(p) else if i == 3 then ExceptionDir(p) else Dir(0, 0)
  {
    hide U32At, Holds, ImportDir, ExceptionDir, DirBytes, Dirs;
    DirParts(p);
    if i == 1 {
      HoldsIn(b, 0x108, Dirs(p), 8, DirBytes(ImportDir(p)));
      DirBytesRead(b, 0x110, ImportDir(p));
    } else if i == 3 {
      HoldsIn(b, 0x108, Dirs(p), 24, DirBytes(ExceptionDir(p)));
      DirBytesRead(b, 0x120, ExceptionDir(p));
    } else if i == 0 {
      HoldsIn(b, 0x108, Dirs(p), 0, Zeros(8));
      HoldsZero(b, 0x108, 8, 0);
      HoldsZero(b, 0x108, 8, 4);
    } else if i == 2 {
      HoldsIn(b, 0x108, Dirs(p), 16, Zeros(8));
      HoldsZero(b, 0x118, 8, 0);
      HoldsZero(b, 0x118, 8, 4);
    } else {
      HoldsIn(b, 0x108, Dirs(p), 32, Zeros(96));
      HoldsZero(b, 0x128, 96, 8 * i - 32);
      HoldsZero(b, 0x128, 96, 8 * i - 28);
    }
  }

  lemma DirParts(p: Plan)
    ensures Holds(Dirs(p), 0, Zeros(8)) && Holds(Dirs(p), 8, DirBytes(ImportDir(p))) && Holds(Dirs(p), 16, Zeros(8))
    ensures Holds(Dirs(p), 24, DirBytes(ExceptionDir(p))) && Holds(Dirs(p), 32, Zeros(96))
  {
    hide ImportDir, ExceptionDir, DirBytes;
  }

  lemma DirBytesRead(b: seq<Byte>, o: nat, d: Dir)
    requires Holds(b, o, DirBytes(d)) && d.rva < TWO_32 && d.size < TWO_32
    ensures DirAt(b, o) == d
  {
    hide U32At, ToLE;
    HoldsIn(b, o, DirBytes(d), 0, ToLE(d.rva, 4));
    HoldsIn(b, o, DirBytes(d), 4, ToLE(d.size, 4));
    HoldsU32(b, o, d.rva);
    HoldsU32(b, o + 4, d.size);
  }

  lemma {:induction false} TrimPadded(name: seq<Byte>, n: nat, k: nat)
    requires NoZero(name) && |name| <= n && k <= |name|
    ensures Trim(Pad(name, n), k) == name
    decreases |name| - k
  {
    if k < |name| {
      TrimPadded(name, n, k + 1);
    } else if k < n {
      assert OneLine(Pad(name, n)[k + 1..]);
    }
  }

  lemma SectionReads(b: seq<Byte>, o: nat, s: Section, rva: nat, raw: nat)
    requires Holds(b, o, SectHdr(s, rva, raw)) && NoZero(s.name)
    requires |s.data| < TWO_32 && rva < TWO_32 && RSize(s) < TWO_32 && raw < TWO_32 && s.chars < TWO_32
    ensures SectionAt(b, o) == SectionHeader(Cut8(s.name), |s.data|, rva, RSize(s), raw, s.chars)
  {
    hide U32At, Holds, SectHdr, RSize, Trim;
    SectParts(s, rva, raw);
    var h := SectHdr(s, rva, raw);
    HoldsIn(b, o, h, 0, Pad(Cut8(s.name), 8));
    HoldsIn(b, o, h, 8, ToLE(|s.data|, 4));
    HoldsIn(b, o, h, 12, ToLE(rva, 4));
    HoldsIn(b, o, h, 16, ToLE(RSize(s), 4));
    HoldsIn(b, o, h, 20, ToLE(raw, 4));
    HoldsIn(b, o, h, 36, ToLE(s.chars, 4));
    HoldsU32(b, o + 8, |s.data|);
    HoldsU32(b, o + 12, rva);
    HoldsU32(b, o + 16, RSize(s));
    HoldsU32(b, o + 20, raw);
    HoldsU32(b, o + 36, s.chars);
    SubHolds(b, o, Pad(Cut8(s.name), 8));
    TrimPadded(Cut8(s.name), 8, 0);
  }

  lemma SubHolds(b: seq<Byte>, o: nat, bs: seq<Byte>)
    requires Holds(b, o, bs)
    ensures Sub(b, o, o + |bs|) == bs
  {
  }

  lemma SectParts(s: Section, rva: nat, raw: nat)
    ensures var h := SectHdr(s, rva, raw);
      && Holds(h, 0, Pad(Cut8(s.name), 8)) && Holds(h, 8, ToLE(|s.data|, 4)) && Holds(h, 12, ToLE(rva, 4))
      && Holds(h, 16, ToLE(RSize(s), 4)) && Holds(h, 20, ToLE(raw, 4)) && Holds(h, 36, ToLE(s.chars, 4))
  {
    hide ToLE, RSize, Pad, Cut8;
  }

  lemma SectionFits(p: Plan, entry: nat, k: nat)
    requires Representable(p, entry) && k < Count(p)
    ensures var s := Full(p)[k];
      && |s.data| < TWO_32 && Rva(p, k) < TWO_32 && RSize(s) < TWO_32 && Raw(p, k) < TWO_32 && s.chars < TWO_32 && NoZero(s.name)
  {
    hide RSize, VSpan, Blob, Rva, Raw;
    RvaSteps(p, k, Count(p));
    FileInImage(p, k);
    SpanFacts(Full(p)[k]);
  }

  lemma HeadersFit(p: Plan)
    ensures HeadersSize(Count(p)) <= ImageSize(p)
  {
    hide Count;
    RvaAligned(p, Count(p));
  }

  lemma HdrAt(p: Plan, entry: nat, k: nat)
    requires k < Count(p)
    ensures Holds(Image(p, entry), SECTIONS_OFF + 40 * k, SectHdr(Full(p)[k], Rva(p, k), Raw(p, k)))
  {
    hide *;
    ImageRegions(p, entry);
    HdrsLen(p, k);
    HdrPartAt(p, k);
    FlatHolds(HdrParts(p), k);
    HoldsIn(Image(p, entry), SECTIONS_OFF, Flat(HdrParts(p)), 40 * k, SectHdr(Full(p)[k], Rva(p, k), Raw(p, k)));
  }

  lemma HdrPartAt(p: Plan, k: nat)
    requires k < Count(p)
    ensures |HdrParts(p)| == Count(p) && HdrParts(p)[k] == SectHdr(Full(p)[k], Rva(p, k), Raw(p, k))
    ensures |BodyParts(p)| == Count(p) && BodyParts(p)[k] == RawData(Full(p)[k])
  {
    hide SectHdr, Full, Rva, Raw, RawData, Count;
  }

  /** Each section's data stands at its file offset. */
  lemma BodyAt(p: Plan, entry: nat, k: nat)
    requires k < Count(p)
    ensures Holds(Image(p, entry), Raw(p, k), RawData(Full(p)[k]))
  {
    hide *;
    ImageRegions(p, entry);
    BodyLen(p, k);
    HdrPartAt(p, k);
    FlatHolds(BodyParts(p), k);
    HoldsIn(Image(p, entry), HeadersSize(Count(p)), Flat(BodyParts(p)), |Flat(BodyParts(p)[..k])|, RawData(Full(p)[k]));
  }

  lemma ImportDirFits(p: Plan, entry: nat)
    requires Representable(p, entry)
    ensures ImportDir(p).rva < TWO_32 && ImportDir(p).size < TWO_32
  {
    if p.imports != [] {
      hide Blob, Full, Rva, Raw, RdataRva, TableOff, NameOff, StrsOff;
      RdataPlace(p);
      SectionFits(p, entry, |p.sections|);
      BlobLen(p.imports, RdataRva(p));
    }
  }

  /** Parsing a built image recovers its whole layout: entry point, base, sizes, every section
      header with its name cut to eight bytes, and the sixteen directories. */
  lemma ParseBuilt(p: Plan, entry: nat)
    requires Representable(p, entry)
    ensures Parse(Image(p, entry)) == Ok(Layout(p, entry))
  {
    hide U16At, U32At, Image, Holds, Dos, Coff, OptAddresses, OptSizes, Dirs, ImageSize, HeaderOf, SectionAt, DirAt,
      ImportDir, ExceptionDir,
         Full, HdrParts, BodyParts, Flat, HeadersSize;
    var b := Image(p, entry);
    ImageRegions(p, entry);
    HeadersFit(p);
    DosReads(b);
    CoffReads(b, Count(p));
    AddressReads(b, p, entry);
    SizeReads(b, p);
    ParsedDirs(b, p, entry);
    ParsedSections(p, entry);
  }

  /** The fields of a built image that parsing passes over: characteristics, the two alignments, and the
      stack and heap sizes. */
  lemma OtherFields(p: Plan, entry: nat)
    ensures var b := Image(p, entry);
      && U16At(b, 0x96) == 0x2020 && U32At(b, 0xb8) == 0x1000 && U32At(b, 0xbc) == 0x200
      && U32At(b, 0xe0) == 0x10_0000 && U32At(b, 0xe8) == 0x1000 && U32At(b, 0xf0) == 0x10_0000
      && U32At(b, 0xe4) == U32At(b, 0xec) == U32At(b, 0xf4) == 0
  {
    hide U16At, U32At, Image, Holds, Dos, Coff, OptAddresses, OptSizes, Dirs, HdrParts, BodyParts, Flat, HeadersSize, Count, ToLE;
    var b := Image(p, entry);
    ImageRegions(p, entry);
    OtherParts(p, entry);
    HoldsIn(b, 0x84, Coff(Count(p)), 18, ToLE(0x2020, 2));
    HoldsU16(b, 0x96, 0x2020);
    HoldsIn(b, 0x98, OptAddresses(p, entry), 32, ToLE(0x1000, 4));
    HoldsU32(b, 0xb8, 0x1000);
    HoldsIn(b, 0x98, OptAddresses(p, entry), 36, ToLE(0x200, 4));
    HoldsU32(b, 0xbc, 0x200);
    HoldsIn(b, 0xc0, OptSizes(p), 32, ToLE(0x10_0000, 8));
    LowWord(b, 0xe0, 0x10_0000);
    HoldsIn(b, 0xc0, OptSizes(p), 40, ToLE(0x1000, 8));
    LowWord(b, 0xe8, 0x1000);
    HoldsIn(b, 0xc0, OptSizes(p), 48, ToLE(0x10_0000, 8));
    LowWord(b, 0xf0, 0x10_0000);
  }

  lemma OtherParts(p: Plan, entry: nat)
    ensures Holds(Coff(Count(p)), 18, ToLE(0x2020, 2))
    ensures Holds(OptAddresses(p, entry), 32, ToLE(0x1000, 4)) && Holds(OptAddresses(p, entry), 36, ToLE(0x200, 4))
    ensures Holds(OptSizes(p), 32, ToLE(0x10_0000, 8)) && Holds(OptSizes(p), 40, ToLE(0x1000, 8))
      && Holds(OptSizes(p), 48, ToLE(0x10_0000, 8))
  {
    hide ToLE, ImageSize, HeadersSize, Count;
  }

  lemma LowWord(b: seq<Byte>, o: nat, v: nat)
    requires Holds(b, o, ToLE(v, 8)) && v < TWO_32
    ensures U32At(b, o) == v && U32At(b, o + 4) == 0
  {
    hide U32At, Holds, ToLE;
    WordHalves(v);
    ModUnique(v, TWO_32, 0, v);
    HoldsIn(b, o, ToLE(v, 8), 0, ToLE(v, 4));
    HoldsIn(b, o, ToLE(v, 8), 4, ToLE(0, 4));
    HoldsU32(b, o, v);
    HoldsU32(b, o + 4, 0);
  }

  /** The sixteen directories of a built image: number 1 is the import blob's descriptors, the null one
      included, number 3 the exception table given to the builder, and the others are empty, as are these two
      when there is nothing to put there. */
  ghost predicate DirsAre(p: Plan, pe: Pe) {
    && |pe.dirs| == 16 && (forall i | 0 <= i < 16 && i != 1 && i != 3 :: pe.dirs[i] == Dir(0, 0))
    && (if p.imports == [] then pe.dirs[1] == Dir(0, 0)
        else |pe.sections| == |p.sections| + 1 && pe.dirs[1] == Dir(pe.sections[|p.sections|].rva, 20 * |p.imports| + 20))
    && pe.dirs[3] == (match p.exceptionDir case None => Dir(0, 0) case Some(d) => d)
  }

  lemma LayoutDirsAre(p: Plan, entry: nat)
    ensures DirsAre(p, Layout(p, entry))
  {
    hide Blob, Full, Rva, Raw, RSize, RdataRva, ImageSize, HeadersSize, HeaderOf;
    var l := Layout(p, entry);
    assert forall i | 0 <= i < 16 ::
      l.dirs[i] == if i == 1 then ImportDir(p) else if i == 3 then ExceptionDir(p) else Dir(0, 0);
    assert |l.dirs| == 16;
    if p.imports != [] {
      assert |l.sections| == Count(p) == |p.sections| + 1;
      assert l.sections[|p.sections|] == HeaderOf(p, |p.sections|);
      BlobHeader(p);
    }
    hide Layout;
  }

  lemma BlobHeader(p: Plan)
    requires p.imports != []
    ensures HeaderOf(p, |p.sections|).rva == RdataRva(p)
  {
    hide Blob, RdataRva, Rva;
    RdataPlace(p);
  }

  lemma BuiltDirs(p: Plan, entry: nat)
    requires Representable(p, entry)
    ensures Parse(Image(p, entry)).Ok? && DirsAre(p, Parse(Image(p, entry)).pe)
  {
    hide Image, Parse, Layout, DirsAre, Representable;
    ParseBuilt(p, entry);
    LayoutDirsAre(p, entry);
  }

  lemma ParsedDirs(b: seq<Byte>, p: Plan, entry: nat)
    requires Holds(b, 0x108, Dirs(p)) && Representable(p, entry)
    ensures DirList(b, 0x108, 16) == Layout(p, entry).dirs
  {
    hide Holds, Dirs, ImportDir, Full, DirAt, Count, ImageSize;
    ImportDirFits(p, entry);
    forall i | 0 <= i < 16
      ensures DirList(b, 0x108, 16)[i] == Layout(p, entry).dirs[i]
    {
      DirReads(b, p, i);
    }
  }

  lemma ParsedSections(p: Plan, entry: nat)
    requires Representable(p, entry)
    ensures SectionList(Image(p, entry), SECTIONS_OFF, Count(p)) == Layout(p, entry).sections
  {
    hide Image, SectionAt, Full, Count, Rva, Raw, RSize;
    forall k | 0 <= k < Count(p)
      ensures SectionList(Image(p, entry), SECTIONS_OFF, Count(p))[k] == Layout(p, entry).sections[k]
    {
      HdrAt(p, entry, k);
      SectionFits(p, entry, k);
      SectionReads(Image(p, entry), SECTIONS_OFF + 40 * k, Full(p)[k], Rva(p, k), Raw(p, k));
    }
  }
}
