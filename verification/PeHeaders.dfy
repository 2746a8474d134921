/** What makes a file a PE32+ file for x64, wherever its headers are. */
module PeHeaders {
  import opened Bytes
  import opened Buffers
  import opened Wrappers
  import opened PeImage
  import opened PeParse

  predicate BytesAre(b: seq<Byte>, o: nat, x: Byte, y: Byte) { ByteAt(b, o) == x && ByteAt(b, o + 1) == y }

  lemma U16Bytes(b: seq<Byte>, o: nat, x: Byte, y: Byte)
    ensures U16At(b, o) == x as nat + 0x100 * y as nat <==> BytesAre(b, o, x, y)
  {
    hide U16At;
    U16Is(b, o);
  }

  lemma U32Bytes(b: seq<Byte>, o: nat, x: Byte, y: Byte)
    ensures U32At(b, o) == x as nat + 0x100 * y as nat <==> BytesAre(b, o, x, y) && BytesAre(b, o + 2, 0, 0)
  {
    hide U32At;
    U32Is(b, o);
  }

  /** Each refusal, in the order of the checks: MZ first, then PE and two zeros where the word at 0x3c leads,
      machine 0x8664 behind it, and magic 0x20b behind the COFF header. */
  lemma ParseIff(b: seq<Byte>)
    ensures var lf := U32At(b, 0x3c); var r := Parse(b);
      var mz, pe := BytesAre(b, 0, 0x4d, 0x5a), BytesAre(b, lf, 0x50, 0x45) && BytesAre(b, lf + 2, 0, 0);
      var x64, plus := BytesAre(b, lf + 4, 0x64, 0x86), BytesAre(b, lf + 24, 0x0b, 0x02);
      && (r == Err(NotMz) <==> !mz)
      && (r == Err(NoSignature) <==> mz && !pe)
      && (r.Err? && r.problem.UnsupportedMachine? <==> mz && pe && !x64)
      && (r.Err? && r.problem.UnsupportedMachine? ==>
            r.problem.machine == ByteAt(b, lf + 4) as nat + 0x100 * ByteAt(b, lf + 5) as nat)
      && (r == Err(NotPe32Plus) <==> mz && pe && x64 && !plus)
      && (r.Ok? <==> mz && pe && x64 && plus)
  {
    hide U16At, U32At, PeAt;
    var lf := U32At(b, 0x3c);
    U16Bytes(b, 0, 0x4d, 0x5a);
    U32Bytes(b, lf, 0x50, 0x45);
    U16Bytes(b, lf + 4, 0x64, 0x86);
    U16Is(b, lf + 4);
    U16Bytes(b, lf + 24, 0x0b, 0x02);
  }

  /** A section header as the file holds it: the name padded with zeros to eight bytes, then the sizes and
      places, twelve bytes that nobody reads, and the characteristics. */
  ghost predicate HeaderAt(b: seq<Byte>, o: nat, s: SectionHeader) {
    && |s.name| <= 8 && NoZero(s.name) && Holds(b, o, s.name + Zeros(8 - |s.name|))
    && WordAt(b, o + 8, s.virtualSize) && WordAt(b, o + 12, s.rva) && WordAt(b, o + 16, s.rawSize)
    && WordAt(b, o + 20, s.rawPtr) && WordAt(b, o + 36, s.chars)
  }

  ghost predicate WordAt(b: seq<Byte>, o: nat, v: nat) { v < 0x1_0000_0000 && Holds(b, o, ToLE(v, 4)) }

  ghost predicate HalfAt(b: seq<Byte>, o: nat, v: nat) { v < 0x1_0000 && Holds(b, o, ToLE(v, 2)) }

  /** The headers of a file at offset lf, with an optional header of the given size. */
  ghost predicate HeadersAt(b: seq<Byte>, lf: nat, optSize: nat, pe: Pe) {
    && CoffAt(b, lf, optSize, |pe.sections|) && OptionalAt(b, lf + 24, pe)
    && (forall i | 0 <= i < |pe.dirs| ::
          WordAt(b, lf + 136 + 8 * i, pe.dirs[i].rva) && WordAt(b, lf + 136 + 8 * i + 4, pe.dirs[i].size))
    && (forall i | 0 <= i < |pe.sections| :: HeaderAt(b, lf + 24 + optSize + 40 * i, pe.sections[i]))
  }

  ghost predicate CoffAt(b: seq<Byte>, lf: nat, optSize: nat, count: nat) {
    && Holds(b, 0, [0x4d, 0x5a]) && WordAt(b, 0x3c, lf) && Holds(b, lf, [0x50, 0x45, 0, 0])
    && HalfAt(b, lf + 4, 0x8664) && HalfAt(b, lf + 6, count) && HalfAt(b, lf + 20, optSize)
  }

  ghost predicate OptionalAt(b: seq<Byte>, opt: nat, pe: Pe) {
    && HalfAt(b, opt, 0x20b) && WordAt(b, opt + 16, pe.entryRva)
    && pe.imageBase < TWO_64 && Holds(b, opt + 24, ToLE(pe.imageBase, 8)) && WordAt(b, opt + 56, pe.sizeOfImage)
    && WordAt(b, opt + 60, pe.sizeOfHeaders) && HalfAt(b, opt + 68, pe.subsystem) && WordAt(b, opt + 108, |pe.dirs|)
  }

  lemma HeaderReads(b: seq<Byte>, o: nat, s: SectionHeader)
    requires HeaderAt(b, o, s)
    ensures SectionAt(b, o) == s
  {
    hide U32At, Holds, Trim;
    HoldsU32(b, o + 8, s.virtualSize);
    HoldsU32(b, o + 12, s.rva);
    HoldsU32(b, o + 16, s.rawSize);
    HoldsU32(b, o + 20, s.rawPtr);
    HoldsU32(b, o + 36, s.chars);
    SubHolds(b, o, s.name + Zeros(8 - |s.name|));
    assert Pad(s.name, 8) == s.name + Zeros(8 - |s.name|);
    TrimPadded(s.name, 8, 0);
  }

  lemma CoffReads(b: seq<Byte>, lf: nat, optSize: nat, count: nat)
    requires CoffAt(b, lf, optSize, count)
    ensures U16At(b, 0) == 0x5a4d && U32At(b, 0x3c) == lf && U32At(b, lf) == 0x4550
    ensures U16At(b, lf + 4) == 0x8664 && U16At(b, lf + 6) == count && U16At(b, lf + 20) == optSize
  {
    hide U16At, U32At, Holds;
    HoldsU32(b, 0x3c, lf);
    Magic(b, lf);
    HoldsU16(b, lf + 4, 0x8664);
    HoldsU16(b, lf + 6, count);
    HoldsU16(b, lf + 20, optSize);
  }

  lemma OptionalReads(b: seq<Byte>, opt: nat, pe: Pe)
    requires OptionalAt(b, opt, pe)
    ensures U16At(b, opt) == 0x20b && U32At(b, opt + 16) == pe.entryRva && U32At(b, opt + 56) == pe.sizeOfImage
    ensures U32At(b, opt + 24) + U32At(b, opt + 28) * TWO_32 == pe.imageBase
    ensures U32At(b, opt + 60) == pe.sizeOfHeaders && U16At(b, opt + 68) == pe.subsystem && U32At(b, opt + 108) == |pe.dirs|
  {
    hide U16At, U32At, Holds;
    HoldsU16(b, opt, 0x20b);
    HoldsU32(b, opt + 16, pe.entryRva);
    BaseReads(b, opt + 24, pe.imageBase);
    HoldsU32(b, opt + 56, pe.sizeOfImage);
    HoldsU32(b, opt + 60, pe.sizeOfHeaders);
    HoldsU16(b, opt + 68, pe.subsystem);
    HoldsU32(b, opt + 108, |pe.dirs|);
  }

  /** Parsing recovers the headers of any file that has them, built here or not: COFF header, the fields of
      the optional header, all directories, and the section headers behind an optional header of any size. */
  lemma ParseHeaders(b: seq<Byte>, lf: nat, optSize: nat, pe: Pe)
    requires HeadersAt(b, lf, optSize, pe) && pe.machine == 0x8664
    ensures Parse(b) == Ok(pe)
  {
    hide U16At, U32At, WordAt, HeaderAt, CoffAt, OptionalAt, DirList, SectionList;
    CoffReads(b, lf, optSize, |pe.sections|);
    OptionalReads(b, lf + 24, pe);
    DirsRead(b, lf + 136, pe.dirs);
    SectionsRead(b, lf + 24 + optSize, pe.sections);
  }

  lemma Magic(b: seq<Byte>, lf: nat)
    requires Holds(b, 0, [0x4d, 0x5a]) && Holds(b, lf, [0x50, 0x45, 0, 0])
    ensures U16At(b, 0) == 0x5a4d && U32At(b, lf) == 0x4550
  {
    hide U16At, U32At;
    U16Bytes(b, 0, 0x4d, 0x5a);
    U32Bytes(b, lf, 0x50, 0x45);
    assert b[0..2] == [0x4d, 0x5a];
    assert b[0] == b[0..2][0] && b[1] == b[0..2][1];
    var s := b[lf..lf + 4];
    assert b[lf] == s[0] && b[lf + 1] == s[1] && b[lf + 2] == s[2] && b[lf + 3] == s[3];
  }

  lemma DirsRead(b: seq<Byte>, o: nat, dirs: seq<Dir>)
    requires forall i | 0 <= i < |dirs| :: WordAt(b, o + 8 * i, dirs[i].rva) && WordAt(b, o + 8 * i + 4, dirs[i].size)
    ensures DirList(b, o, |dirs|) == dirs
  {
    hide U32At, Holds;
    forall i | 0 <= i < |dirs|
      ensures DirAt(b, o + 8 * i) == dirs[i]
    {
      HoldsU32(b, o + 8 * i, dirs[i].rva);
      HoldsU32(b, o + 8 * i + 4, dirs[i].size);
    }
  }

  lemma SectionsRead(b: seq<Byte>, o: nat, ss: seq<SectionHeader>)
    requires forall i | 0 <= i < |ss| :: HeaderAt(b, o + 40 * i, ss[i])
    ensures SectionList(b, o, |ss|) == ss
  {
    hide HeaderAt, SectionAt;
    forall i | 0 <= i < |ss|
      ensures SectionAt(b, o + 40 * i) == ss[i]
    {
      HeaderReads(b, o + 40 * i, ss[i]);
    }
  }

  /** The name is cut at its first zero with no line feed or carriage return behind it, and nowhere else. */
  lemma {:induction false} TrimIs(s: seq<Byte>, k: nat)
    requires k <= |s|
    ensures var t := Trim(s, k);
      && t <= s && (|t| >= k || t == s)
      && (|t| < |s| ==> s[|t|] == 0 && !(exists j :: |t| < j < |s| && (s[j] == 10 || s[j] == 13)))
      && (forall i | k <= i < |t| && s[i] == 0 :: exists j :: i < j < |s| && (s[j] == 10 || s[j] == 13))
    decreases |s| - k
  {
    if k < |s| {
      if s[k] == 0 && OneLine(s[k + 1..]) {
        forall j | k < j < |s|
          ensures s[j] != 10 && s[j] != 13
        {
          assert s[j] == s[k + 1..][j - k - 1];
        }
      } else {
        TrimIs(s, k + 1);
        if s[k] == 0 {
          var i :| 0 <= i < |s[k + 1..]| && !(s[k + 1..][i] != 10 && s[k + 1..][i] != 13);
          assert s[k + 1 + i] == s[k + 1..][i];
        }
      }
    }
  }
}
