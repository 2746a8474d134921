/** Loading and relocating any file, built here or not. */
module PeLoad {
  import opened Bytes
  import opened Buffers
  import opened Store
  import opened Wrappers
  import opened PeImage
  import opened PeParse
  import opened PeMap

  // ------------------------------------------------------------------ sections

  /** A section's range in memory, the part beyond its raw data included. */
  function Extent(s: SectionHeader): nat { Larger(s.virtualSize, s.rawSize) }

  function RawBytes(b: seq<Byte>, s: SectionHeader): (d: seq<Byte>)
    ensures |d| <= s.rawSize
  {
    Sub(b, s.rawPtr, s.rawPtr + s.rawSize)
  }

  ghost predicate Separate(ss: seq<SectionHeader>) {
    forall i, j | 0 <= i < j < |ss| :: ss[i].rva + Extent(ss[i]) <= ss[j].rva || ss[j].rva + Extent(ss[j]) <= ss[i].rva
  }

  /** x is in none of the first k sections. */
  ghost predicate Outside(ss: seq<SectionHeader>, base: nat, k: nat, x: int)
    requires k <= |ss|
  {
    forall i | 0 <= i < k :: !(base + ss[i].rva <= x < base + ss[i].rva + Extent(ss[i]))
  }

  ghost predicate RawIn(m: Store, base: nat, b: seq<Byte>, s: SectionHeader) {
    forall x: nat | base + s.rva <= x < base + s.rva + |RawBytes(b, s)| :: Get(m, x) == RawBytes(b, s)[x - base - s.rva]
  }

  ghost predicate TailIn(m: Store, base: nat, s: SectionHeader) {
    forall x: nat | base + s.rva + s.rawSize <= x < base + s.rva + s.virtualSize :: Get(m, x) == 0
  }

  ghost predicate SameIn(m: Store, m': Store, base: nat, s: SectionHeader) {
    forall x: nat | base + s.rva <= x < base + s.rva + Extent(s) :: Get(m', x) == Get(m, x)
  }

  lemma KeptIn(m: Store, m': Store, base: nat, b: seq<Byte>, s: SectionHeader)
    requires SameIn(m, m', base, s)
    ensures RawIn(m, base, b, s) ==> RawIn(m', base, b, s)
    ensures TailIn(m, base, s) ==> TailIn(m', base, s)
  {
    hide Get, Sub;
  }

  lemma {:induction false} CopiedAny(m: Store, base: nat, b: seq<Byte>, ss: seq<SectionHeader>, k: nat)
    requires Separate(ss) && k <= |ss|
    ensures var m' := Copied(m, base, b, ss, k);
      && (forall i | 0 <= i < k :: RawIn(m', base, b, ss[i]))
      && (forall x: nat | Outside(ss, base, k, x) :: Get(m', x) == Get(m, x))
    decreases k
  {
    hide Get, Put, Sub, RawIn, Outside, Separate, Extent;
    if k > 0 {
      CopiedAny(m, base, b, ss, k - 1);
      var m1, m' := Copied(m, base, b, ss, k - 1), Copied(m, base, b, ss, k);
      CopyOneAny(m1, m', base, b, ss[k - 1]);
      forall i | 0 <= i < k - 1
        ensures RawIn(m', base, b, ss[i])
      {
        ApartKeeps(m1, m', base, ss, i, k - 1);
        KeptIn(m1, m', base, b, ss[i]);
      }
      forall x: nat | Outside(ss, base, k, x)
        ensures Get(m', x) == Get(m, x)
      {
        OutsideStep(ss, base, k, x);
      }
    }
  }

  lemma CopyOneAny(m1: Store, m': Store, base: nat, b: seq<Byte>, s: SectionHeader)
    requires m' == if s.rawSize == 0 then m1 else Put(m1, base + s.rva, RawBytes(b, s))
    ensures RawIn(m', base, b, s)
    ensures forall x: nat | !(base + s.rva <= x < base + s.rva + Extent(s)) :: Get(m', x) == Get(m1, x)
  {
    hide Get, Put, Sub, Touched;
    if s.rawSize != 0 { PutGet(m1, base + s.rva, RawBytes(b, s)); }
  }

  lemma ApartKeeps(m: Store, m': Store, base: nat, ss: seq<SectionHeader>, i: nat, k: nat)
    requires Separate(ss) && i < |ss| && k < |ss| && i != k
    requires forall x: nat | !(base + ss[k].rva <= x < base + ss[k].rva + Extent(ss[k])) :: Get(m', x) == Get(m, x)
    ensures SameIn(m, m', base, ss[i])
  {
    hide Get, Extent;
    if i < k {
      assert ss[i].rva + Extent(ss[i]) <= ss[k].rva || ss[k].rva + Extent(ss[k]) <= ss[i].rva;
    } else {
      assert ss[k].rva + Extent(ss[k]) <= ss[i].rva || ss[i].rva + Extent(ss[i]) <= ss[k].rva;
    }
  }

  lemma OutsideStep(ss: seq<SectionHeader>, base: nat, k: nat, x: int)
    requires 0 < k <= |ss| && Outside(ss, base, k, x)
    ensures Outside(ss, base, k - 1, x) && !(base + ss[k - 1].rva <= x < base + ss[k - 1].rva + Extent(ss[k - 1]))
  {
    hide Extent;
  }

  lemma FillOneAny(m1: Store, m': Store, base: nat, b: seq<Byte>, s: SectionHeader)
    requires m' == if s.virtualSize > s.rawSize then Put(m1, base + s.rva + s.rawSize, Zeros(s.virtualSize - s.rawSize)) else m1
    ensures TailIn(m', base, s) && (RawIn(m1, base, b, s) ==> RawIn(m', base, b, s))
    ensures forall x: nat | !(base + s.rva <= x < base + s.rva + Extent(s)) :: Get(m', x) == Get(m1, x)
  {
    hide Get, Put, Sub, Touched;
    if s.virtualSize > s.rawSize { PutGet(m1, base + s.rva + s.rawSize, Zeros(s.virtualSize - s.rawSize)); }
  }

  lemma {:induction false} FilledAny(m: Store, base: nat, b: seq<Byte>, ss: seq<SectionHeader>, k: nat)
    requires Separate(ss) && k <= |ss| && forall i | 0 <= i < |ss| :: RawIn(m, base, b, ss[i])
    ensures var m' := Filled(m, base, ss, k);
      && (forall i | 0 <= i < |ss| :: RawIn(m', base, b, ss[i]))
      && (forall i | 0 <= i < k :: TailIn(m', base, ss[i]))
      && (forall x: nat | Outside(ss, base, k, x) :: Get(m', x) == Get(m, x))
    decreases k
  {
    hide Get, Put, Sub, RawIn, TailIn, Outside, Separate, Extent;
    if k > 0 {
      FilledAny(m, base, b, ss, k - 1);
      var m1, m' := Filled(m, base, ss, k - 1), Filled(m, base, ss, k);
      FillOneAny(m1, m', base, b, ss[k - 1]);
      forall i | 0 <= i < |ss| && i != k - 1
        ensures RawIn(m', base, b, ss[i]) && (i < k - 1 ==> TailIn(m', base, ss[i]))
      {
        ApartKeeps(m1, m', base, ss, i, k - 1);
        KeptIn(m1, m', base, b, ss[i]);
      }
      forall x: nat | Outside(ss, base, k, x)
        ensures Get(m', x) == Get(m, x)
      {
        OutsideStep(ss, base, k, x);
      }
    }
  }

  /** Loading any file whose sections are separate and clear of its headers: headers and raw data
      are in place, the rest of each section reads as zero, and nothing else changes. */
  lemma LoadedAny(m: Store, base: nat, b: seq<Byte>, pe: Pe)
    requires Separate(pe.sections) && forall i | 0 <= i < |pe.sections| :: pe.sections[i].rva >= pe.sizeOfHeaders
    ensures var m' := Loaded(m, base, b, pe);
      && (forall i | 0 <= i < |pe.sections| :: RawIn(m', base, b, pe.sections[i]) && TailIn(m', base, pe.sections[i]))
      && (forall x: nat | base <= x < base + |Sub(b, 0, pe.sizeOfHeaders)| :: Get(m', x) == Sub(b, 0, pe.sizeOfHeaders)[x - base])
      && (forall x: nat | Outside(pe.sections, base, |pe.sections|, x) && !(base <= x < base + pe.sizeOfHeaders) :: Get(m', x) == Get(m, x))
  {
    hide Get, Put, Sub, RawIn, TailIn, Outside, Separate, Copied, Filled;
    var ss, n := pe.sections, |pe.sections|;
    CopiedAny(m, base, b, ss, n);
    var m1 := Copied(m, base, b, ss, n);
    FilledAny(m1, base, b, ss, n);
    var m2 := Filled(m1, base, ss, n);
    var m' := Loaded(m, base, b, pe);
    HeaderBytes(m2, m', base, b, pe);
    forall i | 0 <= i < n
      ensures RawIn(m', base, b, ss[i]) && TailIn(m', base, ss[i])
    {
      HeaderClear(m2, m', base, ss[i], pe.sizeOfHeaders);
      KeptIn(m2, m', base, b, ss[i]);
    }
  }

  lemma HeaderBytes(m2: Store, m': Store, base: nat, b: seq<Byte>, pe: Pe)
    requires m' == if pe.sizeOfHeaders > 0 then Put(m2, base, Sub(b, 0, pe.sizeOfHeaders)) else m2
    ensures forall x: nat | base <= x < base + |Sub(b, 0, pe.sizeOfHeaders)| :: Get(m', x) == Sub(b, 0, pe.sizeOfHeaders)[x - base]
    ensures forall x: nat | !(base <= x < base + pe.sizeOfHeaders) :: Get(m', x) == Get(m2, x)
  {
    hide Get, Put, Touched;
    var head := Sub(b, 0, pe.sizeOfHeaders);
    if pe.sizeOfHeaders > 0 { PutGet(m2, base, head); }
  }

  lemma HeaderClear(m2: Store, m': Store, base: nat, s: SectionHeader, headers: nat)
    requires s.rva >= headers && forall x: nat | !(base <= x < base + headers) :: Get(m', x) == Get(m2, x)
    ensures SameIn(m2, m', base, s)
  {
    hide Get;
  }

  // --------------------------------------------------------------- relocations

  /** A relocation block: a page, and a type and offset for each entry. */
  datatype Block = Block(pageRva: nat, entries: seq<(nat, nat)>)

  predicate EntryOk(e: (nat, nat)) { (e.0 == 0 || e.0 == 9 || e.0 == 10) && e.1 < 4096 }

  predicate BlockOk(k: Block) {
    k.pageRva < TWO_32 && 8 + 2 * |k.entries| < TWO_32 && forall i | 0 <= i < |k.entries| :: EntryOk(k.entries[i])
  }

  function EntryParts(es: seq<(nat, nat)>): seq<seq<Byte>> {
    seq(|es|, i requires 0 <= i < |es| => ToLE(es[i].0 * 4096 + es[i].1, 2))
  }

  function BlockBytes(k: Block): seq<Byte> {
    ToLE(k.pageRva, 4) + ToLE(8 + 2 * |k.entries|, 4) + Flat(EntryParts(k.entries))
  }

  function DirectoryBytes(ks: seq<Block>): seq<Byte> {
    if ks == [] then [] else BlockBytes(ks[0]) + DirectoryBytes(ks[1..])
  }

  /** The fields a block names: padding entries name none. */
  function FieldsFrom(pageRva: nat, es: seq<(nat, nat)>, i: nat): seq<nat>
    requires i <= |es|
    decreases |es| - i
  {
    if i == |es| then []
    else (if es[i].0 == 0 then [] else [pageRva + es[i].1]) + FieldsFrom(pageRva, es, i + 1)
  }

  function FieldsOf(ks: seq<Block>): seq<nat> {
    if ks == [] then [] else FieldsFrom(ks[0].pageRva, ks[0].entries, 0) + FieldsOf(ks[1..])
  }

  lemma BlockLen(k: Block)
    ensures |BlockBytes(k)| == 8 + 2 * |k.entries| && |Flat(EntryParts(k.entries))| == 2 * |k.entries|
  {
    hide ToLE;
    FlatEven(EntryParts(k.entries), 2);
  }

  lemma EntryReads(b: seq<Byte>, at: nat, es: seq<(nat, nat)>, i: nat)
    requires Holds(b, at, Flat(EntryParts(es))) && i < |es| && EntryOk(es[i])
    ensures U16At(b, at + i * 2) == es[i].0 * 4096 + es[i].1
  {
    hide ToLE, Holds, U16At;
    var v := es[i].0 * 4096 + es[i].1;
    FlatHolds(EntryParts(es), i);
    FlatEven(EntryParts(es)[..i], 2);
    HoldsIn(b, at, Flat(EntryParts(es)), 2 * i, ToLE(v, 2));
    HoldsU16(b, at + i * 2, v);
  }

  lemma HeaderReads(b: seq<Byte>, off: nat, k: Block)
    requires BlockOk(k) && Holds(b, off, BlockBytes(k))
    ensures U32At(b, off) == k.pageRva && U32At(b, off + 4) == 8 + 2 * |k.entries|
    ensures Holds(b, off + 8, Flat(EntryParts(k.entries)))
  {
    hide ToLE, U32At, EntryParts, Holds;
    var a, c, d := ToLE(k.pageRva, 4), ToLE(8 + 2 * |k.entries|, 4), Flat(EntryParts(k.entries));
    ThreeParts(a, c, d);
    HoldsIn(b, off, BlockBytes(k), 0, a);
    HoldsIn(b, off, BlockBytes(k), 4, c);
    HoldsIn(b, off, BlockBytes(k), 8, d);
    HoldsU32(b, off, k.pageRva);
    HoldsU32(b, off + 4, 8 + 2 * |k.entries|);
  }

  lemma ThreeParts(a: seq<Byte>, c: seq<Byte>, d: seq<Byte>)
    ensures Holds(a + c + d, 0, a) && Holds(a + c + d, |a|, c) && Holds(a + c + d, |a| + |c|, d)
  {
  }

  // ------------------------------------------------------- directories as they are

  /** The block at off: its page, and an entry for every started pair of bytes behind its header, each a type
      and a page offset. */
  ghost predicate BlockAt(b: seq<Byte>, off: nat, k: Block) {
    var size, n := U32At(b, off + 4), |k.entries|;
    && k.pageRva == U32At(b, off) && size <= 8 + 2 * n && (n > 0 ==> 6 + 2 * n < size)
    && forall j | 0 <= j < n :: k.entries[j].1 < 4096 && U16At(b, off + 8 + j * 2) == k.entries[j].0 * 4096 + k.entries[j].1
  }

  /** The blocks from off on, each as long as it says, up to the end or a block of size zero. */
  ghost predicate BlocksAt(b: seq<Byte>, off: nat, end: nat, ks: seq<Block>)
    decreases |ks|
  {
    if ks == [] then off >= end || U32At(b, off + 4) == 0
    else off < end && U32At(b, off + 4) != 0 && BlockAt(b, off, ks[0]) && BlocksAt(b, off + U32At(b, off + 4), end, ks[1..])
  }

  /** Types 9 and 10 name a field, type 0 is padding. */
  predicate Known(kind: nat) { kind == 0 || kind == 9 || kind == 10 }

  predicate Supported(k: Block) { forall j | 0 <= j < |k.entries| :: Known(k.entries[j].0) }

  lemma CountIs(size: nat, n: nat)
    requires size <= 8 + 2 * n && (n > 0 ==> 6 + 2 * n < size)
    ensures EntryCount(size) == n
  {
  }

  /** What reading the entries from i on gives, with j the first of an unknown type, if there is one. */
  lemma {:induction false} EntriesRead(b: seq<Byte>, off: nat, k: Block, i: nat, j: nat)
    requires BlockAt(b, off, k) && i <= j <= |k.entries|
    requires (forall e | i <= e < j :: Known(k.entries[e].0)) && (j < |k.entries| ==> !Known(k.entries[j].0))
    ensures BlockFields(b, off + 8, k.pageRva, i, |k.entries|)
      == (FieldsFrom(k.pageRva, k.entries[..j], i), if j < |k.entries| then Some(k.entries[j].0) else None)
    decreases j - i
  {
    hide U16At, U32At;
    if i < |k.entries| {
      assert EntryIs(b, off + 8, i, k.entries[i].0, k.entries[i].1);
      BlockIs(b, off + 8, k.pageRva, i, |k.entries|, k.entries[i].0, k.entries[i].1);
      if i < j {
        EntriesRead(b, off, k, i + 1, j);
        assert k.entries[..j][i] == k.entries[i];
        var rest := FieldsFrom(k.pageRva, k.entries[..j], i + 1);
        assert [] + rest == rest;
      }
    }
  }

  /** A directory of known types gives exactly the fields its blocks name. */
  lemma {:induction false} BlocksRead(b: seq<Byte>, off: nat, end: nat, ks: seq<Block>)
    requires BlocksAt(b, off, end, ks) && forall i | 0 <= i < |ks| :: Supported(ks[i])
    ensures RelocFields(b, off, end, false) == (FieldsOf(ks), None)
    decreases |ks|
  {
    hide U32At, BlockFields, FieldsFrom;
    if ks != [] {
      var k, size := ks[0], U32At(b, off + 4);
      assert Supported(k);
      assert k.entries[..|k.entries|] == k.entries;
      EntriesRead(b, off, k, 0, |k.entries|);
      CountIs(size, |k.entries|);
      BlocksRead(b, off + size, end, ks[1..]);
    }
  }

  /** The blocks before the first unknown type, which is that of entry j of block i. */
  function Before(ks: seq<Block>, i: nat, j: nat): seq<Block>
    requires i < |ks| && j <= |ks[i].entries|
  {
    ks[..i] + [Block(ks[i].pageRva, ks[i].entries[..j])]
  }

  /** A directory with an unknown type gives the fields named before it. */
  lemma {:induction false} BlocksBad(b: seq<Byte>, off: nat, end: nat, ks: seq<Block>, i: nat, j: nat)
    requires BlocksAt(b, off, end, ks) && i < |ks| && j < |ks[i].entries| && !Known(ks[i].entries[j].0)
    requires (forall h | 0 <= h < i :: Supported(ks[h])) && forall e | 0 <= e < j :: Known(ks[i].entries[e].0)
    ensures RelocFields(b, off, end, false) == (FieldsOf(Before(ks, i, j)), Some(ks[i].entries[j].0))
    decreases i
  {
    hide U32At, BlockFields, FieldsFrom;
    var k, size := ks[0], U32At(b, off + 4);
    CountIs(size, |k.entries|);
    if i == 0 {
      EntriesRead(b, off, k, 0, j);
      var cut := Block(k.pageRva, k.entries[..j]);
      assert Before(ks, 0, j) == [cut] && [cut][1..] == [];
      assert FieldsOf([cut]) == FieldsFrom(k.pageRva, cut.entries, 0);
    } else {
      assert k.entries[..|k.entries|] == k.entries;
      EntriesRead(b, off, k, 0, |k.entries|);
      BlocksBad(b, off + size, end, ks[1..], i - 1, j);
      assert Before(ks, i, j)[0] == k && Before(ks, i, j)[1..] == Before(ks[1..], i - 1, j);
    }
  }

  /** Every directory is some list of blocks. */
  lemma {:induction false} BlocksHave(b: seq<Byte>, off: nat, end: nat) returns (ks: seq<Block>)
    ensures BlocksAt(b, off, end, ks)
    decreases end - off
  {
    hide U32At, BlockAt;
    ks := [];
    if off < end && U32At(b, off + 4) != 0 {
      var k := BlockHas(b, off);
      var rest := BlocksHave(b, off + U32At(b, off + 4), end);
      ks := [k] + rest;
      assert ks[1..] == rest;
    }
  }

  lemma BlockHas(b: seq<Byte>, off: nat) returns (k: Block)
    ensures BlockAt(b, off, k)
  {
    hide U32At, U16At;
    var n := EntryCount(U32At(b, off + 4));
    var es := seq(n, j requires 0 <= j < n => (U16At(b, off + 8 + j * 2) / 4096, U16At(b, off + 8 + j * 2) % 4096));
    k := Block(U32At(b, off), es);
  }

  /** An encoded directory is the list of its blocks. */
  lemma {:induction false} EncodedAt(b: seq<Byte>, off: nat, ks: seq<Block>)
    requires Holds(b, off, DirectoryBytes(ks)) && forall i | 0 <= i < |ks| :: BlockOk(ks[i])
    ensures BlocksAt(b, off, off + |DirectoryBytes(ks)|, ks) && forall i | 0 <= i < |ks| :: Supported(ks[i])
    decreases |ks|
  {
    hide Holds, U32At, U16At, BlockBytes, EntryParts;
    if ks != [] {
      var k, rest := ks[0], DirectoryBytes(ks[1..]);
      assert BlockOk(k);
      BlockLen(k);
      ThreeParts(BlockBytes(k), rest, []);
      assert BlockBytes(k) + rest + [] == DirectoryBytes(ks);
      HoldsIn(b, off, DirectoryBytes(ks), 0, BlockBytes(k));
      HoldsIn(b, off, DirectoryBytes(ks), |BlockBytes(k)|, rest);
      HeaderReads(b, off, k);
      forall j | 0 <= j < |k.entries|
        ensures U16At(b, off + 8 + j * 2) == k.entries[j].0 * 4096 + k.entries[j].1
      {
        EntryReads(b, off + 8, k.entries, j);
      }
      EncodedAt(b, off + |BlockBytes(k)|, ks[1..]);
      assert forall i | 0 < i < |ks| :: ks[i] == ks[1..][i - 1];
    }
  }

  /** Reading an encoded relocation directory gives back exactly the fields its blocks name. */
  lemma DirectoryReads(b: seq<Byte>, off: nat, ks: seq<Block>)
    requires Holds(b, off, DirectoryBytes(ks)) && forall i | 0 <= i < |ks| :: BlockOk(ks[i])
    ensures RelocFields(b, off, off + |DirectoryBytes(ks)|, false) == (FieldsOf(ks), None)
  {
    hide Holds, RelocFields, DirectoryBytes, BlocksAt, BlockOk, FieldsOf;
    EncodedAt(b, off, ks);
    BlocksRead(b, off, off + |DirectoryBytes(ks)|, ks);
  }

  /** Past its first byte a file with another first byte reads alike. */
  lemma ByteZero(b: seq<Byte>, o: nat, n: nat)
    requires |b| > 0 && o > 0
    ensures Window(b[0 := 0], o, n) == Window(b, o, n)
  {
    forall i | 0 <= i < n
      ensures Window(b[0 := 0], o, n)[i] == Window(b, o, n)[i]
    {
      assert ByteAt(b[0 := 0], o + i) == ByteAt(b, o + i);
    }
  }

  lemma {:induction false} BlockZero(b: seq<Byte>, at: nat, pageRva: nat, i: nat, n: nat)
    requires |b| > 0 && at > 0 && i <= n
    ensures BlockFields(b[0 := 0], at, pageRva, i, n) == BlockFields(b, at, pageRva, i, n)
    decreases n - i
  {
    if i < n {
      ByteZero(b, at + i * 2, 2);
      BlockZero(b, at, pageRva, i + 1, n);
    }
  }

  lemma {:induction false} FieldsZero(b: seq<Byte>, off: nat, end: nat)
    requires |b| > 0
    ensures RelocFields(b[0 := 0], off, end, false) == RelocFields(b, off, end, off == 0)
    decreases end - off
  {
    hide BlockFields;
    ByteZero(b, off + 4, 4);
    if off < end && U32At(b, off + 4) != 0 {
      var size := U32At(b, off + 4);
      FirstPage(b, off);
      BlockZero(b, off + 8, PageRvaAt(b, off, off == 0), 0, EntryCount(size));
      FieldsZero(b, off + size, end);
    }
  }

  lemma FirstPage(b: seq<Byte>, off: nat)
    requires |b| > 0
    ensures U32At(b[0 := 0], off) == PageRvaAt(b, off, off == 0)
  {
    hide U32At;
    if off > 0 {
      OtherPage(b, off);
    } else {
      U32Is(b, 0);
      U32Is(b[0 := 0], 0);
      var high := ByteAt(b, 1) as nat + 0x100 * ByteAt(b, 2) as nat + 0x1_0000 * ByteAt(b, 3) as nat;
      hide ByteAt;
      ModUnique(U32At(b, 0), 256, high, ByteAt(b, 0) as int);
    }
  }

  lemma OtherPage(b: seq<Byte>, off: nat)
    requires |b| > 0 && off > 0
    ensures U32At(b[0 := 0], off) == U32At(b, off)
  {
    ByteZero(b, off, 4);
  }

  /** A relocation directory outside all raw data is not refused: the walk starts at the head of the file,
      as if the file began with a zero byte. */
  lemma StrayDirectory(b: seq<Byte>, pe: Pe)
    requires |b| > 0 && |pe.dirs| > 5 && pe.dirs[5].rva != 0 && RvaToOffset(pe, pe.dirs[5].rva).None?
    ensures Relocations(b, pe) == RelocFields(b[0 := 0], 0, pe.dirs[5].size, false)
  {
    FieldsZero(b, 0, pe.dirs[5].size);
  }

  // -------------------------------------------------------------- the whole load

  /** Where the import walk finds the thunk of entry j of a table, if it gets that far: every entry up to
      it lies in raw data and is not zero. */
  ghost predicate Listed(b: seq<Byte>, pe: Pe, table: nat, j: nat) {
    forall k: nat | k <= j ::
      RvaToOffset(pe, Entry(table, k)).Some? && U32At(b, RvaToOffset(pe, Entry(table, k)).value) != 0
  }

  /** Entries are eight bytes long. */
  function Entry(table: nat, k: nat): nat { table + 8 * k }

  /** rva is an address slot that the descriptor at this file offset, one of the import directory from
      off, has bound: slot j for thunk j, from the lookup table or else from the address table itself. */
  ghost predicate SlotOf(b: seq<Byte>, pe: Pe, off: nat, i: nat, j: nat, rva: nat) {
    var d := off + 20 * i;
    var ilt, iat := U32At(b, d), U32At(b, d + 16);
    rva == Entry(iat, j) && Listed(b, pe, if ilt != 0 then ilt else iat, j)
  }

  /** x is in no import address slot. */
  ghost predicate OffSlots(b: seq<Byte>, pe: Pe, base: nat, x: int)
    requires |pe.dirs| > 5
  {
    var d := pe.dirs[1];
    d.rva != 0 && d.size != 0 && RvaToOffset(pe, d.rva).Some? ==>
      forall i: nat, j: nat, rva: nat | SlotOf(b, pe, RvaToOffset(pe, d.rva).value, i, j, rva) ::
        !(base + rva <= x < base + rva + 8)
  }

  lemma {:induction false} ThunksKeep(l: Linking, b: seq<Byte>, pe: Pe, base: nat, dll: seq<Byte>, table: nat, iat: nat, index: nat,
                                      resolve: Resolver, x: nat)
    requires index > 0 ==> Listed(b, pe, table, index - 1)
    requires forall j: nat | Listed(b, pe, table, j) :: !(base + Entry(iat, j) <= x < base + Entry(iat, j) + 8)
    ensures Get(Thunks(l, b, pe, base, dll, Entry(table, index), iat, index, resolve).mem, x) == Get(l.mem, x)
    decreases if RvaToOffset(pe, Entry(table, index)).Some? then 1 + Larger(Entry(table, index), Limit(pe)) - Entry(table, index) else 0
  {
    hide Get, U32At, RvaToOffset, SymbolAt, W64, Limit;
    var thunk := Entry(table, index);
    if RvaToOffset(pe, thunk).Some? && U32At(b, RvaToOffset(pe, thunk).value) != 0 {
      LimitBounds(pe, thunk);
      assert Listed(b, pe, table, index);
      var s := SymbolAt(b, pe, U32At(b, RvaToOffset(pe, thunk).value));
      var l1 := Bind(Warned(l, dll, index, s), base, iat, index, dll, s, resolve);
      if resolve(dll, s).Some? {
        W64Bytes(l.mem, base + Entry(iat, index), resolve(dll, s).value);
        assert Entry(table, index + 1) == thunk + 8;
        if RvaToOffset(pe, thunk + 8).Some? { LimitBounds(pe, thunk + 8); }
        ThunksKeep(l1, b, pe, base, dll, table, iat, index + 1, resolve, x);
      }
    }
  }

  lemma {:induction false} DescsKeep(l: Linking, b: seq<Byte>, pe: Pe, base: nat, off: nat, i: nat, resolve: Resolver, x: nat)
    requires forall k: nat, j: nat, rva: nat | SlotOf(b, pe, off, k, j, rva) :: !(base + rva <= x < base + rva + 8)
    ensures Get(Descs(l, b, pe, base, off + 20 * i, resolve).mem, x) == Get(l.mem, x)
    decreases Larger(off + 20 * i, |b|) - (off + 20 * i)
  {
    hide Get, U32At, RvaToOffset, Thunks, CString, Lower, Listed;
    var d := off + 20 * i;
    if d < |b| {
      var ilt, nameRva, iat := U32At(b, d), U32At(b, d + 12), U32At(b, d + 16);
      if !(ilt == 0 && nameRva == 0 && iat == 0) && RvaToOffset(pe, nameRva).Some? {
        var dll := Lower(CString(b, RvaToOffset(pe, nameRva).value, NAME_WINDOW));
        var table := if ilt != 0 then ilt else iat;
        forall j: nat | Listed(b, pe, table, j)
          ensures !(base + Entry(iat, j) <= x < base + Entry(iat, j) + 8)
        {
          assert SlotOf(b, pe, off, i, j, Entry(iat, j));
        }
        assert Entry(table, 0) == table;
        ThunksKeep(l, b, pe, base, dll, table, iat, 0, resolve, x);
        var l1 := Thunks(l, b, pe, base, dll, table, iat, 0, resolve);
        if l1.failed.None? { DescsKeep(l1, b, pe, base, off, i + 1, resolve, x); }
      }
    }
  }

  /** Binding imports, whatever comes of it, writes address slots only. */
  lemma ImportsKeep(m: Store, b: seq<Byte>, pe: Pe, base: nat, resolve: Resolver, x: nat)
    requires |pe.dirs| > 5 && OffSlots(b, pe, base, x)
    ensures Get(Imported(m, b, pe, base, resolve).mem, x) == Get(m, x)
  {
    hide Get, RvaToOffset, Descs, SlotOf;
    var d := pe.dirs[1];
    if d.rva != 0 && d.size != 0 && RvaToOffset(pe, d.rva).Some? {
      DescsKeep(Linking(m, [], [], None), b, pe, base, RvaToOffset(pe, d.rva).value, 0, resolve, x);
    }
  }

  /** The relocation directory of a file, number 5, is this list of blocks; where it lies outside raw data,
      the head of the file is, read as if its first byte were zero. */
  ghost predicate Relocatable(b: seq<Byte>, pe: Pe, blocks: seq<Block>) {
    && |pe.dirs| > 5 && pe.dirs[5].rva != 0 && pe.dirs[5].size != 0
    && match RvaToOffset(pe, pe.dirs[5].rva)
       case Some(off) => BlocksAt(b, off, off + pe.dirs[5].size, blocks)
       case None => |b| > 0 && BlocksAt(b[0 := 0], 0, pe.dirs[5].size, blocks)
  }

  lemma RelocatableHas(b: seq<Byte>, pe: Pe) returns (blocks: seq<Block>)
    requires |b| > 0 && |pe.dirs| > 5 && pe.dirs[5].rva != 0 && pe.dirs[5].size != 0
    ensures Relocatable(b, pe, blocks)
  {
    hide BlocksAt, RvaToOffset;
    match RvaToOffset(pe, pe.dirs[5].rva)
    case Some(off) => blocks := BlocksHave(b, off, off + pe.dirs[5].size);
    case None => blocks := BlocksHave(b[0 := 0], 0, pe.dirs[5].size);
  }

  lemma RelocatableReads(b: seq<Byte>, pe: Pe, blocks: seq<Block>)
    requires Relocatable(b, pe, blocks) && forall i | 0 <= i < |blocks| :: Supported(blocks[i])
    ensures |pe.dirs| > 5 && Relocations(b, pe) == (FieldsOf(blocks), None)
  {
    hide BlocksAt, RvaToOffset, RelocFields, FieldsOf;
    match RvaToOffset(pe, pe.dirs[5].rva)
    case Some(off) => BlocksRead(b, off, off + pe.dirs[5].size, blocks);
    case None =>
      StrayDirectory(b, pe);
      BlocksRead(b[0 := 0], 0, pe.dirs[5].size, blocks);
  }

  lemma RelocatableBad(b: seq<Byte>, pe: Pe, blocks: seq<Block>, i: nat, j: nat)
    requires Relocatable(b, pe, blocks) && i < |blocks| && j < |blocks[i].entries| && !Known(blocks[i].entries[j].0)
    requires (forall h | 0 <= h < i :: Supported(blocks[h])) && forall e | 0 <= e < j :: Known(blocks[i].entries[e].0)
    ensures |pe.dirs| > 5 && Relocations(b, pe) == (FieldsOf(Before(blocks, i, j)), Some(blocks[i].entries[j].0))
  {
    hide BlocksAt, RvaToOffset, RelocFields, FieldsOf, Supported, Known;
    match RvaToOffset(pe, pe.dirs[5].rva)
    case Some(off) => BlocksBad(b, off, off + pe.dirs[5].size, blocks, i, j);
    case None =>
      StrayDirectory(b, pe);
      BlocksBad(b[0 := 0], 0, pe.dirs[5].size, blocks, i, j);
  }

  /** rva is the field of an entry of one of the blocks that is no padding. */
  ghost predicate Names(blocks: seq<Block>, rva: nat) {
    exists i, j :: 0 <= i < |blocks| && 0 <= j < |blocks[i].entries| && NamesAt(blocks[i], j, rva)
  }

  predicate NamesAt(k: Block, j: nat, rva: nat)
    requires j < |k.entries|
  {
    k.entries[j].0 != 0 && rva == k.pageRva + k.entries[j].1
  }

  lemma {:induction false} BlockNames(k: Block, i: nat, rva: nat)
    requires i <= |k.entries|
    ensures rva in FieldsFrom(k.pageRva, k.entries, i) <==> exists j :: i <= j < |k.entries| && NamesAt(k, j, rva)
    decreases |k.entries| - i
  {
    if i < |k.entries| {
      BlockNames(k, i + 1, rva);
      var rest := FieldsFrom(k.pageRva, k.entries, i + 1);
      assert rva in FieldsFrom(k.pageRva, k.entries, i) <==> NamesAt(k, i, rva) || rva in rest;
      if j :| i <= j < |k.entries| && NamesAt(k, j, rva) {
        assert j == i || i + 1 <= j;
      }
    }
  }

  lemma {:induction false} FieldsNamed(blocks: seq<Block>, rva: nat)
    ensures rva in FieldsOf(blocks) <==> Names(blocks, rva)
  {
    hide NamesAt, FieldsFrom;
    if blocks != [] {
      var rest := blocks[1..];
      BlockNames(blocks[0], 0, rva);
      FieldsNamed(rest, rva);
      if i, j :| 0 <= i < |rest| && 0 <= j < |rest[i].entries| && NamesAt(rest[i], j, rva) {
        assert blocks[i + 1] == rest[i];
      }
      if i, j :| 0 <= i < |blocks| && 0 <= j < |blocks[i].entries| && NamesAt(blocks[i], j, rva) {
        if i > 0 { assert rest[i - 1] == blocks[i]; }
      }
    }
  }

  /** mapPe on any file with a relocation directory of known types (RelocatableHas gives its blocks): it
      never gives up over a relocation, each field that a block names holds its loaded value moved by base - imageBase, modulo 2^64, their number is reported,
      and every byte off the fields and off the import address slots is as loaded. */
  lemma MapRelocates(m: Store, b: seq<Byte>, pe: Pe, base: nat, resolve: Resolver, blocks: seq<Block>)
    requires Parse(b) == Ok(pe) && Relocatable(b, pe, blocks) && Apart(FieldsOf(blocks))
    requires forall i | 0 <= i < |blocks| :: Supported(blocks[i])
    ensures var r := Map(m, b, base, resolve); var loaded := Loaded(m, base, b, pe);
      && !(r.Refused? && r.problem.BadReloc?)
      && (r.Mapped? ==> r.relocated == |FieldsOf(blocks)|)
      && (forall rva: nat | Names(blocks, rva) && (forall x: nat | base + rva <= x < base + rva + 8 :: OffSlots(b, pe, base, x)) ::
            U64(r.mem, base + rva) == (U64(loaded, base + rva) + base - pe.imageBase) % TWO_64)
      && (forall x: nat | OffSlots(b, pe, base, x) && (forall rva: nat | Names(blocks, rva) :: !(base + rva <= x < base + rva + 8)) ::
            Get(r.mem, x) == Get(loaded, x))
  {
    hide Parse, Loaded, Imported, Rebased, Get, U64, OffSlots, FieldsOf, Names, Relocations, Relocatable, Supported, Apart;
    var loaded := Loaded(m, base, b, pe);
    var fields := FieldsOf(blocks);
    RelocatableReads(b, pe, blocks);
    RebasedOk(loaded, base, base - pe.imageBase, fields);
    var m2 := Rebased(loaded, base, base - pe.imageBase, fields);
    var r := Map(m, b, base, resolve);
    assert r.mem == Imported(m2, b, pe, base, resolve).mem;
    ImportProblem(m2, b, pe, base, resolve);
    forall x: nat | OffSlots(b, pe, base, x)
      ensures Get(r.mem, x) == Get(m2, x)
    {
      ImportsKeep(m2, b, pe, base, resolve, x);
    }
    forall rva: nat | Names(blocks, rva) && (forall x: nat | base + rva <= x < base + rva + 8 :: OffSlots(b, pe, base, x))
      ensures U64(r.mem, base + rva) == (U64(loaded, base + rva) + base - pe.imageBase) % TWO_64
    {
      FieldsNamed(blocks, rva);
      var i :| 0 <= i < |fields| && fields[i] == rva;
      U64Same(m2, r.mem, base + rva);
    }
    forall x: nat | OffSlots(b, pe, base, x) && forall rva: nat | Names(blocks, rva) :: !(base + rva <= x < base + rva + 8)
      ensures Get(r.mem, x) == Get(loaded, x)
    {
      forall i | 0 <= i < |fields|
        ensures !(base + fields[i] <= x < base + fields[i] + 8)
      {
        FieldsNamed(blocks, fields[i]);
      }
      assert Clear(base, fields, x);
    }
  }

  /** mapPe on any other file with one: it gives up over the first unknown type, with the fields named before
      it moved and every other byte as loaded. */
  lemma MapBadReloc(m: Store, b: seq<Byte>, pe: Pe, base: nat, resolve: Resolver, blocks: seq<Block>, i: nat, j: nat)
    requires Parse(b) == Ok(pe) && Relocatable(b, pe, blocks) && i < |blocks| && j < |blocks[i].entries|
    requires (forall h | 0 <= h < i :: Supported(blocks[h])) && forall e | 0 <= e < j :: Known(blocks[i].entries[e].0)
    requires !Known(blocks[i].entries[j].0) && Apart(FieldsOf(Before(blocks, i, j)))
    ensures var r, before := Map(m, b, base, resolve), Before(blocks, i, j); var loaded := Loaded(m, base, b, pe);
      && r == Refused(r.mem, BadReloc(blocks[i].entries[j].0))
      && (forall rva: nat | Names(before, rva) ::
            U64(r.mem, base + rva) == (U64(loaded, base + rva) + base - pe.imageBase) % TWO_64)
      && (forall x: nat | (forall rva: nat | Names(before, rva) :: !(base + rva <= x < base + rva + 8)) ::
            Get(r.mem, x) == Get(loaded, x))
  {
    hide Parse, Loaded, Imported, Rebased, Get, U64, FieldsOf, Names, Relocations, Relocatable, Supported, Known, Before, Apart;
    var loaded, before := Loaded(m, base, b, pe), Before(blocks, i, j);
    var fields := FieldsOf(before);
    RelocatableBad(b, pe, blocks, i, j);
    RebasedOk(loaded, base, base - pe.imageBase, fields);
    forall rva: nat | Names(before, rva)
      ensures exists f :: 0 <= f < |fields| && fields[f] == rva
    {
      FieldsNamed(before, rva);
    }
    forall x: nat | forall rva: nat | Names(before, rva) :: !(base + rva <= x < base + rva + 8)
      ensures Clear(base, fields, x)
    {
      forall f | 0 <= f < |fields|
        ensures !(base + fields[f] <= x < base + fields[f] + 8)
      {
        FieldsNamed(before, fields[f]);
      }
    }
  }

  /** Binding imports fails over imports only. */
  lemma ImportProblem(m: Store, b: seq<Byte>, pe: Pe, base: nat, resolve: Resolver)
    requires |pe.dirs| > 5
    ensures var l := Imported(m, b, pe, base, resolve); l.failed.Some? ==> !l.failed.value.BadReloc?
  {
    hide RvaToOffset, Descs;
    var d := pe.dirs[1];
    if d.rva != 0 && d.size != 0 && RvaToOffset(pe, d.rva).Some? {
      DescsProblem(Linking(m, [], [], None), b, pe, base, RvaToOffset(pe, d.rva).value, resolve);
    }
  }

  lemma {:induction false} ThunksProblem(l: Linking, b: seq<Byte>, pe: Pe, base: nat, dll: seq<Byte>, thunk: nat, iat: nat, index: nat,
                                         resolve: Resolver)
    requires l.failed.None?
    ensures var r := Thunks(l, b, pe, base, dll, thunk, iat, index, resolve); r.failed.Some? ==> !r.failed.value.BadReloc?
    decreases if RvaToOffset(pe, thunk).Some? then 1 + Larger(thunk, Limit(pe)) - thunk else 0
  {
    hide U32At, RvaToOffset, SymbolAt, W64, Limit;
    if RvaToOffset(pe, thunk).Some? && U32At(b, RvaToOffset(pe, thunk).value) != 0 {
      LimitBounds(pe, thunk);
      var s := SymbolAt(b, pe, U32At(b, RvaToOffset(pe, thunk).value));
      var l1 := Bind(Warned(l, dll, index, s), base, iat, index, dll, s, resolve);
      if resolve(dll, s).Some? {
        if RvaToOffset(pe, thunk + 8).Some? { LimitBounds(pe, thunk + 8); }
        ThunksProblem(l1, b, pe, base, dll, thunk + 8, iat, index + 1, resolve);
      }
    }
  }

  lemma {:induction false} DescsProblem(l: Linking, b: seq<Byte>, pe: Pe, base: nat, off: nat, resolve: Resolver)
    requires l.failed.None?
    ensures var r := Descs(l, b, pe, base, off, resolve); r.failed.Some? ==> !r.failed.value.BadReloc?
    decreases Larger(off, |b|) - off
  {
    hide U32At, RvaToOffset, Thunks, CString, Lower;
    if off < |b| {
      var ilt, nameRva, iat := U32At(b, off), U32At(b, off + 12), U32At(b, off + 16);
      if !(ilt == 0 && nameRva == 0 && iat == 0) && RvaToOffset(pe, nameRva).Some? {
        var dll := Lower(CString(b, RvaToOffset(pe, nameRva).value, NAME_WINDOW));
        ThunksProblem(l, b, pe, base, dll, if ilt != 0 then ilt else iat, iat, 0, resolve);
        var l1 := Thunks(l, b, pe, base, dll, if ilt != 0 then ilt else iat, iat, 0, resolve);
        if l1.failed.None? { DescsProblem(l1, b, pe, base, off + 20, resolve); }
      }
    }
  }

  /** So a field in the raw data of a separate section holds the file's number there, moved. */
  lemma RawMoved(m: Store, b: seq<Byte>, pe: Pe, base: nat, resolve: Resolver, blocks: seq<Block>, i: nat, rva: nat)
    requires Parse(b) == Ok(pe) && Relocatable(b, pe, blocks) && Apart(FieldsOf(blocks)) && Names(blocks, rva)
    requires forall i | 0 <= i < |blocks| :: Supported(blocks[i])
    requires Separate(pe.sections) && forall k | 0 <= k < |pe.sections| :: pe.sections[k].rva >= pe.sizeOfHeaders
    requires i < |pe.sections| && pe.sections[i].rva <= rva && rva + 8 <= pe.sections[i].rva + pe.sections[i].rawSize
    requires pe.sections[i].rawPtr + pe.sections[i].rawSize <= |b|
    requires forall x: nat | base + rva <= x < base + rva + 8 :: OffSlots(b, pe, base, x)
    ensures var at := pe.sections[i].rawPtr + (rva - pe.sections[i].rva);
      U64(Map(m, b, base, resolve).mem, base + rva) == (FromLE(b[at..at + 8]) + base - pe.imageBase) % TWO_64
  {
    hide Parse, Loaded, Map, Get, U64, OffSlots, FieldsOf, Names, Relocatable, Apart, Separate, FromLE, TailIn, Supported;
    MapRelocates(m, b, pe, base, resolve, blocks);
    LoadedAny(m, base, b, pe);
    RawWord(Loaded(m, base, b, pe), base, b, pe.sections[i], rva);
  }

  lemma RawWord(m: Store, base: nat, b: seq<Byte>, s: SectionHeader, rva: nat)
    requires RawIn(m, base, b, s) && s.rva <= rva && rva + 8 <= s.rva + s.rawSize && s.rawPtr + s.rawSize <= |b|
    ensures var at := s.rawPtr + (rva - s.rva); U64(m, base + rva) == FromLE(b[at..at + 8])
  {
    hide Get, FromLE;
    var at := s.rawPtr + (rva - s.rva);
    assert RawBytes(b, s) == b[s.rawPtr..s.rawPtr + s.rawSize];
    assert Read(m, base + rva, 8) == b[at..at + 8];
  }
}
