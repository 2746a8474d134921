/** Building, then mapping: what a built image leaves in memory. */
module PeRoundTrip {
  import opened Bytes
  import opened Buffers
  import opened Store
  import opened Wrappers
  import opened ImportBlob
  import opened ImportBlobReader
  import opened PeImage
  import opened PeParse
  import opened PeMap

  // ------------------------------------------------------------- file offsets

  lemma {:induction false} InSectionsAt(ss: seq<SectionHeader>, i: nat, k: nat, rva: nat)
    requires i <= k < |ss| && Covers(ss[k], rva) && rva - ss[k].rva < ss[k].rawSize
    requires forall j | i <= j < k :: !Covers(ss[j], rva)
    ensures InSections(ss, i, rva) == Some(ss[k].rawPtr + (rva - ss[k].rva))
    decreases k - i
  {
    hide Covers;
    if i < k { InSectionsAt(ss, i + 1, k, rva); }
  }

  /** In a built image an RVA inside a section's raw data is at that section's file offset. */
  lemma OffsetAt(p: Plan, entry: nat, k: nat, d: nat)
    requires k < Count(p) && d < RSize(Full(p)[k])
    ensures RvaToOffset(Layout(p, entry), Rva(p, k) + d) == Some(Raw(p, k) + d)
  {
    hide Full, RSize, VSpan, Rva, Raw, Count, InSections, HeadersSize, ImageSize, ImportDir, ExceptionDir;
    var pe := Layout(p, entry);
    var rva := Rva(p, k) + d;
    RvaAligned(p, k);
    SpanFacts(Full(p)[k]);
    forall j | 0 <= j < k
      ensures !Covers(pe.sections[j], rva)
    {
      RvaSteps(p, j, k);
      SpanFacts(Full(p)[j]);
    }
    InSectionsAt(pe.sections, 0, k, rva);
  }

  // ------------------------------------------------------------- linking, in order

  predicate AllFound(dll: seq<Byte>, funcs: seq<seq<Byte>>, j: nat, resolve: Resolver) {
    forall k | j <= k < |funcs| :: resolve(dll, Named(funcs[k])).Some?
  }

  function BindFuncs(l: Linking, base: nat, iat: nat, dll: seq<Byte>, funcs: seq<seq<Byte>>, j: nat, resolve: Resolver): Linking
    requires j <= |funcs|
    decreases |funcs| - j
  {
    if j == |funcs| then l
    else
      var l1 := Bind(l, base, iat, j, dll, Named(funcs[j]), resolve);
      if l1.failed.Some? then l1 else BindFuncs(l1, base, iat, dll, funcs, j + 1, resolve)
  }

  function Listing(dll: seq<Byte>, funcs: seq<seq<Byte>>): seq<(seq<Byte>, Symbol)> {
    seq(|funcs|, k requires 0 <= k < |funcs| => (dll, Named(funcs[k])))
  }

  /** The address slot of function k. */
  function Slot(base: nat, iat: nat, k: nat): nat { base + (iat + k * 8) }

  /** What binding functions from j on does: it fails exactly when one of them is not found;
      otherwise it lists them in order and stores each address in its own slot. Nothing outside
      the slots changes either way. */
  ghost predicate BoundAs(l: Linking, r: Linking, base: nat, iat: nat, dll: seq<Byte>, funcs: seq<seq<Byte>>, j: nat, resolve: Resolver)
    requires j <= |funcs|
  {
    && (r.failed.None? <==> AllFound(dll, funcs, j, resolve))
    && r.warnings == l.warnings
    && (r.failed.None? ==> r.imports == l.imports + Listing(dll, funcs[j..]))
    && (r.failed.None? ==> forall k: nat | j <= k < |funcs| ::
          resolve(dll, Named(funcs[k])).Some? && U64(r.mem, Slot(base, iat, k)) == resolve(dll, Named(funcs[k])).value % TWO_64)
    && (forall x: nat | x < Slot(base, iat, j) || x >= Slot(base, iat, |funcs|) :: Get(r.mem, x) == Get(l.mem, x))
  }

  lemma SlotStep(base: nat, iat: nat, j: nat)
    ensures Slot(base, iat, j + 1) == Slot(base, iat, j) + 8
  {
  }

  lemma SlotLe(base: nat, iat: nat, i: nat, j: nat)
    requires i <= j
    ensures Slot(base, iat, i) <= Slot(base, iat, j)
  {
  }

  lemma {:induction false} BindFuncsOk(l: Linking, base: nat, iat: nat, dll: seq<Byte>, funcs: seq<seq<Byte>>, j: nat, resolve: Resolver)
    requires j <= |funcs| && l.failed.None?
    ensures BoundAs(l, BindFuncs(l, base, iat, dll, funcs, j, resolve), base, iat, dll, funcs, j, resolve)
    decreases |funcs| - j
  {
    hide U64, W64, Get, BoundAs, Slot, Listing;
    if j < |funcs| {
      var l1 := Bind(l, base, iat, j, dll, Named(funcs[j]), resolve);
      if l1.failed.None? {
        BindFuncsOk(l1, base, iat, dll, funcs, j + 1, resolve);
        BindOne(l, base, iat, dll, funcs, j, resolve);
        BoundStep(l, l1, BindFuncs(l1, base, iat, dll, funcs, j + 1, resolve), base, iat, dll, funcs, j, resolve);
      } else {
        BoundNot(l, l1, base, iat, dll, funcs, j, resolve);
      }
    } else {
      BoundNone(l, base, iat, dll, funcs, resolve);
    }
  }

  lemma BoundNone(l: Linking, base: nat, iat: nat, dll: seq<Byte>, funcs: seq<seq<Byte>>, resolve: Resolver)
    requires l.failed.None?
    ensures BoundAs(l, l, base, iat, dll, funcs, |funcs|, resolve)
  {
    hide U64, Get;
    assert Listing(dll, funcs[|funcs|..]) == [];
  }

  lemma BoundNot(l: Linking, l1: Linking, base: nat, iat: nat, dll: seq<Byte>, funcs: seq<seq<Byte>>, j: nat, resolve: Resolver)
    requires j < |funcs| && resolve(dll, Named(funcs[j])).None? && l1.failed.Some? && l1.mem == l.mem && l1.warnings == l.warnings
    ensures BoundAs(l, l1, base, iat, dll, funcs, j, resolve)
  {
    hide U64, Get, Listing, Slot;
  }

  lemma BindOne(l: Linking, base: nat, iat: nat, dll: seq<Byte>, funcs: seq<seq<Byte>>, j: nat, resolve: Resolver)
    requires j < |funcs| && resolve(dll, Named(funcs[j])).Some?
    ensures var m' := W64(l.mem, base + (iat + j * 8), resolve(dll, Named(funcs[j])).value);
      && U64(m', Slot(base, iat, j)) == resolve(dll, Named(funcs[j])).value % TWO_64
      && forall x: nat | x < Slot(base, iat, j) || x >= Slot(base, iat, j) + 8 :: Get(m', x) == Get(l.mem, x)
  {
    hide U64, W64, Get;
    var v := resolve(dll, Named(funcs[j])).value;
    W64U64(l.mem, Slot(base, iat, j), v, Slot(base, iat, j));
    W64Bytes(l.mem, Slot(base, iat, j), v);
  }

  lemma BoundStep(l: Linking, l1: Linking, r: Linking, base: nat, iat: nat, dll: seq<Byte>, funcs: seq<seq<Byte>>, j: nat, resolve: Resolver)
    requires j < |funcs| && resolve(dll, Named(funcs[j])).Some? && BoundAs(l1, r, base, iat, dll, funcs, j + 1, resolve)
    requires l1.warnings == l.warnings && l1.imports == l.imports + [(dll, Named(funcs[j]))]
    requires U64(l1.mem, Slot(base, iat, j)) == resolve(dll, Named(funcs[j])).value % TWO_64
    requires forall x: nat | x < Slot(base, iat, j) || x >= Slot(base, iat, j) + 8 :: Get(l1.mem, x) == Get(l.mem, x)
    ensures BoundAs(l, r, base, iat, dll, funcs, j, resolve)
  {
    hide U64, Get, Slot, Listing;
    SlotStep(base, iat, j);
    SlotLe(base, iat, j + 1, |funcs|);
    U64Same(l1.mem, r.mem, Slot(base, iat, j));
    ListingStep(dll, funcs, j);
    var head := [(dll, Named(funcs[j]))];
    assert l.imports + head + Listing(dll, funcs[j + 1..]) == l.imports + (head + Listing(dll, funcs[j + 1..]));
  }

  lemma ListingStep(dll: seq<Byte>, funcs: seq<seq<Byte>>, j: nat)
    requires j < |funcs|
    ensures Listing(dll, funcs[j..]) == [(dll, Named(funcs[j]))] + Listing(dll, funcs[j + 1..])
  {
  }

  // ---------------------------------------------------------- all the imports

  function IatRva(imps: seq<Import>, rva: nat, i: nat): nat
    requires i <= |imps|
  {
    rva + OffIat(imps) + TableOff(imps, i)
  }

  function BindImports(l: Linking, base: nat, rva: nat, imps: seq<Import>, i: nat, resolve: Resolver): Linking
    requires i <= |imps|
    decreases |imps| - i
  {
    if i == |imps| then l
    else
      var l1 := BindFuncs(l, base, IatRva(imps, rva, i), Lower(imps[i].dll), imps[i].funcs, 0, resolve);
      if l1.failed.Some? then l1 else BindImports(l1, base, rva, imps, i + 1, resolve)
  }

  predicate EveryFound(imps: seq<Import>, i: nat, resolve: Resolver) {
    forall k: nat | i <= k < |imps| :: AllFound(Lower(imps[k].dll), imps[k].funcs, 0, resolve)
  }

  /** DLL and function of every import, in order. */
  function ImportList(imps: seq<Import>): seq<(seq<Byte>, Symbol)> {
    if imps == [] then [] else Listing(Lower(imps[0].dll), imps[0].funcs) + ImportList(imps[1..])
  }

  /** Slot (i, k) holds the address of function k of import i. */
  ghost predicate SlotHolds(m: Store, base: nat, rva: nat, imps: seq<Import>, i: nat, k: nat, resolve: Resolver)
    requires i < |imps| && k < |imps[i].funcs|
  {
    var f := resolve(Lower(imps[i].dll), Named(imps[i].funcs[k]));
    f.Some? && U64(m, Slot(base, IatRva(imps, rva, i), k)) == f.value % TWO_64
  }

  ghost predicate Linked(l: Linking, r: Linking, base: nat, rva: nat, imps: seq<Import>, i: nat, resolve: Resolver)
    requires i <= |imps|
  {
    && (r.failed.None? <==> EveryFound(imps, i, resolve))
    && r.warnings == l.warnings
    && (r.failed.None? ==> r.imports == l.imports + ImportList(imps[i..]))
    && (r.failed.None? ==> forall a: nat, k: nat | i <= a < |imps| && k < |imps[a].funcs| :: SlotHolds(r.mem, base, rva, imps, a, k, resolve))
    && (forall x: nat | x < base + IatRva(imps, rva, i) || x >= base + IatRva(imps, rva, |imps|) :: Get(r.mem, x) == Get(l.mem, x))
  }

  lemma IatStep(imps: seq<Import>, rva: nat, base: nat, i: nat, k: nat)
    requires i < |imps|
    ensures Slot(base, IatRva(imps, rva, i), 0) == base + IatRva(imps, rva, i)
    ensures Slot(base, IatRva(imps, rva, i), |imps[i].funcs|) + 8 == base + IatRva(imps, rva, i + 1)
    ensures k < |imps[i].funcs| ==>
      base + IatRva(imps, rva, i) <= Slot(base, IatRva(imps, rva, i), k)
      && Slot(base, IatRva(imps, rva, i), k) + 8 <= Slot(base, IatRva(imps, rva, i), |imps[i].funcs|)
  {
    hide OffIat;
  }

  lemma IatLe(imps: seq<Import>, rva: nat, i: nat, j: nat)
    requires i <= j <= |imps|
    ensures IatRva(imps, rva, i) <= IatRva(imps, rva, j)
  {
    hide OffIat;
    TableOffLe(imps, i, j);
  }

  /** Binding every import: it fails exactly when some function is not found; otherwise the list
      is complete and in order and every function's address is in its own slot. */
  lemma {:induction false} BindImportsOk(l: Linking, base: nat, rva: nat, imps: seq<Import>, i: nat, resolve: Resolver)
    requires i <= |imps| && l.failed.None?
    ensures Linked(l, BindImports(l, base, rva, imps, i, resolve), base, rva, imps, i, resolve)
    decreases |imps| - i
  {
    hide Linked, BindFuncs, BoundAs, Lower, IatRva;
    if i < |imps| {
      var l1 := BindFuncs(l, base, IatRva(imps, rva, i), Lower(imps[i].dll), imps[i].funcs, 0, resolve);
      BindFuncsOk(l, base, IatRva(imps, rva, i), Lower(imps[i].dll), imps[i].funcs, 0, resolve);
      BoundFails(l, l1, base, IatRva(imps, rva, i), Lower(imps[i].dll), imps[i].funcs, resolve);
      if l1.failed.None? {
        BindImportsOk(l1, base, rva, imps, i + 1, resolve);
        LinkStep(l, l1, BindImports(l1, base, rva, imps, i + 1, resolve), base, rva, imps, i, resolve);
      } else {
        LinkNot(l, l1, base, rva, imps, i, resolve);
      }
    } else {
      LinkNone(l, base, rva, imps, resolve);
    }
  }

  lemma BoundFails(l: Linking, l1: Linking, base: nat, iat: nat, dll: seq<Byte>, funcs: seq<seq<Byte>>, resolve: Resolver)
    requires BoundAs(l, l1, base, iat, dll, funcs, 0, resolve)
    ensures l1.failed.None? <==> AllFound(dll, funcs, 0, resolve)
  {
    hide U64, Get, AllFound;
  }

  lemma LinkNone(l: Linking, base: nat, rva: nat, imps: seq<Import>, resolve: Resolver)
    requires l.failed.None?
    ensures Linked(l, l, base, rva, imps, |imps|, resolve)
  {
    hide Get, SlotHolds, IatRva;
    assert ImportList(imps[|imps|..]) == [];
  }

  lemma LinkNot(l: Linking, l1: Linking, base: nat, rva: nat, imps: seq<Import>, i: nat, resolve: Resolver)
    requires i < |imps| && l1.failed.Some?
    requires BoundAs(l, l1, base, IatRva(imps, rva, i), Lower(imps[i].dll), imps[i].funcs, 0, resolve)
    ensures Linked(l, l1, base, rva, imps, i, resolve)
  {
    hide Get, U64, SlotHolds, Lower, IatRva, Slot, AllFound;
    IatStep(imps, rva, base, i, 0);
    IatLe(imps, rva, i + 1, |imps|);
    assert !AllFound(Lower(imps[i].dll), imps[i].funcs, 0, resolve);
  }

  lemma LinkStep(l: Linking, l1: Linking, r: Linking, base: nat, rva: nat, imps: seq<Import>, i: nat, resolve: Resolver)
    requires i < |imps| && l1.failed.None?
    requires BoundAs(l, l1, base, IatRva(imps, rva, i), Lower(imps[i].dll), imps[i].funcs, 0, resolve)
    requires Linked(l1, r, base, rva, imps, i + 1, resolve)
    ensures Linked(l, r, base, rva, imps, i, resolve)
  {
    hide Get, U64, SlotHolds, Lower, IatRva, Slot, AllFound, Listing;
    IatStep(imps, rva, base, i, 0);
    IatLe(imps, rva, i, i + 1);
    IatLe(imps, rva, i + 1, |imps|);
    FoundStep(imps, i, resolve);
    if r.failed.None? {
      var f := Listing(Lower(imps[i].dll), imps[i].funcs);
      assert imps[i].funcs[0..] == imps[i].funcs;
      assert imps[i..][0] == imps[i] && imps[i..][1..] == imps[i + 1..];
      assert l.imports + f + ImportList(imps[i + 1..]) == l.imports + (f + ImportList(imps[i + 1..]));
      forall k: nat | k < |imps[i].funcs|
        ensures SlotHolds(r.mem, base, rva, imps, i, k, resolve)
      {
        SlotKept(l1, r, base, rva, imps, i, k, resolve);
      }
    }
  }

  lemma FoundStep(imps: seq<Import>, i: nat, resolve: Resolver)
    requires i < |imps|
    ensures EveryFound(imps, i, resolve) <==> AllFound(Lower(imps[i].dll), imps[i].funcs, 0, resolve) && EveryFound(imps, i + 1, resolve)
  {
    hide AllFound, Lower;
  }

  lemma SlotKept(l1: Linking, r: Linking, base: nat, rva: nat, imps: seq<Import>, i: nat, k: nat, resolve: Resolver)
    requires i < |imps| && k < |imps[i].funcs|
    requires resolve(Lower(imps[i].dll), Named(imps[i].funcs[k])).Some?
    requires U64(l1.mem, Slot(base, IatRva(imps, rva, i), k)) == resolve(Lower(imps[i].dll), Named(imps[i].funcs[k])).value % TWO_64
    requires forall x: nat | x < base + IatRva(imps, rva, i + 1) || x >= base + IatRva(imps, rva, |imps|) :: Get(r.mem, x) == Get(l1.mem, x)
    ensures SlotHolds(r.mem, base, rva, imps, i, k, resolve)
  {
    hide Get, U64, IatRva, Slot;
    IatStep(imps, rva, base, i, k);
    U64Same(l1.mem, r.mem, Slot(base, IatRva(imps, rva, i), k));
  }

  // ----------------------------------------------- the mapper on a built image

  /** Names the mapper can read back: printable function names and zero-free DLL names, none
      longer than its 256-byte window. */
  predicate NamesReadable(imps: seq<Import>) {
    forall i | 0 <= i < |imps| ::
      && NoZero(imps[i].dll) && |imps[i].dll| <= NAME_WINDOW
      && forall j | 0 <= j < |imps[i].funcs| :: Printable(imps[i].funcs[j]) && |imps[i].funcs[j]| <= NAME_WINDOW
  }

  /** The blob's place: section index, offset in the file, size. */
  lemma BlobPlace(p: Plan, entry: nat)
    requires Representable(p, entry) && p.imports != []
    ensures |p.sections| < Count(p) && RdataRva(p) == Rva(p, |p.sections|) && RdataRva(p) > 0
    ensures Holds(Image(p, entry), Raw(p, |p.sections|), Blob(p.imports, RdataRva(p)))
    ensures Content(p.imports) <= RSize(Full(p)[|p.sections|])
    ensures RdataRva(p) + Content(p.imports) <= 0x8000_0000
  {
    hide Image, Blob, Flat, TableOff, NameOff, StrsOff, Content, RdataRva, Rva, Raw, Holds;
    var k := |p.sections|;
    RdataPlace(p);
    BlobLen(p.imports, RdataRva(p));
    BodyAt(p, entry, k);
    BlobInRaw(Full(p)[k]);
    HoldsIn(Image(p, entry), Raw(p, k), RawData(Full(p)[k]), 0, Full(p)[k].data);
    RvaSteps(p, k, Count(p));
    RvaAligned(p, k);
    SpanFacts(Full(p)[k]);
  }

  lemma BlobInRaw(s: Section)
    ensures Holds(RawData(s), 0, s.data)
  {
    hide RSize;
    SpanFacts(s);
    HoldsPad(s.data, RSize(s));
  }

  /** An RVA inside the blob is at the same place in the file's copy. */
  lemma BlobOffset(p: Plan, entry: nat, d: nat)
    requires Representable(p, entry) && p.imports != [] && d < Content(p.imports)
    ensures RvaToOffset(Layout(p, entry), RdataRva(p) + d) == Some(Raw(p, |p.sections|) + d)
  {
    hide *;
    BlobPlace(p, entry);
    OffsetAt(p, entry, |p.sections|, d);
  }

  lemma TableRoom(imps: seq<Import>, i: nat, j: nat)
    requires i < |imps| && j <= |imps[i].funcs|
    ensures OffHnt(imps) + TableOff(imps, i) + 8 * j < Content(imps)
    ensures OffHnt(imps) + TableOff(imps, i) + 8 * j <= OffStr(imps)
  {
    hide NameOff, StrsOff;
    TableOffLe(imps, i + 1, |imps|);
  }

  lemma HintIsNamed(p: Plan, entry: nat, i: nat, j: nat)
    requires Representable(p, entry) && NamesReadable(p.imports) && i < |p.imports| && j < |p.imports[i].funcs|
    ensures var hint := HintRva(p.imports, RdataRva(p), i, j);
      0 < hint && SymbolAt(Image(p, entry), Layout(p, entry), hint) == Named(p.imports[i].funcs[j])
  {
    hide Image, Layout, Blob, Holds, Full, Raw, Rva, RSize, RdataRva, CString, RvaToOffset, OffHnt, OffStr, StrsOff,
      StrOff, TableOff, OffIat,
         Representable, Content;
    var imps, rva := p.imports, RdataRva(p);
    BlobPlace(p, entry);
    HintRvaLt(imps, rva, i, j);
    HintBound(imps, rva, i, j);
    FuncReads(Image(p, entry), Raw(p, |p.sections|), imps, rva, i, j);
    BlobOffset(p, entry, HintRva(imps, rva, i, j) - rva);
  }

  lemma HintBound(imps: seq<Import>, rva: nat, i: nat, j: nat)
    requires i < |imps| && j < |imps[i].funcs|
    ensures rva <= HintRva(imps, rva, i, j) < rva + Content(imps) && Content(imps) >= OffIat(imps)
    ensures NoZeroIfPrintable(imps[i].funcs[j])
  {
    hide OffHnt, TableOff, NameOff, StrOff, StrsOff;
    HintRvaLt(imps, rva, i, j);
  }

  predicate NoZeroIfPrintable(s: seq<Byte>) { Printable(s) ==> NoZero(s) }

  /** The thunk walk of import i is the binding of its functions. */
  lemma {:induction false} ThunksBuilt(l: Linking, p: Plan, entry: nat, base: nat, i: nat, j: nat, resolve: Resolver)
    requires Representable(p, entry) && NamesReadable(p.imports) && i < |p.imports| && j <= |p.imports[i].funcs|
    ensures var imps, rva := p.imports, RdataRva(p);
      Thunks(l, Image(p, entry), Layout(p, entry), base, Lower(imps[i].dll), rva + OffHnt(imps) + TableOff(imps, i) + 8 * j,
             IatRva(imps, rva, i), j, resolve)
      == BindFuncs(l, base, IatRva(imps, rva, i), Lower(imps[i].dll), imps[i].funcs, j, resolve)
    decreases |p.imports[i].funcs| - j
  {
    hide Image, Layout, Blob, Holds, Full, Raw, Rva, RSize, RdataRva, RvaToOffset, OffHnt, OffStr, StrsOff, StrOff, TableOff, OffIat,
         Representable, Content, SymbolAt, Bind, HintRva, U32At, NamesReadable, IatRva, Lower;
    var imps, rva := p.imports, RdataRva(p);
    BlobPlace(p, entry);
    TableRoom(imps, i, j);
    BlobOffset(p, entry, OffHnt(imps) + TableOff(imps, i) + 8 * j);
    TableReads(Image(p, entry), Raw(p, |p.sections|), imps, rva, i, j);
    if j < |imps[i].funcs| {
      HintIsNamed(p, entry, i, j);
      var l1 := Bind(l, base, IatRva(imps, rva, i), j, Lower(imps[i].dll), Named(imps[i].funcs[j]), resolve);
      ThunksBuilt(l1, p, entry, base, i, j + 1, resolve);
    }
  }

  lemma DescRoom(imps: seq<Import>, i: nat)
    ensures i <= |imps| ==> 20 * i < Content(imps)
    ensures i < |imps| ==> IdtSize(imps) + NameOff(imps, i) < Content(imps)
    ensures OffHnt(imps) > 0
  {
    hide TableOff, StrsOff;
    if i < |imps| { NameOffLe(imps, i); }
  }

  /** The descriptor walk is the binding of every import. */
  lemma {:induction false} DescsBuilt(l: Linking, p: Plan, entry: nat, base: nat, i: nat, resolve: Resolver)
    requires Representable(p, entry) && NamesReadable(p.imports) && i <= |p.imports| && p.imports != []
    ensures Descs(l, Image(p, entry), Layout(p, entry), base, Raw(p, |p.sections|) + 20 * i, resolve)
      == BindImports(l, base, RdataRva(p), p.imports, i, resolve)
    decreases |p.imports| - i
  {
    hide Image, Layout, Blob, Full, Raw, Rva, RSize, RdataRva, RvaToOffset, OffHnt, OffStr, StrsOff, StrOff, TableOff,
      OffIat, NameOff, IdtSize,
         Representable, Content, SymbolAt, Bind, HintRva, U32At, IatRva, Lower, CString, Thunks, BindFuncs;
    var imps, rva, at := p.imports, RdataRva(p), Raw(p, |p.sections|);
    BlobPlace(p, entry);
    BlobLen(imps, rva);
    DescRoom(imps, i);
    if i < |imps| {
      DescReads(Image(p, entry), at, imps, rva, i);
      BlobOffset(p, entry, IdtSize(imps) + NameOff(imps, i));
      NameReads(Image(p, entry), at, imps, rva, i);
      IatIs(imps, rva, i);
      ThunksBuilt(l, p, entry, base, i, 0, resolve);
      var l1 := BindFuncs(l, base, IatRva(imps, rva, i), Lower(imps[i].dll), imps[i].funcs, 0, resolve);
      if l1.failed.None? { DescsBuilt(l1, p, entry, base, i + 1, resolve); }
    } else {
      DescEnd(Image(p, entry), at, imps, rva);
    }
  }

  lemma IatIs(imps: seq<Import>, rva: nat, i: nat)
    requires i <= |imps|
    ensures IatRva(imps, rva, i) == rva + OffIat(imps) + TableOff(imps, i)
  {
  }

  lemma ImportedBuilt(m: Store, p: Plan, entry: nat, base: nat, resolve: Resolver)
    requires Representable(p, entry) && NamesReadable(p.imports)
    ensures Imported(m, Image(p, entry), Layout(p, entry), base, resolve)
      == BindImports(Linking(m, [], [], None), base, RdataRva(p), p.imports, 0, resolve)
  {
    hide Image, Blob, Full, Raw, Rva, RSize, RdataRva, RvaToOffset, Representable, Content, Descs, BindImports, Layout;
    LayoutDirs(p, entry);
    if p.imports != [] {
      BlobPlace(p, entry);
      DescRoom(p.imports, 0);
      BlobOffset(p, entry, 0);
      DescsBuilt(Linking(m, [], [], None), p, entry, base, 0, resolve);
      assert RdataRva(p) + 0 == RdataRva(p) && Raw(p, |p.sections|) + 20 * 0 == Raw(p, |p.sections|) + 0;
    } else {
      NoImports(Linking(m, [], [], None), base, RdataRva(p), p.imports, resolve);
    }
  }

  lemma LayoutDirs(p: Plan, entry: nat)
    ensures var pe := Layout(p, entry);
      && |pe.dirs| == 16 && pe.dirs[1] == ImportDir(p) && pe.dirs[5] == Dir(0, 0)
      && pe.imageBase == p.imageBase && pe.sizeOfImage == ImageSize(p) && pe.entryRva == entry
  {
    hide HeaderOf, Count, ImportDir, ExceptionDir, ImageSize, HeadersSize;
  }

  lemma NoImports(l: Linking, base: nat, rva: nat, imps: seq<Import>, resolve: Resolver)
    requires imps == []
    ensures BindImports(l, base, rva, imps, 0, resolve) == l
  {
  }

  // ------------------------------------------------------------ loaded memory

  /** x is in none of the first k sections' raw ranges. */
  predicate ClearRaw(p: Plan, base: nat, k: nat, x: nat)
    requires k <= Count(p)
  {
    forall j: nat | j < k :: !(base + Rva(p, j) <= x < base + Rva(p, j) + RSize(Full(p)[j]))
  }

  ghost predicate SectionIn(m: Store, p: Plan, base: nat, k: nat)
    requires k < Count(p)
  {
    forall d: nat | d < RSize(Full(p)[k]) :: Get(m, base + Rva(p, k) + d) == RawData(Full(p)[k])[d]
  }

  ghost predicate SectionsIn(m: Store, p: Plan, base: nat, k: nat)
    requires k <= Count(p)
  {
    forall j: nat | j < k :: SectionIn(m, p, base, j)
  }

  lemma SectionsInStep(m1: Store, m': Store, p: Plan, base: nat, k: nat)
    requires k < Count(p) && SectionsIn(m1, p, base, k) && m' == Put(m1, base + Rva(p, k), RawData(Full(p)[k]))
    ensures SectionsIn(m', p, base, k + 1)
  {
    hide Full, Rva, RSize, RawData, Get, Put, Count, SectionIn;
    CopyOne(m1, m', p, base, k);
    forall j: nat | j < k
      ensures SectionIn(m', p, base, j)
    {
      CopyKeeps(m1, m', p, base, k, j);
    }
  }

  lemma {:induction false} CopiedBuilt(m: Store, p: Plan, entry: nat, base: nat, k: nat)
    requires k <= Count(p)
    ensures var m' := Copied(m, base, Image(p, entry), Layout(p, entry).sections, k);
      && SectionsIn(m', p, base, k)
      && (forall x: nat | ClearRaw(p, base, k, x) :: Get(m', x) == Get(m, x))
    decreases k
  {
    hide Image, Full, Raw, Rva, RSize, RawData, Get, Put, Count, ClearRaw, ImageSize, HeadersSize, ImportDir,
      ExceptionDir, SectionIn, Sub, SectionsIn;
    NoSections(m, p, base);
    if k > 0 {
      CopiedBuilt(m, p, entry, base, k - 1);
      var ss := Layout(p, entry).sections;
      var m1 := Copied(m, base, Image(p, entry), ss, k - 1);
      var data := RawData(Full(p)[k - 1]);
      BodyAt(p, entry, k - 1);
      SubHolds(Image(p, entry), Raw(p, k - 1), data);
      SpanFacts(Full(p)[k - 1]);
      var m' := Put(m1, base + Rva(p, k - 1), data);
      assert Copied(m, base, Image(p, entry), ss, k) == m';
      CopyOne(m1, m', p, base, k - 1);
      SectionsInStep(m1, m', p, base, k - 1);
      forall x: nat | ClearRaw(p, base, k, x)
        ensures Get(m', x) == Get(m, x)
      {
        ClearRawStep(p, base, k, x);
      }
    }
  }

  lemma NoSections(m: Store, p: Plan, base: nat)
    ensures SectionsIn(m, p, base, 0)
  {
  }

  lemma CopyOne(m1: Store, m': Store, p: Plan, base: nat, k: nat)
    requires k < Count(p) && m' == Put(m1, base + Rva(p, k), RawData(Full(p)[k]))
    ensures SectionIn(m', p, base, k)
    ensures forall x: nat | !(base + Rva(p, k) <= x < base + Rva(p, k) + RSize(Full(p)[k])) :: Get(m', x) == Get(m1, x)
  {
    hide Full, Rva, RSize, RawData, Get, Put, Touched, Count;
    PutGet(m1, base + Rva(p, k), RawData(Full(p)[k]));
  }

  lemma CopyKeeps(m1: Store, m': Store, p: Plan, base: nat, k: nat, j: nat)
    requires j < k < Count(p) && SectionIn(m1, p, base, j)
    requires forall x: nat | !(base + Rva(p, k) <= x < base + Rva(p, k) + RSize(Full(p)[k])) :: Get(m', x) == Get(m1, x)
    ensures SectionIn(m', p, base, j)
  {
    hide Full, Rva, RSize, VSpan, RawData, Get, Count;
    RvaSteps(p, j, k);
    SpanFacts(Full(p)[j]);
  }

  lemma ClearRawStep(p: Plan, base: nat, k: nat, x: nat)
    requires 0 < k <= Count(p) && ClearRaw(p, base, k, x)
    ensures ClearRaw(p, base, k - 1, x) && !(base + Rva(p, k - 1) <= x < base + Rva(p, k - 1) + RSize(Full(p)[k - 1]))
  {
    hide Full, Rva, RSize, Count;
  }

  /** A built section has no virtual tail beyond its raw data. */
  lemma {:induction false} FilledBuilt(m: Store, p: Plan, entry: nat, base: nat, k: nat)
    requires k <= Count(p)
    ensures Filled(m, base, Layout(p, entry).sections, k) == m
    decreases k
  {
    hide Full, Raw, Rva, RSize, Count, ImageSize, HeadersSize, ImportDir, ExceptionDir, Put;
    if k > 0 {
      FilledBuilt(m, p, entry, base, k - 1);
      SpanFacts(Full(p)[k - 1]);
    }
  }

  ghost predicate HeadersIn(m: Store, p: Plan, entry: nat, base: nat) {
    HeadersSize(Count(p)) <= |Image(p, entry)|
    && forall d: nat | d < HeadersSize(Count(p)) :: Get(m, base + d) == Image(p, entry)[d]
  }

  lemma HeadersShort(p: Plan, entry: nat)
    ensures 0 < HeadersSize(Count(p)) <= |Image(p, entry)| && HeadersSize(Count(p)) <= ImageSize(p)
  {
    hide Image, Count, Full, VSpan, RSize;
    ImageLen(p, entry);
    RvaAligned(p, Count(p));
    if Count(p) > 0 { RvaSteps(p, 0, Count(p)); }
  }

  lemma LoadedBuilt(m: Store, p: Plan, entry: nat, base: nat)
    ensures var m' := Loaded(m, base, Image(p, entry), Layout(p, entry));
      && HeadersIn(m', p, entry, base)
      && SectionsIn(m', p, base, Count(p))
      && (forall x: nat | x < base || x >= base + ImageSize(p) :: Get(m', x) == Get(m, x))
  {
    hide Image, Full, Raw, Rva, RSize, Get, Put, Count, ImageSize, HeadersSize, ImportDir, ExceptionDir, SectionIn,
      SectionsIn, Sub, Copied, Filled, HeadersIn,
         ClearRaw, HeaderOf;
    var n := Count(p);
    var pe := Layout(p, entry);
    var m1 := Copied(m, base, Image(p, entry), pe.sections, n);
    CopiedBuilt(m, p, entry, base, n);
    FilledBuilt(m1, p, entry, base, n);
    HeadersShort(p, entry);
    var head := Sub(Image(p, entry), 0, HeadersSize(n));
    var m' := Put(m1, base, head);
    assert Loaded(m, base, Image(p, entry), pe) == m';
    HeaderPut(m1, m', p, entry, base);
    HeaderKeeps(m1, m', p, base);
    forall x: nat | x < base || x >= base + ImageSize(p)
      ensures Get(m', x) == Get(m, x)
    {
      OutsideClear(p, base, x);
    }
  }

  lemma HeaderPut(m1: Store, m': Store, p: Plan, entry: nat, base: nat)
    requires m' == Put(m1, base, Sub(Image(p, entry), 0, HeadersSize(Count(p))))
    ensures HeadersIn(m', p, entry, base)
    ensures forall x: nat | x < base || x >= base + HeadersSize(Count(p)) :: Get(m', x) == Get(m1, x)
  {
    hide Image, Get, Put, Touched, Count, HeadersSize;
    HeadersShort(p, entry);
    PutGet(m1, base, Sub(Image(p, entry), 0, HeadersSize(Count(p))));
  }

  lemma HeaderKeeps(m1: Store, m': Store, p: Plan, base: nat)
    requires SectionsIn(m1, p, base, Count(p))
    requires forall x: nat | x < base || x >= base + HeadersSize(Count(p)) :: Get(m', x) == Get(m1, x)
    ensures SectionsIn(m', p, base, Count(p))
  {
    hide Full, Rva, RSize, RawData, Get, Count, HeadersSize;
    forall k: nat | k < Count(p)
      ensures SectionIn(m', p, base, k)
    {
      assert SectionIn(m1, p, base, k);
      RvaAligned(p, k);
    }
  }

  lemma OutsideClear(p: Plan, base: nat, x: nat)
    requires x < base || x >= base + ImageSize(p)
    ensures ClearRaw(p, base, Count(p), x)
    ensures x < base || x >= base + HeadersSize(Count(p))
  {
    hide Full, Rva, RSize, VSpan, Count, HeadersSize;
    HeadersShort(p, 0);
    forall j: nat | j < Count(p)
      ensures !(base + Rva(p, j) <= x < base + Rva(p, j) + RSize(Full(p)[j]))
    {
      RvaSteps(p, j, Count(p));
      SpanFacts(Full(p)[j]);
    }
    ImageSizeIs(p);
  }

  lemma ImageSizeIs(p: Plan)
    ensures ImageSize(p) == Rva(p, Count(p))
  {
  }

  /** The mapped image, byte by byte: headers and every section's raw data at base plus RVA, each
      import's address in its own slot, everything outside the image as before. */
  ghost predicate Laid(m: Store, m': Store, p: Plan, entry: nat, base: nat, resolve: Resolver) {
    && HeadersIn(m', p, entry, base)
    && (forall k: nat | k < |p.sections| :: SectionIn(m', p, base, k))
    && (p.imports != [] ==> BlobIn(m', p, base))
    && (forall i: nat, k: nat | i < |p.imports| && k < |p.imports[i].funcs| :: SlotHolds(m', base, RdataRva(p), p.imports, i, k, resolve))
    && (forall x: nat | x < base || x >= base + ImageSize(p) :: Get(m', x) == Get(m, x))
  }

  /** The blob's bytes, its address tables apart. */
  ghost predicate BlobIn(m: Store, p: Plan, base: nat)
    requires p.imports != []
  {
    var s := Full(p)[|p.sections|];
    forall d: nat | d < RSize(s) && !(OffIat(p.imports) <= d < Content(p.imports)) ::
      Get(m, base + RdataRva(p) + d) == RawData(s)[d]
  }

  /** Linking changes only the address tables, which lie inside the blob. */
  lemma LinkedLaid(m: Store, m1: Store, r: Linking, p: Plan, entry: nat, base: nat, resolve: Resolver)
    requires Representable(p, entry) && r.failed.None?
    requires HeadersIn(m1, p, entry, base) && SectionsIn(m1, p, base, Count(p))
    requires forall x: nat | x < base || x >= base + ImageSize(p) :: Get(m1, x) == Get(m, x)
    requires Linked(Linking(m1, [], [], None), r, base, RdataRva(p), p.imports, 0, resolve)
    ensures Laid(m, r.mem, p, entry, base, resolve)
  {
    hide Image, Full, Rva, RSize, RawData, Get, Count, ImageSize, HeadersSize, SlotHolds, IatRva, OffIat, Content, RdataRva, Representable,
         SectionIn, HeadersIn, BlobIn, SectionsIn;
    var m' := r.mem;
    TablesPlace(p, entry);
    IatEnds(p.imports, RdataRva(p));
    assert forall i: nat, k: nat | i < |p.imports| && k < |p.imports[i].funcs| :: SlotHolds(m', base, RdataRva(p), p.imports, i, k, resolve);
    HeadersKept(m1, m', p, entry, base);
    SectionsKept(m1, m', p, base);
    if p.imports != [] {
      BlobPlace(p, entry);
      BlobKept(m1, m', p, base);
    }
  }

  /** The address tables lie after the headers and all given sections, inside the image. */
  lemma TablesPlace(p: Plan, entry: nat)
    requires Representable(p, entry)
    ensures p.imports != [] ==>
      && HeadersSize(Count(p)) <= RdataRva(p) && RdataRva(p) + Content(p.imports) <= ImageSize(p)
      && (forall k: nat | k < |p.sections| :: Rva(p, k) + RSize(Full(p)[k]) <= RdataRva(p))
  {
    hide Image, Full, Rva, RSize, VSpan, ImageSize, HeadersSize, Content, RdataRva, Representable;
    if p.imports != [] {
      var n := |p.sections|;
      BlobPlace(p, entry);
      RvaAligned(p, n);
      RvaSteps(p, n, Count(p));
      SpanFacts(Full(p)[n]);
      ImageSizeIs(p);
      forall k: nat | k < n
        ensures Rva(p, k) + RSize(Full(p)[k]) <= RdataRva(p)
      {
        RvaSteps(p, k, n);
        SpanFacts(Full(p)[k]);
      }
    }
  }

  lemma IatEnds(imps: seq<Import>, rva: nat)
    ensures IatRva(imps, rva, 0) == rva + OffIat(imps) && IatRva(imps, rva, |imps|) == rva + Content(imps)
    ensures imps == [] ==> IatRva(imps, rva, 0) == IatRva(imps, rva, |imps|)
  {
    hide OffStr, OffHnt, StrsOff;
  }

  /** Outside the address tables. */
  ghost predicate KeptBut(m1: Store, m': Store, p: Plan, base: nat) {
    if p.imports == [] then forall x: nat :: Get(m', x) == Get(m1, x)
    else forall x: nat | x < base + RdataRva(p) + OffIat(p.imports) || x >= base + RdataRva(p) + Content(p.imports) :: Get(m', x) == Get(m1, x)
  }

  lemma HeadersKept(m1: Store, m': Store, p: Plan, entry: nat, base: nat)
    requires HeadersIn(m1, p, entry, base) && KeptBut(m1, m', p, base)
    requires p.imports != [] ==> HeadersSize(Count(p)) <= RdataRva(p)
    ensures HeadersIn(m', p, entry, base)
  {
    hide Image, Get, Count, HeadersSize, OffIat, Content, RdataRva;
  }

  lemma SectionsKept(m1: Store, m': Store, p: Plan, base: nat)
    requires SectionsIn(m1, p, base, Count(p)) && KeptBut(m1, m', p, base)
    requires p.imports != [] ==> forall k: nat | k < |p.sections| :: Rva(p, k) + RSize(Full(p)[k]) <= RdataRva(p)
    ensures forall k: nat | k < |p.sections| :: SectionIn(m', p, base, k)
  {
    hide Full, Rva, RSize, RawData, Get, OffIat, Content, RdataRva;
    forall k: nat | k < |p.sections|
      ensures SectionIn(m', p, base, k)
    {
      assert SectionIn(m1, p, base, k);
    }
  }

  lemma BlobKept(m1: Store, m': Store, p: Plan, base: nat)
    requires p.imports != [] && SectionsIn(m1, p, base, Count(p)) && KeptBut(m1, m', p, base)
    requires RdataRva(p) == Rva(p, |p.sections|)
    ensures BlobIn(m', p, base)
  {
    hide Full, Rva, RSize, RawData, Get, OffIat, Content, RdataRva;
    assert SectionIn(m1, p, base, |p.sections|);
  }

  /** Mapping a built image succeeds exactly when the resolver knows every import. It then
      reports the image's size and entry point and every import in order, and memory holds the
      headers, every section's bytes and each import's address in its own slot. */
  lemma MapBuilt(m: Store, p: Plan, entry: nat, base: nat, resolve: Resolver)
    requires Representable(p, entry) && NamesReadable(p.imports)
    ensures var r := Map(m, Image(p, entry), base, resolve);
      && (r.Mapped? <==> EveryFound(p.imports, 0, resolve))
      && (r.Mapped? ==>
            && r == Mapped(r.mem, base, ImageSize(p), base + entry, ImportList(p.imports), 0, [])
            && Laid(m, r.mem, p, entry, base, resolve))
  {
    hide Image, Layout, Loaded, Imported, Linked, Laid, EveryFound, ImageSize, ImportList, HeadersIn, SectionsIn,
      Representable, NamesReadable,
         BindImports, RdataRva, Get, Count;
    ParseBuilt(p, entry);
    LayoutDirs(p, entry);
    var m1 := Loaded(m, base, Image(p, entry), Layout(p, entry));
    LoadedBuilt(m, p, entry, base);
    ImportedBuilt(m1, p, entry, base, resolve);
    var l := BindImports(Linking(m1, [], [], None), base, RdataRva(p), p.imports, 0, resolve);
    BindImportsOk(Linking(m1, [], [], None), base, RdataRva(p), p.imports, 0, resolve);
    LinkedOutcome(Linking(m1, [], [], None), l, base, RdataRva(p), p.imports, resolve);
    if l.failed.None? { LinkedLaid(m, m1, l, p, entry, base, resolve); }
  }

  lemma LinkedOutcome(l: Linking, r: Linking, base: nat, rva: nat, imps: seq<Import>, resolve: Resolver)
    requires Linked(l, r, base, rva, imps, 0, resolve) && l.imports == []
    ensures (r.failed.None? <==> EveryFound(imps, 0, resolve)) && r.warnings == l.warnings
    ensures r.failed.None? ==> r.imports == ImportList(imps)
  {
    hide Get, SlotHolds, IatRva, EveryFound, ImportList;
    assert imps[0..] == imps;
    assert [] + ImportList(imps) == ImportList(imps);
  }
}
