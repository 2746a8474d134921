/** Manual mapping of a PE32+ file into a sparse memory. */
module PeMap {
  import opened Bytes
  import opened Buffers
  import opened Store
  import opened Wrappers
  import opened PeImage
  import opened PeParse

  // ----------------------------------------------------------- address lookup

  predicate Covers(s: SectionHeader, rva: nat) {
    s.rva <= rva < s.rva + (if s.virtualSize > s.rawSize then s.virtualSize else s.rawSize)
  }

  /** The first section from i that covers rva decides. */
  function InSections(ss: seq<SectionHeader>, i: nat, rva: nat): Option<nat>
    requires i <= |ss|
    decreases |ss| - i
  {
    if i == |ss| then None
    else if Covers(ss[i], rva) then
      if rva - ss[i].rva < ss[i].rawSize then Some(ss[i].rawPtr + (rva - ss[i].rva)) else None
    else InSections(ss, i + 1, rva)
  }

  function RvaToOffset(pe: Pe, rva: nat): Option<nat> {
    if rva < pe.sizeOfHeaders then Some(rva) else InSections(pe.sections, 0, rva)
  }

  /** rva lies in the section, as loaded or as held in the file. */
  predicate Reaches(s: SectionHeader, rva: nat) {
    s.rva <= rva && (rva < s.rva + s.virtualSize || rva < s.rva + s.rawSize)
  }

  /** The file offset of an rva: itself below the headers' size; otherwise its place in the raw data of the
      first section that reaches it, if it lies there. */
  lemma OffsetIff(pe: Pe, rva: nat, off: nat)
    ensures RvaToOffset(pe, rva) == Some(off) <==>
      || (rva < pe.sizeOfHeaders && off == rva)
      || (rva >= pe.sizeOfHeaders && exists k: nat | k < |pe.sections| && Reaches(pe.sections[k], rva) ::
            (forall j | 0 <= j < k :: !Reaches(pe.sections[j], rva)) && rva < pe.sections[k].rva + pe.sections[k].rawSize
            && off == pe.sections[k].rawPtr + rva - pe.sections[k].rva)
  {
    var k := FirstReached(pe.sections, 0, rva);
  }

  lemma {:induction false} FirstReached(ss: seq<SectionHeader>, i: nat, rva: nat) returns (k: nat)
    requires i <= |ss|
    ensures i <= k <= |ss| && (forall j | i <= j < k :: !Reaches(ss[j], rva)) && (k < |ss| ==> Reaches(ss[k], rva))
    ensures InSections(ss, i, rva)
      == if k < |ss| && rva < ss[k].rva + ss[k].rawSize then Some(ss[k].rawPtr + rva - ss[k].rva) else None
    decreases |ss| - i
  {
    if i == |ss| || Covers(ss[i], rva) { k := i; } else { k := FirstReached(ss, i + 1, rva); }
  }

  function Larger(a: nat, b: nat): (c: nat)
    ensures a <= c && b <= c
  {
    if a > b then a else b
  }

  function SectionsEnd(ss: seq<SectionHeader>, i: nat): nat
    requires i <= |ss|
    decreases |ss| - i
  {
    if i == |ss| then 0 else Larger(ss[i].rva + ss[i].rawSize, SectionsEnd(ss, i + 1))
  }

  /** No RVA from here on has a file offset. */
  function Limit(pe: Pe): nat { Larger(pe.sizeOfHeaders, SectionsEnd(pe.sections, 0)) }

  lemma {:induction false} SectionsEndBounds(ss: seq<SectionHeader>, i: nat, rva: nat)
    requires i <= |ss| && InSections(ss, i, rva).Some?
    ensures rva < SectionsEnd(ss, i)
    decreases |ss| - i
  {
    if !Covers(ss[i], rva) { SectionsEndBounds(ss, i + 1, rva); }
  }

  lemma LimitBounds(pe: Pe, rva: nat)
    requires RvaToOffset(pe, rva).Some?
    ensures rva < Limit(pe)
  {
    if rva >= pe.sizeOfHeaders { SectionsEndBounds(pe.sections, 0, rva); }
  }

  method FindOffset(pe: Pe, rva: nat) returns (r: Option<nat>)
    ensures r == RvaToOffset(pe, rva)
  {
    if rva < pe.sizeOfHeaders { return Some(rva); }
    for i := 0 to |pe.sections|
      invariant InSections(pe.sections, i, rva) == InSections(pe.sections, 0, rva)
    {
      var s := pe.sections[i];
      if Covers(s, rva) {
        var delta := rva - s.rva;
        if delta < s.rawSize { return Some(s.rawPtr + delta); }
        break;
      }
    }
    return None;
  }

  // ------------------------------------------------------------------ loading

  /** Raw data of the first k sections copied to their RVAs. */
  function Copied(m: Store, base: nat, b: seq<Byte>, ss: seq<SectionHeader>, k: nat): Store
    requires k <= |ss|
  {
    if k == 0 then m
    else
      var m1 := Copied(m, base, b, ss, k - 1);
      var s := ss[k - 1];
      if s.rawSize == 0 then m1 else Put(m1, base + s.rva, Sub(b, s.rawPtr, s.rawPtr + s.rawSize))
  }

  /** Zeros where a section's virtual size exceeds its raw size. */
  function Filled(m: Store, base: nat, ss: seq<SectionHeader>, k: nat): Store
    requires k <= |ss|
  {
    if k == 0 then m
    else
      var m1 := Filled(m, base, ss, k - 1);
      var s := ss[k - 1];
      if s.virtualSize > s.rawSize then Put(m1, base + s.rva + s.rawSize, Zeros(s.virtualSize - s.rawSize)) else m1
  }

  function Loaded(m: Store, base: nat, b: seq<Byte>, pe: Pe): Store {
    var n := |pe.sections|;
    var m1 := Filled(Copied(m, base, b, pe.sections, n), base, pe.sections, n);
    if pe.sizeOfHeaders > 0 then Put(m1, base, Sub(b, 0, pe.sizeOfHeaders)) else m1
  }

  // -------------------------------------------------------------- relocations

  /** How many entries the source's loop visits: it compares with a fraction when the block
      size is odd. */
  function EntryCount(blockSize: nat): nat { if blockSize <= 8 then 0 else (blockSize - 7) / 2 }

  /** The loop's own bound: entry i is visited when i is below half of what follows the block's header. */
  lemma EntryVisited(blockSize: nat, i: nat)
    ensures i < EntryCount(blockSize) <==> 2 * i + 8 < blockSize
  {
  }

  /** The field RVAs entries i..n of a block name, up to the first unsupported type. */
  function BlockFields(b: seq<Byte>, at: nat, pageRva: nat, i: nat, n: nat): (seq<nat>, Option<nat>)
    requires i <= n
    decreases n - i
  {
    if i == n then ([], None)
    else
      var ent := U16At(b, at + i * 2);
      var kind, pos := ent / 4096, ent % 4096;
      if kind != 0 && kind != 10 && kind != 9 then ([], Some(kind))
      else
        var (rest, bad) := BlockFields(b, at, pageRva, i + 1, n);
        (if kind == 0 then rest else [pageRva + pos] + rest, bad)
  }

  /** Type and page offset of an entry. */
  predicate EntryIs(b: seq<Byte>, at: nat, i: nat, kind: nat, pos: nat) {
    pos < 4096 && U16At(b, at + i * 2) == kind * 4096 + pos
  }

  /** A block names a field for each entry of type 9 or 10 in order, up to the first entry of a type other
      than those and 0, which it reports. */
  lemma {:induction false} BlockIs(b: seq<Byte>, at: nat, pageRva: nat, i: nat, n: nat, kind: nat, pos: nat)
    requires i < n && EntryIs(b, at, i, kind, pos)
    ensures var (fields, bad) := BlockFields(b, at, pageRva, i, n); var rest := BlockFields(b, at, pageRva, i + 1, n);
      if kind == 0 then (fields, bad) == rest
      else if kind == 9 || kind == 10 then fields == [pageRva + pos] + rest.0 && bad == rest.1
      else fields == [] && bad == Some(kind)
  {
    ModUnique(U16At(b, at + i * 2), 4096, kind, pos);
  }

  /** The page RVA of a block. A directory outside the raw data makes the first offset null:
      its byte 0 then reads as zero, and the walk goes on from offset 0. */
  function PageRvaAt(b: seq<Byte>, off: nat, fromNull: bool): nat {
    if fromNull then U32At(b, off) / 256 * 256 else U32At(b, off)
  }

  function RelocFields(b: seq<Byte>, off: nat, end: nat, fromNull: bool): (seq<nat>, Option<nat>)
    decreases end - off
  {
    if off >= end || U32At(b, off + 4) == 0 then ([], None)
    else
      var size := U32At(b, off + 4);
      var (fields, bad) := BlockFields(b, off + 8, PageRvaAt(b, off, fromNull), 0, EntryCount(size));
      if bad.Some? then (fields, bad)
      else
        var (rest, bad') := RelocFields(b, off + size, end, false);
        (fields + rest, bad')
  }

  /** Each field moved by delta, in order. */
  function Rebased(m: Store, base: nat, delta: int, fields: seq<nat>): Store
    decreases |fields|
  {
    if fields == [] then m
    else
      var n := |fields| - 1;
      var m1 := Rebased(m, base, delta, fields[..n]);
      W64(m1, base + fields[n], U64(m1, base + fields[n]) + delta)
  }

  predicate Clear(base: nat, fields: seq<nat>, x: int) {
    forall i | 0 <= i < |fields| :: !(base + fields[i] <= x < base + fields[i] + 8)
  }

  predicate Apart(fields: seq<nat>) {
    forall i, j | 0 <= i < j < |fields| :: fields[i] + 8 <= fields[j] || fields[j] + 8 <= fields[i]
  }

  /** Relocating fields that do not overlap moves each by base - imageBase, modulo 2^64, and
      changes nothing else. */
  lemma {:induction false} RebasedOk(m: Store, base: nat, delta: int, fields: seq<nat>)
    requires Apart(fields)
    ensures var m' := Rebased(m, base, delta, fields);
      && (forall i | 0 <= i < |fields| :: U64(m', base + fields[i]) == (U64(m, base + fields[i]) + delta) % TWO_64)
      && (forall x: nat | Clear(base, fields, x) :: Get(m', x) == Get(m, x))
    decreases |fields|
  {
    hide U64, W64, Get, Clear;
    if fields != [] {
      var n := |fields| - 1;
      var m1 := Rebased(m, base, delta, fields[..n]);
      RebasedOk(m, base, delta, fields[..n]);
      forall x: nat | base + fields[n] <= x < base + fields[n] + 8
        ensures Get(m1, x) == Get(m, x)
      {
        ClearOfLast(base, fields, x);
      }
      U64Same(m, m1, base + fields[n]);
      var v := U64(m1, base + fields[n]) + delta;
      W64U64(m1, base + fields[n], v, base + fields[n]);
      W64Bytes(m1, base + fields[n], v);
      forall i | 0 <= i < n
        ensures U64(W64(m1, base + fields[n], v), base + fields[i]) == (U64(m, base + fields[i]) + delta) % TWO_64
      {
        W64U64(m1, base + fields[n], v, base + fields[i]);
        assert fields[..n][i] == fields[i];
      }
      forall x: nat | Clear(base, fields, x)
        ensures Get(W64(m1, base + fields[n], v), x) == Get(m, x)
      {
        ClearStep(base, fields, x);
      }
    }
  }

  lemma ClearOfLast(base: nat, fields: seq<nat>, x: nat)
    requires fields != [] && Apart(fields)
    requires var n := |fields| - 1; base + fields[n] <= x < base + fields[n] + 8
    ensures Clear(base, fields[..|fields| - 1], x)
  {
  }

  lemma ClearStep(base: nat, fields: seq<nat>, x: nat)
    requires fields != [] && Clear(base, fields, x)
    ensures Clear(base, fields[..|fields| - 1], x)
    ensures var n := |fields| - 1; !(base + fields[n] <= x < base + fields[n] + 8)
  {
  }

  // ------------------------------------------------------------------- imports

  /** What a thunk asks for. */
  datatype Symbol = Named(name: seq<Byte>) | Ordinal(n: nat) | Bound(hint: nat)

  datatype MapProblem =
    | BadFile(problem: Problem)
    | TooFewDirs
    | BadReloc(kind: nat)
    | NoImportDir(rva: nat)
    | NoDllName(rva: nat)
    | Unresolved(dll: seq<Byte>, symbol: Symbol)

  datatype Linking = Linking(mem: Store, imports: seq<(seq<Byte>, Symbol)>, warnings: seq<(seq<Byte>, nat, nat)>, failed: Option<MapProblem>)

  /** The address a resolver gives for a DLL's symbol, if it has one. */
  type Resolver = (seq<Byte>, Symbol) -> Option<nat>

  predicate Printable(s: seq<Byte>) { s != [] && forall i | 0 <= i < |s| :: 0x20 <= s[i] <= 0x7e }

  /** toLowerCase on one-byte characters. */
  function LowerByte(c: Byte): Byte {
    if (0x41 <= c <= 0x5a) || (0xc0 <= c <= 0xde && c != 0xd7) then c + 32 else c
  }

  function Lower(s: seq<Byte>): (r: seq<Byte>)
    ensures |r| == |s|
  {
    seq(|s|, i requires 0 <= i < |s| => LowerByte(s[i]))
  }

  const NAME_WINDOW: nat := 256

  function SymbolAt(b: seq<Byte>, pe: Pe, hint: nat): Symbol {
    if hint >= 0x8000_0000 then Ordinal(hint % 0x1_0000)
    else
      match RvaToOffset(pe, hint)
      case None => Bound(hint)
      case Some(off) =>
        var name := CString(b, off + 2, NAME_WINDOW);
        if Printable(name) then Named(name) else Bound(hint)
  }

  function Warned(l: Linking, dll: seq<Byte>, index: nat, s: Symbol): Linking {
    if s.Bound? then l.(warnings := l.warnings + [(dll, index, s.hint)]) else l
  }

  /** One thunk: resolve, patch its address slot, list it. */
  function Bind(l: Linking, base: nat, iat: nat, index: nat, dll: seq<Byte>, s: Symbol, resolve: Resolver): Linking {
    match resolve(dll, s)
    case None => l.(failed := Some(Unresolved(dll, s)))
    case Some(v) => l.(mem := W64(l.mem, base + (iat + index * 8), v), imports := l.imports + [(dll, s)])
  }

  function Thunks(l: Linking, b: seq<Byte>, pe: Pe, base: nat, dll: seq<Byte>, thunk: nat, iat: nat, index: nat, resolve: Resolver): Linking
    decreases if RvaToOffset(pe, thunk).Some? then 1 + Larger(thunk, Limit(pe)) - thunk else 0
  {
    match RvaToOffset(pe, thunk)
    case None => l
    case Some(off) =>
      LimitBounds(pe, thunk);
      var hint := U32At(b, off);
      if hint == 0 then l
      else
        var s := SymbolAt(b, pe, hint);
        var l1 := Bind(Warned(l, dll, index, s), base, iat, index, dll, s, resolve);
        if l1.failed.Some? then l1
        else
          assert RvaToOffset(pe, thunk + 8).Some? ==> thunk + 8 < Limit(pe) by {
            if RvaToOffset(pe, thunk + 8).Some? { LimitBounds(pe, thunk + 8); }
          }
          Thunks(l1, b, pe, base, dll, thunk + 8, iat, index + 1, resolve)
  }

  /** The descriptors from descOff to the null one. Past the end of the file every byte reads as
      zero, so there always is a null one. */
  function Descs(l: Linking, b: seq<Byte>, pe: Pe, base: nat, descOff: nat, resolve: Resolver): Linking
    decreases Larger(descOff, |b|) - descOff
  {
    if descOff >= |b| then l
    else
      var ilt, nameRva, iat := U32At(b, descOff), U32At(b, descOff + 12), U32At(b, descOff + 16);
      if ilt == 0 && nameRva == 0 && iat == 0 then l
      else
        match RvaToOffset(pe, nameRva)
        case None => l.(failed := Some(NoDllName(nameRva)))
        case Some(off) =>
          var dll := Lower(CString(b, off, NAME_WINDOW));
          var l1 := Thunks(l, b, pe, base, dll, if ilt != 0 then ilt else iat, iat, 0, resolve);
          if l1.failed.Some? then l1 else Descs(l1, b, pe, base, descOff + 20, resolve)
  }

  function Imported(m: Store, b: seq<Byte>, pe: Pe, base: nat, resolve: Resolver): Linking
    requires |pe.dirs| > 5
  {
    var d := pe.dirs[1];
    var l := Linking(m, [], [], None);
    if d.rva == 0 || d.size == 0 then l
    else
      match RvaToOffset(pe, d.rva)
      case None => l.(failed := Some(NoImportDir(d.rva)))
      case Some(off) => Descs(l, b, pe, base, off, resolve)
  }

  // --------------------------------------------------------------------- mapPe

  datatype Mapped =
    | Mapped(mem: Store, base: nat, imageSize: nat, entry: nat, imports: seq<(seq<Byte>, Symbol)>, relocated: nat,
             warnings: seq<(seq<Byte>, nat, nat)>)
    | Refused(mem: Store, problem: MapProblem)

  function Relocations(b: seq<Byte>, pe: Pe): (seq<nat>, Option<nat>)
    requires |pe.dirs| > 5
  {
    var d := pe.dirs[5];
    if d.rva == 0 || d.size == 0 then ([], None)
    else
      match RvaToOffset(pe, d.rva)
      case None => RelocFields(b, 0, d.size, true)
      case Some(off) => RelocFields(b, off, off + d.size, false)
  }

  /** mapPe, with the memory it leaves even when it gives up part-way. */
  function Map(m: Store, b: seq<Byte>, base: nat, resolve: Resolver): Mapped {
    match Parse(b)
    case Err(problem) => Refused(m, BadFile(problem))
    case Ok(pe) =>
      var m1 := Loaded(m, base, b, pe);
      if |pe.dirs| <= 5 then Refused(m1, TooFewDirs)
      else
        var (fields, bad) := Relocations(b, pe);
        var m2 := Rebased(m1, base, base - pe.imageBase, fields);
        if bad.Some? then Refused(m2, BadReloc(bad.value))
        else
          var l := Imported(m2, b, pe, base, resolve);
          if l.failed.Some? then Refused(l.mem, l.failed.value)
          else Mapped(l.mem, base, pe.sizeOfImage, base + pe.entryRva, l.imports, |fields|, l.warnings)
  }
}
