/** Binding the imports of any file, built here or not. */
module PeLink {
  import opened Bytes
  import opened Buffers
  import opened Store
  import opened Wrappers
  import opened PeImage
  import opened PeParse
  import opened PeMap
  import opened PeLoad

  // ------------------------------------------------------- what a file asks for

  /** The bytes from o on are these, and none is zero. */
  ghost predicate Runs(b: seq<Byte>, o: nat, s: seq<Byte>) {
    o + |s| <= |b| + (if s == [] then o else 0) && forall k | o <= k < o + |s| :: b[k] == s[k - o] && b[k] != 0
  }

  /** The text at o: its bytes up to a zero, the end of the file, or 256 of them. */
  ghost predicate TextAt(b: seq<Byte>, o: nat, s: seq<Byte>) {
    |s| <= 256 && Runs(b, o, s) && (|s| == 256 || o + |s| >= |b| || b[o + |s|] == 0)
  }

  lemma {:induction false} TextIs(b: seq<Byte>, o: nat, max: nat)
    ensures var s := CString(b, o, max); |s| <= max && Runs(b, o, s) && (|s| == max || o + |s| >= |b| || b[o + |s|] == 0)
    decreases max
  {
    if max > 0 && o < |b| && b[o] != 0 {
      TextIs(b, o + 1, max - 1);
      var rest, s := CString(b, o + 1, max - 1), CString(b, o, max);
      assert s == [b[o]] + rest;
      forall k | o <= k < o + |s|
        ensures b[k] == s[k - o] && b[k] != 0
      {
        if k > o { assert b[k] == rest[k - (o + 1)]; }
      }
    }
  }

  /** There is one text at a place. */
  lemma TextOnly(b: seq<Byte>, o: nat, s: seq<Byte>)
    ensures TextAt(b, o, s) <==> s == CString(b, o, 256)
  {
    TextIs(b, o, 256);
    var t := CString(b, o, 256);
    if TextAt(b, o, s) {
      forall k | 0 <= k < |s|
        ensures s[k] == t[k]
      {
        assert b[o + k] == s[k];
      }
    }
  }

  /** A name fit to be looked up: printable ASCII, and some. */
  predicate Plain(s: seq<Byte>) { |s| > 0 && forall k | 0 <= k < |s| :: 0x20 <= s[k] < 0x7f }

  /** What a thunk asks for: bit 31 asks for the ordinal in its low 16 bits; otherwise it leads to a name
      behind a two-byte hint, or, where no printable name is, it counts as bound already. */
  ghost predicate Asks(b: seq<Byte>, pe: Pe, hint: nat, s: Symbol) {
    match s
    case Ordinal(n) => hint >= 0x8000_0000 && n == hint % 0x1_0000
    case Named(name) =>
      hint < 0x8000_0000 && Plain(name) && exists off: nat :: RvaToOffset(pe, hint) == Some(off) && TextAt(b, off + 2, name)
    case Bound(h) =>
      && h == hint < 0x8000_0000
      && forall off: nat, name | RvaToOffset(pe, hint) == Some(off) && TextAt(b, off + 2, name) :: !Plain(name)
  }

  lemma AsksOne(b: seq<Byte>, pe: Pe, hint: nat, s: Symbol)
    ensures Asks(b, pe, hint, s) <==> s == SymbolAt(b, pe, hint)
  {
    hide RvaToOffset, TextAt, CString;
    if hint < 0x8000_0000 && RvaToOffset(pe, hint).Some? {
      var off := RvaToOffset(pe, hint).value;
      var name := CString(b, off + 2, 256);
      assert Printable(name) == Plain(name);
      TextOnly(b, off + 2, name);
      if s.Named? { TextOnly(b, off + 2, s.name); }
      if t: seq<Byte> :| TextAt(b, off + 2, t) && Plain(t) { TextOnly(b, off + 2, t); }
    }
  }

  /** A to Z and the Latin capitals go down by 32; the multiplication sign among them stays. */
  ghost predicate Lowered(name: seq<Byte>, dll: seq<Byte>) {
    && |dll| == |name|
    && forall k | 0 <= k < |name| :: var c := name[k];
      dll[k] == if 'A' as int <= c as int <= 'Z' as int || (0xc0 <= c < 0xdf && c != 0xd7) then c + 32 else c
  }

  /** One descriptor: the DLL, what its thunks ask for, and the RVA of its address slots. */
  datatype Asked = Asked(dll: seq<Byte>, syms: seq<Symbol>, iat: nat)

  /** The thunks from RVA table on, up to the first that is zero or outside raw data. */
  ghost predicate TableIs(b: seq<Byte>, pe: Pe, table: nat, syms: seq<Symbol>) {
    && (forall k | 0 <= k < |syms| :: ThunkIs(b, pe, table + 8 * k, syms[k]))
    && !ThunkThere(b, pe, table + 8 * |syms|)
  }

  predicate ThunkThere(b: seq<Byte>, pe: Pe, rva: nat) {
    RvaToOffset(pe, rva).Some? && U32At(b, RvaToOffset(pe, rva).value) != 0
  }

  ghost predicate ThunkIs(b: seq<Byte>, pe: Pe, rva: nat, s: Symbol) {
    ThunkThere(b, pe, rva) && Asks(b, pe, U32At(b, RvaToOffset(pe, rva).value), s)
  }

  /** The descriptor at file offset d: five words, of which the first, fourth and fifth are used. */
  ghost predicate DescIs(b: seq<Byte>, pe: Pe, d: nat, a: Asked) {
    var ilt, nameRva, iat := U32At(b, d), U32At(b, d + 12), U32At(b, d + 16);
    && (ilt != 0 || nameRva != 0 || iat != 0) && a.iat == iat
    && TableIs(b, pe, if ilt != 0 then ilt else iat, a.syms)
    && exists off: nat, name :: RvaToOffset(pe, nameRva) == Some(off) && TextAt(b, off, name) && Lowered(name, a.dll)
  }

  /** The import directory, entry 1 of the optional header's: its descriptors, and what ends it, a null
      descriptor or one whose name RVA is outside raw data. */
  ghost predicate DirectoryIs(b: seq<Byte>, pe: Pe, list: seq<Asked>, bad: Option<nat>) {
    |pe.dirs| > 5 && pe.dirs[1].rva != 0 && pe.dirs[1].size != 0 && RvaToOffset(pe, pe.dirs[1].rva).Some?
    && DescsAre(b, pe, RvaToOffset(pe, pe.dirs[1].rva).value, list, bad)
  }

  ghost predicate DescsAre(b: seq<Byte>, pe: Pe, off: nat, list: seq<Asked>, bad: Option<nat>) {
    && (forall i | 0 <= i < |list| :: DescIs(b, pe, off + 20 * i, list[i]))
    && var d := off + 20 * |list|;
      if bad.Some? then U32At(b, d + 12) == bad.value && RvaToOffset(pe, bad.value).None?
                        && (U32At(b, d) != 0 || bad.value != 0 || U32At(b, d + 16) != 0)
      else U32At(b, d) == 0 && U32At(b, d + 12) == 0 && U32At(b, d + 16) == 0
  }

  // ------------------------------------------------------------------- bindings

  /** One binding to make: the symbol, its number in its table, and the RVA of its slot. */
  datatype Want = Want(dll: seq<Byte>, index: nat, sym: Symbol, rva: nat)

  function WantsOf(a: Asked, k: nat): (r: seq<Want>)
    requires k <= |a.syms|
    decreases |a.syms| - k
  {
    if k == |a.syms| then [] else [Want(a.dll, k, a.syms[k], a.iat + k * 8)] + WantsOf(a, k + 1)
  }

  function Wants(list: seq<Asked>): seq<Want> {
    if list == [] then [] else WantsOf(list[0], 0) + Wants(list[1..])
  }

  /** The bindings made in order, up to the first that the resolver does not know. */
  function BindWants(l: Linking, ws: seq<Want>, base: nat, resolve: Resolver): Linking
    decreases |ws|
  {
    if ws == [] then l
    else
      var w := ws[0];
      var l0 := if w.sym.Bound? then l.(warnings := l.warnings + [(w.dll, w.index, w.sym.hint)]) else l;
      match resolve(w.dll, w.sym)
      case None => l0.(failed := Some(Unresolved(w.dll, w.sym)))
      case Some(v) =>
        BindWants(l0.(mem := W64(l.mem, base + w.rva, v), imports := l.imports + [(w.dll, w.sym)]), ws[1..], base, resolve)
  }

  lemma {:induction false} BindAppend(l: Linking, xs: seq<Want>, ys: seq<Want>, base: nat, resolve: Resolver)
    requires l.failed.None?
    ensures var l1 := BindWants(l, xs, base, resolve);
      BindWants(l, xs + ys, base, resolve) == if l1.failed.Some? then l1 else BindWants(l1, ys, base, resolve)
    decreases |xs|
  {
    hide W64;
    if xs == [] {
      assert xs + ys == ys;
    } else {
      var w := xs[0];
      assert (xs + ys)[0] == w && (xs + ys)[1..] == xs[1..] + ys;
      var l0 := if w.sym.Bound? then l.(warnings := l.warnings + [(w.dll, w.index, w.sym.hint)]) else l;
      if resolve(w.dll, w.sym).Some? {
        BindAppend(l0.(mem := W64(l.mem, base + w.rva, resolve(w.dll, w.sym).value), imports := l.imports + [(w.dll, w.sym)]),
                   xs[1..], ys, base, resolve);
      }
    }
  }

  // -------------------------------------------------------- the walks are bindings

  /** The thunk loop binds what its table asks for. */
  lemma {:induction false} ThunksBind(l: Linking, b: seq<Byte>, pe: Pe, base: nat, table: nat, a: Asked, k: nat, resolve: Resolver)
    requires l.failed.None? && TableIs(b, pe, table, a.syms) && k <= |a.syms|
    ensures Thunks(l, b, pe, base, a.dll, table + 8 * k, a.iat, k, resolve) == BindWants(l, WantsOf(a, k), base, resolve)
    decreases |a.syms| - k
  {
    hide U32At, RvaToOffset, SymbolAt, W64, Limit, Asks;
    var rva := table + 8 * k;
    if k < |a.syms| {
      assert ThunkIs(b, pe, rva, a.syms[k]);
      var hint := U32At(b, RvaToOffset(pe, rva).value);
      var s := SymbolAt(b, pe, hint);
      AsksOne(b, pe, hint, a.syms[k]);
      LimitBounds(pe, rva);
      var w := WantsOf(a, k)[0];
      assert WantsOf(a, k)[1..] == WantsOf(a, k + 1);
      if resolve(w.dll, w.sym).Some? {
        var l1 := Bind(Warned(l, a.dll, k, s), base, a.iat, k, a.dll, s, resolve);
        ThunksBind(l1, b, pe, base, table, a, k + 1, resolve);
      }
    }
  }

  lemma LoweredIs(name: seq<Byte>, dll: seq<Byte>)
    requires Lowered(name, dll)
    ensures dll == Lower(name)
  {
    forall k | 0 <= k < |name|
      ensures dll[k] == Lower(name)[k]
    {
    }
  }

  lemma InFile(b: seq<Byte>, o: nat)
    requires U32At(b, o) != 0
    ensures o < |b|
  {
    hide U32At;
    if o >= |b| { PastEnd(b, o); }
  }

  /** The descriptor loop binds what the descriptors ask for, one after the other. */
  lemma {:induction false} DescsBind(l: Linking, b: seq<Byte>, pe: Pe, base: nat, off: nat, list: seq<Asked>, bad: Option<nat>,
                                     i: nat, resolve: Resolver)
    requires l.failed.None? && DescsAre(b, pe, off, list, bad) && i <= |list|
    ensures var l1 := BindWants(l, Wants(list[i..]), base, resolve);
      Descs(l, b, pe, base, off + 20 * i, resolve)
      == if l1.failed.None? && bad.Some? then l1.(failed := Some(NoDllName(bad.value))) else l1
    decreases |list| - i
  {
    hide U32At, RvaToOffset, Thunks, CString, Lower, TextAt, TableIs, Lowered, WantsOf, BindWants;
    var d := off + 20 * i;
    if U32At(b, d) != 0 { InFile(b, d); }
    if U32At(b, d + 12) != 0 { InFile(b, d + 12); }
    if U32At(b, d + 16) != 0 { InFile(b, d + 16); }
    if i == |list| {
      assert list[i..] == [];
      BindNothing(l, base, resolve);
    } else {
      var a := list[i];
      assert DescIs(b, pe, d, a);
      var o: nat, name :| RvaToOffset(pe, U32At(b, d + 12)) == Some(o) && TextAt(b, o, name) && Lowered(name, a.dll);
      TextOnly(b, o, name);
      LoweredIs(name, a.dll);
      var ilt := U32At(b, d);
      var table := if ilt != 0 then ilt else a.iat;
      ThunksBind(l, b, pe, base, table, a, 0, resolve);
      assert list[i..][0] == a && list[i..][1..] == list[i + 1..];
      BindAppend(l, WantsOf(a, 0), Wants(list[i + 1..]), base, resolve);
      var l1 := BindWants(l, WantsOf(a, 0), base, resolve);
      assert table + 8 * 0 == table;
      assert Thunks(l, b, pe, base, a.dll, table, a.iat, 0, resolve) == l1;
      if l1.failed.None? { DescsBind(l1, b, pe, base, off, list, bad, i + 1, resolve); }
    }
  }

  lemma BindNothing(l: Linking, base: nat, resolve: Resolver)
    ensures Wants([]) == [] && BindWants(l, [], base, resolve) == l
  {
  }

  // ------------------------------------------------------------ what binding leaves

  /** Slots do not overlap. */
  ghost predicate SlotsApart(ws: seq<Want>) {
    forall i, j | 0 <= i < j < |ws| :: ws[i].rva + 8 <= ws[j].rva || ws[j].rva + 8 <= ws[i].rva
  }

  /** The entries counted as bound, in order. */
  function Warnings(ws: seq<Want>): seq<(seq<Byte>, nat, nat)> {
    if ws == [] then []
    else (if ws[0].sym.Bound? then [(ws[0].dll, ws[0].index, ws[0].sym.hint)] else []) + Warnings(ws[1..])
  }

  function Imports(ws: seq<Want>): (r: seq<(seq<Byte>, Symbol)>)
    ensures |r| == |ws|
  {
    seq(|ws|, k requires 0 <= k < |ws| => (ws[k].dll, ws[k].sym))
  }

  ghost predicate OffSlotsOf(ws: seq<Want>, base: nat, x: int) {
    forall k | 0 <= k < |ws| :: !(base + ws[k].rva <= x < base + ws[k].rva + 8)
  }

  /** The first n wants are bound and the next one, if there is one, is the first unknown. */
  ghost predicate Outcome(l: Linking, r: Linking, ws: seq<Want>, n: nat, base: nat, resolve: Resolver) {
    && n <= |ws| && (forall k | 0 <= k < n :: resolve(ws[k].dll, ws[k].sym).Some?)
    && (n < |ws| ==> resolve(ws[n].dll, ws[n].sym).None?)
    && r.failed == (if n < |ws| then Some(Unresolved(ws[n].dll, ws[n].sym)) else None)
    && r.imports == l.imports + Imports(ws[..n])
    && r.warnings == l.warnings + Warnings(if n < |ws| then ws[..n + 1] else ws)
    && (forall x: nat | OffSlotsOf(ws[..n], base, x) :: Get(r.mem, x) == Get(l.mem, x))
    && (SlotsApart(ws) ==> forall k | 0 <= k < n ::
          U64(r.mem, base + ws[k].rva) == resolve(ws[k].dll, ws[k].sym).value % TWO_64)
  }

  lemma BindOutcome(l: Linking, ws: seq<Want>, base: nat, resolve: Resolver) returns (n: nat)
    requires l.failed.None?
    ensures Outcome(l, BindWants(l, ws, base, resolve), ws, n, base, resolve)
    decreases |ws|
  {
    hide Get, U64, W64;
    if ws == [] {
      n := 0;
    } else {
      var w := ws[0];
      var l0 := if w.sym.Bound? then l.(warnings := l.warnings + [(w.dll, w.index, w.sym.hint)]) else l;
      match resolve(w.dll, w.sym)
      case None => n := 0; FirstUnknown(l, ws, base, resolve);
      case Some(v) =>
        var l1 := l0.(mem := W64(l.mem, base + w.rva, v), imports := l.imports + [(w.dll, w.sym)]);
        var n1 := BindOutcome(l1, ws[1..], base, resolve);
        n := n1 + 1;
        OneMore(l, l1, BindWants(l1, ws[1..], base, resolve), ws, n1, base, resolve, v);
    }
  }

  lemma FirstUnknown(l: Linking, ws: seq<Want>, base: nat, resolve: Resolver)
    requires l.failed.None? && ws != [] && resolve(ws[0].dll, ws[0].sym).None?
    ensures Outcome(l, BindWants(l, ws, base, resolve), ws, 0, base, resolve)
  {
    hide Get, U64, W64;
    assert ws[..0 + 1] == [ws[0]] && [ws[0]][1..] == [];
    assert Warnings([ws[0]]) == if ws[0].sym.Bound? then [(ws[0].dll, ws[0].index, ws[0].sym.hint)] else [];
    assert Imports(ws[..0]) == [] && l.imports + [] == l.imports && l.warnings + [] == l.warnings;
  }

  /** The outcome after a first binding that was made. */
  lemma OneMore(l: Linking, l1: Linking, r: Linking, ws: seq<Want>, n: nat, base: nat, resolve: Resolver, v: nat)
    requires ws != [] && resolve(ws[0].dll, ws[0].sym) == Some(v)
    requires l1.mem == W64(l.mem, base + ws[0].rva, v) && l1.imports == l.imports + [(ws[0].dll, ws[0].sym)]
    requires l1.warnings == l.warnings + if ws[0].sym.Bound? then [(ws[0].dll, ws[0].index, ws[0].sym.hint)] else []
    requires Outcome(l1, r, ws[1..], n, base, resolve)
    ensures Outcome(l, r, ws, n + 1, base, resolve)
  {
    hide Get, U64, W64, Warnings, OffSlotsOf, SlotsApart;
    var rest := ws[1..];
    assert ws[n + 1..] == rest[n..];
    forall k | 0 <= k < n + 1
      ensures resolve(ws[k].dll, ws[k].sym).Some?
    {
      if k > 0 { assert rest[k - 1] == ws[k]; }
    }
    assert Imports(ws[..n + 1]) == [(ws[0].dll, ws[0].sym)] + Imports(rest[..n]);
    WarningsStep(ws);
    if n < |rest| {
      assert ws[..n + 2][1..] == rest[..n + 1] && ws[..n + 2][0] == ws[0];
      WarningsStep(ws[..n + 2]);
    }
    W64Bytes(l.mem, base + ws[0].rva, v);
    forall x: nat | OffSlotsOf(ws[..n + 1], base, x)
      ensures Get(r.mem, x) == Get(l.mem, x)
    {
      OffRest(ws, n, base, x);
    }
    if SlotsApart(ws) { SlotsHold(l, l1, r, ws, n, base, resolve, v); }
  }

  lemma WarningsStep(ws: seq<Want>)
    requires ws != []
    ensures Warnings(ws) == (if ws[0].sym.Bound? then [(ws[0].dll, ws[0].index, ws[0].sym.hint)] else []) + Warnings(ws[1..])
  {
  }

  lemma OffRest(ws: seq<Want>, n: nat, base: nat, x: nat)
    requires n < |ws| && OffSlotsOf(ws[..n + 1], base, x)
    ensures OffSlotsOf(ws[1..][..n], base, x) && !(base + ws[0].rva <= x < base + ws[0].rva + 8)
  {
    assert ws[..n + 1][0] == ws[0];
    forall k | 0 <= k < n
      ensures !(base + ws[1..][..n][k].rva <= x < base + ws[1..][..n][k].rva + 8)
    {
      assert ws[1..][..n][k] == ws[..n + 1][k + 1];
    }
  }

  lemma SlotsHold(l: Linking, l1: Linking, r: Linking, ws: seq<Want>, n: nat, base: nat, resolve: Resolver, v: nat)
    requires ws != [] && resolve(ws[0].dll, ws[0].sym) == Some(v) && SlotsApart(ws)
    requires l1.mem == W64(l.mem, base + ws[0].rva, v) && Outcome(l1, r, ws[1..], n, base, resolve)
    requires forall k | 0 <= k < n + 1 :: resolve(ws[k].dll, ws[k].sym).Some?
    ensures forall k | 0 <= k < n + 1 :: U64(r.mem, base + ws[k].rva) == resolve(ws[k].dll, ws[k].sym).value % TWO_64
  {
    hide Get, U64, W64, Warnings, OffSlotsOf;
    var rest := ws[1..];
    assert SlotsApart(rest);
    forall k | 0 <= k < n + 1
      ensures U64(r.mem, base + ws[k].rva) == resolve(ws[k].dll, ws[k].sym).value % TWO_64
    {
      if k > 0 { assert rest[k - 1] == ws[k]; }
      else {
        W64U64(l.mem, base + ws[0].rva, v, base + ws[0].rva);
        forall x: nat | base + ws[0].rva <= x < base + ws[0].rva + 8
          ensures Get(r.mem, x) == Get(l1.mem, x)
        {
          FirstSlotOff(ws, n, base, x);
        }
        U64Same(l1.mem, r.mem, base + ws[0].rva);
      }
    }
  }

  lemma FirstSlotOff(ws: seq<Want>, n: nat, base: nat, x: nat)
    requires n < |ws| && SlotsApart(ws) && base + ws[0].rva <= x < base + ws[0].rva + 8
    ensures OffSlotsOf(ws[1..][..n], base, x)
  {
    forall k | 0 <= k < n
      ensures !(base + ws[1..][..n][k].rva <= x < base + ws[1..][..n][k].rva + 8)
    {
      assert ws[1..][..n][k] == ws[k + 1];
    }
  }

  // ------------------------------------------------------------------ the whole map

  /** No relocation directory, or one of known types. */
  ghost predicate RelocationsOk(b: seq<Byte>, pe: Pe, blocks: seq<Block>) {
    if |pe.dirs| > 5 && pe.dirs[5].rva != 0 && pe.dirs[5].size != 0 then Relocatable(b, pe, blocks) && forall i | 0 <= i < |blocks| :: Supported(blocks[i])
    else blocks == []
  }

  lemma RelocationsAre(b: seq<Byte>, pe: Pe, blocks: seq<Block>)
    requires RelocationsOk(b, pe, blocks) && |pe.dirs| > 5
    ensures Relocations(b, pe) == (FieldsOf(blocks), None)
  {
    hide Relocatable, Supported;
    if pe.dirs[5].rva != 0 && pe.dirs[5].size != 0 { RelocatableReads(b, pe, blocks); }
  }

  /** mapPe on any file whose import directory lists these descriptors. It goes through exactly when the
      resolver knows every symbol they ask for and a null descriptor ends them; otherwise it names the first
      unknown symbol, or the name RVA it cannot read. Symbols are listed in order, those counted as bound are
      warned of, also when one is the symbol that fails, and slots that do not overlap hold the resolver's
      answers. */
  lemma MapImports(m: Store, b: seq<Byte>, pe: Pe, base: nat, resolve: Resolver, blocks: seq<Block>, list: seq<Asked>, bad: Option<nat>)
    returns (n: nat)
    requires Parse(b) == Ok(pe) && RelocationsOk(b, pe, blocks) && DirectoryIs(b, pe, list, bad)
    ensures var r := Map(m, b, base, resolve); var ws := Wants(list);
      && n <= |ws| && (forall k | 0 <= k < n :: resolve(ws[k].dll, ws[k].sym).Some?)
      && (n < |ws| ==> resolve(ws[n].dll, ws[n].sym).None?)
      && (r.Mapped? <==> n == |ws| && bad.None?)
      && (r.Refused? ==> r.problem == if n < |ws| then Unresolved(ws[n].dll, ws[n].sym) else NoDllName(bad.value))
      && (r.Mapped? ==> r == Mapped(r.mem, base, pe.sizeOfImage, base + pe.entryRva, Imports(ws), |FieldsOf(blocks)|, Warnings(ws)))
      && (SlotsApart(ws) ==> forall k | 0 <= k < n ::
            U64(r.mem, base + ws[k].rva) == resolve(ws[k].dll, ws[k].sym).value % TWO_64)
  {
    hide Parse, Loaded, Rebased, Get, U64, RvaToOffset, RelocFields, FieldsOf, Relocations, Descs, DescsAre, BindWants,
      Warnings, Imports, Wants, SlotsApart, RelocationsOk;
    RelocationsAre(b, pe, blocks);
    var m2 := Rebased(Loaded(m, base, b, pe), base, base - pe.imageBase, FieldsOf(blocks));
    var l := Linking(m2, [], [], None);
    var off := RvaToOffset(pe, pe.dirs[1].rva).value;
    assert list[0..] == list && off + 20 * 0 == off;
    DescsBind(l, b, pe, base, off, list, bad, 0, resolve);
    n := BindOutcome(l, Wants(list), base, resolve);
    var ws := Wants(list);
    assert ws[..|ws|] == ws && [] + Imports(ws) == Imports(ws) && [] + Warnings(ws) == Warnings(ws);
    assert Imported(m2, b, pe, base, resolve) == Descs(l, b, pe, base, off, resolve);
  }

  // ------------------------------------------------------------- every file has a list

  lemma {:induction false} TableHas(b: seq<Byte>, pe: Pe, table: nat, k: nat) returns (syms: seq<Symbol>)
    ensures TableIs(b, pe, table + 8 * k, syms)
    decreases if RvaToOffset(pe, table + 8 * k).Some? then 1 + Larger(table + 8 * k, Limit(pe)) - (table + 8 * k) else 0
  {
    hide U32At, RvaToOffset, SymbolAt, Limit, Asks;
    var rva := table + 8 * k;
    if ThunkThere(b, pe, rva) {
      LimitBounds(pe, rva);
      if RvaToOffset(pe, table + 8 * (k + 1)).Some? { LimitBounds(pe, table + 8 * (k + 1)); }
      var rest := TableHas(b, pe, table, k + 1);
      var s := SymbolAt(b, pe, U32At(b, RvaToOffset(pe, rva).value));
      AsksOne(b, pe, U32At(b, RvaToOffset(pe, rva).value), s);
      syms := [s] + rest;
      forall i | 0 <= i < |syms|
        ensures ThunkIs(b, pe, rva + 8 * i, syms[i])
      {
        if i > 0 { assert ThunkIs(b, pe, rva + 8 + 8 * (i - 1), rest[i - 1]); }
      }
      assert rva + 8 + 8 * |rest| == rva + 8 * |syms|;
    } else {
      syms := [];
    }
  }

  lemma LowerIs(name: seq<Byte>)
    ensures Lowered(name, Lower(name))
  {
  }

  lemma {:induction false} DescsHave(b: seq<Byte>, pe: Pe, off: nat) returns (list: seq<Asked>, bad: Option<nat>)
    ensures DescsAre(b, pe, off, list, bad)
    decreases Larger(off, |b|) - off
  {
    hide U32At, RvaToOffset, CString, Lower, TextAt, TableIs, Lowered;
    var ilt, nameRva, iat := U32At(b, off), U32At(b, off + 12), U32At(b, off + 16);
    list, bad := [], None;
    if ilt != 0 { InFile(b, off); }
    if nameRva != 0 { InFile(b, off + 12); }
    if iat != 0 { InFile(b, off + 16); }
    if ilt != 0 || nameRva != 0 || iat != 0 {
      if RvaToOffset(pe, nameRva).None? {
        bad := Some(nameRva);
      } else {
        var o := RvaToOffset(pe, nameRva).value;
        var name := CString(b, o, 256);
        TextOnly(b, o, name);
        LowerIs(name);
        var table := if ilt != 0 then ilt else iat;
        var syms := TableHas(b, pe, table, 0);
        assert table + 8 * 0 == table;
        var a := Asked(Lower(name), syms, iat);
        assert DescIs(b, pe, off, a);
        var rest, end := DescsHave(b, pe, off + 20);
        list, bad := [a] + rest, end;
        forall i | 0 <= i < |list|
          ensures DescIs(b, pe, off + 20 * i, list[i])
        {
          if i > 0 { assert DescIs(b, pe, off + 20 + 20 * (i - 1), rest[i - 1]); }
        }
        assert off + 20 + 20 * |rest| == off + 20 * |list|;
      }
    }
  }

  /** What MapImports asks of the directory holds of every file whose import directory lies in raw data. */
  lemma DirectoryHas(b: seq<Byte>, pe: Pe) returns (list: seq<Asked>, bad: Option<nat>)
    requires |pe.dirs| > 5 && pe.dirs[1].rva != 0 && pe.dirs[1].size != 0 && RvaToOffset(pe, pe.dirs[1].rva).Some?
    ensures DirectoryIs(b, pe, list, bad)
  {
    hide RvaToOffset, DescsAre;
    list, bad := DescsHave(b, pe, RvaToOffset(pe, pe.dirs[1].rva).value);
  }

  /** The other files: without import directory nothing is bound, and one outside raw data is refused. */
  lemma MapNoImports(m: Store, b: seq<Byte>, pe: Pe, base: nat, resolve: Resolver, blocks: seq<Block>)
    requires Parse(b) == Ok(pe) && RelocationsOk(b, pe, blocks)
    ensures |pe.dirs| <= 5 ==> Map(m, b, base, resolve) == Refused(Loaded(m, base, b, pe), TooFewDirs)
    ensures |pe.dirs| > 5 ==> var d, r := pe.dirs[1], Map(m, b, base, resolve);
      && (d.rva == 0 || d.size == 0 ==>
            r == Mapped(r.mem, base, pe.sizeOfImage, base + pe.entryRva, [], |FieldsOf(blocks)|, []))
      && (d.rva != 0 && d.size != 0 && RvaToOffset(pe, d.rva).None? ==> r == Refused(r.mem, NoImportDir(d.rva)))
  {
    hide Parse, Loaded, Rebased, RvaToOffset, RelocFields, FieldsOf, Relocations, Descs, RelocationsOk;
    if |pe.dirs| > 5 { RelocationsAre(b, pe, blocks); }
  }
}
