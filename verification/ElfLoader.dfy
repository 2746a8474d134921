/** Laying out and relocating a relocatable x86-64 module. */
module ElfLoader {
  import opened Bytes
  import opened Store
  import opened Wrappers
  import opened Backing

  /** A parsed section: allocatable or not, file data or zeros. */
  datatype Section = Section(alloc: bool, nobits: bool, addr: nat, size: nat, addralign: nat, data: seq<Byte>)

  /** What the parser gives: no more data than the section's size, and none for NOBITS. */
  predicate SectionOk(s: Section) { |s.data| <= s.size && (s.nobits ==> s.data == []) }

  // ------------------------------------------------------------------- layout

  function AlignUp(v: nat, a: nat): (r: nat)
    requires a > 0
  {
    if v % a == 0 then v else v + (a - v % a)
  }

  function Align(s: Section): (a: nat)
    ensures a > 0
  {
    if s.addralign != 0 then s.addralign else 16
  }

  /** The cursor before section k. */
  function Cursor(ss: seq<Section>, base: nat, k: nat): nat
    requires k <= |ss|
  {
    if k == 0 then base
    else if !ss[k - 1].alloc then Cursor(ss, base, k - 1)
    else AlignUp(AlignUp(Cursor(ss, base, k - 1), Align(ss[k - 1])) + ss[k - 1].size, 16)
  }

  predicate NeedsLayout(ss: seq<Section>) { exists k :: 0 <= k < |ss| && ss[k].alloc && ss[k].addr == 0 }

  /** The largest end among the first k allocatable sections. */
  function MaxEnd(ss: seq<Section>, k: nat): nat
    requires k <= |ss|
  {
    if k == 0 then 0
    else
      var m, s := MaxEnd(ss, k - 1), ss[k - 1];
      if s.alloc && s.addr + s.size > m then s.addr + s.size else m
  }

  /** Where section k goes. */
  function Addr(ss: seq<Section>, base: nat, k: nat): nat
    requires k < |ss|
  {
    if NeedsLayout(ss) then AlignUp(Cursor(ss, base, k), Align(ss[k])) else base + ss[k].addr
  }

  function ImageSize(ss: seq<Section>, base: nat): int {
    if NeedsLayout(ss) then Cursor(ss, base, |ss|) - base else MaxEnd(ss, |ss|)
  }

  function Addrs(ss: seq<Section>, base: nat, k: nat): map<nat, nat>
    requires k <= |ss|
  {
    map i: nat | i < k && ss[i].alloc :: Addr(ss, base, i)
  }

  lemma AlignUpFacts(v: nat, a: nat)
    requires a > 0
    ensures AlignUp(v, a) % a == 0 && v <= AlignUp(v, a) < v + a
  {
    var q, r := v / a, v % a;
    assert v == a * q + r;
    if r != 0 {
      assert v + (a - r) == a * (q + 1) by { assert a * (q + 1) == a * q + a; }
      ModUnique(v + (a - r), a, q + 1, 0);
    }
  }

  lemma {:induction false} CursorRises(ss: seq<Section>, base: nat, i: nat, j: nat)
    requires i <= j <= |ss|
    ensures Cursor(ss, base, i) <= Cursor(ss, base, j)
    decreases j
  {
    hide AlignUp, Align;
    if i < j {
      CursorRises(ss, base, i, j - 1);
      if ss[j - 1].alloc { CursorStep(ss, base, j - 1); }
    }
  }

  lemma CursorStep(ss: seq<Section>, base: nat, k: nat)
    requires k < |ss| && ss[k].alloc
    ensures var a := AlignUp(Cursor(ss, base, k), Align(ss[k]));
      Cursor(ss, base, k) <= a && a % Align(ss[k]) == 0 && a + ss[k].size <= Cursor(ss, base, k + 1)
  {
    hide AlignUp, Align;
    AlignUpFacts(Cursor(ss, base, k), Align(ss[k]));
    AlignUpFacts(AlignUp(Cursor(ss, base, k), Align(ss[k])) + ss[k].size, 16);
  }

  lemma {:induction false} MaxEndBounds(ss: seq<Section>, k: nat, i: nat)
    requires i < k <= |ss| && ss[i].alloc
    ensures ss[i].addr + ss[i].size <= MaxEnd(ss, k)
    decreases k
  {
    if i < k - 1 { MaxEndBounds(ss, k - 1, i); }
  }

  /** Two ranges with no byte in common, as their ends say it. */
  predicate Apart(a: nat, n: nat, b: nat, k: nat) { a + n <= b || b + k <= a }

  /** For any section list: an allocatable section lies inside the image; it is aligned, and clear of
      another, exactly when the loader lays the module out or the addresses it brings are. Sections
      laid out stand in their order. */
  lemma LayoutOk(ss: seq<Section>, base: nat, i: nat, j: nat)
    requires i < |ss| && ss[i].alloc && i < j <= |ss|
    ensures base <= Addr(ss, base, i) && Addr(ss, base, i) + ss[i].size <= base + ImageSize(ss, base)
    ensures Addr(ss, base, i) % Align(ss[i]) == 0 <==> NeedsLayout(ss) || (base + ss[i].addr) % Align(ss[i]) == 0
    ensures j < |ss| && ss[j].alloc ==>
      (Apart(Addr(ss, base, i), ss[i].size, Addr(ss, base, j), ss[j].size) <==>
        NeedsLayout(ss) || Apart(ss[i].addr, ss[i].size, ss[j].addr, ss[j].size))
    ensures NeedsLayout(ss) && j < |ss| && ss[j].alloc ==> Addr(ss, base, i) + ss[i].size <= Addr(ss, base, j)
  {
    hide AlignUp, Align, NeedsLayout;
    if NeedsLayout(ss) {
      CursorStep(ss, base, i);
      CursorRises(ss, base, 0, i);
      CursorRises(ss, base, i + 1, j);
      CursorRises(ss, base, j, |ss|);
      if j < |ss| && ss[j].alloc { CursorStep(ss, base, j); }
    } else {
      MaxEndBounds(ss, |ss|, i);
    }
  }

  /** a is the first multiple of k from v on. */
  predicate NextMultiple(a: int, v: int, k: int)
    requires k > 0
  {
    a % k == 0 && v <= a < v + k
  }

  /** The layout wastes nothing: the first allocatable section stands at the first aligned address from base
      on, and after each one comes the first multiple of 16, from which the next one takes the first address
      aligned for it, or the image ends. A section that names no alignment gets 16. */
  lemma LayoutTight(ss: seq<Section>, base: nat, i: nat, j: nat) returns (r: nat)
    requires i < j <= |ss| && ss[i].alloc && (forall k | i < k < j :: !ss[k].alloc)
    requires exists k :: 0 <= k < |ss| && ss[k].alloc && ss[k].addr == 0
    ensures (forall k | 0 <= k < i :: !ss[k].alloc) ==>
      NextMultiple(Addr(ss, base, i), base, if ss[i].addralign == 0 then 16 else ss[i].addralign)
    ensures NextMultiple(r, Addr(ss, base, i) + ss[i].size, 16)
    ensures j < |ss| && ss[j].alloc ==>
      NextMultiple(Addr(ss, base, j), r, if ss[j].addralign == 0 then 16 else ss[j].addralign)
    ensures j == |ss| ==> base + ImageSize(ss, base) == r
  {
    hide AlignUp;
    if forall k | 0 <= k < i :: !ss[k].alloc { CursorStays(ss, base, 0, i); }
    AlignUpFacts(Cursor(ss, base, i), Align(ss[i]));
    r := Cursor(ss, base, i + 1);
    AlignUpFacts(Addr(ss, base, i) + ss[i].size, 16);
    CursorStays(ss, base, i + 1, j);
    if j < |ss| { AlignUpFacts(r, Align(ss[j])); }
  }

  lemma {:induction false} CursorStays(ss: seq<Section>, base: nat, i: nat, j: nat)
    requires i <= j <= |ss| && forall k | i <= k < j :: !ss[k].alloc
    ensures Cursor(ss, base, j) == Cursor(ss, base, i)
    decreases j
  {
    if i < j { CursorStays(ss, base, i, j - 1); }
  }

  /** A module that brings an address for every allocatable section goes where they say, and its image ends
      with the last of them. */
  lemma {:induction false} LinkedPlace(ss: seq<Section>, base: nat)
    requires forall k | 0 <= k < |ss| && ss[k].alloc :: ss[k].addr != 0
    ensures forall i | 0 <= i < |ss| :: Addr(ss, base, i) == base + ss[i].addr
    ensures forall i | 0 <= i < |ss| && ss[i].alloc :: ss[i].addr + ss[i].size <= ImageSize(ss, base)
    ensures ImageSize(ss, base) == 0 || exists i :: 0 <= i < |ss| && ss[i].alloc && ss[i].addr + ss[i].size == ImageSize(ss, base)
  {
    forall i | 0 <= i < |ss| && ss[i].alloc
      ensures ss[i].addr + ss[i].size <= ImageSize(ss, base)
    {
      MaxEndBounds(ss, |ss|, i);
    }
    var i := MaxEndMet(ss, |ss|);
  }

  lemma {:induction false} MaxEndMet(ss: seq<Section>, k: nat) returns (i: nat)
    requires k <= |ss|
    ensures MaxEnd(ss, k) == 0 || (i < k && ss[i].alloc && ss[i].addr + ss[i].size == MaxEnd(ss, k))
    decreases k
  {
    i := 0;
    if k > 0 {
      i := MaxEndMet(ss, k - 1);
      if MaxEnd(ss, k) != MaxEnd(ss, k - 1) { i := k - 1; }
    }
  }

  // ------------------------------------------------------------------- loading

  function PageEnd(a: nat): nat { (a + 4095) / 4096 }

  /** The first k sections in memory: file data copied, NOBITS pages made present. */
  function Loaded(m: Store, ss: seq<Section>, base: nat, k: nat): Store
    requires k <= |ss|
  {
    if k == 0 then m
    else
      var m1 := Loaded(m, ss, base, k - 1);
      var s := ss[k - 1];
      if !s.alloc then m1
      else
        var a := Addr(ss, base, k - 1);
        if s.nobits then Backed(m1, a / 4096, PageEnd(a + s.size)) else Put(m1, a, s.data)
  }

  /** x is in no loaded section's data among the first k. */
  ghost predicate ClearData(ss: seq<Section>, base: nat, k: nat, x: nat)
    requires k <= |ss|
  {
    forall i: nat | i < k && ss[i].alloc :: !(Addr(ss, base, i) <= x < Addr(ss, base, i) + |ss[i].data|)
  }

  ghost predicate DataIn(m: Store, ss: seq<Section>, base: nat, i: nat)
    requires i < |ss|
  {
    forall d: nat | d < |ss[i].data| :: Get(m, Addr(ss, base, i) + d) == ss[i].data[d]
  }

  ghost predicate AllDataIn(m: Store, ss: seq<Section>, base: nat, k: nat)
    requires k <= |ss|
  {
    forall i: nat | i < k && ss[i].alloc :: DataIn(m, ss, base, i)
  }

  /** Section data does not overlap where it goes. */
  ghost predicate DataApart(ss: seq<Section>, base: nat) {
    forall i, j | 0 <= i < j < |ss| && ss[i].alloc && ss[j].alloc ::
      Addr(ss, base, i) + |ss[i].data| <= Addr(ss, base, j) || Addr(ss, base, j) + |ss[j].data| <= Addr(ss, base, i)
  }

  /** The loader's own layout always keeps it apart; a linked module must bring addresses that do. */
  lemma LayoutApart(ss: seq<Section>, base: nat)
    requires NeedsLayout(ss) && forall i | 0 <= i < |ss| :: SectionOk(ss[i])
    ensures DataApart(ss, base)
  {
    hide Addr, NeedsLayout, SectionOk;
    forall i, j | 0 <= i < j < |ss| && ss[i].alloc && ss[j].alloc
      ensures Addr(ss, base, i) + |ss[i].data| <= Addr(ss, base, j)
    {
      LayoutOk(ss, base, i, j);
      DataFits(ss, i);
    }
  }

  /** Loading puts each section's data at its address and changes nothing else. */
  lemma {:induction false} LoadedOk(m: Store, ss: seq<Section>, base: nat, k: nat)
    requires DataApart(ss, base) && k <= |ss| && forall i | 0 <= i < |ss| :: SectionOk(ss[i])
    ensures var m' := Loaded(m, ss, base, k);
      && AllDataIn(m', ss, base, k)
      && (forall x: nat | ClearData(ss, base, k, x) :: Get(m', x) == Get(m, x))
    decreases k
  {
    hide Get, Put, Backed, Addr, DataApart, AllDataIn, ClearData, SectionOk;
    NoData(m, ss, base);
    if k > 0 {
      LoadedOk(m, ss, base, k - 1);
      var m1, m' := Loaded(m, ss, base, k - 1), Loaded(m, ss, base, k);
      var s, a := ss[k - 1], Addr(ss, base, k - 1);
      assert SectionOk(s);
      if s.alloc {
        LoadOne(m1, m', s, a);
      }
      DataStep(m1, m', ss, base, k - 1);
      forall x: nat | ClearData(ss, base, k, x)
        ensures Get(m', x) == Get(m, x)
      {
        ClearDataStep(ss, base, k, x);
      }
    }
  }

  lemma NoData(m: Store, ss: seq<Section>, base: nat)
    ensures AllDataIn(m, ss, base, 0)
  {
  }

  lemma LoadOne(m1: Store, m': Store, s: Section, a: nat)
    requires SectionOk(s)
    requires m' == if s.nobits then Backed(m1, a / 4096, PageEnd(a + s.size)) else Put(m1, a, s.data)
    ensures forall x: nat :: Get(m', x) == if a <= x < a + |s.data| then s.data[x - a] else Get(m1, x)
  {
    hide Get, Put, Backed, Touched;
    if s.nobits { BackedKeeps(m1, a / 4096, PageEnd(a + s.size)); } else { PutGet(m1, a, s.data); }
  }

  lemma DataStep(m1: Store, m': Store, ss: seq<Section>, base: nat, k: nat)
    requires DataApart(ss, base) && k < |ss| && AllDataIn(m1, ss, base, k)
    requires !ss[k].alloc ==> m' == m1
    requires ss[k].alloc ==> var a := Addr(ss, base, k);
      forall x: nat :: Get(m', x) == if a <= x < a + |ss[k].data| then ss[k].data[x - a] else Get(m1, x)
    ensures AllDataIn(m', ss, base, k + 1)
  {
    hide Get, Addr;
    forall i: nat | i < k + 1 && ss[i].alloc
      ensures DataIn(m', ss, base, i)
    {
      if i < k {
        assert DataIn(m1, ss, base, i);
        if ss[k].alloc {
          assert Addr(ss, base, i) + |ss[i].data| <= Addr(ss, base, k) || Addr(ss, base, k) + |ss[k].data| <= Addr(ss, base, i);
        }
      }
    }
  }

  lemma DataFits(ss: seq<Section>, i: nat)
    requires i < |ss| && forall k | 0 <= k < |ss| :: SectionOk(ss[k])
    ensures |ss[i].data| <= ss[i].size
  {
    assert SectionOk(ss[i]);
  }

  lemma ClearDataStep(ss: seq<Section>, base: nat, k: nat, x: nat)
    requires 0 < k <= |ss| && ClearData(ss, base, k, x)
    ensures ClearData(ss, base, k - 1, x)
    ensures ss[k - 1].alloc ==> !(Addr(ss, base, k - 1) <= x < Addr(ss, base, k - 1) + |ss[k - 1].data|)
  {
    hide Addr;
  }

  // ---------------------------------------------------------------- relocation

  datatype Symbol = Symbol(name: seq<Byte>, shndx: nat, value: nat)

  datatype Rela = Rela(target: nat, offset: nat, addend: int, kind: nat, sym: Option<Symbol>)

  const SHN_UNDEF: nat := 0
  const SHN_ABS: nat := 0xfff1

  const R_NONE: nat := 0
  const R_64: nat := 1
  const R_PC32: nat := 2
  const R_PLT32: nat := 4
  const R_32: nat := 10
  const R_32S: nat := 11

  type Resolver = seq<Byte> -> Option<nat>

  /** S of the ABI. */
  function SymbolValue(s: Symbol, base: nat, addrs: map<nat, nat>, resolve: Resolver): Option<nat> {
    if s.shndx == SHN_UNDEF then resolve(s.name)
    else if s.shndx == SHN_ABS then Some(s.value)
    else if s.shndx in addrs then Some(addrs[s.shndx] + s.value)
    else Some(base + s.value)
  }

  /** What one relocation does. A patch is noted when its value does not fit its field. */
  datatype Effect = Skip | Missing(name: seq<Byte>) | Ignore | Unhandled | Patch(at: nat, value: int, width: nat, noted: bool)

  function AsInt(v: int, n: nat): int {
    var r := v % Pow256(n);
    if 2 * r >= Pow256(n) then r - Pow256(n) else r
  }

  function EffectOf(r: Rela, base: nat, addrs: map<nat, nat>, resolve: Resolver): Effect {
    if r.target !in addrs || r.sym.None? then Skip
    else
      match SymbolValue(r.sym.value, base, addrs, resolve)
      case None => Missing(r.sym.value.name)
      case Some(s) =>
        var p, v := addrs[r.target] + r.offset, s + r.addend;
        if r.kind == R_64 then Patch(p, v, 8, false)
        else if r.kind == R_PC32 || r.kind == R_PLT32 then Patch(p, v - p, 4, v - p < -0x8000_0000 || v - p > 0x7fff_ffff)
        else if r.kind == R_32 then Patch(p, v, 4, v < 0 || v > 0xffff_ffff)
        else if r.kind == R_32S then Patch(p, v, 4, AsInt(AsInt(v, 4), 8) != AsInt(v, 8))
        else if r.kind == R_NONE then Ignore
        else Unhandled
  }

  datatype Relocating = Relocating(mem: Store, applied: nat, unresolved: seq<seq<Byte>>, notes: seq<Rela>)

  function Apply(st: Relocating, r: Rela, e: Effect): Relocating {
    match e
    case Skip | Ignore => st
    case Missing(name) => st.(unresolved := st.unresolved + [name])
    case Unhandled => st.(notes := st.notes + [r])
    case Patch(at, value, width, noted) =>
      st.(mem := Put(st.mem, at, ToLE(value, width)), applied := st.applied + 1, notes := if noted then st.notes + [r] else st.notes)
  }

  /** applyRelocs. */
  function ApplyRelocs(m: Store, rs: seq<Rela>, base: nat, addrs: map<nat, nat>, resolve: Resolver): Relocating
    decreases |rs|
  {
    if rs == [] then Relocating(m, 0, [], [])
    else
      var n := |rs| - 1;
      Apply(ApplyRelocs(m, rs[..n], base, addrs, resolve), rs[n], EffectOf(rs[n], base, addrs, resolve))
  }

  // ------------------------------------------------------------- field meanings

  lemma AsIntUnique(v: int, n: nat, w: int)
    requires (w - v) % Pow256(n) == 0 && 0 - Pow256(n) <= 2 * w < Pow256(n)
    ensures AsInt(v, n) == w
  {
    var m := Pow256(n);
    var k := (w - v) / m;
    assert w - v == m * k;
    if w >= 0 {
      assert v == m * (-k) + w by { assert m * (-k) == -(m * k); }
      ModUnique(v, m, -k, w);
    } else {
      assert v == m * (-k - 1) + (w + m) by { assert m * (-k - 1) == -(m * k) - m; }
      ModUnique(v, m, -k - 1, w + m);
    }
  }

  lemma AsIntIs(v: int, n: nat)
    ensures (AsInt(v, n) - v) % Pow256(n) == 0
    ensures 0 - Pow256(n) <= 2 * AsInt(v, n) < Pow256(n)
  {
    var m := Pow256(n);
    var q, r := v / m, v % m;
    assert v == m * q + r;
    if 2 * r >= m {
      assert r - m - v == m * (-q - 1) by { assert m * (-q - 1) == -(m * q) - m; }
      ModUnique(r - m - v, m, -q - 1, 0);
    } else {
      assert r - v == m * (-q) by { assert m * (-q) == -(m * q); }
      ModUnique(r - v, m, -q, 0);
    }
  }

  /** The value a processor takes from a field: its bytes as an unsigned number. */
  function Field(m: Store, at: nat, width: nat): nat { FromLE(Read(m, at, width)) }

  /** What a patched field holds: the value modulo its width. */
  lemma FieldOf(m: Store, at: nat, value: int, width: nat)
    requires Read(m, at, width) == ToLE(value, width)
    ensures Field(m, at, width) == value % Pow256(width)
  {
    FromToLE(value, width);
  }

  /** Sign-extending keeps a value exactly when it is in the signed range. */
  lemma SignExtendIff(v: int)
    ensures AsInt(v, 4) == v <==> -0x8000_0000 <= v <= 0x7fff_ffff
    ensures AsInt(v % TWO_32, 4) == AsInt(v, 4)
  {
    Pow256Values();
    AsIntIs(v, 4);
    ModUnique(0, TWO_32, 0, 0);
    if -0x8000_0000 <= v <= 0x7fff_ffff { AsIntUnique(v, 4, v); }
    ModUnique(v % TWO_32, TWO_32, 0, v % TWO_32);
  }

  /** S of the ABI, by the fields of the symbol: the resolver's answer for an undefined one, the value of an
      absolute one, the section's address and the value for one of a section in memory, and else the base
      and the value. */
  ghost predicate Means(y: Symbol, ss: seq<Section>, base: nat, resolve: Resolver, v: nat) {
    if y.shndx == 0 then resolve(y.name) == Some(v)
    else if y.shndx == 0xfff1 then v == y.value
    else if y.shndx < |ss| && ss[y.shndx].alloc then v == Addr(ss, base, y.shndx) + y.value
    else v == base + y.value
  }

  /** A relocation of a section in memory against a symbol that means v. */
  ghost predicate Against(r: Rela, ss: seq<Section>, base: nat, resolve: Resolver, v: nat) {
    r.target < |ss| && ss[r.target].alloc && r.sym.Some? && Means(r.sym.value, ss, base, resolve, v)
  }

  /** The field a relocation writes, and the value it puts there. */
  ghost predicate Writes(r: Rela, ss: seq<Section>, base: nat, resolve: Resolver, at: nat, value: int, width: nat) {
    && r.target < |ss| && at == Addr(ss, base, r.target) + r.offset
    && exists v: nat :: Against(r, ss, base, resolve, v) &&
         if r.kind == 1 then value == v + r.addend && width == 8
         else if r.kind == 2 || r.kind == 4 then value == v + r.addend - at && width == 4
         else (r.kind == 10 || r.kind == 11) && value == v + r.addend && width == 4
  }

  lemma SymbolIs(y: Symbol, ss: seq<Section>, base: nat, resolve: Resolver, v: nat)
    ensures SymbolValue(y, base, Addrs(ss, base, |ss|), resolve) == Some(v) <==> Means(y, ss, base, resolve, v)
  {
    hide Addr;
  }

  lemma EffectIs(r: Rela, ss: seq<Section>, base: nat, resolve: Resolver, at: nat, value: int, width: nat)
    ensures var e := EffectOf(r, base, Addrs(ss, base, |ss|), resolve);
      e.Patch? && e.at == at && e.value == value && e.width == width <==> Writes(r, ss, base, resolve, at, value, width)
  {
    hide Addr, SymbolValue, Means;
    if r.target < |ss| && r.sym.Some? {
      var sv := SymbolValue(r.sym.value, base, Addrs(ss, base, |ss|), resolve);
      forall v: nat
        ensures sv == Some(v) <==> Means(r.sym.value, ss, base, resolve, v)
      {
        SymbolIs(r.sym.value, ss, base, resolve, v);
      }
      if sv.Some? { assert Against(r, ss, base, resolve, sv.value) == ss[r.target].alloc; }
    }
  }

  /** What one relocation alone leaves. */
  lemma OneReloc(m: Store, r: Rela, ss: seq<Section>, base: nat, resolve: Resolver)
    ensures var e := EffectOf(r, base, Addrs(ss, base, |ss|), resolve);
      ApplyRelocs(m, [r], base, Addrs(ss, base, |ss|), resolve) == Apply(Relocating(m, 0, [], []), r, e)
  {
    hide EffectOf, Addrs;
    assert [r][..0] == [];
  }

  /** A PC32 or PLT32 field sign-extended and added to its address gives S + A exactly when no
      out-of-range note was made. */
  lemma PcRelativeIff(m: Store, r: Rela, ss: seq<Section>, base: nat, resolve: Resolver, v: nat)
    requires (r.kind == 2 || r.kind == 4) && Against(r, ss, base, resolve, v)
    ensures var st := ApplyRelocs(m, [r], base, Addrs(ss, base, |ss|), resolve); var at := Addr(ss, base, r.target) + r.offset;
      && st.applied == 1 && st.unresolved == [] && (st.notes == [] || st.notes == [r])
      && (AsInt(Field(st.mem, at, 4), 4) + at == v + r.addend <==> st.notes == [])
      && forall x: nat | !(at <= x < at + 4) :: Get(st.mem, x) == Get(m, x)
  {
    hide AsInt, ToLE, Read, Field, FromLE, Get, Put, Addr, Means, Touched;
    var at := Addr(ss, base, r.target) + r.offset;
    var value := v + r.addend - at;
    PlacedOne(m, r, ss, base, resolve, v, at, value, 4);
    Pow256Values();
    SignExtendIff(value);
  }

  /** The field of one relocation that writes one. */
  lemma PlacedOne(m: Store, r: Rela, ss: seq<Section>, base: nat, resolve: Resolver, v: nat, at: nat, value: int, width: nat)
    requires Against(r, ss, base, resolve, v) && Writes(r, ss, base, resolve, at, value, width)
    ensures var e := EffectOf(r, base, Addrs(ss, base, |ss|), resolve);
      && e == Patch(at, value, width, e.noted)
      && ApplyRelocs(m, [r], base, Addrs(ss, base, |ss|), resolve) ==
           Relocating(Put(m, at, ToLE(value, width)), 1, [], if e.noted then [r] else [])
    ensures Field(Put(m, at, ToLE(value, width)), at, width) == value % Pow256(width)
    ensures forall x: nat | !(at <= x < at + width) :: Get(Put(m, at, ToLE(value, width)), x) == Get(m, x)
  {
    hide EffectOf, Addrs, ToLE, Read, Get, Put, FromLE, Touched, Writes, Against;
    EffectIs(r, ss, base, resolve, at, value, width);
    OneReloc(m, r, ss, base, resolve);
    ReadPut(m, at, ToLE(value, width));
    FieldOf(Put(m, at, ToLE(value, width)), at, value, width);
    PutGet(m, at, ToLE(value, width));
  }

  /** A 32 field zero-extended, and a 32S field sign-extended to 64 bits, give S + A (modulo 2^64
      for 32S) exactly when no truncation note was made; a 64 field always gives it modulo 2^64. */
  lemma AbsoluteIff(m: Store, r: Rela, ss: seq<Section>, base: nat, resolve: Resolver, v: nat)
    requires (r.kind == 1 || r.kind == 10 || r.kind == 11) && Against(r, ss, base, resolve, v)
    ensures var st := ApplyRelocs(m, [r], base, Addrs(ss, base, |ss|), resolve); var at := Addr(ss, base, r.target) + r.offset;
      && st.applied == 1 && st.unresolved == [] && (st.notes == [] || st.notes == [r])
      && (r.kind == 1 ==> Field(st.mem, at, 8) == (v + r.addend) % TWO_64 && st.notes == [])
      && (r.kind == 10 ==> (Field(st.mem, at, 4) == v + r.addend <==> st.notes == []))
      && (r.kind == 11 ==> ((AsInt(Field(st.mem, at, 4), 4) - (v + r.addend)) % TWO_64 == 0 <==> st.notes == []))
      && forall x: nat | !(at <= x < at + (if r.kind == 1 then 8 else 4)) :: Get(st.mem, x) == Get(m, x)
  {
    hide AsInt, ToLE, Read, Field, FromLE, Get, Put, Addr, Means, Touched;
    var at, value := Addr(ss, base, r.target) + r.offset, v + r.addend;
    PlacedOne(m, r, ss, base, resolve, v, at, value, if r.kind == 1 then 8 else 4);
    Pow256Values();
    if r.kind == 10 {
      if 0 <= value < TWO_32 { ModUnique(value, TWO_32, 0, value); }
    } else if r.kind == 11 {
      SignExtendIff(value);
      Congruent(value);
    }
  }

  /** What a relocation that writes no field leaves: its symbol's name where the resolver knows none, a note
      for a type it does not handle, and nothing for type 0, a section not in memory or no symbol. */
  lemma NoField(m: Store, r: Rela, ss: seq<Section>, base: nat, resolve: Resolver)
    requires forall at: nat, value: int, width: nat :: !Writes(r, ss, base, resolve, at, value, width)
    ensures var st := ApplyRelocs(m, [r], base, Addrs(ss, base, |ss|), resolve);
      var seen := r.target < |ss| && ss[r.target].alloc && r.sym.Some?;
      var unknown := seen && r.sym.value.shndx == 0 && resolve(r.sym.value.name).None?;
      && st.mem == m && st.applied == 0
      && st.unresolved == (if unknown then [r.sym.value.name] else [])
      && st.notes == (if seen && !unknown && r.kind != 0 then [r] else [])
  {
    hide Addr;
    var e := EffectOf(r, base, Addrs(ss, base, |ss|), resolve);
    OneReloc(m, r, ss, base, resolve);
    if e.Patch? { EffectIs(r, ss, base, resolve, e.at, e.value, e.width); }
  }

  /** Relocations one after another add up. */
  lemma {:induction false} RelocsAppend(m: Store, rs: seq<Rela>, qs: seq<Rela>, base: nat, addrs: map<nat, nat>, resolve: Resolver)
    ensures var a := ApplyRelocs(m, rs, base, addrs, resolve); var b := ApplyRelocs(a.mem, qs, base, addrs, resolve);
      ApplyRelocs(m, rs + qs, base, addrs, resolve)
        == Relocating(b.mem, a.applied + b.applied, a.unresolved + b.unresolved, a.notes + b.notes)
    decreases |qs|
  {
    hide EffectOf;
    if qs == [] {
      assert rs + qs == rs;
    } else {
      var n := |qs| - 1;
      RelocsAppend(m, rs, qs[..n], base, addrs, resolve);
      assert (rs + qs)[..|rs + qs| - 1] == rs + qs[..n];
    }
  }

  lemma Congruent(v: int)
    ensures (AsInt(v, 4) - v) % TWO_64 == 0 <==> AsInt(AsInt(v, 4), 8) == AsInt(v, 8)
  {
    hide AsInt;
    Pow256Values();
    AsIntIs(v, 4);
    AsIntIs(v, 8);
    var w := AsInt(v, 4);
    ModUnique(0, TWO_64, 0, 0);
    AsIntUnique(w, 8, w);
    if (w - v) % TWO_64 == 0 { AsIntUnique(v, 8, w); }
  }

  // ------------------------------------------------------ all the relocations

  predicate Covers(e: Effect, x: int) { e.Patch? && e.at <= x < e.at + e.width }

  /** Patches that are not the same one do not overlap. */
  ghost predicate FieldsApart(rs: seq<Rela>, base: nat, addrs: map<nat, nat>, resolve: Resolver) {
    forall r, q | r in rs && q in rs ::
      var e, f := EffectOf(r, base, addrs, resolve), EffectOf(q, base, addrs, resolve);
      e.Patch? && f.Patch? && (e.at, e.value, e.width) != (f.at, f.value, f.width) ==> e.at + e.width <= f.at || f.at + f.width <= e.at
  }

  ghost predicate FieldHolds(m: Store, e: Effect) {
    e.Patch? ==> forall x: nat | Covers(e, x) :: Get(m, x) == ToLE(e.value, e.width)[x - e.at]
  }

  ghost predicate Uncovered(rs: seq<Rela>, base: nat, addrs: map<nat, nat>, resolve: Resolver, x: int) {
    forall r | r in rs :: !Covers(EffectOf(r, base, addrs, resolve), x)
  }

  predicate TouchesPage(e: Effect, p: nat) { e.Patch? && p in Touched(e.at, e.width) }

  ghost predicate PageTouched(rs: seq<Rela>, base: nat, addrs: map<nat, nat>, resolve: Resolver, p: nat) {
    exists r :: r in rs && TouchesPage(EffectOf(r, base, addrs, resolve), p)
  }

  /** m' is m with the relocations' fields written: it says nothing about their order. */
  ghost predicate Patched(m: Store, m': Store, rs: seq<Rela>, base: nat, addrs: map<nat, nat>, resolve: Resolver) {
    && (forall r | r in rs :: FieldHolds(m', EffectOf(r, base, addrs, resolve)))
    && (forall x: nat | Uncovered(rs, base, addrs, resolve, x) :: Get(m', x) == Get(m, x))
    && (forall p: nat :: p in m' <==> p in m || PageTouched(rs, base, addrs, resolve, p))
  }

  /** Relocating non-overlapping fields writes each field's value and touches no other byte. */
  lemma {:induction false} RelocsPatched(m: Store, rs: seq<Rela>, base: nat, addrs: map<nat, nat>, resolve: Resolver)
    requires FieldsApart(rs, base, addrs, resolve)
    ensures Patched(m, ApplyRelocs(m, rs, base, addrs, resolve).mem, rs, base, addrs, resolve)
    decreases |rs|
  {
    hide Get, EffectOf, Patched, FieldsApart;
    if rs != [] {
      var n := |rs| - 1;
      FewerApart(rs, base, addrs, resolve);
      RelocsPatched(m, rs[..n], base, addrs, resolve);
      var st := ApplyRelocs(m, rs[..n], base, addrs, resolve);
      PatchStep(m, st, rs, base, addrs, resolve);
    } else {
      NonePatched(m, base, addrs, resolve);
    }
  }

  lemma NonePatched(m: Store, base: nat, addrs: map<nat, nat>, resolve: Resolver)
    ensures Patched(m, m, [], base, addrs, resolve)
  {
    hide Get, EffectOf;
  }

  lemma FewerApart(rs: seq<Rela>, base: nat, addrs: map<nat, nat>, resolve: Resolver)
    requires rs != [] && FieldsApart(rs, base, addrs, resolve)
    ensures FieldsApart(rs[..|rs| - 1], base, addrs, resolve)
  {
    hide EffectOf;
    assert forall r | r in rs[..|rs| - 1] :: r in rs;
  }

  /** One effect on memory. */
  ghost predicate Effected(m: Store, m': Store, e: Effect) {
    if e.Patch? then Wrote(m, m', e.at, ToLE(e.value, e.width)) else m' == m
  }

  lemma PatchStep(m: Store, st: Relocating, rs: seq<Rela>, base: nat, addrs: map<nat, nat>, resolve: Resolver)
    requires rs != [] && FieldsApart(rs, base, addrs, resolve) && Patched(m, st.mem, rs[..|rs| - 1], base, addrs, resolve)
    ensures var r := rs[|rs| - 1]; Patched(m, Apply(st, r, EffectOf(r, base, addrs, resolve)).mem, rs, base, addrs, resolve)
  {
    hide *;
    var last := rs[|rs| - 1];
    var e := EffectOf(last, base, addrs, resolve);
    var m' := Apply(st, last, e).mem;
    OneEffect(st, last, e);
    StepHolds(m, st.mem, m', rs, base, addrs, resolve);
    StepBytes(m, st.mem, m', rs, base, addrs, resolve);
    StepPages(m, st.mem, m', rs, base, addrs, resolve);
    PatchedParts(m, m', rs, base, addrs, resolve);
  }

  lemma PatchedParts(m: Store, m': Store, rs: seq<Rela>, base: nat, addrs: map<nat, nat>, resolve: Resolver)
    requires forall r | r in rs :: FieldHolds(m', EffectOf(r, base, addrs, resolve))
    requires forall x: nat | Uncovered(rs, base, addrs, resolve, x) :: Get(m', x) == Get(m, x)
    requires forall p: nat :: p in m' <==> p in m || PageTouched(rs, base, addrs, resolve, p)
    ensures Patched(m, m', rs, base, addrs, resolve)
  {
    hide Get, EffectOf, FieldHolds, Uncovered, PageTouched;
  }

  lemma OneEffect(st: Relocating, r: Rela, e: Effect)
    ensures Effected(st.mem, Apply(st, r, e).mem, e)
  {
    hide Get, Put, Touched, ToLE;
    if e.Patch? { PutGet(st.mem, e.at, ToLE(e.value, e.width)); }
  }

  lemma StepHolds(m: Store, m1: Store, m': Store, rs: seq<Rela>, base: nat, addrs: map<nat, nat>, resolve: Resolver)
    requires rs != [] && FieldsApart(rs, base, addrs, resolve) && Patched(m, m1, rs[..|rs| - 1], base, addrs, resolve)
    requires Effected(m1, m', EffectOf(rs[|rs| - 1], base, addrs, resolve))
    ensures forall r | r in rs :: FieldHolds(m', EffectOf(r, base, addrs, resolve))
  {
    hide Get, EffectOf, Touched, FieldHolds, ToLE, Wrote, Uncovered, PageTouched;
    var n := |rs| - 1;
    var e := EffectOf(rs[n], base, addrs, resolve);
    if e.Patch? { LastHolds(m1, m', e); } else { NoPatchHolds(m', e); }
    forall r | r in rs
      ensures FieldHolds(m', EffectOf(r, base, addrs, resolve))
    {
      if r != rs[n] {
        assert r in rs[..n] && rs[n] in rs;
        OtherHolds(m1, m', e, EffectOf(r, base, addrs, resolve));
      }
    }
  }

  lemma StepBytes(m: Store, m1: Store, m': Store, rs: seq<Rela>, base: nat, addrs: map<nat, nat>, resolve: Resolver)
    requires rs != [] && Patched(m, m1, rs[..|rs| - 1], base, addrs, resolve)
    requires Effected(m1, m', EffectOf(rs[|rs| - 1], base, addrs, resolve))
    ensures forall x: nat | Uncovered(rs, base, addrs, resolve, x) :: Get(m', x) == Get(m, x)
  {
    hide Get, EffectOf, Touched, FieldHolds, ToLE, Uncovered, PageTouched;
    UncoveredStep(rs, base, addrs, resolve);
  }

  lemma StepPages(m: Store, m1: Store, m': Store, rs: seq<Rela>, base: nat, addrs: map<nat, nat>, resolve: Resolver)
    requires rs != [] && Patched(m, m1, rs[..|rs| - 1], base, addrs, resolve)
    requires Effected(m1, m', EffectOf(rs[|rs| - 1], base, addrs, resolve))
    ensures forall p: nat :: p in m' <==> p in m || PageTouched(rs, base, addrs, resolve, p)
  {
    hide Get, EffectOf, Touched, FieldHolds, ToLE, Uncovered, PageTouched;
    PagesStep(rs, base, addrs, resolve);
  }

  lemma LastHolds(m: Store, m': Store, e: Effect)
    requires e.Patch? && Wrote(m, m', e.at, ToLE(e.value, e.width))
    ensures FieldHolds(m', e)
  {
    hide Get, ToLE, Touched;
  }

  lemma NoPatchHolds(m: Store, e: Effect)
    requires !e.Patch?
    ensures FieldHolds(m, e)
  {
  }

  lemma OtherHolds(m: Store, m': Store, e: Effect, f: Effect)
    requires FieldHolds(m, f)
    requires e.Patch? && f.Patch? && (e.at, e.value, e.width) != (f.at, f.value, f.width) ==> e.at + e.width <= f.at || f.at + f.width <= e.at
    requires e.Patch? ==> Wrote(m, m', e.at, ToLE(e.value, e.width))
    requires !e.Patch? ==> m' == m
    ensures FieldHolds(m', f)
  {
    hide Get, ToLE, Touched;
  }

  lemma UncoveredStep(rs: seq<Rela>, base: nat, addrs: map<nat, nat>, resolve: Resolver)
    requires rs != []
    ensures forall x: int | Uncovered(rs, base, addrs, resolve, x) ::
      Uncovered(rs[..|rs| - 1], base, addrs, resolve, x) && !Covers(EffectOf(rs[|rs| - 1], base, addrs, resolve), x)
  {
    hide EffectOf;
  }

  lemma PagesStep(rs: seq<Rela>, base: nat, addrs: map<nat, nat>, resolve: Resolver)
    requires rs != []
    ensures forall p: nat :: PageTouched(rs, base, addrs, resolve, p) <==>
      PageTouched(rs[..|rs| - 1], base, addrs, resolve, p) || TouchesPage(EffectOf(rs[|rs| - 1], base, addrs, resolve), p)
  {
    hide EffectOf, TouchesPage;
    var n := |rs| - 1;
    assert forall r :: r in rs <==> r in rs[..n] || r == rs[n];
  }

  /** Fields that are not the same one do not overlap. */
  ghost predicate WritesApart(rs: seq<Rela>, ss: seq<Section>, base: nat, resolve: Resolver) {
    forall r, q, at: nat, value: int, width: nat, at': nat, value': int, width': nat |
      r in rs && q in rs && Writes(r, ss, base, resolve, at, value, width) && Writes(q, ss, base, resolve, at', value', width') ::
      (at, value, width) == (at', value', width') || at + width <= at' || at' + width' <= at
  }

  /** x is in the field of one of the relocations. */
  ghost predicate Written(rs: seq<Rela>, ss: seq<Section>, base: nat, resolve: Resolver, x: int) {
    exists r, at: nat, value: int, width: nat :: r in rs && Writes(r, ss, base, resolve, at, value, width) && at <= x < at + width
  }

  lemma ApartIs(rs: seq<Rela>, ss: seq<Section>, base: nat, resolve: Resolver)
    requires WritesApart(rs, ss, base, resolve)
    ensures FieldsApart(rs, base, Addrs(ss, base, |ss|), resolve)
  {
    hide EffectOf, Addrs, Writes;
    forall r, q | r in rs && q in rs
      ensures var e, f := EffectOf(r, base, Addrs(ss, base, |ss|), resolve), EffectOf(q, base, Addrs(ss, base, |ss|), resolve);
        e.Patch? && f.Patch? && (e.at, e.value, e.width) != (f.at, f.value, f.width) ==> e.at + e.width <= f.at || f.at + f.width <= e.at
    {
      var e, f := EffectOf(r, base, Addrs(ss, base, |ss|), resolve), EffectOf(q, base, Addrs(ss, base, |ss|), resolve);
      if e.Patch? && f.Patch? {
        EffectIs(r, ss, base, resolve, e.at, e.value, e.width);
        EffectIs(q, ss, base, resolve, f.at, f.value, f.width);
      }
    }
  }

  lemma UncoveredIs(rs: seq<Rela>, ss: seq<Section>, base: nat, resolve: Resolver, x: int)
    ensures Uncovered(rs, base, Addrs(ss, base, |ss|), resolve, x) <==> !Written(rs, ss, base, resolve, x)
  {
    hide EffectOf, Addrs, Writes;
    forall r | r in rs
      ensures Covers(EffectOf(r, base, Addrs(ss, base, |ss|), resolve), x) <==>
        exists at: nat, value: int, width: nat :: Writes(r, ss, base, resolve, at, value, width) && at <= x < at + width
    {
      var e := EffectOf(r, base, Addrs(ss, base, |ss|), resolve);
      if e.Patch? { EffectIs(r, ss, base, resolve, e.at, e.value, e.width); }
      forall at: nat, value: int, width: nat | Writes(r, ss, base, resolve, at, value, width)
        ensures e.Patch? && e.at == at && e.width == width
      {
        EffectIs(r, ss, base, resolve, at, value, width);
      }
    }
  }

  /** Every field holds its value modulo its width. */
  ghost predicate AllHold(m: Store, rs: seq<Rela>, ss: seq<Section>, base: nat, resolve: Resolver) {
    forall r, at: nat, value: int, width: nat | r in rs && Writes(r, ss, base, resolve, at, value, width) ::
      Field(m, at, width) == value % Pow256(width)
  }

  lemma HoldsAll(m: Store, rs: seq<Rela>, ss: seq<Section>, base: nat, resolve: Resolver)
    requires forall r | r in rs :: FieldHolds(m, EffectOf(r, base, Addrs(ss, base, |ss|), resolve))
    ensures AllHold(m, rs, ss, base, resolve)
  {
    hide EffectOf, Addrs, Writes, ToLE, FromLE, Get;
    forall r, at: nat, value: int, width: nat | r in rs && Writes(r, ss, base, resolve, at, value, width)
      ensures Field(m, at, width) == value % Pow256(width)
    {
      EffectIs(r, ss, base, resolve, at, value, width);
      assert FieldHolds(m, EffectOf(r, base, Addrs(ss, base, |ss|), resolve));
      assert Read(m, at, width) == ToLE(value, width);
      FieldOf(m, at, value, width);
    }
  }

  /** Relocating non-overlapping fields puts S + A, less the place where it is relative, into each field
      and touches no other byte. */
  lemma RelocsOk(m: Store, rs: seq<Rela>, ss: seq<Section>, base: nat, resolve: Resolver)
    requires WritesApart(rs, ss, base, resolve)
    ensures var m' := ApplyRelocs(m, rs, base, Addrs(ss, base, |ss|), resolve).mem;
      && AllHold(m', rs, ss, base, resolve)
      && (forall x: nat | !Written(rs, ss, base, resolve, x) :: Get(m', x) == Get(m, x))
  {
    hide EffectOf, Addrs, Writes, Get, ApplyRelocs, FieldHolds, Uncovered, Written, FieldsApart, WritesApart, PageTouched, AllHold;
    ApartIs(rs, ss, base, resolve);
    RelocsPatched(m, rs, base, Addrs(ss, base, |ss|), resolve);
    var m' := ApplyRelocs(m, rs, base, Addrs(ss, base, |ss|), resolve).mem;
    HoldsAll(m', rs, ss, base, resolve);
    forall x: nat | !Written(rs, ss, base, resolve, x)
      ensures Get(m', x) == Get(m, x)
    {
      UncoveredIs(rs, ss, base, resolve, x);
    }
  }

  /** Any order of the same relocations leaves the same memory. */
  lemma OrderFree(m: Store, rs: seq<Rela>, qs: seq<Rela>, ss: seq<Section>, base: nat, resolve: Resolver)
    requires WritesApart(rs, ss, base, resolve) && forall r :: r in rs <==> r in qs
    ensures ApplyRelocs(m, rs, base, Addrs(ss, base, |ss|), resolve).mem == ApplyRelocs(m, qs, base, Addrs(ss, base, |ss|), resolve).mem
  {
    hide Get, EffectOf, ApplyRelocs, Addrs, Writes;
    var addrs := Addrs(ss, base, |ss|);
    ApartIs(rs, ss, base, resolve);
    RelocsPatched(m, rs, base, addrs, resolve);
    SameApart(rs, qs, base, addrs, resolve);
    RelocsPatched(m, qs, base, addrs, resolve);
    var m1, m2 := ApplyRelocs(m, rs, base, addrs, resolve).mem, ApplyRelocs(m, qs, base, addrs, resolve).mem;
    forall x: nat
      ensures Get(m1, x) == Get(m2, x)
    {
      SameByte(m, m1, m2, rs, qs, base, addrs, resolve, x);
    }
    forall p: nat
      ensures p in m1 <==> p in m2
    {
    }
    Extensional(m1, m2);
  }

  lemma SameApart(rs: seq<Rela>, qs: seq<Rela>, base: nat, addrs: map<nat, nat>, resolve: Resolver)
    requires FieldsApart(rs, base, addrs, resolve) && forall r :: r in rs <==> r in qs
    ensures FieldsApart(qs, base, addrs, resolve)
  {
    hide EffectOf;
  }

  lemma SameByte(m: Store, m1: Store, m2: Store, rs: seq<Rela>, qs: seq<Rela>, base: nat, addrs: map<nat, nat>, resolve: Resolver, x: nat)
    requires Patched(m, m1, rs, base, addrs, resolve) && Patched(m, m2, qs, base, addrs, resolve) && forall r :: r in rs <==> r in qs
    ensures Get(m1, x) == Get(m2, x)
  {
    hide Get, EffectOf, PageTouched;
    if Uncovered(rs, base, addrs, resolve, x) {
      assert Uncovered(qs, base, addrs, resolve, x);
    } else {
      var r :| r in rs && Covers(EffectOf(r, base, addrs, resolve), x);
      assert FieldHolds(m1, EffectOf(r, base, addrs, resolve)) && FieldHolds(m2, EffectOf(r, base, addrs, resolve));
    }
  }

  // ------------------------------------------------------------------ mapModule

  datatype Module = Module(sections: seq<Section>, symbols: seq<Symbol>, relas: seq<Rela>)

  const INIT_NAME: seq<Byte> := [0x69, 0x6e, 0x69, 0x74, 0x5f, 0x6d, 0x6f, 0x64, 0x75, 0x6c, 0x65]
  const CLEANUP_NAME: seq<Byte> := [0x63, 0x6c, 0x65, 0x61, 0x6e, 0x75, 0x70, 0x5f, 0x6d, 0x6f, 0x64, 0x75, 0x6c, 0x65]

  /** The address of the first symbol of a name. */
  function EntryOf(symbols: seq<Symbol>, name: seq<Byte>, base: nat, addrs: map<nat, nat>): Option<nat> {
    if symbols == [] then None
    else if symbols[0].name == name then
      Some((if symbols[0].shndx in addrs then addrs[symbols[0].shndx] else base) + symbols[0].value)
    else EntryOf(symbols[1..], name, base, addrs)
  }

  datatype Mapped = Mapped(imageSize: int, addrs: map<nat, nat>, applied: nat, unresolved: seq<seq<Byte>>, notes: seq<Rela>,
                           init: Option<nat>, cleanup: Option<nat>)

  lemma ImageSizeNat(ss: seq<Section>, base: nat)
    ensures ImageSize(ss, base) >= 0
  {
    hide AlignUp, Align;
    CursorRises(ss, base, 0, |ss|);
  }

  /** Memory once every section is in and every page of the image is present. */
  function Prepared(m: Store, ss: seq<Section>, base: nat): Store {
    ImageSizeNat(ss, base);
    Backed(Loaded(m, ss, base, |ss|), base / 4096, PageEnd(base + ImageSize(ss, base)))
  }

  function MapModule(m: Store, k: Module, base: nat, resolve: Resolver): (Store, Mapped) {
    var addrs := Addrs(k.sections, base, |k.sections|);
    var st := ApplyRelocs(Prepared(m, k.sections, base), k.relas, base, addrs, resolve);
    (st.mem, Mapped(ImageSize(k.sections, base), addrs, st.applied, st.unresolved, st.notes,
                    EntryOf(k.symbols, INIT_NAME, base, addrs), EntryOf(k.symbols, CLEANUP_NAME, base, addrs)))
  }

  /** Loading and preparing make no page present but those of the image, up to the first page edge at or
      behind its end. */
  lemma PreparedPages(m: Store, ss: seq<Section>, base: nat, p: nat)
    requires p in Prepared(m, ss, base) && p !in m && forall i | 0 <= i < |ss| :: SectionOk(ss[i])
    ensures base / 4096 <= p && p * 4096 < base + ImageSize(ss, base)
  {
    hide Loaded, Addr, ImageSize, SectionOk, Get;
    ImageSizeNat(ss, base);
    var end := base + ImageSize(ss, base);
    BackedPages(Loaded(m, ss, base, |ss|), base / 4096, PageEnd(end));
    if p in Loaded(m, ss, base, |ss|) { LoadedPages(m, ss, base, |ss|, p); } else { PageBefore(p, end); }
  }

  lemma PageBefore(p: nat, end: nat)
    ensures p < PageEnd(end) <==> p * 4096 < end
  {
  }

  lemma {:induction false} LoadedPages(m: Store, ss: seq<Section>, base: nat, k: nat, p: nat)
    requires k <= |ss| && p in Loaded(m, ss, base, k) && p !in m && forall i | 0 <= i < |ss| :: SectionOk(ss[i])
    ensures base / 4096 <= p && p * 4096 < base + ImageSize(ss, base)
    decreases k
  {
    hide Put, Backed, Addr, ImageSize, SectionOk, Get;
    var m1 := Loaded(m, ss, base, k - 1);
    if p in m1 {
      LoadedPages(m, ss, base, k - 1, p);
    } else {
      var s, a := ss[k - 1], Addr(ss, base, k - 1);
      LayoutOk(ss, base, k - 1, k);
      DataFits(ss, k - 1);
      if s.nobits {
        BackedPages(m1, a / 4096, PageEnd(a + s.size));
        PageBefore(p, a + s.size);
      } else {
        PutPage(m1, a, s.data, p);
      }
    }
  }

  /** The entry of a name is where the first symbol that bears it stands: in its section if that is loaded,
      from base otherwise. */
  lemma {:induction false} EntryIs(symbols: seq<Symbol>, name: seq<Byte>, ss: seq<Section>, base: nat, i: nat)
    requires i <= |symbols| && (forall k | 0 <= k < i :: symbols[k].name != name) && (i < |symbols| ==> symbols[i].name == name)
    ensures var e := EntryOf(symbols, name, base, Addrs(ss, base, |ss|));
      if i == |symbols| then e == None
      else var y := symbols[i];
        e == Some(y.value + if y.shndx < |ss| && ss[y.shndx].alloc then Addr(ss, base, y.shndx) else base)
    decreases |symbols|
  {
    hide Addr;
    if i > 0 { EntryIs(symbols[1..], name, ss, base, i - 1); }
  }

  /** init_module and cleanup_module, letter by letter. */
  predicate Spells(name: seq<Byte>, text: string) {
    |name| == |text| && forall k | 0 <= k < |text| :: name[k] as int == text[k] as int
  }

  lemma MapModuleEntries(m: Store, k: Module, base: nat, resolve: Resolver, init: seq<Byte>, cleanup: seq<Byte>)
    requires Spells(init, "init_module") && Spells(cleanup, "cleanup_module")
    ensures var r := MapModule(m, k, base, resolve).1; var addrs := Addrs(k.sections, base, |k.sections|);
      && r.init == EntryOf(k.symbols, init, base, addrs) && r.cleanup == EntryOf(k.symbols, cleanup, base, addrs)
      && r.addrs == addrs && r.imageSize == ImageSize(k.sections, base)
  {
    hide ApplyRelocs, EntryOf, Addrs, ImageSize, Prepared;
    assert init == INIT_NAME;
    assert cleanup == CLEANUP_NAME;
  }

  /** A module loaded and relocated, byte by byte (LayoutApart gives the first requirement whenever
      the loader chooses the layout): fields hold their values, section data is as
      in the file elsewhere, every page of the image is present, and no other byte changes. */
  lemma MapModuleOk(m: Store, k: Module, base: nat, resolve: Resolver)
    requires DataApart(k.sections, base) && forall i | 0 <= i < |k.sections| :: SectionOk(k.sections[i])
    requires WritesApart(k.relas, k.sections, base, resolve)
    ensures var (m', r) := MapModule(m, k, base, resolve);
      && AllHold(m', k.relas, k.sections, base, resolve)
      && (forall i: nat, d: nat | i < |k.sections| && k.sections[i].alloc && d < |k.sections[i].data|
            && !Written(k.relas, k.sections, base, resolve, Addr(k.sections, base, i) + d) ::
            Get(m', Addr(k.sections, base, i) + d) == k.sections[i].data[d])
      && (forall x: nat | base <= x < base + r.imageSize :: x / 4096 in m')
      && (forall x: nat | ClearData(k.sections, base, |k.sections|, x) && !Written(k.relas, k.sections, base, resolve, x) :: Get(m', x) == Get(m, x))
  {
    hide Get, EffectOf, ApplyRelocs, Loaded, Backed, Addr, Addrs, DataApart, ImageSize, FieldHolds, Uncovered,
      PageTouched, ClearData, SectionOk,
      DataIn, EntryOf, Written, Writes, WritesApart, AllHold;
    var ss, n := k.sections, |k.sections|;
    var addrs := Addrs(ss, base, n);
    ImageSizeNat(ss, base);
    var m1 := Loaded(m, ss, base, n);
    LoadedOk(m, ss, base, n);
    BackedKeeps(m1, base / 4096, PageEnd(base + ImageSize(ss, base)));
    var m2 := Prepared(m, ss, base);
    RelocsOk(m2, k.relas, ss, base, resolve);
    RelocsPages(m2, k.relas, ss, base, resolve);
    var m' := MapModule(m, k, base, resolve).0;
    forall i: nat, d: nat | i < n && ss[i].alloc && d < |ss[i].data| && !Written(k.relas, ss, base, resolve, Addr(ss, base, i) + d)
      ensures Get(m', Addr(ss, base, i) + d) == ss[i].data[d]
    {
      assert DataIn(m1, ss, base, i);
      DataAt(m1, ss, base, i, d);
    }
    forall x: nat | base <= x < base + ImageSize(ss, base)
      ensures x / 4096 in m'
    {
      PageInside(base, ImageSize(ss, base), x);
    }
  }

  lemma RelocsPages(m: Store, rs: seq<Rela>, ss: seq<Section>, base: nat, resolve: Resolver)
    requires WritesApart(rs, ss, base, resolve)
    ensures m.Keys <= ApplyRelocs(m, rs, base, Addrs(ss, base, |ss|), resolve).mem.Keys
  {
    hide EffectOf, Addrs, Writes, Get, ApplyRelocs, FieldHolds, Uncovered, FieldsApart, WritesApart, PageTouched;
    ApartIs(rs, ss, base, resolve);
    RelocsPatched(m, rs, base, Addrs(ss, base, |ss|), resolve);
  }

  lemma DataAt(m: Store, ss: seq<Section>, base: nat, i: nat, d: nat)
    requires i < |ss| && DataIn(m, ss, base, i) && d < |ss[i].data|
    ensures Get(m, Addr(ss, base, i) + d) == ss[i].data[d]
  {
    hide Get, Addr;
  }

  lemma PageInside(base: nat, size: int, x: nat)
    requires size >= 0 && base <= x < base + size
    ensures base / 4096 <= x / 4096 < PageEnd(base + size)
  {
  }
}
