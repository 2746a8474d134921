/** Runs of the MMU and of the memory behind it against the plain machine. */
module MmuRuns {
  import opened Bytes
  import opened Store
  import opened PageTables
  import opened TableBuilder
  import opened MmuModel
  import opened MmuRefinement
  import opened DemandPaging
  import opened PlainSpans
  import opened VirtualMemory
  import opened P = PlainMachine

  /** The MMU, its physical memory and what the kernel has configured. */
  datatype Machine = Machine(s: State, config: Config)

  function Step(m: Machine, op: Op): (Machine, Answer) {
    var s, c := m.s, m.config;
    match op
    case MapOp(va, pa, fl) => (m.(s := MapPage(s, va, pa, fl)), Quiet)
    case UnmapOp(va) => (m.(s := Unmap(s, va)), Quiet)
    case TranslateOp(va, access) => var (s', o) := Translate(s, va, access); (m.(s := s'), Found(Erase(o)))
    case NewSpaceOp => var (s', r) := NewAddressSpace(s); (m.(s := s'), Handed(r))
    case SwitchOp(root) => (m.(s := SwitchTo(s, root)), Quiet)
    case AllocOp(count) => (m.(s := s.(next := s.next + 4096 * count)), Handed(s.next))
    case ConfigureOp(config) => (m.(config := config), Quiet)
    case EnsureOp(va, len, fill) => (m.(s := Ensure(s, c.windows, va, len, fill)), Quiet)
    case ReadOp(va, len) => var (s', r) := ReadBytes(s, c, va % TWO_64, len); (m.(s := s'), ReadAnswer(r))
    case WriteOp(va, bytes) => var (s', r) := WriteBytes(s, c, va % TWO_64, bytes); (m.(s := s'), WriteAnswer(r))
    case FetchOp(va, len) => var (s', r) := FetchBytes(s, c, va % TWO_64, len); (m.(s := s'), ReadAnswer(r))
    case RawReadOp(pa, len) => (m, Data(Read(s.mem, pa, len)))
    case RawWriteOp(pa, bytes) => (m.(s := s.(mem := Put(s.mem, pa, bytes))), Quiet)
  }

  function Run(m: Machine, ops: seq<Op>): (Machine, seq<Answer>)
    decreases |ops|
  {
    if |ops| == 0 then (m, [])
    else
      var (m1, out) := Step(m, ops[0]);
      var (m2, outs) := Run(m1, ops[1..]);
      (m2, [out] + outs)
  }

  ghost predicate Matches(m: Machine, a: Plain) {
    Agrees(m.s, a) && m.config == a.config
  }

  lemma StepConfig(a: Plain, op: Op)
    ensures P.Step(a, op).0.config == if op.ConfigureOp? then op.config else a.config
  {
    hide ReadPlain, WritePlain, Reach, DemandFrom, Grow, Clear, Put;
    match op
    case ReadOp(va, len) => ReadDoes(a, va % TWO_64, len, true);
    case WriteOp(va, bytes) => var k := WriteDoes(a, va % TWO_64, bytes, true);
    case FetchOp(va, len) => ReachKeeps(a, va % TWO_64, Fetching);
    case EnsureOp(va, len, fill) => DemandFromConfig(a, RoundDown(va % TWO_64), RoundDown(va % TWO_64 + len - 1), fill);
    case _ =>
  }

  lemma {:induction false} DemandFromConfig(a: Plain, cur: nat, end: int, fill: Fill)
    ensures DemandFrom(a, cur, end, fill).config == a.config
    decreases end - cur
  {
    hide Demand;
    if cur <= end {
      DemandNext(a, cur, fill);
      DemandFromConfig(Demand(a, cur, fill), cur + 4096, end, fill);
    }
  }

  /** One operation: the plain machine predicts the output, and the machines still agree. */
  lemma StepAgrees(m: Machine, a: Plain, op: Op)
    requires Matches(m, a) && Legal(a, op)
    ensures var (m', out) := Step(m, op);
      P.Step(a, op).1 == out && Matches(m', P.Step(a, op).0)
  {
    hide Agrees, ReadBytes, WriteBytes, FetchBytes, ReadPlain, WritePlain, FetchPlain, MapPage, Unmap, Translate, SwitchTo,
         NewAddressSpace, EnsureFrom, DemandFrom, Assign, Look, Clear, Read, Put, Get, Alike;
    StepConfig(a, op);
    AgreesNext(m.s, a);
    match op
    case MapOp(va, pa, fl) =>
      AssignNext(a, va, Mapping(FrameOf(pa), fl.write, fl.user, !fl.nx));
      MapAgrees(m.s, a, va, pa, fl);
    case UnmapOp(va) => UnmapAgrees(m.s, a, va);
    case TranslateOp(va, access) => TranslateAgrees(m.s, a, va, access);
    case NewSpaceOp => NewSpaceAgrees(m.s, a);
    case SwitchOp(root) => SwitchAgrees(m.s, a, root);
    case AllocOp(count) => AllocAgrees(m.s, a, count);
    case ConfigureOp(config) => ConfigureAgrees(m.s, a, config);
    case EnsureOp(va, len, fill) => EnsureAgrees(m.s, a, RoundDown(va % TWO_64), RoundDown(va % TWO_64 + len - 1), fill);
    case ReadOp(va, len) => ReadAgrees(m.s, a, va % TWO_64, len);
    case WriteOp(va, bytes) => WriteAgrees(m.s, a, va % TWO_64, bytes);
    case FetchOp(va, len) => FetchAgrees(m.s, a, va % TWO_64, len);
    case RawReadOp(pa, len) => ReadsAlike(m.s, a, pa, len);
    case RawWriteOp(pa, bytes) =>
      AgreesAlike(m.s, a);
      ClearAt(a, pa, |bytes|);
      PutAlike(m.s.mem, a.bytes, a.tables, pa, bytes);
      DataAgrees(m.s, a, Put(m.s.mem, pa, bytes), Put(a.bytes, pa, bytes));
  }

  lemma AssignNext(a: Plain, va: int, g: Mapping)
    ensures a.next <= Assign(a, va, g).next
  {
    hide Grow;
    GrowLater(a.tables, a.next, a.cur, 4, PageOf(va));
  }

  lemma ConfigureAgrees(s: State, a: Plain, config: Config)
    requires Agrees(s, a)
    ensures Agrees(s, a.(config := config))
  {
    hide Sound, Filed, AllShown;
  }

  /** Every run: all outputs of the cached machine on bytes are those of the plain machine. */
  lemma {:induction false} RunAgrees(m: Machine, a: Plain, ops: seq<Op>)
    requires Matches(m, a) && LegalRun(a, ops)
    ensures Run(m, ops).1 == P.Run(a, ops).1 && Matches(Run(m, ops).0, P.Run(a, ops).0)
    decreases |ops|
  {
    hide Step, P.Step, Matches, Legal;
    if |ops| > 0 {
      StepAgrees(m, a, ops[0]);
      RunAgrees(Step(m, ops[0]).0, P.Step(a, ops[0]).0, ops[1..]);
    }
  }

  /** The plain machine of a new MMU with one empty address space. */
  function Start(frameBase: nat, cr4: nat, config: Config): Plain {
    Plain(frameBase, cr4, map[], map[frameBase := Place(frameBase, 4, 0)], frameBase + 4096, map[], config)
  }

  lemma BootAgrees(frameBase: nat, cr4: nat, config: Config)
    requires frameBase % 4096 == 0 && frameBase + 4096 <= TWO_52
    ensures Matches(Machine(Boot(frameBase, cr4), config), Start(frameBase, cr4, config))
  {
    hide Get, CacheOk, Shape, WalkFrom, Boot, Has;
    BootSound(frameBase, cr4);
    EmptyStore();
    var s, a := Boot(frameBase, cr4), Start(frameBase, cr4, config);
    BootFiled(s.mem, frameBase);
  }

  lemma BootFiled(m: Store, frameBase: nat)
    requires forall p: nat :: WalkFrom(m, frameBase, 4, p) == Missing
    ensures Filed(m, map[frameBase := Place(frameBase, 4, 0)])
  {
    var own: Forest := map[frameBase := Place(frameBase, 4, 0)];
    forall f, i: nat | f in own && own[f].level > 1 && i < 512
      ensures Bare(m, own, f, i)
    {
    }
  }

  /** From boot, for every legal list of operations. */
  lemma BootRuns(frameBase: nat, cr4: nat, config: Config, ops: seq<Op>)
    requires frameBase % 4096 == 0 && frameBase + 4096 <= TWO_52
    requires LegalRun(Start(frameBase, cr4, config), ops)
    ensures Run(Machine(Boot(frameBase, cr4), config), ops).1 == P.Run(Start(frameBase, cr4, config), ops).1
  {
    hide *;
    BootAgrees(frameBase, cr4, config);
    RunAgrees(Machine(Boot(frameBase, cr4), config), Start(frameBase, cr4, config), ops);
  }

  // ------------------------------------------------------ two pages on one frame

  const SHARED: nat := 0x50_0000

  /** A one, then zeros up to the first byte of the next page. */
  function OneThenZeros(): (bs: seq<Byte>)
    ensures |bs| == 4097
  {
    [1] + Zeros(4096)
  }

  function SharedRun(): seq<Op> {
    var fl := Flags(true, false, false, false);
    [MapOp(0x1000, SHARED, fl), MapOp(0x2000, SHARED, fl), WriteOp(0x1000, OneThenZeros()), ReadOp(0x1000, 4097)]
  }

  function Plainly(): Config { Config(true, [], (x, w) => false) }

  /** Both pages on the shared frame, writable. */
  ghost predicate BothShared(a: Plain) {
    var g := Mapping(SHARED, true, false, true);
    && a.config == Plainly() && a.next <= 0x10_8000
    && (a.cur, 1) in a.pages && a.pages[(a.cur, 1)] == g && (a.cur, 2) in a.pages && a.pages[(a.cur, 2)] == g
    && (forall f | f in a.tables :: f < a.next)
  }

  lemma SharedMapped(cr4: nat)
    ensures var a := Start(0x10_0000, cr4, Plainly());
      var a1 := P.Step(a, SharedRun()[0]).0; var a2 := P.Step(a1, SharedRun()[1]).0;
      && Legal(a, SharedRun()[0]) && P.Step(a, SharedRun()[0]).1 == Quiet
      && Legal(a1, SharedRun()[1]) && P.Step(a1, SharedRun()[1]).1 == Quiet && BothShared(a2)
  {
    hide Grow;
    var a := Start(0x10_0000, cr4, Plainly());
    var a1 := P.Step(a, SharedRun()[0]).0;
    GrowLater(a.tables, a.next, a.cur, 4, 1);
    GrowBound(a.tables, a.next, a.cur, 4, 1);
    GrowLater(a1.tables, a1.next, a1.cur, 4, 2);
    GrowBound(a1.tables, a1.next, a1.cur, 4, 2);
  }

  lemma SharedByte(a: Plain, x: nat)
    requires BothShared(a) && 0x1000 <= x < 0x2001
    ensures Granting(a, x, Writing) && Pa(a, x) == SHARED + x % 4096 && Clear(a, Pa(a, x), 1)
  {
    ModUnique(x, TWO_64, 0, x);
    ModUnique(x, 4096, if x < 0x2000 then 1 else 2, if x < 0x2000 then x - 0x1000 else x - 0x2000);
    FrameBytes(SHARED);
  }

  lemma SharedLost(a: Plain)
    requires BothShared(a)
    ensures var (a', w) := WritePlain(a, 0x1000, OneThenZeros(), true);
      w == Quiet && a'.next == a.next <= 0x10_8000 && ReadPlain(a', 0x1000, 4097, true).1 != Table && ReadPlain(a', 0x1000, 4097, true).0 == a'
      && ReadPlain(a', 0x1000, 4097, true).1 != Data(OneThenZeros())
  {
    hide WritePlain, ReadPlain, Granting, Pa, Clear, BothShared, OneThenZeros;
    var bs := OneThenZeros();
    forall x: nat | 0x1000 <= x < 0x1000 + 4097
      ensures Granting(a, x, Writing) && Clear(a, Pa(a, x), 1)
    {
      SharedByte(a, x);
    }
    SharedUnguarded(a);
    WriteMapped(a, 0x1000, bs, true);
    var a' := WritePlain(a, 0x1000, bs, true).0;
    SharedStill(a, a'.bytes);
    forall x: nat | 0x1000 <= x < 0x1000 + 4097
      ensures Granting(a', x, Reading) && Clear(a', Pa(a', x), 1)
    {
      SharedByte(a', x);
      GrantingAt(a', x, Writing);
    }
    ReadOffTables(a', 0x1000, 4097, true);
    ReadBackIff(a, 0x1000, bs);
    SharedByte(a', 0x1000);
    SharedByte(a', 0x2000);
    OneZero();
  }

  lemma OneZero()
    ensures OneThenZeros()[0] == 1 && OneThenZeros()[0x2000 - 0x1000] == 0
  {
  }

  lemma SharedUnguarded(a: Plain)
    requires BothShared(a)
    ensures a.next <= 0x10_8000
    ensures GuardLets(a.config, 0x1000, 4097, true, true)
  {
  }

  lemma SharedStill(a: Plain, bytes': Store)
    requires BothShared(a)
    ensures BothShared(a.(bytes := bytes'))
  {
  }

  lemma RunStep(a: Plain, ops: seq<Op>)
    requires |ops| > 0
    ensures LegalRun(a, ops) <==> Legal(a, ops[0]) && LegalRun(P.Step(a, ops[0]).0, ops[1..])
    ensures P.Run(a, ops).1 == [P.Step(a, ops[0]).1] + P.Run(P.Step(a, ops[0]).0, ops[1..]).1
  {
    hide P.Step, Legal;
  }

  /** With two pages of a span on one frame, a write that succeeds is not read back. */
  lemma SharedFrameLoses(cr4: nat)
    ensures LegalRun(Start(0x10_0000, cr4, Plainly()), SharedRun())
    ensures var outs := Run(Machine(Boot(0x10_0000, cr4), Plainly()), SharedRun()).1;
      |outs| == 4 && outs[2] == Quiet && outs[3] != Data(OneThenZeros())
  {
    hide Assign, BothShared, WritePlain, ReadPlain, OneThenZeros, Run, Boot;
    var a := Start(0x10_0000, cr4, Plainly());
    var ops := SharedRun();
    SharedMapped(cr4);
    var a1 := P.Step(a, ops[0]).0;
    var a2 := P.Step(a1, ops[1]).0;
    SharedLost(a2);
    var a3 := P.Step(a2, ops[2]).0;
    assert ops[1..][1..] == ops[2..] && ops[2..][1..] == ops[3..] && |ops[3..][1..]| == 0;
    RunStep(a, ops);
    RunStep(a1, ops[1..]);
    RunStep(a2, ops[2..]);
    RunStep(a3, ops[3..]);
    BootRuns(0x10_0000, cr4, Plainly(), ops);
  }
}
