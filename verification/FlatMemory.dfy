/** With demand mapping on, and no window, guard or page mapped by hand, the plain machine is one
    zero-filled byte memory for each address space: frames, tables and the allocator vanish. */
module FlatMemory {
  import opened Bytes
  import opened Store
  import opened PageTables
  import opened TableBuilder
  import opened MmuModel
  import opened DemandPaging
  import opened PlainMachine
  import opened PlainSpans
  import opened MmuRefinement
  import opened Wrappers
  import R = MmuRuns

  /** Bytes by address space, page and offset; what was never written is zero. */
  datatype Flat = Flat(cur: nat, bytes: map<(nat, nat, nat), Byte>)

  function At(v: Flat, r: nat, p: nat, i: nat): Byte {
    if (r, p, i) in v.bytes then v.bytes[(r, p, i)] else 0
  }

  function FlatRead(v: Flat, va: nat, n: nat): Answer
    decreases n
  {
    if n == 0 then Data([])
    else if !Canonical(va % TWO_64) then Fault(va % TWO_64, NonCanonical)
    else
      var rest := FlatRead(v, va + 1, n - 1);
      if rest.Data? then Data([At(v, v.cur, PageOf(va), va % 4096)] + rest.bytes) else rest
  }

  function FlatPut(v: Flat, va: nat, b: Byte): Flat {
    v.(bytes := v.bytes[(v.cur, PageOf(va), va % 4096) := b])
  }

  /** Up to the first byte that has no canonical address. */
  function FlatWrite(v: Flat, va: nat, bs: seq<Byte>): (Flat, Answer)
    decreases |bs|
  {
    if bs == [] then (v, Quiet)
    else if !Canonical(va % TWO_64) then (v, Fault(va % TWO_64, NonCanonical))
    else FlatWrite(FlatPut(v, va, bs[0]), va + 1, bs[1..])
  }

  // --------------------------------------------------------------- agreement

  /** A page of its own: writable, on a frame handed out, which is no table. */
  ghost predicate OwnPage(a: Plain, k: (nat, nat))
    requires k in a.pages
  {
    var f := a.pages[k].frame;
    && a.pages[k].w && f % 4096 == 0 && f + 4096 <= a.next && f !in a.tables
    && forall j | j in a.pages && a.pages[j].frame == f :: j == k
  }

  /** Byte i of page p of space r is where the page is mapped, or zero. */
  ghost predicate Holds(a: Plain, v: Flat, r: nat, p: nat, i: nat) {
    At(v, r, p, i) == if (r, p) in a.pages then Get(a.bytes, a.pages[(r, p)].frame + i) else 0
  }

  ghost predicate Demanding(c: Config) {
    c.demandMap && c.windows == [] && forall x: nat, w: bool :: !c.guard(x, w)
  }

  /** Frames not handed out yet read as zero and hold no table. */
  ghost predicate Untouched(a: Plain) {
    && a.next % 4096 == 0 && (forall x: nat | x >= a.next :: Get(a.bytes, x) == 0)
    && (forall f | f in a.tables :: f < a.next)
  }

  ghost predicate Private(a: Plain, v: Flat) {
    && v.cur == a.cur && Demanding(a.config) && Untouched(a)
    && (forall k {:trigger OwnPage(a, k)} | k in a.pages :: OwnPage(a, k))
    && (forall r: nat, p: nat, i: nat | i < 4096 :: Holds(a, v, r, p, i))
  }

  lemma BaseLook(a: Plain, va: nat)
    ensures var b := RoundDown(va % TWO_64); b >= 0 && Look(a, b, Reading) == Refused(NotPresent) <==> Look(a, va, Reading) == Refused(NotPresent)
    ensures PageOf(RoundDown(va % TWO_64)) == PageOf(va)
  {
    hide Look;
    PageBaseLook(a, va);
  }

  /** A missing page is demanded as the zeros it already was. */
  lemma DemandPrivate(a: Plain, v: Flat, va: nat)
    requires Private(a, v) && (a.cur, PageOf(va)) !in a.pages && Look(a, va, Reading).Refused?
    ensures var a' := Demand(a, va, DEFAULT_FILL);
      Private(a', v) && (a.cur, PageOf(va)) in a'.pages && a'.cur == a.cur && a'.bytes == a.bytes
  {
    hide Get, At, Grow, Look, FrameOf, PageOf, Demanding;
    assert !InWindow(a.config.windows, va) by { assert Demanding(a.config); NoWindow(a.config, va); }
    var a' := Demand(a, va, DEFAULT_FILL);
    var key := (a.cur, PageOf(va));
    GrowLater(a.tables, a.next + 4096, a.cur, 4, PageOf(va));
    GrowAligned(a.tables, a.next + 4096, a.cur, 4, PageOf(va));
    assert a'.pages == a.pages[key := Mapping(a.next, true, false, true)];
    forall k | k in a'.pages
      ensures OwnPage(a', k)
    {
      if k != key {
        assert OwnPage(a, k);
      }
      forall j | j in a'.pages && a'.pages[j].frame == a'.pages[k].frame
        ensures j == k
      {
        if j != key { assert OwnPage(a, j); }
      }
    }
    forall r: nat, p: nat, i: nat | i < 4096
      ensures Holds(a', v, r, p, i)
    {
      assert Holds(a, v, r, p, i);
    }
  }

  lemma NoWindow(c: Config, va: int)
    requires Demanding(c)
    ensures !InWindow(c.windows, va)
  {
  }

  lemma {:induction false} GrowAligned(own: Forest, next: nat, root: nat, level: nat, p: nat)
    requires 1 <= level <= 4 && next % 4096 == 0
    ensures Grow(own, next, root, level, p).1 % 4096 == 0
    decreases level
  {
    hide Has;
    if level > 1 {
      var at := Place(root, level - 1, Over(p, level - 1));
      if Has(own, at) {
        GrowAligned(own, next, root, level - 1, p);
      } else {
        ModUnique(next + 4096, 4096, next / 4096 + 1, 0);
        GrowAligned(own[next := at], next + 4096, root, level - 1, p);
      }
    }
  }

  /** Every read or write of a canonical address is granted, on a page of its own. */
  lemma ReachPrivate(a: Plain, v: Flat, va: nat, access: Access)
    requires Private(a, v) && access != Fetching
    ensures var (a', r) := Reach(a, va, access);
      && Private(a', v) && a'.cur == a.cur
      && (if Canonical(va % TWO_64) then
            r.Granted? && (a.cur, PageOf(va)) in a'.pages && r.pa == a'.pages[(a.cur, PageOf(va))].frame + va % 4096
          else r == Refused(NonCanonical) && a' == a)
  {
    hide Canonical, Demand, PageOf, OwnPage, Holds, Untouched, RoundDown;
    if Canonical(va % TWO_64) {
      var key := (a.cur, PageOf(va));
      if key in a.pages {
        PrivateWritable(a, v, key);
      } else {
        BaseLook(a, va);
        DemandPrivate(a, v, RoundDown(va % TWO_64));
        PrivateWritable(Demand(a, RoundDown(va % TWO_64), DEFAULT_FILL), v, key);
      }
    }
  }

  lemma PrivateWritable(a: Plain, v: Flat, k: (nat, nat))
    requires Private(a, v) && k in a.pages
    ensures a.pages[k].w && a.pages[k].frame % 4096 == 0 && a.pages[k].frame + 4096 <= a.next && a.pages[k].frame !in a.tables
  {
    assert OwnPage(a, k);
  }

  lemma PrivateClear(a: Plain, v: Flat, k: (nat, nat), i: nat)
    requires Private(a, v) && k in a.pages && i < 4096
    ensures Clear(a, a.pages[k].frame + i, 1)
  {
    hide Holds, Demanding, Untouched;
    PrivateWritable(a, v, k);
    FrameBytes(a.pages[k].frame);
  }

  /** Frames that differ share no byte. */
  lemma FramesApart(f: nat, g: nat, i: nat, j: nat)
    requires f % 4096 == 0 && g % 4096 == 0 && i < 4096 && j < 4096 && f + i == g + j
    ensures f == g && i == j
  {
    ModUnique(f + i, 4096, f / 4096, i);
    ModUnique(g + j, 4096, g / 4096, j);
  }

  /** A byte written on a page is that byte of the flat memory. */
  lemma PutPrivate(a: Plain, v: Flat, va: nat, b: Byte)
    requires Private(a, v) && (a.cur, PageOf(va)) in a.pages
    ensures Private(a.(bytes := Put(a.bytes, a.pages[(a.cur, PageOf(va))].frame + va % 4096, [b])), FlatPut(v, va, b))
  {
    hide Get, Put, PageOf, Demanding, Touched;
    var key := (a.cur, PageOf(va));
    var f := a.pages[key].frame;
    PrivateWritable(a, v, key);
    PutGet(a.bytes, f + va % 4096, [b]);
    var a', v' := a.(bytes := Put(a.bytes, f + va % 4096, [b])), FlatPut(v, va, b);
    forall k | k in a'.pages
      ensures OwnPage(a', k)
    {
      assert OwnPage(a, k);
    }
    forall r: nat, p: nat, i: nat | i < 4096
      ensures Holds(a', v', r, p, i)
    {
      assert Holds(a, v, r, p, i);
      if (r, p) in a.pages {
        PrivateWritable(a, v, (r, p));
        if a.pages[(r, p)].frame + i == f + va % 4096 {
          FramesApart(a.pages[(r, p)].frame, f, i, va % 4096);
          assert OwnPage(a, key);
        }
      }
    }
  }

  // ------------------------------------------------------------------- spans

  lemma {:induction false} ReadPrivate(a: Plain, v: Flat, va: nat, n: nat, ask: bool)
    requires Private(a, v)
    ensures var (a', r) := ReadPlain(a, va, n, ask); r == FlatRead(v, va, n) && Private(a', v)
    decreases n
  {
    hide Reach, Canonical, PageOf, OwnPage, Untouched, Clear, Holds;
    if n > 0 {
      NeverVetoed(a, v, va, ask, false);
      ReachPrivate(a, v, va, Reading);
      var (a1, r) := Reach(a, va, Reading);
      if r.Granted? {
        var key := (a.cur, PageOf(va));
        PrivateClear(a1, v, key, va % 4096);
        PrivateByte(a1, v, key, va % 4096);
        ReadPrivate(a1, v, va + 1, n - 1, false);
      }
    }
  }

  lemma NeverVetoed(a: Plain, v: Flat, va: nat, ask: bool, write: bool)
    requires Private(a, v)
    ensures !Vetoed(a.config, va, ask, write)
  {
  }

  lemma PrivateByte(a: Plain, v: Flat, k: (nat, nat), i: nat)
    requires Private(a, v) && k in a.pages && i < 4096
    ensures At(v, k.0, k.1, i) == Get(a.bytes, a.pages[k].frame + i)
  {
    hide At, Get, OwnPage, Untouched, Demanding;
    assert Holds(a, v, k.0, k.1, i);
  }

  lemma {:induction false} WritePrivate(a: Plain, v: Flat, va: nat, bs: seq<Byte>, ask: bool)
    requires Private(a, v)
    ensures var (a', r) := WritePlain(a, va, bs, ask); var (v', w) := FlatWrite(v, va, bs);
      r == w && Private(a', v')
    decreases |bs|
  {
    hide Reach, Canonical, PageOf, Private, Clear, FlatPut, Put;
    if bs != [] {
      NeverVetoed(a, v, va, ask, true);
      ReachPrivate(a, v, va, Writing);
      PrivateCur(a, v);
      var (a1, r) := Reach(a, va, Writing);
      if r.Granted? {
        PrivateClear(a1, v, (a.cur, PageOf(va)), va % 4096);
        PutPrivate(a1, v, va, bs[0]);
        assert bs[..1] == [bs[0]];
        WritePrivate(a1.(bytes := Put(a1.bytes, r.pa, bs[..1])), FlatPut(v, va, bs[0]), va + 1, bs[1..], false);
      }
    }
  }

  lemma PrivateCur(a: Plain, v: Flat)
    requires Private(a, v)
    ensures v.cur == a.cur
  {
  }

  // ------------------------------------------------------------------- runs

  /** The operations that leave pages to demand mapping. */
  predicate Simple(op: Op) {
    op.ReadOp? || op.WriteOp? || op.UnmapOp? || op.NewSpaceOp? || op.SwitchOp?
  }

  /** An unmapped page is zero again; the flat machine is told only the address of a new root. */
  function FlatStep(v: Flat, op: Op, out: Answer): (Flat, Answer)
    requires Simple(op)
  {
    match op
    case ReadOp(va, len) => (v, FlatRead(v, va % TWO_64, len))
    case WriteOp(va, bytes) => FlatWrite(v, va % TWO_64, bytes)
    case UnmapOp(va) =>
      (v.(bytes := map k | k in v.bytes && !(k.0 == v.cur && k.1 == PageOf(va)) :: v.bytes[k]), Quiet)
    case NewSpaceOp => (v, out)
    case SwitchOp(root) => (v.(cur := root), Quiet)
  }

  predicate AllSimple(ops: seq<Op>)
    decreases |ops|
  {
    |ops| > 0 ==> Simple(ops[0]) && AllSimple(ops[1..])
  }

  function FlatRun(v: Flat, ops: seq<Op>, told: seq<Answer>): seq<Answer>
    requires |told| == |ops| && AllSimple(ops)
    decreases |ops|
  {
    if |ops| == 0 then []
    else
      var (v1, out) := FlatStep(v, ops[0], told[0]);
      [out] + FlatRun(v1, ops[1..], told[1..])
  }

  lemma UnmapPrivate(a: Plain, v: Flat, va: int)
    requires Private(a, v)
    ensures Private(Step(a, UnmapOp(va)).0, FlatStep(v, UnmapOp(va), Quiet).0)
  {
    hide Get, PageOf, Demanding;
    var a', v' := Step(a, UnmapOp(va)).0, FlatStep(v, UnmapOp(va), Quiet).0;
    forall k | k in a'.pages
      ensures OwnPage(a', k)
    {
      assert OwnPage(a, k);
    }
    forall r: nat, p: nat, i: nat | i < 4096
      ensures Holds(a', v', r, p, i)
    {
      assert Holds(a, v, r, p, i);
    }
  }

  lemma NewSpacePrivate(a: Plain, v: Flat)
    requires Private(a, v)
    ensures Private(Step(a, NewSpaceOp).0, v)
  {
    hide Get, At, Demanding;
    var a' := Step(a, NewSpaceOp).0;
    forall k | k in a'.pages
      ensures OwnPage(a', k)
    {
      assert OwnPage(a, k);
    }
    forall r: nat, p: nat, i: nat | i < 4096
      ensures Holds(a', v, r, p, i)
    {
      assert Holds(a, v, r, p, i);
    }
    ModUnique(a.next + 4096, 4096, a.next / 4096 + 1, 0);
  }

  lemma SwitchPrivate(a: Plain, v: Flat, root: nat)
    requires Private(a, v) && root in a.tables
    ensures Private(a.(cur := root), v.(cur := root))
  {
    hide Get, Demanding;
    var a', v' := a.(cur := root), v.(cur := root);
    forall k | k in a'.pages
      ensures OwnPage(a', k)
    {
      assert OwnPage(a, k);
    }
    forall r: nat, p: nat, i: nat | i < 4096
      ensures Holds(a', v', r, p, i)
    {
      assert Holds(a, v, r, p, i);
    }
  }

  /** Known roots are entered, and physical memory does not run out. */
  predicate Fits(a: Plain, op: Op) {
    && (op.SwitchOp? ==> op.root in a.tables && a.tables[op.root].level == 4)
    && Step(a, op).0.next + 4 * 4096 <= TWO_52
  }

  predicate FitsRun(a: Plain, ops: seq<Op>)
    decreases |ops|
  {
    |ops| > 0 ==> Simple(ops[0]) && Fits(a, ops[0]) && FitsRun(Step(a, ops[0]).0, ops[1..])
  }

  lemma {:induction false} FlatReadAnswers(v: Flat, va: nat, n: nat)
    ensures FlatRead(v, va, n) != Table
    decreases n
  {
    if n > 0 { FlatReadAnswers(v, va + 1, n - 1); }
  }

  lemma {:induction false} FlatWriteAnswers(v: Flat, va: nat, bs: seq<Byte>)
    ensures FlatWrite(v, va, bs).1 != Table
    decreases |bs|
  {
    if bs != [] { FlatWriteAnswers(FlatPut(v, va, bs[0]), va + 1, bs[1..]); }
  }

  lemma StepPrivate(a: Plain, v: Flat, op: Op)
    requires Private(a, v) && Simple(op) && Fits(a, op)
    ensures Legal(a, op)
    ensures var (a', out) := Step(a, op); FlatStep(v, op, out).1 == out && Private(a', FlatStep(v, op, out).0)
  {
    hide Private, ReadPlain, WritePlain, FlatRead, FlatWrite;
    match op
    case ReadOp(va, len) =>
      ReadPrivate(a, v, va % TWO_64, len, true);
      FlatReadAnswers(v, va % TWO_64, len);
    case WriteOp(va, bytes) =>
      WritePrivate(a, v, va % TWO_64, bytes, true);
      FlatWriteAnswers(v, va % TWO_64, bytes);
    case UnmapOp(va) => UnmapPrivate(a, v, va);
    case NewSpaceOp => NewSpacePrivate(a, v);
    case SwitchOp(root) => SwitchPrivate(a, v, root);
  }

  lemma {:induction false} FlatRunAgrees(a: Plain, v: Flat, ops: seq<Op>)
    requires Private(a, v) && FitsRun(a, ops)
    ensures LegalRun(a, ops) && AllSimple(ops) && |Run(a, ops).1| == |ops|
    ensures FlatRun(v, ops, Run(a, ops).1) == Run(a, ops).1
    decreases |ops|
  {
    hide Step, FlatStep, Private, Legal, Simple, Fits;
    if |ops| > 0 {
      StepPrivate(a, v, ops[0]);
      var (a1, out) := Step(a, ops[0]);
      FlatRunAgrees(a1, FlatStep(v, ops[0], out).0, ops[1..]);
      var outs := Run(a, ops).1;
      assert outs[0] == out && outs[1..] == Run(a1, ops[1..]).1;
    }
  }

  /** From boot, the machine on bytes answers every run of reads, writes, unmaps, new spaces and
      switches as zero-filled memories, one for each address space. */
  lemma BootFlat(frameBase: nat, cr4: nat, config: Config, ops: seq<Op>)
    requires frameBase % 4096 == 0 && frameBase + 4096 <= TWO_52 && Demanding(config)
    requires FitsRun(R.Start(frameBase, cr4, config), ops)
    ensures AllSimple(ops)
    ensures var outs := R.Run(R.Machine(Boot(frameBase, cr4), config), ops).1;
      |outs| == |ops| && FlatRun(Flat(frameBase, map[]), ops, outs) == outs
  {
    hide FitsRun, FlatRun, Run, R.Run, Boot, Demanding;
    var a, v := R.Start(frameBase, cr4, config), Flat(frameBase, map[]);
    ModUnique(frameBase + 4096, 4096, frameBase / 4096 + 1, 0);
    assert Private(a, v);
    FlatRunAgrees(a, v, ops);
    R.BootRuns(frameBase, cr4, config, ops);
  }
}
