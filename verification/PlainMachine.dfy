/** What guest memory management stands for: pages with a frame and permissions, a byte at
    each physical address, and the places that page tables take. There are no table entries,
    no accessed bits and no cache here, and spans are followed byte by byte. */
module PlainMachine {
  import opened Bytes
  import opened Store
  import opened Wrappers
  import opened PageTables
  import opened TableBuilder
  import opened MmuModel
  import opened DemandPaging

  datatype Mapping = Mapping(frame: nat, w: bool, u: bool, x: bool)

  /** tables says which frames hold page tables, and for which place each of them. */
  datatype Plain = Plain(
    cur: nat,
    cr4: nat,
    pages: map<(nat, nat), Mapping>,
    tables: Forest,
    next: nat,
    bytes: Store,
    config: Config)

  datatype Verdict = Granted(pa: nat, w: bool, u: bool, x: bool) | Refused(reason: Reason)

  /** Table: the access meets a frame that holds a page table, whose bytes are not described. */
  datatype Answer =
    | Quiet
    | Data(bytes: seq<Byte>)
    | Found(v: Verdict)
    | Handed(frame: nat)
    | Fault(at: nat, reason: Reason)
    | Table

  datatype Op =
    | MapOp(va: int, pa: nat, fl: Flags)
    | UnmapOp(va: int)
    | TranslateOp(va: int, access: Access)
    | NewSpaceOp
    | SwitchOp(root: nat)
    | AllocOp(count: nat)
    | ConfigureOp(config: Config)
    | EnsureOp(va: int, len: nat, fill: Fill)
    | ReadOp(va: int, len: nat)
    | WriteOp(va: int, bytes: seq<Byte>)
    | FetchOp(va: int, len: nat)
    | RawReadOp(pa: nat, len: nat)
    | RawWriteOp(pa: nat, bytes: seq<Byte>)

  // ------------------------------------------------------------------ pages

  function Look(a: Plain, va: int, access: Access): Verdict {
    if !Canonical(va % TWO_64) then Refused(NonCanonical)
    else if (a.cur, PageOf(va)) !in a.pages then Refused(NotPresent)
    else
      var g := a.pages[(a.cur, PageOf(va))];
      if access == Writing && !g.w then Refused(WriteToReadOnly)
      else if access == Fetching && !g.x then Refused(NxExecute)
      else if access == Fetching && g.u && a.cr4 / 0x10_0000 % 2 == 1 then Refused(SmepViolation)
      else Granted(g.frame + va % 4096, g.w, g.u, g.x)
  }

  /** The page of va gets this mapping, and the tables it still lacks. */
  function Assign(a: Plain, va: int, g: Mapping): Plain {
    var (tables, next) := Grow(a.tables, a.next, a.cur, 4, PageOf(va));
    a.(pages := a.pages[(a.cur, PageOf(va)) := g], tables := tables, next := next)
  }

  /** A page that cannot be read is mapped: in a window on its own frame, else on the next one. */
  function Demand(a: Plain, va: int, fill: Fill): Plain {
    if Look(a, va, Reading).Granted? then a
    else if InWindow(a.config.windows, va) then Assign(a, va, Mapping(OwnFrame(va), fill.w, false, fill.x))
    else Assign(a.(next := a.next + 4096), va, Mapping(a.next, fill.w, fill.u, fill.x))
  }

  function DemandFrom(a: Plain, cur: nat, end: int, fill: Fill): Plain
    decreases end - cur
  {
    if cur > end then a else DemandFrom(Demand(a, cur, fill), cur + 4096, end, fill)
  }

  /** An access that, where demand mapping is on, first maps a missing page. */
  function Reach(a: Plain, va: int, access: Access): (Plain, Verdict) {
    var v := Look(a, va, access);
    if v == Refused(NotPresent) && a.config.demandMap then
      var a1 := Demand(a, RoundDown(va % TWO_64), DEFAULT_FILL);
      (a1, Look(a1, va, access))
    else (a, v)
  }

  // ------------------------------------------------------------------ bytes

  /** No byte of [pa, pa+n) lies in a page table. */
  predicate Clear(a: Plain, pa: nat, n: nat) {
    forall x: nat | pa <= x < pa + n :: x / 4096 * 4096 !in a.tables
  }

  /** The guard hook is asked at the first byte of a span and at every page start. */
  predicate Vetoed(c: Config, va: nat, ask: bool, write: bool) {
    (ask || va % 4096 == 0) && c.guard(va, write)
  }

  function ReadPlain(a: Plain, va: nat, n: nat, ask: bool): (Plain, Answer)
    decreases n
  {
    if n == 0 then (a, Data([]))
    else if Vetoed(a.config, va, ask, false) then (a, Fault(va % TWO_64, NotPresent))
    else
      var (a1, v) := Reach(a, va, Reading);
      if v.Refused? then (a1, Fault(va % TWO_64, v.reason))
      else if !Clear(a1, v.pa, 1) then (a1, Table)
      else
        var (a2, rest) := ReadPlain(a1, va + 1, n - 1, false);
        (a2, if rest.Data? then Data([Get(a1.bytes, v.pa)] + rest.bytes) else rest)
  }

  function WritePlain(a: Plain, va: nat, bs: seq<Byte>, ask: bool): (Plain, Answer)
    decreases |bs|
  {
    if bs == [] then (a, Quiet)
    else if Vetoed(a.config, va, ask, true) then (a, Fault(va % TWO_64, NotPresent))
    else
      var (a1, v) := Reach(a, va, Writing);
      if v.Refused? then (a1, Fault(va % TWO_64, v.reason))
      else if !Clear(a1, v.pa, 1) then (a1, Table)
      else WritePlain(a1.(bytes := Put(a1.bytes, v.pa, bs[..1])), va + 1, bs[1..], false)
  }

  /** Physically consecutive bytes from where va is fetched. */
  function FetchPlain(a: Plain, va: nat, n: nat): (Plain, Answer) {
    var (a1, v) := Reach(a, va, Fetching);
    if v.Refused? then (a1, Fault(va % TWO_64, v.reason))
    else if !Clear(a1, v.pa, n) then (a1, Table)
    else (a1, Data(Read(a1.bytes, v.pa, n)))
  }

  // ------------------------------------------------------------------- runs

  function Step(a: Plain, op: Op): (Plain, Answer) {
    match op
    case MapOp(va, pa, fl) => (Assign(a, va, Mapping(FrameOf(pa), fl.write, fl.user, !fl.nx)), Quiet)
    case UnmapOp(va) => (a.(pages := a.pages - {(a.cur, PageOf(va))}), Quiet)
    case TranslateOp(va, access) => (a, Found(Look(a, va, access)))
    case NewSpaceOp => (a.(tables := a.tables[a.next := Place(a.next, 4, 0)], next := a.next + 4096), Handed(a.next))
    case SwitchOp(root) => (a.(cur := root), Quiet)
    case AllocOp(count) => (a.(next := a.next + 4096 * count), Handed(a.next))
    case ConfigureOp(config) => (a.(config := config), Quiet)
    case EnsureOp(va, len, fill) =>
      var v := va % TWO_64;
      (DemandFrom(a, RoundDown(v), RoundDown(v + len - 1), fill), Quiet)
    case ReadOp(va, len) => ReadPlain(a, va % TWO_64, len, true)
    case WriteOp(va, bytes) => WritePlain(a, va % TWO_64, bytes, true)
    case FetchOp(va, len) => FetchPlain(a, va % TWO_64, len)
    case RawReadOp(pa, len) => (a, if Clear(a, pa, len) then Data(Read(a.bytes, pa, len)) else Table)
    case RawWriteOp(pa, bytes) =>
      if Clear(a, pa, |bytes|) then (a.(bytes := Put(a.bytes, pa, bytes)), Quiet) else (a, Table)
  }

  /** Roots that were handed out are switched to, data accesses stay off the page tables, and
      physical memory does not run out: four frames are left in hand. */
  predicate Legal(a: Plain, op: Op) {
    && (op.SwitchOp? ==> op.root in a.tables && a.tables[op.root].level == 4)
    && var (a', out) := Step(a, op); out != Table && a'.next + 4 * 4096 <= TWO_52
  }

  function Run(a: Plain, ops: seq<Op>): (Plain, seq<Answer>)
    decreases |ops|
  {
    if |ops| == 0 then (a, [])
    else
      var (a1, out) := Step(a, ops[0]);
      var (a2, outs) := Run(a1, ops[1..]);
      (a2, [out] + outs)
  }

  predicate LegalRun(a: Plain, ops: seq<Op>)
    decreases |ops|
  {
    |ops| > 0 ==> Legal(a, ops[0]) && LegalRun(Step(a, ops[0]).0, ops[1..])
  }
}
