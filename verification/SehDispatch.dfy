/** Searching the frames of a faulting call for a handler. */
module SehDispatch {
  import opened Bytes
  import opened Buffers
  import opened Store
  import opened Wrappers
  import opened Unwind
  import opened UnwindInfo
  import PeMap
  import PeParse

  // --------------------------------------------------------- function lookup

  predicate Covers(e: RuntimeFunction, rva: int) { e.begin <= rva < e.end }

  /** Sorted by begin and disjoint, as .pdata is. */
  ghost predicate Ordered(entries: seq<RuntimeFunction>) {
    && (forall i | 0 <= i < |entries| :: entries[i].begin < entries[i].end)
    && (forall i, j | 0 <= i < j < |entries| :: entries[i].end <= entries[j].begin)
  }

  /** The entry that contains rva, by looking at all of them. */
  function Covering(entries: seq<RuntimeFunction>, rva: int): Option<RuntimeFunction> {
    if entries == [] then None
    else if Covers(entries[0], rva) then Some(entries[0])
    else Covering(entries[1..], rva)
  }

  /** Entry i is the first that contains rva. */
  ghost predicate FirstEntry(entries: seq<RuntimeFunction>, rva: int, i: int) {
    && 0 <= i < |entries| && entries[i].begin <= rva < entries[i].end
    && forall j | 0 <= j < i :: !(entries[j].begin <= rva < entries[j].end)
  }

  lemma {:induction false} CoveringIs(entries: seq<RuntimeFunction>, rva: int)
    ensures Covering(entries, rva).None? ==> forall i | 0 <= i < |entries| :: !Covers(entries[i], rva)
    ensures Covering(entries, rva).Some? ==>
      exists i :: FirstEntry(entries, rva, i) && entries[i] == Covering(entries, rva).value
  {
    if entries != [] {
      CoveringIs(entries[1..], rva);
      var rest := entries[1..];
      assert forall i | 0 < i < |entries| :: entries[i] == rest[i - 1];
      if !Covers(entries[0], rva) && Covering(rest, rva).Some? {
        var i :| FirstEntry(rest, rva, i) && rest[i] == Covering(rest, rva).value;
        assert entries[i + 1] == rest[i] && FirstEntry(entries, rva, i + 1);
      } else if Covers(entries[0], rva) {
        assert FirstEntry(entries, rva, 0);
      }
    }
  }

  /** The binary search agrees with the linear one on ordered entries. */
  method LookupRuntimeFunction(entries: seq<RuntimeFunction>, rva: int) returns (r: Option<RuntimeFunction>)
    requires Ordered(entries)
    ensures r == Covering(entries, rva)
  {
    CoveringIs(entries, rva);
    var lo: int, hi: int := 0, |entries| - 1;
    while lo <= hi
      invariant 0 <= lo && hi < |entries| && lo <= hi + 1
      invariant forall i | 0 <= i < |entries| && (i < lo || i > hi) :: !Covers(entries[i], rva)
      decreases hi - lo
    {
      var mid := (lo + hi) / 2;
      var e := entries[mid];
      if rva < e.begin {
        hi := mid - 1;
      } else if rva >= e.end {
        lo := mid + 1;
      } else {
        return Some(e);
      }
    }
    r := None;
  }

  // ------------------------------------------------------------ unwind info

  /** What the search reads: the file bytes, their parsed headers, the function table and the image
      base. */
  datatype Image = Image(bytes: seq<Byte>, pe: PeParse.Pe, pdata: seq<RuntimeFunction>, base: nat)

  /** Following chained functions, at most fuel of them. */
  function ChainRoot(img: Image, ui: Info, fuel: nat): Info
    decreases fuel
  {
    if ui.chain.None? || fuel == 0 then ui
    else match InfoAt(img.bytes, img.pe, ui.chain.value.unwindRva)
      case None => ui
      case Some(next) => ChainRoot(img, next, fuel - 1)
  }

  function Resolved(img: Image, rva: int): Option<Info> {
    match Covering(img.pdata, rva)
    case None => None
    case Some(rf) => match InfoAt(img.bytes, img.pe, rf.unwindRva) case None => None case Some(ui) => Some(ChainRoot(img, ui, 8))
  }

  method ResolveUnwindInfo(img: Image, rva: int) returns (r: Option<Info>)
    requires Ordered(img.pdata)
    ensures r == Resolved(img, rva)
  {
    hide ReadInfo, Covering;
    var rf := LookupRuntimeFunction(img.pdata, rva);
    if rf.None? {
      return None;
    }
    var first := ReadUnwindInfo(img.bytes, img.pe, rf.value.unwindRva);
    if first.None? {
      return None;
    }
    var ui, guard := first.value, 0;
    while ui.chain.Some? && guard < 8
      invariant 0 <= guard <= 8
      invariant ChainRoot(img, first.value, 8) == ChainRoot(img, ui, 8 - guard)
    {
      var next := ReadUnwindInfo(img.bytes, img.pe, ui.chain.value.unwindRva);
      if next.None? {
        return Some(ui);
      }
      ui, guard := next.value, guard + 1;
    }
    r := Some(ui);
  }

  /** Decoded codes and registers are in range. */
  lemma {:induction false} DecodedInfos(b: seq<Byte>, off: nat, slot: nat, count: nat)
    ensures forall u | u in CodesFrom(b, off, slot, count).0 :: u.info < 16
    decreases count - slot
  {
    hide U16At, U32At;
    if slot < count && off + 2 <= |b| {
      var u := CodeAt(b, off);
      DecodedInfos(b, off + 2 * SlotCount(u.op, u.info), slot + SlotCount(u.op, u.info), count);
    }
  }

  predicate Usable(ui: Info) { ui.frameReg < 16 && forall u | u in ui.codes :: u.info < 16 }

  lemma ReadUsable(b: seq<Byte>, off: nat)
    ensures ReadInfo(b, off).Some? ==> Usable(ReadInfo(b, off).value)
  {
    hide U16At, U32At, CodesFrom;
    DecodedInfos(b, off + 4, 0, At(b, off + 2));
  }

  lemma {:induction false} ChainUsable(img: Image, ui: Info, fuel: nat)
    requires Usable(ui)
    ensures Usable(ChainRoot(img, ui, fuel))
    decreases fuel
  {
    hide ReadInfo, Usable;
    if ui.chain.Some? && fuel > 0 && InfoAt(img.bytes, img.pe, ui.chain.value.unwindRva).Some? {
      ReadUsable(img.bytes, PeMap.RvaToOffset(img.pe, ui.chain.value.unwindRva).value);
      ChainUsable(img, InfoAt(img.bytes, img.pe, ui.chain.value.unwindRva).value, fuel - 1);
    }
  }

  lemma ResolvedUsable(img: Image, rva: int)
    ensures Resolved(img, rva).Some? ==> Usable(Resolved(img, rva).value)
  {
    hide ReadInfo, Usable, Covering;
    var rf := Covering(img.pdata, rva);
    if rf.Some? && InfoAt(img.bytes, img.pe, rf.value.unwindRva).Some? {
      ReadUsable(img.bytes, PeMap.RvaToOffset(img.pe, rf.value.unwindRva).value);
      ChainUsable(img, InfoAt(img.bytes, img.pe, rf.value.unwindRva).value, 8);
    }
  }

  // ---------------------------------------------------------------- the search

  /** What running a filter gives; the guest code itself is not modelled. */
  datatype FilterRun = Returned(verdict: int) | Failed

  datatype Outcome =
    | FinallyRun(depth: nat, funclet: int)
    | Resumed(depth: nat)
    | Declined(verdict: int)
    | ExceptRun(depth: nat, target: nat)
    | NotHandled

  function FirstScope(scopes: seq<Scope>, rva: int): Option<Scope> {
    if scopes == [] then None
    else if scopes[0].begin <= rva < scopes[0].end then Some(scopes[0])
    else FirstScope(scopes[1..], rva)
  }

  const DEPTH_LIMIT := 16
  const RVA_LIMIT := 0x1000_0000

  /** One frame: it decides the outcome, passes the search to its caller, or ends it. */
  datatype Verdict = Decides(o: Outcome) | Passes(next: Context) | Ends

  function Caller(m: Store, ctx: Context, ui: Info): Verdict
    requires Usable(ui)
  {
    var next := Unwound(m, ctx, ui.codes, ui.frameReg, ui.frameOff);
    if next.rip == 0 || next.regs[RSP] <= ctx.regs[RSP] then Ends else Passes(next)
  }

  /** handler & ~1, which is signed on 32 bits. */
  function Funclet(handler: nat): int {
    var even := handler / 2 * 2;
    if even >= 0x8000_0000 then even - 0x1_0000_0000 else even
  }

  /** What the handler scope found says: a __finally runs; a filter may send the search on. */
  function Consult(scope: Scope, depth: nat, filter: (nat, nat) -> FilterRun): Option<Outcome> {
    if scope.jumpTarget == 0 then Some(FinallyRun(depth, Funclet(scope.handler)))
    else if scope.handler % 2 == 0 && scope.handler != 0 then
      match filter(depth, scope.handler)
      case Failed => Some(ExceptRun(depth, scope.jumpTarget))
      case Returned(v) =>
        if v == 0 then None
        else if v == -1 then Some(Resumed(depth))
        else if v != 1 then Some(Declined(v))
        else Some(ExceptRun(depth, scope.jumpTarget))
    else Some(ExceptRun(depth, scope.jumpTarget))
  }

  function Judge(img: Image, m: Store, filter: (nat, nat) -> FilterRun, ctx: Context, depth: nat): Verdict {
    var rva := ctx.rip - img.base;
    if rva < 0 || rva > RVA_LIMIT then Ends
    else
      match Resolved(img, rva)
      case None => Ends
      case Some(ui) =>
        ResolvedUsable(img, rva);
        match FirstScope(if ui.scopes.Some? then ui.scopes.value else [], rva)
        case None => Caller(m, ctx, ui)
        case Some(scope) =>
          match Consult(scope, depth, filter)
          case Some(o) => Decides(o)
          case None => Caller(m, ctx, ui)
  }

  /** The recursive search: ask the innermost frame first. */
  function Search(img: Image, m: Store, filter: (nat, nat) -> FilterRun, ctx: Context, depth: nat): Outcome
    decreases DEPTH_LIMIT - depth
  {
    if depth >= DEPTH_LIMIT then NotHandled
    else match Judge(img, m, filter, ctx, depth)
      case Decides(o) => o
      case Ends => NotHandled
      case Passes(next) => Search(img, m, filter, next, depth + 1)
  }

  /** The dispatch loop. The exception records it writes to pool memory are not part of m. */
  method TryDispatchException(img: Image, m: Store, filter: (nat, nat) -> FilterRun, faultCtx: Context) returns (o: Outcome)
    requires Ordered(img.pdata)
    ensures o == Search(img, m, filter, faultCtx, 0)
    ensures o != NotHandled ==> exists frames: seq<Context> :: StopsAt(img, m, filter, frames, o) && frames[0] == faultCtx
    ensures o == NotHandled ==>
      forall frames: seq<Context>, p: Outcome :: StopsAt(img, m, filter, frames, p) ==> frames[0] != faultCtx
  {
    hide Resolved, UnwindFrom, Unwound, ReadInfo, StopsAt;
    SearchDecides(img, m, filter, faultCtx);
    var ctx := faultCtx;
    var depth := 0;
    while depth < DEPTH_LIMIT
      invariant 0 <= depth <= DEPTH_LIMIT
      invariant Search(img, m, filter, faultCtx, 0) == Search(img, m, filter, ctx, depth)
    {
      var rva := ctx.rip - img.base;
      if rva < 0 || rva > RVA_LIMIT {
        return NotHandled;
      }
      var ui := ResolveUnwindInfo(img, rva);
      if ui.None? {
        return NotHandled;
      }
      ResolvedUsable(img, rva);
      var scope := FirstScope(if ui.value.scopes.Some? then ui.value.scopes.value else [], rva);
      if scope.Some? {
        var s := scope.value;
        if s.jumpTarget == 0 {
          return FinallyRun(depth, Funclet(s.handler));
        }
        var handled := true;
        if s.handler % 2 == 0 && s.handler != 0 {
          var run := filter(depth, s.handler);
          if run.Returned? {
            if run.verdict == -1 {
              return Resumed(depth);
            }
            if run.verdict != 0 && run.verdict != 1 {
              return Declined(run.verdict);
            }
            handled := run.verdict != 0;
          }
        }
        if handled {
          return ExceptRun(depth, s.jumpTarget);
        }
      }
      var next := UnwindFrame(m, ctx, ui.value.codes, ui.value.frameReg, ui.value.frameOff);
      if next.rip == 0 || next.regs[RSP] <= ctx.regs[RSP] {
        return NotHandled;
      }
      ctx, depth := next, depth + 1;
    }
    o := NotHandled;
  }

  // ------------------------------------------------------- what it amounts to

  /** The unwind information that decides for rva: that of the first entry that covers it, followed through
      chained entries as far as they decode, at most eight of them. */
  ghost predicate Root(img: Image, rva: int, ui: Info) {
    exists i, infos: seq<Info> ::
      && FirstEntry(img.pdata, rva, i)
      && 1 <= |infos| <= 9 && InfoAt(img.bytes, img.pe, img.pdata[i].unwindRva) == Some(infos[0]) && infos[|infos| - 1] == ui
      && ChainOf(img, infos)
      && (|infos| == 9 || ui.chain.None? || InfoAt(img.bytes, img.pe, ui.chain.value.unwindRva).None?)
  }

  ghost predicate ChainOf(img: Image, infos: seq<Info>) {
    forall k | 0 <= k < |infos| - 1 ::
      infos[k].chain.Some? && InfoAt(img.bytes, img.pe, infos[k].chain.value.unwindRva) == Some(infos[k + 1])
  }

  /** s is the first scope of the information that covers rva. */
  ghost predicate FirstCovering(ui: Info, rva: int, s: Scope) {
    && ui.scopes.Some?
    && exists k :: 0 <= k < |ui.scopes.value| && ui.scopes.value[k] == s && s.begin <= rva < s.end
         && forall j | 0 <= j < k :: !(ui.scopes.value[j].begin <= rva < ui.scopes.value[j].end)
  }

  ghost predicate NoneCovering(ui: Info, rva: int) {
    ui.scopes.Some? ==> forall k | 0 <= k < |ui.scopes.value| :: !(ui.scopes.value[k].begin <= rva < ui.scopes.value[k].end)
  }

  /** A scope has a filter when its handler is an even address other than zero. */
  predicate Filtered(s: Scope) { s.handler != 0 && s.handler % 2 == 0 }

  /** The scope sends the search on: EXCEPTION_CONTINUE_SEARCH. */
  predicate Continues(s: Scope, depth: nat, filter: (nat, nat) -> FilterRun) {
    s.jumpTarget != 0 && Filtered(s) && filter(depth, s.handler) == Returned(0)
  }

  /** A __finally has no jump target. A filter's -1 resumes, 1 is taken, and so is the handler of a scope
      without filter or with one that failed; any other verdict but 0 declines. */
  predicate Gives(s: Scope, depth: nat, filter: (nat, nat) -> FilterRun, o: Outcome) {
    match o
    case FinallyRun(d, funclet) => s.jumpTarget == 0 && d == depth && funclet == s.handler - s.handler % 2 - if s.handler < 0x8000_0000 then 0 else 0x1_0000_0000
    case Resumed(d) => s.jumpTarget != 0 && d == depth && Filtered(s) && filter(depth, s.handler) == Returned(-1)
    case Declined(v) => s.jumpTarget != 0 && Filtered(s) && filter(depth, s.handler) == Returned(v) && v != 0 && v != 1 && v != -1
    case ExceptRun(d, target) =>
      && s.jumpTarget != 0 && d == depth && target == s.jumpTarget
      && (!Filtered(s) || filter(depth, s.handler) == Failed || filter(depth, s.handler) == Returned(1))
    case NotHandled => false
  }

  /** A frame whose first covering scope gives this outcome. */
  ghost predicate FrameGives(img: Image, filter: (nat, nat) -> FilterRun, ctx: Context, depth: nat, o: Outcome) {
    var rva := ctx.rip - img.base;
    0 <= rva <= 0x1000_0000 && exists ui, s :: Root(img, rva, ui) && FirstCovering(ui, rva, s) && Gives(s, depth, filter, o)
  }

  /** A frame that no scope covers, or whose scope continues the search, and its caller, which returns
      somewhere and lies higher on the stack. */
  ghost predicate FramePasses(img: Image, m: Store, filter: (nat, nat) -> FilterRun, ctx: Context, depth: nat, next: Context) {
    var rva := ctx.rip - img.base;
    && 0 <= rva <= 0x1000_0000 && next.rip != 0 && next.regs[RSP] > ctx.regs[RSP]
    && exists ui :: Root(img, rva, ui) && Usable(ui) && next == Unwound(m, ctx, ui.codes, ui.frameReg, ui.frameOff)
         && (NoneCovering(ui, rva) || exists s :: FirstCovering(ui, rva, s) && Continues(s, depth, filter))
  }

  /** Following the chain is the fuelled recursion. */
  lemma {:induction false} ChainRootIs(img: Image, infos: seq<Info>, fuel: nat)
    requires |infos| > 0 && ChainOf(img, infos) && |infos| <= fuel + 1
    requires var ui := infos[|infos| - 1];
      |infos| == fuel + 1 || ui.chain.None? || InfoAt(img.bytes, img.pe, ui.chain.value.unwindRva).None?
    ensures ChainRoot(img, infos[0], fuel) == infos[|infos| - 1]
    decreases fuel
  {
    hide InfoAt;
    if |infos| > 1 {
      assert forall k | 0 <= k < |infos[1..]| :: infos[1..][k] == infos[k + 1];
      ChainRootIs(img, infos[1..], fuel - 1);
    }
  }

  lemma {:induction false} ChainRootHas(img: Image, ui: Info, fuel: nat) returns (infos: seq<Info>)
    ensures 1 <= |infos| <= fuel + 1 && infos[0] == ui && ChainOf(img, infos) && infos[|infos| - 1] == ChainRoot(img, ui, fuel)
    ensures var last := infos[|infos| - 1];
      |infos| == fuel + 1 || last.chain.None? || InfoAt(img.bytes, img.pe, last.chain.value.unwindRva).None?
    decreases fuel
  {
    hide InfoAt;
    infos := [ui];
    if ui.chain.Some? && fuel > 0 && InfoAt(img.bytes, img.pe, ui.chain.value.unwindRva).Some? {
      var rest := ChainRootHas(img, InfoAt(img.bytes, img.pe, ui.chain.value.unwindRva).value, fuel - 1);
      infos := [ui] + rest;
    }
  }

  lemma RootIs(img: Image, rva: int, ui: Info)
    ensures Resolved(img, rva) == Some(ui) <==> Root(img, rva, ui)
  {
    hide InfoAt, Covering, ChainOf, ChainRoot;
    CoveringIs(img.pdata, rva);
    if Resolved(img, rva) == Some(ui) {
      var i :| FirstEntry(img.pdata, rva, i) && img.pdata[i] == Covering(img.pdata, rva).value;
      var infos := ChainRootHas(img, InfoAt(img.bytes, img.pe, img.pdata[i].unwindRva).value, 8);
    }
    if Root(img, rva, ui) {
      var i, infos: seq<Info> :|
        && FirstEntry(img.pdata, rva, i)
        && 1 <= |infos| <= 9 && InfoAt(img.bytes, img.pe, img.pdata[i].unwindRva) == Some(infos[0]) && infos[|infos| - 1] == ui
        && ChainOf(img, infos)
        && (|infos| == 9 || ui.chain.None? || InfoAt(img.bytes, img.pe, ui.chain.value.unwindRva).None?);
      ChainRootIs(img, infos, 8);
    }
  }

  lemma {:induction false} FirstScopeIs(scopes: seq<Scope>, rva: int)
    ensures FirstScope(scopes, rva).None? ==> forall k | 0 <= k < |scopes| :: !(scopes[k].begin <= rva < scopes[k].end)
    ensures FirstScope(scopes, rva).Some? ==>
      (exists k :: 0 <= k < |scopes| && scopes[k] == FirstScope(scopes, rva).value
         && scopes[k].begin <= rva < scopes[k].end && forall j | 0 <= j < k :: !(scopes[j].begin <= rva < scopes[j].end))
  {
    if scopes != [] {
      var rest := scopes[1..];
      FirstScopeIs(rest, rva);
      assert forall i | 0 < i < |scopes| :: scopes[i] == rest[i - 1];
      if !(scopes[0].begin <= rva < scopes[0].end) && FirstScope(rest, rva).Some? {
        var k :| 0 <= k < |rest| && rest[k] == FirstScope(rest, rva).value
          && rest[k].begin <= rva < rest[k].end && forall j | 0 <= j < k :: !(rest[j].begin <= rva < rest[j].end);
        assert scopes[k + 1] == rest[k];
        assert forall j | 0 <= j < k + 1 :: !(scopes[j].begin <= rva < scopes[j].end);
      }
    }
  }

  lemma FirstScopeOf(ui: Info, rva: int)
    ensures var f := FirstScope(if ui.scopes.Some? then ui.scopes.value else [], rva);
      && (f.None? <==> NoneCovering(ui, rva))
      && forall s :: f == Some(s) <==> FirstCovering(ui, rva, s)
  {
    hide FirstScope;
    FirstScopeIs(if ui.scopes.Some? then ui.scopes.value else [], rva);
    forall s, t | FirstCovering(ui, rva, s) && FirstCovering(ui, rva, t)
      ensures s == t
    {
    }
  }

  lemma ConsultIs(s: Scope, depth: nat, filter: (nat, nat) -> FilterRun)
    ensures Consult(s, depth, filter).None? <==> Continues(s, depth, filter)
    ensures forall o :: Consult(s, depth, filter) == Some(o) <==> Gives(s, depth, filter, o)
  {
  }

  /** What a frame says to the search, by its unwind information, scope and filter alone. */
  lemma JudgeIs(img: Image, m: Store, filter: (nat, nat) -> FilterRun, ctx: Context, depth: nat)
    ensures forall o :: Judge(img, m, filter, ctx, depth) == Decides(o) <==> FrameGives(img, filter, ctx, depth, o)
    ensures forall next :: Judge(img, m, filter, ctx, depth) == Passes(next) <==> FramePasses(img, m, filter, ctx, depth, next)
  {
    hide Root, Resolved, FirstScope, FirstCovering, NoneCovering, Consult, Continues, Gives, Unwound, Usable;
    var rva := ctx.rip - img.base;
    forall ui
      ensures Resolved(img, rva) == Some(ui) <==> Root(img, rva, ui)
    {
      RootIs(img, rva, ui);
    }
    if 0 <= rva <= 0x1000_0000 && Resolved(img, rva).Some? {
      var ui := Resolved(img, rva).value;
      ResolvedUsable(img, rva);
      FirstScopeOf(ui, rva);
      var f := FirstScope(if ui.scopes.Some? then ui.scopes.value else [], rva);
      if f.Some? { ConsultIs(f.value, depth, filter); }
    }
  }

  /** The chain of callers, as far as frames pass the search on. */
  ghost predicate PassChain(img: Image, m: Store, filter: (nat, nat) -> FilterRun, frames: seq<Context>) {
    forall k | 0 <= k < |frames| - 1 :: FramePasses(img, m, filter, frames[k], k, frames[k + 1])
  }

  /** A frame where the search stops with an outcome of its own. */
  ghost predicate StopsAt(img: Image, m: Store, filter: (nat, nat) -> FilterRun, frames: seq<Context>, o: Outcome) {
    && 0 < |frames| <= 16 && PassChain(img, m, filter, frames)
    && FrameGives(img, filter, frames[|frames| - 1], |frames| - 1, o)
  }

  lemma {:induction false} SearchFrom(img: Image, m: Store, filter: (nat, nat) -> FilterRun, frames: seq<Context>, k: nat)
    requires k < |frames| <= DEPTH_LIMIT && PassChain(img, m, filter, frames)
    ensures Search(img, m, filter, frames[0], 0) == Search(img, m, filter, frames[k], k)
    decreases k
  {
    hide Judge, FramePasses, FrameGives;
    if k > 0 {
      SearchFrom(img, m, filter, frames, k - 1);
      JudgeIs(img, m, filter, frames[k - 1], k - 1);
      assert FramePasses(img, m, filter, frames[k - 1], k - 1, frames[k]);
    }
  }

  /** The walk the search makes from a depth on, with the frames already passed. */
  lemma {:induction false} SearchStops(img: Image, m: Store, filter: (nat, nat) -> FilterRun, frames: seq<Context>) returns (all: seq<Context>)
    requires 0 < |frames| <= DEPTH_LIMIT && PassChain(img, m, filter, frames)
    requires Search(img, m, filter, frames[|frames| - 1], |frames| - 1) != NotHandled
    ensures |all| >= |frames| && all[..|frames|] == frames
    ensures StopsAt(img, m, filter, all, Search(img, m, filter, frames[|frames| - 1], |frames| - 1))
    decreases DEPTH_LIMIT - |frames|
  {
    hide Judge, FramePasses, FrameGives;
    var n := |frames|;
    var last := frames[n - 1];
    JudgeIs(img, m, filter, last, n - 1);
    match Judge(img, m, filter, last, n - 1)
    case Decides(o) =>
      all := frames;
      assert all[..n] == frames;
    case Ends => assert false;
    case Passes(next) =>
      var longer := frames + [next];
      assert forall k | 0 <= k < n :: longer[k] == frames[k];
      all := SearchStops(img, m, filter, longer);
      assert all[..n] == all[..n + 1][..n] == frames;
  }

  /** The dispatch has outcome o exactly when some chain of at most 16 callers, each passing the
      search on, ends in a frame whose first covering scope gives o. */
  lemma DispatchIff(img: Image, m: Store, filter: (nat, nat) -> FilterRun, ctx: Context, o: Outcome)
    requires o != NotHandled
    ensures Search(img, m, filter, ctx, 0) == o <==>
      exists frames: seq<Context> :: StopsAt(img, m, filter, frames, o) && frames[0] == ctx
  {
    hide Judge, FramePasses, FrameGives;
    if Search(img, m, filter, ctx, 0) == o {
      var all := SearchStops(img, m, filter, [ctx]);
      assert all[..1][0] == all[0];
      assert StopsAt(img, m, filter, all, o) && all[0] == ctx;
    }
    if frames: seq<Context> :| StopsAt(img, m, filter, frames, o) && frames[0] == ctx {
      SearchFrom(img, m, filter, frames, |frames| - 1);
      JudgeIs(img, m, filter, frames[|frames| - 1], |frames| - 1);
    }
  }

  /** The outcome of the search, or that there is none, by the chains alone. */
  lemma SearchDecides(img: Image, m: Store, filter: (nat, nat) -> FilterRun, ctx: Context)
    ensures var o := Search(img, m, filter, ctx, 0);
      && (o != NotHandled ==> exists frames: seq<Context> :: StopsAt(img, m, filter, frames, o) && frames[0] == ctx)
      && (o == NotHandled ==>
            forall frames: seq<Context>, p: Outcome :: StopsAt(img, m, filter, frames, p) ==> frames[0] != ctx)
  {
    hide Search, FramePasses, FrameGives;
    var o := Search(img, m, filter, ctx, 0);
    if o != NotHandled { DispatchIff(img, m, filter, ctx, o); }
    forall frames: seq<Context>, p: Outcome | StopsAt(img, m, filter, frames, p) && frames[0] == ctx
      ensures o == p && p != NotHandled
    {
      GivesSome(img, filter, frames[|frames| - 1], |frames| - 1, p);
      DispatchIff(img, m, filter, ctx, p);
    }
  }

  lemma GivesSome(img: Image, filter: (nat, nat) -> FilterRun, ctx: Context, depth: nat, o: Outcome)
    requires FrameGives(img, filter, ctx, depth, o)
    ensures o != NotHandled
  {
    hide Root, FirstCovering;
  }

  /** A frame passes the search to one caller only, or gives one outcome only. */
  lemma FrameOnly(img: Image, m: Store, filter: (nat, nat) -> FilterRun, ctx: Context, depth: nat)
    ensures forall a, b :: FramePasses(img, m, filter, ctx, depth, a) && FramePasses(img, m, filter, ctx, depth, b) ==> a == b
    ensures forall o, p :: FrameGives(img, filter, ctx, depth, o) && FrameGives(img, filter, ctx, depth, p) ==> o == p
    ensures forall o, a :: FrameGives(img, filter, ctx, depth, o) ==> !FramePasses(img, m, filter, ctx, depth, a)
  {
    hide *;
    JudgeIs(img, m, filter, ctx, depth);
  }

  /** The deciding frame is the innermost one that decides: the chain to it is unique. */
  lemma {:induction false} ChainUnique(img: Image, m: Store, filter: (nat, nat) -> FilterRun, f: seq<Context>, g: seq<Context>, k: nat)
    requires PassChain(img, m, filter, f) && PassChain(img, m, filter, g) && k < |f| && k < |g| && f[0] == g[0]
    ensures f[k] == g[k]
    decreases k
  {
    hide FramePasses, FrameGives;
    if k > 0 {
      ChainUnique(img, m, filter, f, g, k - 1);
      FrameOnly(img, m, filter, f[k - 1], k - 1);
      assert FramePasses(img, m, filter, f[k - 1], k - 1, f[k]);
      assert FramePasses(img, m, filter, g[k - 1], k - 1, g[k]);
    }
  }

  lemma StopUnique(img: Image, m: Store, filter: (nat, nat) -> FilterRun, f: seq<Context>, o: Outcome, g: seq<Context>, o': Outcome)
    requires StopsAt(img, m, filter, f, o) && StopsAt(img, m, filter, g, o') && f[0] == g[0]
    ensures f == g && o == o'
  {
    hide FramePasses, FrameGives;
    StopNoLonger(img, m, filter, f, o, g);
    StopNoLonger(img, m, filter, g, o', f);
    forall k: nat | k < |f|
      ensures f[k] == g[k]
    {
      ChainUnique(img, m, filter, f, g, k);
    }
    FrameOnly(img, m, filter, f[|f| - 1], |f| - 1);
  }

  lemma StopNoLonger(img: Image, m: Store, filter: (nat, nat) -> FilterRun, f: seq<Context>, o: Outcome, g: seq<Context>)
    requires StopsAt(img, m, filter, f, o) && PassChain(img, m, filter, g) && |g| > 0 && f[0] == g[0]
    ensures |g| <= |f|
  {
    hide FramePasses, FrameGives;
    var n := |f|;
    if n < |g| {
      assert FramePasses(img, m, filter, g[n - 1], n - 1, g[n]);
      ChainUnique(img, m, filter, f, g, n - 1);
      FrameOnly(img, m, filter, f[n - 1], n - 1);
    }
  }

  /** rsp rises strictly from frame to frame, so no frame is visited twice. */
  lemma {:induction false} RspRises(img: Image, m: Store, filter: (nat, nat) -> FilterRun, frames: seq<Context>, j: nat, k: nat)
    requires PassChain(img, m, filter, frames) && j < k < |frames|
    ensures frames[j].regs[RSP] < frames[k].regs[RSP]
    decreases k
  {
    hide Root, Unwound, NoneCovering, FirstCovering, Continues;
    assert FramePasses(img, m, filter, frames[k - 1], k - 1, frames[k]);
    if j < k - 1 { RspRises(img, m, filter, frames, j, k - 1); }
  }
}
