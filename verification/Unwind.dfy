/** Undoing an x64 prologue from its unwind codes. */
module Unwind {
  import opened Bytes
  import opened Store

  const RSP: nat := 4

  type Regs = s: seq<nat> | |s| == 16 witness seq(16, _ => 0)

  datatype Context = Context(regs: Regs, rip: nat)

  datatype Code = Code(codeOffset: nat, op: nat, info: nat, size: nat, offset: nat, frameOffset: nat)

  /** mem.u64(a & M64). */
  function Load(m: Store, a: int): nat { U64(m, a % TWO_64) }

  function FrameDelta(u: Code, frameOff: nat): nat {
    if u.frameOffset != 0 then u.frameOffset else frameOff * 16
  }

  /** unwindFrame from its loop on: rsp is a local that joins the registers at the end. */
  function UnwindFrom(m: Store, regs: Regs, rsp: nat, codes: seq<Code>, frameReg: nat, frameOff: nat): Context
    requires frameReg < 16 && forall u | u in codes :: u.info < 16
    decreases |codes|
  {
    if codes == [] then Context(regs[RSP := (rsp + 8) % TWO_64], Load(m, rsp))
    else
      var u, rest := codes[0], codes[1..];
      if u.op == 0 then UnwindFrom(m, regs[u.info := Load(m, rsp)], (rsp + 8) % TWO_64, rest, frameReg, frameOff)
      else if u.op == 1 || u.op == 2 then UnwindFrom(m, regs, (rsp + u.size) % TWO_64, rest, frameReg, frameOff)
      else if u.op == 3 then UnwindFrom(m, regs, (regs[frameReg] - FrameDelta(u, frameOff)) % TWO_64, rest, frameReg, frameOff)
      else if u.op == 4 || u.op == 5 then
        UnwindFrom(m, regs[u.info := Load(m, rsp + u.offset)], rsp, rest, frameReg, frameOff)
      else if u.op == 10 then
        var err := u.info == 1;
        Context(regs[RSP := (rsp + (if err then 0x30 else 0x28)) % TWO_64], Load(m, rsp + (if err then 0x20 else 0x18)))
      else UnwindFrom(m, regs, rsp, rest, frameReg, frameOff)
  }

  function Unwound(m: Store, ctx: Context, codes: seq<Code>, frameReg: nat, frameOff: nat): Context
    requires frameReg < 16 && forall u | u in codes :: u.info < 16
  {
    UnwindFrom(m, ctx.regs, ctx.regs[RSP], codes, frameReg, frameOff)
  }

  /** The loop over the codes, on a copy of the registers. */
  method UnwindFrame(m: Store, ctx: Context, codes: seq<Code>, frameReg: nat, frameOff: nat) returns (r: Context)
    requires frameReg < 16 && forall u | u in codes :: u.info < 16
    ensures r == Unwound(m, ctx, codes, frameReg, frameOff)
  {
    hide U64;
    var regs: Regs, rsp: nat := ctx.regs, ctx.regs[RSP];
    for k := 0 to |codes|
      invariant Unwound(m, ctx, codes, frameReg, frameOff) == UnwindFrom(m, regs, rsp, codes[k..], frameReg, frameOff)
    {
      var u := codes[k];
      assert codes[k..][0] == u && codes[k..][1..] == codes[k + 1..];
      match u.op {
        case 0 =>
          regs := regs[u.info := Load(m, rsp)];
          rsp := (rsp + 8) % TWO_64;
        case 1 => rsp := (rsp + u.size) % TWO_64;
        case 2 => rsp := (rsp + u.size) % TWO_64;
        case 3 => rsp := (regs[frameReg] - FrameDelta(u, frameOff)) % TWO_64;
        case 4 => regs := regs[u.info := Load(m, rsp + u.offset)];
        case 5 => regs := regs[u.info := Load(m, rsp + u.offset)];
        case 10 =>
          var err := u.info == 1;
          var rip := Load(m, rsp + (if err then 0x20 else 0x18));
          return Context(regs[RSP := (rsp + (if err then 0x30 else 0x28)) % TWO_64], rip);
        case _ =>
      }
    }
    assert codes[|codes|..] == [];
    r := Context(regs[RSP := (rsp + 8) % TWO_64], Load(m, rsp));
  }

  // ------------------------------------------------------------ the prologue

  /** What prologue instructions do; Other stands for what the unwinder ignores, vector register stores
      among it. */
  datatype Instr = Push(r: nat) | Alloc(n: nat) | Save(r: nat, off: nat) | SetFrame(off: nat) | Other

  datatype Machine = Machine(mem: Store, regs: Regs)

  predicate Stores(i: Instr) { i.Push? || i.Save? }

  /** Where a storing instruction stores. */
  function SlotOf(i: Instr, st: Machine): nat
    requires Stores(i)
  {
    if i.Push? then (st.regs[RSP] - 8) % TWO_64 else (st.regs[RSP] + i.off) % TWO_64
  }

  function Do(i: Instr, st: Machine, frameReg: nat): Machine
    requires frameReg < 16 && (Stores(i) ==> i.r < 16)
  {
    match i
    case Push(r) => Machine(W64(st.mem, SlotOf(i, st), st.regs[r]), st.regs[RSP := SlotOf(i, st)])
    case Alloc(n) => Machine(st.mem, st.regs[RSP := (st.regs[RSP] - n) % TWO_64])
    case Save(r, off) => Machine(W64(st.mem, SlotOf(i, st), st.regs[r]), st.regs)
    case SetFrame(off) => Machine(st.mem, st.regs[frameReg := (st.regs[RSP] + off) % TWO_64])
    case Other => st
  }

  predicate InstrsOk(ops: seq<Instr>) { forall i | i in ops && Stores(i) :: i.r < 16 }

  function Exec(ops: seq<Instr>, st: Machine, frameReg: nat): Machine
    requires frameReg < 16 && InstrsOk(ops)
  {
    if ops == [] then st
    else Do(ops[|ops| - 1], Exec(ops[..|ops| - 1], st, frameReg), frameReg)
  }

  /** Every stored register, as (address, value), in program order. */
  function Stored(ops: seq<Instr>, st: Machine, frameReg: nat): seq<(nat, nat)>
    requires frameReg < 16 && InstrsOk(ops)
  {
    if ops == [] then []
    else
      var before := Exec(ops[..|ops| - 1], st, frameReg);
      var i := ops[|ops| - 1];
      Stored(ops[..|ops| - 1], st, frameReg) + if Stores(i) then [(SlotOf(i, before), before.regs[i.r])] else []
  }

  predicate Framed(ops: seq<Instr>) { exists i :: i in ops && i.SetFrame? }

  predicate Saved(ops: seq<Instr>, r: nat) { exists i :: i in ops && Stores(i) && i.r == r }

  /** The frame register is set at most once, and not stored after it was set. */
  predicate FrameOnce(ops: seq<Instr>, frameReg: nat) {
    ops == [] ||
    (var i := ops[|ops| - 1]; var rest := ops[..|ops| - 1];
     FrameOnce(rest, frameReg) && (Framed(rest) ==> !i.SetFrame? && !(Stores(i) && i.r == frameReg)))
  }

  /** A frame register was set, and after that the codes read nothing through rsp. */
  predicate RspFree(ops: seq<Instr>) {
    ops != [] &&
    (var i := ops[|ops| - 1];
     i.SetFrame? || ((i.Alloc? || i.Other?) && RspFree(ops[..|ops| - 1])))
  }

  /** An unwind code that describes an instruction, by its raw fields. */
  predicate Describes(u: Code, i: Instr, frameOff: nat) {
    match i
    case Push(r) => u.op == 0 && u.info == r
    case Alloc(n) => (u.op == 1 || u.op == 2) && u.size == n
    case Save(r, off) => (u.op == 4 || u.op == 5) && u.info == r && u.offset == off
    case SetFrame(off) => u.op == 3 && off == (if u.frameOffset != 0 then u.frameOffset else 16 * frameOff)
    case Other => u.op >= 6 && u.op != 10
  }

  /** The first unwind codes list the prologue backwards. */
  predicate Backwards(codes: seq<Code>, ops: seq<Instr>, frameOff: nat) {
    |codes| >= |ops| && forall k | 0 <= k < |ops| :: codes[k].info < 16 && Describes(codes[k], ops[|ops| - 1 - k], frameOff)
  }

  predicate Registers(regs: Regs) { forall k | 0 <= k < 16 :: regs[k] < TWO_64 }

  lemma ExecRegisters(ops: seq<Instr>, st: Machine, frameReg: nat)
    requires frameReg < 16 && InstrsOk(ops) && Registers(st.regs)
    ensures Registers(Exec(ops, st, frameReg).regs)
  {
    hide W64;
    if ops != [] { ExecRegisters(ops[..|ops| - 1], st, frameReg); }
  }

  /** A prologue changes rsp and the frame register, no other register. */
  lemma {:induction false} ExecKeeps(ops: seq<Instr>, st: Machine, frameReg: nat, r: nat)
    requires frameReg < 16 && InstrsOk(ops) && r < 16 && r != RSP && (r == frameReg ==> !Framed(ops))
    ensures Exec(ops, st, frameReg).regs[r] == st.regs[r]
  {
    hide W64;
    if ops != [] {
      assert forall i | i in ops[..|ops| - 1] :: i in ops;
      ExecKeeps(ops[..|ops| - 1], st, frameReg, r);
      assert ops[|ops| - 1] in ops;
    }
  }

  /** Memory still holds every stored register. */
  ghost predicate Held(m: Store, stored: seq<(nat, nat)>) {
    forall k | 0 <= k < |stored| :: U64(m, stored[k].0) == stored[k].1
  }

  lemma SubSub(a: nat, n: nat)
    requires a < TWO_64
    ensures ((a - n) % TWO_64 + n) % TWO_64 == a
    ensures ((a + n) % TWO_64 - n) % TWO_64 == a
  {
    var q := (a - n) / TWO_64;
    ModUnique((a - n) % TWO_64 + n, TWO_64, -q, a);
    var t := (a + n) / TWO_64;
    ModUnique((a + n) % TWO_64 - n, TWO_64, -t, a);
  }

  /** Registers back as they were at entry, rsp aside. */
  ghost predicate Restored(regs': Regs, ops: seq<Instr>, st: Machine, regs: Regs) {
    forall r | 0 <= r < 16 && r != RSP :: regs'[r] == if Saved(ops, r) then st.regs[r] else regs[r]
  }

  /** Restoring one more register: its value before the store is its value at entry. */
  lemma RestoredMore(regs': Regs, ops: seq<Instr>, st: Machine, frameReg: nat, regs: Regs, r: nat)
    requires frameReg < 16 && InstrsOk(ops) && ops != [] && FrameOnce(ops, frameReg)
    requires Stores(ops[|ops| - 1]) && r == ops[|ops| - 1].r && r < 16
    requires InstrsOk(ops[..|ops| - 1])
    requires Restored(regs', ops[..|ops| - 1], st, regs[r := Exec(ops[..|ops| - 1], st, frameReg).regs[r]])
    requires forall q :: Saved(ops, q) == (Saved(ops[..|ops| - 1], q) || q == r)
    ensures Restored(regs', ops, st, regs)
  {
    hide U64, W64, Saved, Exec;
    if r != RSP { ExecKeeps(ops[..|ops| - 1], st, frameReg, r); }
  }

  /** One code undone: the registers and rsp before the instruction it describes. */
  function Undo(i: Instr, m: Store, regs: Regs, rsp: nat, frameReg: nat): (Regs, nat)
    requires frameReg < 16 && (Stores(i) ==> i.r < 16)
  {
    match i
    case Push(r) => (regs[r := Load(m, rsp)], (rsp + 8) % TWO_64)
    case Alloc(n) => (regs, (rsp + n) % TWO_64)
    case Save(r, off) => (regs[r := Load(m, rsp + off)], rsp)
    case SetFrame(off) => (regs, (regs[frameReg] - off) % TWO_64)
    case Other => (regs, rsp)
  }

  lemma CodeUndoes(codes: seq<Code>, i: Instr, m: Store, regs: Regs, rsp: nat, frameReg: nat, frameOff: nat)
    requires frameReg < 16 && codes != [] && (forall u | u in codes :: u.info < 16)
    requires (Stores(i) ==> i.r < 16) && Describes(codes[0], i, frameOff)
    ensures forall u | u in codes[1..] :: u.info < 16
    ensures var (regs1, rsp1) := Undo(i, m, regs, rsp, frameReg);
      UnwindFrom(m, regs, rsp, codes, frameReg, frameOff) == UnwindFrom(m, regs1, rsp1, codes[1..], frameReg, frameOff)
  {
    hide Load;
  }

  /** The state of unwinding just after the prologue instructions ops. */
  ghost predicate Ready(ops: seq<Instr>, st: Machine, frameReg: nat, m: Store, regs: Regs, rsp: nat)
    requires frameReg < 16 && InstrsOk(ops)
  {
    && Held(m, Stored(ops, st, frameReg))
    && (rsp == Exec(ops, st, frameReg).regs[RSP] || RspFree(ops)) && rsp < TWO_64
    && (Framed(ops) ==> regs[frameReg] == Exec(ops, st, frameReg).regs[frameReg])
  }

  lemma UndoReady(ops: seq<Instr>, st: Machine, frameReg: nat, m: Store, regs: Regs, rsp: nat)
    requires frameReg < 16 && frameReg != RSP && InstrsOk(ops) && ops != [] && Registers(st.regs)
    requires var i, before := ops[|ops| - 1], ops[..|ops| - 1];
      && InstrsOk(before) && (Stores(i) ==> i.r < 16)
      && Framed(ops) == (Framed(before) || i.SetFrame?)
      && (Framed(before) ==> !i.SetFrame? && !(Stores(i) && i.r == frameReg))
    requires Ready(ops, st, frameReg, m, regs, rsp)
    ensures var i, before := ops[|ops| - 1], ops[..|ops| - 1]; var b := Exec(before, st, frameReg);
      var (regs1, rsp1) := Undo(i, m, regs, rsp, frameReg);
      && Ready(before, st, frameReg, m, regs1, rsp1)
      && regs1 == if Stores(i) then regs[i.r := b.regs[i.r]] else regs
  {
    hide U64, W64, Held, Stored, InstrsOk, Framed, Registers;
    var i, before := ops[|ops| - 1], ops[..|ops| - 1];
    var b := Exec(before, st, frameReg);
    ExecRegisters(before, st, frameReg);
    RspBound(b.regs);
    LastHeld(m, ops, st, frameReg);
    ModUnique(rsp, TWO_64, 0, rsp);
    match i
    case Push(r) => SubSub(b.regs[RSP], 8);
    case Save(r, off) =>
    case Alloc(k) => SubSub(b.regs[RSP], k);
    case SetFrame(off) => SubSub(b.regs[RSP], off);
    case Other =>
  }

  lemma RspBound(regs: Regs)
    requires Registers(regs)
    ensures regs[RSP] < TWO_64
  {
  }

  /** Unwinding from any registers that kept what the prologue's frame depends on gets, behind the codes
      of the prologue, to the registers and rsp at entry. */
  lemma {:induction false} UnwindRestores(ops: seq<Instr>, st: Machine, frameReg: nat, frameOff: nat, codes: seq<Code>,
                                          m: Store, regs: Regs, rsp: nat) returns (regs': Regs)
    requires frameReg < 16 && frameReg != RSP && InstrsOk(ops) && FrameOnce(ops, frameReg)
    requires Registers(st.regs) && Backwards(codes, ops, frameOff) && forall u | u in codes :: u.info < 16
    requires Ready(ops, st, frameReg, m, regs, rsp)
    ensures forall u | u in codes[|ops|..] :: u.info < 16
    ensures UnwindFrom(m, regs, rsp, codes, frameReg, frameOff)
      == UnwindFrom(m, regs', st.regs[RSP], codes[|ops|..], frameReg, frameOff)
    ensures Restored(regs', ops, st, regs)
    decreases |ops|
  {
    hide U64, W64, Held, Stored, InstrsOk, Saved, Framed, Exec, Registers, Undo, FrameOnce, Describes, UnwindFrom, Restored;
    if ops == [] {
      assert codes[0..] == codes;
      regs' := regs;
      UnwindNothing(st, frameReg, m, regs, rsp);
    } else {
      var i, before, tail := ops[|ops| - 1], ops[..|ops| - 1], codes[1..];
      LastInstr(ops, st, frameReg, frameOff, codes);
      CodeUndoes(codes, i, m, regs, rsp, frameReg, frameOff);
      UndoReady(ops, st, frameReg, m, regs, rsp);
      var (regs1, rsp1) := Undo(i, m, regs, rsp, frameReg);
      regs' := UnwindRestores(before, st, frameReg, frameOff, tail, m, regs1, rsp1);
      assert tail[|before|..] == codes[|ops|..];
      if Stores(i) { RestoredMore(regs', ops, st, frameReg, regs, i.r); } else { RestoredSame(regs', ops, st, regs); }
    }
  }

  lemma RestoredSame(regs': Regs, ops: seq<Instr>, st: Machine, regs: Regs)
    requires ops != [] && Restored(regs', ops[..|ops| - 1], st, regs)
    requires forall q :: Saved(ops, q) == Saved(ops[..|ops| - 1], q)
    ensures Restored(regs', ops, st, regs)
  {
    hide Saved;
  }

  lemma UnwindNothing(st: Machine, frameReg: nat, m: Store, regs: Regs, rsp: nat)
    requires frameReg < 16 && InstrsOk([]) && Ready([], st, frameReg, m, regs, rsp)
    ensures rsp == st.regs[RSP] && Restored(regs, [], st, regs)
  {
    hide U64, Saved;
    NothingSaved();
  }

  lemma NothingSaved()
    ensures !Framed([]) && forall r :: !Saved([], r)
  {
  }

  /** Facts about a prologue's last instruction and its code, the first of the list. */
  lemma LastInstr(ops: seq<Instr>, st: Machine, frameReg: nat, frameOff: nat, codes: seq<Code>)
    requires frameReg < 16 && InstrsOk(ops) && ops != [] && FrameOnce(ops, frameReg) && Backwards(codes, ops, frameOff)
    ensures var i, before := ops[|ops| - 1], ops[..|ops| - 1];
      && InstrsOk(before) && FrameOnce(before, frameReg) && Backwards(codes[1..], before, frameOff)
      && Describes(codes[0], i, frameOff) && (Stores(i) ==> i.r < 16)
      && Framed(ops) == (Framed(before) || i.SetFrame?)
      && (Framed(before) ==> !i.SetFrame? && !(Stores(i) && i.r == frameReg))
      && codes[0].info < 16
      && forall r :: Saved(ops, r) == (Saved(before, r) || (Stores(i) && i.r == r))
  {
    var i, before := ops[|ops| - 1], ops[..|ops| - 1];
    assert ops == before + [i];
    assert forall k | 0 <= k < |codes[1..]| :: codes[1..][k] == codes[k + 1];
  }

  lemma LastHeld(m: Store, ops: seq<Instr>, st: Machine, frameReg: nat)
    requires frameReg < 16 && InstrsOk(ops) && ops != [] && Held(m, Stored(ops, st, frameReg))
    ensures var before := ops[..|ops| - 1]; var b := Exec(before, st, frameReg); var i := ops[|ops| - 1];
      && Held(m, Stored(before, st, frameReg))
      && (Stores(i) ==> i.r < 16 && U64(m, SlotOf(i, b)) == b.regs[i.r])
  {
    hide U64, W64;
    var before := Stored(ops[..|ops| - 1], st, frameReg);
    var all := Stored(ops, st, frameReg);
    forall k | 0 <= k < |before|
      ensures U64(m, before[k].0) == before[k].1
    {
      assert all[k] == before[k];
    }
    if Stores(ops[|ops| - 1]) { assert all[|before|] == all[|all| - 1]; }
  }

  // ---------------------------------------------------------- the main result

  /** The stored slots and the return address slot are pairwise apart. */
  predicate SlotsApart(stored: seq<(nat, nat)>, ret: nat) {
    && (forall k | 0 <= k < |stored| :: Clear(stored[k].0, ret))
    && (forall j, k | 0 <= j < k < |stored| :: Clear(stored[j].0, stored[k].0))
  }

  predicate Clear(a: nat, b: nat) { a + 8 <= b || b + 8 <= a }

  /** After the prologue ran, its slots hold what was stored and the return address is intact. */
  lemma {:induction false} ExecHolds(ops: seq<Instr>, st: Machine, frameReg: nat)
    requires frameReg < 16 && InstrsOk(ops) && Registers(st.regs)
    requires SlotsApart(Stored(ops, st, frameReg), st.regs[RSP])
    ensures var m := Exec(ops, st, frameReg).mem;
      Held(m, Stored(ops, st, frameReg)) && U64(m, st.regs[RSP]) == U64(st.mem, st.regs[RSP])
    decreases |ops|
  {
    hide U64, W64;
    if ops != [] {
      var before, i := ops[..|ops| - 1], ops[|ops| - 1];
      var b := Exec(before, st, frameReg);
      var all, first := Stored(ops, st, frameReg), Stored(before, st, frameReg);
      assert i in ops;
      assert forall k | 0 <= k < |first| :: all[k] == first[k];
      ExecHolds(before, st, frameReg);
      ExecRegisters(before, st, frameReg);
      if Stores(i) {
        var a, v := SlotOf(i, b), b.regs[i.r];
        assert all[|first|] == (a, v);
        ModUnique(v, TWO_64, 0, v);
        W64U64(b.mem, a, v, a);
        W64U64(b.mem, a, v, st.regs[RSP]);
        assert Clear(all[|first|].0, st.regs[RSP]);
        forall k | 0 <= k < |all|
          ensures U64(W64(b.mem, a, v), all[k].0) == all[k].1
        {
          if k < |first| {
            assert Clear(all[k].0, all[|first|].0);
            W64U64(b.mem, a, v, all[k].0);
          }
        }
      } else {
        assert all == first;
      }
    }
  }

  /** What the function body must leave alone between prologue and unwind. */
  ghost predicate BodyKept(ops: seq<Instr>, st: Machine, frameReg: nat, m: Store, regs: Regs)
    requires frameReg < 16 && InstrsOk(ops)
  {
    var done := Exec(ops, st, frameReg);
    && (forall k | 0 <= k < |Stored(ops, st, frameReg)| ::
          U64(m, Stored(ops, st, frameReg)[k].0) == U64(done.mem, Stored(ops, st, frameReg)[k].0))
    && U64(m, st.regs[RSP]) == U64(done.mem, st.regs[RSP])
    && (Framed(ops) ==> regs[frameReg] == done.regs[frameReg])
    && (regs[RSP] == done.regs[RSP] || RspFree(ops))
  }

  /** unwindFrame undoes the prologue its codes describe: for every list of instructions, every
      saved register and rsp have their values at entry again and rip is the return address;
      when the frame register anchors the codes the body may have moved rsp anywhere. Register 4 is rsp. */
  lemma UnwindUndoesPrologue(ops: seq<Instr>, st: Machine, frameReg: nat, frameOff: nat, codes: seq<Code>,
                             m: Store, ctx: Context)
    requires frameReg < 16 && frameReg != RSP && InstrsOk(ops) && FrameOnce(ops, frameReg)
    requires Registers(st.regs) && Registers(ctx.regs) && Backwards(codes, ops, frameOff) && |codes| == |ops|
    requires SlotsApart(Stored(ops, st, frameReg), st.regs[RSP])
    requires BodyKept(ops, st, frameReg, m, ctx.regs)
    ensures forall u | u in codes :: u.info < 16
    ensures var c := Unwound(m, ctx, codes, frameReg, frameOff);
      && c.regs[4] == (st.regs[4] + 8) % TWO_64
      && c.rip == U64(st.mem, st.regs[4])
      && forall r | 0 <= r < 16 && r != 4 :: c.regs[r] == if Saved(ops, r) then st.regs[r] else ctx.regs[r]
  {
    hide U64, W64, SlotsApart, Saved, Framed;
    ReadyAfter(ops, st, frameReg, m, ctx.regs);
    var regs' := UnwindRestores(ops, st, frameReg, frameOff, codes, m, ctx.regs, ctx.regs[RSP]);
    ModUnique(st.regs[RSP], TWO_64, 0, st.regs[RSP]);
  }

  /** The words an interrupt leaves from a on: the error code if there is one, then rip, cs, rflags, rsp, ss
      (Intel SDM volume 3A, section 6.14.2). */
  ghost predicate Interrupted(m: Store, a: nat, err: bool, rip: nat, rsp: nat) {
    var b := if err then a + 8 else a;
    U64(m, b % TWO_64) == rip && U64(m, (b + 0x18) % TWO_64) == rsp
  }

  /** Behind the prologue of an interrupt routine unwindFrame takes the interrupted rsp for rip, and leaves
      rsp above the words pushed: it finds the interrupted context exactly when both are one. Codes after the
      machine frame are not looked at. */
  lemma UnwindMachineFrame(ops: seq<Instr>, st: Machine, frameReg: nat, frameOff: nat, codes: seq<Code>,
                           m: Store, ctx: Context, rip: nat, rsp: nat)
    requires frameReg < 16 && frameReg != RSP && InstrsOk(ops) && FrameOnce(ops, frameReg)
    requires Registers(st.regs) && Registers(ctx.regs) && Backwards(codes, ops, frameOff) && forall u | u in codes :: u.info < 16
    requires |codes| > |ops| && codes[|ops|].op == 10
    requires SlotsApart(Stored(ops, st, frameReg), st.regs[RSP])
    requires BodyKept(ops, st, frameReg, m, ctx.regs)
    requires Interrupted(m, st.regs[RSP], codes[|ops|].info == 1, rip, rsp)
    ensures var c := Unwound(m, ctx, codes, frameReg, frameOff);
      var words := if codes[|ops|].info == 1 then 6 else 5;
      && c.rip == rsp && c.regs[4] == (st.regs[4] + 8 * words) % TWO_64
      && (forall r | 0 <= r < 16 && r != 4 :: c.regs[r] == if Saved(ops, r) then st.regs[r] else ctx.regs[r])
      && (c.rip == rip && c.regs[4] == rsp <==> rip == rsp == (st.regs[4] + 8 * words) % TWO_64)
  {
    hide U64, W64, SlotsApart, Saved, Framed, UnwindFrom, Exec, Stored, InstrsOk, FrameOnce, Registers, RspFree, Backwards, Interrupted, Held;
    ReadyAfter(ops, st, frameReg, m, ctx.regs);
    var regs' := UnwindRestores(ops, st, frameReg, frameOff, codes, m, ctx.regs, ctx.regs[RSP]);
    var tail := codes[|ops|..];
    assert tail[0] == codes[|ops|];
    MachineFrame(m, regs', st.regs[RSP], tail, frameReg, frameOff, rip, rsp);
  }

  /** The state after the body, as unwinding starts from it. */
  lemma ReadyAfter(ops: seq<Instr>, st: Machine, frameReg: nat, m: Store, regs: Regs)
    requires frameReg < 16 && InstrsOk(ops) && Registers(st.regs) && Registers(regs)
    requires SlotsApart(Stored(ops, st, frameReg), st.regs[RSP]) && BodyKept(ops, st, frameReg, m, regs)
    ensures Ready(ops, st, frameReg, m, regs, regs[RSP])
    ensures U64(m, st.regs[RSP]) == U64(st.mem, st.regs[RSP])
  {
    hide U64, W64, SlotsApart, Saved, Framed, Exec, Stored, InstrsOk, RspFree;
    ExecHolds(ops, st, frameReg);
  }

  lemma MachineFrame(m: Store, regs: Regs, rsp0: nat, codes: seq<Code>, frameReg: nat, frameOff: nat, rip: nat, rsp: nat)
    requires frameReg < 16 && codes != [] && codes[0].op == 10 && forall u | u in codes :: u.info < 16
    requires Interrupted(m, rsp0, codes[0].info == 1, rip, rsp)
    ensures UnwindFrom(m, regs, rsp0, codes, frameReg, frameOff)
      == Context(regs[RSP := (rsp0 + 8 * (if codes[0].info == 1 then 6 else 5)) % TWO_64], rsp)
  {
    hide U64;
  }
}
