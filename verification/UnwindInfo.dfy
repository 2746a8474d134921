/** Decoding UNWIND_INFO: header, codes of one, two or three slots, and the handler or
    chain area behind them; and the encoding it undoes. */
module UnwindInfo {
  import opened Bytes
  import opened Buffers
  import opened Wrappers
  import opened Unwind
  import PeMap
  import PeParse

  datatype Scope = Scope(begin: nat, end: nat, handler: nat, jumpTarget: nat)

  datatype RuntimeFunction = RuntimeFunction(begin: nat, end: nat, unwindRva: nat)

  datatype Info = Info(
    version: nat, flags: nat, sizeOfProlog: nat, frameReg: nat, frameOff: nat, codes: seq<Code>,
    handlerRva: Option<nat>, scopes: Option<seq<Scope>>, chain: Option<RuntimeFunction>)

  function At(b: seq<Byte>, o: nat): nat { ByteAt(b, o) as nat }

  /** (u32 | 0): the same 32 bits, signed. */
  function I32(b: seq<Byte>, o: nat): int {
    if U32At(b, o) >= 0x8000_0000 then U32At(b, o) - 0x1_0000_0000 else U32At(b, o)
  }

  // ---------------------------------------------------------------- decoding

  /** Two-byte slots taken by a code. */
  function SlotCount(op: nat, info: nat): (n: nat)
    ensures 1 <= n <= 3
  {
    if op == 1 then (if info == 0 then 2 else 3)
    else if op == 4 || op == 8 then 2
    else if op == 5 || op == 9 then 3
    else 1
  }

  function CodeAt(b: seq<Byte>, off: nat): Code {
    var op, info := At(b, off + 1) % 16, At(b, off + 1) / 16;
    var size := if op == 1 then (if info == 0 then U16At(b, off + 2) * 8 else U32At(b, off + 2))
                else if op == 2 then info * 8 + 8 else 0;
    var offset := if op == 4 then U16At(b, off + 2) * 8 else if op == 5 then U32At(b, off + 2) else 0;
    Code(At(b, off), op, info, size, offset, if op == 3 then info * 16 else 0)
  }

  /** The code loop from byte off and slot number slot: the codes, and where it stopped. */
  function CodesFrom(b: seq<Byte>, off: nat, slot: nat, count: nat): (seq<Code>, nat)
    decreases count - slot
  {
    if slot < count && off + 2 <= |b| then
      var u := CodeAt(b, off);
      var n := SlotCount(u.op, u.info);
      var (rest, end) := CodesFrom(b, off + 2 * n, slot + n, count);
      ([u] + rest, end)
    else ([], off)
  }

  function ScopeAt(b: seq<Byte>, off: nat): Scope {
    Scope(U32At(b, off), U32At(b, off + 4), U32At(b, off + 8), U32At(b, off + 12))
  }

  function ScopesFrom(b: seq<Byte>, off: nat, n: nat): seq<Scope> {
    seq(n, k requires 0 <= k < n => ScopeAt(b, off + 16 * k))
  }

  const EHANDLER := 1
  const UHANDLER := 2
  const CHAININFO := 4

  predicate Flag(flags: nat, bit: nat)
    requires bit > 0
  {
    flags / bit % 2 == 1
  }

  /** The structure at a file offset; None when its header does not fit. */
  function ReadInfo(b: seq<Byte>, off0: nat): Option<Info> {
    if off0 + 4 > |b| then None
    else
      var flags := At(b, off0) / 8;
      var count := At(b, off0 + 2);
      var (codes, end) := CodesFrom(b, off0 + 4, 0, count);
      var chained := Flag(flags, CHAININFO);
      var handled := Flag(flags, EHANDLER) || Flag(flags, UHANDLER);
      var off := if (chained || handled) && count % 2 == 1 then end + 2 else end;
      var n := I32(b, off + 4);
      Some(Info(
        At(b, off0) % 8, flags, At(b, off0 + 1), At(b, off0 + 3) % 16, At(b, off0 + 3) / 16, codes,
        if !chained && handled then Some(U32At(b, off)) else None,
        if !chained && handled && 0 < n < 4096 then Some(ScopesFrom(b, off + 8, n)) else None,
        if chained then Some(RuntimeFunction(U32At(b, off), U32At(b, off + 4), U32At(b, off + 8))) else None))
  }

  /** The structure an rva leads to in the file. */
  function InfoAt(b: seq<Byte>, pe: PeParse.Pe, rva: nat): Option<Info> {
    match PeMap.RvaToOffset(pe, rva) case None => None case Some(off) => ReadInfo(b, off)
  }

  /** The imperative reader, with its cursor and slot counter. */
  method ReadUnwindInfo(b: seq<Byte>, pe: PeParse.Pe, unwindRva: nat) returns (r: Option<Info>)
    ensures r == InfoAt(b, pe, unwindRva)
  {
    hide U16At, U32At, At, CodeAt, SlotCount, ScopeAt, I32, Flag;
    var found := PeMap.FindOffset(pe, unwindRva);
    if found.None? || found.value + 4 > |b| {
      return None;
    }
    var off0 := found.value;
    var version, flags, count := At(b, off0) % 8, At(b, off0) / 8, At(b, off0 + 2);
    var frameReg, frameOff := At(b, off0 + 3) % 16, At(b, off0 + 3) / 16;
    var codes: seq<Code> := [];
    var off: int, slot: int := off0 + 4, 0;
    assert [] + CodesFrom(b, off0 + 4, 0, count).0 == CodesFrom(b, off0 + 4, 0, count).0;
    while slot < count && off + 2 <= |b|
      invariant off >= 0 && slot >= 0
      invariant CodesFrom(b, off0 + 4, 0, count) == (codes + CodesFrom(b, off, slot, count).0, CodesFrom(b, off, slot, count).1)
      decreases count as int - slot
    {
      var u := CodeAt(b, off);
      ghost var rest := CodesFrom(b, off, slot, count).0;
      var n := SlotCount(u.op, u.info);
      codes := codes + [u];
      off, slot := off + 2 * n, slot + n;
      assert codes + CodesFrom(b, off, slot, count).0 == codes[..|codes| - 1] + rest;
    }
    assert codes + [] == codes;
    var chained := Flag(flags, CHAININFO);
    var handled := Flag(flags, EHANDLER) || Flag(flags, UHANDLER);
    if (chained || handled) && count % 2 == 1 {
      off := off + 2;
    }
    var handler: Option<nat>, scopes: Option<seq<Scope>>, chain: Option<RuntimeFunction> := None, None, None;
    if chained {
      chain := Some(RuntimeFunction(U32At(b, off), U32At(b, off + 4), U32At(b, off + 8)));
    } else if handled {
      handler := Some(U32At(b, off));
      off := off + 4;
      var n := I32(b, off);
      if 0 < n < 4096 {
        off := off + 4;
        ghost var base := off;
        var list: seq<Scope> := [];
        for k := 0 to n
          invariant off == base + 16 * k && list == ScopesFrom(b, base, k)
        {
          list := list + [ScopeAt(b, off)];
          off := off + 16;
        }
        scopes := Some(list);
      }
    }
    r := Some(Info(version, flags, At(b, off0 + 1), frameReg, frameOff, codes, handler, scopes, chain));
  }

  // ---------------------------------------------------------------- encoding

  /** A code with the one field its operation carries, in the range that field has. */
  predicate CodeOk(u: Code) {
    && u.codeOffset < 256 && u.op < 16 && u.info < 16
    && (match u.op
        case 1 => u.offset == 0 && u.frameOffset == 0 &&
                  if u.info == 0 then u.size % 8 == 0 && u.size / 8 < 0x1_0000 else u.size < TWO_32
        case 2 => u.offset == 0 && u.frameOffset == 0 && u.size == u.info * 8 + 8
        case 3 => u.offset == 0 && u.size == 0 && u.frameOffset == u.info * 16
        case 4 => u.size == 0 && u.frameOffset == 0 && u.offset % 8 == 0 && u.offset / 8 < 0x1_0000
        case 5 => u.size == 0 && u.frameOffset == 0 && u.offset < TWO_32
        case _ => u.size == 0 && u.frameOffset == 0 && u.offset == 0)
  }

  /** The operand slots of a code; an XMM save's operand is not kept by the decoder. */
  function Operand(u: Code, xmm: nat): seq<Byte> {
    if u.op == 1 && u.info == 0 then ToLE(u.size / 8, 2)
    else if u.op == 1 then ToLE(u.size, 4)
    else if u.op == 4 then ToLE(u.offset / 8, 2)
    else if u.op == 5 then ToLE(u.offset, 4)
    else if u.op == 8 then ToLE(xmm, 2)
    else if u.op == 9 then ToLE(xmm, 4)
    else []
  }

  function EncodeCode(u: Code, xmm: nat): (s: seq<Byte>)
    requires CodeOk(u)
    ensures |s| == 2 * SlotCount(u.op, u.info)
  {
    [u.codeOffset as Byte, (u.op + 16 * u.info) as Byte] + Operand(u, xmm)
  }

  function EncodeCodes(codes: seq<Code>, xmm: nat): (s: seq<Byte>)
    requires forall u | u in codes :: CodeOk(u)
    ensures |s| == 2 * TotalSlots(codes)
  {
    if codes == [] then [] else EncodeCode(codes[0], xmm) + EncodeCodes(codes[1..], xmm)
  }

  function TotalSlots(codes: seq<Code>): nat {
    if codes == [] then 0 else SlotCount(codes[0].op, codes[0].info) + TotalSlots(codes[1..])
  }

  lemma HoldsByte(b: seq<Byte>, off: nat, s: seq<Byte>, k: nat)
    requires Holds(b, off, s) && k < |s|
    ensures At(b, off + k) == s[k] as nat
  {
    assert b[off..off + |s|][k] == s[k];
  }

  lemma HoldsParts(b: seq<Byte>, off: nat, s: seq<Byte>, t: seq<Byte>)
    requires Holds(b, off, s + t)
    ensures Holds(b, off, s) && Holds(b, off + |s|, t)
  {
    assert b[off..off + |s|] == (s + t)[..|s|];
    assert b[off + |s|..off + |s| + |t|] == (s + t)[|s|..];
  }

  /** One code comes back. */
  lemma CodeBack(b: seq<Byte>, off: nat, u: Code, xmm: nat)
    requires CodeOk(u) && Holds(b, off, EncodeCode(u, xmm))
    ensures CodeAt(b, off) == u
  {
    var head := [u.codeOffset as Byte, (u.op + 16 * u.info) as Byte];
    hide U16At, U32At;
    HoldsParts(b, off, head, Operand(u, xmm));
    HoldsByte(b, off, head, 0);
    HoldsByte(b, off, head, 1);
    ModUnique(u.op + 16 * u.info, 16, u.info, u.op);
    if u.op == 1 && u.info == 0 { HoldsU16(b, off + 2, u.size / 8); }
    else if u.op == 1 { HoldsU32(b, off + 2, u.size); }
    else if u.op == 4 { HoldsU16(b, off + 2, u.offset / 8); }
    else if u.op == 5 { HoldsU32(b, off + 2, u.offset); }
  }

  lemma CodesStep(b: seq<Byte>, off: nat, slot: nat, count: nat, u: Code, rest: seq<Code>, end: nat)
    requires slot < count && off + 2 <= |b| && CodeAt(b, off) == u
    requires CodesFrom(b, off + 2 * SlotCount(u.op, u.info), slot + SlotCount(u.op, u.info), count) == (rest, end)
    ensures CodesFrom(b, off, slot, count) == ([u] + rest, end)
  {
    hide CodeAt, SlotCount;
  }

  /** The code loop gives back exactly the codes encoded, and stops right behind them. */
  lemma {:induction false} CodesBack(b: seq<Byte>, off: nat, codes: seq<Code>, xmm: nat, slot: nat, count: nat)
    requires (forall u | u in codes :: CodeOk(u)) && Holds(b, off, EncodeCodes(codes, xmm))
    requires count == slot + TotalSlots(codes)
    ensures CodesFrom(b, off, slot, count) == (codes, off + 2 * TotalSlots(codes))
    decreases |codes|
  {
    hide CodeOk, CodeAt, EncodeCode, SlotCount, Holds;
    if codes == [] {
      assert CodesFrom(b, off, slot, count) == ([], off);
    } else {
      hide CodesFrom;
      var u := codes[0];
      HoldsParts(b, off, EncodeCode(u, xmm), EncodeCodes(codes[1..], xmm));
      CodeBack(b, off, u, xmm);
      CodesBack(b, off + 2 * SlotCount(u.op, u.info), codes[1..], xmm, slot + SlotCount(u.op, u.info), count);
      assert off + 2 <= |b| by { assert |EncodeCode(u, xmm)| >= 2; }
      CodesStep(b, off, slot, count, u, codes[1..], off + 2 * TotalSlots(codes));
      assert [u] + codes[1..] == codes;
    }
  }

  predicate ScopeOk(s: Scope) { s.begin < TWO_32 && s.end < TWO_32 && s.handler < TWO_32 && s.jumpTarget < TWO_32 }

  function EncodeScope(s: Scope): (r: seq<Byte>)
    ensures |r| == 16
  {
    ToLE(s.begin, 4) + (ToLE(s.end, 4) + (ToLE(s.handler, 4) + ToLE(s.jumpTarget, 4)))
  }

  function EncodeScopes(scopes: seq<Scope>): (r: seq<Byte>)
    ensures |r| == 16 * |scopes|
  {
    if scopes == [] then [] else EncodeScope(scopes[0]) + EncodeScopes(scopes[1..])
  }

  lemma ScopeBack(b: seq<Byte>, off: nat, s: Scope)
    requires ScopeOk(s) && Holds(b, off, EncodeScope(s))
    ensures ScopeAt(b, off) == s
  {
    hide U32At, ToLE;
    HoldsParts(b, off, ToLE(s.begin, 4), ToLE(s.end, 4) + (ToLE(s.handler, 4) + ToLE(s.jumpTarget, 4)));
    HoldsParts(b, off + 4, ToLE(s.end, 4), ToLE(s.handler, 4) + ToLE(s.jumpTarget, 4));
    HoldsParts(b, off + 8, ToLE(s.handler, 4), ToLE(s.jumpTarget, 4));
    HoldsU32(b, off, s.begin);
    HoldsU32(b, off + 4, s.end);
    HoldsU32(b, off + 8, s.handler);
    HoldsU32(b, off + 12, s.jumpTarget);
  }

  lemma {:induction false} ScopesBack(b: seq<Byte>, off: nat, scopes: seq<Scope>)
    requires (forall s | s in scopes :: ScopeOk(s)) && Holds(b, off, EncodeScopes(scopes))
    ensures ScopesFrom(b, off, |scopes|) == scopes
    decreases |scopes|
  {
    hide EncodeScope, ScopeAt;
    if scopes != [] {
      HoldsParts(b, off, EncodeScope(scopes[0]), EncodeScopes(scopes[1..]));
      ScopeBack(b, off, scopes[0]);
      ScopesBack(b, off + 16, scopes[1..]);
      forall k | 0 <= k < |scopes|
        ensures ScopesFrom(b, off, |scopes|)[k] == scopes[k]
      {
        if k > 0 { assert ScopesFrom(b, off + 16, |scopes| - 1)[k - 1] == scopes[1..][k - 1]; }
      }
    }
  }

  /** A structure the format can carry: flags agree with what follows the codes. */
  predicate InfoOk(i: Info) {
    && i.version < 8 && i.flags < 32 && i.sizeOfProlog < 256 && i.frameReg < 16 && i.frameOff < 16
    && (forall u | u in i.codes :: CodeOk(u)) && TotalSlots(i.codes) < 256
    && (i.chain.Some? <==> i.flags / 4 % 2 == 1)
    && (i.handlerRva.Some? <==> i.chain.None? && i.flags % 4 != 0)
    && (i.scopes.Some? ==> i.handlerRva.Some? && 0 < |i.scopes.value| < 4096 && forall s | s in i.scopes.value :: ScopeOk(s))
    && (i.handlerRva.Some? ==> i.handlerRva.value < TWO_32)
    && (i.chain.Some? ==> i.chain.value.begin < TWO_32 && i.chain.value.end < TWO_32 && i.chain.value.unwindRva < TWO_32)
  }

  function Header(i: Info): (s: seq<Byte>)
    requires InfoOk(i)
    ensures |s| == 4
  {
    [(i.version + 8 * i.flags) as Byte, i.sizeOfProlog as Byte, TotalSlots(i.codes) as Byte, (i.frameReg + 16 * i.frameOff) as Byte]
  }

  /** The area behind the codes, at the next 4-byte boundary when there is one. */
  function Tail(i: Info): seq<Byte> {
    if i.chain.Some? then ToLE(i.chain.value.begin, 4) + (ToLE(i.chain.value.end, 4) + ToLE(i.chain.value.unwindRva, 4))
    else if i.handlerRva.Some? then
      ToLE(i.handlerRva.value, 4) +
      (if i.scopes.Some? then ToLE(|i.scopes.value|, 4) + EncodeScopes(i.scopes.value) else ToLE(0, 4))
    else []
  }

  function AlignPad(i: Info): seq<Byte> {
    if (i.chain.Some? || i.handlerRva.Some?) && TotalSlots(i.codes) % 2 == 1 then Zeros(2) else []
  }

  function Encode(i: Info, xmm: nat): seq<Byte>
    requires InfoOk(i)
  {
    Header(i) + (EncodeCodes(i.codes, xmm) + (AlignPad(i) + Tail(i)))
  }

  lemma TailBack(b: seq<Byte>, off: nat, i: Info)
    requires InfoOk(i) && Holds(b, off, Tail(i))
    ensures i.chain.Some? ==>
      RuntimeFunction(U32At(b, off), U32At(b, off + 4), U32At(b, off + 8)) == i.chain.value
    ensures i.handlerRva.Some? ==> U32At(b, off) == i.handlerRva.value
    ensures i.scopes.Some? ==> I32(b, off + 4) == |i.scopes.value| && ScopesFrom(b, off + 8, |i.scopes.value|) == i.scopes.value
    ensures i.handlerRva.Some? && i.scopes.None? ==> I32(b, off + 4) == 0
  {
    hide U32At, ToLE, CodeOk;
    if i.chain.Some? {
      var c := i.chain.value;
      HoldsParts(b, off, ToLE(c.begin, 4), ToLE(c.end, 4) + ToLE(c.unwindRva, 4));
      HoldsParts(b, off + 4, ToLE(c.end, 4), ToLE(c.unwindRva, 4));
      HoldsU32(b, off, c.begin);
      HoldsU32(b, off + 4, c.end);
      HoldsU32(b, off + 8, c.unwindRva);
    } else if i.handlerRva.Some? {
      var rest := if i.scopes.Some? then ToLE(|i.scopes.value|, 4) + EncodeScopes(i.scopes.value) else ToLE(0, 4);
      HoldsParts(b, off, ToLE(i.handlerRva.value, 4), rest);
      HoldsU32(b, off, i.handlerRva.value);
      if i.scopes.Some? {
        HoldsParts(b, off + 4, ToLE(|i.scopes.value|, 4), EncodeScopes(i.scopes.value));
        HoldsU32(b, off + 4, |i.scopes.value|);
        ScopesBack(b, off + 8, i.scopes.value);
      } else {
        HoldsU32(b, off + 4, 0);
      }
    }
  }

  /** The round trip: whatever follows the structure in the file, reading an encoded
      UNWIND_INFO gives back its header, exactly its codes, and its handler and scope table or
      chained function, found at the aligned place for odd and even slot counts. */
  lemma ReadEncoded(b: seq<Byte>, off: nat, i: Info, xmm: nat)
    requires InfoOk(i) && Holds(b, off, Encode(i, xmm))
    ensures ReadInfo(b, off) == Some(i)
  {
    hide CodeOk, EncodeCodes, CodesFrom, Tail, U32At, I32;
    HoldsParts(b, off, Header(i), EncodeCodes(i.codes, xmm) + (AlignPad(i) + Tail(i)));
    HoldsParts(b, off + 4, EncodeCodes(i.codes, xmm), AlignPad(i) + Tail(i));
    var end := off + 4 + 2 * TotalSlots(i.codes);
    HoldsParts(b, end, AlignPad(i), Tail(i));
    HoldsByte(b, off, Header(i), 0);
    HoldsByte(b, off, Header(i), 1);
    HoldsByte(b, off, Header(i), 2);
    HoldsByte(b, off, Header(i), 3);
    ModUnique(i.version + 8 * i.flags, 8, i.flags, i.version);
    ModUnique(i.frameReg + 16 * i.frameOff, 16, i.frameOff, i.frameReg);
    CodesBack(b, off + 4, i.codes, xmm, 0, TotalSlots(i.codes));
    TailBack(b, end + |AlignPad(i)|, i);
    ReadFields(b, off, i, end);
  }

  /** From the parts read back to the structure. */
  lemma ReadFields(b: seq<Byte>, off: nat, i: Info, end: nat)
    requires InfoOk(i) && off + 4 <= |b|
    requires At(b, off) / 8 == i.flags && At(b, off) % 8 == i.version && At(b, off + 1) == i.sizeOfProlog
    requires At(b, off + 2) == TotalSlots(i.codes) && At(b, off + 3) % 16 == i.frameReg && At(b, off + 3) / 16 == i.frameOff
    requires CodesFrom(b, off + 4, 0, TotalSlots(i.codes)) == (i.codes, end)
    requires var o := end + |AlignPad(i)|;
      && (i.chain.Some? ==> RuntimeFunction(U32At(b, o), U32At(b, o + 4), U32At(b, o + 8)) == i.chain.value)
      && (i.handlerRva.Some? ==> U32At(b, o) == i.handlerRva.value)
      && (i.scopes.Some? ==> I32(b, o + 4) == |i.scopes.value| && ScopesFrom(b, o + 8, |i.scopes.value|) == i.scopes.value)
      && (i.handlerRva.Some? && i.scopes.None? ==> I32(b, o + 4) == 0)
    ensures ReadInfo(b, off) == Some(i)
  {
    hide CodeOk, CodesFrom, U32At, I32, At, ScopesFrom, TotalSlots, ScopeOk;
  }

  // ------------------------------------------------------------ any other file

  /** The code loop goes on exactly while slots are left and a slot fits in the file, and stops behind
      the slots of its codes. */
  lemma {:induction false} CodesEnd(b: seq<Byte>, off: nat, slot: nat, count: nat)
    ensures var (codes, end) := CodesFrom(b, off, slot, count);
      && end == off + 2 * TotalSlots(codes)
      && (slot + TotalSlots(codes) >= count || off + 2 * TotalSlots(codes) + 2 > |b|)
      && (codes != [] ==> slot < count && off + 2 <= |b|)
    decreases count - slot
  {
    hide CodeAt, SlotCount;
    if slot < count && off + 2 <= |b| {
      var u := CodeAt(b, off);
      var n := SlotCount(u.op, u.info);
      CodesEnd(b, off + 2 * n, slot + n, count);
      var rest := CodesFrom(b, off + 2 * n, slot + n, count).0;
      assert ([u] + rest)[1..] == rest;
    }
  }

  /** Bytes that nobody encoded: a structure is read exactly when its header fits. Bit 2 of the flags makes
      it chained; otherwise bits 0 and 1 give it a handler, with a scope table exactly when the count
      behind it is below 4096 and not zero, a count with its top bit set being negative. With all its
      slots read, what follows them is at the next even slot. */
  lemma ReadIff(b: seq<Byte>, off: nat)
    ensures ReadInfo(b, off).Some? <==> off + 4 <= |b|
    ensures off + 4 <= |b| ==> var i := ReadInfo(b, off).value; var flags := b[off] as nat / 8;
      && i.flags == flags
      && (i.chain.Some? <==> flags / 4 % 2 == 1)
      && (i.handlerRva.Some? <==> flags / 4 % 2 == 0 && flags % 4 != 0)
    ensures off + 4 <= |b| ==> var i := ReadInfo(b, off).value; var count := b[off + 2] as nat;
      var place := off + 4 + (count + 1) / 2 * 4;
      TotalSlots(i.codes) == count ==>
        && (i.chain.Some? ==>
          i.chain.value == RuntimeFunction(U32At(b, place), U32At(b, place + 4), U32At(b, place + 8)))
        && (i.handlerRva.Some? ==> i.handlerRva.value == U32At(b, place))
        && (i.handlerRva.Some? ==> (i.scopes.Some? <==> 0 < U32At(b, place + 4) < 4096))
        && (i.scopes.Some? ==> |i.scopes.value| == U32At(b, place + 4))
        && (i.scopes.Some? ==> forall k | 0 <= k < |i.scopes.value| :: var o := place + 8 + 16 * k;
          i.scopes.value[k] == Scope(U32At(b, o), U32At(b, o + 4), U32At(b, o + 8), U32At(b, o + 12)))
  {
    hide CodesFrom, U32At;
    if off + 4 <= |b| {
      var flags, count := At(b, off) / 8, At(b, off + 2);
      U32Bound(b, off + 4 + (count + 1) / 2 * 4 + 4);
      Handled(flags);
      CodesEnd(b, off + 4, 0, At(b, off + 2));
      hide Flag, TotalSlots;
    }
  }

  lemma Handled(flags: nat)
    ensures Flag(flags, CHAININFO) <==> flags / 4 % 2 == 1
    ensures Flag(flags, EHANDLER) || Flag(flags, UHANDLER) <==> flags % 4 != 0
  {
    var q, r := flags / 4, flags % 4;
    ModUnique(flags, 2, 2 * q + r / 2, r % 2);
    ModUnique(2 * q + r / 2, 2, q, r / 2);
  }

  /** An rva is read at the file offset its section gives it, or where it points into the headers. */
  lemma ReadAt(b: seq<Byte>, pe: PeParse.Pe, rva: nat, i: Info, xmm: nat, off: nat)
    requires PeMap.RvaToOffset(pe, rva) == Some(off) && InfoOk(i) && Holds(b, off, Encode(i, xmm))
    ensures InfoAt(b, pe, rva) == Some(i)
  {
    ReadEncoded(b, off, i, xmm);
  }
}
