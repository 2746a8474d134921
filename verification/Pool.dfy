/** The guarded pool allocator: header magic, payload, guard bytes, and a bump pointer. */
module Pool {
  import opened Bytes
  import opened Store
  import opened Prng
  import opened Backing

  const POOL_MAGIC: nat := 0x4b46_454c_5250_5353
  const GUARD_LEN: nat := 16
  const GUARD_BYTE: Byte := 0xa5

  function Guard(): (g: seq<Byte>)
    ensures |g| == GUARD_LEN && forall i | 0 <= i < GUARD_LEN :: g[i] == GUARD_BYTE
  {
    seq(GUARD_LEN, _ => GUARD_BYTE)
  }

  datatype Block = Block(addr: nat, size: nat, tag: string, freed: bool)

  datatype State = State(mem: Store, next: nat, aslr: bool, prng: bv32, blocks: seq<Block>)

  /** (size + 15) & ~15 on JavaScript's 32-bit signed integers. */
  function AlignUp(size: nat): int {
    var v := (size + 15) % TWO_32;
    var s := if v >= 0x8000_0000 then v - TWO_32 else v;
    s - s % 16
  }

  const MAX_SIZE: nat := 0x7fff_fff0

  /** The rounded size has room for the block exactly up to MAX_SIZE; beyond it wraps. */
  lemma AlignUpIff(size: nat)
    ensures AlignUp(size) >= size <==> size <= MAX_SIZE
    ensures size <= MAX_SIZE ==> AlignUp(size) % 16 == 0 && AlignUp(size) < size + 16
  {
    if size <= MAX_SIZE {
      ModUnique(size + 15, TWO_32, 0, size + 15);
      var q, r := (size + 15) / 16, (size + 15) % 16;
      assert size + 15 == 16 * q + r;
      ModUnique(16 * q, 16, q, 0);
    }
  }

  /** The rounding at any size: the multiple of 16, in the signed 32-bit range, that is at most 15 below
      size + 15 modulo 2^32. */
  lemma AlignUpIs(size: nat)
    ensures var r := AlignUp(size);
      r % 16 == 0 && -0x8000_0000 <= r < 0x8000_0000 && (size + 15 - r) % 0x1_0000_0000 < 16
  {
    var q, v := (size + 15) / TWO_32, (size + 15) % TWO_32;
    var s := if v >= 0x8000_0000 then v - TWO_32 else v;
    var r := AlignUp(size);
    ModUnique(r, 16, s / 16, 0);
    ModUnique(size + 15 - r, TWO_32, q + (v - s) / TWO_32, s % 16);
  }

  /** A step of 16 bytes, up to 4080. */
  function Jitter(x: bv32): nat { (x & 0xff) as nat * 16 }

  lemma JitterFacts(x: bv32)
    ensures Jitter(x) % 16 == 0 && Jitter(x) <= 4080
  {
    var k := (x & 0xff) as nat;
    assert (x & 0xff) <= 0xff;
    ModUnique(k * 16, 16, k, 0);
  }

  function Header(s: State): nat { if s.aslr then s.next + Jitter(Xorshift(s.prng)) else s.next }

  function Stamped(m: Store, hdr: nat, size: nat): Store {
    Put(W64(m, hdr, POOL_MAGIC), hdr + 16 + size, Guard())
  }

  /** One past the last page the allocation backs. */
  function SpanEnd(hdr: nat, aligned: int): nat
    requires hdr + aligned + 32 >= 0
  {
    (hdr + 16 + aligned + 32 + 4095) / 4096
  }

  /** allocPool. A wrapped size moves the bump pointer back; the pool lies high enough in the
      address space that it stays above zero. */
  function Alloc(s: State, size: nat, tag: string): State
    requires Header(s) + AlignUp(size) + 32 >= 0
  {
    var hdr, aligned := Header(s), AlignUp(size);
    State(Backed(Stamped(s.mem, hdr, size), hdr / 4096, SpanEnd(hdr, aligned)),
          hdr + aligned + 32 + if s.aslr then 16 else 0,
          s.aslr, if s.aslr then Xorshift(s.prng) else s.prng,
          s.blocks + [Block(hdr + 16, size, tag, false)])
  }

  datatype FreeResult = Unknown | DoubleFree | Freed

  /** The first block at an address, or the count when there is none. */
  function Find(blocks: seq<Block>, addr: int): (k: nat)
    ensures k <= |blocks|
    ensures k < |blocks| ==> blocks[k].addr == addr
    ensures forall i | 0 <= i < k :: blocks[i].addr != addr
  {
    if blocks == [] then 0 else if blocks[0].addr == addr then 0 else
      var k := Find(blocks[1..], addr);
      assert forall i | 0 < i < 1 + k :: blocks[i] == blocks[1..][i - 1];
      1 + k
  }

  function Free(s: State, addr: int): (State, FreeResult) {
    var k := Find(s.blocks, addr);
    if k == |s.blocks| then (s, Unknown)
    else if s.blocks[k].freed then (s, DoubleFree)
    else (s.(blocks := s.blocks[k := s.blocks[k].(freed := true)]), Freed)
  }

  predicate GuardOk(m: Store, b: Block) {
    forall x: nat | b.addr + b.size <= x < SpanStop(b) :: Get(m, x) == GUARD_BYTE
  }

  /** A live block whose guard is not as written. */
  predicate Corrupt(m: Store, b: Block) { !b.freed && !GuardOk(m, b) }

  /** The corrupt blocks, in allocation order. */
  function VerifyGuards(m: Store, blocks: seq<Block>): seq<Block> {
    if blocks == [] then []
    else
      var n := |blocks| - 1;
      VerifyGuards(m, blocks[..n]) + if Corrupt(m, blocks[n]) then [blocks[n]] else []
  }

  // ---------------------------------------------------------------- invariant

  /** Header, payload and guard. */
  function SpanStart(b: Block): int { b.addr - 16 }
  function SpanStop(b: Block): nat { b.addr + b.size + GUARD_LEN }

  ghost predicate BlockOk(m: Store, b: Block) {
    && b.addr >= 16 && b.addr % 16 == 0
    && U64(m, b.addr - 16) == POOL_MAGIC
    && forall x: nat | SpanStart(b) <= x < SpanStop(b) :: x / 4096 in m
  }

  /** Blocks lie in allocation order, one clear of the next, below the bump pointer. */
  ghost predicate Ordered(blocks: seq<Block>, next: nat) {
    && (forall i | 0 <= i < |blocks| :: SpanStop(blocks[i]) <= next)
    && (forall i, j | 0 <= i < j < |blocks| :: SpanStop(blocks[i]) <= SpanStart(blocks[j]))
  }

  ghost predicate Sound(s: State) {
    && s.next % 16 == 0
    && Ordered(s.blocks, s.next)
    && forall i | 0 <= i < |s.blocks| :: BlockOk(s.mem, s.blocks[i])
  }

  lemma StampedIs(m: Store, hdr: nat, size: nat)
    ensures var m' := Stamped(m, hdr, size);
      && U64(m', hdr) == POOL_MAGIC
      && (forall x: nat | hdr + 16 + size <= x < hdr + 32 + size :: Get(m', x) == GUARD_BYTE)
      && (forall x: nat | !(hdr <= x < hdr + 8) && !(hdr + 16 + size <= x < hdr + 32 + size) :: Get(m', x) == Get(m, x))
      && m.Keys <= m'.Keys
  {
    hide Get, Put, U64, W64, Touched;
    var m1 := W64(m, hdr, POOL_MAGIC);
    W64U64(m, hdr, POOL_MAGIC, hdr);
    ModUnique(POOL_MAGIC, TWO_64, 0, POOL_MAGIC);
    W64Bytes(m, hdr, POOL_MAGIC);
    PutGet(m1, hdr + 16 + size, Guard());
    U64Same(m1, Put(m1, hdr + 16 + size, Guard()), hdr);
  }

  /** An allocation changes only its own header and guard; every payload byte, of its own block
      and of every other, stays as it was. */
  lemma AllocBytes(s: State, size: nat, tag: string)
    requires Header(s) + AlignUp(size) + 32 >= 0
    ensures var m', b := Alloc(s, size, tag).mem, Alloc(s, size, tag).blocks[|s.blocks|];
      && U64(m', b.addr - 16) == POOL_MAGIC && GuardOk(m', b)
      && (forall x: nat | !(b.addr - 16 <= x < b.addr - 8) && !(b.addr + size <= x < SpanStop(b)) :: Get(m', x) == Get(s.mem, x))
      && s.mem.Keys <= m'.Keys
      && (forall x: nat | b.addr - 16 <= x < b.addr + AlignUp(size) + 32 :: x / 4096 in m')
  {
    hide Get, Put, U64, W64, Stamped, Backed, AlignUp, Jitter;
    var hdr, aligned := Header(s), AlignUp(size);
    var m1 := Stamped(s.mem, hdr, size);
    StampedIs(s.mem, hdr, size);
    BackedKeeps(m1, hdr / 4096, SpanEnd(hdr, aligned));
    var m' := Backed(m1, hdr / 4096, SpanEnd(hdr, aligned));
    U64Same(m1, m', hdr);
    forall x: nat | hdr <= x < hdr + 16 + aligned + 32
      ensures x / 4096 in m'
    {
      SpanPage(hdr, aligned, x);
    }
  }

  /** Where an allocation puts things: the header 16 bytes below the address, the jitter of one generator
      step in front of it, the guard right behind the payload, the bump pointer behind the rounded payload,
      and a page for every byte of header, rounded payload, guard and spare words, and no other page. */
  lemma AllocPlaces(s: State, size: nat, tag: string)
    requires size <= 0x7fff_fff0
    ensures Header(s) + AlignUp(size) + 32 >= 0
    ensures var s' := Alloc(s, size, tag); var rounded := (size + 15) / 16 * 16;
      var addr := s.next + 16 + if s.aslr then (Xorshift(s.prng) & 0xff) as nat * 16 else 0;
      && s'.blocks == s.blocks + [Block(addr, size, tag, false)] && s'.aslr == s.aslr
      && s'.next == addr + rounded + (if s.aslr then 32 else 16)
      && s'.prng == (if s.aslr then Xorshift(s.prng) else s.prng)
      && U64(s'.mem, addr - 16) == 0x4b46_454c_5250_5353
      && (forall x: nat | addr + size <= x < addr + size + 16 :: Get(s'.mem, x) == 0xa5)
      && (forall p: nat :: p in s'.mem <==> p in s.mem || (addr - 16) / 4096 <= p <= (addr + rounded + 31) / 4096)
  {
    hide Get, Put, U64, W64, Stamped, Backed, AlignUp, Xorshift;
    AlignUpIff(size);
    AlignUpRounds(size);
    AllocBytes(s, size, tag);
    var hdr, aligned := Header(s), AlignUp(size);
    StampedPages(s.mem, hdr, size);
    BackedPages(Stamped(s.mem, hdr, size), hdr / 4096, SpanEnd(hdr, aligned));
    var b := Alloc(s, size, tag).blocks[|s.blocks|];
    assert forall x: nat | b.addr + b.size <= x < b.addr + b.size + 16 :: Get(Alloc(s, size, tag).mem, x) == GUARD_BYTE;
    forall p: nat
      ensures p in Alloc(s, size, tag).mem <==> p in s.mem || hdr / 4096 <= p <= (hdr + aligned + 47) / 4096
    {
    }
  }

  lemma AlignUpRounds(size: nat)
    requires size <= MAX_SIZE
    ensures AlignUp(size) == (size + 15) / 16 * 16
  {
    ModUnique(size + 15, TWO_32, 0, size + 15);
  }

  lemma StampedPages(m: Store, hdr: nat, size: nat)
    ensures forall p: nat :: p in Stamped(m, hdr, size) ==> p in m || hdr / 4096 <= p <= (hdr + size + 31) / 4096
  {
    hide Get;
    var m1 := W64(m, hdr, POOL_MAGIC);
    forall p: nat | p in Put(m1, hdr + 16 + size, Guard()) && p !in m1
      ensures hdr / 4096 <= p <= (hdr + size + 31) / 4096
    {
      PutPage(m1, hdr + 16 + size, Guard(), p);
    }
    forall p: nat | p in m1 && p !in m
      ensures hdr / 4096 <= p <= (hdr + size + 31) / 4096
    {
      PutPage(m, hdr, ToLE(POOL_MAGIC, 8), p);
    }
  }

  lemma SpanPage(hdr: nat, aligned: int, x: nat)
    requires hdr + aligned + 32 >= 0 && hdr <= x < hdr + 16 + aligned + 32
    ensures hdr / 4096 <= x / 4096 < SpanEnd(hdr, aligned)
  {
  }

  lemma BlockKept(m: Store, m': Store, b: Block)
    requires BlockOk(m, b) && m.Keys <= m'.Keys
    requires forall x: nat | b.addr - 16 <= x < b.addr - 8 :: Get(m', x) == Get(m, x)
    ensures BlockOk(m', b)
  {
    hide Get, U64;
    U64Same(m, m', b.addr - 16);
  }

  /** The bump pointer clears the new block exactly when its size is at most MAX_SIZE. */
  lemma RoomIff(s: State, size: nat, tag: string)
    requires Header(s) + AlignUp(size) + 32 >= 0
    ensures SpanStop(Alloc(s, size, tag).blocks[|s.blocks|]) <= Alloc(s, size, tag).next <==> size <= MAX_SIZE
  {
    hide Backed, Stamped, Xorshift, Jitter;
    AlignUpIff(size);
    if size > MAX_SIZE {
      var q, v := (size + 15) / TWO_32, (size + 15) % TWO_32;
      assert size + 15 == TWO_32 * q + v;
      if q >= 1 { MulAtLeast(TWO_32, q); }
    }
  }

  lemma AddrAligned(s: State, size: nat)
    requires s.next % 16 == 0 && size <= MAX_SIZE
    ensures Header(s) % 16 == 0 && (Header(s) + 16) % 16 == 0
    ensures (Header(s) + AlignUp(size) + 32 + if s.aslr then 16 else 0) % 16 == 0
  {
    hide AlignUp, Xorshift, Jitter;
    AlignUpIff(size);
    JitterFacts(Xorshift(s.prng));
    var j := if s.aslr then Jitter(Xorshift(s.prng)) else 0;
    var a := AlignUp(size);
    ModUnique(s.next + j, 16, s.next / 16 + j / 16, 0);
    ModUnique(s.next + j + 16, 16, s.next / 16 + j / 16 + 1, 0);
    ModUnique(s.next + j + a + 32, 16, s.next / 16 + j / 16 + a / 16 + 2, 0);
    ModUnique(s.next + j + a + 48, 16, s.next / 16 + j / 16 + a / 16 + 3, 0);
  }

  /** Allocation keeps the invariant and adds a block of the asked size, whose guard is whole;
      every other block's guard is as it was. */
  lemma AllocSound(s: State, size: nat, tag: string)
    requires Sound(s) && size <= MAX_SIZE
    ensures AlignUp(size) >= 0
    ensures var s' := Alloc(s, size, tag);
      && Sound(s') && |s'.blocks| == |s.blocks| + 1
      && (forall i | 0 <= i < |s.blocks| :: GuardOk(s.mem, s.blocks[i]) ==> GuardOk(s'.mem, s.blocks[i]))
      && GuardOk(s'.mem, s'.blocks[|s.blocks|])
  {
    hide Get, U64, Stamped, Backed, AlignUp, BlockOk, GuardOk, Xorshift, Jitter;
    AlignUpIff(size);
    var s' := Alloc(s, size, tag);
    var b := s'.blocks[|s.blocks|];
    AllocBytes(s, size, tag);
    AddrAligned(s, size);
    NewBlockOk(s'.mem, b, AlignUp(size));
    forall i | 0 <= i < |s.blocks|
      ensures BlockOk(s'.mem, s.blocks[i]) && (GuardOk(s.mem, s.blocks[i]) ==> GuardOk(s'.mem, s.blocks[i]))
    {
      OtherBlock(s.mem, s'.mem, s.blocks[i], b);
    }
  }

  lemma NewBlockOk(m: Store, b: Block, aligned: int)
    requires b.addr >= 16 && b.addr % 16 == 0 && U64(m, b.addr - 16) == POOL_MAGIC && aligned >= b.size
    requires forall x: nat | b.addr - 16 <= x < b.addr + aligned + 32 :: x / 4096 in m
    ensures BlockOk(m, b)
  {
    hide U64;
  }

  lemma OtherBlock(m: Store, m': Store, c: Block, b: Block)
    requires BlockOk(m, c) && SpanStop(c) <= SpanStart(b) && m.Keys <= m'.Keys
    requires forall x: nat | !(b.addr - 16 <= x < b.addr - 8) && !(b.addr + b.size <= x < SpanStop(b)) :: Get(m', x) == Get(m, x)
    ensures BlockOk(m', c) && (GuardOk(m, c) ==> GuardOk(m', c))
  {
    hide Get, U64;
    BlockKept(m, m', c);
  }

  /** Freeing marks one live block and touches nothing else. */
  lemma FreeSound(s: State, addr: int)
    requires Sound(s)
    ensures var (s', r) := Free(s, addr);
      && Sound(s') && s'.mem == s.mem && |s'.blocks| == |s.blocks|
      && (r.Unknown? <==> forall i | 0 <= i < |s.blocks| :: s.blocks[i].addr != addr)
      && (forall i | 0 <= i < |s.blocks| ::
            s'.blocks[i] == if r.Freed? && s.blocks[i].addr == addr then s.blocks[i].(freed := true) else s.blocks[i])
      && (r.Freed? ==> exists i :: 0 <= i < |s.blocks| && s.blocks[i].addr == addr && !s.blocks[i].freed)
      && (r.DoubleFree? ==> s' == s && exists i :: 0 <= i < |s.blocks| && s.blocks[i].addr == addr && s.blocks[i].freed)
  {
    hide Get, U64, BlockOk;
    var k := Find(s.blocks, addr);
    if k < |s.blocks| {
      var s' := Free(s, addr).0;
      forall i | 0 <= i < |s'.blocks|
        ensures BlockOk(s'.mem, s'.blocks[i])
      {
        BlockFlag(s.mem, s.blocks[i], s'.blocks[i].freed);
      }
      assert forall i | 0 <= i < |s.blocks| && i != k :: s.blocks[i].addr != addr;
    }
  }

  lemma BlockFlag(m: Store, b: Block, freed: bool)
    requires BlockOk(m, b)
    ensures BlockOk(m, b.(freed := freed))
  {
    hide Get, U64;
  }

  lemma {:induction false} VerifyGuardsHas(m: Store, blocks: seq<Block>)
    ensures forall b :: b in VerifyGuards(m, blocks) <==> b in blocks && Corrupt(m, b)
  {
    hide Corrupt;
    if blocks != [] {
      var n := |blocks| - 1;
      VerifyGuardsHas(m, blocks[..n]);
      assert blocks == blocks[..n] + [blocks[n]];
    }
  }

  /** The sweep reports in allocation order. */
  lemma {:induction false} VerifyGuardsAppend(m: Store, xs: seq<Block>, ys: seq<Block>)
    ensures VerifyGuards(m, xs + ys) == VerifyGuards(m, xs) + VerifyGuards(m, ys)
    decreases |ys|
  {
    hide Corrupt;
    if ys == [] {
      assert xs + ys == xs;
    } else {
      var n := |ys| - 1;
      assert (xs + ys)[..|xs| + n] == xs + ys[..n];
      VerifyGuardsAppend(m, xs, ys[..n]);
    }
  }

  // --------------------------------------------------------------------- runs

  /** A pool call, or a guest write. */
  datatype Op = AllocOp(size: nat, tag: string) | FreeOp(addr: int) | Write(a: nat, bs: seq<Byte>)

  predicate InPayload(b: Block, a: nat, n: nat) { b.addr <= a && a + n <= b.addr + b.size }

  /** Sizes do not wrap. */
  predicate Sized(op: Op) { op.AllocOp? ==> op.size <= MAX_SIZE }

  predicate AllSized(ops: seq<Op>)
    decreases |ops|
  {
    ops == [] || (Sized(ops[0]) && AllSized(ops[1..]))
  }

  /** Writes stay inside some block's payload. */
  predicate Legal(s: State, op: Op) {
    Sized(op) && (op.Write? ==> exists i :: 0 <= i < |s.blocks| && InPayload(s.blocks[i], op.a, |op.bs|))
  }

  function Step(s: State, op: Op): State
    requires Sized(op)
  {
    match op
    case AllocOp(size, tag) => AlignUpIff(size); Alloc(s, size, tag)
    case FreeOp(addr) => Free(s, addr).0
    case Write(a, bs) => s.(mem := Put(s.mem, a, bs))
  }

  predicate LegalRun(s: State, ops: seq<Op>)
    decreases |ops|
  {
    AllSized(ops) && (ops == [] || (Legal(s, ops[0]) && LegalRun(Step(s, ops[0]), ops[1..])))
  }

  function Run(s: State, ops: seq<Op>): State
    requires AllSized(ops)
    decreases |ops|
  {
    if ops == [] then s else Run(Step(s, ops[0]), ops[1..])
  }

  ghost predicate Whole(s: State) {
    Sound(s) && forall i | 0 <= i < |s.blocks| :: GuardOk(s.mem, s.blocks[i])
  }

  function Fresh(m: Store, base: nat, aslr: bool, prng: bv32): State { State(m, base, aslr, prng, []) }

  /** A write inside one payload is clear of every header and guard. */
  lemma PayloadWrite(s: State, a: nat, bs: seq<Byte>, i: nat, j: nat)
    requires Sound(s) && i < |s.blocks| && j < |s.blocks| && InPayload(s.blocks[i], a, |bs|)
    ensures var b := s.blocks[j]; a + |bs| <= b.addr - 16 || (b.addr <= a && a + |bs| <= b.addr + b.size) || SpanStop(b) <= a
  {
    hide BlockOk;
    if i < j { assert SpanStop(s.blocks[i]) <= SpanStart(s.blocks[j]); }
    if j < i { assert SpanStop(s.blocks[j]) <= SpanStart(s.blocks[i]); }
    BlockAddr(s, i);
  }

  lemma BlockAddr(s: State, i: nat)
    requires Sound(s) && i < |s.blocks|
    ensures s.blocks[i].addr >= 16 && s.blocks[i].addr % 16 == 0
  {
    hide Get, U64;
  }

  lemma WriteWhole(s: State, a: nat, bs: seq<Byte>, i: nat)
    requires Whole(s) && i < |s.blocks| && InPayload(s.blocks[i], a, |bs|)
    ensures Whole(s.(mem := Put(s.mem, a, bs)))
  {
    hide Get, Put, Touched, U64, BlockOk, GuardOk, InPayload;
    var m' := Put(s.mem, a, bs);
    PutGet(s.mem, a, bs);
    forall j | 0 <= j < |s.blocks|
      ensures BlockOk(m', s.blocks[j]) && GuardOk(m', s.blocks[j])
    {
      PayloadWrite(s, a, bs, i, j);
      BlockAddr(s, j);
      BlockKept(s.mem, m', s.blocks[j]);
      GuardKept(s.mem, m', s.blocks[j]);
    }
  }

  lemma GuardKept(m: Store, m': Store, b: Block)
    requires GuardOk(m, b) && forall x: nat | b.addr + b.size <= x < SpanStop(b) :: Get(m', x) == Get(m, x)
    ensures GuardOk(m', b)
  {
    hide Get;
  }

  lemma StepWhole(s: State, op: Op)
    requires Whole(s) && Legal(s, op)
    ensures Whole(Step(s, op))
  {
    hide Get, Put, U64, Sound, GuardOk, Alloc, Free, InPayload;
    match op
    case AllocOp(size, tag) =>
      AllocSound(s, size, tag);
      AllocBlocks(s, size, tag);
    case FreeOp(addr) =>
      FreeSound(s, addr);
      var s' := Free(s, addr).0;
      forall i | 0 <= i < |s'.blocks|
        ensures GuardOk(s'.mem, s'.blocks[i])
      {
        GuardFlag(s.mem, s.blocks[i], s'.blocks[i]);
      }
    case Write(a, bs) =>
      var i: nat :| i < |s.blocks| && InPayload(s.blocks[i], a, |bs|);
      WriteWhole(s, a, bs, i);
  }

  lemma AllocBlocks(s: State, size: nat, tag: string)
    requires Header(s) + AlignUp(size) + 32 >= 0
    ensures Alloc(s, size, tag).blocks == s.blocks + [Block(Header(s) + 16, size, tag, false)]
  {
    hide AlignUp, Backed, Stamped;
  }

  lemma GuardFlag(m: Store, b: Block, b': Block)
    requires GuardOk(m, b) && b'.addr == b.addr && b'.size == b.size
    ensures GuardOk(m, b')
  {
    hide Get;
  }

  lemma {:induction false} RunWhole(s: State, ops: seq<Op>)
    requires Whole(s) && LegalRun(s, ops)
    ensures Whole(Run(s, ops))
    decreases |ops|
  {
    hide Whole, Step, Legal;
    if ops != [] {
      StepWhole(s, ops[0]);
      RunWhole(Step(s, ops[0]), ops[1..]);
    }
  }

  lemma NoneCorrupt(m: Store, blocks: seq<Block>)
    requires forall i | 0 <= i < |blocks| :: GuardOk(m, blocks[i])
    ensures VerifyGuards(m, blocks) == []
  {
    hide GuardOk;
    if blocks != [] { NoneCorrupt(m, blocks[..|blocks| - 1]); }
  }

  /** Every run of allocations, frees and in-bounds writes from an empty pool, with or without
      jitter: headers, payloads and guards are pairwise disjoint, aligned to 16 and backed by
      pages, and the guard sweep reports nothing. */
  lemma PoolSafe(m: Store, base: nat, aslr: bool, prng: bv32, ops: seq<Op>)
    requires base % 16 == 0 && LegalRun(Fresh(m, base, aslr, prng), ops)
    ensures var s := Run(Fresh(m, base, aslr, prng), ops);
      && VerifyGuards(s.mem, s.blocks) == []
      && (forall i | 0 <= i < |s.blocks| ::
            && s.blocks[i].addr >= 16 && s.blocks[i].addr % 16 == 0 && U64(s.mem, s.blocks[i].addr - 16) == POOL_MAGIC
            && forall x: nat | SpanStart(s.blocks[i]) <= x < SpanStop(s.blocks[i]) :: x / 4096 in s.mem)
      && (forall i, j | 0 <= i < j < |s.blocks| :: SpanStop(s.blocks[i]) <= SpanStart(s.blocks[j]))
  {
    hide Get, U64, GuardOk, Run;
    RunWhole(Fresh(m, base, aslr, prng), ops);
    var s := Run(Fresh(m, base, aslr, prng), ops);
    NoneCorrupt(s.mem, s.blocks);
  }

  // --------------------------------------------------- runs with any writes at all

  /** What writes anywhere cannot undo: blocks lie in order, clear of each other. */
  ghost predicate Laid(s: State) {
    s.next % 16 == 0 && Ordered(s.blocks, s.next) && forall i | 0 <= i < |s.blocks| :: s.blocks[i].addr >= 16
  }

  lemma AllocLaid(s: State, size: nat, tag: string)
    requires Laid(s) && size <= MAX_SIZE
    ensures AlignUp(size) >= 0 && Laid(Alloc(s, size, tag))
    ensures var s' := Alloc(s, size, tag); var b := s'.blocks[|s.blocks|];
      s'.blocks == s.blocks + [b] && b.size == size && !b.freed && SpanStart(b) >= s.next
  {
    hide Get, U64, Stamped, Backed, AlignUp, Xorshift, Jitter;
    AlignUpIff(size);
    AddrAligned(s, size);
    if s.aslr { JitterFacts(Xorshift(s.prng)); }
  }

  lemma FreeLaid(s: State, addr: int)
    requires Laid(s)
    ensures var s' := Free(s, addr).0; Laid(s') && |s'.blocks| == |s.blocks| && s'.mem == s.mem
    ensures forall i | 0 <= i < |s.blocks| ::
      Free(s, addr).0.blocks[i].addr == s.blocks[i].addr && Free(s, addr).0.blocks[i].size == s.blocks[i].size
  {
    hide Get, U64, Find;
  }

  lemma StepLaid(s: State, op: Op)
    requires Laid(s) && Sized(op)
    ensures Laid(Step(s, op)) && |s.blocks| <= |Step(s, op).blocks|
    ensures forall i | 0 <= i < |s.blocks| ::
      Step(s, op).blocks[i].addr == s.blocks[i].addr && Step(s, op).blocks[i].size == s.blocks[i].size
  {
    hide Get, Put, U64, Alloc, Free;
    match op
    case AllocOp(size, tag) => AllocLaid(s, size, tag);
    case FreeOp(addr) => FreeLaid(s, addr);
    case Write(a, bs) =>
  }

  /** The byte at x after guest writes: that of the last write that covers x. */
  function LastByte(ops: seq<Op>, x: nat, was: Byte): Byte
    decreases |ops|
  {
    if ops == [] then was
    else LastByte(ops[1..], x, if ops[0].Write? && ops[0].a <= x < ops[0].a + |ops[0].bs| then ops[0].bs[x - ops[0].a] else was)
  }

  predicate InGuard(b: Block, x: nat) { b.addr + b.size <= x < SpanStop(b) }

  /** A pool call leaves the guard bytes of the blocks there are. */
  lemma GuardStep(s: State, op: Op, k: nat, x: nat)
    requires Laid(s) && Sized(op) && k < |s.blocks| && InGuard(s.blocks[k], x)
    ensures Get(Step(s, op).mem, x) == LastByte([op], x, Get(s.mem, x))
  {
    hide Get, Put, Touched, U64, Alloc;
    assert [op][1..] == [];
    match op
    case AllocOp(size, tag) =>
      AllocLaid(s, size, tag);
      AllocBytes(s, size, tag);
    case FreeOp(addr) =>
    case Write(a, bs) => PutGet(s.mem, a, bs);
  }

  lemma {:induction false} GuardAfter(s: State, ops: seq<Op>, k: nat, x: nat)
    requires Laid(s) && AllSized(ops) && k < |s.blocks| && InGuard(s.blocks[k], x)
    ensures var s' := Run(s, ops);
      && k < |s'.blocks| && s'.blocks[k].addr == s.blocks[k].addr && s'.blocks[k].size == s.blocks[k].size
      && Get(s'.mem, x) == LastByte(ops, x, Get(s.mem, x))
    decreases |ops|
  {
    hide Laid, Step, Get, Sized;
    if ops != [] {
      StepLaid(s, ops[0]);
      GuardStep(s, ops[0], k, x);
      assert [ops[0]][1..] == [];
      GuardAfter(Step(s, ops[0]), ops[1..], k, x);
    }
  }

  lemma {:induction false} RunLaid(s: State, ops: seq<Op>)
    requires Laid(s) && AllSized(ops)
    ensures Laid(Run(s, ops))
    decreases |ops|
  {
    hide Laid, Step, Sized;
    if ops != [] {
      StepLaid(s, ops[0]);
      RunLaid(Step(s, ops[0]), ops[1..]);
    }
  }

  lemma {:induction false} RunAppend(s: State, ops: seq<Op>, more: seq<Op>)
    requires AllSized(ops) && AllSized(more)
    ensures AllSized(ops + more) && Run(s, ops + more) == Run(Run(s, ops), more)
    decreases |ops|
  {
    hide Step, Sized;
    if ops == [] {
      assert ops + more == more;
    } else {
      assert (ops + more)[0] == ops[0] && (ops + more)[1..] == ops[1..] + more;
      RunAppend(Step(s, ops[0]), ops[1..], more);
    }
  }

  /** Over every run of a pool with guest writes anywhere at all, a block is reported at the end
      exactly when it is live and some byte of its guard was last written, since the block was
      allocated, with another value. */
  lemma OverrunReported(m: Store, base: nat, aslr: bool, prng: bv32, pre: seq<Op>, size: nat, tag: string, post: seq<Op>)
    requires base % 16 == 0 && AllSized(pre) && size <= MAX_SIZE && AllSized(post)
    ensures AllSized(pre + ([AllocOp(size, tag)] + post))
    ensures var k := |Run(Fresh(m, base, aslr, prng), pre).blocks|;
      var s := Run(Fresh(m, base, aslr, prng), pre + ([AllocOp(size, tag)] + post));
      k < |s.blocks| && (s.blocks[k] in VerifyGuards(s.mem, s.blocks) <==>
        !s.blocks[k].freed && exists x: nat :: InGuard(s.blocks[k], x) && LastByte(post, x, GUARD_BYTE) != GUARD_BYTE)
  {
    hide Get, Alloc, Laid, Run, VerifyGuards, AllSized, LastByte;
    var op := AllocOp(size, tag);
    var s0 := Run(Fresh(m, base, aslr, prng), pre);
    var k := |s0.blocks|;
    FreshLaid(m, base, aslr, prng);
    RunLaid(Fresh(m, base, aslr, prng), pre);
    OneMoreOp(s0, op, post);
    RunAppend(Fresh(m, base, aslr, prng), pre, [op] + post);
    AllocLaid(s0, size, tag);
    AllocBytes(s0, size, tag);
    var s1 := Step(s0, op);
    var s := Run(s1, post);
    GuardByteAt(s1.blocks[k]);
    GuardAfter(s1, post, k, s1.blocks[k].addr + s1.blocks[k].size);
    VerifyGuardsHas(s.mem, s.blocks);
    forall x: nat | InGuard(s.blocks[k], x)
      ensures Get(s.mem, x) == LastByte(post, x, GUARD_BYTE)
    {
      GuardAfter(s1, post, k, x);
    }
    GuardOkIff(s.mem, s.blocks[k], post);
  }

  lemma GuardOkIff(m: Store, b: Block, post: seq<Op>)
    requires forall x: nat | InGuard(b, x) :: Get(m, x) == LastByte(post, x, GUARD_BYTE)
    ensures GuardOk(m, b) <==> !exists x: nat :: InGuard(b, x) && LastByte(post, x, GUARD_BYTE) != GUARD_BYTE
  {
    hide Get, LastByte;
    if GuardOk(m, b) {
      forall x: nat | InGuard(b, x)
        ensures LastByte(post, x, GUARD_BYTE) == GUARD_BYTE
      {
        assert Get(m, x) == GUARD_BYTE;
      }
    } else {
      var x: nat :| b.addr + b.size <= x < SpanStop(b) && Get(m, x) != GUARD_BYTE;
      assert InGuard(b, x);
    }
  }

  lemma FreshLaid(m: Store, base: nat, aslr: bool, prng: bv32)
    requires base % 16 == 0
    ensures Laid(Fresh(m, base, aslr, prng))
  {
  }

  lemma OneMoreOp(s: State, op: Op, post: seq<Op>)
    requires Sized(op) && AllSized(post)
    ensures AllSized([op] + post) && Run(s, [op] + post) == Run(Step(s, op), post)
  {
    hide Step, Sized;
    assert ([op] + post)[0] == op && ([op] + post)[1..] == post;
  }

  lemma GuardByteAt(b: Block)
    ensures InGuard(b, b.addr + b.size)
  {
  }

  // ------------------------------------------------------- payload conservation

  predicate Untouched(ops: seq<Op>, x: nat) {
    forall i | 0 <= i < |ops| :: ops[i].Write? ==> !(ops[i].a <= x < ops[i].a + |ops[i].bs|)
  }

  lemma StepKeeps(s: State, op: Op, k: nat, x: nat)
    requires Whole(s) && Legal(s, op) && k < |s.blocks| && s.blocks[k].addr <= x < s.blocks[k].addr + s.blocks[k].size
    requires op.Write? ==> !(op.a <= x < op.a + |op.bs|)
    ensures var s' := Step(s, op);
      && Get(s'.mem, x) == Get(s.mem, x)
      && k < |s'.blocks| && s'.blocks[k].addr == s.blocks[k].addr && s'.blocks[k].size == s.blocks[k].size
  {
    hide Get, Put, Touched, U64, BlockOk, GuardOk, Alloc, Free, InPayload;
    match op
    case AllocOp(size, tag) =>
      AlignUpIff(size);
      AllocBytes(s, size, tag);
      AllocBlocks(s, size, tag);
    case FreeOp(addr) =>
      FreeSound(s, addr);
    case Write(a, bs) =>
      PutGet(s.mem, a, bs);
  }

  /** Over a run, a payload byte that no guest write covers keeps its value. */
  lemma {:induction false} PayloadKept(s: State, ops: seq<Op>, k: nat, x: nat)
    requires Whole(s) && LegalRun(s, ops) && Untouched(ops, x)
    requires k < |s.blocks| && s.blocks[k].addr <= x < s.blocks[k].addr + s.blocks[k].size
    ensures Get(Run(s, ops).mem, x) == Get(s.mem, x)
    decreases |ops|
  {
    hide Whole, Step, Legal, Get;
    if ops != [] {
      StepKeeps(s, ops[0], k, x);
      StepWhole(s, ops[0]);
      UntouchedRest(ops, x);
      PayloadKept(Step(s, ops[0]), ops[1..], k, x);
    }
  }

  lemma UntouchedRest(ops: seq<Op>, x: nat)
    requires ops != [] && Untouched(ops, x)
    ensures Untouched(ops[1..], x)
  {
    forall i | 0 <= i < |ops[1..]|
      ensures ops[1..][i].Write? ==> !(ops[1..][i].a <= x < ops[1..][i].a + |ops[1..][i].bs|)
    {
      assert ops[1..][i] == ops[i + 1];
    }
  }
}
