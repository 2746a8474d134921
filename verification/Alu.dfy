/** The interpreter's arithmetic unit: results, flags, and the conditions tested on them. */
module Alu {
  import opened Bytes

  datatype Op = Add | Adc | Sub | Sbb | And | Or | Xor | Cmp | Test

  datatype Flags = Flags(cf: bool, zf: bool, sf: bool, of: bool, pf: bool)

  /** Operand sizes in bytes; one past the largest operand, and the sign bit's weight. */
  function Range(size: nat): nat { Pow256(size) }

  function Half(size: nat): nat
    requires size > 0
  {
    128 * Pow256(size - 1)
  }

  lemma HalfRange(size: nat)
    requires size > 0
    ensures Range(size) == 2 * Half(size) && Half(size) > 0
  {
  }

  function BitAnd(a: nat, b: nat): nat {
    if a == 0 || b == 0 then 0 else (if a % 2 == 1 && b % 2 == 1 then 1 else 0) + 2 * BitAnd(a / 2, b / 2)
  }

  function BitXor(a: nat, b: nat): nat {
    if a == 0 && b == 0 then 0 else (if a % 2 != b % 2 then 1 else 0) + 2 * BitXor(a / 2, b / 2)
  }

  function Carry(f: Flags): nat { if f.cf then 1 else 0 }

  /** Whether the sign bit of an operand or result is set. */
  predicate Negative(v: nat, size: nat)
    requires size > 0
  {
    v / Half(size) % 2 == 1
  }

  /** evenParity8: the low byte folded onto its lowest bit. */
  predicate EvenParity8(v: nat) {
    var p := v % 256;
    var p1 := BitXor(p, p / 16);
    var p2 := BitXor(p1, p1 / 4);
    BitXor(p2, p2 / 2) % 2 == 0
  }

  function Raw(f: Flags, op: Op, a: nat, b: nat): int {
    match op
    case Add => a + b
    case Adc => a + b + Carry(f)
    case Sub | Cmp => a - b
    case Sbb => a - b - Carry(f)
    case And | Test => BitAnd(a, b)
    case Or => BitOr(a, b)
    case Xor => BitXor(a, b)
  }

  predicate CarryOut(f: Flags, op: Op, a: nat, b: nat, size: nat) {
    match op
    case Add => a + b > Range(size) - 1
    case Adc => a + b + Carry(f) > Range(size) - 1
    case Sub | Cmp => a < b
    case Sbb => a - (b + Carry(f)) < 0
    case And | Or | Xor | Test => false
  }

  /** alu: the result and the flags after it. */
  function Alu(f: Flags, op: Op, a: nat, b: nat, size: nat): (nat, Flags)
    requires size > 0
  {
    var r := Raw(f, op, a, b) % Range(size);
    var sa, sb, sr := Negative(a, size), Negative(b, size), Negative(r, size);
    var of := match op
      case Add => sa == sb && sr != sa
      case Sub | Cmp => sa != sb && sr != sa
      case _ => false;
    (r, Flags(CarryOut(f, op, a, b, size), r == 0, sr, of, EvenParity8(r)))
  }

  predicate Cond(f: Flags, cc: nat) {
    match cc
    case 0 => f.of
    case 1 => !f.of
    case 2 => f.cf
    case 3 => !f.cf
    case 4 => f.zf
    case 5 => !f.zf
    case 6 => f.cf || f.zf
    case 7 => !f.cf && !f.zf
    case 8 => f.sf
    case 9 => !f.sf
    case 10 => f.pf
    case 11 => !f.pf
    case 12 => f.zf || f.sf != f.of
    case 13 => !f.zf && f.sf == f.of
    case 14 => f.zf || f.sf != f.of
    case 15 => !f.zf && f.sf == f.of
    case _ => false
  }

  // ------------------------------------------------------------ one operation

  /** Two's complement. */
  function Signed(v: nat, size: nat): int
    requires size > 0
  {
    if v >= Half(size) then v - Range(size) else v
  }

  predicate Fits(v: int, size: nat)
    requires size > 0
  {
    0 - Half(size) <= v < Half(size)
  }

  lemma NegativeIff(v: nat, size: nat)
    requires size > 0 && v < Range(size)
    ensures Negative(v, size) <==> v >= Half(size)
    ensures Negative(v, size) <==> Signed(v, size) < 0
    ensures Fits(Signed(v, size), size)
  {
    HalfRange(size);
    if v >= Half(size) { ModUnique(v, Half(size), 1, v - Half(size)); } else { ModUnique(v, Half(size), 0, v); }
  }

  /** A sum or difference within one range of zero, wrapped. */
  lemma Wrap(v: int, size: nat)
    requires 0 - Range(size) <= v < 2 * Range(size)
    ensures v % Range(size) == if v < 0 then v + Range(size) else if v < Range(size) then v else v - Range(size)
  {
    var r := Range(size);
    if v < 0 { ModUnique(v, r, -1, v + r); } else if v < r { ModUnique(v, r, 0, v); } else { ModUnique(v, r, 1, v - r); }
  }

  /** Result and carry together are the exact sum or difference. */
  lemma Exact(f: Flags, op: Op, a: nat, b: nat, size: nat)
    requires size > 0 && a < Range(size) && b < Range(size)
    ensures var (r, f') := Alu(f, op, a, b, size);
      && r < Range(size)
      && (op.Add? ==> r + Carry(f') * Range(size) == a + b)
      && (op.Adc? ==> r + Carry(f') * Range(size) == a + b + Carry(f))
      && (op.Sub? || op.Cmp? ==> r - Carry(f') * Range(size) == a - b)
      && (op.Sbb? ==> r - Carry(f') * Range(size) == a - b - Carry(f))
  {
    hide Negative, EvenParity8, Range, BitAnd, BitOr, BitXor;
    if op.Add? || op.Adc? || op.Sub? || op.Cmp? || op.Sbb? { Wrap(Raw(f, op, a, b), size); }
  }

  /** After add and sub the overflow flag says exactly when the signed result does not fit. */
  lemma OverflowIff(f: Flags, op: Op, a: nat, b: nat, size: nat)
    requires size > 0 && a < Range(size) && b < Range(size)
    ensures op.Add? ==> (Alu(f, op, a, b, size).1.of <==> !Fits(Signed(a, size) + Signed(b, size), size))
    ensures op.Sub? || op.Cmp? ==> (Alu(f, op, a, b, size).1.of <==> !Fits(Signed(a, size) - Signed(b, size), size))
  {
    hide Negative, EvenParity8, Range, BitAnd, BitOr, BitXor, Half, Raw, CarryOut;
    Exact(f, op, a, b, size);
    var (r, f') := Alu(f, op, a, b, size);
    NegativeIff(a, size);
    NegativeIff(b, size);
    NegativeIff(r, size);
    HalfRange(size);
    if op.Add? { SignedSum(a, b, r, Carry(f'), size); }
    if op.Sub? || op.Cmp? { SignedDiff(a, b, r, Carry(f'), size); }
  }

  lemma SignedSum(a: nat, b: nat, r: nat, c: nat, size: nat)
    requires size > 0 && a < Range(size) && b < Range(size) && r < Range(size) && c <= 1 && r + c * Range(size) == a + b
    ensures var h := Half(size);
      ((a >= h) == (b >= h) && (r >= h) != (a >= h)) <==> !Fits(Signed(a, size) + Signed(b, size), size)
  {
    hide Range, Half;
    HalfRange(size);
    if c == 0 { assert r == a + b; } else { assert r == a + b - Range(size); }
  }

  lemma SignedDiff(a: nat, b: nat, r: nat, c: nat, size: nat)
    requires size > 0 && a < Range(size) && b < Range(size) && r < Range(size) && c <= 1 && r - c * Range(size) == a - b
    ensures var h := Half(size);
      ((a >= h) != (b >= h) && (r >= h) != (a >= h)) <==> !Fits(Signed(a, size) - Signed(b, size), size)
  {
    hide Range, Half;
    HalfRange(size);
    if c == 0 { assert r == a - b; } else { assert r == a - b + Range(size); }
  }

  /** The signed sum of a, b and a carry leaves the range: both operands lie in one half of the
      unsigned range and the sum ends in the other. */
  predicate SumLeaves(a: nat, b: nat, c: nat, size: nat)
    requires size > 0
  {
    var h := Half(size);
    (a < h && b < h && a + b + c >= h) || (a >= h && b >= h && a + b + c < 3 * h)
  }

  /** The same for a difference: the operands lie in different halves. */
  predicate DifferenceLeaves(a: nat, b: nat, c: nat, size: nat)
    requires size > 0
  {
    var h := Half(size);
    (a >= h && b < h && a < b + c + h) || (a < h && b >= h && a + h >= b + c)
  }

  /** adc and sbb never report overflow. Their flag is wrong exactly on the operands and carries
      above. */
  lemma CarryOverflowIff(f: Flags, a: nat, b: nat, size: nat)
    requires size > 0 && a < Range(size) && b < Range(size)
    ensures Alu(f, Adc, a, b, size).1.of != !Fits(Signed(a, size) + Signed(b, size) + Carry(f), size) <==>
      SumLeaves(a, b, Carry(f), size)
    ensures Alu(f, Sbb, a, b, size).1.of != !Fits(Signed(a, size) - Signed(b, size) - Carry(f), size) <==>
      DifferenceLeaves(a, b, Carry(f), size)
  {
    hide Negative, EvenParity8, Range, BitAnd, BitOr, BitXor, Half;
    HalfRange(size);
  }

  /** At every size: the largest signed number plus a carry, and the smallest less a borrow, come out
      with the overflow flag clear and the sign turned. */
  lemma CarryOverflowLost(f: Flags, size: nat)
    requires size > 0 && f.cf
    ensures var h := Half(size);
      && h < Range(size)
      && Alu(f, Adc, h - 1, 0, size).0 == h && !Alu(f, Adc, h - 1, 0, size).1.of && !Fits(Signed(h - 1, size) + 1, size)
      && Alu(f, Sbb, h, 0, size).0 == h - 1 && !Alu(f, Sbb, h, 0, size).1.of && !Fits(Signed(h, size) - 1, size)
  {
    hide Negative, EvenParity8, Range, BitAnd, BitOr, BitXor, Half;
    HalfRange(size);
    Exact(f, Adc, Half(size) - 1, 0, size);
    Exact(f, Sbb, Half(size), 0, size);
  }

  /** After cmp the unsigned codes 2 to 7 and the signed codes 14 and 15 are the comparisons of
      the two operands. Codes 12 and 13 repeat 14 and 15: they are the signed less-than and
      greater-or-equal exactly when the operands differ. */
  lemma CmpConditions(f: Flags, a: nat, b: nat, size: nat)
    requires size > 0 && a < Range(size) && b < Range(size)
    ensures var f' := Alu(f, Cmp, a, b, size).1; var x, y := Signed(a, size), Signed(b, size);
      && (Cond(f', 2) <==> a < b) && (Cond(f', 3) <==> a >= b) && (Cond(f', 4) <==> a == b) && (Cond(f', 5) <==> a != b)
      && (Cond(f', 6) <==> a <= b) && (Cond(f', 7) <==> a > b)
      && (Cond(f', 14) <==> x <= y) && (Cond(f', 15) <==> x > y)
      && ((Cond(f', 12) <==> x < y) <==> a != b) && ((Cond(f', 13) <==> x >= y) <==> a != b)
  {
    hide Negative, EvenParity8, Range, BitAnd, BitOr, BitXor, Half;
    Exact(f, Cmp, a, b, size);
    OverflowIff(f, Cmp, a, b, size);
    var r := Alu(f, Cmp, a, b, size).0;
    NegativeIff(a, size);
    NegativeIff(b, size);
    NegativeIff(r, size);
    HalfRange(size);
  }

  // ------------------------------------------------------------ bit by bit

  predicate Bit(v: nat, i: nat) { if i == 0 then v % 2 == 1 else Bit(v / 2, i - 1) }

  lemma {:induction false} BitwiseBits(a: nat, b: nat, i: nat)
    ensures Bit(BitAnd(a, b), i) <==> Bit(a, i) && Bit(b, i)
    ensures Bit(BitOr(a, b), i) <==> Bit(a, i) || Bit(b, i)
    ensures Bit(BitXor(a, b), i) <==> Bit(a, i) != Bit(b, i)
    decreases i
  {
    AndStep(a, b);
    OrStep(a, b);
    XorStep(a, b);
    if i > 0 { BitwiseBits(a / 2, b / 2, i - 1); }
  }

  lemma AndStep(a: nat, b: nat)
    ensures BitAnd(a, b) % 2 == (if a % 2 == 1 && b % 2 == 1 then 1 else 0) && BitAnd(a, b) / 2 == BitAnd(a / 2, b / 2)
  {
    var h := BitAnd(a / 2, b / 2);
    var d := if a % 2 == 1 && b % 2 == 1 then 1 else 0;
    if a != 0 && b != 0 { ModUnique(d + 2 * h, 2, h, d); }
  }

  lemma OrStep(a: nat, b: nat)
    ensures BitOr(a, b) % 2 == (if a % 2 == 1 || b % 2 == 1 then 1 else 0) && BitOr(a, b) / 2 == BitOr(a / 2, b / 2)
  {
    var h := BitOr(a / 2, b / 2);
    var d := if a % 2 == 1 || b % 2 == 1 then 1 else 0;
    if a != 0 || b != 0 { ModUnique(d + 2 * h, 2, h, d); }
  }

  /** Bitwise results of operands in range stay in range. */
  lemma {:induction false} BitwiseRange(a: nat, b: nat, n: nat)
    requires a < Pow2(n) && b < Pow2(n)
    ensures BitAnd(a, b) < Pow2(n) && BitOr(a, b) < Pow2(n) && BitXor(a, b) < Pow2(n)
    decreases n
  {
    hide BitAnd, BitOr, BitXor;
    AndStep(a, b);
    OrStep(a, b);
    XorStep(a, b);
    if n > 0 {
      BitwiseRange(a / 2, b / 2, n - 1);
    } else {
      OfZeros();
    }
  }

  lemma OfZeros()
    ensures BitAnd(0, 0) == 0 && BitOr(0, 0) == 0 && BitXor(0, 0) == 0
  {
  }

  lemma {:induction false} RangeBits(size: nat)
    ensures Range(size) == Pow2(8 * size)
    decreases size
  {
    if size > 0 {
      RangeBits(size - 1);
      EightBits(8 * (size - 1));
    }
  }

  lemma EightBits(k: nat)
    ensures Pow2(k + 8) == 256 * Pow2(k)
  {
    assert Pow2(k + 2) == 4 * Pow2(k);
    assert Pow2(k + 4) == 4 * Pow2(k + 2);
    assert Pow2(k + 6) == 4 * Pow2(k + 4);
    assert Pow2(k + 8) == 4 * Pow2(k + 6);
  }

  /** The logic operations act on each bit alone, and clear carry and overflow. */
  lemma LogicBits(f: Flags, op: Op, a: nat, b: nat, size: nat, i: nat)
    requires size > 0 && a < Range(size) && b < Range(size)
    ensures var (r, f') := Alu(f, op, a, b, size);
      && (op.And? || op.Test? ==> (Bit(r, i) <==> Bit(a, i) && Bit(b, i)))
      && (op.Or? ==> (Bit(r, i) <==> Bit(a, i) || Bit(b, i)))
      && (op.Xor? ==> (Bit(r, i) <==> Bit(a, i) != Bit(b, i)))
      && (op.And? || op.Test? || op.Or? || op.Xor? ==> !f'.cf && !f'.of && (f'.zf <==> r == 0))
  {
    hide Negative, EvenParity8, Range, BitAnd, BitOr, BitXor, Bit, Pow2;
    BitwiseBits(a, b, i);
    RangeBits(size);
    BitwiseRange(a, b, 8 * size);
    var raw := Raw(f, op, a, b);
    if op.And? || op.Test? || op.Or? || op.Xor? { ModUnique(raw, Range(size), 0, raw); }
  }

  // ---------------------------------------------------------------- parity

  function PopCount(v: nat): nat { if v == 0 then 0 else v % 2 + PopCount(v / 2) }

  lemma XorStep(a: nat, b: nat)
    ensures BitXor(a, b) % 2 == (if a % 2 != b % 2 then 1 else 0) && BitXor(a, b) / 2 == BitXor(a / 2, b / 2)
  {
    var h := BitXor(a / 2, b / 2);
    var d := if a % 2 != b % 2 then 1 else 0;
    if a != 0 || b != 0 { ModUnique(d + 2 * h, 2, h, d); }
  }

  lemma ModStep(v: nat, m: nat)
    requires m > 0
    ensures v % (2 * m) == v % 2 + 2 * (v / 2 % m) && v / (2 * m) == v / 2 / m
  {
    var q, r := v / 2 / m, v / 2 % m;
    assert v / 2 == m * q + r;
    assert v == (2 * m) * q + (v % 2 + 2 * r) by { assert (2 * m) * q == 2 * (m * q); }
    ModUnique(v, 2 * m, q, v % 2 + 2 * r);
  }

  lemma PopPair(d: nat, h: nat)
    requires d < 2
    ensures PopCount(d + 2 * h) == d + PopCount(h)
  {
    ModUnique(d + 2 * h, 2, h, d);
  }

  function Low(v: nat, k: nat): nat { v % Pow2(k) }
  function Over(v: nat, m: nat): nat
    requires m > 0
  {
    v / m
  }

  function High(v: nat, k: nat): nat { Over(v, Pow2(k)) }

  lemma LowStep(v: nat, k: nat)
    requires k > 0
    ensures Low(v, k) == v % 2 + 2 * Low(v / 2, k - 1) && High(v, k) == High(v / 2, k - 1)
  {
    ModStep(v, Pow2(k - 1));
  }

  /** The ones of k + j bits are those of the low k and those of the next j. */
  lemma {:induction false} PopSplit(v: nat, k: nat, j: nat)
    ensures PopCount(Low(v, k + j)) == PopCount(Low(v, k)) + PopCount(Low(High(v, k), j))
    decreases k
  {
    hide PopCount, Low, High;
    if k == 0 {
      LowNone(v);
      PopZero();
    } else {
      PopSplit(v / 2, k - 1, j);
      LowStep(v, k + j);
      LowStep(v, k);
      PopPair(v % 2, Low(v / 2, k - 1 + j));
      PopPair(v % 2, Low(v / 2, k - 1));
    }
  }

  lemma LowNone(v: nat)
    ensures Low(v, 0) == 0 && High(v, 0) == v
  {
  }

  lemma PopZero()
    ensures PopCount(0) == 0
  {
  }

  lemma {:induction false} XorLow(a: nat, b: nat, k: nat)
    ensures Low(BitXor(a, b), k) == BitXor(Low(a, k), Low(b, k))
    decreases k
  {
    hide BitXor, Low;
    if k == 0 {
      LowNone(a);
      LowNone(b);
      LowNone(BitXor(a, b));
      XorNone();
    } else {
      XorLow(a / 2, b / 2, k - 1);
      XorStep(a, b);
      LowStep(BitXor(a, b), k);
      LowStep(a, k);
      LowStep(b, k);
      XorPair(a % 2, Low(a / 2, k - 1), b % 2, Low(b / 2, k - 1));
    }
  }

  lemma XorNone()
    ensures BitXor(0, 0) == 0
  {
  }

  lemma XorPair(d: nat, x: nat, e: nat, y: nat)
    requires d < 2 && e < 2
    ensures BitXor(d + 2 * x, e + 2 * y) == (if d != e then 1 else 0) + 2 * BitXor(x, y)
  {
    hide BitXor;
    ModUnique(d + 2 * x, 2, x, d);
    ModUnique(e + 2 * y, 2, y, e);
    XorStep(d + 2 * x, e + 2 * y);
    var v := BitXor(d + 2 * x, e + 2 * y);
    assert v == v % 2 + 2 * (v / 2);
  }

  lemma {:induction false} XorParity(a: nat, b: nat)
    ensures PopCount(BitXor(a, b)) % 2 == (PopCount(a) + PopCount(b)) % 2
  {
    if a != 0 || b != 0 {
      XorParity(a / 2, b / 2);
      var h := BitXor(a / 2, b / 2);
      var d := if a % 2 != b % 2 then 1 else 0;
      PopPair(d, h);
      PopPair(a % 2, a / 2);
      PopPair(b % 2, b / 2);
      ParitySum(PopCount(h), PopCount(a / 2) + PopCount(b / 2), d, a % 2 + b % 2);
    }
  }

  lemma ParitySum(x: nat, y: nat, d: nat, e: nat)
    requires x % 2 == y % 2 && d % 2 == e % 2
    ensures (d + x) % 2 == (e + y) % 2
  {
  }

  /** Folding the upper half of 2k bits onto the lower keeps the parity. */
  lemma Fold(v: nat, k: nat)
    ensures PopCount(Low(BitXor(v, High(v, k)), k)) % 2 == PopCount(Low(v, k + k)) % 2
  {
    hide BitXor, PopCount, Low, High;
    XorLow(v, High(v, k), k);
    XorParity(Low(v, k), Low(High(v, k), k));
    PopSplit(v, k, k);
  }

  /** The parity flag is set exactly when the low byte has an even number of ones. */
  lemma ParityIff(v: nat)
    ensures EvenParity8(v) <==> PopCount(v % 256) % 2 == 0
  {
    hide BitXor, PopCount;
    var p := v % 256;
    var p1 := BitXor(p, p / 16);
    var p2 := BitXor(p1, p1 / 4);
    assert Pow2(2) == 4 && Pow2(1) == 2;
    assert Pow2(4) == 16;
    assert Pow2(8) == 256;
    ModUnique(p, 256, 0, p);
    Fold(p, 4);
    Fold(p1, 2);
    Fold(p2, 1);
    LowBit(BitXor(p2, p2 / 2) % 2);
  }

  lemma LowBit(d: nat)
    requires d < 2
    ensures PopCount(d) == d
  {
  }

  // ------------------------------------------------------- flags and conditions

  /** After every operation zero, sign and parity speak of the result. */
  lemma FlagsMean(f: Flags, op: Op, a: nat, b: nat, size: nat)
    requires size > 0 && a < Range(size) && b < Range(size)
    ensures var (r, f') := Alu(f, op, a, b, size);
      && r < Range(size)
      && (f'.zf <==> r == 0) && (f'.sf <==> Signed(r, size) < 0) && (f'.pf <==> PopCount(r % 256) % 2 == 0)
  {
    hide Negative, EvenParity8, Range, BitAnd, BitOr, BitXor, Signed, PopCount;
    var r := Alu(f, op, a, b, size).0;
    HalfRange(size);
    ModUnique(Raw(f, op, a, b), Range(size), Raw(f, op, a, b) / Range(size), r);
    NegativeIff(r, size);
    ParityIff(r);
  }

  /** The condition codes tested after any operation: overflow, carry or borrow, a zero, negative or even
      result, and unsigned and signed order against zero; every odd code is the even one before it denied.
      (Codes 12 and 13 repeat 14 and 15.) */
  lemma ConditionsMean(f: Flags, op: Op, a: nat, b: nat, size: nat)
    requires size > 0 && a < Range(size) && b < Range(size)
    ensures var (r, f') := Alu(f, op, a, b, size); var x, y := Signed(a, size), Signed(b, size);
      && (op.Add? ==> (Cond(f', 0) <==> !Fits(x + y, size))) && (op.Sub? || op.Cmp? ==> (Cond(f', 0) <==> !Fits(x - y, size)))
      && (!op.Add? && !op.Sub? && !op.Cmp? ==> !Cond(f', 0))
      && (op.Add? ==> (Cond(f', 2) <==> a + b >= Range(size))) && (op.Adc? ==> (Cond(f', 2) <==> a + b + Carry(f) >= Range(size)))
      && (op.Sub? || op.Cmp? ==> (Cond(f', 2) <==> a < b)) && (op.Sbb? ==> (Cond(f', 2) <==> a < b + Carry(f)))
      && (op.And? || op.Or? || op.Xor? || op.Test? ==> !Cond(f', 2))
      && (Cond(f', 4) <==> r == 0) && (Cond(f', 6) <==> Cond(f', 2) || r == 0)
      && (Cond(f', 8) <==> Signed(r, size) < 0) && (Cond(f', 10) <==> PopCount(r % 256) % 2 == 0)
      && (Cond(f', 14) <==> r == 0 || (Signed(r, size) < 0) != Cond(f', 0)) && (Cond(f', 12) <==> Cond(f', 14))
    ensures var f' := Alu(f, op, a, b, size).1; forall k | 0 <= k < 8 :: Cond(f', 2 * k + 1) == !Cond(f', 2 * k)
  {
    hide Negative, EvenParity8, Range, BitAnd, BitOr, BitXor, Signed, PopCount, Half, Fits;
    FlagsMean(f, op, a, b, size);
    if op.Add? || op.Sub? || op.Cmp? { OverflowIff(f, op, a, b, size); }
  }

  lemma SizeValues()
    ensures Range(1) == 0x100 && Range(2) == 0x1_0000 && Range(4) == 0x1_0000_0000 && Range(8) == 0x1_0000_0000_0000_0000
    ensures Half(1) == 0x80 && Half(2) == 0x8000 && Half(4) == 0x8000_0000 && Half(8) == 0x8000_0000_0000_0000
  {
    Pow256Values();
    HalfRange(1);
    HalfRange(2);
    HalfRange(4);
    HalfRange(8);
  }

  // ------------------------------------------------------------- many limbs

  /** A number as limbs of one operand size, least significant first. */
  function Value(limbs: seq<nat>, size: nat): nat {
    if limbs == [] then 0 else Value(limbs[..|limbs| - 1], size) + limbs[|limbs| - 1] * Weight(|limbs| - 1, size)
  }

  lemma ValueOne(a: nat, size: nat)
    ensures Value([a], size) == a && Weight(1, size) == Range(size)
  {
    assert [a][..0] == [];
  }

  function Weight(k: nat, size: nat): nat { if k == 0 then 1 else Range(size) * Weight(k - 1, size) }

  predicate LimbsOk(limbs: seq<nat>, size: nat) { forall i | 0 <= i < |limbs| :: limbs[i] < Range(size) }

  class Cpu {
    var cf: bool
    var zf: bool
    var sf: bool
    var of: bool
    var pf: bool

    function State(): Flags
      reads this
    {
      Flags(cf, zf, sf, of, pf)
    }

    constructor ()
      ensures State() == Flags(false, false, false, false, false)
    {
      cf, zf, sf, of, pf := false, false, false, false, false;
    }

    /** alu, setting the flag fields. */
    method Execute(op: Op, a: nat, b: nat, size: nat) returns (r: nat)
      requires size > 0
      modifies this
      ensures (r, State()) == Alu(old(State()), op, a, b, size)
    {
      hide Negative, EvenParity8, BitAnd, BitOr, BitXor;
      var raw: int;
      match op {
        case Add => raw := a + b; cf := a + b > Range(size) - 1;
        case Adc => raw := a + b + (if cf then 1 else 0); cf := a + b + (if cf then 1 else 0) > Range(size) - 1;
        case Sub | Cmp => raw := a - b; cf := a < b;
        case Sbb => raw := a - b - (if cf then 1 else 0); cf := a - (b + (if cf then 1 else 0)) < 0;
        case And | Test => raw := BitAnd(a, b); cf := false;
        case Or => raw := BitOr(a, b); cf := false;
        case Xor => raw := BitXor(a, b); cf := false;
      }
      r := raw % Range(size);
      zf := r == 0;
      sf := Negative(r, size);
      pf := EvenParity8(r);
      of := if op.Add? then Negative(a, size) == Negative(b, size) && Negative(r, size) != Negative(a, size)
            else if op.Sub? || op.Cmp? then Negative(a, size) != Negative(b, size) && Negative(r, size) != Negative(a, size)
            else false;
    }

    /** add on the low limb, adc on every higher one: the limbs and the last carry are the exact
        sum, for every operand size and every number of limbs. */
    method AddNumbers(x: seq<nat>, y: seq<nat>, size: nat) returns (r: seq<nat>)
      requires size > 0 && |x| == |y| > 0 && LimbsOk(x, size) && LimbsOk(y, size)
      modifies this
      ensures |r| == |x| && LimbsOk(r, size)
      ensures Value(r, size) + Carry(State()) * Weight(|x|, size) == Value(x, size) + Value(y, size)
    {
      hide Alu, Range, Weight, Value;
      r := [];
      ValueNone(x, y, size);
      for i := 0 to |x|
        invariant |r| == i && LimbsOk(r, size)
        invariant Value(r, size) + (if i == 0 then 0 else Carry(State())) * Weight(i, size) == Value(x[..i], size) + Value(y[..i], size)
      {
        var op := if i == 0 then Add else Adc;
        ghost var c := if i == 0 then 0 else Carry(State());
        Exact(State(), op, x[i], y[i], size);
        var d := Execute(op, x[i], y[i], size);
        AddStep(r, x, y, i, d, c, Carry(State()), size);
        r := r + [d];
      }
      assert x[..|x|] == x && y[..|x|] == y;
    }

    /** sub on the low limb, sbb on every higher one, with the last borrow. */
    method SubNumbers(x: seq<nat>, y: seq<nat>, size: nat) returns (r: seq<nat>)
      requires size > 0 && |x| == |y| > 0 && LimbsOk(x, size) && LimbsOk(y, size)
      modifies this
      ensures |r| == |x| && LimbsOk(r, size)
      ensures Value(r, size) - Carry(State()) * Weight(|x|, size) == Value(x, size) - Value(y, size)
    {
      hide Alu, Range, Weight, Value;
      r := [];
      ValueNone(x, y, size);
      for i := 0 to |x|
        invariant |r| == i && LimbsOk(r, size)
        invariant Value(r, size) - (if i == 0 then 0 else Carry(State())) * Weight(i, size) == Value(x[..i], size) - Value(y[..i], size)
      {
        var op := if i == 0 then Sub else Sbb;
        ghost var c := if i == 0 then 0 else Carry(State());
        Exact(State(), op, x[i], y[i], size);
        var d := Execute(op, x[i], y[i], size);
        SubStep(r, x, y, i, d, c, Carry(State()), size);
        r := r + [d];
      }
      assert x[..|x|] == x && y[..|x|] == y;
    }
  }

  lemma ValueNone(x: seq<nat>, y: seq<nat>, size: nat)
    ensures Value([], size) == 0 == Value(x[..0], size) == Value(y[..0], size)
  {
  }

  lemma ValueStep(x: seq<nat>, i: nat, size: nat)
    requires i < |x|
    ensures Value(x[..i + 1], size) == Value(x[..i], size) + x[i] * Weight(i, size)
  {
    hide Weight;
    assert x[..i + 1][..i] == x[..i];
  }

  lemma ValueSnoc(r: seq<nat>, d: nat, size: nat)
    ensures Value(r + [d], size) == Value(r, size) + d * Weight(|r|, size)
  {
    hide Weight;
    assert (r + [d])[..|r|] == r;
  }

  lemma WeightStep(i: nat, size: nat, c: nat)
    ensures c * Weight(i + 1, size) == c * Range(size) * Weight(i, size)
  {
    hide Range;
    assert c * (Range(size) * Weight(i, size)) == c * Range(size) * Weight(i, size);
  }

  lemma AddStep(r: seq<nat>, x: seq<nat>, y: seq<nat>, i: nat, d: nat, c: nat, c': nat, size: nat)
    requires |r| == i < |x| == |y| && d + c' * Range(size) == x[i] + y[i] + c
    requires Value(r, size) + c * Weight(i, size) == Value(x[..i], size) + Value(y[..i], size)
    ensures Value(r + [d], size) + c' * Weight(i + 1, size) == Value(x[..i + 1], size) + Value(y[..i + 1], size)
  {
    hide Range, Weight, Value;
    ValueStep(x, i, size);
    ValueStep(y, i, size);
    ValueSnoc(r, d, size);
    WeightStep(i, size, c');
    var w := Weight(i, size);
    assert (d + c' * Range(size)) * w == d * w + c' * Range(size) * w;
    assert (x[i] + y[i] + c) * w == x[i] * w + y[i] * w + c * w;
  }

  lemma SubStep(r: seq<nat>, x: seq<nat>, y: seq<nat>, i: nat, d: nat, c: nat, c': nat, size: nat)
    requires |r| == i < |x| == |y| && d - c' * Range(size) == x[i] - y[i] - c
    requires Value(r, size) - c * Weight(i, size) == Value(x[..i], size) - Value(y[..i], size)
    ensures Value(r + [d], size) - c' * Weight(i + 1, size) == Value(x[..i + 1], size) - Value(y[..i + 1], size)
  {
    hide Range, Weight, Value;
    ValueStep(x, i, size);
    ValueStep(y, i, size);
    ValueSnoc(r, d, size);
    WeightStep(i, size, c');
    var w := Weight(i, size);
    assert (d - c' * Range(size)) * w == d * w - c' * Range(size) * w;
    assert (x[i] - y[i] - c) * w == x[i] * w - y[i] * w - c * w;
  }

  /** Each number of n limbs has one list of limbs: the sum's limbs are determined. */
  lemma {:induction false} ValueBound(x: seq<nat>, size: nat)
    requires LimbsOk(x, size)
    ensures Value(x, size) < Weight(|x|, size)
  {
    hide Range;
    if x != [] {
      var n := |x| - 1;
      ValueBound(x[..n], size);
      var w := Weight(n, size);
      MulUpTo(x[n] + 1, Range(size), w);
      assert (x[n] + 1) * w == x[n] * w + w;
    }
  }

  lemma MulUpTo(a: nat, b: nat, w: nat)
    requires a <= b
    ensures a * w <= b * w
  {
    assert b * w == a * w + (b - a) * w;
  }

  /** The final carry says exactly whether the sum needs another limb, and the final borrow
      exactly whether the first number is the smaller. */
  lemma CarryMeans(r: seq<nat>, x: seq<nat>, y: seq<nat>, c: nat, size: nat)
    requires c <= 1 && |r| == |x| == |y| && LimbsOk(r, size) && LimbsOk(x, size) && LimbsOk(y, size)
    ensures Value(r, size) + c * Weight(|x|, size) == Value(x, size) + Value(y, size) ==>
      (c == 1 <==> Value(x, size) + Value(y, size) >= Weight(|x|, size))
    ensures Value(r, size) - c * Weight(|x|, size) == Value(x, size) - Value(y, size) ==>
      (c == 1 <==> Value(x, size) < Value(y, size))
  {
    hide Range, Weight, Value;
    ValueBound(r, size);
    ValueBound(x, size);
    ValueBound(y, size);
  }
}
