/** Little-endian encodings and bit-level arithmetic on naturals. */
module Bytes {

  newtype Byte = x: int | 0 <= x < 256

  const TWO_32: nat := 0x1_0000_0000
  const TWO_52: nat := 0x10_0000_0000_0000
  const TWO_64: nat := 0x1_0000_0000_0000_0000

  function Pow256(n: nat): (r: nat)
    ensures r > 0
  {
    if n == 0 then 1 else 256 * Pow256(n - 1)
  }

  function FromLE(s: seq<Byte>): nat {
    if s == [] then 0 else s[0] as nat + 256 * FromLE(s[1..])
  }

  /** The low n bytes of v, least significant first. Dafny's `/` floors for a
      positive divisor, so a negative v comes out in two's complement, as it
      does from the source's `b & 0xffn` / `b >>= 8n` loop. */
  function ToLE(v: int, n: nat): (s: seq<Byte>)
    ensures |s| == n
    decreases n
  {
    if n == 0 then [] else [(v % 256) as Byte] + ToLE(v / 256, n - 1)
  }

  function Zeros(n: nat): (s: seq<Byte>)
    ensures |s| == n
    ensures forall i :: 0 <= i < n ==> s[i] == 0
  {
    seq(n, _ => 0)
  }

  lemma Pow256Values()
    ensures Pow256(1) == 0x100 && Pow256(2) == 0x1_0000 && Pow256(4) == TWO_32 && Pow256(8) == TWO_64
  {
    assert Pow256(3) == 0x100_0000 && Pow256(4) == TWO_32;
    assert Pow256(5) == 0x100_0000_0000;
    assert Pow256(6) == 0x1_0000_0000_0000;
    assert Pow256(7) == 0x100_0000_0000_0000;
  }

  lemma DivModStep(v: int, k: nat)
    requires k > 0
    ensures v % (256 * k) == v % 256 + 256 * (v / 256 % k)
  {
    var q, r := v / 256, v % 256;
    var q2, r2 := q / k, q % k;
    assert v == 256 * (k * q2 + r2) + r;
    assert v == (256 * k) * q2 + (256 * r2 + r) by {
      assert 256 * (k * q2) == (256 * k) * q2;
    }
    assert 0 <= 256 * r2 + r < 256 * k;
    ModUnique(v, 256 * k, q2, 256 * r2 + r);
  }

  lemma MulAtLeast(d: int, k: int)
    requires d > 0 && k >= 1
    ensures d * k >= d
  {
    assert d * k == d + d * (k - 1);
    assert d * (k - 1) >= 0;
  }

  lemma ModUnique(v: int, d: int, q: int, r: int)
    requires d > 0 && 0 <= r < d && v == d * q + r
    ensures v % d == r && v / d == q
  {
    var q', r' := v / d, v % d;
    assert v == d * q' + r' && 0 <= r' < d;
    assert d * (q - q') == r' - r;
    assert d * (q' - q) == r - r';
    if q > q' {
      MulAtLeast(d, q - q');
    } else if q < q' {
      MulAtLeast(d, q' - q);
    }
  }

  /** Decoding an encoding keeps the value modulo 256^n. */
  lemma {:induction false} FromToLE(v: int, n: nat)
    ensures FromLE(ToLE(v, n)) == v % Pow256(n)
    decreases n
  {
    if n > 0 {
      FromToLE(v / 256, n - 1);
      DivModStep(v, Pow256(n - 1));
      assert ToLE(v, n)[1..] == ToLE(v / 256, n - 1);
    }
  }

  /** Encoding a decoding gives the bytes back. */
  lemma {:induction false} ToFromLE(s: seq<Byte>)
    ensures ToLE(FromLE(s), |s|) == s && FromLE(s) < Pow256(|s|)
  {
    if s != [] {
      ToFromLE(s[1..]);
      assert FromLE(s) / 256 == FromLE(s[1..]);
    }
  }

  /** Byte k of an encoding is digit k of the value in base 256. */
  lemma {:induction false} DigitOut(v: int, n: nat, k: nat)
    requires k < n
    ensures ToLE(v, n)[k] as int == v / Pow256(k) % 256
    decreases k
  {
    if k > 0 {
      DigitOut(v / 256, n - 1, k - 1);
      DivDiv(v, 256, Pow256(k - 1));
    }
  }

  /** Digit k of a decoded value in base 256 is byte k. */
  lemma DigitIn(s: seq<Byte>, k: nat)
    requires k < |s|
    ensures FromLE(s) / Pow256(k) % 256 == s[k] as int
  {
    ToFromLE(s);
    DigitOut(FromLE(s), |s|, k);
  }

  lemma DivDiv(v: int, a: int, b: int)
    requires a > 0 && b > 0
    ensures a * b > 0 && v / a / b == v / (a * b)
  {
    var w, e := v / a, v % a;
    var q, r := w / b, w % b;
    var ab, ar, bq := a * b, a * r, b * q;
    Spread(a, b, q, r);
    MulAtLeast(a, b);
    ModUnique(v, ab, q, ar + e);
  }

  lemma Spread(a: int, b: int, q: int, r: int)
    requires a > 0 && 0 <= r < b
    ensures a * (b * q + r) == a * b * q + a * r && 0 <= a * r <= a * b - a
  {
    assert a * (b - 1 - r) == a * b - a - a * r;
    assert a * (b - 1 - r) >= 0;
    assert a * (b * q + r) == a * (b * q) + a * r;
    assert a * (b * q) == a * b * q;
  }

  lemma {:induction false} FromLEZeros(n: nat)
    ensures FromLE(Zeros(n)) == 0
  {
    if n > 0 {
      assert Zeros(n)[1..] == Zeros(n - 1);
      FromLEZeros(n - 1);
    }
  }

  lemma U64Bound(s: seq<Byte>)
    requires |s| == 8
    ensures FromLE(s) < TWO_64
  {
    Pow256Values();
    ToFromLE(s);
  }

  /** Bitwise or. */
  function BitOr(a: nat, b: nat): nat {
    if a == 0 && b == 0 then 0
    else (if a % 2 == 1 || b % 2 == 1 then 1 else 0) + 2 * BitOr(a / 2, b / 2)
  }

  function Pow2(k: nat): (r: nat)
    ensures r > 0
  {
    if k == 0 then 1 else 2 * Pow2(k - 1)
  }

  lemma {:induction false} BitOrZero(a: nat)
    ensures BitOr(a, 0) == a
  {
    if a > 0 { BitOrZero(a / 2); }
  }

  /** Or-ing an offset below 2^k into a multiple of 2^k adds it. */
  lemma {:induction false} BitOrDisjoint(hi: nat, k: nat, lo: nat)
    requires lo < Pow2(k)
    ensures BitOr(hi * Pow2(k), lo) == hi * Pow2(k) + lo
  {
    if k == 0 {
      BitOrZero(hi);
    } else {
      var a := hi * Pow2(k);
      assert a == 2 * (hi * Pow2(k - 1));
      BitOrDisjoint(hi, k - 1, lo / 2);
      if a == 0 && lo == 0 {
      } else {
        assert a / 2 == hi * Pow2(k - 1) && a % 2 == 0;
      }
    }
  }

  lemma BitOrPage(frame: nat, off: nat)
    requires frame % 4096 == 0 && off < 4096
    ensures BitOr(frame, off) == frame + off
  {
    assert Pow2(6) == 64;
    assert Pow2(12) == 4096;
    BitOrDisjoint(frame / 4096, 12, off);
  }
}
