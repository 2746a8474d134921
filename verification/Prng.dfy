/** The xorshift32 generator that the pool and the clock draw their jitter from. */
module Prng {
  function Xorshift(x: bv32): bv32 {
    var a := x ^ (x << 13);
    var b := a ^ (a >> 17);
    b ^ (b << 5)
  }

  /** No state but zero leads to zero, and zero is never left: a seed has to be another. The two steps
      show each of the three shifts. */
  lemma XorshiftZero(x: bv32)
    ensures Xorshift(x) == 0 <==> x == 0
    ensures Xorshift(1) == 0x4_2021 && Xorshift(0x8000_0000) == 0x8008_4000
  {
    var a := x ^ (x << 13);
    var b := a ^ (a >> 17);
    assert b ^ (b << 5) == 0 ==> b == 0;
    assert b == 0 ==> a == 0;
    assert a == 0 ==> x == 0;
  }
}
