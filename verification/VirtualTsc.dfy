/** The virtual time-stamp counter: jitter, the busy-wait accelerator, and monotone polls. */
module VirtualTsc {
  import opened Bytes
  import opened Prng

  const TSC_PER_STEP: nat := 100
  const SHORT_INTERVAL: int := 20000
  const STREAK_LIMIT: nat := 32
  const MAX_BONUS: nat := 50_000_000

  datatype Tsc = Tsc(timing: bool, base: nat, bias: nat, lastSteps: int, streak: nat, lastTsc: nat, prng: bv32)

  function Start(timing: bool): Tsc { Tsc(timing, 0, 0, -1, 0, 0, 0x9e37_79b1) }

  function Jitter(x: bv32): int { (x as int) % 31 - 15 }

  /** Quadratic in the length of the streak beyond the limit, up to a cap. */
  function Bonus(streak: nat): nat {
    if streak < STREAK_LIMIT then 0
    else
      var k := streak - 31;
      var b := 5000 * k * k;
      if b > MAX_BONUS then MAX_BONUS else b
  }

  /** The polling detector: a short interval lengthens the streak, a long one ends it. */
  function Polled(s: Tsc, steps: int): Tsc {
    if s.timing && s.lastSteps >= 0 then
      var streak := if steps - s.lastSteps < SHORT_INTERVAL then s.streak + 1 else 0;
      s.(streak := streak, bias := s.bias + Bonus(streak))
    else s
  }

  function Drawn(s: Tsc): bv32 { if s.timing then Xorshift(s.prng) else s.prng }

  /** The clock before masking to 64 bits. */
  function RawNow(s: Tsc, steps: int): int {
    s.base + steps * TSC_PER_STEP + s.bias + if s.timing then Jitter(Drawn(s)) else 0
  }

  /** The raw clock a read at steps would see. */
  function RawAt(s: Tsc, steps: int): int { RawNow(Polled(s, steps), steps) }

  /** rdtsc: the value read and the state after. */
  function Rdtsc(s: Tsc, steps: int): (nat, Tsc) {
    var p := Polled(s, steps).(lastSteps := steps);
    var now := RawNow(p, steps) % TWO_64;
    var t := if now <= s.lastTsc then (s.lastTsc + 1) % TWO_64 else now;
    (t, p.(prng := Drawn(p), lastTsc := t))
  }

  /** One read exceeds the last exactly when the last was not the largest 64-bit value. */
  lemma RisesIff(s: Tsc, steps: int)
    requires s.lastTsc < TWO_64
    ensures Rdtsc(s, steps).0 > s.lastTsc <==> s.lastTsc < TWO_64 - 1
    ensures Rdtsc(s, steps).0 < TWO_64 && Rdtsc(s, steps).1.lastTsc == Rdtsc(s, steps).0
  {
    hide Polled, Drawn, RawNow;
    if s.lastTsc < TWO_64 - 1 { ModUnique(s.lastTsc + 1, TWO_64, 0, s.lastTsc + 1); }
  }

  /** What one read does. Without the timing model, at the first read, or after an interval of 20000 steps
      the bias stays; an interval below that lengthens the streak by one and leaves the bias while the streak
      is below 32. The value is the clock, 100 a step plus bias and jitter within 15, or one more than the
      last value. */
  lemma ReadIs(s: Tsc, steps: int)
    ensures var (t, s') := Rdtsc(s, steps);
      var near := s.timing && s.lastSteps >= 0 && steps - s.lastSteps < 20000;
      var jitter := if s.timing then s'.prng as int % 31 - 15 else 0;
      var clock := (s.base + 100 * steps + s'.bias + jitter) % 0x1_0000_0000_0000_0000;
      && s' == Tsc(s.timing, s.base, s'.bias, steps, s'.streak, t, if s.timing then Xorshift(s.prng) else s.prng)
      && s'.streak == (if near then s.streak + 1 else if s.timing && s.lastSteps >= 0 then 0 else s.streak)
      && (!near || s'.streak < 32 ==> s'.bias == s.bias)
      && s.bias <= s'.bias <= s.bias + 50_000_000
      && t == (if clock <= s.lastTsc then (s.lastTsc + 1) % 0x1_0000_0000_0000_0000 else clock)
  {
    hide Xorshift;
  }

  // --------------------------------------------------------------------- runs

  function StateAfter(s: Tsc, polls: seq<int>): Tsc {
    if polls == [] then s else Rdtsc(StateAfter(s, polls[..|polls| - 1]), polls[|polls| - 1]).1
  }

  /** The value of read i of a run, given the step counts the reads were made at. */
  function ReadAt(s: Tsc, polls: seq<int>, i: nat): nat
    requires i < |polls|
  {
    Rdtsc(StateAfter(s, polls[..i]), polls[i]).0
  }

  lemma AfterStep(s: Tsc, polls: seq<int>, i: nat)
    requires i < |polls|
    ensures StateAfter(s, polls[..i + 1]) == Rdtsc(StateAfter(s, polls[..i]), polls[i]).1
  {
    hide Rdtsc;
    assert polls[..i + 1][..i] == polls[..i];
  }

  /** The state that reads would leave if they did not record what they returned. */
  function Unrecorded(s: Tsc, polls: seq<int>): Tsc {
    if polls == [] then s
    else
      var u := Unrecorded(s, polls[..|polls| - 1]);
      var steps := polls[|polls| - 1];
      var p := Polled(u, steps).(lastSteps := steps);
      p.(prng := Drawn(p))
  }

  /** The masked clock that read i looks at: no value read before enters it. */
  function ClockAt(s: Tsc, polls: seq<int>, i: nat): (c: nat)
    requires i < |polls|
    ensures c < TWO_64
  {
    RawAt(Unrecorded(s, polls[..i]), polls[i]) % TWO_64
  }

  /** Recording a read changes nothing but the record. */
  lemma {:induction false} OnlyRecord(s: Tsc, polls: seq<int>)
    ensures var t := StateAfter(s, polls); t == Unrecorded(s, polls).(lastTsc := t.lastTsc)
    decreases |polls|
  {
    hide Bonus, Xorshift;
    if polls != [] { OnlyRecord(s, polls[..|polls| - 1]); }
  }

  /** What the clock is compared with before read i: the value of the read before it. */
  function Before(s: Tsc, polls: seq<int>, i: nat): nat
    requires i < |polls|
  {
    StateAfter(s, polls[..i]).lastTsc
  }

  lemma BeforeIs(s: Tsc, polls: seq<int>, i: nat)
    requires i < |polls|
    ensures Before(s, polls, i) == if i == 0 then s.lastTsc else ReadAt(s, polls, i - 1)
  {
    hide Polled, RawNow, Drawn;
    if i > 0 { AfterStep(s, polls, i - 1); } else { assert polls[..0] == []; }
  }

  lemma SameClock(t: Tsc, u: Tsc, steps: int)
    requires t == u.(lastTsc := t.lastTsc)
    ensures RawNow(Polled(t, steps).(lastSteps := steps), steps) == RawAt(u, steps)
  {
    hide Bonus, Xorshift, Jitter;
  }

  lemma ReadFrom(s: Tsc, polls: seq<int>, i: nat)
    requires i < |polls|
    ensures var c, b := ClockAt(s, polls, i), Before(s, polls, i);
      ReadAt(s, polls, i) == if c <= b then (b + 1) % TWO_64 else c
  {
    hide Polled, RawNow, RawAt, Drawn, StateAfter, Unrecorded;
    OnlyRecord(s, polls[..i]);
    SameClock(StateAfter(s, polls[..i]), Unrecorded(s, polls[..i]), polls[i]);
  }

  /** The largest of the start value and the clocks so far, each moved on by one a read. */
  function Peak(s: Tsc, polls: seq<int>, i: nat): nat
    requires i <= |polls|
  {
    if i == 0 then s.lastTsc
    else
      var p, c := Peak(s, polls, i - 1), ClockAt(s, polls, i - 1);
      if c > p then c else p + 1
  }

  /** Below the top the value before a read is the peak. */
  lemma {:induction false} BeforePeak(s: Tsc, polls: seq<int>, i: nat)
    requires i < |polls| && (i > 0 ==> Peak(s, polls, i - 1) < TWO_64 - 1)
    ensures Before(s, polls, i) == Peak(s, polls, i)
    decreases i
  {
    hide StateAfter, ClockAt, ReadAt, Before;
    BeforeIs(s, polls, i);
    if i > 0 {
      if i > 1 { PeakRises(s, polls, i - 2); }
      BeforePeak(s, polls, i - 1);
      ReadFrom(s, polls, i - 1);
      ModUnique(Peak(s, polls, i - 1) + 1, TWO_64, 0, Peak(s, polls, i - 1) + 1);
    }
  }

  lemma PeakRises(s: Tsc, polls: seq<int>, i: nat)
    requires i < |polls|
    ensures Peak(s, polls, i) < Peak(s, polls, i + 1)
  {
    hide ClockAt;
  }

  /** The start value and every clock of the first n reads leave room for n reads. */
  ghost predicate Room(s: Tsc, polls: seq<int>, n: nat, top: nat)
    requires n <= |polls|
  {
    && s.lastTsc + n < top
    && forall j: nat | j < n :: ClockAt(s, polls, j) + (n - 1 - j) < top
  }

  lemma {:induction false} PeakBelow(s: Tsc, polls: seq<int>, n: nat, top: nat)
    requires n <= |polls| && top > 0
    ensures Peak(s, polls, n) < top <==> Room(s, polls, n, top)
    decreases n
  {
    hide ClockAt;
    if n > 0 {
      if top > 1 {
        PeakBelow(s, polls, n - 1, top - 1);
      }
    }
  }

  lemma {:induction false} PeaksRise(s: Tsc, polls: seq<int>, i: nat, n: nat)
    requires i <= n <= |polls|
    ensures Peak(s, polls, i) + (n - i) <= Peak(s, polls, n)
    decreases n - i
  {
    hide ClockAt;
    if i < n {
      PeaksRise(s, polls, i, n - 1);
      PeakRises(s, polls, n - 1);
    }
  }

  /** Read i exceeds the value before it. */
  predicate RisesAt(s: Tsc, polls: seq<int>, i: nat)
    requires i < |polls|
  {
    Before(s, polls, i) < ReadAt(s, polls, i)
  }

  /** A run rises at every read exactly when the start value and the clocks its reads look at, none
      of which depends on a value read, leave room below 2^64 - 1 for the reads to come. */
  lemma RunRisesIff(s: Tsc, polls: seq<int>)
    requires s.lastTsc < TWO_64 && polls != []
    ensures (forall i | 0 <= i < |polls| :: RisesAt(s, polls, i)) <==> Room(s, polls, |polls| - 1, TWO_64 - 1)
  {
    hide StateAfter, Before, ReadAt, ClockAt, Peak, Room, RisesAt;
    var n := |polls| - 1;
    PeakBelow(s, polls, n, TWO_64 - 1);
    if Peak(s, polls, n) < TWO_64 - 1 {
      forall i | 0 <= i < |polls|
        ensures RisesAt(s, polls, i)
      {
        PeaksRise(s, polls, i, n);
        if i > 0 { PeaksRise(s, polls, i - 1, n); }
        BeforePeak(s, polls, i);
        StepRises(s, polls, i);
      }
    } else {
      var i := FirstTop(s, polls, n);
      BeforePeak(s, polls, i);
      StepRises(s, polls, i);
    }
  }

  /** The first read at which the peak is at the top. */
  lemma {:induction false} FirstTop(s: Tsc, polls: seq<int>, n: nat) returns (i: nat)
    requires n < |polls| && Peak(s, polls, n) >= TWO_64 - 1
    ensures i <= n && Peak(s, polls, i) >= TWO_64 - 1 && (i > 0 ==> Peak(s, polls, i - 1) < TWO_64 - 1)
    decreases n
  {
    hide Peak;
    i := n;
    if n > 0 && Peak(s, polls, n - 1) >= TWO_64 - 1 { i := FirstTop(s, polls, n - 1); }
  }

  lemma StepRises(s: Tsc, polls: seq<int>, i: nat)
    requires i < |polls| && s.lastTsc < TWO_64
    ensures RisesAt(s, polls, i) <==> Before(s, polls, i) < TWO_64 - 1
  {
    hide StateAfter, Polled, RawNow;
    BeforeBound(s, polls, i);
    RisesIff(StateAfter(s, polls[..i]), polls[i]);
  }

  lemma BeforeBound(s: Tsc, polls: seq<int>, i: nat)
    requires i < |polls| && s.lastTsc < TWO_64
    ensures Before(s, polls, i) < TWO_64
  {
    hide StateAfter, Polled, RawNow, Before;
    BeforeIs(s, polls, i);
    if i > 0 { ReadBound(StateAfter(s, polls[..i - 1]), polls[i - 1]); }
  }

  lemma ReadBound(s: Tsc, steps: int)
    ensures Rdtsc(s, steps).0 < TWO_64 && Rdtsc(s, steps).1.lastTsc == Rdtsc(s, steps).0
  {
    hide Polled, RawNow, Drawn;
  }

  /** In a run that rises at every read, every read exceeds all before it. */
  lemma {:induction false} ReadsRise(s: Tsc, polls: seq<int>, i: nat, j: nat)
    requires s.lastTsc < TWO_64 && i < j < |polls| && Room(s, polls, |polls| - 1, TWO_64 - 1)
    ensures ReadAt(s, polls, i) < ReadAt(s, polls, j)
    decreases j
  {
    hide ReadAt, Room, Before, StateAfter;
    RunRisesIff(s, polls);
    BeforeIs(s, polls, j);
    assert RisesAt(s, polls, j);
    if i < j - 1 { ReadsRise(s, polls, i, j - 1); }
  }

  /** After the largest 64-bit value the clock falls to zero, unless the clock is past it. */
  lemma WrapsAfterLargest(s: Tsc, steps: int)
    requires s.lastTsc == TWO_64 - 1
    ensures Rdtsc(s, steps).0 == 0
  {
    hide Polled, Jitter, Xorshift;
    ModUnique(TWO_64, TWO_64, 1, 0);
  }

  // ------------------------------------------------------- polling at step zero

  function ZeroPolls(n: nat): (p: seq<int>)
    ensures |p| == n
  {
    seq(n, _ => 0)
  }

  /** The state after k + 1 reads at step zero. */
  function AtZero(k: nat, last: nat, x: bv32): Tsc { Tsc(true, 0, 0, 0, k, last, x) }

  lemma OneAtZero(k: nat, last: nat, x: bv32, x': bv32, jitter: int)
    requires k < 31 && last < TWO_64 && Xorshift(x) == x' && Jitter(x') == jitter
    ensures var c := jitter % TWO_64; var t := if c <= last then (last + 1) % TWO_64 else c;
      RawAt(AtZero(k, last, x), 0) == jitter && Rdtsc(AtZero(k, last, x), 0) == (t, AtZero(k + 1, t, x'))
  {
    hide Xorshift, Jitter;
  }

  lemma Draws()
    ensures Xorshift(0x9e37_79b1) == 0x512d_4711 && Xorshift(0x512d_4711) == 0xc02c_6536
    ensures Xorshift(0xc02c_6536) == 0xddda_ed13 && Xorshift(0xddda_ed13) == 0x8f61_68cf
    ensures Xorshift(0x8f61_68cf) == 0xed63_e793 && Xorshift(0xed63_e793) == 0xa3a8_243b
    ensures Xorshift(0xa3a8_243b) == 0x42cd_e22c && Xorshift(0x42cd_e22c) == 0x2f8b_b068
    ensures Xorshift(0x2f8b_b068) == 0x6955_09cb && Xorshift(0x6955_09cb) == 0xc5ed_b25d
    ensures Xorshift(0xc5ed_b25d) == 0x0763_5a4e && Xorshift(0x0763_5a4e) == 0xe97f_273b
    ensures Xorshift(0xe97f_273b) == 0xbe90_7f17 && Xorshift(0xbe90_7f17) == 0x9f2a_326e
  {
  }

  lemma Jitters()
    ensures Jitter(0x512d_4711) == 3 && Jitter(0xc02c_6536) == 8 && Jitter(0xddda_ed13) == 13 && Jitter(0x8f61_68cf) == 3
    ensures Jitter(0xed63_e793) == -13 && Jitter(0xa3a8_243b) == -10 && Jitter(0x42cd_e22c) == -14 && Jitter(0x2f8b_b068) == -15
    ensures Jitter(0x6955_09cb) == 2 && Jitter(0xc5ed_b25d) == 13 && Jitter(0x0763_5a4e) == 8 && Jitter(0xe97f_273b) == -2
    ensures Jitter(0xbe90_7f17) == 12 && Jitter(0x9f2a_326e) == -8
  {
  }

  lemma ZeroStep(k: nat)
    requires 0 < k < 15
    ensures StateAfter(Start(true), ZeroPolls(k + 1)) == Rdtsc(StateAfter(Start(true), ZeroPolls(k)), 0).1
  {
    hide Rdtsc;
    assert ZeroPolls(k + 1)[..k] == ZeroPolls(k);
  }

  lemma FirstZeroRead()
    ensures StateAfter(Start(true), ZeroPolls(1)) == AtZero(0, 3, 0x512d_4711)
  {
    hide Xorshift, Jitter;
    Draws();
    Jitters();
    assert ZeroPolls(1)[..0] == [] && StateAfter(Start(true), []) == Start(true);
  }

  lemma ZeroReadsTo5()
    ensures StateAfter(Start(true), ZeroPolls(2)) == AtZero(1, 8, 0xc02c_6536)
    ensures StateAfter(Start(true), ZeroPolls(3)) == AtZero(2, 13, 0xddda_ed13)
    ensures StateAfter(Start(true), ZeroPolls(4)) == AtZero(3, 14, 0x8f61_68cf)
    ensures StateAfter(Start(true), ZeroPolls(5)) == AtZero(4, TWO_64 - 13, 0xed63_e793)
  {
    hide Xorshift, Jitter, Rdtsc, RawAt, StateAfter, ZeroPolls;
    Draws();
    Jitters();
    FirstZeroRead();
    ZeroStep(1);
    OneAtZero(0, 3, 0x512d_4711, 0xc02c_6536, 8);
    ZeroStep(2);
    OneAtZero(1, 8, 0xc02c_6536, 0xddda_ed13, 13);
    ZeroStep(3);
    OneAtZero(2, 13, 0xddda_ed13, 0x8f61_68cf, 3);
    ZeroStep(4);
    OneAtZero(3, 14, 0x8f61_68cf, 0xed63_e793, -13);
  }

  lemma ZeroReadsTo10()
    ensures StateAfter(Start(true), ZeroPolls(6)) == AtZero(5, TWO_64 - 10, 0xa3a8_243b)
    ensures StateAfter(Start(true), ZeroPolls(7)) == AtZero(6, TWO_64 - 9, 0x42cd_e22c)
    ensures StateAfter(Start(true), ZeroPolls(8)) == AtZero(7, TWO_64 - 8, 0x2f8b_b068)
    ensures StateAfter(Start(true), ZeroPolls(9)) == AtZero(8, TWO_64 - 7, 0x6955_09cb)
    ensures StateAfter(Start(true), ZeroPolls(10)) == AtZero(9, TWO_64 - 6, 0xc5ed_b25d)
  {
    hide Xorshift, Jitter, Rdtsc, RawAt, StateAfter, ZeroPolls;
    Draws();
    Jitters();
    ZeroReadsTo5();
    ZeroStep(5);
    OneAtZero(4, TWO_64 - 13, 0xed63_e793, 0xa3a8_243b, -10);
    ZeroStep(6);
    OneAtZero(5, TWO_64 - 10, 0xa3a8_243b, 0x42cd_e22c, -14);
    ZeroStep(7);
    OneAtZero(6, TWO_64 - 9, 0x42cd_e22c, 0x2f8b_b068, -15);
    ZeroStep(8);
    OneAtZero(7, TWO_64 - 8, 0x2f8b_b068, 0x6955_09cb, 2);
    ZeroStep(9);
    OneAtZero(8, TWO_64 - 7, 0x6955_09cb, 0xc5ed_b25d, 13);
  }

  lemma ZeroReadsTo14()
    ensures StateAfter(Start(true), ZeroPolls(11)) == AtZero(10, TWO_64 - 5, 0x0763_5a4e)
    ensures StateAfter(Start(true), ZeroPolls(12)) == AtZero(11, TWO_64 - 2, 0xe97f_273b)
    ensures StateAfter(Start(true), ZeroPolls(13)) == AtZero(12, TWO_64 - 1, 0xbe90_7f17)
    ensures StateAfter(Start(true), ZeroPolls(14)) == AtZero(13, 0, 0x9f2a_326e)
  {
    hide Xorshift, Jitter, Rdtsc, RawAt, StateAfter, ZeroPolls;
    Draws();
    Jitters();
    ZeroReadsTo10();
    ZeroStep(10);
    OneAtZero(9, TWO_64 - 6, 0xc5ed_b25d, 0x0763_5a4e, 8);
    ZeroStep(11);
    OneAtZero(10, TWO_64 - 5, 0x0763_5a4e, 0xe97f_273b, -2);
    ZeroStep(12);
    OneAtZero(11, TWO_64 - 2, 0xe97f_273b, 0xbe90_7f17, 12);
    ZeroStep(13);
    OneAtZero(12, TWO_64 - 1, 0xbe90_7f17, 0x9f2a_326e, -8);
  }

  /** A fresh clock read again and again at step zero draws a jitter of -13 at its fifth read; masked,
      that is 2^64 - 13, so the thirteenth read is 2^64 - 1 and the fourteenth is zero. */
  lemma BootWraps()
    ensures var s, polls := Start(true), ZeroPolls(14);
      && RawAt(StateAfter(s, polls[..4]), 0) == -13
      && ReadAt(s, polls, 4) == TWO_64 - 13 && ReadAt(s, polls, 12) == TWO_64 - 1 && ReadAt(s, polls, 13) == 0
  {
    hide Rdtsc, Xorshift, Jitter, RawAt, StateAfter;
    Draws();
    Jitters();
    ZeroReadsTo5();
    ZeroReadsTo10();
    ZeroReadsTo14();
    var polls := ZeroPolls(14);
    assert polls[..4] == ZeroPolls(4) && polls[..12] == ZeroPolls(12) && polls[..13] == ZeroPolls(13);
    OneAtZero(3, 14, 0x8f61_68cf, 0xed63_e793, -13);
    OneAtZero(11, TWO_64 - 2, 0xe97f_273b, 0xbe90_7f17, 12);
    OneAtZero(12, TWO_64 - 1, 0xbe90_7f17, 0x9f2a_326e, -8);
  }

  // ------------------------------------------------------------------ polling

  /** The bias a streak of n short intervals from zero accumulates. */
  function Accumulated(n: nat): nat { if n == 0 then 0 else Accumulated(n - 1) + Bonus(n) }

  lemma BonusCap(streak: nat)
    requires streak >= 131
    ensures Bonus(streak) == MAX_BONUS
  {
    var k := streak - 31;
    MulAtLeast(k, 100);
    assert k * k >= 10000 by { SquareAtLeast(k, 100); }
    assert 5000 * k * k == 5000 * (k * k);
  }

  lemma SquareAtLeast(k: nat, n: nat)
    requires k >= n
    ensures k * k >= n * n
  {
    assert k * k == n * n + n * (k - n) + (k - n) * k;
    assert n * (k - n) >= 0 && (k - n) * k >= 0;
  }

  lemma BonusMono(a: nat, b: nat)
    requires a <= b
    ensures Bonus(a) <= Bonus(b)
  {
    if a >= STREAK_LIMIT {
      SquareAtLeast(b - 31, a - 31);
      assert 5000 * (a - 31) * (a - 31) == 5000 * ((a - 31) * (a - 31));
      assert 5000 * (b - 31) * (b - 31) == 5000 * ((b - 31) * (b - 31));
    }
  }

  lemma {:induction false} AccumulatedLow(n: nat)
    requires n >= STREAK_LIMIT
    ensures Accumulated(n) >= 5000
    ensures n >= 130 ==> Accumulated(n) >= 5000 + MAX_BONUS * (n - 130)
    decreases n
  {
    if n > STREAK_LIMIT {
      AccumulatedLow(n - 1);
      if n >= 131 { BonusCap(n); }
    } else {
      assert Bonus(32) == 5000;
    }
  }

  /** Every interval is short. */
  predicate Polling(s: Tsc, polls: seq<int>) {
    && s.timing && s.lastSteps >= 0
    && (polls != [] ==> polls[0] - s.lastSteps < 20000)
    && (forall i | 0 <= i < |polls| :: polls[i] >= 0)
    && (forall i | 0 < i < |polls| :: polls[i] - polls[i - 1] < 20000)
  }

  /** The streak and the bias only grow while the loop polls. */
  lemma {:induction false} PollingGrows(s: Tsc, polls: seq<int>, k: nat)
    requires Polling(s, polls) && k <= |polls|
    ensures var t := StateAfter(s, polls[..k]);
      && t.timing && t.base == s.base && t.streak == s.streak + k && t.bias >= s.bias + Accumulated(k)
      && (s.streak == 0 ==> t.bias == s.bias + Accumulated(k))
      && t.lastSteps == if k == 0 then s.lastSteps else polls[k - 1]
    decreases k
  {
    hide Bonus, Xorshift, Jitter, Drawn, RawNow;
    if k > 0 {
      PollingGrows(s, polls, k - 1);
      AfterStep(s, polls, k - 1);
      BonusMono(k, s.streak + k);
    } else {
      assert polls[..0] == [];
    }
  }

  /** Six times the sum of the first k squares. */
  function SixSquares(k: nat): nat { k * (k + 1) * (2 * k + 1) }

  /** The bias of a streak in closed form. */
  lemma {:induction false} AccumulatedIs(n: nat)
    ensures n <= 31 ==> Accumulated(n) == 0
    ensures 31 <= n <= 131 ==> 6 * Accumulated(n) == 5000 * SixSquares(n - 31)
    ensures n >= 131 ==> Accumulated(n) == 1_691_750_000 + 50_000_000 * (n - 131)
    decreases n
  {
    hide SixSquares;
    if n > 131 {
      AccumulatedIs(n - 1);
      BonusCap(n);
    } else if n > 31 {
      hide Bonus;
      AccumulatedIs(n - 1);
      BonusAt(n);
      NextSquare(n - 32);
      SquaresEnds();
    } else if n > 0 {
      AccumulatedIs(n - 1);
      SquaresEnds();
    } else {
      SquaresEnds();
    }
  }

  lemma SquaresEnds()
    ensures SixSquares(0) == 0 && 5000 * SixSquares(100) == 6 * 1_691_750_000
  {
  }

  lemma BonusAt(n: nat)
    requires 31 < n <= 131
    ensures Bonus(n) == 5000 * ((n - 31) * (n - 31))
  {
    var k := n - 31;
    var s := k * k;
    SquareAtLeast(100, k);
    Scaled(k, s);
  }

  lemma Scaled(k: nat, s: nat)
    requires s == k * k
    ensures 5000 * k * k == 5000 * s
  {
  }

  lemma NextSquare(k: nat)
    ensures SixSquares(k) + 6 * ((k + 1) * (k + 1)) == SixSquares(k + 1)
  {
    var a := k + 1;
    assert k * (2 * k + 1) == 2 * (k * k) + k;
    assert (k + 2) * (2 * k + 3) == 2 * (k * k) + 7 * k + 6;
    assert k * a * (2 * k + 1) == a * (k * (2 * k + 1));
    assert a * (k + 2) * (2 * k + 3) == a * ((k + 2) * (2 * k + 3));
    assert a * (2 * (k * k) + k) + 6 * (a * a) == a * (2 * (k * k) + k + 6 * a);
  }

  /** What polling gains: a loop whose reads are less than 20000 steps apart, from a streak of zero, has its
      clock moved on by nothing in 31 reads, then by the sum of 5000 times the squares, and after 131 reads
      by 50,000,000 a read. */
  lemma PollingGains(s: Tsc, polls: seq<int>)
    requires Polling(s, polls) && s.streak == 0
    ensures var gain := StateAfter(s, polls).bias - s.bias; var n, k := |polls|, |polls| - 31;
      && StateAfter(s, polls).streak == n
      && (n <= 31 ==> gain == 0)
      && (31 <= n <= 131 ==> 6 * gain == 5000 * (k * (k + 1) * (2 * k + 1)))
      && (n >= 131 ==> gain == 1_691_750_000 + 50_000_000 * (n - 131))
  {
    hide Accumulated, StateAfter, Polling;
    assert polls[..|polls|] == polls;
    PollingGrows(s, polls, |polls|);
    AccumulatedIs(|polls|);
  }

  function CeilDiv(n: nat, d: nat): nat
    requires d > 0
  {
    (n + d - 1) / d
  }

  lemma CeilDivEnough(n: nat, d: nat)
    requires d > 0
    ensures d * CeilDiv(n, d) >= n
  {
    assert n + d - 1 == d * CeilDiv(n, d) + (n + d - 1) % d;
  }

  lemma JitterBounds(x: bv32)
    ensures -15 <= Jitter(x) <= 15
  {
  }

  /** However few steps it executes, and even if its clock is negative at first, a loop that polls
      at short intervals has read a value past any deadline below 2^64 within 130 +
      ceil(deadline / 50,000,000) reads after its first. */
  lemma DeadlineReached(s: Tsc, polls: seq<int>, deadline: nat)
    requires Polling(s, polls) && |polls| == 130 + CeilDiv(deadline, 50_000_000)
    requires RawAt(StateAfter(s, polls[..|polls| - 1]), polls[|polls| - 1]) < TWO_64
    ensures exists i: nat :: i < |polls| && ReadAt(s, polls, i) >= deadline
  {
    hide Rdtsc, Jitter, Xorshift, Accumulated, CeilDiv, RawAt;
    var n := |polls|;
    var before := StateAfter(s, polls[..n - 1]);
    PollingGrows(s, polls, n - 1);
    PollingGrows(s, polls, n);
    AfterStep(s, polls, n - 1);
    RawAfter(before, polls[n - 1]);
    AccumulatedLow(n);
    CeilDivEnough(deadline, MAX_BONUS);
    assert RawAt(before, polls[n - 1]) >= deadline;
    AfterStep(s, polls, n - 2);
    ReadPast(StateAfter(s, polls[..n - 2]), polls[n - 2], polls[n - 1]);
    assert ReadAt(s, polls, n - 1) >= deadline || ReadAt(s, polls, n - 2) >= deadline;
  }

  /** Of two reads one is at least the second's raw clock, if that fits in 64 bits. */
  lemma ReadPast(s: Tsc, first: int, second: int)
    requires var t := Rdtsc(s, first).1; 0 <= RawAt(t, second) < TWO_64
    ensures var t := Rdtsc(s, first).1; Rdtsc(t, second).0 >= RawAt(t, second) || Rdtsc(s, first).0 >= RawAt(t, second)
  {
    hide Polled, Jitter, Xorshift;
    var t := Rdtsc(s, first).1;
    ModUnique(RawAt(t, second), TWO_64, 0, RawAt(t, second));
  }

  lemma RawAfter(s: Tsc, steps: int)
    requires steps >= 0
    ensures RawAt(s, steps) >= Rdtsc(s, steps).1.base + Rdtsc(s, steps).1.bias - 15
  {
    hide Jitter, Xorshift, Bonus;
    JitterBounds(Drawn(Polled(s, steps)));
  }

  lemma BonusIs(streak: nat, k: nat, bonus: nat)
    requires streak >= STREAK_LIMIT && k == streak - 31 && bonus == 5000 * k * k
    ensures Bonus(streak) == if bonus > MAX_BONUS then MAX_BONUS else bonus
  {
  }

  lemma BonusNone()
    ensures forall n: nat | n < STREAK_LIMIT :: Bonus(n) == 0
  {
  }

  // ------------------------------------------------------------- the live clock

  class Arch {
    const timing: bool
    var tscBase: nat
    var tscBias: nat
    var lastSteps: int
    var streak: nat
    var lastTsc: nat
    var prng: bv32
    var busyWaitJumps: nat

    function State(): Tsc
      reads this
    {
      Tsc(timing, tscBase, tscBias, lastSteps, streak, lastTsc, prng)
    }

    constructor (timing: bool)
      ensures State() == Start(timing) && busyWaitJumps == 0
    {
      this.timing := timing;
      tscBase, tscBias, lastSteps, streak, lastTsc, prng, busyWaitJumps := 0, 0, -1, 0, 0, 0x9e37_79b1, 0;
    }

    method TscNow(steps: int) returns (t: nat)
      modifies this`prng
      ensures t == RawNow(old(State()), steps) % TWO_64 && prng == Drawn(old(State()))
    {
      hide Xorshift, Jitter;
      var jitter := 0;
      if timing {
        prng := Xorshift(prng);
        jitter := Jitter(prng);
      }
      t := (tscBase + steps * TSC_PER_STEP + tscBias + jitter) % TWO_64;
    }

    method ReadTsc(steps: int) returns (t: nat)
      modifies this
      ensures (t, State()) == Rdtsc(old(State()), steps)
      ensures busyWaitJumps == old(busyWaitJumps) + if old(timing && lastSteps >= 0) && streak >= STREAK_LIMIT then 1 else 0
    {
      hide Xorshift, Jitter, Bonus;
      BonusNone();
      if timing && lastSteps >= 0 {
        var delta := steps - lastSteps;
        if delta < SHORT_INTERVAL { streak := streak + 1; } else { streak := 0; }
        if streak >= STREAK_LIMIT {
          var k := streak - 31;
          var bonus := 5000 * k * k;
          BonusIs(streak, k, bonus);
          if bonus > MAX_BONUS { bonus := MAX_BONUS; }
          tscBias := tscBias + bonus;
          busyWaitJumps := busyWaitJumps + 1;
        }
      }
      lastSteps := steps;
      t := TscNow(steps);
      if t <= lastTsc { t := (lastTsc + 1) % TWO_64; }
      lastTsc := t;
    }
  }
}
