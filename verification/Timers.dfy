/** Kernel timers on the lab clock: arming, cancelling, expiring, and advancing time. */
module Timers {
  import opened Bytes
  import opened Wrappers

  /** Expirations of one timer in one call. */
  const MAX_PER_TIMER: nat := 64
  const MAX_ADVANCE: nat := 100000

  datatype Timer = Timer(va: nat, due: int, period: int, dpc: nat, fired: nat)

  datatype Clock = Clock(tick: int, irql: nat, timers: seq<Timer>)

  /** One expiration: which timer, and the tick it was due. */
  datatype Event = Event(va: nat, due: int)

  predicate DistinctVas(ts: seq<Timer>) { forall i, j | 0 <= i < j < |ts| :: ts[i].va != ts[j].va }

  /** The first timer at va, or the count when there is none. */
  function Find(ts: seq<Timer>, va: nat): (k: nat)
    ensures k <= |ts|
    ensures k < |ts| ==> ts[k].va == va
    ensures forall i | 0 <= i < k :: ts[i].va != va
  {
    if ts == [] || ts[0].va == va then 0 else
      var k := Find(ts[1..], va);
      assert forall i | 0 < i < 1 + k :: ts[i] == ts[1..][i - 1];
      1 + k
  }

  /** setTimer: a pending timer is re-armed in its place and keeps its count. */
  function Set(ts: seq<Timer>, va: nat, due: int, period: int, dpc: nat): (seq<Timer>, bool) {
    var k := Find(ts, va);
    if k < |ts| then (ts[k := ts[k].(due := due, period := period, dpc := dpc)], true)
    else (ts + [Timer(va, due, period, dpc, 0)], false)
  }

  function Cancel(ts: seq<Timer>, va: nat): (seq<Timer>, bool) {
    var k := Find(ts, va);
    if k < |ts| then (ts[..k] + ts[k + 1..], true) else (ts, false)
  }

  /** One timer's expirations at a tick, and the timer as it is left; None when it was a one-shot.
      The limit is tested before the timer is re-armed. */
  function FireOne(t: Timer, tick: int, guard: nat): (seq<int>, Option<Timer>)
    requires guard < MAX_PER_TIMER
    decreases MAX_PER_TIMER - guard
  {
    if tick < t.due then ([], Some(t))
    else
      var t1 := t.(fired := t.fired + 1);
      if guard + 1 >= MAX_PER_TIMER then ([t.due], Some(t1))
      else if t.period > 0 then
        var (dues, left) := FireOne(t1.(due := t.due + t.period), tick, guard + 1);
        ([t.due] + dues, left)
      else ([t.due], None)
  }

  function Events(va: nat, dues: seq<int>): seq<Event> {
    seq(|dues|, i requires 0 <= i < |dues| => Event(va, dues[i]))
  }

  function Kept(t: Option<Timer>): seq<Timer> { if t.Some? then [t.value] else [] }

  /** Every timer in list order. */
  function FireAll(ts: seq<Timer>, tick: int): (seq<Event>, seq<Timer>) {
    if ts == [] then ([], [])
    else
      var n := |ts| - 1;
      var (events, left) := FireAll(ts[..n], tick);
      var (dues, t) := FireOne(ts[n], tick, 0);
      (events + Events(ts[n].va, dues), left + Kept(t))
  }

  /** fireDueTimers: nothing above dispatch level. */
  function FireDue(c: Clock): (Clock, seq<Event>) {
    if c.irql > 2 then (c, [])
    else
      var (events, left) := FireAll(c.timers, c.tick);
      (c.(timers := left), events)
  }

  function Clamp(n: int): (k: nat)
    ensures k <= MAX_ADVANCE
  {
    if n < 0 then 0 else if n > MAX_ADVANCE then MAX_ADVANCE else n
  }

  function Advance(c: Clock, n: int): (Clock, seq<Event>) {
    FireDue(c.(tick := c.tick + Clamp(n)))
  }

  // -------------------------------------------------------------- one timer

  /** How many of due, due + period, ... are at most tick. */
  function Expirations(t: Timer, tick: int): nat {
    if tick < t.due then 0 else if t.period <= 0 then 1 else (tick - t.due) / t.period + 1
  }

  function Dues(due: int, period: int, k: nat): seq<int> { seq(k, i => due + i * period) }

  lemma ExpirationStep(t: Timer, tick: int)
    requires t.period > 0 && tick >= t.due
    ensures Expirations(t, tick) == 1 + Expirations(t.(due := t.due + t.period, fired := t.fired + 1), tick)
  {
    var d, p := tick - t.due, t.period;
    if d < p {
      ModUnique(d, p, 0, d);
    } else {
      assert d == p * (d / p) + d % p;
      assert d - p == p * (d / p - 1) + d % p;
      ModUnique(d - p, p, d / p - 1, d % p);
    }
  }

  lemma DuesStep(due: int, period: int, k: nat)
    ensures Dues(due, period, k + 1) == [due] + Dues(due + period, period, k)
  {
    var a, b := Dues(due, period, k + 1), [due] + Dues(due + period, period, k);
    forall i | 0 <= i < |a|
      ensures a[i] == b[i]
    {
      if i > 0 { assert due + period + (i - 1) * period == due + i * period; }
    }
  }

  function Less(a: nat, b: nat): nat { if a < b then a else b }

  /** Where a periodic timer is left after n expirations with room for room of them: re-armed past
      all of them, or, when the room runs out, one period short of that. */
  function Left(t: Timer, n: nat, room: nat): Timer {
    t.(due := t.due + (if n < room then n else room - 1) * t.period, fired := t.fired + Less(n, room))
  }

  lemma {:induction false} FireOneForm(t: Timer, tick: int, guard: nat)
    requires t.period > 0 && guard < MAX_PER_TIMER
    ensures var n, room := Expirations(t, tick), MAX_PER_TIMER - guard;
      FireOne(t, tick, guard) == (Dues(t.due, t.period, Less(n, room)), Some(Left(t, n, room)))
    decreases MAX_PER_TIMER - guard
  {
    hide Expirations, Dues, Left, FireOne;
    var n, room := Expirations(t, tick), MAX_PER_TIMER - guard;
    FireUnfold(t, tick, guard);
    if tick < t.due {
      NotDue(t, tick, room);
    } else {
      ExpirationStep(t, tick);
      var t1 := t.(due := t.due + t.period, fired := t.fired + 1);
      if room > 1 { FireOneForm(t1, tick, guard + 1); }
      DuesStep(t.due, t.period, Less(n, room) - 1);
      NoDues(t.due + t.period, t.period);
      LeftStep1(t, n, room);
      assert [t.due] + [] == [t.due];
    }
  }

  lemma FireUnfold(t: Timer, tick: int, guard: nat)
    requires t.period > 0 && guard < MAX_PER_TIMER
    ensures var t1 := t.(due := t.due + t.period, fired := t.fired + 1);
      && (tick < t.due ==> FireOne(t, tick, guard) == ([], Some(t)))
      && (tick >= t.due && guard + 1 == MAX_PER_TIMER ==> FireOne(t, tick, guard) == ([t.due], Some(t.(fired := t.fired + 1))))
      && (tick >= t.due && guard + 1 < MAX_PER_TIMER ==>
            FireOne(t, tick, guard) == ([t.due] + FireOne(t1, tick, guard + 1).0, FireOne(t1, tick, guard + 1).1))
  {
  }

  lemma LeftStep1(t: Timer, n: nat, room: nat)
    requires n > 0 && room > 0
    ensures room == 1 ==> Left(t, n, room) == t.(fired := t.fired + 1)
    ensures room > 1 ==> Left(t, n, room) == Left(t.(due := t.due + t.period, fired := t.fired + 1), n - 1, room - 1)
  {
    var k: int := if n - 1 < room - 1 then n - 1 else room - 2;
    assert t.due + t.period + k * t.period == t.due + (k + 1) * t.period;
  }

  lemma NotDue(t: Timer, tick: int, room: nat)
    requires tick < t.due && room > 0
    ensures Expirations(t, tick) == 0 && Dues(t.due, t.period, 0) == [] && Left(t, 0, room) == t
  {
  }

  lemma NoDues(due: int, period: int)
    ensures Dues(due, period, 0) == []
  {
  }

  /** With n expirations due at tick, the n-th later due tick is the first after it. */
  lemma FirstLater(t: Timer, tick: int)
    requires t.period > 0
    ensures var n := Expirations(t, tick);
      tick < t.due + n * t.period && (n > 0 ==> t.due + (n - 1) * t.period <= tick)
  {
    if tick >= t.due {
      var d, p := tick - t.due, t.period;
      assert d == p * (d / p) + d % p;
      assert (d / p + 1) * p == p * (d / p) + p;
      assert (d / p) * p == p * (d / p);
    }
  }

  /** A one-shot fires once and goes. A periodic timer fires once for each due tick up to now, 64 at most,
      in order; it is left at the first later one exactly when fewer than 64 were due, and else one period
      short of where it fired last. */
  lemma FiresEach(t: Timer, tick: int)
    ensures var (dues, left) := FireOne(t, tick, 0); var n := Expirations(t, tick);
      && (t.period <= 0 ==> (dues, left) == if tick < t.due then ([], Some(t)) else ([t.due], None))
      && (t.period > 0 ==> left.Some? && |dues| == Less(n, 64) && forall i | 0 <= i < |dues| :: dues[i] == t.due + i * t.period)
      && (t.period > 0 ==> (left.value.due > tick <==> n < 64))
      && (t.period > 0 && n < 64 ==>
            && left.value == t.(due := t.due + n * t.period, fired := t.fired + n)
            && (forall k: nat :: t.due + k * t.period <= tick ==> k < |dues|))
      && (t.period > 0 && n >= 64 ==> left.value == t.(due := t.due + 63 * t.period, fired := t.fired + 64))
      && (forall i | 0 <= i < |dues| :: dues[i] <= tick)
  {
    if t.period > 0 {
      FireOneForm(t, tick, 0);
      FirstLater(t, tick);
      var n := Expirations(t, tick);
      if n >= MAX_PER_TIMER {
        MulMono(MAX_PER_TIMER - 1, n - 1, t.period);
      } else {
        forall k: nat | t.due + k * t.period <= tick
          ensures k < n
        {
          if k >= n { MulMono(n, k, t.period); }
        }
      }
      var dues := FireOne(t, tick, 0).0;
      forall i | 0 <= i < |dues|
        ensures dues[i] <= tick
      {
        MulMono(i, n - 1, t.period);
      }
    }
  }

  /** How many ticks an advance by n moves the clock. */
  lemma ClampMeans(n: int)
    ensures n <= 0 ==> Clamp(n) == 0
    ensures 0 <= n <= 100000 ==> Clamp(n) == n
    ensures n >= 100000 ==> Clamp(n) == 100000
  {
  }

  /** Advancing always moves the clock. Above dispatch level, IRQL 2, nothing expires and no timer changes;
      at or below it each timer expires by itself, and no other address does. */
  lemma AdvanceMeans(c: Clock, n: int, va: nat)
    requires DistinctVas(c.timers)
    ensures var (c', events) := Advance(c, n); var tick := c.tick + Clamp(n);
      && c' == c.(tick := tick, timers := c'.timers)
      && (c.irql > 2 ==> events == [] && c'.timers == c.timers)
      && (c.irql <= 2 ==>
            match Lookup(c.timers, va)
            case None => Of(events, va) == [] && Lookup(c'.timers, va) == None
            case Some(t) => Of(events, va) == FireOne(t, tick, 0).0 && Lookup(c'.timers, va) == FireOne(t, tick, 0).1)
  {
    hide FireOne, Lookup, Clamp;
    FireAllAt(c.timers, c.tick + Clamp(n), va);
  }

  lemma MulMono(a: int, b: int, p: int)
    requires a <= b && p >= 0
    ensures a * p <= b * p
  {
    assert b * p == a * p + (b - a) * p;
  }

  // --------------------------------------------------- advancing in two steps

  /** The timer's state after m ticks, then after n more, as one result. */
  function FireTwice(t: Timer, mid: int, end: int): (seq<int>, Option<Timer>) {
    var (dues, left) := FireOne(t, mid, 0);
    match left
    case None => (dues, None)
    case Some(t1) =>
      var (more, left1) := FireOne(t1, end, 0);
      (dues + more, left1)
  }

  /** When two steps come to the same as one. */
  predicate Splits(t: Timer, mid: int, end: int) {
    t.period <= 0 || Expirations(t, end) < MAX_PER_TIMER || Expirations(t, mid) == 0
  }

  lemma ExpirationsAfter(t: Timer, mid: int, end: int, k: nat)
    requires t.period > 0 && mid <= end && k <= Expirations(t, end)
    ensures Expirations(t.(due := t.due + k * t.period, fired := t.fired + k), end) == Expirations(t, end) - k
    ensures Expirations(t, mid) <= Expirations(t, end)
  {
    var p := t.period;
    if end >= t.due {
      var d := end - t.due;
      var q, r := d / p, d % p;
      assert d == p * q + r;
      if k <= q {
        assert d - k * p == p * (q - k) + r by { assert p * (q - k) == p * q - k * p; }
        assert p * (q - k) >= 0;
        ModUnique(d - k * p, p, q - k, r);
      } else {
        assert k * p == p * q + p by { assert k == q + 1; }
      }
      if mid >= t.due { DivMono(mid - t.due, d, p); }
    }
  }

  lemma DivMono(a: nat, b: nat, p: int)
    requires p > 0 && a <= b
    ensures a / p <= b / p
  {
    assert a == p * (a / p) + a % p && b == p * (b / p) + b % p;
    if a / p > b / p { MulMono(b / p + 1, a / p, p); }
  }

  lemma DuesAppend(due: int, period: int, a: nat, b: nat)
    ensures Dues(due, period, a) + Dues(due + a * period, period, b) == Dues(due, period, a + b)
  {
    var s, u := Dues(due, period, a) + Dues(due + a * period, period, b), Dues(due, period, a + b);
    forall i | 0 <= i < |s|
      ensures s[i] == u[i]
    {
      if i >= a { assert due + a * period + (i - a) * period == due + i * period; }
    }
  }

  /** For one timer, two steps fire the same ticks and leave the same timer as one, exactly when it
      is a one-shot, or fewer than 64 expirations fall due in all, or none in the first step. */
  lemma SplitIff(t: Timer, mid: int, end: int)
    requires mid <= end
    ensures FireTwice(t, mid, end) == FireOne(t, end, 0) <==> Splits(t, mid, end)
  {
    hide Expirations, Dues;
    if t.period <= 0 {
      OneShotSplit(t, mid, end);
    } else {
      var a, n := Expirations(t, mid), Expirations(t, end);
      FireOneForm(t, mid, 0);
      FireOneForm(t, end, 0);
      ExpirationsAfter(t, mid, end, 0);
      if a == 0 {
        LeftNone(t);
      } else if n < MAX_PER_TIMER {
        SplitFew(t, mid, end);
      } else {
        SplitMany(t, mid, end);
      }
    }
  }

  lemma OneShotSplit(t: Timer, mid: int, end: int)
    requires mid <= end && t.period <= 0
    ensures FireTwice(t, mid, end) == FireOne(t, end, 0)
  {
    var more := FireOne(t, end, 0).0;
    assert [] + more == more;
  }

  lemma LeftNone(t: Timer)
    ensures Left(t, 0, MAX_PER_TIMER) == t && Dues(t.due, t.period, 0) == []
    ensures forall s: seq<int> :: [] + s == s
  {
  }

  lemma SplitFew(t: Timer, mid: int, end: int)
    requires mid <= end && t.period > 0 && Expirations(t, end) < MAX_PER_TIMER
    ensures FireTwice(t, mid, end) == FireOne(t, end, 0)
  {
    hide Expirations, Dues, FireOne;
    var a, n := Expirations(t, mid), Expirations(t, end);
    ExpirationsAfter(t, mid, end, 0);
    ExpirationsAfter(t, mid, end, a);
    FireOneForm(t, mid, 0);
    FireOneForm(t, end, 0);
    var t1 := Left(t, a, MAX_PER_TIMER);
    FireOneForm(t1, end, 0);
    DuesAppend(t.due, t.period, a, n - a);
    assert t.due + a * t.period + (n - a) * t.period == t.due + n * t.period;
  }

  /** Past the limit the two-step run fires more, or leaves the timer re-armed further on. */
  lemma SplitMany(t: Timer, mid: int, end: int)
    requires mid <= end && t.period > 0 && Expirations(t, end) >= MAX_PER_TIMER && Expirations(t, mid) > 0
    ensures FireTwice(t, mid, end) != FireOne(t, end, 0)
    ensures |FireTwice(t, mid, end).0| > MAX_PER_TIMER || FireTwice(t, mid, end).1 != FireOne(t, end, 0).1
  {
    hide Expirations, FireOne;
    var a, n := Expirations(t, mid), Expirations(t, end);
    FireOneForm(t, mid, 0);
    FireOneForm(t, end, 0);
    var k := if a < MAX_PER_TIMER then a else MAX_PER_TIMER - 1;
    var t1 := Left(t, a, MAX_PER_TIMER);
    ExpirationsAfter(t, mid, end, 0);
    ExpirationsAfter(t, mid, end, k);
    SameDue(t1, t.(due := t.due + k * t.period, fired := t.fired + k), end);
    FireOneForm(t1, end, 0);
    var left := Expirations(t1, end);
    assert left == n - k;
    if a < MAX_PER_TIMER && left < MAX_PER_TIMER {
      var two := Left(t1, left, MAX_PER_TIMER);
      assert two.due == t.due + a * t.period + (n - a) * t.period;
      assert a * t.period + (n - a) * t.period == n * t.period;
      MulMono(MAX_PER_TIMER, n, t.period);
    }
  }

  lemma SameDue(t: Timer, u: Timer, tick: int)
    requires t.due == u.due && t.period == u.period
    ensures Expirations(t, tick) == Expirations(u, tick)
  {
  }

  // -------------------------------------------------------------- all timers

  /** The due ticks of one timer's expirations, in order. */
  function Of(events: seq<Event>, va: nat): seq<int> {
    if events == [] then []
    else
      var n := |events| - 1;
      Of(events[..n], va) + if events[n].va == va then [events[n].due] else []
  }

  function Lookup(ts: seq<Timer>, va: nat): Option<Timer> {
    var k := Find(ts, va);
    if k < |ts| then Some(ts[k]) else None
  }

  lemma {:induction false} OfAppend(a: seq<Event>, b: seq<Event>, va: nat)
    ensures Of(a + b, va) == Of(a, va) + Of(b, va)
    decreases |b|
  {
    if b == [] {
      assert a + b == a;
    } else {
      var n := |b| - 1;
      OfAppend(a, b[..n], va);
      assert (a + b)[..|a + b| - 1] == a + b[..n];
    }
  }

  lemma {:induction false} OfEvents(va: nat, dues: seq<int>, other: nat)
    ensures Of(Events(va, dues), other) == if va == other then dues else []
    decreases |dues|
  {
    if dues != [] {
      var n := |dues| - 1;
      OfEvents(va, dues[..n], other);
      assert Events(va, dues)[..n] == Events(va, dues[..n]);
    }
  }

  lemma FindUnique(ts: seq<Timer>, va: nat, k: nat)
    requires k <= |ts| && (k < |ts| ==> ts[k].va == va) && forall i | 0 <= i < k :: ts[i].va != va
    ensures Find(ts, va) == k
  {
  }

  lemma LookupStep(a: seq<Timer>, t: Timer, va: nat)
    ensures Lookup(a + [t], va) == if Lookup(a, va).Some? then Lookup(a, va) else if t.va == va then Some(t) else None
  {
    var k := Find(a, va);
    if k < |a| {
      FindUnique(a + [t], va, k);
    } else {
      FindUnique(a + [t], va, if t.va == va then |a| else |a| + 1);
    }
  }

  lemma FireOneVa(t: Timer, tick: int, guard: nat)
    requires guard < MAX_PER_TIMER
    ensures FireOne(t, tick, guard).1.Some? ==> FireOne(t, tick, guard).1.value.va == t.va
    decreases MAX_PER_TIMER - guard
  {
  }

  /** Seen through any one address, firing all timers is firing that one. */
  lemma {:induction false} FireAllAt(ts: seq<Timer>, tick: int, va: nat)
    requires DistinctVas(ts)
    ensures var (events, left) := FireAll(ts, tick);
      match Lookup(ts, va)
      case None => Of(events, va) == [] && Lookup(left, va) == None
      case Some(t) => Of(events, va) == FireOne(t, tick, 0).0 && Lookup(left, va) == FireOne(t, tick, 0).1
    decreases |ts|
  {
    hide FireOne, Lookup;
    if ts != [] {
      var n := |ts| - 1;
      FireAllAt(ts[..n], tick, va);
      assert ts == ts[..n] + [ts[n]];
      LookupStep(ts[..n], ts[n], va);
      LastDistinct(ts);
      var (events, left) := FireAll(ts[..n], tick);
      var (dues, t) := FireOne(ts[n], tick, 0);
      OfAppend(events, Events(ts[n].va, dues), va);
      OfEvents(ts[n].va, dues, va);
      FireOneVa(ts[n], tick, 0);
      KeptLookup(left, t, va);
    } else {
      EmptyLookup(va);
    }
  }

  lemma EmptyLookup(va: nat)
    ensures Lookup([], va) == None
  {
  }

  lemma KeptLookup(left: seq<Timer>, t: Option<Timer>, va: nat)
    ensures Lookup(left + Kept(t), va) ==
      if Lookup(left, va).Some? then Lookup(left, va) else if t.Some? && t.value.va == va then t else None
  {
    hide Lookup;
    if t.Some? { LookupStep(left, t.value, va); } else { assert left + Kept(t) == left; }
  }

  lemma LastDistinct(ts: seq<Timer>)
    requires ts != [] && DistinctVas(ts)
    ensures DistinctVas(ts[..|ts| - 1]) && Lookup(ts[..|ts| - 1], ts[|ts| - 1].va) == None
  {
    var n := |ts| - 1;
    FindUnique(ts[..n], ts[n].va, n);
  }

  lemma {:induction false} LeftVas(ts: seq<Timer>, tick: int)
    requires DistinctVas(ts)
    ensures DistinctVas(FireAll(ts, tick).1)
    ensures forall i | 0 <= i < |FireAll(ts, tick).1| :: exists j :: 0 <= j < |ts| && ts[j].va == FireAll(ts, tick).1[i].va
  {
    hide FireOne;
    if ts != [] {
      var n := |ts| - 1;
      LeftVas(ts[..n], tick);
      FireOneVa(ts[n], tick, 0);
      var before, left := FireAll(ts[..n], tick).1, FireAll(ts, tick).1;
      assert left == before + Kept(FireOne(ts[n], tick, 0).1);
      forall i | 0 <= i < |left|
        ensures exists j :: 0 <= j < |ts| && ts[j].va == left[i].va
        ensures i < |before| ==> left[i].va != ts[n].va
      {
        if i < |before| {
          var j :| 0 <= j < n && ts[..n][j].va == before[i].va;
          assert ts[j].va == left[i].va;
        }
      }
    }
  }

  /** The list after two steps, timer by timer. */
  lemma {:induction false} LeftTwice(ts: seq<Timer>, mid: int, end: int)
    requires forall i | 0 <= i < |ts| :: FireTwice(ts[i], mid, end).1 == FireOne(ts[i], end, 0).1
    ensures FireAll(FireAll(ts, mid).1, end).1 == FireAll(ts, end).1
  {
    hide FireOne, FireAll, FireTwice;
    if ts != [] {
      var n := |ts| - 1;
      forall i | 0 <= i < n
        ensures FireTwice(ts[..n][i], mid, end).1 == FireOne(ts[..n][i], end, 0).1
      {
        assert ts[..n][i] == ts[i];
      }
      LeftTwice(ts[..n], mid, end);
      LeftStep(ts, mid);
      LeftStep(ts, end);
      LeftPlus(FireAll(ts[..n], mid).1, FireOne(ts[n], mid, 0).1, end);
      TwiceLeft(ts[n], mid, end);
    } else {
      assert ts == [];
      NoneFire(mid);
      NoneFire(end);
    }
  }

  lemma NoneFire(tick: int)
    ensures FireAll([], tick) == ([], [])
  {
  }

  lemma LeftStep(ts: seq<Timer>, tick: int)
    requires ts != []
    ensures var n := |ts| - 1; FireAll(ts, tick).1 == FireAll(ts[..n], tick).1 + Kept(FireOne(ts[n], tick, 0).1)
  {
    hide FireOne;
  }

  lemma LeftPlus(left: seq<Timer>, t: Option<Timer>, tick: int)
    ensures FireAll(left + Kept(t), tick).1 == FireAll(left, tick).1 + if t.Some? then Kept(FireOne(t.value, tick, 0).1) else []
  {
    hide FireOne, FireAll;
    if t.Some? {
      LeftStep(left + [t.value], tick);
      assert (left + [t.value])[..|left|] == left;
    } else {
      assert left + Kept(t) == left;
    }
  }

  lemma TwiceLeft(t: Timer, mid: int, end: int)
    ensures Kept(FireTwice(t, mid, end).1) ==
      (var o := FireOne(t, mid, 0).1; if o.Some? then Kept(FireOne(o.value, end, 0).1) else [])
  {
    hide FireOne;
  }

  /** Two advances against one, as a caller sees them: the clock afterwards, and each timer's
      expirations in order. */
  ghost predicate SameAdvance(c: Clock, m: nat, n: nat) {
    var (c1, e1) := Advance(c, m);
    var (c2, e2) := Advance(c1, n);
    var (c3, e3) := Advance(c, m + n);
    c2 == c3 && forall va: nat :: Of(e1, va) + Of(e2, va) == Of(e3, va)
  }

  /** Advancing m ticks and then n fires the same and leaves the same clock as advancing m + n,
      exactly when every timer splits: none has 64 or more expirations due in all with some of
      them in the first step. */
  lemma AdvanceSplit(c: Clock, m: nat, n: nat)
    requires c.irql <= 2 && DistinctVas(c.timers) && m + n <= MAX_ADVANCE
    ensures SameAdvance(c, m, n) <==> forall i | 0 <= i < |c.timers| :: Splits(c.timers[i], c.tick + m, c.tick + m + n)
  {
    hide FireOne, FireAll, Splits, Of, Lookup, FireTwice;
    var mid, end := c.tick + m, c.tick + m + n;
    forall i | 0 <= i < |c.timers|
      ensures FireTwice(c.timers[i], mid, end) == FireOne(c.timers[i], end, 0) <==> Splits(c.timers[i], mid, end)
    {
      SplitIff(c.timers[i], mid, end);
    }
    if SameAdvance(c, m, n) {
      forall i | 0 <= i < |c.timers|
        ensures Splits(c.timers[i], mid, end)
      {
        SeenAt(c.timers, mid, end, c.timers[i].va);
        LookupAt(c.timers, i);
      }
    }
    if forall i | 0 <= i < |c.timers| :: Splits(c.timers[i], mid, end) {
      LeftTwice(c.timers, mid, end);
      forall va: nat
        ensures Of(FireAll(c.timers, mid).0, va) + Of(FireAll(FireAll(c.timers, mid).1, end).0, va) == Of(FireAll(c.timers, end).0, va)
      {
        SeenAt(c.timers, mid, end, va);
        LookupIn(c.timers, va);
      }
    }
  }

  lemma LookupAt(ts: seq<Timer>, i: nat)
    requires i < |ts| && DistinctVas(ts)
    ensures Lookup(ts, ts[i].va) == Some(ts[i])
  {
    FindUnique(ts, ts[i].va, i);
  }

  lemma LookupIn(ts: seq<Timer>, va: nat)
    ensures Lookup(ts, va).Some? ==> exists i :: 0 <= i < |ts| && ts[i] == Lookup(ts, va).value
  {
  }

  lemma SeenAt(ts: seq<Timer>, mid: int, end: int, va: nat)
    requires DistinctVas(ts)
    ensures var (e1, left) := FireAll(ts, mid);
      var (e2, left2) := FireAll(left, end);
      match Lookup(ts, va)
      case None => Of(e1, va) == [] && Of(e2, va) == [] && Of(FireAll(ts, end).0, va) == []
      case Some(t) =>
        && FireTwice(t, mid, end) == (Of(e1, va) + Of(e2, va), Lookup(left2, va))
        && FireOne(t, end, 0) == (Of(FireAll(ts, end).0, va), Lookup(FireAll(ts, end).1, va))
  {
    hide FireOne, FireAll, Of, Lookup;
    LeftVas(ts, mid);
    FireAllAt(ts, mid, va);
    FireAllAt(FireAll(ts, mid).1, end, va);
    FireAllAt(ts, end, va);
    if Lookup(ts, va).Some? && FireOne(Lookup(ts, va).value, mid, 0).1.None? {
      var d := FireOne(Lookup(ts, va).value, mid, 0).0;
      assert d + [] == d;
    }
  }

  /** Every operation keeps timer addresses distinct. */
  lemma StaysDistinct(c: Clock, va: nat, due: int, period: int, dpc: nat, n: int)
    requires DistinctVas(c.timers)
    ensures DistinctVas(Set(c.timers, va, due, period, dpc).0) && DistinctVas(Cancel(c.timers, va).0) && DistinctVas(Advance(c, n).0.timers)
  {
    hide FireAll;
    LeftVas(c.timers, c.tick + Clamp(n));
  }

  /** Arming and cancelling touch one timer: a re-armed one keeps its count, a new one starts at
      zero, and each answer says whether the timer was pending. */
  lemma SetCancel(ts: seq<Timer>, va: nat, due: int, period: int, dpc: nat, other: nat)
    requires DistinctVas(ts)
    ensures var (armed, pending) := Set(ts, va, due, period, dpc);
      && pending == Lookup(ts, va).Some?
      && Lookup(armed, va) == Some(Timer(va, due, period, dpc, if pending then Lookup(ts, va).value.fired else 0))
      && (other != va ==> Lookup(armed, other) == Lookup(ts, other))
    ensures var (rest, found) := Cancel(ts, va);
      && found == Lookup(ts, va).Some? && Lookup(rest, va) == None
      && (other != va ==> Lookup(rest, other) == Lookup(ts, other))
  {
    var k, j := Find(ts, va), Find(ts, other);
    var armed, rest := Set(ts, va, due, period, dpc).0, Cancel(ts, va).0;
    FindUnique(armed, va, k);
    if other != va {
      FindUnique(armed, other, if j < |ts| then j else |armed|);
      FindUnique(rest, other, if j < |ts| then (if k < j then j - 1 else j) else |rest|);
    }
    FindUnique(rest, va, |rest|);
  }
}
