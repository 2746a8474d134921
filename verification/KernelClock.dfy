/** The kernel's timer list as it runs: one list updated in place while its snapshot is walked. */
module KernelClock {
  import opened Wrappers
  import opened Timers

  class KernelClock {
    var tickCount: int
    var currentIrql: nat
    var pendingTimers: seq<Timer>
    /** The expiration log. */
    var expired: seq<Event>

    ghost function Value(): Clock
      reads this
    {
      Clock(tickCount, currentIrql, pendingTimers)
    }

    constructor ()
      ensures Value() == Clock(0, 2, []) && expired == []
    {
      tickCount, currentIrql, pendingTimers, expired := 0, 2, [], [];
    }

    method FindTimer(va: nat) returns (k: nat)
      ensures k == Find(pendingTimers, va)
    {
      k := 0;
      while k < |pendingTimers| && pendingTimers[k].va != va
        invariant k <= |pendingTimers| && forall i | 0 <= i < k :: pendingTimers[i].va != va
        decreases |pendingTimers| - k
      {
        k := k + 1;
      }
      FindUnique(pendingTimers, va, k);
    }

    method SetTimer(va: nat, due: int, period: int, dpc: nat) returns (pending: bool)
      modifies this`pendingTimers
      ensures (pendingTimers, pending) == Set(old(pendingTimers), va, due, period, dpc)
    {
      var k := FindTimer(va);
      if k < |pendingTimers| {
        pendingTimers := pendingTimers[k := pendingTimers[k].(due := due, period := period, dpc := dpc)];
        return true;
      }
      pendingTimers := pendingTimers + [Timer(va, due, period, dpc, 0)];
      return false;
    }

    method CancelTimer(va: nat) returns (found: bool)
      modifies this`pendingTimers
      ensures (pendingTimers, found) == Cancel(old(pendingTimers), va)
    {
      var k := FindTimer(va);
      if k >= |pendingTimers| { return false; }
      pendingTimers := pendingTimers[..k] + pendingTimers[k + 1..];
      return true;
    }

    /** One timer of the snapshot, at place k of the list: it is updated in place at every
        expiration and taken out when it is a one-shot. */
    method FireTimer(k: nat) returns (fired: nat)
      requires k < |pendingTimers| && DistinctVas(pendingTimers)
      modifies this`pendingTimers, this`expired
      ensures var (dues, left) := FireOne(old(pendingTimers[k]), tickCount, 0);
        && fired == |dues| && expired == old(expired) + Events(old(pendingTimers[k]).va, dues)
        && pendingTimers == old(pendingTimers)[..k] + Kept(left) + old(pendingTimers)[k + 1..]
    {
      hide FireOne;
      ghost var t0, list0, log0 := pendingTimers[k], pendingTimers, expired;
      ghost var all := FireOne(t0, tickCount, 0);
      ghost var done: seq<int> := [];
      fired := 0;
      assert Events(t0.va, []) == [] && [] + all.0 == all.0;
      assert list0[..k] + [t0] + list0[k + 1..] == list0;
      while tickCount >= pendingTimers[k].due
        invariant fired == |done| && fired < MAX_PER_TIMER
        invariant k < |pendingTimers| && pendingTimers[k].va == t0.va
        invariant pendingTimers == list0[k := pendingTimers[k]]
        invariant expired == log0 + Events(t0.va, done)
        invariant done + FireOne(pendingTimers[k], tickCount, fired).0 == all.0 && FireOne(pendingTimers[k], tickCount, fired).1 == all.1
        decreases MAX_PER_TIMER - fired
      {
        var t := pendingTimers[k];
        FireStep(t, tickCount, fired, done);
        fired := fired + 1;
        expired := expired + [Event(t.va, t.due)];
        EventsStep(t0.va, done, t.due);
        done := done + [t.due];
        pendingTimers := pendingTimers[k := t.(fired := t.fired + 1)];
        if fired >= MAX_PER_TIMER {
          InPlace(list0, k, pendingTimers[k]);
          return;
        }
        if t.period > 0 {
          pendingTimers := pendingTimers[k := pendingTimers[k].(due := t.due + t.period)];
        } else {
          ghost var now := pendingTimers;
          assert forall i | 0 <= i < k :: now[i] == list0[i];
          FindUnique(now, t.va, k);
          var _ := CancelTimer(t.va);
          assert now[..k] == list0[..k] && now[k + 1..] == list0[k + 1..];
          return;
        }
      }
      FireStop(pendingTimers[k], tickCount, fired, done);
      InPlace(list0, k, pendingTimers[k]);
    }

    /** fireDueTimers. The snapshot is the list as it was; what is before place k of the list is
        what the walked part of the snapshot left. */
    method FireDueTimers() returns (fired: nat)
      requires DistinctVas(pendingTimers)
      modifies this`pendingTimers, this`expired
      ensures var (c, events) := FireDue(old(Value()));
        Value() == c && expired == old(expired) + events && fired == |events|
    {
      hide FireOne, FireAll, Events;
      fired := 0;
      if currentIrql > 2 { return; }
      var snapshot := pendingTimers;
      ghost var log0 := expired;
      var k := 0;
      assert snapshot[..0] == [] && log0 + [] == log0;
      assert [] + snapshot[0..] == snapshot;
      NoneFire(tickCount);
      for i := 0 to |snapshot|
        invariant DistinctVas(pendingTimers)
        invariant k == |FireAll(snapshot[..i], tickCount).1| && pendingTimers == FireAll(snapshot[..i], tickCount).1 + snapshot[i..]
        invariant expired == log0 + FireAll(snapshot[..i], tickCount).0 && fired == |FireAll(snapshot[..i], tickCount).0|
      {
        ghost var left, was, events := FireAll(snapshot[..i], tickCount).1, pendingTimers, FireAll(snapshot[..i], tickCount).0;
        assert pendingTimers[k] == snapshot[i];
        var n := FireTimer(k);
        fired := fired + n;
        FirePrefix(snapshot, i, tickCount);
        assert was[..k] == left && was[k + 1..] == snapshot[i + 1..];
        ghost var fire := FireOne(snapshot[i], tickCount, 0);
        assert log0 + events + Events(snapshot[i].va, fire.0) == log0 + (events + Events(snapshot[i].va, fire.0));
        FireOneVa(snapshot[i], tickCount, 0);
        KeptDistinct(was, k, fire.1);
        k := |pendingTimers| - (|snapshot| - (i + 1));
      }
      assert snapshot[..|snapshot|] == snapshot;
    }

    method AdvanceTicks(n: int) returns (ticks: nat, fired: nat)
      requires DistinctVas(pendingTimers)
      modifies this
      ensures var (c, events) := Advance(old(Value()), n);
        Value() == c && expired == old(expired) + events && fired == |events| && ticks == Clamp(n)
    {
      hide FireDue;
      ticks := Clamp(n);
      tickCount := tickCount + ticks;
      fired := FireDueTimers();
    }
  }

  lemma KeptDistinct(ts: seq<Timer>, k: nat, t: Option<Timer>)
    requires DistinctVas(ts) && k < |ts| && (t.Some? ==> t.value.va == ts[k].va)
    ensures DistinctVas(ts[..k] + Kept(t) + ts[k + 1..])
  {
    var s := ts[..k] + Kept(t) + ts[k + 1..];
    if t.Some? {
      assert forall i | 0 <= i < |s| :: s[i].va == ts[i].va;
    } else {
      assert forall i | 0 <= i < |s| :: s[i] == ts[if i < k then i else i + 1];
    }
  }

  lemma FirePrefix(ts: seq<Timer>, i: nat, tick: int)
    requires i < |ts|
    ensures var (events, left) := FireAll(ts[..i], tick);
      var (dues, t) := FireOne(ts[i], tick, 0);
      FireAll(ts[..i + 1], tick) == (events + Events(ts[i].va, dues), left + Kept(t)) && |Events(ts[i].va, dues)| == |dues|
  {
    hide FireOne;
    assert ts[..i + 1][..i] == ts[..i];
  }

  lemma InPlace(ts: seq<Timer>, k: nat, t: Timer)
    requires k < |ts|
    ensures ts[k := t] == ts[..k] + [t] + ts[k + 1..]
  {
  }

  lemma EventsStep(va: nat, dues: seq<int>, due: int)
    ensures Events(va, dues + [due]) == Events(va, dues) + [Event(va, due)]
  {
  }

  lemma FireStep(t: Timer, tick: int, guard: nat, done: seq<int>)
    requires guard < MAX_PER_TIMER && tick >= t.due
    ensures var (dues, left) := FireOne(t, tick, guard);
      if guard + 1 >= MAX_PER_TIMER then done + dues == done + [t.due] && left == Some(t.(fired := t.fired + 1))
      else if t.period > 0 then
        var next := FireOne(t.(fired := t.fired + 1, due := t.due + t.period), tick, guard + 1);
        done + dues == done + [t.due] + next.0 && left == next.1
      else done + dues == done + [t.due] && left == None
  {
    if guard + 1 < MAX_PER_TIMER && t.period > 0 {
      var next := FireOne(t.(fired := t.fired + 1, due := t.due + t.period), tick, guard + 1);
      assert done + ([t.due] + next.0) == done + [t.due] + next.0;
    }
  }

  lemma FireStop(t: Timer, tick: int, guard: nat, done: seq<int>)
    requires guard < MAX_PER_TIMER && tick < t.due
    ensures FireOne(t, tick, guard) == ([], Some(t)) && done + [] == done
  {
  }
}
