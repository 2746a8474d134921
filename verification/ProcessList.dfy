/** Seeding the process records and their list, and reading it back. */
module ProcessList {
  import opened Bytes
  import opened Store
  import opened Wrappers
  import opened ProcessRing
  import opened Memory

  datatype Layout = Layout(size: nat, links: nat, pid: nat, name: nat, protection: Option<nat>)

  predicate FieldsApart(a: nat, n: nat, b: nat, k: nat) { a + n <= b || b + k <= a }

  /** The fields the kernel writes lie inside the record and do not overlap. */
  predicate LayoutOk(l: Layout) {
    && l.links + 16 <= l.size && l.pid + 8 <= l.size && l.name + 15 <= l.size
    && FieldsApart(l.links, 16, l.pid, 8) && FieldsApart(l.links, 16, l.name, 15) && FieldsApart(l.pid, 8, l.name, 15)
    && (l.protection.Some? ==>
          && l.protection.value < l.size && FieldsApart(l.protection.value, 1, l.links, 16)
          && FieldsApart(l.protection.value, 1, l.pid, 8) && FieldsApart(l.protection.value, 1, l.name, 15))
  }

  datatype Process = Process(pid: nat, name: Name, protected: bool)

  predicate ProcessOk(p: Process) { p.pid < TWO_64 && forall i | 0 <= i < |p.name| :: p.name[i] != 0 }

  const NAME_MAX: nat := 15

  /** What fits of a name beside its terminator. */
  function Stem(name: seq<Byte>): (s: seq<Byte>)
    ensures |s| < NAME_MAX
  {
    if |name| <= NAME_MAX - 1 then name else name[..NAME_MAX - 1]
  }

  /** readAnsi: up to max bytes, stopping before a zero. */
  function AnsiAt(m: Store, a: nat, max: nat): seq<Byte>
    decreases max
  {
    if max == 0 || Get(m, a) == 0 then [] else [Get(m, a)] + AnsiAt(m, a + 1, max - 1)
  }

  function SeedOne(m: Store, e: nat, p: Process, l: Layout): Store {
    var m1 := W64(m, e + l.pid, p.pid);
    var m2 := Put(m1, e + l.name, Stem(p.name) + [0]);
    if p.protected && l.protection.Some? then Put(m2, e + l.protection.value, [0x26]) else m2
  }

  function SeedAll(m: Store, e: nat, procs: seq<Process>, l: Layout): Store
    decreases |procs|
  {
    if procs == [] then m else SeedAll(SeedOne(m, e, procs[0], l), e + l.size, procs[1..], l)
  }

  function EprocAt(head: nat, l: Layout, i: nat): nat { head + 16 + i * l.size }

  function LinkFields(head: nat, n: nat, l: Layout): seq<nat> {
    seq(n, i requires 0 <= i < n => EprocAt(head, l, i) + l.links)
  }

  /** The first k entries linked both ways. */
  function LinkTo(m: Store, head: nat, links: seq<nat>, k: nat): Store
    requires k <= |links|
  {
    if k == 0 then m
    else
      var m1 := LinkTo(m, head, links, k - 1);
      W64(W64(m1, links[k - 1], Next(head, links, k - 1)), links[k - 1] + 8, Prev(head, links, k - 1))
  }

  function Booted(m: Store, head: nat, procs: seq<Process>, l: Layout): Store
    requires procs != []
  {
    var links := LinkFields(head, |procs|, l);
    var m1 := LinkTo(SeedAll(m, head + 16, procs, l), head, links, |links|);
    W64(W64(m1, head, links[0]), head + 8, links[|links| - 1])
  }

  datatype Listed = Listed(pid: nat, name: seq<Byte>, eprocess: int)

  function ListedAt(m: Store, link: nat, l: Layout): Listed
    requires link >= l.links
  {
    var e := link - l.links;
    Listed(U64(m, e + l.pid), AnsiAt(m, e + l.name, NAME_MAX), e)
  }

  function ListOf(m: Store, links: seq<nat>, l: Layout): seq<Listed>
    requires forall i | 0 <= i < |links| :: links[i] >= l.links
  {
    seq(|links|, i requires 0 <= i < |links| => ListedAt(m, links[i], l))
  }

  // ----------------------------------------------------------------- records

  ghost predicate Kept(m: Store, m': Store, a: nat, n: nat) {
    forall x: nat | a <= x < a + n :: Get(m', x) == Get(m, x)
  }

  ghost predicate RecordOk(m: Store, e: nat, p: Process, l: Layout) {
    && U64(m, e + l.pid) == p.pid && AnsiAt(m, e + l.name, 15) == Stem(p.name)
    && (p.protected && l.protection.Some? ==> Get(m, e + l.protection.value) == 0x26)
  }

  /** Whether byte k of a record is in a field the kernel writes, its links apart. */
  predicate InField(l: Layout, k: int) {
    l.pid <= k < l.pid + 8 || l.name <= k < l.name + 15 || (l.protection.Some? && k == l.protection.value)
  }

  lemma {:induction false} AnsiSame(m: Store, m': Store, a: nat, max: nat)
    requires Kept(m, m', a, max)
    ensures AnsiAt(m', a, max) == AnsiAt(m, a, max)
    decreases max
  {
    hide Get;
    if max > 0 { AnsiSame(m, m', a + 1, max - 1); }
  }

  lemma {:induction false} AnsiHeld(m: Store, a: nat, s: seq<Byte>, max: nat)
    requires |s| < max && (forall i | 0 <= i < |s| :: s[i] != 0)
    requires forall x: nat | a <= x <= a + |s| :: Get(m, x) == (s + [0])[x - a]
    ensures AnsiAt(m, a, max) == s
    decreases max
  {
    hide Get;
    if s != [] {
      forall x: nat | a + 1 <= x <= a + 1 + |s[1..]|
        ensures Get(m, x) == (s[1..] + [0])[x - (a + 1)]
      {
        assert Get(m, x) == (s + [0])[x - a];
      }
      AnsiHeld(m, a + 1, s[1..], max - 1);
      assert Get(m, a) == s[0];
      assert [s[0]] + s[1..] == s;
    }
  }

  lemma RecordKept(m: Store, m': Store, e: nat, p: Process, l: Layout)
    requires RecordOk(m, e, p, l) && forall x: nat | InField(l, x - e) :: Get(m', x) == Get(m, x)
    ensures RecordOk(m', e, p, l)
  {
    hide Get, AnsiAt, U64;
    U64Same(m, m', e + l.pid);
    AnsiSame(m, m', e + l.name, 15);
  }

  /** The pid and name writes, apart from each other. */
  lemma SeedFields(m: Store, e: nat, pid: nat, pidOff: nat, stem: seq<Byte>, nameOff: nat)
    requires pid < TWO_64 && |stem| < 15 && FieldsApart(pidOff, 8, nameOff, 15)
    requires forall i | 0 <= i < |stem| :: stem[i] != 0
    ensures var m' := Put(W64(m, e + pidOff, pid), e + nameOff, stem + [0]);
      && U64(m', e + pidOff) == pid && AnsiAt(m', e + nameOff, 15) == stem
      && forall x: nat | !(e + pidOff <= x < e + pidOff + 8) && !(e + nameOff <= x < e + nameOff + 15) :: Get(m', x) == Get(m, x)
  {
    hide Get, Put, U64, W64, AnsiAt, Touched;
    var m1 := W64(m, e + pidOff, pid);
    W64U64(m, e + pidOff, pid, e + pidOff);
    ModUnique(pid, TWO_64, 0, pid);
    W64Bytes(m, e + pidOff, pid);
    PutGet(m1, e + nameOff, stem + [0]);
    U64Same(m1, Put(m1, e + nameOff, stem + [0]), e + pidOff);
    AnsiHeld(Put(m1, e + nameOff, stem + [0]), e + nameOff, stem, 15);
  }

  lemma OneByte(m: Store, a: nat, v: Byte)
    ensures Get(Put(m, a, [v]), a) == v
    ensures forall x: nat | x != a :: Get(Put(m, a, [v]), x) == Get(m, x)
  {
    hide Get, Put, Touched;
    PutGet(m, a, [v]);
  }

  lemma SeedOneOk(m: Store, e: nat, p: Process, l: Layout)
    requires LayoutOk(l) && ProcessOk(p)
    ensures var m' := SeedOne(m, e, p, l);
      RecordOk(m', e, p, l) && forall x: nat | !(e <= x < e + l.size) :: Get(m', x) == Get(m, x)
  {
    hide Get, Put, U64, W64, AnsiAt, RecordOk;
    var m2 := Put(W64(m, e + l.pid, p.pid), e + l.name, Stem(p.name) + [0]);
    SeedFields(m, e, p.pid, l.pid, Stem(p.name), l.name);
    if p.protected && l.protection.Some? {
      OneByte(m2, e + l.protection.value, 0x26);
      var m3 := Put(m2, e + l.protection.value, [0x26]);
      U64Same(m2, m3, e + l.pid);
      AnsiSame(m2, m3, e + l.name, 15);
      RecordIs(m3, e, p, l);
    } else {
      RecordIs(m2, e, p, l);
    }
  }

  lemma RecordIs(m: Store, e: nat, p: Process, l: Layout)
    ensures RecordOk(m, e, p, l) <==>
      && U64(m, e + l.pid) == p.pid && AnsiAt(m, e + l.name, 15) == Stem(p.name)
      && (p.protected && l.protection.Some? ==> Get(m, e + l.protection.value) == 0x26)
  {
    hide U64, AnsiAt, Get;
  }

  lemma InRecord(l: Layout, k: int)
    requires LayoutOk(l) && InField(l, k)
    ensures 0 <= k < l.size
  {
  }

  function Span(n: nat, l: Layout): nat { n * l.size }

  lemma SpanStep(n: nat, l: Layout)
    ensures Span(n + 1, l) == l.size + Span(n, l)
  {
  }

  /** Records written one after another: each is as asked, and nothing outside them changes. */
  lemma {:induction false} SeedAllOk(m: Store, e: nat, procs: seq<Process>, l: Layout)
    requires LayoutOk(l) && forall i | 0 <= i < |procs| :: ProcessOk(procs[i])
    ensures var m' := SeedAll(m, e, procs, l);
      && (forall x: nat | x < e || x >= e + Span(|procs|, l) :: Get(m', x) == Get(m, x))
      && (forall i: nat | i < |procs| :: RecordOk(m', e + Span(i, l), procs[i], l))
    decreases |procs|
  {
    hide Get, RecordOk, SeedOne, ProcessOk, InField, LayoutOk, Span;
    if procs != [] {
      var m1 := SeedOne(m, e, procs[0], l);
      var m' := SeedAll(m, e, procs, l);
      SeedOneOk(m, e, procs[0], l);
      assert forall i | 0 <= i < |procs[1..]| :: procs[1..][i] == procs[i + 1];
      SeedAllOk(m1, e + l.size, procs[1..], l);
      SpanStep(|procs| - 1, l);
      forall x: nat | InField(l, x - e)
        ensures Get(m', x) == Get(m1, x)
      {
        InRecord(l, x - e);
      }
      RecordKept(m1, m', e, procs[0], l);
      forall i: nat | i < |procs|
        ensures RecordOk(m', e + Span(i, l), procs[i], l)
      {
        if i > 0 {
          assert RecordOk(m', e + l.size + Span(i - 1, l), procs[1..][i - 1], l);
          SpanStep(i - 1, l);
        } else {
          assert Span(0, l) == 0 by { SpanZero(l); }
        }
      }
    }
  }

  lemma SpanZero(l: Layout)
    ensures Span(0, l) == 0
  {
  }

  // ------------------------------------------------------------------ linking

  lemma Steps(i: nat, j: nat, size: nat)
    requires i < j
    ensures i * size + size <= j * size
  {
    assert j * size == i * size + (j - i) * size;
    assert (j - i) * size >= size by { if size > 0 { MulAtLeast(size, j - i); } }
  }

  lemma LinkPair(head: nat, l: Layout, i: nat, j: nat)
    requires LayoutOk(l) && i < j
    ensures NodesApart(EprocAt(head, l, i) + l.links, EprocAt(head, l, j) + l.links)
  {
    hide FieldsApart;
    Steps(i, j, l.size);
  }

  lemma LinkNodes(head: nat, n: nat, l: Layout)
    requires LayoutOk(l) && head > 0
    ensures Nodes(head, LinkFields(head, n, l))
  {
    hide LayoutOk, NodesApart;
    var links := LinkFields(head, n, l);
    forall i | 0 <= i < |links|
      ensures links[i] > 0 && NodesApart(links[i], head)
    {
      LinkHead(head, l, i);
    }
    forall i, j | 0 <= i < j < |links|
      ensures NodesApart(links[i], links[j])
    {
      LinkPair(head, l, i, j);
    }
  }

  lemma LinkHead(head: nat, l: Layout, i: nat)
    requires head > 0
    ensures EprocAt(head, l, i) + l.links > 0 && NodesApart(EprocAt(head, l, i) + l.links, head)
  {
    assert i * l.size >= 0;
  }

  /** Words and bytes clear of the first k link fields are kept by linking them. */
  lemma {:induction false} LinkToKeeps(m: Store, head: nat, links: seq<nat>, k: nat, x: nat)
    requires k <= |links| && forall i | 0 <= i < k :: !(links[i] <= x < links[i] + 16)
    ensures Get(LinkTo(m, head, links, k), x) == Get(m, x)
    decreases k
  {
    hide Get, W64, Next, Prev;
    if k > 0 {
      var m1 := LinkTo(m, head, links, k - 1);
      LinkToKeeps(m, head, links, k - 1, x);
      W64Bytes(m1, links[k - 1], Next(head, links, k - 1));
      W64Bytes(W64(m1, links[k - 1], Next(head, links, k - 1)), links[k - 1] + 8, Prev(head, links, k - 1));
    }
  }

  predicate Small(head: nat, links: seq<nat>) { head < TWO_64 && forall i | 0 <= i < |links| :: links[i] < TWO_64 }

  lemma LinkOne(m: Store, a: nat, v: nat, w: nat, b: nat)
    requires v < TWO_64 && w < TWO_64
    ensures var m' := W64(W64(m, a, v), a + 8, w);
      U64(m', a) == v && U64(m', a + 8) == w && (b + 8 <= a || a + 16 <= b ==> U64(m', b) == U64(m, b))
  {
    hide U64, W64;
    WriteLink(m, a, v, a);
    WriteLink(m, a, v, b);
    WriteLink(W64(m, a, v), a + 8, w, a);
    WriteLink(W64(m, a, v), a + 8, w, a + 8);
    WriteLink(W64(m, a, v), a + 8, w, b);
  }

  lemma NeighboursSmall(head: nat, links: seq<nat>, i: nat)
    requires Small(head, links) && i < |links|
    ensures Next(head, links, i) < TWO_64 && Prev(head, links, i) < TWO_64
  {
  }

  lemma {:induction false} LinkToOk(m: Store, head: nat, links: seq<nat>, k: nat)
    requires k <= |links| && Nodes(head, links) && Small(head, links)
    ensures var m' := LinkTo(m, head, links, k);
      forall i | 0 <= i < k :: U64(m', links[i]) == Next(head, links, i) && U64(m', links[i] + 8) == Prev(head, links, i)
    decreases k
  {
    hide U64, W64, Next, Prev, Small;
    if k > 0 {
      LinkToOk(m, head, links, k - 1);
      var m1 := LinkTo(m, head, links, k - 1);
      NeighboursSmall(head, links, k - 1);
      var v, w := Next(head, links, k - 1), Prev(head, links, k - 1);
      LinkOne(m1, links[k - 1], v, w, head);
      forall i | 0 <= i < k - 1
        ensures U64(LinkTo(m, head, links, k), links[i]) == Next(head, links, i)
        ensures U64(LinkTo(m, head, links, k), links[i] + 8) == Prev(head, links, i)
      {
        assert NodesApart(links[i], links[k - 1]);
        LinkOne(m1, links[k - 1], v, w, links[i]);
        LinkOne(m1, links[k - 1], v, w, links[i] + 8);
      }
    }
  }

  /** Closing the ring at the head. */
  lemma CloseRing(m: Store, head: nat, links: seq<nat>)
    requires links != [] && Nodes(head, links) && Small(head, links)
    requires forall i | 0 <= i < |links| :: U64(m, links[i]) == Next(head, links, i) && U64(m, links[i] + 8) == Prev(head, links, i)
    ensures Ring(W64(W64(m, head, links[0]), head + 8, links[|links| - 1]), head, links)
  {
    hide U64, W64, Next, Prev;
    var first, last := links[0], links[|links| - 1];
    LinkOne(m, head, first, last, head);
    forall i | 0 <= i < |links|
      ensures var m' := W64(W64(m, head, first), head + 8, last);
        U64(m', links[i]) == Next(head, links, i) && U64(m', links[i] + 8) == Prev(head, links, i)
    {
      LinkOne(m, head, first, last, links[i]);
      LinkOne(m, head, first, last, links[i] + 8);
    }
  }

  lemma LinkFieldsSmall(head: nat, n: nat, l: Layout)
    requires LayoutOk(l) && head + 16 + n * l.size <= TWO_64
    ensures Small(head, LinkFields(head, n, l))
  {
    var links := LinkFields(head, n, l);
    forall i | 0 <= i < |links|
      ensures links[i] < TWO_64
    {
      Steps(i, n, l.size);
    }
  }

  /** For every process list, bootstrap leaves a ring of its records in memory, and each record
      holds its pid and as much of its name as fits. */
  lemma BootedOk(m: Store, head: nat, procs: seq<Process>, l: Layout)
    requires procs != [] && LayoutOk(l) && head > 0 && head + 16 + |procs| * l.size <= TWO_64
    requires forall i | 0 <= i < |procs| :: ProcessOk(procs[i])
    ensures var m' := Booted(m, head, procs, l); var links := LinkFields(head, |procs|, l);
      && Ring(m', head, links)
      && (forall i: nat | i < |procs| ::
           && links[i] >= l.links && RecordOk(m', EprocAt(head, l, i), procs[i], l)
           && ListedAt(m', links[i], l) == Listed(procs[i].pid, Stem(procs[i].name), EprocAt(head, l, i)))
      && (forall x: nat | x < head || x >= head + 16 + |procs| * l.size :: Get(m', x) == Get(m, x))
  {
    hide Get, U64, W64, SeedAll, LinkTo, Nodes, AnsiAt, ProcessOk, Stem, Ring, RecordOk, EprocAt, LayoutOk, Next, Prev, Small;
    var links := LinkFields(head, |procs|, l);
    var m0 := SeedAll(m, head + 16, procs, l);
    var m1 := LinkTo(m0, head, links, |links|);
    var m' := Booted(m, head, procs, l);
    SeedAllOk(m, head + 16, procs, l);
    LinkNodes(head, |procs|, l);
    LinkFieldsSmall(head, |procs|, l);
    LinkToOk(m0, head, links, |links|);
    CloseRing(m1, head, links);
    forall i: nat | i < |procs|
      ensures RecordOk(m', EprocAt(head, l, i), procs[i], l)
      ensures ListedAt(m', EprocAt(head, l, i) + l.links, l) == Listed(procs[i].pid, Stem(procs[i].name), EprocAt(head, l, i))
    {
      SeededAt(m0, head, procs, l, i);
      LinkedRecord(m0, m1, m', head, procs, l, i);
      RecordIs(m', EprocAt(head, l, i), procs[i], l);
    }
    forall x: nat | x < head || x >= head + 16 + |procs| * l.size
      ensures Get(m', x) == Get(m, x)
    {
      OutsideClear(head, |procs|, l, x);
      LinkToKeeps(m0, head, links, |links|, x);
      W64Bytes(m1, head, links[0]);
      W64Bytes(W64(m1, head, links[0]), head + 8, links[|links| - 1]);
    }
  }

  lemma OutsideClear(head: nat, n: nat, l: Layout, x: nat)
    requires LayoutOk(l) && (x < head || x >= head + 16 + n * l.size)
    ensures forall j | 0 <= j < n :: !(LinkFields(head, n, l)[j] <= x < LinkFields(head, n, l)[j] + 16)
  {
    forall j | 0 <= j < n
      ensures !(LinkFields(head, n, l)[j] <= x < LinkFields(head, n, l)[j] + 16)
    {
      Steps(j, n, l.size);
    }
  }

  lemma SeededAt(m0: Store, head: nat, procs: seq<Process>, l: Layout, i: nat)
    requires i < |procs| && forall k: nat | k < |procs| :: RecordOk(m0, head + 16 + Span(k, l), procs[k], l)
    ensures RecordOk(m0, EprocAt(head, l, i), procs[i], l)
  {
    hide RecordOk;
  }

  lemma LinkedRecord(m0: Store, m1: Store, m': Store, head: nat, procs: seq<Process>, l: Layout, i: nat)
    requires i < |procs| && LayoutOk(l) && RecordOk(m0, EprocAt(head, l, i), procs[i], l)
    requires var links := LinkFields(head, |procs|, l);
      m1 == LinkTo(m0, head, links, |links|) && m' == W64(W64(m1, head, links[0]), head + 8, links[|links| - 1])
    ensures RecordOk(m', EprocAt(head, l, i), procs[i], l)
  {
    hide Get, U64, W64, AnsiAt, LinkTo;
    var links := LinkFields(head, |procs|, l);
    var e := EprocAt(head, l, i);
    W64Bytes(m1, head, links[0]);
    W64Bytes(W64(m1, head, links[0]), head + 8, links[|links| - 1]);
    forall x: nat | InField(l, x - e)
      ensures Get(m', x) == Get(m0, x)
    {
      FieldClear(head, |procs|, l, i, x);
      LinkToKeeps(m0, head, links, |links|, x);
    }
    RecordKept(m0, m', e, procs[i], l);
  }

  /** A byte of a record outside its link field is in no link field. */
  lemma FieldClear(head: nat, n: nat, l: Layout, i: nat, x: nat)
    requires i < n && LayoutOk(l)
    requires InField(l, x - EprocAt(head, l, i))
    ensures x >= head + 16
    ensures forall j | 0 <= j < n :: !(LinkFields(head, n, l)[j] <= x < LinkFields(head, n, l)[j] + 16)
  {
    forall j | 0 <= j < n
      ensures !(LinkFields(head, n, l)[j] <= x < LinkFields(head, n, l)[j] + 16)
    {
      if j < i { Steps(j, i, l.size); } else if i < j { Steps(i, j, l.size); }
    }
  }

  // ------------------------------------------------- the name table and the scan

  /** Map.set: a name already present keeps its place. */
  function SetName(s: seq<(Name, int)>, name: Name, e: int): seq<(Name, int)> {
    if s == [] then [(name, e)]
    else if s[0].0 == name then [(name, e)] + s[1..]
    else [s[0]] + SetName(s[1..], name, e)
  }

  /** processesByName after seeding. */
  function ByName(head: nat, procs: seq<Process>, l: Layout): seq<(Name, int)> {
    if procs == [] then []
    else
      var n := |procs| - 1;
      SetName(ByName(head, procs[..n], l), procs[n].name, EprocAt(head, l, n))
  }

  predicate DistinctKeys(s: seq<(Name, int)>) { forall i, j | 0 <= i < j < |s| :: s[i].0 != s[j].0 }

  predicate DistinctNames(procs: seq<Process>) { forall i, j | 0 <= i < j < |procs| :: procs[i].name != procs[j].name }

  lemma {:induction false} SetNameHas(s: seq<(Name, int)>, name: Name, e: int)
    requires DistinctKeys(s)
    ensures DistinctKeys(SetName(s, name, e))
    ensures forall x :: x in SetName(s, name, e) <==> x == (name, e) || (x in s && x.0 != name)
  {
    if s != [] {
      var s' := SetName(s, name, e);
      SetNameHas(s[1..], name, e);
      assert forall x :: x in s <==> x == s[0] || x in s[1..];
      assert forall x :: x in s' <==> x == s'[0] || x in s'[1..];
      if s[0].0 == name {
        assert s'[1..] == s[1..];
        assert forall x | x in s[1..] :: x.0 != name;
      } else {
        assert s'[1..] == SetName(s[1..], name, e);
        assert s'[0] == s[0];
        forall j | 0 < j < |s'|
          ensures s'[j].0 != s'[0].0
        {
          assert s'[j] == s'[1..][j - 1] && s'[1..][j - 1] in s'[1..];
        }
        forall i, j | 0 <= i < j < |s'|
          ensures s'[i].0 != s'[j].0
        {
          if i > 0 { assert s'[i] == s'[1..][i - 1] && s'[j] == s'[1..][j - 1]; }
        }
      }
    }
  }

  /** Process i is the last of its name. */
  predicate LastNamed(procs: seq<Process>, i: nat)
    requires i < |procs|
  {
    forall j | i < j < |procs| :: procs[j].name != procs[i].name
  }

  /** The name table holds the last process of each name. */
  lemma {:induction false} ByNameHas(head: nat, procs: seq<Process>, l: Layout)
    ensures DistinctKeys(ByName(head, procs, l))
    ensures forall x :: x in ByName(head, procs, l) <==>
      exists i: nat :: i < |procs| && LastNamed(procs, i) && x == (procs[i].name, EprocAt(head, l, i))
    decreases |procs|
  {
    hide EprocAt, SetName, LastNamed, DistinctKeys;
    if procs != [] {
      var n := |procs| - 1;
      var before := procs[..n];
      ByNameHas(head, before, l);
      SetNameHas(ByName(head, before, l), procs[n].name, EprocAt(head, l, n));
      forall x
        ensures x in ByName(head, procs, l) <==>
          exists i: nat :: i < |procs| && LastNamed(procs, i) && x == (procs[i].name, EprocAt(head, l, i))
      {
        ByNameStep(head, procs, l, x);
      }
    } else {
      NoKeys();
    }
  }

  lemma NoKeys()
    ensures DistinctKeys([])
  {
  }

  lemma LastNamedStep(procs: seq<Process>, i: nat)
    requires i < |procs|
    ensures i < |procs| - 1 ==>
      (LastNamed(procs, i) <==> LastNamed(procs[..|procs| - 1], i) && procs[i].name != procs[|procs| - 1].name)
    ensures i == |procs| - 1 ==> LastNamed(procs, i)
  {
  }

  lemma ByNameStep(head: nat, procs: seq<Process>, l: Layout, x: (Name, int))
    requires procs != []
    ensures
      (exists i: nat :: i < |procs| && LastNamed(procs, i) && x == (procs[i].name, EprocAt(head, l, i))) <==>
      var n := |procs| - 1;
      x == (procs[n].name, EprocAt(head, l, n))
      || (x.0 != procs[n].name
          && exists i: nat :: i < n && LastNamed(procs[..n], i) && x == (procs[..n][i].name, EprocAt(head, l, i)))
  {
    hide EprocAt, LastNamed;
    var n := |procs| - 1;
    LastNamedStep(procs, n);
    if i: nat :| i < n && LastNamed(procs[..n], i) && x == (procs[..n][i].name, EprocAt(head, l, i)) && x.0 != procs[n].name {
      LastNamedStep(procs, i);
      assert LastNamed(procs, i);
    }
    if i: nat :| i < |procs| && LastNamed(procs, i) && x == (procs[i].name, EprocAt(head, l, i)) {
      LastNamedStep(procs, i);
      if i < n { assert LastNamed(procs[..n], i); }
    }
  }

  lemma {:induction false} ByNameDistinct(head: nat, procs: seq<Process>, l: Layout)
    requires DistinctNames(procs)
    ensures ByName(head, procs, l) == seq(|procs|, i requires 0 <= i < |procs| => (procs[i].name, EprocAt(head, l, i)))
    decreases |procs|
  {
    hide EprocAt;
    if procs != [] {
      var n := |procs| - 1;
      ByNameDistinct(head, procs[..n], l);
      SetNameNew(ByName(head, procs[..n], l), procs[n].name, EprocAt(head, l, n));
    }
  }

  lemma {:induction false} SetNameNew(s: seq<(Name, int)>, name: Name, e: int)
    requires forall i | 0 <= i < |s| :: s[i].0 != name
    ensures SetName(s, name, e) == s + [(name, e)]
  {
    if s != [] {
      SetNameNew(s[1..], name, e);
      assert [s[0]] + (s[1..] + [(name, e)]) == s + [(name, e)];
    }
  }

  lemma EprocInjective(head: nat, l: Layout, i: nat, j: nat)
    requires LayoutOk(l) && EprocAt(head, l, i) == EprocAt(head, l, j)
    ensures i == j
  {
    if i < j { Steps(i, j, l.size); } else if j < i { Steps(j, i, l.size); }
  }

  lemma {:induction false} AnsiBytes(m: Store, a: nat, max: nat)
    ensures var s := AnsiAt(m, a, max);
      |s| <= max && (forall k | 0 <= k < |s| :: Get(m, a + k) == s[k]) && (|s| < max ==> Get(m, a + |s|) == 0)
    decreases max
  {
    hide Get;
    if max > 0 && Get(m, a) != 0 {
      AnsiBytes(m, a + 1, max - 1);
      var rest, s := AnsiAt(m, a + 1, max - 1), AnsiAt(m, a, max);
      forall k | 0 <= k < |s|
        ensures Get(m, a + k) == s[k]
      {
        if k > 0 { assert Get(m, a + 1 + (k - 1)) == rest[k - 1]; }
      }
      assert a + |s| == a + 1 + |rest|;
    }
  }

  /** Record i starts 16 + i * size behind the head, and its neighbours one size off. */
  lemma Places(head: nat, procs: seq<Process>, l: Layout, i: nat)
    requires i < |procs|
    ensures var links, e := LinkFields(head, |procs|, l), EprocAt(head, l, i);
      && e == head + 16 + i * l.size && |links| == |procs| && links[i] == e + l.links
      && Next(head, links, i) == (if i + 1 < |procs| then e + l.size + l.links else head)
      && Prev(head, links, i) == (if i > 0 then e - l.size + l.links else head)
      && links[0] == head + 16 + l.links
  {
    assert (i + 1) * l.size == i * l.size + l.size;
    assert i > 0 ==> (i - 1) * l.size == i * l.size - l.size;
  }

  /** The bytes bootstrap leaves (Places says where): record i has its pid, at most 14 bytes of its name and
      a zero, 0x26 in the protection byte of a protected process, and links to the fields of its neighbours,
      the head standing before the first and behind the last. */
  lemma BootedBytes(m: Store, head: nat, procs: seq<Process>, l: Layout, i: nat)
    requires i < |procs| && LayoutOk(l) && head > 0 && head + 16 + |procs| * l.size <= TWO_64
    requires forall i | 0 <= i < |procs| :: ProcessOk(procs[i])
    ensures var m' := Booted(m, head, procs, l); var e, p, last := EprocAt(head, l, i), procs[i], EprocAt(head, l, |procs| - 1);
      var n := if |p.name| < 15 then |p.name| else 14;
      && U64(m', e + l.pid) == p.pid
      && (forall k | 0 <= k < n :: Get(m', e + l.name + k) == p.name[k]) && Get(m', e + l.name + n) == 0
      && (p.protected && l.protection.Some? ==> Get(m', e + l.protection.value) == 0x26)
      && U64(m', e + l.links) == (if i + 1 < |procs| then e + l.size + l.links else head)
      && U64(m', e + l.links + 8) == (if i > 0 then e - l.size + l.links else head)
      && U64(m', head) == head + 16 + l.links && U64(m', head + 8) == last + l.links
  {
    hide Get, U64, AnsiAt, ProcessOk, LayoutOk, EprocAt, Next, Prev, Booted, Nodes, LinkFields, RecordOk, ListedAt, Ring;
    var m' := Booted(m, head, procs, l);
    BootedOk(m, head, procs, l);
    Places(head, procs, l, i);
    Places(head, procs, l, |procs| - 1);
    RecordBytes(m', EprocAt(head, l, i), procs[i], l);
    RingLinks(m', head, LinkFields(head, |procs|, l), i);
  }

  lemma RecordBytes(m: Store, e: nat, p: Process, l: Layout)
    requires RecordOk(m, e, p, l)
    ensures var n := if |p.name| < 15 then |p.name| else 14;
      && U64(m, e + l.pid) == p.pid
      && (forall k | 0 <= k < n :: Get(m, e + l.name + k) == p.name[k]) && Get(m, e + l.name + n) == 0
      && (p.protected && l.protection.Some? ==> Get(m, e + l.protection.value) == 0x26)
  {
    hide Get, U64, AnsiAt;
    AnsiBytes(m, e + l.name, 15);
  }

  lemma RingLinks(m: Store, head: nat, links: seq<nat>, i: nat)
    requires Ring(m, head, links) && i < |links|
    ensures U64(m, links[i]) == Next(head, links, i) && U64(m, links[i] + 8) == Prev(head, links, i)
    ensures U64(m, head) == links[0] && U64(m, head + 8) == links[|links| - 1]
  {
    hide U64, Next, Prev, Nodes;
  }

  /** Straight after bootstrap the scan is ok exactly when there are fewer than 512 processes
      and no two share a name: of two that do, the name table forgets the first. */
  lemma BootScan(m: Store, head: nat, procs: seq<Process>, l: Layout)
    requires procs != [] && LayoutOk(l) && head > 0 && head + 16 + |procs| * l.size <= TWO_64
    requires forall i | 0 <= i < |procs| :: ProcessOk(procs[i])
    ensures Scan(Booted(m, head, procs, l), head, l.links, ByName(head, procs, l)).ok <==>
      |procs| < 512 && DistinctNames(procs)
  {
    hide Booted, ByName, Scan, Ring, LayoutOk, ProcessOk, U64, EprocAt, SameProcesses, Chain;
    var m' := Booted(m, head, procs, l);
    var links := LinkFields(head, |procs|, l);
    var seeded := ByName(head, procs, l);
    BootedOk(m, head, procs, l);
    RingChain(m', head, links);
    NodesHead(m', head, links);
    ScanOkIff(m', head, l.links, seeded);
    NamesCover(head, procs, l);
    if Scan(m', head, l.links, seeded).ok {
      var ls: seq<nat> :| Chain(m', head, ls) && |ls| < 512 && SameProcesses(ls, l.links, seeded);
      ChainSame(m', head, links, ls);
    }
  }

  lemma NodesHead(m: Store, head: nat, links: seq<nat>)
    requires Ring(m, head, links)
    ensures head > 0
  {
  }

  /** One memory and head have one chain. */
  lemma ChainSame(m: Store, head: nat, f: seq<nat>, g: seq<nat>)
    requires head > 0 && Chain(m, head, f) && Chain(m, head, g)
    ensures f == g
  {
    hide Chain;
    if |g| <= |f| { ChainPrefix(m, head, f, g, |g|); } else { ChainPrefix(m, head, g, f, |f|); }
    assert f[..|f|] == f && g[..|g|] == g;
  }

  /** Process i is in the name table exactly when it is the last of its name. */
  lemma InTable(head: nat, procs: seq<Process>, l: Layout, i: nat)
    requires LayoutOk(l) && i < |procs|
    ensures SeededHas(ByName(head, procs, l), EprocAt(head, l, i)) <==> LastNamed(procs, i)
  {
    hide LayoutOk, EprocAt, ByName, LastNamed, DistinctKeys;
    var seeded := ByName(head, procs, l);
    ByNameHas(head, procs, l);
    if LastNamed(procs, i) {
      assert (procs[i].name, EprocAt(head, l, i)) in seeded;
    }
    if k :| 0 <= k < |seeded| && seeded[k].1 == EprocAt(head, l, i) {
      assert seeded[k] in seeded;
      var j: nat :| j < |procs| && LastNamed(procs, j) && seeded[k] == (procs[j].name, EprocAt(head, l, j));
      EprocInjective(head, l, i, j);
    }
  }

  lemma NamesCover(head: nat, procs: seq<Process>, l: Layout)
    requires LayoutOk(l)
    ensures SameProcesses(LinkFields(head, |procs|, l), l.links, ByName(head, procs, l)) <==> DistinctNames(procs)
  {
    hide LayoutOk, EprocAt, ByName;
    var links, seeded := LinkFields(head, |procs|, l), ByName(head, procs, l);
    ByNameHas(head, procs, l);
    forall i | 0 <= i < |seeded|
      ensures seeded[i].1 in Eprocs(links, l.links)
    {
      assert seeded[i] in seeded;
      var k: nat :| k < |procs| && LastNamed(procs, k) && seeded[i] == (procs[k].name, EprocAt(head, l, k));
      assert Eprocs(links, l.links)[k] == EprocAt(head, l, k);
    }
    forall i: nat | i < |procs|
      ensures SeededHas(seeded, EprocAt(head, l, i)) <==> LastNamed(procs, i)
    {
      InTable(head, procs, l, i);
    }
    LastNames(procs);
    if DistinctNames(procs) {
      forall i | 0 <= i < |links|
        ensures SeededHas(seeded, links[i] - l.links)
      {
        assert SeededHas(seeded, EprocAt(head, l, i));
      }
    } else {
      var i: nat :| i < |procs| && !LastNamed(procs, i);
      assert !SeededHas(seeded, EprocAt(head, l, i));
      assert links[i] - l.links == EprocAt(head, l, i);
    }
  }

  lemma LastNames(procs: seq<Process>)
    ensures DistinctNames(procs) <==> forall i: nat | i < |procs| :: LastNamed(procs, i)
  {
    if forall i: nat | i < |procs| :: LastNamed(procs, i) {
      forall i, j | 0 <= i < j < |procs|
        ensures procs[i].name != procs[j].name
      {
        assert LastNamed(procs, i);
      }
    }
  }

  /** Every process but k is the last of its name. */
  predicate OthersLast(procs: seq<Process>, k: nat) {
    forall i: nat | i < |procs| && i != k :: LastNamed(procs, i)
  }

  lemma RestAt(head: nat, procs: seq<Process>, l: Layout, k: nat, i: nat)
    requires LayoutOk(l) && k < |procs| && i < |procs|
    ensures |LinkFields(head, |procs|, l)| == |procs|
    ensures EprocAt(head, l, i) in Eprocs(Without(LinkFields(head, |procs|, l), k), l.links) <==> i != k
  {
    hide LayoutOk, EprocAt;
    var links := LinkFields(head, |procs|, l);
    var rest := Without(links, k);
    var reached := Eprocs(rest, l.links);
    forall j | 0 <= j < |rest|
      ensures reached[j] == EprocAt(head, l, if j < k then j else j + 1)
    {
    }
    if i != k { assert reached[if i < k then i else i - 1] == EprocAt(head, l, i); }
    if EprocAt(head, l, i) in reached {
      var j :| 0 <= j < |reached| && reached[j] == EprocAt(head, l, i);
      EprocInjective(head, l, i, if j < k then j else j + 1);
    }
  }

  /** What is left after k is unlinked, compared with the name table. */
  lemma RestCompared(head: nat, procs: seq<Process>, l: Layout, k: nat)
    requires LayoutOk(l) && k < |procs|
    ensures |LinkFields(head, |procs|, l)| == |procs|
    ensures var reached, seeded := Eprocs(Without(LinkFields(head, |procs|, l), k), l.links), ByName(head, procs, l);
      && (NotReached(seeded, reached) == [] <==> !LastNamed(procs, k))
      && (NotSeeded(reached, seeded) == [] <==> OthersLast(procs, k))
  {
    hide LayoutOk, EprocAt, ByName, LastNamed, SeededHas, DistinctKeys;
    var links := LinkFields(head, |procs|, l);
    var reached, seeded := Eprocs(Without(links, k), l.links), ByName(head, procs, l);
    NotReachedNone(seeded, reached);
    NotSeededNone(reached, seeded);
    ByNameHas(head, procs, l);
    RestAt(head, procs, l, k, k);
    if LastNamed(procs, k) {
      assert (procs[k].name, EprocAt(head, l, k)) in seeded;
    } else {
      forall i | 0 <= i < |seeded|
        ensures seeded[i].1 in reached
      {
        assert seeded[i] in seeded;
        var j: nat :| j < |procs| && LastNamed(procs, j) && seeded[i] == (procs[j].name, EprocAt(head, l, j));
        RestAt(head, procs, l, k, j);
      }
    }
    forall j | 0 <= j < |reached|
      ensures reached[j] == EprocAt(head, l, if j < k then j else j + 1)
      ensures SeededHas(seeded, reached[j]) <==> LastNamed(procs, if j < k then j else j + 1)
    {
      InTable(head, procs, l, if j < k then j else j + 1);
    }
    if NotSeeded(reached, seeded) == [] {
      forall i: nat | i < |procs| && i != k
        ensures LastNamed(procs, i)
      {
        assert SeededHas(seeded, reached[if i < k then i else i - 1]);
      }
    }
  }

  lemma RestChain(m: Store, head: nat, procs: seq<Process>, l: Layout, k: nat)
    requires LayoutOk(l) && head > 0 && head + 16 + |procs| * l.size <= TWO_64
    requires k < |procs| && forall i | 0 <= i < |procs| :: ProcessOk(procs[i])
    ensures |LinkFields(head, |procs|, l)| == |procs|
    ensures Chain(Unlinked(Booted(m, head, procs, l), EprocAt(head, l, k) + l.links), head, Without(LinkFields(head, |procs|, l), k))
  {
    hide *;
    var m' := Booted(m, head, procs, l);
    BootedOk(m, head, procs, l);
    LinkFieldAt(head, |procs|, l, k);
    UnlinkRing(m', head, LinkFields(head, |procs|, l), k);
    RingChain(Unlinked(m', EprocAt(head, l, k) + l.links), head, Without(LinkFields(head, |procs|, l), k));
  }

  /** After process k of a freshly booted list is unlinked, the scan names that process and nothing
      else, exactly when no two processes share a name. */
  lemma BootUnlinkScan(m: Store, head: nat, procs: seq<Process>, l: Layout, k: nat)
    requires LayoutOk(l) && head > 0 && head + 16 + |procs| * l.size <= TWO_64
    requires forall i | 0 <= i < |procs| :: ProcessOk(procs[i])
    requires k < |procs| <= 512
    ensures var r := Scan(Unlinked(Booted(m, head, procs, l), EprocAt(head, l, k) + l.links), head, l.links, ByName(head, procs, l));
      && (r.unlinked == [procs[k].name] && r.foreign == [] <==> DistinctNames(procs))
      && (DistinctNames(procs) ==> r == Report(false, |procs| - 1, |procs|, [procs[k].name], [], [], false))
  {
    hide *;
    if DistinctNames(procs) {
      DistinctUnlinkScan(m, head, procs, l, k);
    } else {
      var m' := Unlinked(Booted(m, head, procs, l), EprocAt(head, l, k) + l.links);
      RestChain(m, head, procs, l, k);
      WithoutLength(LinkFields(head, |procs|, l), k);
      ScanOnChain(m', head, Without(LinkFields(head, |procs|, l), k), l.links, ByName(head, procs, l));
      RestCompared(head, procs, l, k);
      SomeNotLast(procs, k);
    }
  }

  lemma SomeNotLast(procs: seq<Process>, k: nat)
    requires !DistinctNames(procs) && k < |procs|
    ensures !LastNamed(procs, k) || !OthersLast(procs, k)
  {
    hide DistinctNames, LastNamed;
    LastNames(procs);
  }

  /** An unlink goes unseen: after process k is unlinked the scan is still ok, exactly when a later
      process has its name and every other process is the last of its name. */
  lemma UnlinkUnseenIff(m: Store, head: nat, procs: seq<Process>, l: Layout, k: nat)
    requires LayoutOk(l) && head > 0 && head + 16 + |procs| * l.size <= TWO_64
    requires forall i | 0 <= i < |procs| :: ProcessOk(procs[i])
    requires k < |procs|
    ensures Scan(Unlinked(Booted(m, head, procs, l), EprocAt(head, l, k) + l.links), head, l.links, ByName(head, procs, l)).ok <==>
      |procs| <= 512 && !LastNamed(procs, k) && OthersLast(procs, k)
  {
    hide *;
    var m' := Unlinked(Booted(m, head, procs, l), EprocAt(head, l, k) + l.links);
    RestChain(m, head, procs, l, k);
    var rest := Without(LinkFields(head, |procs|, l), k);
    var seeded := ByName(head, procs, l);
    WithoutLength(LinkFields(head, |procs|, l), k);
    ScanOkIff(m', head, l.links, seeded);
    RestCompared(head, procs, l, k);
    VerdictParts(m', head, l.links, seeded, rest);
    if Scan(m', head, l.links, seeded).ok {
      var ls: seq<nat> :| Chain(m', head, ls) && |ls| < 512 && SameProcesses(ls, l.links, seeded);
      ChainSame(m', head, rest, ls);
    }
  }

  lemma DistinctUnlinkScan(m: Store, head: nat, procs: seq<Process>, l: Layout, k: nat)
    requires LayoutOk(l) && head > 0 && head + 16 + |procs| * l.size <= TWO_64
    requires forall i | 0 <= i < |procs| :: ProcessOk(procs[i])
    requires DistinctNames(procs) && k < |procs| <= 512
    ensures Scan(Unlinked(Booted(m, head, procs, l), EprocAt(head, l, k) + l.links), head, l.links, ByName(head, procs, l)) ==
      Report(false, |procs| - 1, |procs|, [procs[k].name], [], [], false)
  {
    hide *;
    var m' := Booted(m, head, procs, l);
    BootedOk(m, head, procs, l);
    ByNameDistinct(head, procs, l);
    NamesSeeded(head, procs, l);
    UnlinkedScan(m', head, LinkFields(head, |procs|, l), l.links, ByName(head, procs, l), k);
    assert LinkFields(head, |procs|, l)[k] == EprocAt(head, l, k) + l.links by { LinkFieldAt(head, |procs|, l, k); }
  }

  lemma LinkFieldAt(head: nat, n: nat, l: Layout, k: nat)
    requires k < n
    ensures |LinkFields(head, n, l)| == n && LinkFields(head, n, l)[k] == EprocAt(head, l, k) + l.links
  {
    hide EprocAt;
  }

  lemma NamesSeeded(head: nat, procs: seq<Process>, l: Layout)
    requires ByName(head, procs, l) == seq(|procs|, i requires 0 <= i < |procs| => (procs[i].name, EprocAt(head, l, i)))
    ensures SeededFor(LinkFields(head, |procs|, l), l.links, ByName(head, procs, l))
    ensures |LinkFields(head, |procs|, l)| == |procs|
    ensures forall i | 0 <= i < |procs| :: ByName(head, procs, l)[i].0 == procs[i].name
  {
    hide EprocAt, ByName;
  }
}
