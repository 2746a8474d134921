/** The kernel's process list as it runs: records written into a live memory, and the
    loops that walk them. */
module ProcessTable {
  import opened Bytes
  import opened Store
  import opened Wrappers
  import opened ProcessRing
  import opened ProcessList
  import opened Memory

  /** Adding to a set kept in insertion order. */
  function Distinct(s: seq<int>): seq<int> {
    if s == [] then []
    else
      var before := Distinct(s[..|s| - 1]);
      if s[|s| - 1] in before then before else before + [s[|s| - 1]]
  }

  lemma {:induction false} DistinctHas(s: seq<int>)
    ensures forall e :: e in Distinct(s) <==> e in s
    ensures forall i, j | 0 <= i < j < |Distinct(s)| :: Distinct(s)[i] != Distinct(s)[j]
  {
    if s != [] {
      DistinctHas(s[..|s| - 1]);
      assert s == s[..|s| - 1] + [s[|s| - 1]];
    }
  }

  lemma {:induction false} NotSeededDistinct(s: seq<int>, seeded: seq<(Name, int)>)
    ensures NotSeeded(Distinct(s), seeded) == NotSeeded(s, seeded)
  {
    hide SeededHas;
    if s != [] {
      var n := |s| - 1;
      NotSeededDistinct(s[..n], seeded);
      DistinctHas(s[..n]);
      if s[n] !in s[..n] {
        assert Distinct(s)[..|Distinct(s)| - 1] == Distinct(s[..n]);
      }
    }
  }

  lemma {:induction false} NotReachedSame(seeded: seq<(Name, int)>, r: seq<int>, r': seq<int>)
    requires forall e :: e in r <==> e in r'
    ensures NotReached(seeded, r) == NotReached(seeded, r')
  {
    if seeded != [] { NotReachedSame(seeded[1..], r, r'); }
  }

  lemma {:induction false} SetNameAt(s: seq<(Name, int)>, name: Name, e: int, i: nat)
    requires i <= |s| && forall j | 0 <= j < i :: s[j].0 != name
    requires i < |s| ==> s[i].0 == name
    ensures SetName(s, name, e) == if i < |s| then s[i := (name, e)] else s + [(name, e)]
    decreases i
  {
    if i > 0 {
      SetNameAt(s[1..], name, e, i - 1);
      assert s == [s[0]] + s[1..];
    }
  }

  lemma EprocStep(head: nat, l: Layout, i: nat)
    ensures EprocAt(head, l, 0) == head + 16 && EprocAt(head, l, i + 1) == EprocAt(head, l, i) + l.size
  {
  }

  lemma LinkFieldsStep(head: nat, l: Layout, i: nat)
    ensures LinkFields(head, 0, l) == [] && LinkFields(head, i + 1, l) == LinkFields(head, i, l) + [EprocAt(head, l, i) + l.links]
  {
    hide EprocAt;
  }

  lemma ListOfNone(m: Store, links: seq<nat>, l: Layout)
    ensures ListOf(m, links[..0], l) == []
  {
  }

  lemma ListOfStep(m: Store, links: seq<nat>, l: Layout, i: nat)
    requires i < |links| && forall k | 0 <= k < |links| :: links[k] >= l.links
    ensures ListOf(m, links[..i + 1], l) == ListOf(m, links[..i], l) + [ListedAt(m, links[i], l)]
  {
    hide ListedAt;
  }

  class ProcessTable {
    const mem: SparseMemory
    const layout: Layout
    var psActiveProcessHead: nat
    /** A Map's entries in insertion order. */
    var processesByName: seq<(Name, int)>

    ghost predicate Valid()
      reads this, mem, mem.Repr
    {
      mem.Valid()
    }

    constructor (mem: SparseMemory, layout: Layout)
      requires mem.Valid()
      ensures Valid() && this.mem == mem && this.layout == layout
      ensures psActiveProcessHead == 0 && processesByName == []
    {
      this.mem, this.layout := mem, layout;
      psActiveProcessHead, processesByName := 0, [];
    }

    /** Byte by byte, then a terminator. */
    method WriteAnsi(a: nat, s: Name, max: nat)
      requires Valid() && max > 0
      modifies mem, mem.Repr
      ensures Valid() && fresh(mem.Repr - old(mem.Repr))
      ensures mem.Contents == Put(old(mem.Contents), a, (if |s| <= max - 1 then s else s[..max - 1]) + [0])
    {
      hide Put;
      ghost var m0 := mem.Contents;
      var lim := if |s| < max - 1 then |s| else max - 1;
      PutNothing(m0, a);
      for i := 0 to lim
        invariant Valid() && fresh(mem.Repr - old(mem.Repr))
        invariant mem.Contents == Put(m0, a, s[..i])
      {
        PutAppend(m0, a, s[..i], [s[i]]);
        assert s[..i] + [s[i]] == s[..i + 1];
        mem.WriteSpan(a + i, [s[i]]);
      }
      PutAppend(m0, a, s[..lim], [0]);
      mem.WriteSpan(a + lim, [0]);
      assert s[..lim] == if |s| <= max - 1 then s else s[..max - 1];
    }

    method SetProcessName(name: Name, e: int)
      modifies this`processesByName
      ensures processesByName == SetName(old(processesByName), name, e)
    {
      var i := 0;
      while i < |processesByName| && processesByName[i].0 != name
        invariant i <= |processesByName| && forall j | 0 <= j < i :: processesByName[j].0 != name
        decreases |processesByName| - i
      {
        i := i + 1;
      }
      SetNameAt(processesByName, name, e, i);
      processesByName := if i < |processesByName| then processesByName[i := (name, e)] else processesByName + [(name, e)];
    }

    method WriteRecord(e: nat, p: Process)
      requires Valid()
      modifies mem, mem.Repr
      ensures Valid() && fresh(mem.Repr - old(mem.Repr))
      ensures mem.Contents == SeedOne(old(mem.Contents), e, p, layout)
    {
      hide Put, W64;
      mem.WriteU64(e + layout.pid, p.pid);
      WriteAnsi(e + layout.name, p.name, NAME_MAX);
      if p.protected && layout.protection.Some? {
        mem.WriteSpan(e + layout.protection.value, [0x26]);
      }
    }

    method SeedRecords(head: nat, procs: seq<Process>) returns (linkAddrs: seq<nat>)
      requires Valid() && processesByName == []
      modifies this`processesByName, mem, mem.Repr
      ensures Valid() && fresh(mem.Repr - old(mem.Repr))
      ensures mem.Contents == SeedAll(old(mem.Contents), head + 16, procs, layout)
      ensures processesByName == ByName(head, procs, layout) && linkAddrs == LinkFields(head, |procs|, layout)
    {
      hide SeedOne, SetName, EprocAt, LinkFields;
      ghost var m0 := mem.Contents;
      var next := head + 16;
      linkAddrs := [];
      assert procs[0..] == procs && procs[..0] == [];
      EprocStep(head, layout, 0);
      LinkFieldsStep(head, layout, 0);
      for i := 0 to |procs|
        invariant Valid() && fresh(mem.Repr - old(mem.Repr))
        invariant next == EprocAt(head, layout, i) && linkAddrs == LinkFields(head, i, layout)
        invariant processesByName == ByName(head, procs[..i], layout)
        invariant SeedAll(mem.Contents, next, procs[i..], layout) == SeedAll(m0, head + 16, procs, layout)
      {
        var p := procs[i];
        assert procs[i..][0] == p && procs[i..][1..] == procs[i + 1..];
        assert procs[..i + 1][..i] == procs[..i];
        WriteRecord(next, p);
        SetProcessName(p.name, next);
        EprocStep(head, layout, i);
        LinkFieldsStep(head, layout, i);
        linkAddrs := linkAddrs + [next + layout.links];
        next := next + layout.size;
      }
      assert procs[..|procs|] == procs && procs[|procs|..] == [];
    }

    method LinkRecords(head: nat, linkAddrs: seq<nat>)
      requires Valid()
      modifies mem, mem.Repr
      ensures Valid() && fresh(mem.Repr - old(mem.Repr))
      ensures mem.Contents == LinkTo(old(mem.Contents), head, linkAddrs, |linkAddrs|)
    {
      hide W64;
      ghost var m0 := mem.Contents;
      for i := 0 to |linkAddrs|
        invariant Valid() && fresh(mem.Repr - old(mem.Repr))
        invariant mem.Contents == LinkTo(m0, head, linkAddrs, i)
      {
        var prev := if i == 0 then head else linkAddrs[i - 1];
        var following := if i == |linkAddrs| - 1 then head else linkAddrs[i + 1];
        mem.WriteU64(linkAddrs[i], following);
        mem.WriteU64(linkAddrs[i] + 8, prev);
      }
    }

    /** Records first, then the links, then the head: what is left in memory is Booted, which
        ProcessList.BootedOk shows to be a ring of the records. */
    method Bootstrap(head: nat, procs: seq<Process>)
      requires Valid() && procs != [] && processesByName == []
      modifies this, mem, mem.Repr
      ensures Valid() && fresh(mem.Repr - old(mem.Repr))
      ensures mem.Contents == Booted(old(mem.Contents), head, procs, layout)
      ensures psActiveProcessHead == head && processesByName == ByName(head, procs, layout)
    {
      hide W64, SeedAll, LinkTo, ByName;
      var linkAddrs := SeedRecords(head, procs);
      psActiveProcessHead := head;
      LinkRecords(head, linkAddrs);
      mem.WriteU64(head, linkAddrs[0]);
      mem.WriteU64(head + 8, linkAddrs[|linkAddrs| - 1]);
    }

    method ReadAnsi(a: nat, max: nat) returns (s: Name)
      requires Valid()
      modifies mem`readCount, mem`missCount
      ensures Valid() && s == AnsiAt(mem.Contents, a, max)
    {
      hide Get;
      s := [];
      var i := 0;
      while i < max
        invariant i <= max && Valid()
        invariant s + AnsiAt(mem.Contents, a + i, max - i) == AnsiAt(mem.Contents, a, max)
      {
        var c := mem.ReadSpan(a + i, 1);
        if c[0] == 0 { return; }
        assert s + ([c[0]] + AnsiAt(mem.Contents, a + i + 1, max - (i + 1))) == AnsiAt(mem.Contents, a, max);
        s := s + c;
        assert c == [c[0]];
        i := i + 1;
      }
    }

    method ReadRecord(link: nat) returns (r: Listed)
      requires Valid() && link >= layout.links
      modifies mem`readCount, mem`missCount
      ensures Valid() && r == ListedAt(mem.Contents, link, layout)
    {
      hide U64, AnsiAt;
      var e: nat := link - layout.links;
      var pid := mem.ReadU64(e + layout.pid);
      var name := ReadAnsi(e + layout.name, NAME_MAX);
      r := Listed(pid, name, e);
    }

    /** On a ring the walk ends, and lists every record in order. Off a ring the source's loop
        need not end. */
    method ListProcesses(ghost links: seq<nat>) returns (out: seq<Listed>)
      requires Valid() && Ring(mem.Contents, psActiveProcessHead, links)
      requires forall i | 0 <= i < |links| :: links[i] >= layout.links
      modifies mem`readCount, mem`missCount
      ensures Valid() && out == ListOf(mem.Contents, links, layout)
    {
      hide U64, ListedAt, ListOf, Ring;
      out := [];
      ListOfNone(mem.Contents, links, layout);
      RingFirst(mem.Contents, psActiveProcessHead, links);
      var cur := mem.ReadU64(psActiveProcessHead);
      ghost var i := 0;
      while cur != psActiveProcessHead && cur != 0
        invariant 0 <= i <= |links| && cur == if i < |links| then links[i] else psActiveProcessHead
        invariant Valid() && out == ListOf(mem.Contents, links[..i], layout)
        decreases |links| - i
      {
        RingAt(mem.Contents, psActiveProcessHead, links, i);
        var entry := ReadRecord(cur);
        out := out + [entry];
        ListOfStep(mem.Contents, links, layout, i);
        cur := mem.ReadU64(cur);
        i := i + 1;
      }
      RingEnds(mem.Contents, psActiveProcessHead, links, i);
      assert links[..i] == links;
    }

    /** The first record in ring order with this pid, or none when no record has it. */
    method FindEprocessByPid(pid: nat, ghost links: seq<nat>) returns (r: Option<int>)
      requires Valid() && Ring(mem.Contents, psActiveProcessHead, links)
      requires forall i | 0 <= i < |links| :: links[i] >= layout.links
      modifies mem`readCount, mem`missCount
      ensures Valid()
      ensures r.None? ==> forall i | 0 <= i < |links| :: PidAt(mem.Contents, links[i], layout) != pid
      ensures r.Some? ==>
        exists i ::
          && 0 <= i < |links| && r.value == links[i] - layout.links && PidAt(mem.Contents, links[i], layout) == pid
          && forall j | 0 <= j < i :: PidAt(mem.Contents, links[j], layout) != pid
    {
      hide U64, PidAt, Ring;
      var cur: nat := mem.ReadU64(psActiveProcessHead);
      ghost var i := 0;
      RingFirst(mem.Contents, psActiveProcessHead, links);
      while cur != psActiveProcessHead && cur != 0
        invariant 0 <= i <= |links| && cur == if i < |links| then links[i] else psActiveProcessHead
        invariant Valid()
        invariant forall j | 0 <= j < i :: PidAt(mem.Contents, links[j], layout) != pid
        decreases |links| - i
      {
        RingAt(mem.Contents, psActiveProcessHead, links, i);
        var v := ReadPid(cur);
        if v == pid { return Some(cur - layout.links); }
        cur := mem.ReadU64(cur);
        i := i + 1;
      }
      RingEnds(mem.Contents, psActiveProcessHead, links, i);
      return None;
    }

    method ReadPid(link: nat) returns (v: nat)
      requires Valid() && link >= layout.links
      modifies mem`readCount, mem`missCount
      ensures Valid() && v == PidAt(mem.Contents, link, layout)
    {
      hide U64;
      v := mem.ReadU64(link - layout.links + layout.pid);
    }

    /** The scan's walk: the links met in order, the distinct records they belong to, and a
        finding when it stopped at a null link. */
    method Walk(head: nat) returns (links: seq<nat>, reached: seq<int>, nulls: seq<Finding>, walked: nat, cycle: bool)
      requires Valid()
      modifies mem`readCount, mem`missCount
      ensures Valid() && reached == Distinct(Eprocs(links, layout.links)) && !cycle
      ensures var (all, nulled) := WalkLinks(mem.Contents, head, U64(mem.Contents, head), 0);
        && (nulled ==> all != []) && links == all && walked == (if nulled then |all| - 1 else |all|)
        && nulls == (if nulled then [NullLink(all[|all| - 1] - layout.links)] else [])
    {
      hide U64, WalkLinks, Distinct, Eprocs;
      links, reached, nulls, walked, cycle := [], [], [], 0, false;
      DistinctNone(layout.links);
      var linksVa: nat := mem.ReadU64(head);
      ghost var walk := WalkLinks(mem.Contents, head, linksVa, 0);
      assert [] + walk.0 == walk.0;
      WalkNulled(mem.Contents, head, linksVa, 0);
      while linksVa != head && linksVa != 0 && walked < MAX_WALK
        invariant Valid() && walked <= MAX_WALK && nulls == [] && !cycle
        invariant walked == |links| && reached == Distinct(Eprocs(links, layout.links))
        invariant links + WalkLinks(mem.Contents, head, linksVa, walked).0 == walk.0
        invariant WalkLinks(mem.Contents, head, linksVa, walked).1 == walk.1
        decreases MAX_WALK - walked
      {
        var e := linksVa - layout.links;
        ghost var was := links;
        if e !in reached { reached := reached + [e]; }
        links := links + [linksVa];
        DistinctStep(was, layout.links, linksVa);
        WalkStep(mem.Contents, head, linksVa, walked, was);
        var flink: nat := mem.ReadU64(linksVa);
        var blink := mem.ReadU64(linksVa + 8);
        if flink == 0 || blink == 0 {
          nulls := [NullLink(e)];
          break;
        }
        linksVa := flink;
        walked := walked + 1;
        if walked > MAX_WALK { cycle := true; break; }
      }
      WalkStop(mem.Contents, head, linksVa, walked, links);
    }

    /** scanProcessList: reads only, and reports what Scan says. */
    method ScanProcessList() returns (r: Option<Report>)
      requires Valid()
      modifies mem`readCount, mem`missCount
      ensures Valid()
      ensures r == if psActiveProcessHead == 0 then None
                   else Some(Scan(mem.Contents, psActiveProcessHead, layout.links, processesByName))
    {
      hide U64, BadBlinks, NotSeeded, NotReached, Distinct, WalkLinks;
      if psActiveProcessHead == 0 { return None; }
      var head := psActiveProcessHead;
      var links, reached, nulls, walked, cycle := Walk(head);
      if walked >= MAX_WALK { cycle := true; }
      var unlinked := Unreached(reached);
      DistinctHas(Eprocs(links, layout.links));
      NotReachedSame(processesByName, reached, Eprocs(links, layout.links));
      NotSeededDistinct(Eprocs(links, layout.links), processesByName);
      var foreign := Unseeded(reached);
      var bad := CheckBlinks(head, links);
      var broken := nulls + bad;
      r := Some(Report(unlinked == [] && foreign == [] && broken == [] && !cycle,
                       walked, |processesByName|, unlinked, foreign, Cut(broken, 8), cycle));
    }

    method Unreached(reached: seq<int>) returns (names: seq<Name>)
      ensures names == NotReached(processesByName, reached)
    {
      names := [];
      for i := 0 to |processesByName|
        invariant names + NotReached(processesByName[i..], reached) == NotReached(processesByName, reached)
      {
        if processesByName[i].1 !in reached { names := names + [processesByName[i].0]; }
      }
    }

    method Unseeded(reached: seq<int>) returns (foreign: seq<int>)
      requires forall i, j | 0 <= i < j < |reached| :: reached[i] != reached[j]
      ensures foreign == NotSeeded(reached, processesByName)
    {
      foreign := [];
      for i := 0 to |reached|
        invariant foreign == NotSeeded(reached[..i], processesByName)
      {
        var known := false;
        for k := 0 to |processesByName|
          invariant known <==> exists j :: 0 <= j < k && processesByName[j].1 == reached[i]
        {
          if processesByName[k].1 == reached[i] { known := true; }
        }
        assert reached[..i + 1][..i] == reached[..i];
        if !known { foreign := foreign + [reached[i]]; }
      }
      assert reached[..|reached|] == reached;
    }

    method CheckBlinks(head: nat, links: seq<nat>) returns (bad: seq<Finding>)
      requires Valid()
      modifies mem`readCount, mem`missCount
      ensures Valid() && bad == BadBlinks(mem.Contents, head, links, layout.links)
    {
      hide U64;
      bad := [];
      for i := 0 to |links|
        invariant Valid() && bad == BadBlinks(mem.Contents, head, links[..i], layout.links)
      {
        var lv := links[i];
        var flink := mem.ReadU64(lv);
        var back := mem.ReadU64(if flink == head then head + 8 else flink + 8);
        assert links[..i + 1][..i] == links[..i];
        if back != lv { bad := bad + [BadBlink(lv - layout.links, back)]; }
      }
      assert links[..|links|] == links;
    }
  }

  function PidAt(m: Store, link: nat, l: Layout): nat
    requires link >= l.links
  {
    U64(m, link - l.links + l.pid)
  }

  lemma DistinctNone(off: nat)
    ensures Distinct(Eprocs([], off)) == []
  {
  }

  lemma DistinctStep(links: seq<nat>, off: nat, x: nat)
    ensures var before := Distinct(Eprocs(links, off));
      Distinct(Eprocs(links + [x], off)) == if x - off in before then before else before + [x - off]
  {
    assert Eprocs(links + [x], off) == Eprocs(links, off) + [x - off];
    assert Eprocs(links + [x], off)[..|links|] == Eprocs(links, off);
  }

  lemma WalkStep(m: Store, head: nat, cur: nat, walked: nat, before: seq<nat>)
    requires cur != head && cur != 0 && walked < MAX_WALK
    ensures var w := WalkLinks(m, head, cur, walked);
      && (U64(m, cur) == 0 || U64(m, cur + 8) == 0 ==> w == ([cur], true))
      && (U64(m, cur) != 0 && U64(m, cur + 8) != 0 ==>
            && before + w.0 == before + [cur] + WalkLinks(m, head, U64(m, cur), walked + 1).0
            && w.1 == WalkLinks(m, head, U64(m, cur), walked + 1).1)
  {
    hide U64;
    if U64(m, cur) != 0 && U64(m, cur + 8) != 0 {
      var rest := WalkLinks(m, head, U64(m, cur), walked + 1).0;
      assert before + ([cur] + rest) == before + [cur] + rest;
    }
  }

  lemma WalkStop(m: Store, head: nat, cur: nat, walked: nat, before: seq<nat>)
    ensures cur == head || cur == 0 || walked >= MAX_WALK ==>
      WalkLinks(m, head, cur, walked) == ([], false) && before + [] == before
  {
    hide U64;
  }

  /** A walk that stopped at a null link has that link last. */
  lemma WalkNulled(m: Store, head: nat, cur: nat, walked: nat)
    ensures WalkLinks(m, head, cur, walked).1 ==> WalkLinks(m, head, cur, walked).0 != []
  {
    hide U64;
  }

  lemma RingFirst(m: Store, head: nat, links: seq<nat>)
    requires Ring(m, head, links)
    ensures U64(m, head) == if links == [] then head else links[0]
  {
    hide U64;
  }

  /** A walk of a ring is back at the head only after its last entry. */
  lemma RingEnds(m: Store, head: nat, links: seq<nat>, i: nat)
    requires Ring(m, head, links) && i <= |links|
    requires var cur := if i < |links| then links[i] else head; cur == head || cur == 0
    ensures i == |links|
  {
    hide U64;
  }
}
