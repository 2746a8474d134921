/** The process list as a ring of LIST_ENTRY fields in memory: seeding, walking,
    unlinking, and the integrity scan over it. */
module ProcessRing {
  import opened Bytes
  import opened Store

  /** An image name, as the bytes of its characters. */
  type Name = seq<Byte>

  // ------------------------------------------------------------- the ring

  function Next(head: nat, links: seq<nat>, i: nat): nat
    requires i < |links|
  {
    if i == |links| - 1 then head else links[i + 1]
  }

  function Prev(head: nat, links: seq<nat>, i: nat): nat
    requires i < |links|
  {
    if i == 0 then head else links[i - 1]
  }

  predicate NodesApart(a: nat, b: nat) { a + 16 <= b || b + 16 <= a }

  /** The list entries do not overlap each other or the head, and none is at address 0. */
  ghost predicate Nodes(head: nat, links: seq<nat>) {
    && head > 0
    && (forall i | 0 <= i < |links| :: links[i] > 0 && NodesApart(links[i], head))
    && (forall i, j | 0 <= i < j < |links| :: NodesApart(links[i], links[j]))
  }

  /** A circular doubly linked list through head, in memory. */
  ghost predicate Ring(m: Store, head: nat, links: seq<nat>) {
    && Nodes(head, links)
    && (forall i | 0 <= i < |links| :: U64(m, links[i]) == Next(head, links, i) && U64(m, links[i] + 8) == Prev(head, links, i))
    && U64(m, head) == (if links == [] then head else links[0])
    && U64(m, head + 8) == (if links == [] then head else links[|links| - 1])
  }

  // ------------------------------------------------------------- unlinking

  function Unlinked(m: Store, link: nat): Store {
    var flink, blink := U64(m, link), U64(m, link + 8);
    W64(W64(m, blink, flink), flink + 8, blink)
  }

  function Without<T>(s: seq<T>, k: nat): seq<T>
    requires k < |s|
  {
    s[..k] + s[k + 1..]
  }

  lemma WriteLink(m: Store, a: nat, v: nat, b: nat)
    requires v < TWO_64
    ensures a == b ==> U64(W64(m, a, v), b) == v
    ensures b + 8 <= a || a + 8 <= b ==> U64(W64(m, a, v), b) == U64(m, b)
  {
    hide U64, W64;
    W64U64(m, a, v, b);
    ModUnique(v, TWO_64, 0, v);
  }

  /** The words the two writes of an unlink leave behind. */
  lemma UnlinkWords(m: Store, link: nat, p: nat, n: nat, b: nat)
    requires U64(m, link) == n && U64(m, link + 8) == p
    requires b + 8 <= p || p + 8 <= b || b == p
    requires b + 8 <= n + 8 || n + 16 <= b || b == n + 8
    requires p + 8 <= n + 8 || n + 16 <= p
    ensures U64(Unlinked(m, link), b) == if b == p then n else if b == n + 8 then p else U64(m, b)
  {
    hide U64, W64;
    U64InRange(m, link);
    U64InRange(m, link + 8);
    var m1 := W64(m, p, n);
    WriteLink(m, p, n, b);
    WriteLink(m1, n + 8, p, b);
  }

  /** How a node lies to the neighbours of node k. */
  lemma Neighbours(head: nat, links: seq<nat>, k: nat, j: nat)
    requires Nodes(head, links) && k < |links| && j < |links| && j != k
    ensures var p, n := Prev(head, links, k), Next(head, links, k);
      && (links[j] == p <==> j == k - 1) && (links[j] == n <==> j == k + 1)
      && (links[j] == p || NodesApart(links[j], p)) && (links[j] == n || NodesApart(links[j], n))
      && (p == n || NodesApart(p, n)) && (head == p || NodesApart(head, p)) && (head == n || NodesApart(head, n))
  {
  }

  lemma HeadNeighbours(head: nat, links: seq<nat>, k: nat)
    requires Nodes(head, links) && k < |links|
    ensures var p, n := Prev(head, links, k), Next(head, links, k);
      && (p == n || NodesApart(p, n)) && (head == p || NodesApart(head, p)) && (head == n || NodesApart(head, n))
      && (head == p <==> k == 0) && (head == n <==> k == |links| - 1)
  {
  }

  lemma RingAt(m: Store, head: nat, links: seq<nat>, i: nat)
    requires Ring(m, head, links) && i < |links|
    ensures U64(m, links[i]) == Next(head, links, i) && U64(m, links[i] + 8) == Prev(head, links, i)
    ensures Nodes(head, links)
  {
    hide U64, Nodes, Next, Prev;
  }

  lemma UnlinkHead(m: Store, head: nat, links: seq<nat>, k: nat)
    requires Ring(m, head, links) && k < |links|
    ensures U64(Unlinked(m, links[k]), head) == if k == 0 then Next(head, links, k) else links[0]
    ensures U64(Unlinked(m, links[k]), head + 8) == if k == |links| - 1 then Prev(head, links, k) else links[|links| - 1]
  {
    hide U64, W64, Unlinked, Ring, Nodes, Next, Prev, NodesApart;
    RingAt(m, head, links, k);
    RingHead(m, head, links);
    HeadNeighbours(head, links, k);
    HeadApart(head, links, k);
    var p, n := Prev(head, links, k), Next(head, links, k);
    UnlinkWords(m, links[k], p, n, head);
    UnlinkWords(m, links[k], p, n, head + 8);
  }

  lemma RingHead(m: Store, head: nat, links: seq<nat>)
    requires Ring(m, head, links) && links != []
    ensures U64(m, head) == links[0] && U64(m, head + 8) == links[|links| - 1]
  {
    hide U64, Nodes;
  }

  lemma HeadApart(head: nat, links: seq<nat>, k: nat)
    requires Nodes(head, links) && k < |links|
    ensures var p, n := Prev(head, links, k), Next(head, links, k);
      && (head == p || head + 16 <= p || p + 16 <= head) && (head == n || head + 16 <= n || n + 16 <= head)
      && (p == n || p + 16 <= n || n + 16 <= p)
  {
    HeadNeighbours(head, links, k);
  }

  lemma UnlinkNode(m: Store, head: nat, links: seq<nat>, k: nat, j: nat)
    requires Ring(m, head, links) && k < |links| && j < |links| && j != k
    ensures U64(Unlinked(m, links[k]), links[j]) == if j == k - 1 then Next(head, links, k) else Next(head, links, j)
    ensures U64(Unlinked(m, links[k]), links[j] + 8) == if j == k + 1 then Prev(head, links, k) else Prev(head, links, j)
  {
    hide U64, W64, Unlinked, Ring, Nodes, Prev, Next;
    RingAt(m, head, links, k);
    RingAt(m, head, links, j);
    Neighbours(head, links, k, j);
    var p, n := Prev(head, links, k), Next(head, links, k);
    UnlinkWords(m, links[k], p, n, links[j]);
    UnlinkWords(m, links[k], p, n, links[j] + 8);
  }

  /** Unlinking any one entry leaves the ring of the others. */
  lemma UnlinkRing(m: Store, head: nat, links: seq<nat>, k: nat)
    requires Ring(m, head, links) && k < |links|
    ensures Ring(Unlinked(m, links[k]), head, Without(links, k))
  {
    hide U64, W64, Unlinked, Nodes, Next, Prev, Without;
    UnlinkEnds(m, head, links, k);
    RingAt(m, head, links, k);
    WithoutNodes(head, links, k);
    WithoutLength(links, k);
    forall i | 0 <= i < |links| - 1
      ensures var m', rest := Unlinked(m, links[k]), Without(links, k);
        U64(m', rest[i]) == Next(head, rest, i) && U64(m', rest[i] + 8) == Prev(head, rest, i)
    {
      UnlinkRest(m, head, links, k, i);
    }
  }

  lemma WithoutLength<T>(s: seq<T>, k: nat)
    requires k < |s|
    ensures |Without(s, k)| == |s| - 1
  {
  }

  lemma UnlinkEnds(m: Store, head: nat, links: seq<nat>, k: nat)
    requires Ring(m, head, links) && k < |links|
    ensures var m', rest := Unlinked(m, links[k]), Without(links, k);
      && U64(m', head) == (if rest == [] then head else rest[0])
      && U64(m', head + 8) == (if rest == [] then head else rest[|rest| - 1])
  {
    hide U64, W64, Unlinked, Ring, Nodes;
    UnlinkHead(m, head, links, k);
  }

  lemma UnlinkRest(m: Store, head: nat, links: seq<nat>, k: nat, i: nat)
    requires Ring(m, head, links) && k < |links| && i < |links| - 1
    ensures var m', rest := Unlinked(m, links[k]), Without(links, k);
      U64(m', rest[i]) == Next(head, rest, i) && U64(m', rest[i] + 8) == Prev(head, rest, i)
  {
    hide U64, W64, Unlinked, Nodes, Ring;
    UnlinkNode(m, head, links, k, if i < k then i else i + 1);
  }

  lemma WithoutNodes(head: nat, links: seq<nat>, k: nat)
    requires Nodes(head, links) && k < |links|
    ensures Nodes(head, Without(links, k))
  {
    var rest := Without(links, k);
    forall i, j | 0 <= i < j < |rest|
      ensures NodesApart(rest[i], rest[j])
    {
      var i', j' := if i < k then i else i + 1, if j < k then j else j + 1;
      assert rest[i] == links[i'] && rest[j] == links[j'];
    }
  }

  // --------------------------------------------------------------- the scan

  const MAX_WALK: nat := 512

  /** The links the scan reaches from cur, and whether it stopped at a null link. */
  function WalkLinks(m: Store, head: nat, cur: nat, walked: nat): (seq<nat>, bool)
    decreases MAX_WALK - walked
  {
    if cur == head || cur == 0 || walked >= MAX_WALK then ([], false)
    else if U64(m, cur) == 0 || U64(m, cur + 8) == 0 then ([cur], true)
    else
      var (rest, nulled) := WalkLinks(m, head, U64(m, cur), walked + 1);
      ([cur] + rest, nulled)
  }

  /** The link that the successor of lv names as its predecessor. */
  function Back(m: Store, head: nat, lv: nat): nat {
    var flink := U64(m, lv);
    if flink == head then U64(m, head + 8) else U64(m, flink + 8)
  }

  datatype Finding = NullLink(at: int) | BadBlink(at: int, back: nat)

  datatype Report = Report(
    ok: bool, walked: nat, seeded: nat, unlinked: seq<Name>, foreign: seq<int>, broken: seq<Finding>, cycle: bool)

  function Eprocs(links: seq<nat>, linksOff: nat): seq<int> {
    seq(|links|, i requires 0 <= i < |links| => links[i] - linksOff)
  }

  function NotReached(seeded: seq<(Name, int)>, reached: seq<int>): seq<Name> {
    if seeded == [] then []
    else (if seeded[0].1 in reached then [] else [seeded[0].0]) + NotReached(seeded[1..], reached)
  }

  /** The distinct reached processes that were not seeded, in the order first reached. */
  function NotSeeded(reached: seq<int>, seeded: seq<(Name, int)>): seq<int> {
    if reached == [] then []
    else
      var before := NotSeeded(reached[..|reached| - 1], seeded);
      var e := reached[|reached| - 1];
      if e in reached[..|reached| - 1] || SeededHas(seeded, e) then before else before + [e]
  }

  predicate SeededHas(seeded: seq<(Name, int)>, e: int) { exists i :: 0 <= i < |seeded| && seeded[i].1 == e }

  function BadBlinks(m: Store, head: nat, links: seq<nat>, linksOff: nat): seq<Finding> {
    if links == [] then []
    else
      var n := |links| - 1;
      BadBlinks(m, head, links[..n], linksOff) +
        if Back(m, head, links[n]) != links[n] then [BadBlink(links[n] - linksOff, Back(m, head, links[n]))] else []
  }

  function Cut<T>(s: seq<T>, n: nat): seq<T> { if |s| <= n then s else s[..n] }

  /** scanProcessList. */
  function Scan(m: Store, head: nat, linksOff: nat, seeded: seq<(Name, int)>): Report {
    var (links, nulled) := WalkLinks(m, head, U64(m, head), 0);
    var walked: nat := if nulled && |links| > 0 then |links| - 1 else |links|;
    var cycle := walked >= MAX_WALK;
    var reached := Eprocs(links, linksOff);
    var unlinked := NotReached(seeded, reached);
    var foreign := NotSeeded(reached, seeded);
    var broken :=
      (if nulled && |links| > 0 then [NullLink(links[|links| - 1] - linksOff)] else []) + BadBlinks(m, head, links, linksOff);
    Report(unlinked == [] && foreign == [] && broken == [] && !cycle, walked, |seeded|, unlinked, foreign, Cut(broken, 8), cycle)
  }

  /** A forward chain from head back to head whose back links agree. Of the first entry's back
      link the scan asks only that it is not null. */
  ghost predicate Chain(m: Store, head: nat, links: seq<nat>) {
    && (forall i | 0 <= i < |links| :: links[i] != head && links[i] != 0 && U64(m, links[i] + 8) != 0)
    && (forall i | 0 <= i < |links| :: U64(m, links[i]) == Next(head, links, i))
    && (forall i | 0 < i < |links| :: U64(m, links[i] + 8) == Prev(head, links, i))
    && if links == [] then U64(m, head) == head || U64(m, head) == 0
       else U64(m, head) == links[0] && U64(m, head + 8) == links[|links| - 1]
  }

  lemma RingChain(m: Store, head: nat, links: seq<nat>)
    requires Ring(m, head, links)
    ensures Chain(m, head, links)
  {
    hide U64;
  }

  /** What a walk from cur, having taken walked steps, can have returned. */
  ghost predicate WalkedAs(m: Store, head: nat, cur: nat, walked: nat, links: seq<nat>, nulled: bool) {
    && (links == [] ==> !nulled && (cur == head || cur == 0 || walked >= 512))
    && (links != [] ==> links[0] == cur)
    && (forall i | 0 <= i < |links| :: links[i] != head && links[i] != 0 && (!nulled ==> U64(m, links[i] + 8) != 0))
    && (forall i | 0 <= i < |links| - 1 :: U64(m, links[i]) == Next(head, links, i))
    && (!nulled && links != [] && walked + |links| < 512 ==> U64(m, links[|links| - 1]) == head)
  }

  lemma WalkedMore(m: Store, head: nat, cur: nat, walked: nat, rest: seq<nat>, nulled: bool)
    requires head > 0 && cur != head && cur != 0 && walked < 512 && U64(m, cur) != 0 && U64(m, cur + 8) != 0
    requires WalkedAs(m, head, U64(m, cur), walked + 1, rest, nulled)
    ensures WalkedAs(m, head, cur, walked, [cur] + rest, nulled)
  {
    hide U64;
    var links := [cur] + rest;
    forall i | 0 <= i < |links| - 1
      ensures U64(m, links[i]) == Next(head, links, i)
    {
      if i > 0 { assert U64(m, rest[i - 1]) == Next(head, rest, i - 1); }
    }
  }

  /** The walk, on any memory: it follows forward links and stops at head, at a null link
      or at its limit. */
  lemma {:induction false} WalkShape(m: Store, head: nat, cur: nat, walked: nat)
    requires head > 0 && walked <= 512
    ensures var (links, nulled) := WalkLinks(m, head, cur, walked);
      WalkedAs(m, head, cur, walked, links, nulled) && walked + |links| <= 512
    decreases 512 - walked
  {
    hide U64;
    if cur != head && cur != 0 && walked < 512 && U64(m, cur) != 0 && U64(m, cur + 8) != 0 {
      WalkShape(m, head, U64(m, cur), walked + 1);
      var (rest, nulled) := WalkLinks(m, head, U64(m, cur), walked + 1);
      WalkedMore(m, head, cur, walked, rest, nulled);
    }
  }

  lemma ChainAt(m: Store, head: nat, links: seq<nat>, i: nat)
    requires Chain(m, head, links) && i < |links|
    ensures links[i] != head && links[i] != 0 && U64(m, links[i] + 8) != 0 && U64(m, links[i]) == Next(head, links, i)
    ensures i == |links| - 1 ==> Next(head, links, i) == head
    ensures i < |links| - 1 ==> Next(head, links, i) == links[i + 1] && links[i + 1] != 0
  {
    hide U64;
  }

  /** On a chain of fewer than 512 entries the walk is the chain. */
  lemma {:induction false} WalkChain(m: Store, head: nat, links: seq<nat>, i: nat, cur: nat)
    requires head > 0 && Chain(m, head, links) && i <= |links| < 512
    requires cur == if i < |links| then links[i] else head
    ensures WalkLinks(m, head, cur, i) == (links[i..], false)
    decreases |links| - i
  {
    hide U64, Chain, Next;
    if i < |links| {
      ChainAt(m, head, links, i);
      WalkChain(m, head, links, i + 1, U64(m, cur));
      assert links[i..] == [links[i]] + links[i + 1..];
    } else {
      assert links[i..] == [];
    }
  }

  lemma {:induction false} BadBlinksNone(m: Store, head: nat, links: seq<nat>, linksOff: nat)
    ensures BadBlinks(m, head, links, linksOff) == [] <==> forall i | 0 <= i < |links| :: Back(m, head, links[i]) == links[i]
  {
    hide U64, Back;
    if links != [] {
      var n := |links| - 1;
      BadBlinksNone(m, head, links[..n], linksOff);
      assert forall i | 0 <= i < n :: links[..n][i] == links[i];
    }
  }

  lemma {:induction false} NotReachedNone(seeded: seq<(Name, int)>, reached: seq<int>)
    ensures NotReached(seeded, reached) == [] <==> forall i | 0 <= i < |seeded| :: seeded[i].1 in reached
  {
    if seeded != [] {
      NotReachedNone(seeded[1..], reached);
      assert forall i | 0 < i < |seeded| :: seeded[i] == seeded[1..][i - 1];
    }
  }

  lemma {:induction false} NotSeededNone(reached: seq<int>, seeded: seq<(Name, int)>)
    ensures NotSeeded(reached, seeded) == [] <==> forall i | 0 <= i < |reached| :: SeededHas(seeded, reached[i])
  {
    hide SeededHas;
    if reached != [] {
      var n := |reached| - 1;
      NotSeededNone(reached[..n], seeded);
      assert forall i | 0 <= i < n :: reached[..n][i] == reached[i];
    }
  }

  /** The chain holds exactly the seeded processes. */
  ghost predicate SameProcesses(links: seq<nat>, linksOff: nat, seeded: seq<(Name, int)>) {
    && (forall i | 0 <= i < |seeded| :: seeded[i].1 in Eprocs(links, linksOff))
    && (forall i | 0 <= i < |links| :: SeededHas(seeded, links[i] - linksOff))
  }

  /** The scan's verdict, for every memory and every seeded list: ok exactly when the links
      form a chain of fewer than 512 entries that are the seeded processes. */
  lemma ScanOkIff(m: Store, head: nat, linksOff: nat, seeded: seq<(Name, int)>)
    requires head > 0
    ensures Scan(m, head, linksOff, seeded).ok <==>
      exists links: seq<nat> :: Chain(m, head, links) && |links| < 512 && SameProcesses(links, linksOff, seeded)
  {
    hide U64;
    var (links, nulled) := WalkLinks(m, head, U64(m, head), 0);
    WalkShape(m, head, U64(m, head), 0);
    VerdictParts(m, head, linksOff, seeded, links);
    if Scan(m, head, linksOff, seeded).ok {
      ChainOfWalk(m, head, links);
      assert SameProcesses(links, linksOff, seeded);
    }
    if ls: seq<nat> :| Chain(m, head, ls) && |ls| < 512 && SameProcesses(ls, linksOff, seeded) {
      ChainWalked(m, head, ls);
      ChainBacks(m, head, ls);
    }
  }

  lemma {:induction false} NotReachedHas(seeded: seq<(Name, int)>, reached: seq<int>, x: Name)
    ensures x in NotReached(seeded, reached) <==>
      exists i :: 0 <= i < |seeded| && seeded[i].0 == x && seeded[i].1 !in reached
  {
    if seeded != [] {
      var rest := seeded[1..];
      NotReachedHas(rest, reached, x);
      assert x in NotReached(seeded, reached) <==> (seeded[0].0 == x && seeded[0].1 !in reached) || x in NotReached(rest, reached);
      hide NotReached;
      if i :| 0 <= i < |rest| && rest[i].0 == x && rest[i].1 !in reached { assert seeded[i + 1] == rest[i]; }
      if i :| 0 <= i < |seeded| && seeded[i].0 == x && seeded[i].1 !in reached {
        if i > 0 { assert rest[i - 1] == seeded[i]; }
      }
    }
  }

  /** Missed processes are named in the order of the name table. */
  lemma {:induction false} NotReachedAppend(seeded: seq<(Name, int)>, more: seq<(Name, int)>, reached: seq<int>)
    ensures NotReached(seeded + more, reached) == NotReached(seeded, reached) + NotReached(more, reached)
  {
    if seeded == [] {
      assert seeded + more == more;
    } else {
      assert (seeded + more)[0] == seeded[0] && (seeded + more)[1..] == seeded[1..] + more;
      NotReachedAppend(seeded[1..], more, reached);
    }
  }

  lemma {:induction false} NotSeededHas(reached: seq<int>, seeded: seq<(Name, int)>, k: nat)
    requires k <= |reached|
    ensures var f := NotSeeded(reached, seeded);
      && (forall e :: e in f <==> e in reached && !SeededHas(seeded, e))
      && (forall i, j | 0 <= i < j < |f| :: f[i] != f[j])
      && NotSeeded(reached[..k], seeded) <= f
    decreases |reached|
  {
    hide SeededHas;
    if reached != [] {
      var n := |reached| - 1;
      if k <= n {
        NotSeededHas(reached[..n], seeded, k);
        assert reached[..n][..k] == reached[..k];
      } else {
        NotSeededHas(reached[..n], seeded, 0);
        assert reached[..k] == reached;
      }
      assert reached == reached[..n] + [reached[n]];
    } else {
      assert reached[..k] == reached;
    }
  }

  lemma {:induction false} BadBlinksHas(m: Store, head: nat, links: seq<nat>, linksOff: nat)
    ensures forall f :: f in BadBlinks(m, head, links, linksOff) <==>
      exists i :: 0 <= i < |links| && BadAt(m, head, links[i], linksOff, f)
    decreases |links|
  {
    hide U64, BadAt;
    if links != [] {
      var n := |links| - 1;
      BadBlinksHas(m, head, links[..n], linksOff);
      forall f
        ensures f in BadBlinks(m, head, links, linksOff) <==>
          exists i :: 0 <= i < |links| && BadAt(m, head, links[i], linksOff, f)
      {
        LastBad(m, head, links, linksOff, f);
        if i :| 0 <= i < n && BadAt(m, head, links[..n][i], linksOff, f) { assert links[i] == links[..n][i]; }
        if i :| 0 <= i < |links| && BadAt(m, head, links[i], linksOff, f) {
          if i < n { assert links[..n][i] == links[i]; }
        }
      }
    }
  }

  lemma LastBad(m: Store, head: nat, links: seq<nat>, linksOff: nat, f: Finding)
    requires links != []
    ensures var n := |links| - 1;
      f in BadBlinks(m, head, links, linksOff) <==> f in BadBlinks(m, head, links[..n], linksOff) || BadAt(m, head, links[n], linksOff, f)
  {
    hide U64, BadBlinks, BadAt, Back;
    var n := |links| - 1;
    var before, back := BadBlinks(m, head, links[..n], linksOff), Back(m, head, links[n]);
    BadStep(m, head, links, linksOff);
    BackIs(m, head, links[n], linksOff, f);
    InAppend(before, back != links[n], BadBlink(links[n] - linksOff, back), f);
  }

  lemma BadStep(m: Store, head: nat, links: seq<nat>, linksOff: nat)
    requires links != []
    ensures var n := |links| - 1; var back := Back(m, head, links[n]);
      BadBlinks(m, head, links, linksOff)
      == BadBlinks(m, head, links[..n], linksOff) + if back != links[n] then [BadBlink(links[n] - linksOff, back)] else []
  {
    hide U64, Back;
  }

  lemma BackIs(m: Store, head: nat, lv: nat, linksOff: nat, f: Finding)
    ensures BadAt(m, head, lv, linksOff, f) <==> Back(m, head, lv) != lv && f == BadBlink(lv - linksOff, Back(m, head, lv))
  {
    hide U64;
  }

  lemma InAppend<T>(s: seq<T>, more: bool, x: T, y: T)
    ensures y in s + (if more then [x] else []) <==> y in s || (more && y == x)
  {
  }

  /** The successor of the entry at lv points back elsewhere: at the head if it is the last one. */
  predicate BadAt(m: Store, head: nat, lv: nat, linksOff: nat, f: Finding) {
    var back := U64(m, (if U64(m, lv) == head then head else U64(m, lv)) + 8);
    back != lv && f == BadBlink(lv - linksOff, back)
  }

  lemma {:induction false} BadBlinksAppend(m: Store, head: nat, links: seq<nat>, linksOff: nat, more: seq<nat>)
    ensures BadBlinks(m, head, links + more, linksOff) == BadBlinks(m, head, links, linksOff) + BadBlinks(m, head, more, linksOff)
    decreases |more|
  {
    hide U64, Back;
    if more != [] {
      var n := |more| - 1;
      BadBlinksAppend(m, head, links, linksOff, more[..n]);
      assert (links + more)[..|links| + n] == links + more[..n];
    } else {
      assert links + more == links;
    }
  }

  /** The whole report, for every memory: how many steps the walk took, its findings, of which eight are
      listed, a null link first and then every entry that its successor does not point back to, the seeded
      processes it missed and the ones it met that were not seeded. */
  lemma ReportIs(m: Store, head: nat, linksOff: nat, seeded: seq<(Name, int)>)
    requires head > 0
    ensures var (links, nulled) := WalkLinks(m, head, U64(m, head), 0); var r := Scan(m, head, linksOff, seeded);
      var all := (if nulled then [NullLink(links[|links| - 1] - linksOff)] else []) + BadBlinks(m, head, links, linksOff);
      && r.walked == (if nulled then |links| - 1 else |links|) && (r.cycle <==> r.walked >= 512) && r.seeded == |seeded|
      && (forall x :: x in r.unlinked <==>
            exists i :: 0 <= i < |seeded| && seeded[i].0 == x && seeded[i].1 !in Eprocs(links, linksOff))
      && (forall e :: e in r.foreign <==> e in Eprocs(links, linksOff) && !SeededHas(seeded, e))
      && r.broken == (if |all| > 8 then all[..8] else all)
      && (r.ok <==> r.unlinked == [] && r.foreign == [] && r.broken == [] && !r.cycle)
  {
    hide U64, SeededHas, Back, WalkLinks, NotReached, NotSeeded, BadBlinks, Eprocs, Chain;
    var (links, nulled) := WalkLinks(m, head, U64(m, head), 0);
    WalkShape(m, head, U64(m, head), 0);
    NullAtEnd(m, head, links, nulled);
    forall x
      ensures x in NotReached(seeded, Eprocs(links, linksOff)) <==>
        exists i :: 0 <= i < |seeded| && seeded[i].0 == x && seeded[i].1 !in Eprocs(links, linksOff)
    {
      NotReachedHas(seeded, Eprocs(links, linksOff), x);
    }
    NotSeededHas(Eprocs(links, linksOff), seeded, 0);
  }

  lemma NullAtEnd(m: Store, head: nat, links: seq<nat>, nulled: bool)
    requires WalkedAs(m, head, U64(m, head), 0, links, nulled)
    ensures nulled ==> links != []
  {
    hide U64;
  }

  lemma VerdictParts(m: Store, head: nat, linksOff: nat, seeded: seq<(Name, int)>, links: seq<nat>)
    ensures BadBlinks(m, head, links, linksOff) == [] <==> forall i | 0 <= i < |links| :: Back(m, head, links[i]) == links[i]
    ensures NotReached(seeded, Eprocs(links, linksOff)) == [] && NotSeeded(Eprocs(links, linksOff), seeded) == [] <==>
      SameProcesses(links, linksOff, seeded)
  {
    hide U64, Back, SeededHas;
    BadBlinksNone(m, head, links, linksOff);
    NotReachedNone(seeded, Eprocs(links, linksOff));
    NotSeededNone(Eprocs(links, linksOff), seeded);
    assert forall i | 0 <= i < |links| :: Eprocs(links, linksOff)[i] == links[i] - linksOff;
  }

  lemma ChainOfWalk(m: Store, head: nat, links: seq<nat>)
    requires head > 0 && WalkLinks(m, head, U64(m, head), 0) == (links, false) && |links| < 512
    requires forall i | 0 <= i < |links| :: Back(m, head, links[i]) == links[i]
    ensures Chain(m, head, links)
  {
    hide *;
    WalkShape(m, head, U64(m, head), 0);
    ChainParts(m, head, links);
    forall i | 0 <= i < |links|
      ensures links[i] != head && links[i] != 0 && U64(m, links[i] + 8) != 0
      ensures U64(m, links[i]) == Next(head, links, i)
    {
      WalkedAt(m, head, links, i);
    }
    forall i | 0 < i < |links|
      ensures U64(m, links[i] + 8) == Prev(head, links, i)
    {
      WalkedBack(m, head, links, i);
    }
    WalkedEnds(m, head, links);
  }

  lemma ChainParts(m: Store, head: nat, links: seq<nat>)
    ensures Chain(m, head, links) <==>
      && (forall i | 0 <= i < |links| :: links[i] != head && links[i] != 0 && U64(m, links[i] + 8) != 0)
      && (forall i | 0 <= i < |links| :: U64(m, links[i]) == Next(head, links, i))
      && (forall i | 0 < i < |links| :: U64(m, links[i] + 8) == Prev(head, links, i))
      && if links == [] then U64(m, head) == head || U64(m, head) == 0
         else U64(m, head) == links[0] && U64(m, head + 8) == links[|links| - 1]
  {
    hide U64, Next, Prev;
  }

  lemma WalkedBack(m: Store, head: nat, links: seq<nat>, i: nat)
    requires WalkedAs(m, head, U64(m, head), 0, links, false) && |links| < 512 && 0 < i < |links|
    requires Back(m, head, links[i - 1]) == links[i - 1]
    ensures U64(m, links[i] + 8) == Prev(head, links, i)
  {
    hide U64, Back, Next, Prev, WalkedAs;
    WalkedAt(m, head, links, i - 1);
    NextPrev(head, links, i);
    BackOf(m, head, links, i - 1);
  }

  lemma WalkedAt(m: Store, head: nat, links: seq<nat>, i: nat)
    requires WalkedAs(m, head, U64(m, head), 0, links, false) && |links| < 512 && i < |links|
    ensures links[i] != head && links[i] != 0 && U64(m, links[i] + 8) != 0 && U64(m, links[i]) == Next(head, links, i)
    ensures i < |links| - 1 ==> links[i + 1] != head
  {
    hide U64;
  }

  lemma WalkedEnds(m: Store, head: nat, links: seq<nat>)
    requires head > 0 && WalkedAs(m, head, U64(m, head), 0, links, false) && |links| < 512
    requires forall i | 0 <= i < |links| :: Back(m, head, links[i]) == links[i]
    ensures if links == [] then U64(m, head) == head || U64(m, head) == 0
            else U64(m, head) == links[0] && U64(m, head + 8) == links[|links| - 1]
  {
    hide U64;
  }

  lemma NextPrev(head: nat, links: seq<nat>, i: nat)
    requires 0 < i < |links|
    ensures Next(head, links, i - 1) == links[i] && Prev(head, links, i) == links[i - 1]
  {
  }

  lemma BackOf(m: Store, head: nat, links: seq<nat>, i: nat)
    requires i < |links| && links[i] != 0 && U64(m, links[i]) == Next(head, links, i)
    requires i < |links| - 1 ==> links[i + 1] != head
    ensures Back(m, head, links[i]) == if i == |links| - 1 then U64(m, head + 8) else U64(m, links[i + 1] + 8)
  {
    hide U64;
  }

  lemma ChainBacks(m: Store, head: nat, links: seq<nat>)
    requires Chain(m, head, links)
    ensures forall i | 0 <= i < |links| :: Back(m, head, links[i]) == links[i]
  {
    hide U64;
    forall i | 0 <= i < |links|
      ensures Back(m, head, links[i]) == links[i]
    {
      if i < |links| - 1 { assert U64(m, links[i + 1] + 8) == Prev(head, links, i + 1); }
    }
  }

  lemma ChainWalked(m: Store, head: nat, links: seq<nat>)
    requires head > 0 && Chain(m, head, links) && |links| < 512
    ensures WalkLinks(m, head, U64(m, head), 0) == (links, false)
  {
    hide U64;
    if links != [] {
      WalkChain(m, head, links, 0, links[0]);
      assert links[0..] == links;
    }
  }

  /** The condition leaves out the first entry's back link: a ring whose first Blink is any
      other non-null value still scans as ok. */
  lemma FirstBlinkUnchecked(m: Store, head: nat, links: seq<nat>, linksOff: nat, seeded: seq<(Name, int)>, v: nat)
    requires Ring(m, head, links) && 0 < |links| < 512 && SameProcesses(links, linksOff, seeded) && 0 < v < TWO_64
    ensures Scan(W64(m, links[0] + 8, v), head, linksOff, seeded).ok
  {
    hide U64, W64, Scan, Ring, SameProcesses, Next, Prev, Chain;
    var m' := W64(m, links[0] + 8, v);
    RingChain(m, head, links);
    RingAt(m, head, links, 0);
    FirstApart(head, links);
    WriteLink(m, links[0] + 8, v, head);
    WriteLink(m, links[0] + 8, v, head + 8);
    WriteLink(m, links[0] + 8, v, links[0] + 8);
    forall i | 0 <= i < |links|
      ensures U64(m', links[i]) == U64(m, links[i]) && (i > 0 ==> U64(m', links[i] + 8) == U64(m, links[i] + 8))
    {
      WriteLink(m, links[0] + 8, v, links[i]);
      WriteLink(m, links[0] + 8, v, links[i] + 8);
    }
    ChainMoved(m, m', head, links);
    ScanOkIff(m', head, linksOff, seeded);
  }

  lemma FirstApart(head: nat, links: seq<nat>)
    requires Nodes(head, links) && links != []
    ensures head > 0 && NodesApart(links[0], head)
    ensures forall i | 0 < i < |links| :: NodesApart(links[0], links[i])
  {
  }

  lemma ChainMoved(m: Store, m': Store, head: nat, links: seq<nat>)
    requires Chain(m, head, links) && links != [] && U64(m', links[0] + 8) > 0
    requires U64(m', head) == U64(m, head) && U64(m', head + 8) == U64(m, head + 8)
    requires forall i | 0 <= i < |links| ::
      U64(m', links[i]) == U64(m, links[i]) && (i > 0 ==> U64(m', links[i] + 8) == U64(m, links[i] + 8))
    ensures Chain(m', head, links)
  {
    hide U64, Next, Prev;
  }

  /** The seeded list of a ring: one named process for each link, in order. */
  ghost predicate SeededFor(links: seq<nat>, linksOff: nat, seeded: seq<(Name, int)>) {
    |seeded| == |links| && forall i | 0 <= i < |links| :: seeded[i].1 == links[i] - linksOff
  }

  lemma SeededSame(links: seq<nat>, linksOff: nat, seeded: seq<(Name, int)>)
    requires SeededFor(links, linksOff, seeded)
    ensures SameProcesses(links, linksOff, seeded)
  {
    forall i | 0 <= i < |links|
      ensures SeededHas(seeded, links[i] - linksOff) && seeded[i].1 in Eprocs(links, linksOff)
    {
      assert Eprocs(links, linksOff)[i] == links[i] - linksOff;
    }
  }

  /** The intact ring scans as ok exactly while it has fewer than 512 entries. */
  lemma IntactScan(m: Store, head: nat, links: seq<nat>, linksOff: nat, seeded: seq<(Name, int)>)
    requires Ring(m, head, links) && SeededFor(links, linksOff, seeded)
    ensures Scan(m, head, linksOff, seeded).ok <==> |links| < 512
  {
    hide U64, Scan;
    RingChain(m, head, links);
    SeededSame(links, linksOff, seeded);
    ScanOkIff(m, head, linksOff, seeded);
    if |links| >= 512 {
      forall ls: seq<nat> | Chain(m, head, ls) && |ls| < 512
        ensures false
      {
        ChainPrefix(m, head, links, ls, |ls|);
      }
    }
  }

  /** Two chains from one head agree as far as both go; so neither ends before the other. */
  lemma {:induction false} ChainPrefix(m: Store, head: nat, f: seq<nat>, g: seq<nat>, k: nat)
    requires head > 0 && Chain(m, head, f) && Chain(m, head, g) && k <= |f| && k <= |g|
    ensures f[..k] == g[..k]
    ensures k == |g| ==> k == |f|
    decreases k
  {
    hide U64;
    if k > 0 {
      ChainPrefix(m, head, f, g, k - 1);
      assert f[..k - 1] == g[..k - 1];
      if k == 1 {
        assert f[0] == g[0];
      } else {
        assert f[k - 2] == f[..k - 1][k - 2] == g[k - 2];
        assert U64(m, f[k - 2]) == Next(head, f, k - 2);
      }
      assert f[..k] == f[..k - 1] + [f[k - 1]] && g[..k] == g[..k - 1] + [g[k - 1]];
      assert U64(m, f[k - 1]) == Next(head, f, k - 1);
    }
  }

  lemma {:induction false} NotReachedOne(seeded: seq<(Name, int)>, reached: seq<int>, k: nat)
    requires k < |seeded| && forall i | 0 <= i < |seeded| :: seeded[i].1 in reached <==> i != k
    ensures NotReached(seeded, reached) == [seeded[k].0]
    decreases |seeded|
  {
    assert forall i | 0 < i < |seeded| :: seeded[i] == seeded[1..][i - 1];
    if k == 0 {
      NotReachedNone(seeded[1..], reached);
    } else {
      NotReachedOne(seeded[1..], reached, k - 1);
    }
  }

  /** On a chain of fewer than 512 entries the scan compares the chain with the seeded list. */
  lemma ScanOnChain(m: Store, head: nat, links: seq<nat>, linksOff: nat, seeded: seq<(Name, int)>)
    requires head > 0 && Chain(m, head, links) && |links| < 512
    ensures var r, reached := Scan(m, head, linksOff, seeded), Eprocs(links, linksOff);
      r.unlinked == NotReached(seeded, reached) && r.foreign == NotSeeded(reached, seeded)
  {
    hide U64, Chain;
    ChainWalked(m, head, links);
  }

  /** After one process is unlinked the scan names it, and finds nothing else wrong. */
  lemma UnlinkedScan(m: Store, head: nat, links: seq<nat>, linksOff: nat, seeded: seq<(Name, int)>, k: nat)
    requires Ring(m, head, links) && SeededFor(links, linksOff, seeded) && k < |links| <= 512
    ensures var r := Scan(Unlinked(m, links[k]), head, linksOff, seeded);
      r == Report(false, |links| - 1, |links|, [seeded[k].0], [], [], false)
  {
    hide U64, Unlinked, Back;
    var m' := Unlinked(m, links[k]);
    var rest := Without(links, k);
    UnlinkRing(m, head, links, k);
    RingChain(m', head, rest);
    ChainWalked(m', head, rest);
    ChainBacks(m', head, rest);
    BadBlinksNone(m', head, rest, linksOff);
    RestReached(head, links, linksOff, seeded, k);
    NotReachedOne(seeded, Eprocs(rest, linksOff), k);
    NotSeededNone(Eprocs(rest, linksOff), seeded);
  }

  lemma RestReached(head: nat, links: seq<nat>, linksOff: nat, seeded: seq<(Name, int)>, k: nat)
    requires Nodes(head, links) && SeededFor(links, linksOff, seeded) && k < |links|
    ensures var reached := Eprocs(Without(links, k), linksOff);
      && (forall i | 0 <= i < |seeded| :: seeded[i].1 in reached <==> i != k)
      && (forall i | 0 <= i < |reached| :: SeededHas(seeded, reached[i]))
  {
    var rest := Without(links, k);
    var reached := Eprocs(rest, linksOff);
    forall i | 0 <= i < |rest|
      ensures reached[i] == links[if i < k then i else i + 1] - linksOff
      ensures SeededHas(seeded, reached[i])
    {
      assert seeded[if i < k then i else i + 1].1 == reached[i];
    }
    forall i | 0 <= i < |seeded|
      ensures seeded[i].1 in reached <==> i != k
    {
      if i != k { assert reached[if i < k then i else i - 1] == seeded[i].1; }
    }
  }
}
