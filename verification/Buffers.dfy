/** Byte buffers: reads that give zero past the end, in-place writes, and files described as
    the concatenation of their parts. */
module Buffers {
  import opened Bytes

  /** A typed-array element read: past the end it is undefined, which the callers' bitwise
      operators turn into zero. */
  function ByteAt(b: seq<Byte>, o: nat): Byte { if o < |b| then b[o] else 0 }

  function Window(b: seq<Byte>, o: nat, n: nat): (s: seq<Byte>)
    ensures |s| == n
  {
    seq(n, i requires 0 <= i < n => ByteAt(b, o + i))
  }

  function U16At(b: seq<Byte>, o: nat): nat { FromLE(Window(b, o, 2)) }

  function U32At(b: seq<Byte>, o: nat): nat { FromLE(Window(b, o, 4)) }

  /** Little endian. */
  lemma U16Is(b: seq<Byte>, o: nat)
    ensures U16At(b, o) == ByteAt(b, o) as nat + 0x100 * ByteAt(b, o + 1) as nat
  {
    var w := Window(b, o, 2);
    assert w == [ByteAt(b, o), ByteAt(b, o + 1)];
    assert w[1..] == [w[1]] && [w[1]][1..] == [];
    assert FromLE([w[1]]) == w[1] as nat;
  }

  lemma U32Is(b: seq<Byte>, o: nat)
    ensures U32At(b, o) == ByteAt(b, o) as nat + 0x100 * ByteAt(b, o + 1) as nat
      + 0x1_0000 * ByteAt(b, o + 2) as nat + 0x100_0000 * ByteAt(b, o + 3) as nat
  {
    var w := Window(b, o, 4);
    assert w[1..] == [w[1], w[2], w[3]] && [w[1], w[2], w[3]][1..] == [w[2], w[3]];
    assert [w[2], w[3]][1..] == [w[3]] && [w[3]][1..] == [];
    assert FromLE([w[3]]) == w[3] as nat;
    assert FromLE([w[2], w[3]]) == w[2] as nat + 0x100 * w[3] as nat;
    assert FromLE(w[1..]) == w[1] as nat + 0x100 * FromLE([w[2], w[3]]);
  }

  lemma U32Bound(b: seq<Byte>, o: nat)
    ensures U32At(b, o) < TWO_32
  {
    Pow256Values();
    ToFromLE(Window(b, o, 4));
  }

  lemma PastEnd(b: seq<Byte>, o: nat)
    requires o >= |b|
    ensures U32At(b, o) == 0
  {
    forall i | 0 <= i < 4
      ensures Window(b, o, 4)[i] == Zeros(4)[i]
    {
      assert ByteAt(b, o + i) == 0;
    }
    assert Window(b, o, 4) == Zeros(4);
    FromLEZeros(4);
  }

  /** bs stands in b at offset o. */
  ghost predicate Holds(b: seq<Byte>, o: nat, bs: seq<Byte>) { o + |bs| <= |b| && b[o..o + |bs|] == bs }

  lemma HoldsIn(b: seq<Byte>, o: nat, bs: seq<Byte>, k: nat, cs: seq<Byte>)
    requires Holds(b, o, bs) && Holds(bs, k, cs)
    ensures Holds(b, o + k, cs)
  {
    forall i | 0 <= i < |cs|
      ensures b[o + k..o + k + |cs|][i] == cs[i]
    {
      assert cs[i] == bs[k..k + |cs|][i] == bs[k + i];
      assert bs[k + i] == b[o..o + |bs|][k + i] == b[o + k + i];
    }
  }

  /** What stands in a prefix stands in the whole. */
  lemma HoldsMore(b: seq<Byte>, more: seq<Byte>, o: nat, bs: seq<Byte>)
    requires Holds(b, o, bs)
    ensures Holds(b + more, o, bs)
  {
    assert (b + more)[o..o + |bs|] == b[o..o + |bs|];
  }

  lemma HoldsLast(x: seq<Byte>, y: seq<Byte>)
    ensures Holds(x + y, |x|, y) && Holds(x + y, 0, x)
  {
  }

  lemma HoldsMid(x: seq<Byte>, y: seq<Byte>, z: seq<Byte>)
    ensures Holds(x + y + z, |x|, y)
  {
  }

  lemma HoldsWindow(b: seq<Byte>, o: nat, bs: seq<Byte>)
    requires Holds(b, o, bs)
    ensures Window(b, o, |bs|) == bs
  {
    forall i | 0 <= i < |bs|
      ensures Window(b, o, |bs|)[i] == bs[i]
    {
      assert bs[i] == b[o..o + |bs|][i] == b[o + i] == ByteAt(b, o + i);
    }
  }

  lemma HoldsU32(b: seq<Byte>, o: nat, v: nat)
    requires Holds(b, o, ToLE(v, 4)) && v < TWO_32
    ensures U32At(b, o) == v
  {
    HoldsWindow(b, o, ToLE(v, 4));
    Pow256Values();
    FromToLE(v, 4);
    ModUnique(v, TWO_32, 0, v);
  }

  lemma HoldsU16(b: seq<Byte>, o: nat, v: nat)
    requires Holds(b, o, ToLE(v, 2)) && v < 0x1_0000
    ensures U16At(b, o) == v
  {
    HoldsWindow(b, o, ToLE(v, 2));
    Pow256Values();
    FromToLE(v, 2);
    ModUnique(v, 0x1_0000, 0, v);
  }

  lemma HoldsZero(b: seq<Byte>, o: nat, n: nat, k: nat)
    requires Holds(b, o, Zeros(n))
    ensures k + 4 <= n ==> U32At(b, o + k) == 0
    ensures k + 2 <= n ==> U16At(b, o + k) == 0
  {
    if k + 4 <= n {
      assert Zeros(n)[k..k + 4] == Zeros(4);
      HoldsIn(b, o, Zeros(n), k, Zeros(4));
      HoldsWindow(b, o + k, Zeros(4));
      FromLEZeros(4);
    }
    if k + 2 <= n {
      assert Zeros(n)[k..k + 2] == Zeros(2);
      HoldsIn(b, o, Zeros(n), k, Zeros(2));
      HoldsWindow(b, o + k, Zeros(2));
      FromLEZeros(2);
    }
  }

  // ---------------------------------------------------------------- in-place writes

  function SpliceAt(b: seq<Byte>, o: nat, bs: seq<Byte>): (r: seq<Byte>)
    requires o + |bs| <= |b|
    ensures |r| == |b|
  {
    b[..o] + bs + b[o + |bs|..]
  }

  /** Byte by byte, as w16, w32, w64 and the name loops do. */
  method PutBytes(buf: array<Byte>, o: nat, bs: seq<Byte>)
    requires o + |bs| <= buf.Length
    modifies buf
    ensures buf[..] == SpliceAt(old(buf[..]), o, bs)
  {
    for i := 0 to |bs|
      invariant forall k | 0 <= k < buf.Length :: buf[k] == if o <= k < o + i then bs[k - o] else old(buf[k])
    {
      buf[o + i] := bs[i];
    }
  }

  method NewBuffer(n: nat) returns (buf: array<Byte>)
    ensures fresh(buf) && buf[..] == Zeros(n)
  {
    buf := new Byte[n](_ => 0);
  }

  /** Writing past what is there, into zeros. */
  lemma SpliceZeros(pre: seq<Byte>, m: nat, gap: nat, t: seq<Byte>)
    requires gap + |t| <= m
    ensures SpliceAt(pre + Zeros(m), |pre| + gap, t) == (pre + Zeros(gap) + t) + Zeros(m - gap - |t|)
  {
  }

  lemma SpliceIn(x: seq<Byte>, y: seq<Byte>, z: seq<Byte>, o: nat, t: seq<Byte>)
    requires o + |t| <= |y|
    ensures SpliceAt(x + y + z, |x| + o, t) == x + SpliceAt(y, o, t) + z
  {
  }

  /** s, filled up with zeros. */
  function Pad(s: seq<Byte>, n: nat): (r: seq<Byte>)
    requires |s| <= n
    ensures |r| == n
  {
    s + Zeros(n - |s|)
  }

  lemma SplicePad(s: seq<Byte>, n: nat, t: seq<Byte>)
    requires |s| + |t| <= n
    ensures SpliceAt(Pad(s, n), |s|, t) == Pad(s + t, n)
  {
  }

  lemma PadGap(s: seq<Byte>, n: nat, k: nat)
    requires |s| + k <= n
    ensures Pad(s + Zeros(k), n) == Pad(s, n)
  {
  }

  lemma HoldsPad(s: seq<Byte>, n: nat)
    requires |s| <= n
    ensures Holds(Pad(s, n), 0, s)
  {
  }

  // -------------------------------------------------------------------- parts

  /** The concatenation of parts. */
  function Flat(parts: seq<seq<Byte>>): seq<Byte> {
    if parts == [] then [] else Flat(parts[..|parts| - 1]) + parts[|parts| - 1]
  }

  lemma FlatStep(parts: seq<seq<Byte>>, k: nat)
    requires k < |parts|
    ensures Flat(parts[..k + 1]) == Flat(parts[..k]) + parts[k]
  {
    assert parts[..k + 1][..k] == parts[..k];
  }

  lemma {:induction false} FlatLe(parts: seq<seq<Byte>>, k: nat)
    requires k <= |parts|
    ensures |Flat(parts[..k])| <= |Flat(parts)|
    decreases |parts| - k
  {
    if k < |parts| {
      FlatStep(parts, k);
      FlatLe(parts, k + 1);
    } else {
      assert parts[..k] == parts;
    }
  }

  /** Each part stands after those before it. */
  lemma {:induction false} FlatHolds(parts: seq<seq<Byte>>, k: nat)
    requires k < |parts|
    ensures Holds(Flat(parts), |Flat(parts[..k])|, parts[k])
  {
    var n := |parts| - 1;
    var before := Flat(parts[..n]);
    if k == n {
      HoldsMid(before, parts[n], []);
      assert before + parts[n] + [] == Flat(parts);
    } else {
      FlatHolds(parts[..n], k);
      assert parts[..n][..k] == parts[..k];
      HoldsMid([], before, parts[n]);
      assert [] + before + parts[n] == Flat(parts);
      HoldsIn(Flat(parts), 0, before, |Flat(parts[..k])|, parts[k]);
    }
  }

  /** Parts of one length stand at its multiples. */
  lemma {:induction false} FlatEven(parts: seq<seq<Byte>>, size: nat)
    requires forall i | 0 <= i < |parts| :: |parts[i]| == size
    ensures |Flat(parts)| == size * |parts|
  {
    if parts != [] {
      FlatEven(parts[..|parts| - 1], size);
      assert size * |parts| == size * (|parts| - 1) + size;
    }
  }

  // ------------------------------------------------------------------ C strings

  /** readCString: up to max bytes, stopping before a zero or at the end of the buffer. */
  function CString(b: seq<Byte>, off: nat, max: nat): seq<Byte>
    decreases max
  {
    if max == 0 || off >= |b| || b[off] == 0 then [] else [b[off]] + CString(b, off + 1, max - 1)
  }

  predicate NoZero(s: seq<Byte>) { forall i | 0 <= i < |s| :: s[i] != 0 }

  lemma HoldsHead(b: seq<Byte>, off: nat, c: Byte, t: seq<Byte>)
    requires Holds(b, off, [c] + t)
    ensures off < |b| && b[off] == c && Holds(b, off + 1, t)
  {
    HoldsLast([c], t);
    HoldsIn(b, off, [c] + t, 1, t);
    assert b[off] == b[off..off + 1 + |t|][0] == ([c] + t)[0];
  }

  /** A terminated string reads back, cut to the window. */
  lemma {:induction false} CStringHeld(b: seq<Byte>, off: nat, s: seq<Byte>, max: nat)
    requires Holds(b, off, s + [0]) && NoZero(s)
    ensures CString(b, off, max) == if |s| <= max then s else s[..max]
    decreases max
  {
    hide Holds;
    if max > 0 && s != [] {
      var rest := s[1..];
      assert s + [0] == [s[0]] + (rest + [0]);
      HoldsHead(b, off, s[0], rest + [0]);
      CStringHeld(b, off + 1, rest, max - 1);
      assert [s[0]] + rest == s;
      if |s| > max { assert [s[0]] + rest[..max - 1] == s[..max]; }
    } else if max > 0 {
      assert s + [0] == [0] + [];
      HoldsHead(b, off, 0, []);
    }
  }

  /** readCString's loop. */
  method ReadCString(b: seq<Byte>, off: nat, max: nat) returns (s: seq<Byte>)
    ensures s == CString(b, off, max)
  {
    var end := if off + max < |b| then off + max else |b|;
    var i := off;
    s := [];
    while i < end && b[i] != 0
      invariant off <= i && (i <= end || i == off)
      invariant i - off <= max
      invariant s + CString(b, i, max - (i - off)) == CString(b, off, max)
      decreases end - i
    {
      assert s + ([b[i]] + CString(b, i + 1, max - (i + 1 - off))) == (s + [b[i]]) + CString(b, i + 1, max - (i + 1 - off));
      s := s + [b[i]];
      i := i + 1;
    }
    assert CString(b, i, max - (i - off)) == [];
  }
}
