/** Windows of 32-bit sequence numbers seen as windows of unbounded numbers. */
module KcpNumbering {
  import opened Serial
  import opened KcpWire

  /** The position of `sn` in a window that starts at `base`. */
  function Offset(base: u32, sn: u32): nat {
    Sub32(sn, base)
  }

  function Offsets(buf: seq<Segment>, base: u32): (r: seq<int>)
    ensures |r| == |buf|
    ensures forall i :: 0 <= i < |buf| ==> r[i] == Offset(base, buf[i].sn)
  {
    seq(|buf|, i requires 0 <= i < |buf| => Offset(base, buf[i].sn))
  }

  ghost predicate Ascending(xs: seq<int>) {
    forall i, j :: 0 <= i < j < |xs| ==> xs[i] < xs[j]
  }

  ghost predicate Within(xs: seq<int>, limit: int) {
    forall i :: 0 <= i < |xs| ==> 0 <= xs[i] < limit
  }

  /** The list walks through its window without repetition. */
  ghost predicate Ordered(buf: seq<Segment>, base: u32, limit: int) {
    Ascending(Offsets(buf, base)) && Within(Offsets(buf, base), limit)
  }

  /** The unbounded number of a segment, when `n` is the number of `base`. */
  function Number(seg: Segment, base: u32, n: int): int {
    n + Offset(base, seg.sn)
  }

  /** The unbounded number nearest to `n` that `sn` can stand for. */
  function Lift(n: int, base: u32, sn: u32): int {
    n + Diff32(sn, base)
  }

  /** The list `buf` holds exactly the entries of the map `m`. */
  ghost predicate Stores(m: map<int, Segment>, buf: seq<Segment>, base: u32, n: int) {
    && (forall s :: s in buf ==> Number(s, base, n) in m && m[Number(s, base, n)] == s)
    && (forall k :: k in m ==> m[k] in buf && Number(m[k], base, n) == k)
  }

  // ----- ascending sequences

  lemma AscendingInsert(xs: seq<int>, p: nat, x: int)
    requires Ascending(xs) && p <= |xs|
    requires forall i :: 0 <= i < p ==> xs[i] < x
    requires forall i :: p <= i < |xs| ==> xs[i] > x
    ensures Ascending(xs[..p] + [x] + xs[p..])
  {
    var ys := xs[..p] + [x] + xs[p..];
    assert forall i :: 0 <= i < p ==> ys[i] == xs[i];
    assert ys[p] == x;
    assert forall i :: p < i < |ys| ==> ys[i] == xs[i - 1];
  }

  /** Distinct numbers below `limit`, counted. */
  lemma {:induction false} AscendingLength(xs: seq<int>, limit: int)
    requires Ascending(xs) && Within(xs, limit)
    ensures xs != [] ==> |xs| <= xs[|xs| - 1] + 1
    ensures xs != [] ==> |xs| <= limit
  {
    if |xs| > 1 {
      AscendingLength(xs[..|xs| - 1], limit);
    }
  }

  // ----- ordered lists

  lemma OrderedLength(buf: seq<Segment>, base: u32, limit: nat)
    requires Ordered(buf, base, limit)
    ensures |buf| <= limit
  {
    AscendingLength(Offsets(buf, base), limit);
  }

  lemma OrderedInsert(buf: seq<Segment>, base: u32, limit: int, p: nat, seg: Segment)
    requires Ordered(buf, base, limit) && p <= |buf| && Offset(base, seg.sn) < limit
    requires forall i :: 0 <= i < p ==> Offsets(buf, base)[i] < Offset(base, seg.sn)
    requires forall i :: p <= i < |buf| ==> Offsets(buf, base)[i] > Offset(base, seg.sn)
    ensures Ordered(buf[..p] + [seg] + buf[p..], base, limit)
  {
    var xs, x := Offsets(buf, base), Offset(base, seg.sn);
    AscendingInsert(xs, p, x);
    assert Offsets(buf[..p] + [seg] + buf[p..], base) == xs[..p] + [x] + xs[p..];
  }

  /** The window moves past the head of the list. */
  lemma OrderedAdvance(buf: seq<Segment>, base: u32, limit: nat)
    requires buf != [] && Ordered(buf, base, limit) && buf[0].sn == base
    ensures Ordered(buf[1..], Add32(base, 1), limit)
    ensures forall s :: s in buf[1..] ==> s != buf[0] && s.sn != base
  {
    var xs := Offsets(buf, base);
    assert xs[0] == 0;
    forall i | 0 <= i < |buf| - 1
      ensures Offsets(buf[1..], Add32(base, 1))[i] == xs[i + 1] - 1 && buf[i + 1].sn != base
    {
      assert xs[0] < xs[i + 1];
      SubShift(buf[i + 1].sn, base);
    }
  }

  /** Which numbers a stored list has. */
  lemma StoresHas(m: map<int, Segment>, buf: seq<Segment>, base: u32, n: int, o: nat)
    requires Stores(m, buf, base, n)
    ensures n + o in m <==> o in Offsets(buf, base)
  {
    if n + o in m {
      var i :| 0 <= i < |buf| && buf[i] == m[n + o];
      assert Offsets(buf, base)[i] == o;
    }
    if o in Offsets(buf, base) {
      var i :| 0 <= i < |buf| && Offsets(buf, base)[i] == o;
      assert buf[i] in buf && Number(buf[i], base, n) == n + o;
    }
  }

  /** The first number of the window is stored if and only if it heads the list. */
  lemma StoresHead(m: map<int, Segment>, buf: seq<Segment>, base: u32, n: int, limit: nat)
    requires Stores(m, buf, base, n) && Ordered(buf, base, limit)
    ensures n in m <==> buf != [] && buf[0].sn == base
  {
    StoresHas(m, buf, base, n, 0);
    var xs := Offsets(buf, base);
    if 0 in xs {
      var i :| 0 <= i < |xs| && xs[i] == 0;
      assert i == 0;
    } else if buf != [] {
      assert xs[0] in xs;
    }
  }

  lemma StoresInsert(m: map<int, Segment>, buf: seq<Segment>, base: u32, n: int, p: nat, seg: Segment)
    requires Stores(m, buf, base, n) && p <= |buf| && Number(seg, base, n) !in m
    ensures Stores(m[Number(seg, base, n) := seg], buf[..p] + [seg] + buf[p..], base, n)
  {
    var buf' := buf[..p] + [seg] + buf[p..];
    forall s ensures s in buf' <==> s in buf || s == seg {
      if s in buf {
        var i :| 0 <= i < |buf| && buf[i] == s;
        assert buf'[if i < p then i else i + 1] == s;
      }
      assert buf'[p] == seg;
    }
  }

  lemma StoresAdvance(m: map<int, Segment>, buf: seq<Segment>, base: u32, n: int, limit: nat)
    requires buf != [] && Ordered(buf, base, limit) && buf[0].sn == base
    requires Stores(m, buf, base, n)
    ensures n in m && m[n] == buf[0]
    ensures Stores(m - {n}, buf[1..], Add32(base, 1), n + 1)
  {
    hide Number, Ordered, Add32;
    OrderedAdvance(buf, base, limit);
    var rest := buf[1..];
    assert buf == [buf[0]] + rest;
    assert buf[0] in buf;
    HeadNumber(buf[0], n);
    forall s | s in rest
      ensures Number(s, Add32(base, 1), n + 1) == Number(s, base, n) != n
    {
      NumberShift(s, base, n);
    }
    forall k | k in m - {n}
      ensures m[k] in rest && Number(m[k], Add32(base, 1), n + 1) == k
    {
      assert m[k] in buf && m[k] != buf[0];
    }
  }

  lemma HeadNumber(s: Segment, n: int)
    ensures Number(s, s.sn, n) == n
  {}

  lemma NumberShift(s: Segment, base: u32, n: int)
    requires s.sn != base
    ensures Number(s, Add32(base, 1), n + 1) == Number(s, base, n) != n
  {
    SubShift(s.sn, base);
  }

  /** Every ordered list stores some map. */
  lemma {:induction false} SomeStore(buf: seq<Segment>, base: u32, n: int, limit: nat) returns (m: map<int, Segment>)
    requires Ordered(buf, base, limit)
    ensures Stores(m, buf, base, n)
  {
    if buf == [] {
      m := map[];
    } else {
      var p := |buf| - 1;
      assert Offsets(buf[..p], base) == Offsets(buf, base)[..p];
      m := SomeStore(buf[..p], base, n, limit);
      StoresHas(m, buf[..p], base, n, Offset(base, buf[p].sn));
      assert forall i :: 0 <= i < p ==> Offsets(buf, base)[i] < Offsets(buf, base)[p];
      StoresInsert(m, buf[..p], base, n, p, buf[p]);
      assert buf == buf[..p] + [buf[p]];
      assert buf[..p][..p] + [buf[p]] + buf[..p][p..] == buf;
      m := m[Number(buf[p], base, n) := buf[p]];
    }
  }
}
