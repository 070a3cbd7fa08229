/** The receive state depends on which segments arrived, not on the order or
    the number of times in which they arrived. */
module KcpArrival {
  import opened Serial
  import opened KcpWire
  import opened KcpNumbering
  import opened KcpReceiver

  /** `ikcp_parse_data` on one segment after the other. */
  function Feed(r: Rcv, segs: seq<Segment>): Rcv
    decreases |segs|
  {
    if segs == [] then r else Feed(ParseData(r, segs[0]), segs[1..])
  }

  // ----- what the segments that arrived determine

  function Run(all: map<int, Segment>, lo: int, hi: int): seq<Segment>
    requires lo <= hi
    requires forall k :: lo <= k < hi ==> k in all
  {
    seq(hi - lo, i requires 0 <= i < hi - lo => all[lo + i])
  }

  /** `a` is `start` after the segments of `all` have arrived, except that some
      of them may still wait to be moved. */
  ghost predicate Holds(start: AbsRcv, all: map<int, Segment>, a: AbsRcv) {
    && a.wnd == start.wnd && start.nxt <= a.nxt
    && (forall k :: start.nxt <= k < a.nxt ==> k in all)
    && a.queue == start.queue + Run(all, start.nxt, a.nxt)
    && |a.queue| <= a.wnd
    && (forall k :: k in a.buf <==> k in all && k >= a.nxt)
    && (forall k :: k in a.buf ==> a.buf[k] == all[k])
  }

  lemma {:induction false} DrainHolds(start: AbsRcv, all: map<int, Segment>, a: AbsRcv)
    requires Holds(start, all, a)
    ensures Holds(start, all, AbsDrain(a)) && !AbsCanMove(AbsDrain(a))
    decreases |a.buf|
  {
    if AbsCanMove(a) {
      assert Run(all, start.nxt, a.nxt + 1) == Run(all, start.nxt, a.nxt) + [all[a.nxt]];
      DrainHolds(start, all, AbsMove(a));
    }
  }

  lemma ParseHolds(start: AbsRcv, all: map<int, Segment>, a: AbsRcv, n: int, seg: Segment)
    requires Holds(start, all, a) && !AbsCanMove(a)
    requires start.nxt <= n < start.nxt + start.wnd
    ensures var a' := AbsParseData(a, n, seg); Holds(start, AbsStore(all, n, seg), a') && !AbsCanMove(a')
  {
    var all' := AbsStore(all, n, seg);
    if n >= a.nxt {
      var b := a.(buf := AbsStore(a.buf, n, seg));
      assert Run(all', start.nxt, a.nxt) == Run(all, start.nxt, a.nxt);
      assert Holds(start, all', b);
      DrainHolds(start, all', b);
    }
  }

  /** What arrived fixes the state. */
  lemma HoldsUnique(start: AbsRcv, all: map<int, Segment>, a: AbsRcv, b: AbsRcv)
    requires Holds(start, all, a) && !AbsCanMove(a)
    requires Holds(start, all, b) && !AbsCanMove(b)
    ensures a == b
  {
    assert a.nxt == b.nxt;
    assert forall k :: k in a.buf <==> k in b.buf;
    assert forall k :: k in a.buf ==> a.buf[k] == b.buf[k];
    assert a.buf == b.buf;
  }

  // ----- the segments that arrived, collected

  function Collect(all: map<int, Segment>, n: nat, segs: seq<Segment>): map<int, Segment>
    decreases |segs|
  {
    if segs == [] then all
    else Collect(AbsStore(all, Number(segs[0], Wrap(n), n), segs[0]), n, segs[1..])
  }

  /** One segment for one number. */
  ghost predicate Consistent(segs: seq<Segment>) {
    forall s, t :: s in segs && t in segs && s.sn == t.sn ==> s == t
  }

  lemma {:induction false} CollectMeans(all: map<int, Segment>, n: nat, segs: seq<Segment>)
    requires Consistent(segs)
    ensures var m := Collect(all, n, segs);
      && (forall k :: k in all ==> k in m && m[k] == all[k])
      && (forall k :: k in m && k !in all ==> m[k] in segs && Number(m[k], Wrap(n), n) == k)
      && (forall s :: s in segs ==> Number(s, Wrap(n), n) in m)
    decreases |segs|
  {
    hide Number, Wrap;
    if segs != [] {
      var all' := AbsStore(all, Number(segs[0], Wrap(n), n), segs[0]);
      assert segs == [segs[0]] + segs[1..];
      CollectMeans(all', n, segs[1..]);
    }
  }

  lemma SameNumber(s: Segment, t: Segment, base: u32, n: int)
    requires Number(s, base, n) == Number(t, base, n)
    ensures s.sn == t.sn
  {}

  /** The collection does not depend on order or repetition. */
  lemma CollectSame(all: map<int, Segment>, n: nat, xs: seq<Segment>, ys: seq<Segment>)
    requires Consistent(xs) && Consistent(ys)
    requires forall s :: s in xs <==> s in ys
    ensures Collect(all, n, xs) == Collect(all, n, ys)
  {
    hide Collect, Number, Wrap;
    var mx, my := Collect(all, n, xs), Collect(all, n, ys);
    CollectMeans(all, n, xs);
    CollectMeans(all, n, ys);
    forall k ensures k in mx <==> k in my {
      if k in mx && k !in all { assert mx[k] in ys; }
      if k in my && k !in all { assert my[k] in xs; }
    }
    forall k | k in mx ensures mx[k] == my[k] {
      if k !in all {
        SameNumber(mx[k], my[k], Wrap(n), n);
        assert mx[k] in ys && my[k] in ys;
      }
    }
  }

  // ----- the 32-bit receiver

  lemma NumberIs(start: AbsRcv, all: map<int, Segment>, r: Rcv, a: AbsRcv, seg: Segment)
    requires start.wnd < TWO31
    requires Simulates(r, a) && Holds(start, all, a)
    requires Offset(Wrap(start.nxt), seg.sn) < start.wnd
    ensures Lift(a.nxt, r.nxt, seg.sn) == Number(seg, Wrap(start.nxt), start.nxt)
  {
    var n := Number(seg, Wrap(start.nxt), start.nxt);
    assert r.nxt == Wrap(a.nxt) && start.nxt <= a.nxt <= start.nxt + start.wnd;
    hide Simulates, Holds, Valid;
    NumberWraps(seg, start.nxt);
    WrapDiff(n, a.nxt);
  }

  lemma NumberWraps(seg: Segment, n: nat)
    ensures seg.sn == Wrap(Number(seg, Wrap(n), n))
  {}

  lemma ParseStep(start: AbsRcv, all: map<int, Segment>, r: Rcv, a: AbsRcv, seg: Segment) returns (a': AbsRcv)
    requires start.wnd < TWO31
    requires Simulates(r, a) && Holds(start, all, a) && !AbsCanMove(a)
    requires Offset(Wrap(start.nxt), seg.sn) < start.wnd
    ensures Simulates(ParseData(r, seg), a') && !AbsCanMove(a')
    ensures Holds(start, AbsStore(all, Number(seg, Wrap(start.nxt), start.nxt), seg), a')
  {
    hide Simulates, Holds, ParseData, AbsParseData, AbsCanMove, AbsStore, Lift;
    var n := Number(seg, Wrap(start.nxt), start.nxt);
    NumberIs(start, all, r, a, seg);
    ParseDataSimulates(r, a, seg);
    ParseHolds(start, all, a, n, seg);
    a' := AbsParseData(a, n, seg);
  }

  lemma {:induction false} FeedHolds(start: AbsRcv, all: map<int, Segment>, r: Rcv, a: AbsRcv, segs: seq<Segment>)
    returns (a': AbsRcv)
    requires start.wnd < TWO31
    requires Simulates(r, a) && Holds(start, all, a) && !AbsCanMove(a)
    requires forall s :: s in segs ==> Offset(Wrap(start.nxt), s.sn) < start.wnd
    ensures Simulates(Feed(r, segs), a') && !AbsCanMove(a')
    ensures Holds(start, Collect(all, start.nxt, segs), a')
    decreases |segs|
  {
    if segs == [] {
      a' := a;
    } else {
      assert segs[0] in segs;
      var b := ParseStep(start, all, r, a, segs[0]);
      var n := Number(segs[0], Wrap(start.nxt), start.nxt);
      a' := FeedHolds(start, AbsStore(all, n, segs[0]), ParseData(r, segs[0]), b, segs[1..]);
    }
  }

  // ----- the header fields that a retransmission changes

  /** What `ikcp_recv` and the list walks look at. */
  function Bare(seg: Segment): Segment {
    Segment(0, 0, seg.frg, 0, 0, seg.sn, 0, seg.data, 0, 0, 0, 0)
  }

  function BareAll(segs: seq<Segment>): (r: seq<Segment>)
    ensures |r| == |segs|
    ensures forall i :: 0 <= i < |segs| ==> r[i] == Bare(segs[i])
  {
    seq(|segs|, i requires 0 <= i < |segs| => Bare(segs[i]))
  }

  function BareRcv(r: Rcv): Rcv {
    r.(queue := BareAll(r.queue), buf := BareAll(r.buf))
  }

  lemma {:induction false} BareScan(buf: seq<Segment>, sn: u32)
    ensures Scan(BareAll(buf), sn) == Scan(buf, sn)
  {
    if buf != [] {
      BareScan(buf[..|buf| - 1], sn);
      assert BareAll(buf)[..|buf| - 1] == BareAll(buf[..|buf| - 1]);
    }
  }

  lemma BareMove(r: Rcv)
    ensures CanMove(r) <==> CanMove(BareRcv(r))
    ensures CanMove(r) ==> BareRcv(Move(r)) == Move(BareRcv(r))
  {
    if CanMove(r) {
      assert BareAll(r.queue + [r.buf[0]]) == BareAll(r.queue) + [Bare(r.buf[0])];
      assert BareAll(r.buf[1..]) == BareAll(r.buf)[1..];
    }
  }

  lemma {:induction false} BareDrain(r: Rcv)
    ensures BareRcv(Drain(r)) == Drain(BareRcv(r))
    decreases |r.buf|
  {
    BareMove(r);
    if CanMove(r) {
      BareDrain(Move(r));
    }
  }

  lemma BareParseData(r: Rcv, seg: Segment)
    ensures BareRcv(ParseData(r, seg)) == ParseData(BareRcv(r), Bare(seg))
  {
    hide Drain, Scan;
    BareScan(r.buf, seg.sn);
    BareDrain(Store(r, seg));
    assert BareAll(Insert(r.buf, seg)) == Insert(BareAll(r.buf), Bare(seg));
  }

  lemma {:induction false} BareFeed(r: Rcv, segs: seq<Segment>)
    ensures BareRcv(Feed(r, segs)) == Feed(BareRcv(r), BareAll(segs))
    decreases |segs|
  {
    if segs != [] {
      BareParseData(r, segs[0]);
      BareFeed(ParseData(r, segs[0]), segs[1..]);
      assert BareAll(segs)[1..] == BareAll(segs[1..]);
    }
  }

  // ----- the theorem

  lemma LastIsLargest(xs: seq<Segment>, base: u32, limit: nat)
    requires xs != [] && Ordered(xs, base, limit)
    ensures Ordered(xs[..|xs| - 1], base, limit)
    ensures forall s :: s in xs[..|xs| - 1] ==> s in xs && Offset(base, s.sn) < Offset(base, xs[|xs| - 1].sn)
    ensures forall s :: s in xs ==> s in xs[..|xs| - 1] || s == xs[|xs| - 1]
  {
    var p := |xs| - 1;
    assert Offsets(xs[..p], base) == Offsets(xs, base)[..p];
    forall s | s in xs[..p] ensures s in xs && Offset(base, s.sn) < Offset(base, xs[p].sn) {
      var i :| 0 <= i < p && xs[i] == s;
      assert Offsets(xs, base)[i] < Offsets(xs, base)[p];
    }
    assert xs == xs[..p] + [xs[p]];
  }

  lemma {:induction false} SortedUnique(xs: seq<Segment>, ys: seq<Segment>, base: u32, limit: nat)
    requires Ordered(xs, base, limit) && Ordered(ys, base, limit)
    requires forall s :: s in xs <==> s in ys
    ensures xs == ys
  {
    hide Ordered, Offset;
    assert ys != [] ==> ys[0] in xs;
    assert xs != [] ==> xs[0] in ys;
    if xs != [] && ys != [] {
      var p, q := |xs| - 1, |ys| - 1;
      LastIsLargest(xs, base, limit);
      LastIsLargest(ys, base, limit);
      assert xs[p] in xs && ys[q] in ys;
      assert xs[p] == ys[q] by {
        assert xs[p] in ys && ys[q] in xs;
      }
      assert forall s :: s in xs[..p] <==> s in xs && s != xs[p];
      assert forall s :: s in ys[..q] <==> s in ys && s != ys[q];
      SortedUnique(xs[..p], ys[..q], base, limit);
      assert xs == xs[..p] + [xs[p]];
    }
  }

  lemma SimulatesUnique(r: Rcv, r': Rcv, a: AbsRcv)
    requires Simulates(r, a) && Simulates(r', a)
    ensures r == r'
  {
    forall s ensures s in r.buf <==> s in r'.buf {
      if s in r.buf { assert a.buf[Number(s, r.nxt, a.nxt)] in r'.buf; }
      if s in r'.buf { assert a.buf[Number(s, r.nxt, a.nxt)] in r.buf; }
    }
    SortedUnique(r.buf, r'.buf, r.nxt, r.wnd);
  }

  lemma FeedSame(r: Rcv, xs: seq<Segment>, ys: seq<Segment>)
    requires Valid(r) && !CanMove(r)
    requires forall s :: s in xs ==> InWindow(r, s.sn)
    requires Consistent(xs) && Consistent(ys)
    requires forall s :: s in xs <==> s in ys
    ensures Feed(r, xs) == Feed(r, ys)
  {
    hide Collect, Feed, Consistent, InWindow, AbsCanMove, Stores, Ordered, CanMove;
    var m := SomeStore(r.buf, r.nxt, r.nxt, r.wnd);
    var start := AbsRcv(r.nxt, r.wnd, r.queue, m);
    StoresHead(m, r.buf, r.nxt, r.nxt, r.wnd);
    StartHolds(r, start);
    forall s | s in xs ensures Offset(Wrap(start.nxt), s.sn) < start.wnd { WindowMeans(r, r.nxt, s.sn); }
    var a := FeedHolds(start, m, r, start, xs);
    var b := FeedHolds(start, m, r, start, ys);
    CollectSame(m, start.nxt, xs, ys);
    HoldsUnique(start, Collect(m, start.nxt, xs), a, b);
    SimulatesUnique(Feed(r, xs), Feed(r, ys), a);
  }

  lemma StartHolds(r: Rcv, start: AbsRcv)
    requires Valid(r) && !CanMove(r) && start.nxt == r.nxt && start.wnd == r.wnd && start.queue == r.queue
    requires Stores(start.buf, r.buf, r.nxt, r.nxt)
    ensures Holds(start, start.buf, start) && Simulates(r, start) && !AbsCanMove(start)
  {
    StoresHead(start.buf, r.buf, r.nxt, r.nxt, r.wnd);
    StoredInWindow(r, start);
  }

  function Sns(segs: seq<Segment>): set<u32> {
    set s | s in segs :: s.sn
  }

  /** The number fixes the payload: what every sender guarantees. */
  ghost predicate PayloadByNumber(segs: seq<Segment>) {
    forall s, t :: s in segs && t in segs && s.sn == t.sn ==> Bare(s) == Bare(t)
  }

  /** Any two deliveries of the same numbers, in any order, with any repetition
      and with any retransmitted headers, leave the same receive state. */
  lemma ArrivalOrder(r: Rcv, xs: seq<Segment>, ys: seq<Segment>)
    requires Valid(r) && !CanMove(r)
    requires forall s :: s in xs + ys ==> InWindow(r, s.sn)
    requires PayloadByNumber(xs + ys) && Sns(xs) == Sns(ys)
    ensures BareRcv(Feed(r, xs)) == BareRcv(Feed(r, ys))
  {
    hide Feed, Valid, CanMove, BareRcv, Consistent, PayloadByNumber, Sns, InWindow;
    BareFeed(r, xs);
    BareFeed(r, ys);
    BareMove(r);
    BareValid(r);
    SameSegments(xs, ys);
    PayloadSwap(xs, ys);
    SameSegments(ys, xs);
    BareInWindow(r, xs, ys);
    FeedSame(BareRcv(r), BareAll(xs), BareAll(ys));
  }

  lemma BareValid(r: Rcv)
    requires Valid(r)
    ensures Valid(BareRcv(r))
  {
    assert Offsets(BareAll(r.buf), r.nxt) == Offsets(r.buf, r.nxt);
  }

  lemma PayloadSwap(xs: seq<Segment>, ys: seq<Segment>)
    requires PayloadByNumber(xs + ys)
    ensures PayloadByNumber(ys + xs)
  {
    hide Bare;
    assert forall s :: s in ys + xs ==> s in xs + ys;
  }

  lemma BareInWindow(r: Rcv, xs: seq<Segment>, ys: seq<Segment>)
    requires forall s :: s in xs + ys ==> InWindow(r, s.sn)
    ensures forall s :: s in BareAll(xs) ==> InWindow(BareRcv(r), s.sn)
  {
    var xs' := BareAll(xs);
    forall s | s in xs' ensures InWindow(BareRcv(r), s.sn) {
      var i :| 0 <= i < |xs| && xs'[i] == s;
      assert xs[i] in xs + ys;
    }
  }

  lemma SameSegments(xs: seq<Segment>, ys: seq<Segment>)
    requires PayloadByNumber(xs + ys)
    requires Sns(xs) <= Sns(ys)
    ensures Consistent(BareAll(xs))
    ensures forall s :: s in BareAll(xs) ==> s in BareAll(ys)
  {
    BareMembers(xs);
    BareMembers(ys);
    forall s | s in xs ensures Bare(s) in BareAll(ys) {
      assert s.sn in Sns(xs);
      var t :| t in ys && t.sn == s.sn;
      assert Bare(t) == Bare(s);
    }
  }

  lemma BareMembers(xs: seq<Segment>)
    ensures forall s :: s in xs ==> Bare(s) in BareAll(xs)
    ensures forall b :: b in BareAll(xs) ==> exists s :: s in xs && b == Bare(s)
  {
    forall s | s in xs ensures Bare(s) in BareAll(xs) {
      var i :| 0 <= i < |xs| && xs[i] == s;
      assert BareAll(xs)[i] == Bare(s);
    }
    forall b | b in BareAll(xs) ensures exists s :: s in xs && b == Bare(s) {
      var i :| 0 <= i < |xs| && BareAll(xs)[i] == b;
      assert xs[i] in xs && b == Bare(xs[i]);
    }
  }
}
