/** The receiving half of a KCP control block, and the unbounded machine that
    its 32-bit list walks implement. */
module KcpReceiver {
  import opened Serial
  import opened KcpWire
  import opened KcpNumbering

  const WND_RCV: nat := 128

  /** The receiving fields of `IKCPCB`. */
  datatype Rcv = Rcv(nxt: u32, wnd: u32, queue: seq<Segment>, buf: seq<Segment>, nque: u32, nbuf: u32)

  // ----- ikcp_parse_data

  /** Where the backward walk over `rcv_buf` stops: behind the last segment
      that repeats or precedes `sn`. */
  function Scan(buf: seq<Segment>, sn: u32): (p: nat)
    ensures p <= |buf|
  {
    if buf == [] then 0
    else
      var last := buf[|buf| - 1];
      if last.sn == sn || Diff32(sn, last.sn) > 0 then |buf| else Scan(buf[..|buf| - 1], sn)
  }

  predicate Repeats(buf: seq<Segment>, sn: u32) {
    var p := Scan(buf, sn);
    p > 0 && buf[p - 1].sn == sn
  }

  function Insert(buf: seq<Segment>, seg: Segment): seq<Segment> {
    var p := Scan(buf, seg.sn);
    buf[..p] + [seg] + buf[p..]
  }

  predicate CanMove(r: Rcv) {
    r.buf != [] && r.buf[0].sn == r.nxt && r.nque < r.wnd
  }

  function Move(r: Rcv): Rcv
    requires CanMove(r)
  {
    r.(nxt := Add32(r.nxt, 1), queue := r.queue + [r.buf[0]], buf := r.buf[1..],
       nque := Add32(r.nque, 1), nbuf := Sub32(r.nbuf, 1))
  }

  /** Moves the segments that have become consecutive to `rcv_queue`. */
  function Drain(r: Rcv): Rcv
    decreases |r.buf|
  {
    if CanMove(r) then Drain(Move(r)) else r
  }

  predicate InWindow(r: Rcv, sn: u32) {
    Diff32(sn, Add32(r.nxt, r.wnd)) < 0 && Diff32(sn, r.nxt) >= 0
  }

  /** What the walk leaves behind before anything is moved. */
  function Store(r: Rcv, seg: Segment): Rcv {
    if Repeats(r.buf, seg.sn) then r
    else r.(buf := Insert(r.buf, seg), nbuf := Add32(r.nbuf, 1))
  }

  function ParseData(r: Rcv, seg: Segment): Rcv {
    if InWindow(r, seg.sn) then Drain(Store(r, seg)) else r
  }

  // ----- the invariant

  ghost predicate Valid(r: Rcv) {
    && WND_RCV <= r.wnd < TWO31
    && Ordered(r.buf, r.nxt, r.wnd)
    && |r.queue| <= r.wnd
    && r.nque == |r.queue| && r.nbuf == |r.buf|
  }

  // ----- the unbounded machine

  /** Sequence numbers are unbounded and the out-of-order store is a finite map. */
  datatype AbsRcv = AbsRcv(nxt: nat, wnd: nat, queue: seq<Segment>, buf: map<int, Segment>)

  predicate AbsCanMove(a: AbsRcv) {
    a.nxt in a.buf && |a.queue| < a.wnd
  }

  function AbsMove(a: AbsRcv): AbsRcv
    requires AbsCanMove(a)
  {
    a.(nxt := a.nxt + 1, queue := a.queue + [a.buf[a.nxt]], buf := a.buf - {a.nxt})
  }

  function AbsDrain(a: AbsRcv): AbsRcv
    decreases |a.buf|
  {
    if AbsCanMove(a) then AbsDrain(AbsMove(a)) else a
  }

  function AbsStore(m: map<int, Segment>, n: int, seg: Segment): map<int, Segment> {
    if n in m then m else m[n := seg]
  }

  function AbsParseData(a: AbsRcv, n: int, seg: Segment): AbsRcv {
    if a.nxt <= n < a.nxt + a.wnd then AbsDrain(a.(buf := AbsStore(a.buf, n, seg))) else a
  }

  ghost predicate Simulates(r: Rcv, a: AbsRcv) {
    && Valid(r)
    && r.nxt == Wrap(a.nxt) && r.wnd == a.wnd && r.queue == a.queue
    && Stores(a.buf, r.buf, r.nxt, a.nxt)
  }

  // ----- the 32-bit receiver simulates the unbounded one

  lemma StoredInWindow(r: Rcv, a: AbsRcv)
    requires Simulates(r, a)
    ensures forall k :: k in a.buf ==> a.nxt <= k < a.nxt + a.wnd
  {
    forall k | k in a.buf ensures a.nxt <= k < a.nxt + a.wnd {
      var i :| 0 <= i < |r.buf| && r.buf[i] == a.buf[k];
      assert Offsets(r.buf, r.nxt)[i] == k - a.nxt;
    }
  }

  lemma WindowMeans(r: Rcv, n: int, sn: u32)
    requires Valid(r)
    ensures InWindow(r, sn) <==> n <= Lift(n, r.nxt, sn) < n + r.wnd
    ensures InWindow(r, sn) ==> Lift(n, r.nxt, sn) == n + Offset(r.nxt, sn) && Offset(r.nxt, sn) < r.wnd
  {}

  lemma {:induction false} ScanSplits(buf: seq<Segment>, base: u32, limit: nat, sn: u32)
    requires limit <= TWO31 && Ordered(buf, base, limit) && Offset(base, sn) < limit
    ensures forall i :: 0 <= i < Scan(buf, sn) ==> Offsets(buf, base)[i] <= Offset(base, sn)
    ensures forall i :: Scan(buf, sn) <= i < |buf| ==> Offsets(buf, base)[i] > Offset(base, sn)
  {
    var xs := Offsets(buf, base);
    if buf != [] {
      var n := |buf| - 1;
      WindowDiff(sn, buf[n].sn, base);
      if !(buf[n].sn == sn || Diff32(sn, buf[n].sn) > 0) {
        assert Offsets(buf[..n], base) == xs[..n];
        ScanSplits(buf[..n], base, limit, sn);
      }
    }
  }

  lemma RepeatsMeans(buf: seq<Segment>, base: u32, limit: nat, sn: u32)
    requires limit <= TWO31 && Ordered(buf, base, limit) && Offset(base, sn) < limit
    ensures Repeats(buf, sn) <==> Offset(base, sn) in Offsets(buf, base)
  {
    var xs := Offsets(buf, base);
    ScanSplits(buf, base, limit, sn);
    if i :| 0 <= i < |xs| && xs[i] == Offset(base, sn) {
      var p := Scan(buf, sn);
      assert i < p && xs[p - 1] <= xs[i];
    }
  }

  lemma InsertSimulates(r: Rcv, a: AbsRcv, seg: Segment)
    requires Simulates(r, a) && Offset(r.nxt, seg.sn) < r.wnd
    requires Offset(r.nxt, seg.sn) !in Offsets(r.buf, r.nxt)
    ensures Ordered(Insert(r.buf, seg), r.nxt, r.wnd)
    ensures Number(seg, r.nxt, a.nxt) !in a.buf
    ensures Stores(a.buf[Number(seg, r.nxt, a.nxt) := seg], Insert(r.buf, seg), r.nxt, a.nxt)
  {
    hide Ordered, Stores, Offset, Scan;
    var p, xs := Scan(r.buf, seg.sn), Offsets(r.buf, r.nxt);
    StoresHas(a.buf, r.buf, r.nxt, a.nxt, Offset(r.nxt, seg.sn));
    StoresInsert(a.buf, r.buf, r.nxt, a.nxt, p, seg);
    assert Ordered(Insert(r.buf, seg), r.nxt, r.wnd) by {
      ScanSplits(r.buf, r.nxt, r.wnd, seg.sn);
      assert forall i :: 0 <= i < p ==> xs[i] in xs;
      OrderedInsert(r.buf, r.nxt, r.wnd, p, seg);
    }
  }

  lemma StoreSimulates(r: Rcv, a: AbsRcv, seg: Segment)
    requires Simulates(r, a) && InWindow(r, seg.sn)
    ensures Simulates(Store(r, seg), a.(buf := AbsStore(a.buf, Lift(a.nxt, r.nxt, seg.sn), seg)))
  {
    hide Ordered, Stores, Scan;
    WindowMeans(r, a.nxt, seg.sn);
    RepeatsMeans(r.buf, r.nxt, r.wnd, seg.sn);
    if Repeats(r.buf, seg.sn) {
      StoresHas(a.buf, r.buf, r.nxt, a.nxt, Offset(r.nxt, seg.sn));
    } else {
      InsertSimulates(r, a, seg);
      OrderedLength(Insert(r.buf, seg), r.nxt, r.wnd);
    }
  }

  lemma MoveSimulates(r: Rcv, a: AbsRcv)
    requires Simulates(r, a)
    ensures CanMove(r) <==> AbsCanMove(a)
    ensures CanMove(r) ==> Simulates(Move(r), AbsMove(a))
  {
    hide Stores, Ordered;
    StoresHead(a.buf, r.buf, r.nxt, a.nxt, r.wnd);
    if CanMove(r) {
      StoresAdvance(a.buf, r.buf, r.nxt, a.nxt, r.wnd);
      OrderedAdvance(r.buf, r.nxt, r.wnd);
      OrderedLength(r.buf, r.nxt, r.wnd);
      WrapAdd(a.nxt, 1);
    }
  }

  lemma {:induction false} DrainSimulates(r: Rcv, a: AbsRcv)
    requires Simulates(r, a)
    ensures Simulates(Drain(r), AbsDrain(a)) && !CanMove(Drain(r))
    decreases |r.buf|
  {
    MoveSimulates(r, a);
    if CanMove(r) {
      DrainSimulates(Move(r), AbsMove(a));
    }
  }

  /** For every segment that any datagram can carry, the 32-bit walk does what
      the unbounded machine does with the nearest number the segment's 32-bit
      number can stand for. */
  lemma ParseDataSimulates(r: Rcv, a: AbsRcv, seg: Segment)
    requires Simulates(r, a)
    ensures Simulates(ParseData(r, seg), AbsParseData(a, Lift(a.nxt, r.nxt, seg.sn), seg))
    ensures InWindow(r, seg.sn) || !CanMove(r) ==> !CanMove(ParseData(r, seg))
  {
    WindowMeans(r, a.nxt, seg.sn);
    if InWindow(r, seg.sn) {
      StoreSimulates(r, a, seg);
      DrainSimulates(Store(r, seg), a.(buf := AbsStore(a.buf, Lift(a.nxt, r.nxt, seg.sn), seg)));
    }
  }
}
