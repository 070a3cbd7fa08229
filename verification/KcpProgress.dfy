/** What one exchange without loss achieves: the receiver has, and the sender has
    dropped, everything that was in flight within the receive window. */
module KcpProgress {
  import opened Serial
  import opened KcpWire
  import opened KcpNumbering
  import R = KcpReceiver
  import opened KcpMessages
  import S = KcpSender
  import opened KcpTiming
  import opened KcpControl
  import opened KcpInvariant
  import opened KcpLink
  import opened KcpNetwork

  // ----- one segment arrives

  /** What deliveries only add to, or only take from. */
  ghost predicate Advances(n: Node, n': Node) {
    && n'.arcv.wnd == n.arcv.wnd && n.arcv.nxt <= n'.arcv.nxt
    && (forall k :: Has(n.arcv, k) ==> Has(n'.arcv, k))
    && n.nums <= n'.nums
    && n'.asnd.live <= n.asnd.live
  }

  /** A number that may be in flight, from a sender whose next number is `top`, and that the
      receiver has room for. */
  predicate Welcome(n: Node, top: nat, num: int) {
    top - S.MAX_FLIGHT <= num < n.arcv.nxt + n.arcv.wnd
  }

  /** The effect of a segment is there: data in flight within the window is held and will be
      acknowledged, what was acknowledged is no longer kept for sending. */
  ghost predicate Took(before: Node, after: Node, top: nat, t: Tagged) {
    && (t.seg.cmd == CMD_PUSH && Welcome(before, top, t.num) ==> Has(after.arcv, t.num) && t.num in after.nums)
    && (t.seg.cmd == CMD_ACK ==> t.num !in after.asnd.live)
  }

  lemma AdvancesTransitive(n: Node, n1: Node, n2: Node)
    requires Advances(n, n1) && Advances(n1, n2)
    ensures Advances(n, n2)
  {
    hide Has;
  }

  lemma TookLater(before: Node, n1: Node, n2: Node, top: nat, t: Tagged)
    requires Took(before, n1, top, t) && Advances(n1, n2)
    ensures Took(before, n2, top, t)
  {
    hide Has;
  }

  lemma TookSooner(before: Node, n1: Node, n2: Node, top: nat, t: Tagged)
    requires Advances(before, n1) && Took(n1, n2, top, t)
    ensures Took(before, n2, top, t)
  {
    hide Has;
  }

  lemma PushTook(tx: Tx, rx: Rx, fwd: set<Tagged>, bwd: set<Tagged>, t: Tagged)
    requires Link(tx, rx, fwd, bwd) && t in fwd && t.seg.cmd == CMD_PUSH
    requires Recent(t.num, tx.a.nxt) && rx.a.wnd <= MAX_WND
    ensures var rx' := RxPush(rx, t);
      && rx'.a.wnd == rx.a.wnd && rx.a.nxt <= rx'.a.nxt && rx.nums <= rx'.nums
      && (forall k :: Has(rx.a, k) ==> Has(rx'.a, k))
      && (tx.a.nxt - S.MAX_FLIGHT <= t.num < rx.a.nxt + rx.a.wnd ==> Has(rx'.a, t.num) && t.num in rx'.nums)
  {
    AheadBound(tx, rx);
    ParseKeepsPart(rx.a, Stream(tx.sent, tx.mss), |Stream(rx.got, tx.mss)|, tx.a.nxt, t.num, OnWire(t.seg));
    if tx.a.nxt - S.MAX_FLIGHT <= t.num < rx.a.nxt + rx.a.wnd {
      BelowWindow(rx, t);
    }
    hide Stream, R.AbsParseData, HoldsPart, Wrap, Add32, Diff32, SendsStream, R.Simulates;
  }

  /** Within 2^31 of the window, the test of `ikcp_input` is the one on unbounded numbers. */
  lemma BelowWindow(rx: Rx, t: Tagged)
    requires R.Simulates(rx.r, rx.a) && t.seg.sn == Wrap(t.num)
    requires -TWO31 <= t.num - rx.a.nxt - rx.a.wnd < 0
    ensures Diff32(t.seg.sn, Add32(rx.r.nxt, rx.r.wnd)) < 0
  {
    WrapAdd(rx.a.nxt, rx.r.wnd);
    WrapDiff(t.num, rx.a.nxt + rx.a.wnd);
  }

  lemma TxShrinks(tx: Tx, t: Tagged)
    requires tx.a.una <= tx.a.nxt
    ensures TxUna(tx, t).a.live <= tx.a.live
    ensures TxAck(tx, t).a.live <= tx.a.live && t.num !in TxAck(tx, t).a.live
  {}

  /** One segment, at an endpoint that is in step with its peer. */
  lemma SegmentTook(net: Net, t: Tagged)
    requires Linked(net) && t in net.toA && Fresh(net.a, net.b, t)
    ensures var n := NodeOnSegment(net.a, t);
      Advances(net.a, n) && Took(net.a, n, net.b.asnd.nxt, t)
  {
    var n, m := net.a, net.b;
    var tx1 := TxUna(TxOf(n), t);
    OrderedNumbers(TxOf(n));
    UnaLink(TxOf(n), RxOf(m), net.toB, net.toA, t);
    OrderedNumbers(tx1);
    OnSegmentParts(n, t);
    TxShrinks(TxOf(n), t);
    TxShrinks(tx1, t);
    hide Link, EndpointOk, TxUna, TxAck, RxPush, OnSegment, SendsStream, Has;
    if t.seg.cmd == CMD_PUSH {
      PushTook(TxOf(m), RxOf(n), net.toA, net.toB, t);
    }
  }

  lemma AdvancesSelf(n: Node)
    ensures Advances(n, n)
  {}

  lemma {:induction false} SegmentsTook(net: Net, ts: seq<Tagged>)
    requires Linked(net) && forall t :: t in ts ==> t in net.toA && Fresh(net.a, net.b, t)
    ensures var n := NodeOnSegments(net.a, ts);
      Advances(net.a, n) && forall t :: t in ts ==> Took(net.a, n, net.b.asnd.nxt, t)
    decreases |ts|
  {
    hide Linked, NodeOnSegment, Advances, Took;
    AdvancesSelf(net.a);
    if ts != [] {
      var n1, n2, top := NodeOnSegment(net.a, ts[0]), NodeOnSegments(net.a, ts), net.b.asnd.nxt;
      var net1 := net.(a := n1);
      assert ts[0] in ts;
      SegmentTook(net, ts[0]);
      OnSegmentLinked(net, ts[0]);
      forall t | t in ts[1..] ensures t in net1.toA && Fresh(net1.a, net1.b, t) { assert t in ts; }
      SegmentsTook(net1, ts[1..]);
      AdvancesTransitive(net.a, n1, n2);
      forall t | t in ts ensures Took(net.a, n2, top, t) {
        if t in ts[1..] {
          TookSooner(net.a, n1, n2, top, t);
        } else {
          assert t == ts[0];
          TookLater(net.a, n1, n2, top, t);
        }
      }
    }
  }

  // ----- datagrams arrive

  /** The segments fill a datagram of a size that `ikcp_input` takes. */
  predicate Sized(ts: seq<Tagged>) {
    OVERHEAD <= |EncodeAll(Segs(ts))| < TWO31
  }

  lemma NodeInputIs(n: Node, ts: seq<Tagged>)
    requires n.k.cfg.mss > 0 && Sized(ts)
    ensures NodeInput(n, ts) == NodeOnSegments(n, ts).(k := Input(n.k, EncodeAll(Segs(ts))).0)
  {
    hide NodeOnSegments, Input, EncodeAll;
  }

  lemma InputTook(net: Net, ts: seq<Tagged>)
    requires Inv(net) && Enabled(net, Deliver(ts)) && Sized(ts)
    ensures Usable(net.a)
    ensures var n := StepA(net, Deliver(ts)).a;
      Advances(net.a, n) && forall t :: t in ts ==> Took(net.a, n, net.b.asnd.nxt, t)
  {
    hide Inv, Linked, NodeOnSegments, NodeInput, Input, Advances, Took, Fresh, Sized, EndpointOk;
    InvLinked(net);
    SegmentsTook(net, ts);
    NodeInputIs(net.a, ts);
    SameParts(net.a, NodeOnSegments(net.a, ts), Input(net.a.k, EncodeAll(Segs(ts))).0, net.b.asnd.nxt, ts);
  }

  /** Neither predicate looks at the 32-bit machine. */
  lemma SameParts(n: Node, n': Node, k: Kcb, top: nat, ts: seq<Tagged>)
    requires Advances(n, n') && forall t :: t in ts ==> Took(n, n', top, t)
    ensures Advances(n, n'.(k := k)) && forall t :: t in ts ==> Took(n, n'.(k := k), top, t)
  {
    hide Has;
  }

  /** Each datagram can be delivered when its turn comes. */
  ghost predicate Deliverable(net: Net, ds: seq<seq<Tagged>>)
    decreases |ds|
  {
    ds == [] || (Enabled(net, Deliver(ds[0])) && Sized(ds[0]) && Deliverable(StepA(net, Deliver(ds[0])), ds[1..]))
  }

  ghost function DeliverAll(net: Net, ds: seq<seq<Tagged>>): Net
    requires Deliverable(net, ds)
    decreases |ds|
  {
    if ds == [] then net else DeliverAll(StepA(net, Deliver(ds[0])), ds[1..])
  }

  lemma {:induction false} AllTook(net: Net, ds: seq<seq<Tagged>>)
    requires Inv(net) && Deliverable(net, ds)
    ensures var net' := DeliverAll(net, ds);
      && Inv(net') && net'.b == net.b && net'.toA == net.toA && net'.toB == net.toB
      && Advances(net.a, net'.a)
      && forall i, t :: 0 <= i < |ds| && t in ds[i] ==> Took(net.a, net'.a, net.b.asnd.nxt, t)
    decreases |ds|
  {
    hide Inv, Advances, Took, Enabled, Sized, NodeInput;
    AdvancesSelf(net.a);
    if ds != [] {
      InputTook(net, ds[0]);
      DeliverInv(net, ds[0]);
      var net1, net2, top := StepA(net, Deliver(ds[0])), DeliverAll(net, ds), net.b.asnd.nxt;
      AllTook(net1, ds[1..]);
      AdvancesTransitive(net.a, net1.a, net2.a);
      forall i, t | 0 <= i < |ds| && t in ds[i] ensures Took(net.a, net2.a, top, t) {
        if i == 0 {
          TookLater(net.a, net1.a, net2.a, top, t);
        } else {
          assert ds[i] == ds[1..][i - 1];
          TookSooner(net.a, net1.a, net2.a, top, t);
        }
      }
    }
  }

  // ----- what is due goes out

  /** The number is in flight, and its segment is new, overdue or to be resent early. */
  ghost predicate DueNumber(n: Node, num: int) {
    exists i :: 0 <= i < |AdmitAll(n.k).buf| && DueAt(n, num, i)
  }

  predicate DueAt(n: Node, num: int, i: nat)
    requires i < |AdmitAll(n.k).buf|
  {
    var seg := AdmitAll(n.k).buf[i];
    Number(seg, n.k.snd.una, n.asnd.una) == num && !CauseOf(seg, PassOf(n.k)).Keep?
  }

  /** Every segment in flight is new, overdue or to be resent early. */
  predicate AllDue(k: Kcb) {
    forall i :: 0 <= i < |AdmitAll(k).buf| ==> !CauseOf(AdmitAll(k).buf[i], PassOf(k)).Keep?
  }

  lemma {:induction false} DueIsSent(buf: seq<Segment>, p: Pass, deadLink: u32, i: nat)
    requires i < |buf| && !CauseOf(buf[i], p).Keep?
    ensures Transmit(buf[i], p) in CountAll(buf, p, deadLink).sent
  {
    hide CauseOf, Transmit, Add32;
    var n := |buf| - 1;
    if i < n {
      DueIsSent(buf[..n], p, deadLink, i);
    }
  }

  /** What is due goes out. */
  lemma DueGoesOut(net: Net, num: int)
    requires Inv(net) && Usable(net.a) && net.a.k.updated && DueNumber(net.a, num)
    ensures exists t :: t in Wire(net.a) && t.seg.cmd == CMD_PUSH && t.num == num
    ensures num in NodeFlush(net.a).asnd.live && NodeFlush(net.a).asnd.nxt - S.MAX_FLIGHT <= num
  {
    var n := net.a;
    var i :| 0 <= i < |AdmitAll(n.k).buf| && DueAt(n, num, i);
    var seg := AdmitAll(n.k).buf[i];
    DueIsSent(AdmitAll(n.k).buf, PassOf(n.k), n.k.cfg.deadLink, i);
    var sent := FlushTally(n.k).sent;
    var j :| 0 <= j < |sent| && sent[j] == Transmit(seg, PassOf(n.k));
    TransmitFields(seg, PassOf(n.k));
    EndpointsOk(net);
    TagLengths(n);
    TagDataAre(n, j);
    InTags(n, j);
    assert TagData(n)[j] in Wire(n);
    FlushedLive(net, i);
  }

  lemma EndpointsOk(net: Net)
    requires Inv(net)
    ensures EndpointOk(net.a.k) && EndpointOk(net.b.k)
  {
    hide EndpointOk, Link, WireOk;
  }

  lemma FlushedLive(net: Net, i: nat)
    requires Inv(net) && Usable(net.a) && net.a.k.updated && i < |AdmitAll(net.a.k).buf|
    ensures var num := Number(AdmitAll(net.a.k).buf[i], net.a.k.snd.una, net.a.asnd.una);
      num in NodeFlush(net.a).asnd.live && NodeFlush(net.a).asnd.nxt - S.MAX_FLIGHT <= num
  {
    hide Inv, NodeFlush, Wire, Number, SendsStream;
    FlushKeeps(net);
    LinkSends(StepA(net, DoFlush));
    FlushBase(net.a);
    FlushedBuffer(net.a, i);
    SameNumber(AdmitAll(net.a.k).buf[i], NodeFlush(net.a).k.snd.buf[i], net.a.k.snd.una, net.a.asnd.una);
    BufferLive(TxOf(NodeFlush(net.a)), i);
  }

  lemma SameNumber(s: Segment, t: Segment, base: u32, n: int)
    requires s.sn == t.sn
    ensures Number(s, base, n) == Number(t, base, n)
  {}

  /** A flush changes no number in the buffer. */
  lemma FlushedBuffer(n: Node, i: nat)
    requires n.k.updated && i < |AdmitAll(n.k).buf|
    ensures var s := NodeFlush(n).k.snd;
      s.una == n.k.snd.una && |s.buf| == |AdmitAll(n.k).buf| && s.buf[i].sn == AdmitAll(n.k).buf[i].sn
  {
    AdmitBase(n.k);
    FlushSender(n);
    TransmitFields(AdmitAll(n.k).buf[i], PassOf(n.k));
    FlushParts(n);
    hide AdmitAll, PassOf, FlushTally, Transmit;
  }

  lemma AdmitBase(k: Kcb)
    ensures AdmitAll(k).una == k.snd.una
  {
    AdmitKeepsUna(k.snd, UsedWindow(k), StampOf(k));
  }

  lemma {:induction false} AdmitKeepsUna(s: S.Snd, cwnd: u32, st: S.Stamp)
    ensures S.Admit(s, cwnd, st).una == s.una
    decreases |s.queue|
  {
    if S.CanAdmit(s, cwnd) {
      AdmitKeepsUna(S.AdmitOne(s, st), cwnd, st);
    }
  }

  lemma BufferLive(tx: Tx, i: nat)
    requires SendsStream(tx) && i < |tx.s.buf|
    ensures var num := Number(tx.s.buf[i], tx.s.una, tx.a.una);
      num in tx.a.live && tx.a.nxt - S.MAX_FLIGHT <= num
  {
    var xs := Offsets(tx.s.buf, tx.s.una);
    assert xs[i] in xs && tx.a.una + xs[i] - tx.a.una in xs;
  }

  lemma LiveIndex(tx: Tx, num: int) returns (i: nat)
    requires SendsStream(tx) && num in tx.a.live
    ensures i < |tx.s.buf| && Number(tx.s.buf[i], tx.s.una, tx.a.una) == num && tx.a.nxt - S.MAX_FLIGHT <= num
  {
    var xs := Offsets(tx.s.buf, tx.s.una);
    i :| 0 <= i < |xs| && xs[i] == num - tx.a.una;
  }

  lemma FlushSender(n: Node)
    ensures FlushState(n.k).snd.una == AdmitAll(n.k).una && FlushState(n.k).snd.buf == TransmitAll(AdmitAll(n.k).buf, PassOf(n.k))
  {}

  lemma InTags(n: Node, i: nat)
    requires Usable(n) && n.k.updated && i < |TagData(n)|
    ensures TagData(n)[i] in Tags(n)
  {
    var j := |TagAcks(n)| + |TagProbes(n)| + i;
    assert Tags(n)[j] == TagData(n)[i];
  }

  /** Every pending acknowledgement goes out. */
  lemma AcksGoOut(n: Node, num: int)
    requires Usable(n) && n.k.updated && num in n.nums
    ensures exists t :: t in Wire(n) && t.seg.cmd == CMD_ACK && t.num == num
  {
    var i :| 0 <= i < |n.nums| && n.nums[i] == num;
    TagLengths(n);
    TagAcksAre(n, i);
    var t := TagAcks(n)[i];
    assert Tags(n)[i] == t;
    assert t in Wire(n);
  }

  // ----- one exchange

  /** The datagrams hold every segment of the wire with this command and one of these numbers. */
  ghost predicate Covers(ds: seq<seq<Tagged>>, wire: set<Tagged>, cmd: byte, nums: set<int>) {
    forall t :: t in wire && t.seg.cmd == cmd && t.num in nums ==> exists i :: 0 <= i < |ds| && t in ds[i]
  }

  lemma FlushKeeps(net: Net)
    requires Inv(net) && Usable(net.a)
    ensures Inv(StepA(net, DoFlush)) && StepA(net, DoFlush).a == NodeFlush(net.a) && StepA(net, DoFlush).b == net.b
    ensures NodeFlush(net.a).arcv == net.a.arcv
  {
    hide Inv, NodeFlush, Wire, EndpointOk, Flush;
    FlushInv(net);
    NodeFlushParts(net.a);
  }

  /** The data of a flush arrives: what was in flight and fits the window is held, and its
      acknowledgement is pending. */
  lemma DataArrives(net: Net, net1: Net, out: seq<seq<Tagged>>, num: int)
    requires Inv(net) && Usable(net.a) && net.a.k.updated
    requires net1 == StepA(net, DoFlush)
    requires Deliverable(Swap(net1), out) && Covers(out, Wire(net.a), CMD_PUSH, net1.a.asnd.live)
    requires DueNumber(net.a, num) && num < net.b.arcv.nxt + net.b.arcv.wnd
    ensures var b := DeliverAll(Swap(net1), out).a;
      Has(b.arcv, num) && num in b.nums
  {
    hide Inv, Deliverable, DeliverAll, Wire, NodeFlush, DueNumber, Has, EndpointOk, Advances;
    FlushKeeps(net);
    SwapInv(net1);
    DueGoesOut(net, num);
    var t :| t in Wire(net.a) && t.seg.cmd == CMD_PUSH && t.num == num;
    AllTook(Swap(net1), out);
    var i :| 0 <= i < |out| && t in out[i];
    assert Took(net1.b, DeliverAll(Swap(net1), out).a, net1.a.asnd.nxt, t);
    assert Welcome(net1.b, net1.a.asnd.nxt, num);
  }

  /** The acknowledgements arrive: the sender no longer keeps what they name. */
  lemma AcksArrive(net2: Net, net3: Net, back: seq<seq<Tagged>>, nums: set<int>, num: int)
    requires Inv(net3) && Usable(net2.b) && net2.b.k.updated && num in net2.b.nums && num in nums
    requires Deliverable(net3, back) && Covers(back, Wire(net2.b), CMD_ACK, nums)
    ensures num !in DeliverAll(net3, back).a.asnd.live
  {
    hide Inv, Deliverable, DeliverAll, Wire, Has, EndpointOk, Advances;
    AcksGoOut(net2.b, num);
    var t :| t in Wire(net2.b) && t.seg.cmd == CMD_ACK && t.num == num;
    AllTook(net3, back);
    var i :| 0 <= i < |back| && t in back[i];
    assert Took(net3.a, DeliverAll(net3, back).a, net3.b.asnd.nxt, t);
  }

  lemma SomeElement(xs: seq<int>)
    ensures xs != [] ==> exists x :: x in xs
  {
    if xs != [] {
      var x := xs[0];
      assert x in xs;
    }
  }

  lemma NothingKept(tx: Tx)
    requires SendsStream(tx) && tx.a.live == {}
    ensures tx.s.buf == []
  {
    var xs := Offsets(tx.s.buf, tx.s.una);
    SomeElement(xs);
    assert forall x :: x in xs ==> tx.a.una + x - tx.a.una in xs;
    assert forall x :: x in xs ==> tx.a.una + x in tx.a.live;
    assert forall x :: x !in xs;
    assert |xs| == |tx.s.buf|;
  }

  /** What a flush has just sent, other than acknowledgements, is recent wherever the peer stands. */
  lemma JustSentIsFresh(net: Net, t: Tagged)
    requires Inv(net) && Usable(net.a) && t in Wire(net.a) && t.seg.cmd != CMD_ACK
    ensures Fresh(net.b, StepA(net, DoFlush).a, t)
  {
    hide Inv, Wire, NodeFlush, EndpointOk, SendsStream;
    EndpointsOk(net);
    WireTagged(net.a, t);
    SwapInv(net);
    Ahead(Swap(net));
    WindowSmall(Swap(net));
    FlushKeeps(net);
    LinkSends(StepA(net, DoFlush));
    FlushBase(net.a);
    FlightBound(TxOf(NodeFlush(net.a)));
  }

  lemma Ahead(net: Net)
    requires Inv(net)
    ensures net.a.asnd.nxt <= net.b.arcv.nxt + net.b.arcv.wnd + S.MAX_FLIGHT
  {
    hide EndpointOk, WireOk, Stream;
    AheadBound(TxOf(net.a), RxOf(net.b));
  }

  lemma WindowSmall(net: Net)
    requires Inv(net)
    ensures net.b.arcv.wnd <= MAX_WND
  {
    hide EndpointOk, WireOk, Link;
  }

  lemma FlushBase(n: Node)
    requires n.k.updated
    ensures NodeFlush(n).asnd.una == n.asnd.una
  {
    AbsAdmitMeans(n.asnd, AdmitCount(n.k.snd, UsedWindow(n.k), StampOf(n.k)));
  }

  lemma FlightBound(tx: Tx)
    requires SendsStream(tx)
    ensures tx.a.nxt <= tx.a.una + S.MAX_FLIGHT
  {}

  /** The clock of `a` moves on. */
  ghost function Ticked(net: Net, now: u32): Net {
    net.(a := NodeTick(net.a, now))
  }

  /** One exchange without loss, from any state that satisfies the invariant.  The sender flushes, the
      datagrams reach the receiver in any order and grouping, the receiver updates, and its
      acknowledgements come back.  Then the receiver has, and the sender has dropped, every fragment that
      was due and fits the receive window; if everything in flight was due and fits, the
      sender's buffer is empty. */
  lemma GoodRound(net: Net, net1: Net, net2: Net, net3: Net, net4: Net, out: seq<seq<Tagged>>, back: seq<seq<Tagged>>, later: u32)
    requires Inv(net) && Usable(net.a) && net.a.k.updated && net1 == StepA(net, DoFlush)
    requires Deliverable(Swap(net1), out) && Covers(out, Wire(net.a), CMD_PUSH, net1.a.asnd.live)
    requires net2 == Swap(Ticked(DeliverAll(Swap(net1), out), later))
    requires Usable(net2.b) && net3 == Swap(StepA(Swap(net2), DoFlush))
    requires Deliverable(net3, back) && Covers(back, Wire(net2.b), CMD_ACK, net1.a.asnd.live) && net4 == DeliverAll(net3, back)
    ensures Inv(net4) && net4.a.asnd.live <= net1.a.asnd.live && net4.b.arcv.wnd == net.b.arcv.wnd
    ensures forall num :: DueNumber(net.a, num) && num < net.b.arcv.nxt + net.b.arcv.wnd ==>
      num in net1.a.asnd.live && Has(net4.b.arcv, num) && num !in net4.a.asnd.live
    ensures AllDue(net.a.k) && net1.a.asnd.nxt <= net.b.arcv.nxt + net.b.arcv.wnd ==> net4.a.k.snd.buf == []
  {
    hide Inv, Deliverable, DeliverAll, Wire, NodeFlush, DueNumber, AllDue, Has, Took, Covers, SendsStream, EndpointOk;
    FlushKeeps(net);
    SwapInv(net1);
    AllTook(Swap(net1), out);
    TickInv(DeliverAll(Swap(net1), out), later);
    SwapInv(net2);
    FlushKeeps(Swap(net2));
    SwapInv(net3);
    AllTook(net3, back);
    assert net3.a == net2.a == net1.a && net4.b == net3.b && net3.b.arcv == net2.b.arcv;
    assert net4.a.asnd.live <= net1.a.asnd.live;
    forall num | DueNumber(net.a, num) && num < net.b.arcv.nxt + net.b.arcv.wnd
      ensures num in net1.a.asnd.live && Has(net4.b.arcv, num) && num !in net4.a.asnd.live
    {
      DueGoesOut(net, num);
      DataArrives(net, net1, out, num);
      AcksArrive(net2, net3, back, net1.a.asnd.live, num);
    }
    if AllDue(net.a.k) && net1.a.asnd.nxt <= net.b.arcv.nxt + net.b.arcv.wnd {
      LiveBelow(net1);
      forall num | num in net1.a.asnd.live ensures DueNumber(net.a, num) {
        LiveIsDue(net, num);
      }
      Emptied(net1.a.asnd.live, net4.a.asnd.live, net.b.arcv.nxt + net.b.arcv.wnd);
      LinkSends(net4);
      NothingKept(TxOf(net4.a));
    }
  }

  lemma LiveIsDue(net: Net, num: int)
    requires Inv(net) && Usable(net.a) && net.a.k.updated && AllDue(net.a.k) && num in NodeFlush(net.a).asnd.live
    ensures DueNumber(net.a, num)
  {
    var n := net.a;
    hide Wire, FlushTally, EndpointOk, WireOk;
    FlushLinks(net);
    FlushParts(n);
    FlushBase(n);
    AdmitBase(n.k);
    FlushSender(n);
    var i := LiveIndex(TxOf(NodeFlush(n)), num);
    TransmitFields(AdmitAll(n.k).buf[i], PassOf(n.k));
    assert DueAt(n, num, i);
  }

  lemma Emptied(live: set<int>, left: set<int>, bound: int)
    requires left <= live && (forall num :: num in live ==> num < bound)
    requires forall num :: num in live && num < bound ==> num !in left
    ensures left == {}
  {
    forall num: int ensures num !in left {
      assert num in left ==> num in live;
    }
  }

  lemma LiveBelow(net: Net)
    requires Inv(net)
    ensures forall num :: num in net.a.asnd.live ==> num < net.a.asnd.nxt
  {
    hide EndpointOk, WireOk;
  }

  lemma LinkSends(net: Net)
    requires Inv(net)
    ensures SendsStream(TxOf(net.a))
  {
    hide EndpointOk, WireOk, SendsStream;
  }
}
