/** The case that `KcpDelivery` excludes: a receive window of 2^16 or more whose remainder modulo 2^16 is
    less than the length of a message.  A run can then reach a state from which no message is ever
    delivered again. */
module KcpStall {
  import opened Serial
  import opened KcpWire
  import R = KcpReceiver
  import opened KcpMessages
  import S = KcpSender
  import opened KcpControl
  import opened KcpInvariant
  import opened KcpLink
  import opened KcpNetwork
  import opened KcpProgress
  import opened KcpDrain
  import opened KcpDelivery

  /** No segment on its way announces room. */
  ghost predicate Shut(wire: set<Tagged>) {
    forall t :: t in wire ==> t.seg.wnd % 0x1_0000 == 0
  }

  /** All that was sent is held and acknowledged, the receive queue holds no complete message and leaves
      room that is a multiple of 2^16, and the sender has been told of no room and will not be. */
  ghost predicate Stalled(net: Net) {
    && Inv(net)
    && Closed(net.b.k.rcv) && net.b.arcv.nxt == net.a.asnd.nxt
    && net.a.asnd.live == {} && net.a.k.rmtWnd == 0 && Shut(net.toA)
  }

  predicate Closed(r: R.Rcv) {
    PeekSize(r) < 0 && WndUnused(r) % 0x1_0000 == 0
  }

  /** Both depend on the queue only. */
  lemma ClosedSame(net: Net, net': Net)
    requires Inv(net) && Inv(net') && net'.b.arcv == net.b.arcv
    ensures Closed(net'.b.k.rcv) == Closed(net.b.k.rcv)
  {
    hide Inv;
    QueueIs(net);
    QueueIs(net');
  }

  lemma QueueIs(net: Net)
    requires Inv(net)
    ensures var r := net.b.k.rcv; r.queue == net.b.arcv.queue && r.nque == |r.queue| && r.wnd == net.b.arcv.wnd
  {
    hide EndpointOk, WireOk, Stream;
  }

  // ----- the sender

  lemma {:induction false} SegmentsNext(n: Node, ts: seq<Tagged>)
    ensures NodeOnSegments(n, ts).asnd.nxt == n.asnd.nxt
    decreases |ts|
  {
    if ts != [] {
      SegmentsNext(NodeOnSegment(n, ts[0]), ts[1..]);
    }
  }

  lemma {:induction false} SegmentsShut(k: Kcb, segs: seq<Segment>)
    requires forall i :: 0 <= i < |segs| ==> segs[i].wnd == 0
    ensures OnSegments(k, segs).rmtWnd == if segs == [] then k.rmtWnd else 0
    decreases |segs|
  {
    if segs != [] {
      hide S.ParseUna, S.ParseAck, S.Shrink;
      SegmentsShut(OnSegment(k, segs[0]), segs[1..]);
    }
  }

  /** Segments that announce no room leave the sender without. */
  lemma InputShut(net: Net, ts: seq<Tagged>)
    requires Inv(net) && (forall t :: t in ts ==> t in net.toA) && Shut(net.toA)
    ensures net.a.k.cfg.mss > 0
    ensures NodeInput(net.a, ts).k.rmtWnd == net.a.k.rmtWnd || NodeInput(net.a, ts).k.rmtWnd == 0
    ensures Sized(ts) ==> NodeInput(net.a, ts).k.rmtWnd == 0
  {
    hide Inv, EndpointOk, NodeOnSegments, EncodeAll;
    EndpointsOk(net);
    InvUsable(net);
    DeliveredSendable(net, ts);
    var k, segs := net.a.k, Segs(ts);
    var wire := OnWireAll(segs);
    var len := Signed(Wrap(|EncodeAll(segs)|));
    if len < OVERHEAD {
      ShortInput(k, EncodeAll(segs));
    } else {
      InputDecodes(k, segs);
      assert forall i :: 0 <= i < |ts| ==> ts[i] in ts;
      SegmentsShut(k, wire);
      FinishFrame(OnSegments(k, wire), MaxAcks(None, wire), k.snd.una);
      hide OnSegments, MaxAcks, Finish, Input;
      NotEmpty(ts);
    }
  }

  lemma NotEmpty(ts: seq<Tagged>)
    ensures ts == [] ==> EncodeAll(Segs(ts)) == []
  {}

  lemma NodeInputParts(n: Node, ts: seq<Tagged>)
    requires n.k.cfg.mss > 0
    ensures var m := NodeInput(n, ts);
      m.(k := n.k) == n || m.(k := n.k) == NodeOnSegments(n, ts).(k := n.k)
  {
    hide NodeOnSegments, Input, EncodeAll;
  }

  lemma SenderInput(net: Net, ts: seq<Tagged>)
    requires Stalled(net) && Enabled(net, Deliver(ts))
    ensures Stalled(StepA(net, Deliver(ts))) && StepA(net, Deliver(ts)).b == net.b
  {
    hide Inv, NodeInput, NodeOnSegments, Linked, Fresh, Took, Has;
    DeliverInv(net, ts);
    InvLinked(net);
    InputShut(net, ts);
    SegmentsTook(net, ts);
    SegmentsNext(net.a, ts);
    NodeInputParts(net.a, ts);
    assert NodeInput(net.a, ts).asnd.live == {};
  }

  /** Without a window nothing is admitted. */
  lemma NoneAdmitted(n: Node)
    requires EndpointOk(n.k) && n.k.rmtWnd == 0
    ensures NodeFlush(n).asnd == n.asnd && NodeFlush(n).k.rmtWnd == 0
  {
    S.CanAdmitMeans(n.k.snd, 0);
    assert UsedWindow(n.k) == 0;
    assert AdmitCount(n.k.snd, 0, StampOf(n.k)) == 0;
    hide S.Admit, FlushTally, TransmitAll, NextProbe;
  }

  lemma SenderFlush(net: Net)
    requires Stalled(net)
    ensures Usable(net.a) && Stalled(StepA(net, DoFlush)) && StepA(net, DoFlush).b == net.b
  {
    hide Inv, NodeFlush, Wire, EndpointOk, Shut;
    InvUsable(net);
    FlushInv(net);
    EndpointsOk(net);
    NoneAdmitted(net.a);
  }

  lemma SenderStep(net: Net, step: Step)
    requires Stalled(net) && Enabled(net, step)
    ensures Stalled(StepA(net, step)) && StepA(net, step).b == net.b
  {
    hide Inv, NodeSend, NodeRecv, NodeTick, NodeFlush, NodeInput, Wire, Fresh, Shut;
    StepInv(net, step);
    match step
    case DoSend(msg) => SendKeeps(net.a, msg);
    case DoRecv(len) => RecvKeeps(net.a, len);
    case DoUpdate(current) =>
      TickInv(net, current);
      TickKeeps(net.a, current);
      SenderFlush(Ticked(net, current));
    case DoFlush => SenderFlush(net);
    case Deliver(ts) => SenderInput(net, ts);
  }

  lemma SendKeeps(n: Node, msg: Message)
    requires n.k.cfg.mss > 0
    ensures var m := NodeSend(n, msg); m.asnd == n.asnd && m.k.rmtWnd == n.k.rmtWnd && m.arcv == n.arcv && m.got == n.got
  {
    hide S.Send;
  }

  lemma RecvKeeps(n: Node, len: int)
    ensures var m := NodeRecv(n, len); m.asnd == n.asnd && m.k.rmtWnd == n.k.rmtWnd
  {
    hide Recv, RxRecv;
  }

  lemma TickKeeps(n: Node, now: u32)
    ensures var m := NodeTick(n, now);
      m.asnd == n.asnd && m.arcv == n.arcv && m.got == n.got && m.k.rmtWnd == n.k.rmtWnd && m.k.rcv == n.k.rcv
  {}

  // ----- the receiver

  lemma RecvNothing(n: Node, len: int)
    requires PeekSize(n.k.rcv) < 0
    ensures NodeRecv(n, len).arcv == n.arcv && NodeRecv(n, len).got == n.got
  {}

  /** Data that the receiver has already taken changes nothing. */
  lemma {:induction false} OldData(n: Node, ts: seq<Tagged>)
    requires forall t :: t in ts && t.seg.cmd == CMD_PUSH ==> t.num < n.arcv.nxt
    ensures NodeOnSegments(n, ts).arcv == n.arcv && NodeOnSegments(n, ts).got == n.got
    decreases |ts|
  {
    if ts != [] {
      assert ts[0] in ts;
      assert NodeOnSegment(n, ts[0]).arcv == n.arcv;
      OldData(NodeOnSegment(n, ts[0]), ts[1..]);
    }
  }

  lemma DataOld(net: Net, t: Tagged)
    requires Inv(net) && t in net.toB && t.seg.cmd == CMD_PUSH
    ensures t.num < net.a.asnd.nxt
  {
    hide EndpointOk, WireOk, Stream;
  }

  lemma ReceiverInput(net: Net, ts: seq<Tagged>)
    requires Stalled(net) && Enabled(Swap(net), Deliver(ts))
    ensures var net' := Swap(StepA(Swap(net), Deliver(ts)));
      Stalled(net') && net'.b.got == net.b.got
  {
    hide Inv, NodeInput, NodeOnSegments, Fresh, Shut, Closed;
    SwapInv(net);
    DeliverInv(Swap(net), ts);
    SwapInv(Swap(StepA(Swap(net), Deliver(ts))));
    forall t | t in ts && t.seg.cmd == CMD_PUSH ensures t.num < net.b.arcv.nxt {
      DataOld(net, t);
    }
    OldData(net.b, ts);
    NodeInputParts(net.b, ts);
    ClosedSame(net, Swap(StepA(Swap(net), Deliver(ts))));
  }

  lemma WireInFlush(n: Node, t: Tagged)
    requires Usable(n) && EndpointOk(n.k) && t in Wire(n)
    ensures t.seg in FlushSegments(n.k)
  {
    hide FlushSegments, EndpointOk, TagAcks, TagProbes, TagData;
    var i :| 0 <= i < |Tags(n)| && Tags(n)[i] == t;
    TagsAre(n, i);
  }

  /** Such a receiver announces no room. */
  lemma FlushShut(n: Node)
    requires Usable(n) && EndpointOk(n.k) && Closed(n.k.rcv)
    ensures Shut(Wire(n))
  {
    hide Wire, FlushSegments, EndpointOk;
    forall t | t in Wire(n) ensures t.seg.wnd % 0x1_0000 == 0 {
      WireInFlush(n, t);
      Announces(n.k, t.seg);
    }
  }

  lemma ReceiverFlush(net: Net)
    requires Stalled(net)
    ensures Usable(net.b)
    ensures var net' := Swap(StepA(Swap(net), DoFlush));
      Stalled(net') && net'.b.got == net.b.got
  {
    hide Inv, NodeFlush, Wire, EndpointOk, Closed;
    InvUsable(net);
    EndpointsOk(net);
    SwapInv(net);
    FlushKeeps(Swap(net));
    FlushFrame(net.b);
    SwapInv(Swap(StepA(Swap(net), DoFlush)));
    ClosedSame(net, Swap(StepA(Swap(net), DoFlush)));
    FlushShut(net.b);
  }

  lemma ReceiverStep(net: Net, step: Step)
    requires Stalled(net) && Enabled(Swap(net), step)
    ensures var net' := Swap(StepA(Swap(net), step));
      Stalled(net') && net'.b.got == net.b.got
  {
    hide Inv, NodeSend, NodeRecv, NodeTick, NodeFlush, NodeInput, Wire, Fresh, Shut, PeekSize, WndUnused;
    SwapInv(net);
    StepInv(Swap(net), step);
    var net' := Swap(StepA(Swap(net), step));
    SwapInv(net');
    match step
    case DoSend(msg) =>
      SendKeeps(net.b, msg);
      ClosedSame(net, net');
    case DoRecv(len) =>
      RecvNothing(net.b, len);
      ClosedSame(net, net');
    case DoUpdate(current) =>
      TickInv(Swap(net), current);
      TickKeeps(net.b, current);
      var tick := Swap(Ticked(Swap(net), current));
      SwapInv(tick);
      ReceiverFlush(tick);
    case DoFlush => ReceiverFlush(net);
    case Deliver(ts) => ReceiverInput(net, ts);
  }

  /** Nothing is ever delivered again: not in any continuation, whatever is sent, probed or received. */
  lemma {:induction false} StalledForever(net: Net, events: seq<Event>, net': Net)
    requires Stalled(net) && Run(net, events, net')
    ensures Stalled(net') && net'.b.got == net.b.got
    decreases |events|
  {
    hide Stalled, Can, Next;
    if events != [] {
      var n := |events| - 1;
      var mid :|
        && Run(net, events[..n], mid)
        && Usable(mid.a) && Usable(mid.b) && Can(mid, events[n])
        && net' == Next(mid, events[n]);
      StalledForever(net, events[..n], mid);
      StalledNext(mid, events[n]);
    }
  }

  lemma StalledNext(net: Net, e: Event)
    requires Stalled(net) && Usable(net.a) && Usable(net.b) && Can(net, e)
    ensures Stalled(Next(net, e)) && Next(net, e).b.got == net.b.got
  {
    hide Stalled, Enabled;
    if e.atB {
      ReceiverStep(net, e.step);
    } else {
      SenderStep(net, e.step);
    }
  }

  // ----- such a state is reached

  lemma {:induction false} DeliverShut(net: Net, ds: seq<seq<Tagged>>)
    requires Inv(net) && Deliverable(net, ds) && Shut(net.toA) && ds != []
    ensures DeliverAll(net, ds).a.k.rmtWnd == 0
    decreases |ds|
  {
    hide Inv, NodeInput, Sized, Fresh, Shut;
    InputShut(net, ds[0]);
    DeliverInv(net, ds[0]);
    if |ds| > 1 {
      DeliverShut(StepA(net, Deliver(ds[0])), ds[1..]);
    } else {
      assert ds[1..] == [];
    }
  }

  lemma {:induction false} DeliverNext(net: Net, ds: seq<seq<Tagged>>)
    requires Inv(net) && Deliverable(net, ds)
    ensures DeliverAll(net, ds).a.asnd.nxt == net.a.asnd.nxt
    decreases |ds|
  {
    hide Inv, NodeInput, Sized, Fresh;
    if ds != [] {
      DeliverInv(net, ds[0]);
      SegmentsNext(net.a, ds[0]);
      NodeInputParts(net.a, ds[0]);
      DeliverNext(StepA(net, Deliver(ds[0])), ds[1..]);
    }
  }

  // The first flight: nothing has been sent by the peer, and all that the sender has admitted arrives.

  /** A sender that may send what it is going to admit, and a peer that has never sent anything. */
  ghost predicate FirstFlight(net: Net, msg: Message, w: nat) {
    && Inv(net) && net.a.sent == [msg] && net.a.asnd == S.AbsSnd(0, 0, {}) && net.a.k.snd.queue != []
    && net.b.arcv.wnd == w && net.toA == {} && 1 <= UsedWindow(net.a.k) <= w
  }

  lemma NewNet(ca: Config, cb: Config, w: u32) returns (net: Net)
    requires ValidConfig(ca) && ValidConfig(cb) && ca.conv == cb.conv && R.WND_RCV <= w <= MAX_WND
    ensures Start(net) && Run(net, [], net) && net.toA == {} && net.a.k.cfg == ca && net.a.k.rmtWnd == 128
    ensures net.a.sent == [] && net.a.asnd == S.AbsSnd(0, 0, {}) && net.a.k.snd == S.Snd(0, 0, [], [], 0, 0)
    ensures net.b.k.rcv.wnd == w && net.b.arcv.wnd == w
  {
    net := Net(NewNode(ca, 0), NewNode(cb, w), {}, {});
  }

  lemma SendFirst(n: Node, msg: Message)
    requires n.k.cfg.mss > 0 && n.sent == [] && S.Accepts(msg, n.k.cfg.mss)
    ensures var m := NodeSend(n, msg);
      && m.sent == [msg] && m.k == n.k.(snd := m.k.snd) && m.asnd == n.asnd
      && m.k.snd == n.k.snd.(queue := m.k.snd.queue, nque := m.k.snd.nque)
      && |m.k.snd.queue| == |n.k.snd.queue| + |Fragments(msg, n.k.cfg.mss)|
  {
    hide S.Accepts, Fragments;
  }

  lemma IdleFlush(n: Node)
    requires n.k.snd.queue == []
    ensures NodeFlush(NodeTick(n, 0)).asnd == n.asnd && NodeFlush(NodeTick(n, 0)).sent == n.sent
  {
    hide S.Admit, FlushTally, TransmitAll, NextProbe, UsedWindow;
  }

  /** With a congestion window the first update opens it, the second sends. */
  lemma FlightReached(ca: Config, cb: Config, msg: Message, w: u32) returns (net0: Net, events: seq<Event>, net: Net)
    requires ValidConfig(ca) && ValidConfig(cb) && ca.conv == cb.conv && ca.sndWnd > 0 && S.Accepts(msg, ca.mss)
    requires R.WND_RCV <= w <= MAX_WND
    ensures Start(net0) && net0.b.k.rcv.wnd == w && Run(net0, events, net) && FirstFlight(net, msg, w) && net.a.k.cfg == ca
    ensures UsedWindow(net.a.k) <= 128 && (ca.nocwnd ==> UsedWindow(net.a.k) == Min(ca.sndWnd, 128))
    ensures |net.a.k.snd.queue| == |Fragments(msg, ca.mss)|
  {
    hide Run, Start, Inv, NodeFlush, Wire, NodeSend, Tick, EndpointOk, S.Accepts, Fragments;
    net0 := NewNet(ca, cb, w);
    StartInv(net0);
    InvUsable(net0);
    var e := Event(false, DoUpdate(0));
    UpdateFacts(net0, 0);
    StepRun(net0, [], net0, e);
    var net1 := Next(net0, e);
    IdleFlush(net0.a);
    EmptyQueue(net0.a);
    InvUsable(net1);
    var d := Event(false, DoSend(msg));
    StepRun(net0, [] + [e], net1, d);
    SendFirst(net1.a, msg);
    events, net := [] + [e] + [d], Next(net1, d);
    SomeFragments(msg, ca.mss);
  }

  lemma EmptyQueue(n: Node)
    requires n.k.snd.queue == []
    ensures NodeFlush(NodeTick(n, 0)).k.snd.queue == []
  {
    hide FlushTally, TransmitAll, NextProbe, UsedWindow;
  }

  lemma SomeFragments(msg: Message, mss: nat)
    requires mss > 0
    ensures |Fragments(msg, mss)| > 0
  {}

  /** Everything the first flight admits is due. */
  lemma FlightDue(n: Node, now: u32)
    requires SendsStream(TxOf(n)) && n.asnd == S.AbsSnd(0, 0, {}) && n.k.snd.queue != []
    requires 1 <= UsedWindow(n.k) <= S.MAX_FLIGHT
    ensures var c := Min(UsedWindow(n.k), |n.k.snd.queue|);
      && NodeFlush(NodeTick(n, now)).asnd.nxt == c
      && forall i :: 0 <= i < c ==> DueNumber(NodeTick(n, now), i)
  {
    var n1 := NodeTick(n, now);
    var s := n.k.snd;
    TickFrame(n.k, now);
    var w, st := UsedWindow(n1.k), StampOf(n1.k);
    assert w == UsedWindow(n.k);
    EmptyFlight(TxOf(n));
    S.AdmitFills(s, w, st);
    AdmitQueue(s, w, st);
    AbsAdmitMeans(n1.asnd, AdmitCount(s, w, st));
    var c := Min(w, |s.queue|);
    hide S.Admit, AbsAdmit, AdmitCount, UsedWindow, FlushTally, TransmitAll, NextProbe;
    assert AdmitAll(n1.k) == S.Admit(s, w, st);
    assert S.Flight(AdmitAll(n1.k)) == c;
    forall i | 0 <= i < c ensures DueNumber(n1, i) {
      var seg := AdmitAll(n1.k).buf[i];
      assert seg == AdmitAll(n1.k).buf[|s.buf| + i] == S.Admitted(s.queue[i], Add32(s.nxt, i), st);
      assert DueAt(n1, i, i);
    }
  }

  lemma EmptyFlight(tx: Tx)
    requires SendsStream(tx) && tx.a == S.AbsSnd(0, 0, {})
    ensures tx.s.buf == [] && tx.s.una == 0 && tx.s.nxt == 0 && S.Flight(tx.s) == 0
  {
    NothingKept(tx);
  }

  /** How much of the first message is sent at once. */
  function FirstCount(n: Node): nat {
    Min(UsedWindow(n.k), |n.k.snd.queue|)
  }

  /** The first `c` fragments are sent, and the receiver has them. */
  ghost predicate FlightLanded(net: Net, msg: Message, w: nat, c: nat) {
    && Inv(net) && net.a.sent == [msg] && net.a.asnd.nxt == c && 0 in net.a.asnd.live
    && net.b.arcv.wnd == w && net.toA == {}
    && forall i :: 0 <= i < c ==> Has(net.b.arcv, i) && i in net.b.nums
  }

  lemma FlightArrives(net0: Net, events: seq<Event>, net: Net, msg: Message, w: nat) returns (more: seq<Event>, mid: Net)
    requires Run(net0, events, net) && FirstFlight(net, msg, w) && UsedWindow(net.a.k) <= S.MAX_FLIGHT
    ensures Run(net0, events + more, mid) && FlightLanded(mid, msg, w, FirstCount(net.a)) && mid.a.k.cfg == net.a.k.cfg
  {
    hide Run, Inv, NodeFlush, Wire, EndpointOk, Covers, Deliverable, DeliverAll, DueNumber, Has, UsedWindow, SendsStream, Tick, Took;
    LinkSends(net);
    var c := FirstCount(net.a);
    FlightDue(net.a, 0);
    var out, net1;
    out, more, net1, mid := SendHalf(net0, events, net, 0);
    var tick := Ticked(net, 0);
    FlushKeeps(tick);
    FlushFrame(tick.a);
    TickFrame(net.a.k, 0);
    DueGoesOut(tick, 0);
    forall i | 0 <= i < c ensures Has(mid.b.arcv, i) && i in mid.b.nums {
      DataArrives(tick, net1, out, i);
    }
    SwapInv(net1);
    AllTook(Swap(net1), out);
    AllTookB(Swap(net1), out);
  }

  /** What the application leaves: nothing when the message was complete, all of it otherwise. */
  lemma AllTaken(net: Net, msg: Message, w: nat, c: nat)
    requires FlightLanded(net, msg, w, c) && PeekSize(net.b.k.rcv) < 0
    ensures net.a.k.cfg.mss > 0 && net.b.arcv.nxt == c
    ensures |net.b.arcv.queue| == if c == |Fragments(msg, net.a.k.cfg.mss)| then 0 else c
    ensures forall k :: k in net.a.asnd.live ==> 0 <= k < c
  {
    hide EndpointOk, WireOk, PeekSize, Fragments;
    var tx, rx := TxOf(net.a), RxOf(net.b);
    InOrder(net);
    assert [msg][1..] == [] && Stream([], tx.mss) == [];
    assert Stream(tx.sent, tx.mss) == Fragments(msg, tx.mss);
    assert rx.got == [] || rx.got == [msg];
    if c == |Fragments(msg, tx.mss)| {
      AllArrived(tx, rx);
    }
  }

  /** The answer of a receiver whose room cannot be announced: nothing it has ever sent announces room. */
  lemma AnswerShut(net: Net, net2: Net, net3: Net)
    requires Inv(net) && Closed(net.b.k.rcv) && net.toA == {}
    requires net2 == Swap(Ticked(Swap(net), 0)) && Usable(net2.b) && net3 == Swap(StepA(Swap(net2), DoFlush))
    ensures Inv(net3) && net2.b.k.updated && net2.b.nums == net.b.nums
    ensures Shut(net3.toA) && net3.b.arcv == net.b.arcv && net3.a == net.a && Closed(net3.b.k.rcv)
  {
    hide Inv, NodeFlush, Wire, EndpointOk, Closed;
    SwapInv(net);
    TickInv(Swap(net), 0);
    TickKeeps(net.b, 0);
    SwapInv(net2);
    EndpointsOk(net2);
    FlushKeeps(Swap(net2));
    SwapInv(net3);
    FlushShut(net2.b);
    NodeFlushRcv(net2.b);
    assert net3.toA == Wire(net2.b);
  }

  lemma BackNotEmpty(n: Node, back: seq<seq<Tagged>>, nums: set<int>)
    requires Usable(n) && n.k.updated && 0 in n.nums && 0 in nums && Covers(back, Wire(n), CMD_ACK, nums)
    ensures back != []
  {
    hide Wire;
    AcksGoOut(n, 0);
    var t :| t in Wire(n) && t.seg.cmd == CMD_ACK && t.num == 0;
    assert exists i :: 0 <= i < |back| && t in back[i];
  }

  /** The acknowledgements of the first flight close the window. */
  lemma LastAnswer(net0: Net, events: seq<Event>, net: Net, msg: Message, w: nat, c: nat) returns (more: seq<Event>, net': Net)
    requires Run(net0, events, net) && FlightLanded(net, msg, w, c) && Closed(net.b.k.rcv)
    ensures Run(net0, events + more, net') && Stalled(net') && net'.a.k.cfg == net.a.k.cfg
  {
    hide Run, Inv, NodeFlush, Wire, EndpointOk, Covers, Deliverable, DeliverAll, Has, PeekSize, WndUnused, Shut, Took;
    AllTaken(net, msg, w, c);
    var back, net2, net3;
    back, more, net2, net3, net' := AnswerHalf(net0, events, net, 0);
    AnswerShut(net, net2, net3);
    forall k | k in net.a.asnd.live ensures k !in net'.a.asnd.live {
      AcksArrive(net2, net3, back, net.a.asnd.live, k);
    }
    BackNotEmpty(net2.b, back, net.a.asnd.live);
    DeliverShut(net3, back);
    DeliverNext(net3, back);
    DeliverFrame(net3, back);
    AllTook(net3, back);
    AllTookB(net3, back);
    assert net'.a.asnd.live == {};
  }

  // A message whose first flight leaves room that is a multiple of 2^16.

  function Zeros(n: nat): (r: Message)
    ensures |r| == n
  {
    seq(n, i => 0)
  }

  lemma OneMore(j: nat, mss: nat)
    requires mss > 0
    ensures FragmentCount(j * mss + 1, mss) == j + 1
  {
    var len := j * mss + 1;
    if j > 0 {
      assert len == (j - 1) * mss + mss + 1;
      assert (j - 1) * mss >= 0;
      assert len + mss - 1 == (j + 1) * mss;
      Quotient(len + mss - 1, mss, j + 1, 0);
    }
  }

  lemma RoomLeft(w: nat, j: nat, c: nat, count: nat, r: R.Rcv)
    requires w >= 0x1_0000 && j == w % 0x1_0000 && j + 1 < S.MAX_COUNT && count == j + 1 && r.wnd == w
    requires c == if j == 0 then 1 else j
    requires r.nque == if c == count then 0 else c
    ensures WndUnused(r) % 0x1_0000 == 0
  {
    var q := w / 0x1_0000;
    assert r.nque == j && w - j == 0x1_0000 * q;
  }

  /** A sender that sends as much at once as leaves such room. */
  predicate Fitting(c: Config, w: u32) {
    c.sndWnd > 0 && (w % 0x1_0000 == 0 || (c.nocwnd && c.sndWnd == w % 0x1_0000))
  }

  /** The first flight is delivered, and taken if complete, before the receiver updates; the
      acknowledgements then announce a window of zero. */
  lemma StallReached(ca: Config, cb: Config, w: u32) returns (net0: Net, events: seq<Event>, net: Net)
    requires ValidConfig(ca) && ValidConfig(cb) && ca.conv == cb.conv && Fitting(ca, w)
    requires !Announceable(w) && w <= MAX_WND
    ensures Start(net0) && net0.b.k.rcv.wnd == w && Run(net0, events, net) && Stalled(net) && net.a.k.cfg == ca
  {
    hide Run, Start, FirstFlight, FlightLanded, Stalled, PeekSize, WndUnused, UsedWindow, Fragments;
    var j := w % 0x1_0000;
    var msg := Zeros(j * ca.mss + 1);
    OneMore(j, ca.mss);
    CountFragments(msg, ca.mss);
    var first, net1;
    net0, first, net1 := FlightReached(ca, cb, msg, w);
    UsedSome(net1, msg, w);
    var c := FirstCount(net1.a);
    var second, mid := FlightArrives(net0, first, net1, msg, w);
    LandedInv(mid, msg, w, c);
    var third, taken := TakeAll(net0, first + second, mid);
    LandedStays(mid, taken, msg, w, c);
    AllTaken(taken, msg, w, c);
    LandedInv(taken, msg, w, c);
    QueueIs(taken);
    RoomLeft(w, j, c, j + 1, taken.b.k.rcv);
    var fourth;
    fourth, net := LastAnswer(net0, first + second + third, taken, msg, w, c);
    events := first + second + third + fourth;
  }

  lemma UsedSome(net: Net, msg: Message, w: nat)
    requires FirstFlight(net, msg, w)
    ensures UsedWindow(net.a.k) >= 1 && net.a.k.snd.queue != []
  {}

  lemma LandedInv(net: Net, msg: Message, w: nat, c: nat)
    requires FlightLanded(net, msg, w, c)
    ensures Inv(net) && net.b.arcv.wnd == w
  {}

  lemma LandedStays(net: Net, net': Net, msg: Message, w: nat, c: nat)
    requires FlightLanded(net, msg, w, c) && Inv(net') && net'.a == net.a && net'.toA == net.toA
    requires net'.b.arcv.wnd == net.b.arcv.wnd && net'.b.nums == net.b.nums
    requires forall k :: Has(net.b.arcv, k) ==> Has(net'.b.arcv, k)
    ensures FlightLanded(net', msg, w, c)
  {
    hide Inv, Has;
  }

  lemma StalledOk(net: Net)
    requires Stalled(net)
    ensures Inv(net) && Usable(net.a) && Usable(net.b)
  {
    hide Inv, Usable;
    InvUsable(net);
  }

  lemma SendAccepted(n: Node, msg: Message)
    requires n.k.cfg.mss > 0 && S.Accepts(msg, n.k.cfg.mss)
    ensures NodeSend(n, msg).sent == n.sent + [msg]
  {
    hide S.Accepts, S.Send;
  }

  /** For every other receive window a message can be held up for good although no segment is lost: there is
      a run after which a further message is accepted and in no continuation delivered. */
  lemma NeverDelivered(ca: Config, cb: Config, w: u32, msg: Message) returns (net0: Net, events: seq<Event>, net: Net)
    requires ValidConfig(ca) && ValidConfig(cb) && ca.conv == cb.conv && Fitting(ca, w) && S.Accepts(msg, ca.mss)
    requires !Announceable(w) && w <= MAX_WND
    ensures Start(net0) && net0.b.k.rcv.wnd == w && Run(net0, events, net)
    ensures net.a.sent != [] && net.a.sent[|net.a.sent| - 1] == msg && |net.b.got| < |net.a.sent|
    ensures forall more, net' :: Run(net, more, net') ==> net'.b.got == net.b.got
  {
    hide Run, Start, Stalled, NodeSend, S.Accepts, Fitting, Announceable, Inv;
    var first, stalled;
    net0, first, stalled := StallReached(ca, cb, w);
    StalledOk(stalled);
    var e := Event(false, DoSend(msg));
    StepRun(net0, first, stalled, e);
    StalledNext(stalled, e);
    SendAccepted(stalled.a, msg);
    events, net := first + [e], Next(stalled, e);
    GotShort(stalled);
    forall more, net' | Run(net, more, net') ensures net'.b.got == net.b.got {
      StalledForever(net, more, net');
    }
  }
}
