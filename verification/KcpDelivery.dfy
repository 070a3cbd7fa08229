/** Every run can be continued until all messages have been delivered, provided that the room that a
    part of a message leaves in the receive window can be announced in 16 bits. */
module KcpDelivery {
  import opened Serial
  import opened KcpWire
  import opened KcpNumbering
  import R = KcpReceiver
  import opened KcpMessages
  import S = KcpSender
  import opened KcpTiming
  import opened KcpControl
  import opened KcpInvariant
  import opened KcpLink
  import opened KcpNetwork
  import opened KcpProgress
  import opened KcpDrain

  // ----- the application takes what is complete

  lemma RecvSucceeds(r: R.Rcv)
    requires PeekSize(r) >= 0
    ensures Recv(r, PeekSize(r)).rc >= 0
  {}

  lemma RecvGrows(net: Net, len: int)
    requires Inv(net) && len >= 0 && Recv(net.a.k.rcv, len).rc >= 0
    ensures var n := NodeRecv(net.a, len);
      && |n.got| == |net.a.got| + 1 && n.arcv.wnd == net.a.arcv.wnd && n.nums == net.a.nums
      && (forall k :: Has(net.a.arcv, k) ==> Has(n.arcv, k))
  {
    hide EndpointOk, WireOk, Stream;
    var tx, rx := TxOf(net.b), RxOf(net.a);
    RecvTakes(tx, rx, len);
    RecvDelivers(tx, rx, len);
    RecvParts(net.a, len);
  }

  lemma {:induction false} TakeAll(net0: Net, events: seq<Event>, net: Net) returns (more: seq<Event>, net': Net)
    requires Run(net0, events, net) && Inv(net)
    ensures Run(net0, events + more, net') && Inv(net')
    ensures net'.a == net.a && net'.toA == net.toA && net'.toB == net.toB
    ensures net'.b.arcv.wnd == net.b.arcv.wnd && net'.b.nums == net.b.nums
    ensures forall k :: Has(net.b.arcv, k) ==> Has(net'.b.arcv, k)
    ensures PeekSize(net'.b.k.rcv) < 0
    decreases |net.a.sent| - |net.b.got|
  {
    hide Run, Inv, EndpointOk, Has, PeekSize, Recv;
    if PeekSize(net.b.k.rcv) < 0 {
      more, net' := [], net;
      assert events + more == events;
    } else {
      var len := PeekSize(net.b.k.rcv);
      var e := Event(true, DoRecv(len));
      InvUsable(net);
      NextInv(net, e);
      RunAppend(net0, events, net, e);
      RecvSucceeds(net.b.k.rcv);
      SwapInv(net);
      RecvGrows(Swap(net), len);
      var net1 := Next(net, e);
      GotShort(net);
      GotShort(net1);
      var rest;
      rest, net' := TakeAll(net0, events + [e], net1);
      more := [e] + rest;
      assert events + more == events + [e] + rest;
    }
  }

  lemma GotShort(net: Net)
    requires Inv(net)
    ensures |net.b.got| <= |net.a.sent|
  {
    hide EndpointOk, WireOk, Stream;
  }

  /** A receiver from which the application has taken all it can has everything that the sender
      no longer keeps, in order. */
  lemma CaughtUp(tx: Tx, rx: Rx)
    requires SendsStream(tx) && DeliversPrefix(tx, rx) && NothingLost(tx.a, rx.a) && PeekSize(rx.r) < 0
    ensures tx.a.una <= rx.a.nxt && rx.r.nque < rx.r.wnd && !Has(rx.a, rx.a.nxt)
  {
    hide Stream;
    if rx.r.nque >= rx.r.wnd {
      NeverStuck(tx, rx);
    }
    R.MoveSimulates(rx.r, rx.a);
    assert rx.a.nxt !in rx.a.buf;
    assert !Has(rx.a, rx.a.nxt);
    assert rx.a.nxt < tx.a.una ==> rx.a.nxt !in tx.a.live;
  }

  lemma SomeSegment(buf: seq<Segment>)
    ensures buf != [] ==> exists s :: s in buf
  {
    if buf != [] {
      var s := buf[0];
      assert s in buf;
    }
  }

  /** A receive queue without a complete message is shorter than a message, which has fewer than
      `MAX_COUNT` fragments. */
  lemma PartIsShort(tx: Tx, rx: Rx)
    requires SendsStream(tx) && DeliversPrefix(tx, rx) && PeekSize(rx.r) < 0
    ensures rx.r.nque + 1 < S.MAX_COUNT
  {
    if rx.r.queue != [] {
      QueueStarts(tx, rx);
      var msg := tx.sent[|rx.got|];
      S.AcceptedFragments(msg, tx.mss);
      PeekMeans(rx.r, msg, tx.mss, Fragments(msg, tx.mss) + Stream(tx.sent[|rx.got| + 1..], tx.mss));
    }
  }

  /** When everything has arrived and been taken, the receiver is empty and all is delivered. */
  lemma AllArrived(tx: Tx, rx: Rx)
    requires SendsStream(tx) && DeliversPrefix(tx, rx) && PeekSize(rx.r) < 0
    requires rx.a.nxt == |Stream(tx.sent, tx.mss)|
    ensures rx.r.queue == [] && rx.r.buf == [] && rx.got == tx.sent
  {
    var stream := Stream(tx.sent, tx.mss);
    assert forall k :: k !in rx.a.buf;
    assert forall s :: s in rx.r.buf ==> Number(s, rx.r.nxt, rx.a.nxt) in rx.a.buf;
    SomeSegment(rx.r.buf);
    if rx.r.queue != [] {
      QueueStarts(tx, rx);
      var msg := tx.sent[|rx.got|];
      var rest := Fragments(msg, tx.mss) + Stream(tx.sent[|rx.got| + 1..], tx.mss);
      PeekMeans(rx.r, msg, tx.mss, rest);
    }
    NextMessage(tx.sent, |rx.got|, tx.mss);
    assert tx.sent[..|rx.got|] == rx.got;
  }

  // ----- the work that is left

  /** Fragments that are not acknowledged, sent or not. */
  ghost function Work(net: Net): nat {
    |net.a.k.snd.queue| + |net.a.asnd.live|
  }

  lemma {:induction false} AdmitCard(a: S.AbsSnd, n: nat)
    requires forall k :: k in a.live ==> k < a.nxt
    ensures |AbsAdmit(a, n).live| == |a.live| + n && forall k :: k in AbsAdmit(a, n).live ==> k < AbsAdmit(a, n).nxt
    decreases n
  {
    if n > 0 {
      var a1 := S.AbsAdmitOne(a);
      assert a.nxt !in a.live && a1.live == a.live + {a.nxt};
      AdmitCard(a1, n - 1);
    }
  }

  lemma {:induction false} AdmitQueue(s: S.Snd, cwnd: u32, st: S.Stamp)
    ensures |S.Admit(s, cwnd, st).queue| + AdmitCount(s, cwnd, st) == |s.queue|
    decreases |s.queue|
  {
    if S.CanAdmit(s, cwnd) {
      AdmitQueue(S.AdmitOne(s, st), cwnd, st);
    }
  }

  lemma SubsetCard(x: set<int>, y: set<int>)
    requires x <= y
    ensures |x| + |y - x| == |y|
  {
    assert y == x + (y - x) && x * (y - x) == {};
  }

  lemma ProperCard(x: set<int>, y: set<int>, e: int)
    requires x <= y && e in y && e !in x
    ensures |x| < |y|
  {
    SubsetCard(x, y);
    assert e in y - x;
  }

  /** An update of the sender: no work is added or done, the window is open afterwards. */
  lemma UpdateFacts(net: Net, now: u32)
    requires Inv(net)
    ensures Usable(net.a)
    ensures var net1 := StepA(net, DoUpdate(now));
      && Inv(net1) && Work(net1) == Work(net) && net1.b == net.b && net1.toA == net.toA
      && net1.a.sent == net.a.sent && net1.a.k.cfg == net.a.k.cfg && net1.a.k.rmtWnd == net.a.k.rmtWnd
      && net1.a.k.updated && net1.a.k.cc.cwnd >= 1
  {
    hide Inv, NodeFlush, Wire, EndpointOk, Tick;
    InvUsable(net);
    TickInv(net, now);
    var tick := Ticked(net, now);
    InvUsable(tick);
    FlushInv(tick);
    LiveBelow(net);
    FlushWork(tick.a);
    TickFrame(net.a.k, now);
    assert StepA(net, DoUpdate(now)).a == NodeFlush(tick.a);
  }

  lemma TickFrame(k: Kcb, now: u32)
    ensures var k' := Tick(k, now);
      && k'.snd == k.snd && k'.rcv == k.rcv && k'.cfg == k.cfg && k'.rmtWnd == k.rmtWnd && k'.cc == k.cc
      && k'.probe == k.probe && k'.current == now && k'.updated
  {}

  lemma FlushWork(n: Node)
    requires n.k.updated && forall k :: k in n.asnd.live ==> k < n.asnd.nxt
    ensures var n' := NodeFlush(n);
      && |n'.k.snd.queue| + |n'.asnd.live| == |n.k.snd.queue| + |n.asnd.live|
      && n'.sent == n.sent && n'.k.cfg == n.k.cfg && n'.k.rmtWnd == n.k.rmtWnd && n'.k.updated && n'.k.cc.cwnd >= 1
  {
    AdmitCard(n.asnd, AdmitCount(n.k.snd, UsedWindow(n.k), StampOf(n.k)));
    AdmitQueue(n.k.snd, UsedWindow(n.k), StampOf(n.k));
    hide S.Admit, AbsAdmit, AdmitCount, UsedWindow, FlushTally, TransmitAll, NextProbe;
  }

  // ----- the window opens

  /** One segment: the effect on the control block of its receiver. */
  lemma SingleInput(net: Net, t: Tagged)
    requires Inv(net) && Ready(net, t)
    ensures Usable(net.a) && Enabled(net, Deliver([t]))
    ensures var k1 := OnSegment(net.a.k, OnWire(t.seg));
      && k1.cfg.mss > 0
      && StepA(net, Deliver([t])).a.k == Finish(k1, MaxAcks(None, [OnWire(t.seg)]), net.a.k.snd.una)
  {
    hide Inv, EndpointOk, NodeOnSegments, Input, Finish, OnSegment, MaxAcks, Fresh, OnWire, EncodeAll;
    InvUsable(net);
    assert t in [t];
    DeliveredSendable(net, [t]);
    SingleSized(t);
    EndpointsOk(net);
    NodeInputIs(net.a, [t]);
    var segs, wire := Segs([t]), OnWireAll(Segs([t]));
    assert wire == [OnWire(t.seg)];
    InputDecodes(net.a.k, segs);
    assert OnSegments(net.a.k, wire) == OnSegment(net.a.k, OnWire(t.seg)) by {
      assert wire[1..] == [];
      assert OnSegments(OnSegment(net.a.k, wire[0]), []) == OnSegment(net.a.k, wire[0]);
    }
  }

  lemma FinishFrame(k: Kcb, m: MaxAck, prevUna: u32)
    requires k.cfg.mss > 0
    ensures var k' := Finish(k, m, prevUna); k'.probe == k.probe && k'.rmtWnd == k.rmtWnd && k'.rcv == k.rcv
  {}

  /** What a segment that carries no data does: it announces the window of its sender, and a request for the
      window is noted. */
  lemma ControlArrives(net: Net, t: Tagged)
    requires Inv(net) && Ready(net, t) && t.seg.cmd != CMD_PUSH
    ensures Usable(net.a) && Enabled(net, Deliver([t]))
    ensures var n := StepA(net, Deliver([t])).a;
      && n.arcv == net.a.arcv && n.k.rcv == net.a.k.rcv && n.k.rmtWnd == t.seg.wnd % 0x1_0000
      && (t.seg.cmd == CMD_WASK ==> n.k.probe.askTell)
  {
    hide Inv, EndpointOk, Finish, MaxAcks, Fresh, OnSegment, NodeOnSegments, Input, Light, OnWire;
    SingleInput(net, t);
    FinishFrame(OnSegment(net.a.k, OnWire(t.seg)), MaxAcks(None, [OnWire(t.seg)]), net.a.k.snd.una);
    ControlEffect(net.a.k, t.seg);
    SingleSized(t);
    NodeInputIs(net.a, [t]);
    ControlLeaves(net.a, t);
  }

  lemma ControlEffect(k: Kcb, seg: Segment)
    requires seg.cmd != CMD_PUSH
    ensures var k' := OnSegment(k, OnWire(seg));
      k'.rcv == k.rcv && k'.rmtWnd == seg.wnd % 0x1_0000 && (seg.cmd == CMD_WASK ==> k'.probe.askTell)
  {
    hide S.ParseUna, S.ParseAck, S.Shrink, UpdateAck;
  }

  lemma ControlLeaves(n: Node, t: Tagged)
    requires t.seg.cmd != CMD_PUSH
    ensures NodeOnSegments(n, [t]).arcv == n.arcv
  {
    assert [t][1..] == [];
    assert NodeOnSegments(NodeOnSegment(n, t), []) == NodeOnSegment(n, t);
  }

  /** Every segment of a flush announces the room of its sender. */
  lemma {:induction false} SentWindow(buf: seq<Segment>, p: Pass, deadLink: u32)
    ensures forall seg :: seg in CountAll(buf, p, deadLink).sent ==> seg.wnd == p.wnd
  {
    hide CauseOf, Add32;
    if buf != [] {
      SentWindow(buf[..|buf| - 1], p, deadLink);
    }
  }

  /** The window announced on the wire is the room in the receive queue, cut to 16 bits.  So it is positive
      exactly when that room is no multiple of 2^16. */
  lemma Announces(k: Kcb, seg: Segment)
    requires seg in FlushSegments(k)
    ensures OnWire(seg).wnd == WndUnused(k.rcv) % 0x1_0000
    ensures k.rcv.nque < k.rcv.wnd ==> (OnWire(seg).wnd > 0 <==> (k.rcv.wnd - k.rcv.nque) % 0x1_0000 != 0)
  {
    SentWindow(AdmitAll(k).buf, PassOf(k), k.cfg.deadLink);
    hide CountAll, NextProbe;
  }

  /** A window that leaves room to announce whatever part of a message is in the queue. */
  predicate Announceable(wnd: u32) {
    wnd < 0x1_0000 || wnd % 0x1_0000 + 1 >= S.MAX_COUNT
  }

  lemma RoomIsAnnounced(wnd: u32, nque: nat)
    requires Announceable(wnd) && nque < wnd && nque + 1 < S.MAX_COUNT
    ensures (wnd - nque) % 0x1_0000 != 0
  {
    var q, r := wnd / 0x1_0000, wnd % 0x1_0000;
    assert wnd - nque == 0x1_0000 * q + (r - nque);
  }

  lemma ProbeTag(n: Node, i: nat)
    requires Usable(n) && EndpointOk(n.k) && n.k.updated && i < |ProbeSegments(n.k)|
    ensures exists t :: t in Wire(n) && t.seg == ProbeSegments(n.k)[i]
  {
    hide EndpointOk, ProbeSegments, TagAcks, TagData;
    TagLengths(n);
    TagProbesAre(n, i);
    var t := TagProbes(n)[i];
    assert Tags(n)[|TagAcks(n)| + i] == t;
    assert t in Wire(n);
  }

  /** A request or an answer about the window that a flush sends can be delivered. */
  lemma ProbeReady(net: Net, t: Tagged)
    requires Inv(net) && Usable(net.a) && t in Wire(net.a) && t.seg.cmd != CMD_ACK
    ensures Ready(Swap(StepA(net, DoFlush)), t)
  {
    hide Wire, NodeFlush, Inv, EndpointOk, Fresh, Light;
    FlushKeeps(net);
    BothOk(net);
    JustSentIsFresh(net, t);
    WireLight(net.a, t);
  }

  lemma SingleFacts(net: Net, t: Tagged)
    requires Inv(net) && Ready(net, t)
    ensures Usable(net.a) && Enabled(net, Deliver([t]))
    ensures var net1 := StepA(net, Deliver([t]));
      && Inv(net1) && SameBusiness(net.a, net1.a) && net1.a.asnd.live <= net.a.asnd.live
      && net1.a.arcv.wnd == net.a.arcv.wnd && net1.b == net.b && net1.toA == net.toA && net1.toB == net.toB
  {
    hide Inv, EndpointOk, Fresh, NodeInput, Has, Took;
    InvUsable(net);
    assert t in [t];
    SingleSized(t);
    DeliverInv(net, [t]);
    InputTook(net, [t]);
    InputFrame(net.a.k, EncodeAll(Segs([t])));
    NodeFrame(net.a, [t]);
    NodeInputIs(net.a, [t]);
    hide Input, NodeOnSegments;
  }

  lemma StepRun(net0: Net, events: seq<Event>, net: Net, e: Event)
    requires Run(net0, events, net) && Inv(net) && Can(net, e)
    ensures Usable(net.a) && Usable(net.b) && Inv(Next(net, e)) && Run(net0, events + [e], Next(net, e))
  {
    hide Run, Inv, Can;
    NextInv(net, e);
    RunAppend(net0, events, net, e);
  }

  /** The state goes on without new work, and without a change of the parties. */
  ghost predicate Onward(net: Net, net': Net) {
    && Work(net') <= Work(net) && net'.a.sent == net.a.sent && net'.a.k.cfg == net.a.k.cfg
    && net'.b.arcv.wnd == net.b.arcv.wnd
  }

  /** A sender that waits for a window asks for it when its waiting time is over. */
  lemma Asks(k: Kcb)
    requires k.rmtWnd == 0 && k.probe.wait != 0
    ensures var k1 := Tick(k, k.probe.ts);
      |ProbeSegments(k1)| > 0 && ProbeSegments(k1)[0].cmd == CMD_WASK
  {}

  /** A receiver that was asked answers. */
  lemma Answers(k: Kcb, now: u32)
    requires k.probe.askTell
    ensures var k1 := Tick(k, now);
      |ProbeSegments(k1)| > 0 && ProbeSegments(k1)[|ProbeSegments(k1)| - 1].cmd == CMD_WINS
  {}

  lemma StartsWaiting(k: Kcb, now: u32)
    requires k.rmtWnd == 0 && k.probe.wait == 0
    ensures Update(k, now).0.probe.wait != 0
  {
    hide AdmitAll, FlushTally, TransmitAll, FlushSegments;
  }

  /** The request: an update at the end of the waiting time, and its arrival. */
  lemma RequestArrives(net0: Net, events: seq<Event>, net: Net) returns (more: seq<Event>, net': Net)
    requires Run(net0, events, net) && Inv(net) && net.a.k.rmtWnd == 0 && net.a.k.probe.wait != 0
    ensures Run(net0, events + more, net') && Inv(net') && Onward(net, net')
    ensures net'.b.arcv == net.b.arcv && net'.b.k.rcv == net.b.k.rcv && net'.b.k.probe.askTell
  {
    hide Run, Inv, EndpointOk, Wire, NodeFlush, NodeInput, Ready, Fresh, SameBusiness, ProbeSegments, Tick;
    var now := net.a.k.probe.ts;
    var e := Event(false, DoUpdate(now));
    UpdateFacts(net, now);
    InvUsable(net);
    StepRun(net0, events, net, e);
    TickInv(net, now);
    var tick := Ticked(net, now);
    InvUsable(tick);
    EndpointsOk(tick);
    Asks(net.a.k);
    ProbeTag(tick.a, 0);
    var t :| t in Wire(tick.a) && t.seg == ProbeSegments(tick.a.k)[0];
    ProbeReady(tick, t);
    var net1 := StepA(tick, DoFlush);
    assert net1 == Next(net, e);
    SwapInv(net1);
    ControlArrives(Swap(net1), t);
    SingleFacts(Swap(net1), t);
    var d := Event(true, Deliver([t]));
    StepRun(net0, events + [e], net1, d);
    net' := Next(net1, d);
    more := [e, d];
    assert events + more == events + [e] + [d];
  }

  /** The answer: an update of the receiver, and its arrival. */
  lemma AnswerArrives(net0: Net, events: seq<Event>, net: Net) returns (more: seq<Event>, net': Net)
    requires Run(net0, events, net) && Inv(net) && net.b.k.probe.askTell
    requires WndUnused(net.b.k.rcv) % 0x1_0000 != 0
    ensures Run(net0, events + more, net') && Inv(net') && Onward(net, net') && net'.a.k.rmtWnd > 0
    ensures net'.b.arcv == net.b.arcv && net'.b.k.rcv == net.b.k.rcv
  {
    hide Run, Inv, EndpointOk, Wire, NodeFlush, NodeInput, Ready, Fresh, ProbeSegments, Tick, FlushSegments;
    SwapInv(net);
    InvUsable(net);
    var e := Event(true, DoUpdate(0));
    UpdateFacts(Swap(net), 0);
    StepRun(net0, events, net, e);
    TickInv(Swap(net), 0);
    TickFrame(net.b.k, 0);
    var tick := Ticked(Swap(net), 0);
    InvUsable(tick);
    EndpointsOk(tick);
    Answers(net.b.k, 0);
    var i := |ProbeSegments(tick.a.k)| - 1;
    ProbeTag(tick.a, i);
    var t :| t in Wire(tick.a) && t.seg == ProbeSegments(tick.a.k)[i];
    InFlush(tick.a.k, i);
    Announces(tick.a.k, t.seg);
    ProbeReady(tick, t);
    var net1 := Swap(StepA(tick, DoFlush));
    assert net1 == Next(net, e);
    FlushKeeps(tick);
    NodeFlushRcv(tick.a);
    ControlArrives(net1, t);
    SingleFacts(net1, t);
    SubsetCard(StepA(net1, Deliver([t])).a.asnd.live, net1.a.asnd.live);
    var d := Event(false, Deliver([t]));
    StepRun(net0, events + [e], net1, d);
    net' := Next(net1, d);
    more := [e, d];
    assert events + more == events + [e] + [d];
  }

  lemma InFlush(k: Kcb, i: nat)
    requires i < |ProbeSegments(k)|
    ensures ProbeSegments(k)[i] in FlushSegments(k)
  {
    hide ProbeSegments, AckSegments, FlushTally;
    assert FlushSegments(k)[|AckSegments(k)| + i] == ProbeSegments(k)[i];
  }

  lemma NodeFlushRcv(n: Node)
    ensures NodeFlush(n).k.rcv == n.k.rcv && NodeFlush(n).arcv == n.arcv
  {
    hide S.Admit, TransmitAll, AbsAdmit, UsedWindow, FlushTally;
  }

  lemma OnwardTransitive(net: Net, net1: Net, net2: Net)
    requires Onward(net, net1) && Onward(net1, net2)
    ensures Onward(net, net2)
  {}

  /** A sender that has been told of no window can be told of one. */
  lemma OpenWindow(net0: Net, events: seq<Event>, net: Net) returns (more: seq<Event>, net': Net)
    requires Run(net0, events, net) && Inv(net) && WndUnused(net.b.k.rcv) % 0x1_0000 != 0
    ensures Run(net0, events + more, net') && Inv(net') && Onward(net, net') && net'.a.k.rmtWnd > 0
    ensures net'.b.k.rcv == net.b.k.rcv
  {
    hide Run, Inv, Onward;
    if net.a.k.rmtWnd > 0 {
      more, net' := [], net;
      assert events + more == events;
      OnwardSelf(net);
    } else {
      var first, net1 := Waiting(net0, events, net);
      var second, net2 := RequestArrives(net0, events + first, net1);
      var third, net3 := AnswerArrives(net0, events + first + second, net2);
      more, net' := first + second + third, net3;
      OnwardTransitive(net, net1, net2);
      OnwardTransitive(net, net2, net3);
      assert events + more == events + first + second + third;
    }
  }

  lemma OnwardSelf(net: Net)
    ensures Onward(net, net)
  {}

  lemma Waiting(net0: Net, events: seq<Event>, net: Net) returns (more: seq<Event>, net': Net)
    requires Run(net0, events, net) && Inv(net) && net.a.k.rmtWnd == 0
    ensures Run(net0, events + more, net') && Inv(net') && Onward(net, net')
    ensures net'.a.k.rmtWnd == 0 && net'.a.k.probe.wait != 0 && net'.b == net.b
  {
    hide Run, Inv, NodeFlush, Update, Wire;
    if net.a.k.probe.wait != 0 {
      more, net' := [], net;
      assert events + more == events;
    } else {
      var e := Event(false, DoUpdate(0));
      UpdateFacts(net, 0);
      InvUsable(net);
      StepRun(net0, events, net, e);
      StartsWaiting(net.a.k, 0);
      more, net' := [e], Next(net, e);
      UpdatedBlock(net.a, 0);
    }
  }

  lemma UpdatedBlock(n: Node, now: u32)
    ensures NodeFlush(NodeTick(n, now)).k == Update(n.k, now).0
  {
    NodeFlushParts(NodeTick(n, now));
    hide NodeFlush, Flush;
  }

  // ----- one round

  /** With the window open, the oldest fragment that is not acknowledged is due at some time. */
  lemma OldestDue(n: Node) returns (now: u32)
    requires SendsStream(TxOf(n)) && n.k.updated && 1 <= UsedWindow(n.k) <= S.MAX_FLIGHT
    requires n.k.snd.buf != [] || n.k.snd.queue != []
    ensures DueNumber(NodeTick(n, now), n.asnd.una)
  {
    var s := n.k.snd;
    now := if s.buf != [] then s.buf[0].resendts else 0;
    var n1 := NodeTick(n, now);
    TickFrame(n.k, now);
    var w, st := UsedWindow(n1.k), StampOf(n1.k);
    assert w == UsedWindow(n.k);
    assert S.Flight(s) <= S.MAX_FLIGHT;
    S.AdmitFills(s, w, st);
    var seg := AdmitAll(n1.k).buf[0];
    if s.buf != [] {
      assert seg == s.buf[0] && s.una == seg.sn;
    } else {
      assert s.una == s.nxt && S.Flight(s) == 0;
      assert seg == S.Admitted(s.queue[0], Add32(s.nxt, 0), st);
    }
    assert seg.sn == s.una;
    assert DueAt(n1, n.asnd.una, 0);
  }

  lemma WindowUsable(k: Kcb)
    requires EndpointOk(k) && k.rmtWnd > 0 && k.cfg.sndWnd > 0 && k.cc.cwnd >= 1
    ensures 1 <= UsedWindow(k) <= S.MAX_FLIGHT
  {}

  lemma NothingLeft(net: Net)
    requires Inv(net) && net.a.k.snd.buf == []
    ensures net.a.asnd.live == {}
  {
    hide EndpointOk, WireOk, Stream;
    assert Offsets(net.a.k.snd.buf, net.a.k.snd.una) == [];
    assert forall k :: k !in net.a.asnd.live;
  }

  /** One round: an update, and an exchange at the time when the oldest fragment is due. */
  lemma Round(net0: Net, events: seq<Event>, net: Net) returns (more: seq<Event>, net': Net)
    requires Run(net0, events, net) && Inv(net) && Work(net) > 0
    requires net.a.k.rmtWnd > 0 && net.a.k.cfg.sndWnd > 0 && PeekSize(net.b.k.rcv) < 0
    ensures Run(net0, events + more, net') && Inv(net') && Onward(net, net') && Work(net') < Work(net)
  {
    hide Run, Inv, EndpointOk, NodeFlush, Wire, UsedWindow, DueNumber, SendsStream, Has, PeekSize, AllDue, Tick;
    var e := Event(false, DoUpdate(0));
    UpdateFacts(net, 0);
    InvUsable(net);
    StepRun(net0, events, net, e);
    var net1 := Next(net, e);
    EndpointsOk(net1);
    LinkSends(net1);
    WindowUsable(net1.a.k);
    if net1.a.k.snd.buf == [] {
      NothingLeft(net1);
    }
    var now := OldestDue(net1.a);
    InOrder(net1);
    var rest, net2 := Exchange(net0, events + [e], net1, now, 0);
    UpdateFacts(net1, now);
    var n := NodeFlush(NodeTick(net1.a, now));
    assert n == StepA(net1, DoUpdate(now)).a;
    ProperCard(net2.a.asnd.live, n.asnd.live, net1.a.asnd.una);
    more, net' := [e] + rest, net2;
    assert events + more == events + [e] + rest;
  }

  lemma InOrder(net: Net)
    requires Inv(net) && PeekSize(net.b.k.rcv) < 0
    ensures net.a.asnd.una < net.b.arcv.nxt + net.b.arcv.wnd && net.b.k.rcv.nque < net.b.k.rcv.wnd
    ensures net.b.arcv.wnd == net.b.k.rcv.wnd && !Has(net.b.arcv, net.b.arcv.nxt)
  {
    hide EndpointOk, WireOk, Stream, PeekSize;
    CaughtUp(TxOf(net.a), RxOf(net.b));
  }

  // ----- until everything is delivered

  lemma RoomToAnnounce(net: Net)
    requires Inv(net) && PeekSize(net.b.k.rcv) < 0 && Announceable(net.b.arcv.wnd)
    ensures WndUnused(net.b.k.rcv) % 0x1_0000 != 0
  {
    hide EndpointOk, WireOk, Stream, PeekSize, Announceable;
    InOrder(net);
    PartIsShort(TxOf(net.a), RxOf(net.b));
    RoomIsAnnounced(net.b.k.rcv.wnd, net.b.k.rcv.nque);
  }

  ghost predicate Finished(net: Net) {
    && net.b.got == net.a.sent
    && net.a.k.snd.queue == [] && net.a.k.snd.buf == [] && net.b.k.rcv.buf == [] && net.b.k.rcv.queue == []
  }

  lemma NoWorkMeansFinished(net: Net)
    requires Inv(net) && Work(net) == 0 && PeekSize(net.b.k.rcv) < 0
    ensures Finished(net)
  {
    hide EndpointOk, WireOk, PeekSize;
    LinkSends(net);
    NothingKept(TxOf(net.a));
    InOrder(net);
    assert net.a.asnd.nxt == |Stream(net.a.sent, net.a.k.cfg.mss)| == net.b.arcv.nxt;
    AllArrived(TxOf(net.a), RxOf(net.b));
  }

  lemma {:induction false} DeliverRest(net0: Net, events: seq<Event>, net: Net) returns (more: seq<Event>, net': Net)
    requires Run(net0, events, net) && Inv(net) && Announceable(net.b.arcv.wnd) && net.a.k.cfg.sndWnd > 0
    ensures Run(net0, events + more, net') && net'.a.sent == net.a.sent && Finished(net')
    decreases Work(net)
  {
    hide Run, Inv, Finished, PeekSize, Has, Announceable;
    var first, net1 := TakeAll(net0, events, net);
    if Work(net1) == 0 {
      NoWorkMeansFinished(net1);
      more, net' := first, net1;
    } else {
      RoomToAnnounce(net1);
      var second, net2 := OpenWindow(net0, events + first, net1);
      if Work(net2) == 0 {
        NoWorkMeansFinished(net2);
        more, net' := first + second, net2;
        assert events + more == events + first + second;
      } else {
        var third, net3 := Round(net0, events + first + second, net2);
        var rest;
        rest, net' := DeliverRest(net0, events + first + second + third, net3);
        more := first + second + third + rest;
        assert events + more == events + first + second + third + rest;
      }
    }
  }

  /** No run gets stuck while the receive window is below 2^16, or above with room for any part of a
      message: whatever the network has done so far, the run can be continued until the receiver has delivered exactly the messages that
      were sent, in order, and all four queues between the two applications are empty. */
  lemma CanDeliverAll(net0: Net, events: seq<Event>, net: Net) returns (more: seq<Event>, net': Net)
    requires Start(net0) && Run(net0, events, net)
    requires Announceable(net.b.k.rcv.wnd) && net.a.k.cfg.sndWnd > 0
    ensures Run(net0, events + more, net') && net'.a.sent == net.a.sent && Finished(net')
  {
    hide Run, Start, Inv, Finished, Announceable;
    RunInv(net0, events, net);
    WindowsAgree(net);
    more, net' := DeliverRest(net0, events, net);
  }

  lemma WindowsAgree(net: Net)
    requires Inv(net)
    ensures net.b.arcv.wnd == net.b.k.rcv.wnd
  {
    hide EndpointOk, WireOk, Stream;
  }
}
