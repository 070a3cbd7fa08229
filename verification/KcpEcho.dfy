/** What a round-trip sample is: every acknowledgement repeats the time stamp of a segment that its receiver has
    sent under the number acknowledged. */
module KcpEcho {
  import opened Serial
  import opened KcpWire
  import R = KcpReceiver
  import opened KcpMessages
  import S = KcpSender
  import opened KcpTiming
  import opened KcpControl
  import opened KcpInvariant
  import opened KcpLink
  import opened KcpNetwork
  import D = KcpDrain

  /** A segment with this number and this time stamp has been put on the wire. */
  ghost predicate Echoed(num: int, ts: u32, wire: set<Tagged>) {
    exists d :: d in wire && d.seg.cmd == CMD_PUSH && d.num == num && d.seg.ts == ts
  }

  ghost predicate PendingEchoed(n: Node, received: set<Tagged>) {
    |n.nums| == |n.k.acks| && forall i :: 0 <= i < |n.k.acks| ==> Echoed(n.nums[i], n.k.acks[i].ts, received)
  }

  ghost predicate WireEchoed(sent: set<Tagged>, received: set<Tagged>) {
    forall t :: t in sent && t.seg.cmd == CMD_ACK ==> Echoed(t.num, t.seg.ts, received)
  }

  /** Every acknowledgement of `n`, pending or sent, repeats a segment that was sent to it. */
  ghost predicate Truthful(n: Node, received: set<Tagged>, sent: set<Tagged>) {
    PendingEchoed(n, received) && WireEchoed(sent, received)
  }

  ghost predicate Echoes(net: Net) {
    Truthful(net.a, net.toA, net.toB) && Truthful(net.b, net.toB, net.toA)
  }

  lemma MoreReceived(n: Node, received: set<Tagged>, more: set<Tagged>, sent: set<Tagged>)
    requires Truthful(n, received, sent)
    ensures Truthful(n, received + more, sent)
  {
    forall num, ts | Echoed(num, ts, received) ensures Echoed(num, ts, received + more) {
      var d :| d in received && d.seg.cmd == CMD_PUSH && d.num == num && d.seg.ts == ts;
      assert d in received + more;
    }
  }

  // ----- a delivery

  lemma SegmentPending(n: Node, t: Tagged, received: set<Tagged>)
    requires PendingEchoed(n, received) && t in received
    ensures PendingEchoed(NodeOnSegment(n, t), received)
  {
    var n' := NodeOnSegment(n, t);
    if t.seg.cmd == CMD_PUSH {
      assert Echoed(t.num, t.seg.ts, received);
    }
    hide Echoed, S.ParseUna, S.ParseAck, S.Shrink, R.ParseData, S.AbsShrink, S.AbsParseUna, S.AbsParseAck, R.AbsParseData, UpdateAck;
    assert (n'.nums == n.nums && n'.k.acks == n.k.acks)
      || (t.seg.cmd == CMD_PUSH && n'.nums == n.nums + [t.num] && n'.k.acks == n.k.acks + [Ack(t.seg.sn, t.seg.ts)]);
  }

  lemma {:induction false} SegmentsPending(n: Node, ts: seq<Tagged>, received: set<Tagged>)
    requires PendingEchoed(n, received) && forall t :: t in ts ==> t in received
    ensures PendingEchoed(NodeOnSegments(n, ts), received)
    decreases |ts|
  {
    hide PendingEchoed, NodeOnSegment;
    if ts != [] {
      assert ts[0] in ts;
      SegmentPending(n, ts[0], received);
      SegmentsPending(NodeOnSegment(n, ts[0]), ts[1..], received);
    }
  }

  lemma DeliverPending(net: Net, ts: seq<Tagged>)
    requires Inv(net) && Enabled(net, Deliver(ts)) && PendingEchoed(net.a, net.toA)
    ensures net.a.k.cfg.mss > 0 && PendingEchoed(NodeInput(net.a, ts), net.toA)
  {
    hide Inv, Linked, NodeOnSegments, Input, EncodeAll, EndpointOk, Fresh, Finish, MaxAcks, OnSegments;
    InvLinked(net);
    DeliveredSendable(net, ts);
    var n, data := net.a, EncodeAll(Segs(ts));
    if Signed(Wrap(|data|)) >= OVERHEAD {
      InputDecodes(n.k, Segs(ts));
      OnSegmentsLinked(net, ts);
      SegmentsPending(n, ts, net.toA);
      FinishParts(NodeOnSegments(n, ts).k, MaxAcks(None, OnWireAll(Segs(ts))), n.k.snd.una);
    } else {
      ShortInput(n.k, data);
    }
  }

  // ----- a flush

  lemma FlushEchoed(n: Node, received: set<Tagged>)
    requires Usable(n) && EndpointOk(n.k) && PendingEchoed(n, received)
    ensures WireEchoed(Wire(n), received) && PendingEchoed(NodeFlush(n), received)
  {
    forall t | t in Wire(n) && t.seg.cmd == CMD_ACK ensures Echoed(t.num, t.seg.ts, received) {
      AckIsPending(n, t);
      var i :| 0 <= i < |n.k.acks| && t.num == n.nums[i] && t.seg.ts == n.k.acks[i].ts;
    }
    hide Echoed, Wire, EndpointOk, AdmitAll, FlushTally, TransmitAll, NextProbe, AbsAdmit;
  }

  lemma AckIsPending(n: Node, t: Tagged)
    requires Usable(n) && EndpointOk(n.k) && t in Wire(n) && t.seg.cmd == CMD_ACK
    ensures exists i :: 0 <= i < |n.k.acks| && t.num == n.nums[i] && t.seg.ts == n.k.acks[i].ts
  {
    hide EndpointOk, Wire;
    D.AckIsAck(n, t);
    var i :| 0 <= i < |TagAcks(n)| && TagAcks(n)[i] == t;
    assert AckSegments(n.k)[i] == Header(n.k, CMD_ACK, n.k.acks[i]);
    assert t.num == n.nums[i] && t.seg.ts == n.k.acks[i].ts;
  }

  // ----- steps and runs

  lemma FlushStep(net: Net)
    requires Inv(net) && Echoes(net)
    ensures Usable(net.a) && Echoes(StepA(net, DoFlush))
  {
    hide Inv, EndpointOk, Wire, NodeFlush, PendingEchoed, Echoed;
    InvUsable(net);
    InvLinked(net);
    FlushEchoed(net.a, net.toA);
    MoreReceived(net.b, net.toB, Wire(net.a), net.toA);
  }

  lemma EchoStep(net: Net, step: Step)
    requires Inv(net) && Enabled(net, step) && Echoes(net)
    ensures Echoes(StepA(net, step))
  {
    hide *;
    InvUsable(net);
    match step
    case DoSend(msg) => SendStep(net, msg);
    case DoRecv(len) => RecvStep(net, len);
    case DoUpdate(current) => UpdateStep(net, current);
    case DoFlush => FlushStep(net);
    case Deliver(ts) => DeliverStep(net, ts);
  }

  lemma SendStep(net: Net, msg: Message)
    requires Usable(net.a) && Echoes(net)
    ensures Echoes(StepA(net, DoSend(msg)))
  {
    hide WireEchoed, NodeSend, PendingEchoed;
    SendPending(net.a, msg, net.toA);
  }

  lemma RecvStep(net: Net, len: int)
    requires Usable(net.a) && Echoes(net)
    ensures Echoes(StepA(net, DoRecv(len)))
  {
    hide WireEchoed, NodeRecv, PendingEchoed;
    RecvPending(net.a, len, net.toA);
  }

  lemma UpdateStep(net: Net, current: u32)
    requires Inv(net) && Usable(net.a) && Echoes(net)
    ensures Echoes(StepA(net, DoUpdate(current)))
  {
    hide Inv, WireEchoed, NodeTick, NodeFlush, Wire, PendingEchoed;
    TickInv(net, current);
    TickPending(net.a, current, net.toA);
    FlushStep(net.(a := NodeTick(net.a, current)));
  }

  lemma DeliverStep(net: Net, ts: seq<Tagged>)
    requires Inv(net) && Enabled(net, Deliver(ts)) && Echoes(net)
    ensures Usable(net.a) && Echoes(StepA(net, Deliver(ts)))
  {
    hide Inv, WireEchoed, NodeInput, Fresh, PendingEchoed;
    InvUsable(net);
    DeliverPending(net, ts);
  }

  lemma SendPending(n: Node, msg: Message, received: set<Tagged>)
    requires n.k.cfg.mss > 0 && PendingEchoed(n, received)
    ensures PendingEchoed(NodeSend(n, msg), received)
  {}

  lemma RecvPending(n: Node, len: int, received: set<Tagged>)
    requires PendingEchoed(n, received)
    ensures PendingEchoed(NodeRecv(n, len), received)
  {
    hide Recv;
  }

  lemma TickPending(n: Node, current: u32, received: set<Tagged>)
    requires PendingEchoed(n, received)
    ensures PendingEchoed(NodeTick(n, current), received)
  {}

  lemma SwapEchoes(net: Net)
    ensures Echoes(Swap(net)) <==> Echoes(net)
  {}

  lemma EchoNext(net: Net, e: Event)
    requires Inv(net) && Usable(net.a) && Usable(net.b) && Can(net, e) && Echoes(net)
    ensures Echoes(Next(net, e))
  {
    hide Inv, Echoes, Enabled, Usable;
    if e.atB {
      SwapInv(net);
      SwapEchoes(net);
      EchoStep(Swap(net), e.step);
      SwapEchoes(Swap(StepA(Swap(net), e.step)));
    } else {
      EchoStep(net, e.step);
    }
  }

  lemma StartEchoes(net: Net)
    requires Start(net)
    ensures Echoes(net)
  {}

  /** In every run, whatever the network does, each acknowledgement that is pending or under way repeats the
      number and the time stamp of a segment that the other side has sent. */
  lemma {:induction false} EchoRun(net0: Net, events: seq<Event>, net: Net)
    requires Start(net0) && Run(net0, events, net)
    ensures Echoes(net)
    decreases |events|
  {
    hide Start, Echoes, Inv, Can, Next, Usable;
    if events == [] {
      StartEchoes(net0);
    } else {
      var n := |events| - 1;
      var mid :|
        && Run(net0, events[..n], mid)
        && Usable(mid.a) && Usable(mid.b) && Can(mid, events[n])
        && net == Next(mid, events[n]);
      EchoRun(net0, events[..n], mid);
      RunInv(net0, events[..n], mid);
      EchoNext(mid, events[n]);
    }
  }

  lemma {:induction false} SentStamped(buf: seq<Segment>, p: Pass, deadLink: u32)
    ensures forall seg :: seg in CountAll(buf, p, deadLink).sent ==> seg.ts == p.current
  {
    hide CauseOf, Add32;
    if buf != [] {
      SentStamped(buf[..|buf| - 1], p, deadLink);
    }
  }

  /** Every segment of data is stamped with the clock at which it is put on the wire. */
  lemma WireStamped(n: Node, t: Tagged)
    requires Usable(n) && EndpointOk(n.k) && t in Wire(n) && t.seg.cmd == CMD_PUSH
    ensures t.seg.ts == n.k.current
  {
    hide EndpointOk, Wire, AdmitAll;
    D.PushIsData(n, t);
    var i :| 0 <= i < |TagData(n)| && TagData(n)[i] == t;
    SentStamped(AdmitAll(n.k).buf, PassOf(n.k), n.k.cfg.deadLink);
    hide CountAll;
    assert t.seg == FlushTally(n.k).sent[i];
  }

  /** So the sample that an acknowledgement yields is the time since a sending of the segment it
      acknowledges: not of another segment, and never of a time at which nothing was sent. */
  lemma SampleIsRoundTrip(net0: Net, events: seq<Event>, net: Net, t: Tagged) returns (d: Tagged)
    requires Start(net0) && Run(net0, events, net) && t in net.toA && t.seg.cmd == CMD_ACK
    ensures d in net.toB && d.seg.cmd == CMD_PUSH && d.num == t.num
    ensures Diff32(net.a.k.current, OnWire(t.seg).ts) == Diff32(net.a.k.current, d.seg.ts)
  {
    hide Start, Run;
    EchoRun(net0, events, net);
    d :| d in net.toB && d.seg.cmd == CMD_PUSH && d.num == t.num && d.seg.ts == t.seg.ts;
  }
}
