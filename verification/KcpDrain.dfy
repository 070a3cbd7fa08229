/** The exchange of `KcpProgress` is always possible: a run can be continued so that
    what is in flight is delivered and acknowledged. */
module KcpDrain {
  import opened Serial
  import opened KcpWire
  import S = KcpSender
  import opened KcpControl
  import opened KcpInvariant
  import opened KcpRuns
  import opened KcpLink
  import opened KcpNetwork
  import opened KcpProgress

  // ----- one segment a datagram

  function Singles(ts: seq<Tagged>): (ds: seq<seq<Tagged>>)
    ensures |ds| == |ts| && forall i :: 0 <= i < |ts| ==> ds[i] == [ts[i]]
  {
    seq(|ts|, i requires 0 <= i < |ts| => [ts[i]])
  }

  predicate Light(t: Tagged) {
    OVERHEAD + |t.seg.data| < TWO31
  }

  lemma SingleSized(t: Tagged)
    requires Light(t)
    ensures Sized([t])
  {
    var segs := Segs([t]);
    assert segs[1..] == [] && EncodeAll(segs[1..]) == [];
    assert EncodeAll(segs) == Encode(t.seg) + EncodeAll(segs[1..]);
  }

  /** A delivery leaves the sender's next number alone. */
  lemma SingleKeepsNext(net: Net, t: Tagged)
    requires Inv(net) && Enabled(net, Deliver([t])) && Light(t)
    ensures StepA(net, Deliver([t])).a.asnd.nxt == net.a.asnd.nxt
  {
    hide Inv, Linked, NodeOnSegment, NodeInput, Input, Fresh, EndpointOk;
    InvLinked(net);
    assert t in [t];
    OnSegmentLinked(net, t);
    SingleSized(t);
    NodeInputIs(net.a, [t]);
    var n := NodeOnSegment(net.a, t);
    assert [t][1..] == [];
    assert NodeOnSegments(net.a, [t]) == NodeOnSegments(n, []) == n;
  }

  ghost predicate Ready(net: Net, t: Tagged) {
    t in net.toA && Fresh(net.a, net.b, t) && Light(t)
  }

  lemma {:induction false} SinglesDeliverable(net: Net, ts: seq<Tagged>)
    requires Inv(net) && forall i :: 0 <= i < |ts| ==> Ready(net, ts[i])
    ensures Deliverable(net, Singles(ts))
    decreases |ts|
  {
    hide Inv, NodeInput, Light, EndpointOk, Sized;
    InvUsable(net);
    if ts != [] {
      assert Ready(net, ts[0]);
      assert Enabled(net, Deliver([ts[0]]));
      SingleSized(ts[0]);
      SingleKeepsNext(net, ts[0]);
      DeliverInv(net, [ts[0]]);
      var net1 := StepA(net, Deliver([ts[0]]));
      forall i | 0 <= i < |ts[1..]| ensures Ready(net1, ts[1..][i]) {
        assert Ready(net, ts[i + 1]);
      }
      SinglesDeliverable(net1, ts[1..]);
      assert Singles(ts)[1..] == Singles(ts[1..]);
    }
  }

  // ----- deliveries as a run

  lemma RunAppend(net0: Net, events: seq<Event>, mid: Net, e: Event)
    requires Run(net0, events, mid) && Usable(mid.a) && Usable(mid.b) && Can(mid, e)
    ensures Run(net0, events + [e], Next(mid, e))
  {
    hide Next, Usable, Can;
    assert (events + [e])[..|events|] == events;
  }

  /** The state from the side of `b`, or as it is. */
  function Side(atB: bool, net: Net): Net {
    if atB then Swap(net) else net
  }

  function Arrivals(atB: bool, ds: seq<seq<Tagged>>): seq<Event>
    decreases |ds|
  {
    if ds == [] then [] else [Event(atB, Deliver(ds[0]))] + Arrivals(atB, ds[1..])
  }

  lemma {:induction false} DeliverRun(net0: Net, events: seq<Event>, net: Net, atB: bool, ds: seq<seq<Tagged>>)
    requires Run(net0, events, net) && Inv(net) && Deliverable(Side(atB, net), ds)
    ensures Run(net0, events + Arrivals(atB, ds), Side(atB, DeliverAll(Side(atB, net), ds)))
    decreases |ds|
  {
    hide Run, Inv, Enabled, NodeInput, Sized;
    if ds == [] {
      assert events + Arrivals(atB, ds) == events;
    } else {
      var e := Event(atB, Deliver(ds[0]));
      NextInv(net, e);
      RunAppend(net0, events, net, e);
      var net1 := Next(net, e);
      assert Side(atB, net1) == StepA(Side(atB, net), Deliver(ds[0]));
      DeliverRun(net0, events + [e], net1, atB, ds[1..]);
      assert events + Arrivals(atB, ds) == events + [e] + Arrivals(atB, ds[1..]);
    }
  }

  // ----- what a flush has put on the wire

  lemma WireLight(n: Node, t: Tagged)
    requires Usable(n) && EndpointOk(n.k) && t in Wire(n)
    ensures Light(t)
  {
    var i :| 0 <= i < |Tags(n)| && Tags(n)[i] == t;
    assert n.k.updated;
    TagsAre(n, i);
    FlushSendable(n.k);
    hide FlushSegments, Tags;
  }

  lemma PushIsData(n: Node, t: Tagged)
    requires Usable(n) && t in Wire(n) && t.seg.cmd == CMD_PUSH
    ensures t in TagData(n)
  {
    hide ProbeSegments, AckSegments, FlushTally;
    if t in TagAcks(n) {
      var i :| 0 <= i < |TagAcks(n)| && TagAcks(n)[i] == t;
      TagAcksAre(n, i);
    } else if t in TagProbes(n) {
      var i :| 0 <= i < |TagProbes(n)| && TagProbes(n)[i] == t;
      TagProbesAre(n, i);
    }
  }

  lemma AckIsAck(n: Node, t: Tagged)
    requires Usable(n) && EndpointOk(n.k) && t in Wire(n) && t.seg.cmd == CMD_ACK
    ensures t in TagAcks(n)
  {
    hide ProbeSegments, AckSegments, FlushTally, EndpointOk;
    if t in TagProbes(n) {
      var i :| 0 <= i < |TagProbes(n)| && TagProbes(n)[i] == t;
      TagProbesAre(n, i);
    } else if t in TagData(n) {
      var i :| 0 <= i < |TagData(n)| && TagData(n)[i] == t;
      TagDataAre(n, i);
    }
  }

  // ----- the exchange

  /** The data of a flush, a segment a datagram, can be delivered. */
  lemma DataReady(net: Net, net1: Net, i: nat)
    requires Inv(net) && Usable(net.a) && net.a.k.updated && net1 == StepA(net, DoFlush) && i < |TagData(net.a)|
    ensures Ready(Swap(net1), TagData(net.a)[i])
  {
    hide Wire, NodeFlush, TagData, Inv, EndpointOk, Fresh, Light, Tags, FlushState, Link, FlushTally;
    var t := TagData(net.a)[i];
    FlushKeeps(net);
    BothOk(net);
    InTags(net.a, i);
    TagDataAre(net.a, i);
    assert t in Wire(net.a) by {
      InWire(net.a, t);
    }
    JustSentIsFresh(net, t);
    WireLight(net.a, t);
  }

  lemma InWire(n: Node, t: Tagged)
    requires Usable(n) && t in Tags(n)
    ensures t in Wire(n)
  {}

  lemma BothOk(net: Net)
    requires Inv(net)
    ensures EndpointOk(net.a.k) && EndpointOk(net.b.k) && net.b.arcv.wnd <= MAX_WND
    ensures Link(TxOf(net.a), RxOf(net.b), net.toB, net.toA)
  {
    hide EndpointOk, Link, WireOk;
  }

  lemma DataCovered(n: Node, nums: set<int>)
    requires Usable(n)
    ensures Covers(Singles(TagData(n)), Wire(n), CMD_PUSH, nums)
  {
    hide Wire, TagData;
    var ds := Singles(TagData(n));
    forall t | t in Wire(n) && t.seg.cmd == CMD_PUSH && t.num in nums ensures exists i :: 0 <= i < |ds| && t in ds[i] {
      PushIsData(n, t);
      var i :| 0 <= i < |TagData(n)| && TagData(n)[i] == t;
      assert t in ds[i];
    }
  }

  function About(ts: seq<Tagged>, nums: set<int>): (r: seq<Tagged>)
    ensures forall t :: t in r <==> t in ts && t.num in nums
  {
    if ts == [] then []
    else
      assert ts == [ts[0]] + ts[1..];
      if ts[0].num in nums then [ts[0]] + About(ts[1..], nums) else About(ts[1..], nums)
  }

  /** So can the acknowledgements of what is in flight. */
  lemma AckReady(net2: Net, net3: Net, t: Tagged)
    requires Inv(net2) && Usable(net2.b) && net2.b.k.updated && net3 == Swap(StepA(Swap(net2), DoFlush))
    requires t in TagAcks(net2.b) && t.num >= net2.a.asnd.nxt - S.MAX_FLIGHT
    ensures Ready(net3, t)
  {
    hide Wire, NodeFlush, Inv, EndpointOk, Light, Link, TagAcks;
    var i :| 0 <= i < |TagAcks(net2.b)| && TagAcks(net2.b)[i] == t;
    TagAcksAre(net2.b, i);
    SwapInv(net2);
    FlushKeeps(Swap(net2));
    BothOk(net2);
    Ahead(net2);
    assert t in Tags(net2.b) by {
      FirstTags(net2.b, i);
    }
    InWire(net2.b, t);
    WireLight(net2.b, t);
  }

  lemma FirstTags(n: Node, i: nat)
    requires Usable(n) && n.k.updated && i < |TagAcks(n)|
    ensures TagAcks(n)[i] in Tags(n)
  {
    hide TagAcks, TagProbes, TagData;
    assert Tags(n)[i] == TagAcks(n)[i];
  }

  lemma AcksCovered(n: Node, nums: set<int>)
    requires Usable(n) && EndpointOk(n.k)
    ensures Covers(Singles(About(TagAcks(n), nums)), Wire(n), CMD_ACK, nums)
  {
    hide Wire, TagAcks, EndpointOk;
    var ts := About(TagAcks(n), nums);
    var ds := Singles(ts);
    forall t | t in Wire(n) && t.seg.cmd == CMD_ACK && t.num in nums ensures exists i :: 0 <= i < |ds| && t in ds[i] {
      AckIsAck(n, t);
      var i :| 0 <= i < |ts| && ts[i] == t;
      assert t in ds[i];
    }
  }

  lemma LiveRecent(net: Net, num: int)
    requires Inv(net) && num in net.a.asnd.live
    ensures num >= net.a.asnd.nxt - S.MAX_FLIGHT
  {
    LinkSends(net);
    var i := LiveIndex(TxOf(net.a), num);
  }

  /** The first half: the sender updates and its data arrives. */
  lemma SendHalf(net0: Net, events: seq<Event>, net: Net, now: u32)
      returns (out: seq<seq<Tagged>>, more: seq<Event>, net1: Net, net2: Net)
    requires Run(net0, events, net) && Inv(net)
    ensures var tick := Ticked(net, now);
      && Inv(tick) && Usable(tick.a) && tick.a.k.updated && net1 == StepA(tick, DoFlush) && Inv(net1)
      && Deliverable(Swap(net1), out) && net2 == Swap(DeliverAll(Swap(net1), out))
      && Covers(out, Wire(tick.a), CMD_PUSH, net1.a.asnd.live)
    ensures Inv(net2) && net2.a == net1.a
    ensures Run(net0, events + more, net2)
  {
    hide Run, Inv, EndpointOk, Wire, TagData, NodeFlush, Covers, Ready, Deliverable, DeliverAll, Advances, Took;
    InvUsable(net);
    TickInv(net, now);
    var tick, e := Ticked(net, now), Event(false, DoUpdate(now));
    InvUsable(tick);
    net1 := StepA(tick, DoFlush);
    assert net1 == Next(net, e);
    FlushKeeps(tick);
    RunAppend(net0, events, net, e);
    var ts := TagData(tick.a);
    out := Singles(ts);
    forall i | 0 <= i < |ts| ensures Ready(Swap(net1), ts[i]) {
      DataReady(tick, net1, i);
    }
    SwapInv(net1);
    SinglesDeliverable(Swap(net1), ts);
    DataCovered(tick.a, net1.a.asnd.live);
    AllTook(Swap(net1), out);
    net2 := Swap(DeliverAll(Swap(net1), out));
    SwapInv(net2);
    DeliverRun(net0, events + [e], net1, true, out);
    more := [e] + Arrivals(true, out);
    assert events + more == events + [e] + Arrivals(true, out);
  }

  /** The second half: the receiver updates and its acknowledgements arrive. */
  lemma AnswerHalf(net0: Net, events: seq<Event>, net: Net, later: u32)
      returns (back: seq<seq<Tagged>>, more: seq<Event>, net2: Net, net3: Net, net4: Net)
    requires Run(net0, events, net) && Inv(net)
    ensures net2 == Swap(Ticked(Swap(net), later)) && Usable(net2.b)
    ensures net3 == Swap(StepA(Swap(net2), DoFlush))
    ensures Deliverable(net3, back) && net4 == DeliverAll(net3, back)
    ensures Covers(back, Wire(net2.b), CMD_ACK, net.a.asnd.live)
    ensures Run(net0, events + more, net4)
  {
    hide Run, Inv, EndpointOk, Wire, TagAcks, NodeFlush, Covers, Ready, Deliverable, DeliverAll;
    InvUsable(net);
    var e := Event(true, DoUpdate(later));
    SwapInv(net);
    TickInv(Swap(net), later);
    net2 := Swap(Ticked(Swap(net), later));
    SwapInv(net2);
    InvUsable(net2);
    net3 := Swap(StepA(Swap(net2), DoFlush));
    assert net3 == Next(net, e);
    FlushKeeps(Swap(net2));
    SwapInv(net3);
    RunAppend(net0, events, net, e);
    var nums := net2.a.asnd.live;
    var ts := About(TagAcks(net2.b), nums);
    back := Singles(ts);
    forall i | 0 <= i < |ts| ensures Ready(net3, ts[i]) {
      assert ts[i] in ts;
      LiveRecent(net2, ts[i].num);
      AckReady(net2, net3, ts[i]);
    }
    SinglesDeliverable(net3, ts);
    BothOk(net2);
    AcksCovered(net2.b, nums);
    net4 := DeliverAll(net3, back);
    DeliverRun(net0, events + [e], net3, false, back);
    more := [e] + Arrivals(false, back);
    assert events + more == events + [e] + Arrivals(false, back);
  }

  // ----- what deliveries leave alone

  lemma {:induction false} SegmentsFrame(k: Kcb, segs: seq<Segment>)
    ensures OnSegments(k, segs).snd.queue == k.snd.queue && OnSegments(k, segs).cfg == k.cfg
    decreases |segs|
  {
    if segs != [] {
      SegmentsFrame(OnSegment(k, segs[0]), segs[1..]);
    }
  }

  lemma InputFrame(k: Kcb, data: Datagram)
    requires k.cfg.mss > 0
    ensures Input(k, data).0.snd.queue == k.snd.queue && Input(k, data).0.cfg == k.cfg
  {
    SegmentsFrame(k, Unpack(k.cfg.conv, data).segs);
    hide OnSegments, Unpack, MaxAcks;
  }

  lemma {:induction false} NodeFrame(n: Node, ts: seq<Tagged>)
    ensures NodeOnSegments(n, ts).sent == n.sent && NodeOnSegments(n, ts).got == n.got
    decreases |ts|
  {
    if ts != [] {
      NodeFrame(NodeOnSegment(n, ts[0]), ts[1..]);
    }
  }

  /** Deliveries leave alone what was sent and delivered, the queue of what is to be sent, and the
      configuration. */
  ghost predicate SameBusiness(n: Node, n': Node) {
    n'.sent == n.sent && n'.got == n.got && n'.k.cfg == n.k.cfg && n'.k.snd.queue == n.k.snd.queue
  }

  lemma {:induction false} DeliverFrame(net: Net, ds: seq<seq<Tagged>>)
    requires Deliverable(net, ds)
    ensures SameBusiness(net.a, DeliverAll(net, ds).a)
    decreases |ds|
  {
    if ds != [] {
      InputFrame(net.a.k, EncodeAll(Segs(ds[0])));
      NodeFrame(net.a, ds[0]);
      hide Input, NodeOnSegments;
      DeliverFrame(StepA(net, Deliver(ds[0])), ds[1..]);
    }
  }

  /** Every run can be continued by an exchange: at whatever time `now` the sender updates next, the
      receiver then has, and the sender has dropped, everything that is due at that time and fits the
      receive window; if everything in flight is due and fits, the sender's buffer is then empty. */
  lemma Exchange(net0: Net, events: seq<Event>, net: Net, now: u32, later: u32) returns (more: seq<Event>, net4: Net)
    requires Run(net0, events, net) && Inv(net)
    ensures Run(net0, events + more, net4) && Inv(net4)
    ensures var n := NodeTick(net.a, now);
      && net4.a.asnd.live <= NodeFlush(n).asnd.live && SameBusiness(NodeFlush(n), net4.a)
      && net4.b.arcv.wnd == net.b.arcv.wnd && net4.b.got == net.b.got
      && (forall num :: DueNumber(n, num) && num < net.b.arcv.nxt + net.b.arcv.wnd ==>
            num in NodeFlush(n).asnd.live && Has(net4.b.arcv, num) && num !in net4.a.asnd.live)
      && (AllDue(n.k) && NodeFlush(n).asnd.nxt <= net.b.arcv.nxt + net.b.arcv.wnd ==> net4.a.k.snd.buf == [])
  {
    hide Run, Inv, EndpointOk, Wire, NodeFlush, Covers, Deliverable, DeliverAll, AllDue, DueNumber, Has;
    var out, first, net1, mid := SendHalf(net0, events, net, now);
    FlushKeeps(Ticked(net, now));
    DeliverFrame(Swap(net1), out);
    var back, second, net2, net3, last := AnswerHalf(net0, events + first, mid, later);
    net4 := last;
    GoodRound(Ticked(net, now), net1, net2, net3, net4, out, back, later);
    SwapInv(net2);
    FlushFrame(net2.b);
    AllTookB(net3, back);
    DeliverFrame(net3, back);
    more := first + second;
    assert events + more == events + first + second;
  }

  lemma FlushFrame(n: Node)
    ensures NodeFlush(n).sent == n.sent && NodeFlush(n).got == n.got && NodeFlush(n).k.cfg == n.k.cfg
  {
    hide S.Admit, TransmitAll, AbsAdmit, UsedWindow, FlushTally;
  }

  lemma {:induction false} AllTookB(net: Net, ds: seq<seq<Tagged>>)
    requires Deliverable(net, ds)
    ensures DeliverAll(net, ds).b == net.b && DeliverAll(net, ds).toA == net.toA && DeliverAll(net, ds).toB == net.toB
    decreases |ds|
  {
    if ds != [] {
      hide NodeInput;
      AllTookB(StepA(net, Deliver(ds[0])), ds[1..]);
    }
  }

  /** The same for the states that runs reach: whatever the network has done so far, at the next update
      of the sender what is due can still be delivered and acknowledged. */
  lemma CanDrain(net0: Net, events: seq<Event>, net: Net, now: u32, later: u32) returns (more: seq<Event>, net4: Net)
    requires Start(net0) && Run(net0, events, net)
    ensures Run(net0, events + more, net4)
    ensures forall num :: DueNumber(NodeTick(net.a, now), num) && num < net.b.arcv.nxt + net.b.arcv.wnd ==>
      Has(net4.b.arcv, num) && num !in net4.a.asnd.live
    ensures AllDue(Tick(net.a.k, now)) && NodeFlush(NodeTick(net.a, now)).asnd.nxt <= net.b.arcv.nxt + net.b.arcv.wnd ==>
      net4.a.k.snd.buf == []
  {
    hide Run, Start, Inv, NodeFlush, AllDue, DueNumber, Has, SameBusiness;
    RunInv(net0, events, net);
    more, net4 := Exchange(net0, events, net, now, later);
  }
}
