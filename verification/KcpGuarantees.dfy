/** What two KCP endpoints guarantee over every run. */
module KcpGuarantees {
  import opened Serial
  import opened KcpWire
  import opened KcpNumbering
  import R = KcpReceiver
  import opened KcpMessages
  import opened KcpControl
  import opened KcpPacking
  import opened KcpInvariant
  import opened KcpRuns
  import opened KcpLink
  import opened KcpNetwork

  /** In every run, each side has delivered a prefix of the messages that the
      other side has accepted: in order, unaltered, none twice and none missing
      in between. */
  lemma PrefixDelivery(net0: Net, events: seq<Event>, net: Net)
    requires Start(net0) && Run(net0, events, net)
    ensures net.b.got <= net.a.sent && net.a.got <= net.b.sent
  {
    hide Run, Start, EndpointOk;
    RunInv(net0, events, net);
  }

  /** In every run, each fragment that has a number is still in the sender's
      buffer, unaltered, or the receiver has it. */
  lemma NoneForgotten(net0: Net, events: seq<Event>, net: Net, n: nat)
    requires Start(net0) && Run(net0, events, net) && n < net.a.asnd.nxt
    ensures net.a.k.cfg.mss > 0 && n < |Stream(net.a.sent, net.a.k.cfg.mss)|
    ensures Has(net.b.arcv, n)
      || exists seg :: seg in net.a.k.snd.buf && seg.sn == Wrap(n)
                       && Content(seg) == Stream(net.a.sent, net.a.k.cfg.mss)[n]
  {
    hide Run, Start, EndpointOk;
    RunInv(net0, events, net);
    if !Has(net.b.arcv, n) {
      var seg := LiveSegment(TxOf(net.a), n);
    }
  }

  lemma LiveSegment(tx: Tx, n: nat) returns (seg: Segment)
    requires SendsStream(tx) && n in tx.a.live
    ensures n < tx.a.nxt && seg in tx.s.buf && seg.sn == Wrap(n) && Content(seg) == Stream(tx.sent, tx.mss)[n]
  {
    hide Stream;
    var xs := Offsets(tx.s.buf, tx.s.una);
    var i :| 0 <= i < |xs| && xs[i] == n - tx.a.una;
    seg := tx.s.buf[i];
    BufferTruthful(tx, seg);
  }

  /** In every run, a full receive queue holds a complete message that the application can take.  Whether
      the room is then announced is a matter of `KcpDelivery` and `KcpStall`. */
  lemma WindowNeverStuck(net0: Net, events: seq<Event>, net: Net)
    requires Start(net0) && Run(net0, events, net)
    ensures net.b.k.rcv.nque >= net.b.k.rcv.wnd ==> PeekSize(net.b.k.rcv) >= 0
  {
    hide Run, Start, EndpointOk;
    RunInv(net0, events, net);
    if net.b.k.rcv.nque >= net.b.k.rcv.wnd {
      NeverStuck(TxOf(net.a), RxOf(net.b));
    }
  }

  /** In every run, when the sender has nothing left to send or to resend and
      the receiver's queue has been emptied, exactly the messages that were sent
      have been delivered. */
  lemma QuietMeansDelivered(net0: Net, events: seq<Event>, net: Net)
    requires Start(net0) && Run(net0, events, net)
    requires net.a.k.snd.buf == [] && net.a.k.snd.queue == [] && net.b.k.rcv.queue == []
    ensures net.b.got == net.a.sent
  {
    hide Run, Start, EndpointOk;
    RunInv(net0, events, net);
    Delivered(TxOf(net.a), RxOf(net.b));
  }

  lemma Delivered(tx: Tx, rx: Rx)
    requires SendsStream(tx) && DeliversPrefix(tx, rx) && NothingLost(tx.a, rx.a)
    requires tx.s.buf == [] && tx.s.queue == [] && rx.r.queue == []
    ensures rx.got == tx.sent
  {
    var stream := Stream(tx.sent, tx.mss);
    assert |stream| == tx.a.nxt;
    assert Offsets(tx.s.buf, tx.s.una) == [];
    assert forall k :: k !in tx.a.live;
    R.MoveSimulates(rx.r, rx.a);
    assert !Has(rx.a, rx.a.nxt);
    assert rx.a.nxt == |stream|;
    NextMessage(tx.sent, |rx.got|, tx.mss);
    assert tx.sent[..|rx.got|] == rx.got;
  }

  // ----- short runs need no freshness

  /** A step of the network that may be arbitrarily late. */
  ghost predicate CanLate(net: Net, e: Event) {
    Possible(if e.atB then Swap(net) else net, e.step)
  }

  ghost predicate LateRun(net0: Net, events: seq<Event>, net: Net)
    decreases |events|
  {
    if events == [] then net == net0
    else exists mid ::
      && LateRun(net0, events[..|events| - 1], mid)
      && Usable(mid.a) && Usable(mid.b) && CanLate(mid, events[|events| - 1])
      && net == Next(mid, events[|events| - 1])
  }

  /** Fewer than 2^31 fragments have been accepted. */
  ghost predicate Short(n: Node) {
    n.k.cfg.mss > 0 && |Stream(n.sent, n.k.cfg.mss)| <= TWO31
  }

  lemma NextGrows(net: Net, e: Event)
    requires Usable(net.a) && Usable(net.b)
    ensures var net' := Next(net, e);
      && net.a.sent <= net'.a.sent && net.b.sent <= net'.b.sent
      && net'.a.k.cfg == net.a.k.cfg && net'.b.k.cfg == net.b.k.cfg
  {
    var at := if e.atB then net.b else net.a;
    match e.step
    case DoSend(msg) =>
    case DoRecv(len) =>
    case DoUpdate(current) =>
    case DoFlush =>
    case Deliver(ts) => InputGrows(at, ts);
  }

  lemma {:induction false} OnSegmentsSent(n: Node, ts: seq<Tagged>)
    ensures NodeOnSegments(n, ts).sent == n.sent
    decreases |ts|
  {
    if ts != [] {
      OnSegmentsSent(NodeOnSegment(n, ts[0]), ts[1..]);
    }
  }

  lemma InputGrows(n: Node, ts: seq<Tagged>)
    requires n.k.cfg.mss > 0
    ensures NodeInput(n, ts).sent == n.sent && NodeInput(n, ts).k.cfg == n.k.cfg
  {
    OnSegmentsSent(n, ts);
    ApplyKeepsConfig(n.k, CallInput(EncodeAll(Segs(ts))));
  }

  lemma ShortBefore(n: Node, n': Node)
    requires Short(n') && n.sent <= n'.sent && n.k.cfg == n'.k.cfg
    ensures Short(n)
  {
    var mss := n.k.cfg.mss;
    assert n'.sent == n.sent + n'.sent[|n.sent|..];
    StreamConcat(n.sent, n'.sent[|n.sent|..], mss);
  }

  lemma ShortIsFresh(net: Net, e: Event)
    requires Inv(net) && Short(net.a) && Short(net.b) && CanLate(net, e)
    ensures Can(net, e)
  {
    hide EndpointOk, WireOk;
    var at := if e.atB then Swap(net) else net;
    if e.step.Deliver? {
      forall t | t in e.step.ts ensures Fresh(at.a, at.b, t) {
        assert t in at.toA;
      }
    }
  }

  /** While neither side has accepted more than 2^31 fragments, no datagram can
      be too late: every run is a fresh one. */
  lemma {:induction false} ShortRuns(net0: Net, events: seq<Event>, net: Net)
    requires Start(net0) && LateRun(net0, events, net) && Short(net.a) && Short(net.b)
    ensures Run(net0, events, net)
    decreases |events|
  {
    hide Start, Inv, Short, Next, Can, CanLate, Usable;
    if events != [] {
      var n := |events| - 1;
      var mid :|
        && LateRun(net0, events[..n], mid)
        && Usable(mid.a) && Usable(mid.b) && CanLate(mid, events[n])
        && net == Next(mid, events[n]);
      NextGrows(mid, events[n]);
      ShortBefore(mid.a, net.a);
      ShortBefore(mid.b, net.b);
      ShortRuns(net0, events[..n], mid);
      RunInv(net0, events[..n], mid);
      ShortIsFresh(mid, events[n]);
    }
  }

  // ----- the network can deliver the datagrams that are really sent

  lemma TagFor(n: Node, seg: Segment) returns (t: Tagged)
    requires Usable(n) && EndpointOk(n.k) && n.k.updated && seg in FlushSegments(n.k)
    ensures t in Wire(n) && t.seg == seg
  {
    hide FlushSegments, EndpointOk, Tags;
    var i :| 0 <= i < |FlushSegments(n.k)| && FlushSegments(n.k)[i] == seg;
    TagsCover(n);
    TagsAre(n, i);
    t := Tags(n)[i];
  }

  lemma TagsCover(n: Node)
    requires Usable(n) && n.k.updated
    ensures |Tags(n)| == |FlushSegments(n.k)|
  {
    TagLengths(n);
  }

  lemma {:induction false} TagsFor(n: Node, segs: seq<Segment>) returns (ts: seq<Tagged>)
    requires Usable(n) && EndpointOk(n.k) && n.k.updated
    requires forall i :: 0 <= i < |segs| ==> segs[i] in FlushSegments(n.k)
    ensures Segs(ts) == segs && forall t :: t in ts ==> t in Wire(n)
  {
    hide FlushSegments, EndpointOk, Wire, Usable;
    if segs == [] {
      ts := [];
    } else {
      ts := TagsFor(n, segs[1..]);
      var t := TagFor(n, segs[0]);
      ts := [t] + ts;
    }
  }

  /** Every datagram that a flush hands to the output callback is the encoding
      of segments that the flush has put on the wire. */
  lemma DatagramIsDeliverable(n: Node, j: nat) returns (ts: seq<Tagged>)
    requires Usable(n) && EndpointOk(n.k) && n.k.updated && j < |Flush(n.k).1|
    ensures EncodeAll(Segs(ts)) == Flush(n.k).1[j]
    ensures forall t :: t in ts ==> t in Wire(n)
  {
    FlushSendable(n.k);
    var groups := PackWhole(n.k.cfg.mtu, FlushSegments(n.k));
    forall i | 0 <= i < |groups[j]| ensures groups[j][i] in FlushSegments(n.k) {
      FlattenMember(groups, j, i);
    }
    ts := TagsFor(n, groups[j]);
  }
}
