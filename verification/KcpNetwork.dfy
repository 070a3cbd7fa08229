/** Two KCP endpoints and a network that loses, repeats, reorders and regroups
    what they send. */
module KcpNetwork {
  import opened Serial
  import opened KcpWire
  import opened KcpNumbering
  import R = KcpReceiver
  import opened KcpMessages
  import S = KcpSender
  import opened KcpTiming
  import opened KcpCongestion
  import opened KcpPacking
  import opened KcpControl
  import opened KcpInvariant
  import opened KcpRuns
  import opened KcpLink

  // ----- endpoints

  /** An endpoint `k`, the unbounded machines in step with it, the unbounded
      numbers of its pending acknowledgements, the messages it has accepted
      from its application and those it has delivered. */
  datatype Node = Node(k: Kcb, asnd: S.AbsSnd, arcv: R.AbsRcv, nums: seq<int>, sent: seq<Message>, got: seq<Message>)

  function TxOf(n: Node): Tx {
    Tx(n.k.cfg.mss, n.k.snd, n.asnd, n.sent)
  }

  function RxOf(n: Node): Rx {
    Rx(n.k.rcv, n.arcv, n.k.acks, n.nums, n.got)
  }

  function NodeOf(k: Kcb, tx: Tx, rx: Rx): Node {
    Node(k, tx.a, rx.a, rx.nums, tx.sent, rx.got)
  }

  function NewNode(c: Config, rcvWnd: u32): Node {
    Node(Create(c, rcvWnd), S.AbsSnd(0, 0, {}), R.AbsRcv(0, Max(rcvWnd, R.WND_RCV), [], map[]), [], [], [])
  }

  function NodeSend(n: Node, msg: Message): Node
    requires n.k.cfg.mss > 0
  {
    NodeOf(SendMessage(n.k, msg).0, TxSend(TxOf(n), msg), RxOf(n))
  }

  function NodeRecv(n: Node, len: int): Node {
    NodeOf(ReceiveMessage(n.k, len).0, TxOf(n), RxRecv(RxOf(n), len))
  }

  function NodeTick(n: Node, current: u32): Node {
    n.(k := Tick(n.k, current))
  }

  function NodeFlush(n: Node): Node {
    if n.k.updated then
      NodeOf(FlushState(n.k), TxFlush(TxOf(n), UsedWindow(n.k), StampOf(n.k), PassOf(n.k)), RxFlush(RxOf(n)))
    else n
  }

  function TagAcks(n: Node): (r: seq<Tagged>)
    requires |n.nums| == |n.k.acks|
  {
    seq(|n.k.acks|, i requires 0 <= i < |n.k.acks| => Tagged(AckSegments(n.k)[i], n.nums[i], n.arcv.nxt))
  }

  function TagProbes(n: Node): (r: seq<Tagged>) {
    seq(|ProbeSegments(n.k)|, i requires 0 <= i < |ProbeSegments(n.k)| => Tagged(ProbeSegments(n.k)[i], 0, n.arcv.nxt))
  }

  function TagData(n: Node): (r: seq<Tagged>) {
    var sent := FlushTally(n.k).sent;
    seq(|sent|, i requires 0 <= i < |sent| => Tagged(sent[i], Number(sent[i], n.k.snd.una, n.asnd.una), n.arcv.nxt))
  }

  /** What a flush puts on the wire, tagged. */
  function Tags(n: Node): (r: seq<Tagged>)
    requires |n.nums| == |n.k.acks|
  {
    if n.k.updated then TagAcks(n) + TagProbes(n) + TagData(n) else []
  }

  function Wire(n: Node): set<Tagged>
    requires |n.nums| == |n.k.acks|
  {
    set t | t in Tags(n)
  }

  function Segs(ts: seq<Tagged>): (r: seq<Segment>)
    ensures |r| == |ts| && forall i :: 0 <= i < |ts| ==> r[i] == ts[i].seg
  {
    seq(|ts|, i requires 0 <= i < |ts| => ts[i].seg)
  }

  function NodeOnSegment(n: Node, t: Tagged): Node {
    var tx := TxUna(TxOf(n), t);
    NodeOf(OnSegment(n.k, OnWire(t.seg)),
           if t.seg.cmd == CMD_ACK then TxAck(tx, t) else tx,
           if t.seg.cmd == CMD_PUSH then RxPush(RxOf(n), t) else RxOf(n))
  }

  function NodeOnSegments(n: Node, ts: seq<Tagged>): Node
    decreases |ts|
  {
    if ts == [] then n else NodeOnSegments(NodeOnSegment(n, ts[0]), ts[1..])
  }

  /** The endpoint is given the bytes of these segments. */
  function NodeInput(n: Node, ts: seq<Tagged>): Node
    requires n.k.cfg.mss > 0
  {
    var data := EncodeAll(Segs(ts));
    if Signed(Wrap(|data|)) < OVERHEAD then n.(k := Input(n.k, data).0)
    else NodeOnSegments(n, ts).(k := Input(n.k, data).0)
  }

  // ----- the two endpoints and what is under way

  /** `toB` holds everything that `a` has ever put on the wire, and `toA` what `b` has. */
  datatype Net = Net(a: Node, b: Node, toB: set<Tagged>, toA: set<Tagged>)

  function Swap(net: Net): Net {
    Net(net.b, net.a, net.toA, net.toB)
  }

  datatype Step =
    | DoSend(msg: Message)
    | DoRecv(len: int)
    | DoUpdate(current: u32)
    | DoFlush
    | Deliver(ts: seq<Tagged>)

  ghost predicate Usable(n: Node) {
    n.k.cfg.mss > 0 && |n.nums| == |n.k.acks|
  }

  /** What is delivered is recent: every number that it carries is at most 2^31
      behind the newest number of the same sender. */
  ghost predicate Fresh(at: Node, from: Node, t: Tagged) {
    && Recent(t.una, at.asnd.nxt)
    && (t.seg.cmd == CMD_ACK ==> Recent(t.num, at.asnd.nxt))
    && (t.seg.cmd == CMD_PUSH ==> Recent(t.num, from.asnd.nxt))
  }

  /** The network delivers any list of segments that were put on the wire, as
      often and in whatever order it likes. */
  ghost predicate Possible(net: Net, step: Step) {
    Usable(net.a) && (step.Deliver? ==> forall t :: t in step.ts ==> t in net.toA)
  }

  ghost predicate Enabled(net: Net, step: Step) {
    Possible(net, step) && (step.Deliver? ==> forall t :: t in step.ts ==> Fresh(net.a, net.b, t))
  }

  /** A step of endpoint `a`. */
  ghost function StepA(net: Net, step: Step): Net
    requires Usable(net.a)
  {
    match step
    case DoSend(msg) => net.(a := NodeSend(net.a, msg))
    case DoRecv(len) => net.(a := NodeRecv(net.a, len))
    case DoUpdate(current) =>
      var n := NodeTick(net.a, current);
      net.(a := NodeFlush(n), toB := net.toB + Wire(n))
    case DoFlush =>
      net.(a := NodeFlush(net.a), toB := net.toB + Wire(net.a))
    case Deliver(ts) => net.(a := NodeInput(net.a, ts))
  }

  // ----- the invariant

  ghost predicate WireOk(conv: u32, wire: set<Tagged>) {
    forall t :: t in wire ==> Sendable(conv, t.seg)
  }

  ghost predicate Inv(net: Net) {
    && EndpointOk(net.a.k) && EndpointOk(net.b.k) && net.a.k.cfg.conv == net.b.k.cfg.conv
    && net.a.arcv.wnd <= MAX_WND && net.b.arcv.wnd <= MAX_WND
    && WireOk(net.a.k.cfg.conv, net.toA) && WireOk(net.a.k.cfg.conv, net.toB)
    && Link(TxOf(net.a), RxOf(net.b), net.toB, net.toA)
    && Link(TxOf(net.b), RxOf(net.a), net.toA, net.toB)
  }

  lemma SwapInv(net: Net)
    ensures Inv(Swap(net)) <==> Inv(net)
  {
    hide EndpointOk, Link, WireOk;
  }

  // ----- the tagged node is in step with the endpoint

  lemma NodeParts(k: Kcb, tx: Tx, rx: Rx)
    requires k.cfg.mss == tx.mss && k.snd == tx.s && k.rcv == rx.r && k.acks == rx.acks
    ensures TxOf(NodeOf(k, tx, rx)) == tx && RxOf(NodeOf(k, tx, rx)) == rx
  {}

  lemma OnSegmentParts(n: Node, t: Tagged)
    requires n.asnd.una <= n.asnd.nxt && TxUna(TxOf(n), t).a.una <= TxUna(TxOf(n), t).a.nxt
    ensures var n' := NodeOnSegment(n, t);
      var tx := TxUna(TxOf(n), t);
      && TxOf(n') == (if t.seg.cmd == CMD_ACK then TxAck(tx, t) else tx)
      && RxOf(n') == (if t.seg.cmd == CMD_PUSH then RxPush(RxOf(n), t) else RxOf(n))
  {
    hide S.ParseUna, S.ParseAck, S.Shrink, R.ParseData, S.AbsShrink, S.AbsParseUna, S.AbsParseAck, R.AbsParseData, UpdateAck;
  }

  // ----- deliveries

  /** The part of the invariant that a single segment can touch. */
  ghost predicate Linked(net: Net) {
    && EndpointOk(net.a.k) && net.a.arcv.wnd <= MAX_WND && net.b.arcv.wnd <= MAX_WND
    && Link(TxOf(net.a), RxOf(net.b), net.toB, net.toA)
    && Link(TxOf(net.b), RxOf(net.a), net.toA, net.toB)
  }

  lemma OrderedNumbers(tx: Tx)
    requires SendsStream(tx)
    ensures tx.a.una <= tx.a.nxt
  {}

  lemma OnSegmentLinked(net: Net, t: Tagged)
    requires Linked(net) && t in net.toA && Fresh(net.a, net.b, t)
    ensures Linked(net.(a := NodeOnSegment(net.a, t)))
    ensures var n := NodeOnSegment(net.a, t); n.asnd.nxt == net.a.asnd.nxt && n.k.cfg == net.a.k.cfg
    ensures NodeOnSegment(net.a, t).k == OnSegment(net.a.k, OnWire(t.seg))
  {
    var n, m := net.a, net.b;
    var tx1 := TxUna(TxOf(n), t);
    OnSegmentOk(n.k, OnWire(t.seg));
    OrderedNumbers(TxOf(n));
    UnaLink(TxOf(n), RxOf(m), net.toB, net.toA, t);
    OrderedNumbers(tx1);
    OnSegmentParts(n, t);
    hide Link, EndpointOk, TxUna, TxAck, RxPush, OnSegment, SendsStream;
    if t.seg.cmd == CMD_ACK {
      AckLink(tx1, RxOf(m), net.toB, net.toA, t);
    } else if t.seg.cmd == CMD_PUSH {
      PushLink(TxOf(m), RxOf(n), net.toA, net.toB, t);
    }
    OnSegmentConfig(n.k, OnWire(t.seg));
  }

  lemma OnSegmentConfig(k: Kcb, seg: Segment)
    ensures OnSegment(k, seg).cfg == k.cfg
  {}

  lemma {:induction false} OnSegmentsLinked(net: Net, ts: seq<Tagged>)
    requires Linked(net) && forall t :: t in ts ==> t in net.toA && Fresh(net.a, net.b, t)
    ensures Linked(net.(a := NodeOnSegments(net.a, ts)))
    ensures NodeOnSegments(net.a, ts).k == OnSegments(net.a.k, OnWireAll(Segs(ts)))
    ensures NodeOnSegments(net.a, ts).k.cfg == net.a.k.cfg
    decreases |ts|
  {
    var segs := OnWireAll(Segs(ts));
    hide Linked, NodeOnSegment, OnSegment, OnWire;
    if ts != [] {
      var net' := net.(a := NodeOnSegment(net.a, ts[0]));
      assert ts[0] in ts;
      OnSegmentLinked(net, ts[0]);
      forall t | t in ts[1..] ensures t in net'.toA && Fresh(net'.a, net'.b, t) { assert t in ts; }
      OnSegmentsLinked(net', ts[1..]);
      assert segs[1..] == OnWireAll(Segs(ts[1..]));
      assert segs[0] == OnWire(ts[0].seg);
    } else {
      assert segs == [];
    }
  }

  lemma FinishLinked(net: Net, m: MaxAck, prevUna: u32)
    requires Linked(net)
    ensures net.a.k.cfg.mss > 0 && Linked(net.(a := net.a.(k := Finish(net.a.k, m, prevUna))))
    ensures Finish(net.a.k, m, prevUna).cfg == net.a.k.cfg
  {
    var k' := Finish(net.a.k, m, prevUna);
    FinishOk(net.a.k, m, prevUna);
    if m.Some? {
      FastackStream(TxOf(net.a), m.sn);
      SameLink(TxOf(net.a), TxOf(net.a.(k := k')), RxOf(net.b), net.toB, net.toA);
    }
    hide Link, EndpointOk, Finish;
    assert k'.rcv == net.a.k.rcv && k'.acks == net.a.k.acks by { FinishParts(net.a.k, m, prevUna); }
  }

  lemma FinishParts(k: Kcb, m: MaxAck, prevUna: u32)
    requires k.cfg.mss > 0
    ensures var k' := Finish(k, m, prevUna);
      && k'.cfg == k.cfg && k'.rcv == k.rcv && k'.acks == k.acks
      && k'.snd == (if m.Some? then S.ParseFastack(k.snd, m.sn) else k.snd)
  {}

  lemma SameLink(tx: Tx, tx': Tx, rx: Rx, fwd: set<Tagged>, bwd: set<Tagged>)
    requires Link(tx, rx, fwd, bwd) && SendsStream(tx')
    requires tx'.a == tx.a && tx'.sent == tx.sent && tx'.mss == tx.mss
    ensures Link(tx', rx, fwd, bwd)
  {}

  lemma FastackStream(tx: Tx, sn: u32)
    requires SendsStream(tx)
    ensures SendsStream(tx.(s := S.ParseFastack(tx.s, sn)))
  {
    FastackShape(tx.s.buf, sn);
    hide SendsStream, S.BumpFastack;
    if S.InFlight(tx.s, sn) {
      RewriteStream(tx, S.BumpFastack(tx.s.buf, sn));
    }
  }

  /** The endpoint decodes exactly the segments that the network delivers. */
  lemma InputDecodes(k: Kcb, segs: seq<Segment>)
    requires EndpointOk(k) && AllSendable(k.cfg.conv, segs)
    requires Signed(Wrap(|EncodeAll(segs)|)) >= OVERHEAD
    ensures OnSegments(k, OnWireAll(segs)).cfg == k.cfg
    ensures Input(k, EncodeAll(segs)).0 == Finish(OnSegments(k, OnWireAll(segs)), MaxAcks(None, OnWireAll(segs)), k.snd.una)
  {
    UnpackEncodeAll(k.cfg.conv, segs);
    OnSegmentsKeepsConfig(k, OnWireAll(segs));
  }

  lemma LinkedInv(net: Net, n: Node)
    requires Inv(net) && Linked(net.(a := n)) && n.k.cfg == net.a.k.cfg
    ensures Inv(net.(a := n))
  {
    hide Link, EndpointOk, WireOk;
  }

  lemma InvLinked(net: Net)
    requires Inv(net)
    ensures Linked(net) && EndpointOk(net.a.k)
  {
    hide Link, EndpointOk, WireOk;
  }

  lemma DeliveredSendable(net: Net, ts: seq<Tagged>)
    requires Inv(net) && forall t :: t in ts ==> t in net.toA
    ensures AllSendable(net.a.k.cfg.conv, Segs(ts))
  {
    hide Link, EndpointOk;
    forall i | 0 <= i < |ts| ensures Sendable(net.a.k.cfg.conv, Segs(ts)[i]) {
      assert ts[i] in ts && ts[i] in net.toA;
    }
  }

  lemma InputLinked(net: Net, ts: seq<Tagged>)
    requires Linked(net) && AllSendable(net.a.k.cfg.conv, Segs(ts))
    requires forall t :: t in ts ==> t in net.toA && Fresh(net.a, net.b, t)
    ensures net.a.k.cfg.mss > 0 && Linked(net.(a := NodeInput(net.a, ts))) && NodeInput(net.a, ts).k.cfg == net.a.k.cfg
  {
    var n, data := net.a, EncodeAll(Segs(ts));
    assert EndpointOk(n.k) && n.k.cfg.mss > 0;
    hide Linked, Finish, Input, NodeOnSegments, OnSegments, EncodeAll, EndpointOk, Fresh;
    if Signed(Wrap(|data|)) >= OVERHEAD {
      InputDecodes(n.k, Segs(ts));
      OnSegmentsLinked(net, ts);
      var n1, m := NodeOnSegments(n, ts), MaxAcks(None, OnWireAll(Segs(ts)));
      FinishLinked(net.(a := n1), m, n.k.snd.una);
      assert NodeInput(n, ts) == n1.(k := Finish(n1.k, m, n.k.snd.una));
    } else {
      ShortInput(n.k, data);
      assert NodeInput(n, ts) == n;
    }
  }

  lemma ShortInput(k: Kcb, data: Datagram)
    requires k.cfg.mss > 0 && Signed(Wrap(|data|)) < OVERHEAD
    ensures Input(k, data).0 == k
  {}

  lemma DeliverInv(net: Net, ts: seq<Tagged>)
    requires Inv(net) && Enabled(net, Deliver(ts))
    ensures Inv(StepA(net, Deliver(ts)))
  {
    hide Inv, Linked, NodeInput, Fresh, EndpointOk;
    InvLinked(net);
    DeliveredSendable(net, ts);
    InputLinked(net, ts);
    LinkedInv(net, NodeInput(net.a, ts));
  }

  // ----- ikcp_send and ikcp_recv

  lemma SendInv(net: Net, msg: Message)
    requires Inv(net)
    ensures Inv(net.(a := NodeSend(net.a, msg)))
  {
    var n := net.a;
    SendOk(n.k, msg);
    SendLink(TxOf(n), RxOf(net.b), net.toB, net.toA, msg);
    NodeParts(SendMessage(n.k, msg).0, TxSend(TxOf(n), msg), RxOf(n));
    hide Link, EndpointOk, WireOk;
  }

  lemma RecvParts(n: Node, len: int)
    requires n.k.rcv.queue == n.arcv.queue
    ensures TxOf(NodeRecv(n, len)) == TxOf(n) && RxOf(NodeRecv(n, len)) == RxRecv(RxOf(n), len)
  {
    hide R.Drain, R.AbsDrain, PeekSize, Gather;
  }

  lemma RecvInv(net: Net, len: int)
    requires Inv(net)
    ensures Inv(net.(a := NodeRecv(net.a, len)))
  {
    var n := net.a;
    ApplyOk(n.k, CallRecv(len));
    RecvLink(TxOf(net.b), RxOf(n), net.toA, net.toB, len);
    RecvParts(n, len);
    hide Link, EndpointOk, WireOk, RxRecv;
  }

  // ----- ikcp_flush

  lemma {:induction false} SentMembers(buf: seq<Segment>, p: Pass, deadLink: u32)
    ensures forall seg :: seg in CountAll(buf, p, deadLink).sent ==> seg in TransmitAll(buf, p) && seg.una == p.una
  {
    if buf != [] {
      var i := |buf| - 1;
      SentMembers(buf[..i], p, deadLink);
      assert TransmitAll(buf, p) == TransmitAll(buf[..i], p) + [Transmit(buf[i], p)];
    }
  }

  lemma FlushParts(n: Node)
    requires n.k.updated
    ensures TxOf(NodeFlush(n)) == TxFlush(TxOf(n), UsedWindow(n.k), StampOf(n.k), PassOf(n.k))
    ensures RxOf(NodeFlush(n)) == RxFlush(RxOf(n))
  {
    hide S.Admit, TransmitAll, AbsAdmit, UsedWindow, FlushTally, OnFlush;
  }

  lemma TagAcksAre(n: Node, i: nat)
    requires Usable(n) && i < |TagAcks(n)|
    ensures var t := TagAcks(n)[i];
      && t.seg == AckSegments(n.k)[i] && t.una == n.arcv.nxt && t.seg.una == n.k.rcv.nxt
      && t.seg.cmd == CMD_ACK && t.num == n.nums[i] && t.seg.sn == n.k.acks[i].sn
  {}

  lemma TagProbesAre(n: Node, i: nat)
    requires i < |TagProbes(n)|
    ensures var t := TagProbes(n)[i];
      && t.seg == ProbeSegments(n.k)[i] && t.una == n.arcv.nxt && t.seg.una == n.k.rcv.nxt
      && t.seg.cmd != CMD_ACK && t.seg.cmd != CMD_PUSH
  {}

  lemma TagDataAre(n: Node, i: nat)
    requires EndpointOk(n.k) && i < |TagData(n)|
    ensures var t := TagData(n)[i];
      && t.seg == FlushTally(n.k).sent[i] && t.una == n.arcv.nxt && t.seg.una == n.k.rcv.nxt
      && t.seg.cmd == CMD_PUSH && t.seg in FlushState(n.k).snd.buf
      && t.num == Number(t.seg, n.k.snd.una, n.asnd.una)
  {
    SentMembers(AdmitAll(n.k).buf, PassOf(n.k), n.k.cfg.deadLink);
    SentArePushes(n.k);
    hide CountAll, EndpointOk, AdmitAll;
    assert TagData(n)[i].seg in FlushTally(n.k).sent;
  }

  ghost predicate WellTagged(n: Node, t: Tagged)
    requires Usable(n)
  {
    && t.una == n.arcv.nxt && t.seg.una == n.k.rcv.nxt
    && (t.seg.cmd == CMD_ACK ==> exists i :: 0 <= i < |n.nums| && t.num == n.nums[i] && t.seg.sn == n.k.acks[i].sn)
    && (t.seg.cmd == CMD_PUSH ==> t.seg in FlushState(n.k).snd.buf && t.num == Number(t.seg, n.k.snd.una, n.asnd.una))
  }

  lemma TagsAre(n: Node, i: nat)
    requires Usable(n) && EndpointOk(n.k) && n.k.updated && i < |Tags(n)|
    ensures WellTagged(n, Tags(n)[i])
    ensures |Tags(n)| == |FlushSegments(n.k)| && Tags(n)[i].seg == FlushSegments(n.k)[i]
  {
    hide TagAcks, TagProbes, TagData, FlushState, EndpointOk, ProbeSegments, FlushTally;
    var acks, probes, data := TagAcks(n), TagProbes(n), TagData(n);
    TagLengths(n);
    if i < |acks| {
      TagAcksAre(n, i);
    } else if i < |acks| + |probes| {
      TagProbesAre(n, i - |acks|);
    } else {
      TagDataAre(n, i - |acks| - |probes|);
    }
  }

  lemma TagLengths(n: Node)
    requires Usable(n)
    ensures |TagAcks(n)| == |AckSegments(n.k)| == |n.nums|
    ensures |TagProbes(n)| == |ProbeSegments(n.k)| && |TagData(n)| == |FlushTally(n.k).sent|
  {}

  lemma SentArePushes(k: Kcb)
    requires EndpointOk(k)
    ensures forall seg :: seg in FlushTally(k).sent ==> seg.cmd == CMD_PUSH
  {
    UsedWindowSmall(k);
    AdmitOk(k.cfg, k.snd, UsedWindow(k), StampOf(k));
    TransmitAllOk(k.cfg, AdmitAll(k), PassOf(k));
    SentMembers(AdmitAll(k).buf, PassOf(k), k.cfg.deadLink);
    forall seg | seg in FlushTally(k).sent ensures seg.cmd == CMD_PUSH {
      var buf := TransmitAll(AdmitAll(k).buf, PassOf(k));
      var i :| 0 <= i < |buf| && buf[i] == seg;
      assert SegmentOk(k.cfg, buf[i]);
    }
  }

  lemma WireTagged(n: Node, t: Tagged)
    requires Usable(n) && EndpointOk(n.k) && t in Wire(n)
    ensures n.k.updated && WellTagged(n, t) && Sendable(n.k.cfg.conv, t.seg)
  {
    var i :| 0 <= i < |Tags(n)| && Tags(n)[i] == t;
    TagsAre(n, i);
    FlushSendable(n.k);
  }

  lemma WireAcksTruthful(n: Node)
    requires Usable(n) && EndpointOk(n.k) && PendingTruthful(RxOf(n)) && n.k.rcv.nxt == Wrap(n.arcv.nxt)
    ensures AcksTruthful(n.arcv, Wire(n))
  {
    forall t | t in Wire(n)
      ensures 0 <= t.una <= n.arcv.nxt && t.seg.una == Wrap(t.una)
      ensures t.seg.cmd == CMD_ACK ==> 0 <= t.num && Has(n.arcv, t.num) && t.seg.sn == Wrap(t.num)
    {
      WireTagged(n, t);
      hide FlushState, EndpointOk, Wire;
    }
  }

  lemma WireDataTruthful(n: Node)
    requires Usable(n) && EndpointOk(n.k) && n.k.updated
    requires SendsStream(TxOf(NodeFlush(n)))
    ensures DataTruthful(TxOf(NodeFlush(n)), Wire(n))
  {
    var tx := TxOf(NodeFlush(n));
    FlushParts(n);
    AbsAdmitMeans(n.asnd, AdmitCount(n.k.snd, UsedWindow(n.k), StampOf(n.k)));
    FlushOk(n.k);
    assert tx.s.una == n.k.snd.una && tx.a.una == n.asnd.una;
    assert tx.s == FlushState(n.k).snd;
    forall t | t in Wire(n) && t.seg.cmd == CMD_PUSH
      ensures 0 <= t.num < tx.a.nxt && t.seg.sn == Wrap(t.num)
      ensures Content(t.seg) == Stream(tx.sent, tx.mss)[t.num]
    {
      hide FlushState, EndpointOk, Wire, TxOf, NodeFlush, SendsStream, FlushTally;
      WireTagged(n, t);
      BufferTruthful(tx, t.seg);
    }
  }

  lemma FlushLinks(net: Net)
    requires Inv(net) && Usable(net.a) && net.a.k.updated
    ensures Link(TxOf(NodeFlush(net.a)), RxOf(net.b), net.toB + Wire(net.a), net.toA)
    ensures Link(TxOf(net.b), RxOf(NodeFlush(net.a)), net.toA, net.toB + Wire(net.a))
  {
    var n := net.a;
    UsedWindowSmall(n.k);
    FlushLink(TxOf(n), RxOf(net.b), net.toB, net.toA, UsedWindow(n.k), StampOf(n.k), PassOf(n.k));
    FlushParts(n);
    hide FlushState, Wire, TxFlush, UsedWindow, Stream, SendsStream, R.Valid;
    WireDataTruthful(n);
    EmitData(TxOf(NodeFlush(n)), RxOf(net.b), net.toB, net.toA, Wire(n));
    WireAcksTruthful(n);
    EmitAcks(TxOf(net.b), RxOf(n), net.toA, net.toB, Wire(n));
  }

  lemma FlushWire(net: Net)
    requires Inv(net) && Usable(net.a)
    ensures WireOk(net.a.k.cfg.conv, net.toB + Wire(net.a))
  {
    hide Link, EndpointOk, Sendable, Wire;
    forall t | t in Wire(net.a) ensures Sendable(net.a.k.cfg.conv, t.seg) { WireTagged(net.a, t); }
  }

  lemma NodeFlushParts(n: Node)
    ensures var n' := NodeFlush(n); n'.k == Flush(n.k).0 && n'.arcv == n.arcv && n'.k.cfg == n.k.cfg
    ensures !n.k.updated ==> NodeFlush(n) == n
  {
    FlushConfig(n.k);
    hide FlushState, TxFlush;
  }

  lemma FlushInv(net: Net)
    requires Inv(net) && Usable(net.a)
    ensures Inv(net.(a := NodeFlush(net.a), toB := net.toB + Wire(net.a)))
  {
    hide Link, EndpointOk, WireOk, NodeFlush, Wire, Flush;
    NodeFlushParts(net.a);
    if !net.a.k.updated {
      NothingFlushed(net.a);
      assert net.(a := NodeFlush(net.a), toB := net.toB + Wire(net.a)) == net;
    } else {
      FlushLinks(net);
      FlushWire(net);
      FlushOk(net.a.k);
    }
  }

  lemma NothingFlushed(n: Node)
    requires Usable(n) && !n.k.updated
    ensures Wire(n) == {}
  {}

  lemma FlushConfig(k: Kcb)
    ensures FlushState(k).cfg == k.cfg && FlushState(k).rcv == k.rcv && Flush(k).0 == (if k.updated then FlushState(k) else k)
  {}

  lemma TickInv(net: Net, current: u32)
    requires Inv(net)
    ensures Inv(net.(a := NodeTick(net.a, current))) && NodeTick(net.a, current).k.updated
    ensures Usable(net.a) ==> Usable(NodeTick(net.a, current))
  {
    var n := NodeTick(net.a, current);
    TickOk(net.a.k, current);
    assert TxOf(n) == TxOf(net.a) && RxOf(n) == RxOf(net.a);
    hide Link, EndpointOk, WireOk;
  }

  lemma InvUsable(net: Net)
    requires Inv(net)
    ensures Usable(net.a) && Usable(net.b)
  {}

  lemma StepInv(net: Net, step: Step)
    requires Inv(net) && Enabled(net, step)
    ensures Inv(StepA(net, step))
  {
    InvUsable(net);
    hide Inv, NodeSend, NodeRecv, NodeTick, NodeFlush, NodeInput, Enabled, Wire;
    match step
    case DoSend(msg) => SendInv(net, msg);
    case DoRecv(len) => RecvInv(net, len);
    case DoUpdate(current) =>
      TickInv(net, current);
      FlushInv(net.(a := NodeTick(net.a, current)));
    case DoFlush => FlushInv(net);
    case Deliver(ts) => DeliverInv(net, ts);
  }

  // ----- runs

  /** A step of `a`, or, with the names exchanged, of `b`. */
  datatype Event = Event(atB: bool, step: Step)

  ghost predicate Can(net: Net, e: Event) {
    Enabled(if e.atB then Swap(net) else net, e.step)
  }

  ghost function Next(net: Net, e: Event): Net
    requires Usable(net.a) && Usable(net.b)
  {
    if e.atB then Swap(StepA(Swap(net), e.step)) else StepA(net, e.step)
  }

  /** `net` is reached from `net0` by the events. */
  ghost predicate Run(net0: Net, events: seq<Event>, net: Net)
    decreases |events|
  {
    if events == [] then net == net0
    else exists mid ::
      && Run(net0, events[..|events| - 1], mid)
      && Usable(mid.a) && Usable(mid.b) && Can(mid, events[|events| - 1])
      && net == Next(mid, events[|events| - 1])
  }

  /** Two new endpoints of one conversation, and nothing on the wire. */
  ghost predicate Start(net: Net) {
    exists ca: Config, wa: u32, cb: Config, wb: u32 ::
      && ValidConfig(ca) && ValidConfig(cb) && ca.conv == cb.conv
      && wa <= MAX_WND && wb <= MAX_WND
      && net == Net(NewNode(ca, wa), NewNode(cb, wb), {}, {})
  }

  lemma NewNodeOk(c: Config, w: u32, c': Config, w': u32)
    requires ValidConfig(c) && w <= MAX_WND && ValidConfig(c') && w' <= MAX_WND
    ensures EndpointOk(Create(c, w)) && NewNode(c, w).arcv.wnd <= MAX_WND
    ensures Link(TxOf(NewNode(c, w)), RxOf(NewNode(c', w')), {}, {})
  {
    CreateOk(c, w);
    assert Contents([]) == [];
    assert Stream([], c.mss) == [];
  }

  lemma StartInv(net: Net)
    requires Start(net)
    ensures Inv(net)
  {
    var ca: Config, wa: u32, cb: Config, wb: u32 :|
      && ValidConfig(ca) && ValidConfig(cb) && ca.conv == cb.conv
      && wa <= MAX_WND && wb <= MAX_WND
      && net == Net(NewNode(ca, wa), NewNode(cb, wb), {}, {});
    NewNodeOk(ca, wa, cb, wb);
    NewNodeOk(cb, wb, ca, wa);
    hide Link, EndpointOk;
  }

  lemma NextInv(net: Net, e: Event)
    requires Inv(net) && Can(net, e)
    ensures Usable(net.a) && Usable(net.b) && Inv(Next(net, e))
  {
    InvUsable(net);
    hide Inv, Enabled;
    if e.atB {
      SwapInv(net);
      StepInv(Swap(net), e.step);
      SwapInv(StepA(Swap(net), e.step));
    } else {
      StepInv(net, e.step);
    }
  }

  /** The invariant holds in every state of every run. */
  lemma {:induction false} RunInv(net0: Net, events: seq<Event>, net: Net)
    requires Start(net0) && Run(net0, events, net)
    ensures Inv(net)
    decreases |events|
  {
    if events == [] {
      StartInv(net0);
    } else {
      var mid :|
        && Run(net0, events[..|events| - 1], mid)
        && Usable(mid.a) && Usable(mid.b) && Can(mid, events[|events| - 1])
        && net == Next(mid, events[|events| - 1]);
      RunInv(net0, events[..|events| - 1], mid);
      NextInv(mid, events[|events| - 1]);
    }
  }
}
