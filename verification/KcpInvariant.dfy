/** What holds of an endpoint in every run, whatever bytes it is given. */
module KcpInvariant {
  import opened Serial
  import opened KcpWire
  import opened KcpNumbering
  import R = KcpReceiver
  import opened KcpMessages
  import S = KcpSender
  import opened KcpTiming
  import opened KcpCongestion
  import opened KcpPacking
  import opened KcpControl

  // ----- the calls that a program can make

  datatype Call =
    | CallSend(msg: Message)
    | CallRecv(len: int)
    | CallInput(data: Datagram)
    | CallUpdate(current: u32)
    | CallFlush

  function Apply(k: Kcb, c: Call): Kcb
    requires k.cfg.mss > 0
  {
    match c
    case CallSend(msg) => SendMessage(k, msg).0
    case CallRecv(len) => ReceiveMessage(k, len).0
    case CallInput(data) => Input(k, data).0
    case CallUpdate(current) => Update(k, current).0
    case CallFlush => Flush(k).0
  }

  // ----- the invariant

  ghost predicate SegmentOk(c: Config, seg: Segment) {
    seg.conv == c.conv && seg.cmd == CMD_PUSH && |seg.data| <= c.mss && TimerBound(seg)
  }

  ghost predicate BufferOk(c: Config, buf: seq<Segment>) {
    forall i :: 0 <= i < |buf| ==> SegmentOk(c, buf[i])
  }

  ghost predicate QueueOk(c: Config, queue: seq<Segment>) {
    forall i :: 0 <= i < |queue| ==> |queue[i].data| <= c.mss
  }

  ghost predicate SenderOk(c: Config, s: S.Snd) {
    S.Valid(s) && BufferOk(c, s.buf) && QueueOk(c, s.queue)
  }

  ghost predicate ReceiverOk(r: R.Rcv) {
    R.Valid(r) && !R.CanMove(r)
  }

  ghost predicate EndpointOk(k: Kcb) {
    && ValidConfig(k.cfg)
    && SenderOk(k.cfg, k.snd) && ReceiverOk(k.rcv)
    && Bounded(k.rtt) && k.rmtWnd <= 0xFFFF
  }

  // ----- every valid half is in step with some unbounded one

  function OffsetSet(n: int, xs: seq<int>): (r: set<int>)
    ensures forall k :: k in r <==> k - n in xs
  {
    if xs == [] then {}
    else
      assert xs == xs[..|xs| - 1] + [xs[|xs| - 1]];
      OffsetSet(n, xs[..|xs| - 1]) + {n + xs[|xs| - 1]}
  }

  lemma SomeSender(s: S.Snd) returns (a: S.AbsSnd)
    requires S.Valid(s)
    ensures S.Simulates(s, a) && a.una == s.una
  {
    a := S.AbsSnd(s.una, s.una + S.Flight(s), OffsetSet(s.una, Offsets(s.buf, s.una)));
    WrapAdd(s.una, S.Flight(s));
  }

  lemma SomeReceiver(r: R.Rcv) returns (a: R.AbsRcv)
    requires R.Valid(r)
    ensures R.Simulates(r, a) && a.nxt == r.nxt
  {
    var m := SomeStore(r.buf, r.nxt, r.nxt, r.wnd);
    a := R.AbsRcv(r.nxt, r.wnd, r.queue, m);
  }

  // ----- the sending half

  /** `snd_una` has moved forward, inside the numbers in flight; `snd_nxt` has not moved. */
  ghost predicate Forward(s: S.Snd, s': S.Snd) {
    s'.nxt == s.nxt && Offset(s.una, s'.una) + S.Flight(s') == S.Flight(s)
  }

  lemma ForwardTransitive(s: S.Snd, s1: S.Snd, s2: S.Snd)
    requires Forward(s, s1) && Forward(s1, s2)
    ensures Forward(s, s2)
  {}

  lemma FastackShape(buf: seq<Segment>, sn: u32)
    ensures forall i :: 0 <= i < |buf| ==>
      S.BumpFastack(buf, sn)[i] == buf[i].(fastack := S.BumpFastack(buf, sn)[i].fastack)
  {
    if buf != [] && Diff32(sn, buf[0].sn) >= 0 {
      FastackShape(buf[1..], sn);
    }
  }

  lemma UnaOk(c: Config, s: S.Snd, una: u32)
    requires SenderOk(c, s)
    ensures SenderOk(c, S.Shrink(S.ParseUna(s, una)))
    ensures Forward(s, S.Shrink(S.ParseUna(s, una)))
  {
    var a := SomeSender(s);
    S.ParseUnaSimulates(s, a, una);
    S.ShrinkSimulates(S.ParseUna(s, una), S.AbsParseUna(a, Lift(a.una, s.una, una)));
    S.ShrinkOffset(S.ParseUna(s, una), S.AbsParseUna(a, Lift(a.una, s.una, una)));
  }

  lemma AckOk(c: Config, s: S.Snd, sn: u32)
    requires SenderOk(c, s)
    ensures SenderOk(c, S.Shrink(S.ParseAck(s, sn)))
    ensures Forward(s, S.Shrink(S.ParseAck(s, sn)))
  {
    var a := SomeSender(s);
    S.ParseAckSimulates(s, a, sn);
    S.ShrinkSimulates(S.ParseAck(s, sn), S.AbsParseAck(a, Lift(a.una, s.una, sn)));
    S.ShrinkOffset(S.ParseAck(s, sn), S.AbsParseAck(a, Lift(a.una, s.una, sn)));
  }

  lemma SameOffsets(buf: seq<Segment>, buf': seq<Segment>, base: u32)
    requires |buf| == |buf'| && forall i :: 0 <= i < |buf| ==> buf'[i].sn == buf[i].sn
    ensures Offsets(buf', base) == Offsets(buf, base)
  {}

  lemma FastackOk(c: Config, s: S.Snd, sn: u32)
    requires SenderOk(c, s)
    ensures SenderOk(c, S.ParseFastack(s, sn))
  {
    FastackShape(s.buf, sn);
    SameOffsets(s.buf, S.BumpFastack(s.buf, sn), s.una);
    forall i | 0 <= i < |s.buf| ensures SegmentOk(c, S.BumpFastack(s.buf, sn)[i]) {
      assert SegmentOk(c, s.buf[i]);
    }
  }

  // ----- ikcp_input

  lemma PushOk(k: Kcb, seg: Segment)
    requires EndpointOk(k)
    ensures EndpointOk(OnPush(k, seg)) && OnPush(k, seg).snd == k.snd
  {
    var a := SomeReceiver(k.rcv);
    R.ParseDataSimulates(k.rcv, a, seg);
  }

  lemma OnSegmentOk(k: Kcb, seg: Segment)
    requires EndpointOk(k) && seg.wnd <= 0xFFFF
    ensures EndpointOk(OnSegment(k, seg)) && Forward(k.snd, OnSegment(k, seg).snd)
  {
    hide S.ParseUna, S.ParseAck, S.Shrink, S.Valid, R.Valid, Forward, BufferOk, QueueOk, OnPush, R.CanMove;
    UnaOk(k.cfg, k.snd, seg.una);
    var k1 := OnUna(k, seg);
    if seg.cmd == CMD_ACK {
      AckOk(k.cfg, k1.snd, seg.sn);
      if Diff32(k.current, seg.ts) >= 0 {
        RtoBounded(k.rtt, Diff32(k.current, seg.ts), k.cfg.interval);
      }
      ForwardTransitive(k.snd, k1.snd, OnSegment(k, seg).snd);
    } else if seg.cmd == CMD_PUSH {
      PushOk(k1, seg);
    }
  }

  lemma {:induction false} OnSegmentsOk(k: Kcb, segs: seq<Segment>)
    requires EndpointOk(k) && forall i :: 0 <= i < |segs| ==> segs[i].wnd <= 0xFFFF
    ensures EndpointOk(OnSegments(k, segs)) && Forward(k.snd, OnSegments(k, segs).snd)
    decreases |segs|
  {
    hide OnSegment, EndpointOk;
    if segs != [] {
      OnSegmentOk(k, segs[0]);
      OnSegmentsOk(OnSegment(k, segs[0]), segs[1..]);
      ForwardTransitive(k.snd, OnSegment(k, segs[0]).snd, OnSegments(k, segs).snd);
    }
  }

  lemma {:induction false} UnpackedWindows(conv: u32, data: Datagram)
    ensures forall i :: 0 <= i < |Unpack(conv, data).segs| ==> Unpack(conv, data).segs[i].wnd <= 0xFFFF
    decreases |data|
  {
    match Parse(conv, data)
    case Done =>
    case Bad(_) =>
    case Parsed(seg, size) => UnpackedWindows(conv, data[size..]);
  }

  lemma FinishOk(k: Kcb, m: MaxAck, prevUna: u32)
    requires EndpointOk(k)
    ensures EndpointOk(Finish(k, m, prevUna))
    ensures Finish(k, m, prevUna).snd.una == k.snd.una && Finish(k, m, prevUna).snd.nxt == k.snd.nxt
  {
    if m.Some? {
      FastackOk(k.cfg, k.snd, m.sn);
    }
  }

  /** Any bytes at all leave the endpoint valid, and move `snd_una` only forward
      inside the numbers in flight. */
  lemma InputOk(k: Kcb, data: Datagram)
    requires EndpointOk(k)
    ensures EndpointOk(Input(k, data).0) && Forward(k.snd, Input(k, data).0.snd)
  {
    assert k.cfg.mss > 0;
    hide OnSegments, Unpack, Finish, EndpointOk;
    var u := Unpack(k.cfg.conv, data);
    UnpackedWindows(k.cfg.conv, data);
    OnSegmentsOk(k, u.segs);
    OnSegmentsKeepsConfig(k, u.segs);
    FinishOk(OnSegments(k, u.segs), MaxAcks(None, u.segs), k.snd.una);
  }

  // ----- ikcp_flush

  lemma UsedWindowSmall(k: Kcb)
    requires EndpointOk(k)
    ensures UsedWindow(k) <= S.MAX_FLIGHT
  {}

  lemma AdmitOneOk(c: Config, s: S.Snd, st: S.Stamp)
    requires SenderOk(c, s) && S.Flight(s) < S.MAX_FLIGHT && s.queue != [] && st.conv == c.conv
    ensures SenderOk(c, S.AdmitOne(s, st)) && S.AdmitOne(s, st).una == s.una
  {
    var a := SomeSender(s);
    S.AdmitOneSimulates(s, a, st);
    assert SegmentOk(c, S.Admitted(s.queue[0], s.nxt, st));
  }

  lemma {:induction false} AdmitOk(c: Config, s: S.Snd, cwnd: u32, st: S.Stamp)
    requires SenderOk(c, s) && cwnd <= S.MAX_FLIGHT && st.conv == c.conv
    ensures SenderOk(c, S.Admit(s, cwnd, st)) && S.Admit(s, cwnd, st).una == s.una
    decreases |s.queue|
  {
    S.CanAdmitMeans(s, cwnd);
    if S.CanAdmit(s, cwnd) {
      AdmitOneOk(c, s, st);
      AdmitOk(c, S.AdmitOne(s, st), cwnd, st);
    }
  }

  lemma TransmitAllOk(c: Config, s: S.Snd, p: Pass)
    requires SenderOk(c, s) && SaneRto(p)
    ensures SenderOk(c, s.(buf := TransmitAll(s.buf, p)))
  {
    var buf := TransmitAll(s.buf, p);
    SameOffsets(s.buf, buf, s.una);
    forall i | 0 <= i < |buf| ensures SegmentOk(c, buf[i]) {
      assert SegmentOk(c, s.buf[i]);
      TransmitKeepsTimers(s.buf[i], p);
    }
  }

  lemma FlushOk(k: Kcb)
    requires EndpointOk(k)
    ensures EndpointOk(Flush(k).0) && Flush(k).0.snd.una == k.snd.una
  {
    hide S.Admit, SenderOk, TransmitAll, FlushTally, UsedWindow, OnFlush, R.Valid;
    UsedWindowSmall(k);
    AdmitOk(k.cfg, k.snd, UsedWindow(k), StampOf(k));
    TransmitAllOk(k.cfg, AdmitAll(k), PassOf(k));
  }

  // ----- ikcp_send, ikcp_recv, ikcp_update

  lemma SendOk(k: Kcb, msg: Message)
    requires EndpointOk(k)
    ensures EndpointOk(SendMessage(k, msg).0) && SendMessage(k, msg).0.snd.una == k.snd.una
  {
    var s, mss := k.snd, k.cfg.mss;
    if S.Accepts(msg, mss) {
      S.AcceptedFragments(msg, mss);
      WrapAdd(|s.queue|, |Fragments(msg, mss)|);
      var segs := S.NewSegments(Fragments(msg, mss));
      forall i | 0 <= i < |segs| ensures |segs[i].data| <= mss {
        assert Contents(segs)[i].data == segs[i].data;
      }
    }
  }

  lemma TakeValid(r: R.Rcv, n: nat)
    requires R.Valid(r) && n <= |r.queue|
    ensures R.Valid(Take(r, n))
  {}

  lemma RecvOk(r: R.Rcv, len: int)
    requires ReceiverOk(r)
    ensures ReceiverOk(Recv(r, len).r)
  {
    var n := Span(r.queue);
    TakeValid(r, n);
    var a := SomeReceiver(Take(r, n));
    R.DrainSimulates(Take(r, n), a);
  }

  /** Every call keeps the endpoint valid. */
  lemma ApplyOk(k: Kcb, c: Call)
    requires EndpointOk(k)
    ensures EndpointOk(Apply(k, c)) && Apply(k, c).cfg == k.cfg
  {
    match c
    case CallSend(msg) => SendOk(k, msg);
    case CallRecv(len) => RecvOk(k.rcv, len);
    case CallInput(data) =>
      InputOk(k, data);
      OnSegmentsKeepsConfig(k, Unpack(k.cfg.conv, data).segs);
    case CallUpdate(current) => FlushOk(Tick(k, current));
    case CallFlush => FlushOk(k);
  }

  function ApplyAll(k: Kcb, cs: seq<Call>): Kcb
    requires k.cfg.mss > 0
    ensures ApplyAll(k, cs).cfg == k.cfg
  {
    if cs == [] then k
    else
      var k1 := ApplyAll(k, cs[..|cs| - 1]);
      ApplyKeepsConfig(k1, cs[|cs| - 1]);
      Apply(k1, cs[|cs| - 1])
  }

  lemma ApplyKeepsConfig(k: Kcb, c: Call)
    requires k.cfg.mss > 0
    ensures Apply(k, c).cfg == k.cfg
  {
    if c.CallInput? {
      OnSegmentsKeepsConfig(k, Unpack(k.cfg.conv, c.data).segs);
    }
  }

  lemma CreateOk(c: Config, rcvWnd: u32)
    requires ValidConfig(c) && rcvWnd < TWO31
    ensures EndpointOk(Create(c, rcvWnd))
  {}

  /** In every run, with any bytes as input: at most 65535 numbers are in
      flight, both lists are strictly ascending inside their windows, every
      counter is the length of its list, nothing deliverable waits in
      `rcv_buf`, and the timeout is in its bounds. */
  lemma {:induction false} EveryRun(c: Config, rcvWnd: u32, cs: seq<Call>)
    requires ValidConfig(c) && rcvWnd < TWO31
    ensures EndpointOk(ApplyAll(Create(c, rcvWnd), cs))
  {
    CreateOk(c, rcvWnd);
    if cs != [] {
      EveryRun(c, rcvWnd, cs[..|cs| - 1]);
      ApplyOk(ApplyAll(Create(c, rcvWnd), cs[..|cs| - 1]), cs[|cs| - 1]);
    }
  }
}
