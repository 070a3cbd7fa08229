/** Consequences of the endpoint invariant: congestion window, timers,
    scheduling and datagrams over whole runs. */
module KcpRuns {
  import opened Serial
  import opened KcpWire
  import opened KcpNumbering
  import opened KcpMessages
  import S = KcpSender
  import opened KcpTiming
  import opened KcpCongestion
  import opened KcpPacking
  import opened KcpControl
  import opened KcpInvariant

  // ----- the congestion window

  /** The largest window that can arise, times the segment size, fits 32 bits. */
  ghost predicate WindowsFit(c: Config, limit: nat) {
    NoWrap(c.mss, limit) && 0x7FFF + c.fastresend <= limit
  }

  lemma {:induction false} OnSegmentsKeepsWindow(k: Kcb, segs: seq<Segment>)
    ensures OnSegments(k, segs).cc == k.cc
    decreases |segs|
  {
    if segs != [] {
      OnSegmentsKeepsWindow(OnSegment(k, segs[0]), segs[1..]);
    }
  }

  /** The return code of `ikcp_input`: too few bytes, or the code with which the decoding ends.  A datagram that is
      refused has had the effect of the segments before the one refused, and no other: the window does not
      grow and no segment is counted as skipped. */
  lemma InputCodes(k: Kcb, data: Datagram)
    requires k.cfg.mss > 0
    ensures var r, u := Input(k, data), Unpack(k.cfg.conv, data);
      && (Signed(Wrap(|data|)) < OVERHEAD ==> r == (k, -1))
      && (Signed(Wrap(|data|)) >= OVERHEAD ==> r.1 == u.rc && (u.rc != 0 ==> r.0 == OnSegments(k, u.segs) && r.0.cc == k.cc))
  {
    OnSegmentsKeepsWindow(k, Unpack(k.cfg.conv, data).segs);
    hide OnSegments, Unpack, MaxAcks;
  }

  /** One `ikcp_input` raises the window by at most two segments, never above
      the window the peer announced last, and never lowers it. */
  lemma InputWindow(k: Kcb, data: Datagram, limit: nat)
    requires EndpointOk(k) && WindowsFit(k.cfg, limit) && Coupled(k.cc, k.cfg.mss, limit)
    ensures var k' := Input(k, data).0;
      && Coupled(k'.cc, k'.cfg.mss, limit)
      && k.cc.cwnd <= k'.cc.cwnd <= k.cc.cwnd + 2
      && k'.cc.cwnd <= Max(k.cc.cwnd, k'.rmtWnd)
  {
    var u := Unpack(k.cfg.conv, data);
    UnpackedWindows(k.cfg.conv, data);
    OnSegmentsOk(k, u.segs);
    OnSegmentsKeepsConfig(k, u.segs);
    OnSegmentsKeepsWindow(k, u.segs);
    hide OnSegments, Unpack, OnAdvance, Coupled, NoWrap, S.ParseFastack, MaxAcks;
    var k1 := OnSegments(k, u.segs);
    assert k1.cc == k.cc && k1.cfg == k.cfg && k1.rmtWnd <= 0xFFFF;
    OnAdvanceCoupled(k.cc, k1.rmtWnd, k.cfg.mss, limit);
  }

  lemma FlushWindow(k: Kcb, limit: nat)
    requires EndpointOk(k) && WindowsFit(k.cfg, limit) && Coupled(k.cc, k.cfg.mss, limit)
    ensures var k' := Flush(k).0;
      Coupled(k'.cc, k'.cfg.mss, limit) && (k.updated ==> k'.cc.cwnd >= 1)
  {
    var snd, t := AdmitAll(k), FlushTally(k);
    UsedWindowSmall(k);
    AdmitOk(k.cfg, k.snd, UsedWindow(k), StampOf(k));
    hide S.Admit, CountAll, UsedWindow, TransmitAll, OnFlush, Coupled, NoWrap;
    OnFlushCoupled(k.cc, t.fast, t.lost, Sub32(snd.nxt, snd.una), UsedWindow(k), k.cfg.fastresend, k.cfg.mss, limit);
  }

  /** In every run `cwnd` and `incr` stay within one segment of each other,
      `ssthresh` is at least two, and from the first update on the window is open. */
  lemma {:induction false} WindowRun(c: Config, rcvWnd: u32, cs: seq<Call>, limit: nat)
    requires ValidConfig(c) && rcvWnd < TWO31 && WindowsFit(c, limit)
    ensures var k := ApplyAll(Create(c, rcvWnd), cs);
      && Coupled(k.cc, c.mss, limit)
      && (k.updated ==> k.cc.cwnd >= 1)
  {
    var k0 := Create(c, rcvWnd);
    if cs == [] {
      assert (0 - 1) * c.mss < 0 < (0 + 1) * c.mss;
    } else {
      var k := ApplyAll(k0, cs[..|cs| - 1]);
      WindowRun(c, rcvWnd, cs[..|cs| - 1], limit);
      EveryRun(c, rcvWnd, cs[..|cs| - 1]);
      WindowStep(k, cs[|cs| - 1], limit);
    }
  }

  lemma WindowStep(k: Kcb, call: Call, limit: nat)
    requires EndpointOk(k) && WindowsFit(k.cfg, limit) && Coupled(k.cc, k.cfg.mss, limit)
    requires k.updated ==> k.cc.cwnd >= 1
    ensures Coupled(Apply(k, call).cc, k.cfg.mss, limit)
    ensures Apply(k, call).updated ==> Apply(k, call).cc.cwnd >= 1
  {
    ApplyKeepsConfig(k, call);
    hide Coupled, NoWrap, Input, Flush, EndpointOk, SendMessage, ReceiveMessage;
    match call
    case CallSend(msg) => SendKeepsWindow(k, msg);
    case CallRecv(len) => RecvKeepsWindow(k, len);
    case CallInput(data) =>
      InputWindow(k, data, limit);
      InputUpdated(k, data);
    case CallUpdate(current) =>
      TickOk(k, current);
      FlushWindow(Tick(k, current), limit);
    case CallFlush =>
      FlushWindow(k, limit);
      FlushUpdated(k);
  }

  lemma FlushUpdated(k: Kcb)
    ensures Flush(k).0.updated == k.updated
  {}

  lemma {:induction false} SegmentsUpdated(k: Kcb, segs: seq<Segment>)
    ensures OnSegments(k, segs).updated == k.updated
    decreases |segs|
  {
    if segs != [] {
      SegmentsUpdated(OnSegment(k, segs[0]), segs[1..]);
    }
  }

  lemma InputUpdated(k: Kcb, data: Datagram)
    requires k.cfg.mss > 0
    ensures Input(k, data).0.updated == k.updated
  {
    SegmentsUpdated(k, Unpack(k.cfg.conv, data).segs);
    hide OnSegments, Unpack, MaxAcks;
  }

  lemma SendKeepsWindow(k: Kcb, msg: Message)
    requires k.cfg.mss > 0
    ensures SendMessage(k, msg).0.cc == k.cc && SendMessage(k, msg).0.updated == k.updated
  {}

  lemma RecvKeepsWindow(k: Kcb, len: int)
    ensures ReceiveMessage(k, len).0.cc == k.cc && ReceiveMessage(k, len).0.updated == k.updated
  {}

  lemma TickOk(k: Kcb, current: u32)
    requires EndpointOk(k)
    ensures EndpointOk(Tick(k, current)) && Tick(k, current).updated
    ensures Tick(k, current).cfg == k.cfg && Tick(k, current).cc == k.cc
  {}

  lemma SegmentsHaveRoom(k: Kcb)
    requires EndpointOk(k)
    ensures k.cfg.mss > 0
  {}

  // ----- timers

  /** After a flush every segment has been sent, and while its timer is below 2^31 its next
      resend lies in the future; that is so at least up to the fifteenth sending.  (A resend time
      exactly 2^31 away is the one that the comparison takes for the past.) */
  lemma FlushTimers(k: Kcb, i: nat)
    requires EndpointOk(k) && k.updated && i < |Flush(k).0.snd.buf|
    requires AdmitAll(k).buf[i].xmit < TWO32 - 1
    ensures var seg := Flush(k).0.snd.buf[i];
      && seg.xmit >= 1
      && (0 < seg.rto < TWO31 && Sub32(AdmitAll(k).buf[i].resendts, k.current) != TWO31 ==>
            InFuture(seg.resendts, k.current))
      && (seg.xmit <= 15 ==> 0 < seg.rto < TWO31)
  {
    UsedWindowSmall(k);
    AdmitOk(k.cfg, k.snd, UsedWindow(k), StampOf(k));
    assert SegmentOk(k.cfg, AdmitAll(k).buf[i]);
    TransmitKeepsTimers(AdmitAll(k).buf[i], PassOf(k));
    TransmitWaits(AdmitAll(k).buf[i], PassOf(k));
  }

  lemma {:induction false} EarliestMeans(buf: seq<Segment>, current: u32, most: int)
    ensures var d := Earliest(buf, current, most);
      && d <= most
      && (forall i :: 0 <= i < |buf| ==> d <= Diff32(buf[i].resendts, current))
      && (d == most || exists i :: 0 <= i < |buf| && d == Diff32(buf[i].resendts, current))
  {
    if buf != [] {
      EarliestMeans(buf[..|buf| - 1], current, most);
      var d := Earliest(buf[..|buf| - 1], current, most);
      if d != most {
        var i :| 0 <= i < |buf| - 1 && d == Diff32(buf[i].resendts, current);
      }
    }
  }

  /** Something has to be done now: there has been no update, the time set for one has come or is more than
      ten seconds away, or a segment is due. */
  ghost predicate Pending(k: Kcb, current: u32) {
    || !k.updated
    || Diff32(current, k.tsFlush) >= 0 || Diff32(current, k.tsFlush) < -10000
    || exists i :: 0 <= i < |k.snd.buf| && !InFuture(k.snd.buf[i].resendts, current)
  }

  /** `ikcp_check` asks for an update now if and only if something is pending;
      otherwise it names the first moment at which the interval, the next flush
      or a resend is due, and no later one. */
  lemma CheckMeans(k: Kcb, current: u32)
    requires ValidConfig(k.cfg)
    ensures Pending(k, current) <==> Check(k, current) == current
    ensures !Pending(k, current) ==>
      var d := Sub32(Check(k, current), current);
      var flush := Diff32(k.tsFlush, current);
      && 0 < d <= k.cfg.interval && d <= flush
      && (forall i :: 0 <= i < |k.snd.buf| ==> d <= Diff32(k.snd.buf[i].resendts, current))
      && (d == k.cfg.interval || d == flush
          || exists i :: 0 <= i < |k.snd.buf| && d == Diff32(k.snd.buf[i].resendts, current))
  {
    EarliestMeans(k.snd.buf, current, 0x7FFF_FFFF);
  }

  // ----- datagrams

  ghost predicate Good(c: Config, segs: seq<Segment>) {
    forall i :: 0 <= i < |segs| ==> segs[i].conv == c.conv && KnownCmd(segs[i].cmd) && |segs[i].data| <= c.mss
  }

  lemma GoodConcat(c: Config, xs: seq<Segment>, ys: seq<Segment>)
    requires Good(c, xs) && Good(c, ys)
    ensures Good(c, xs + ys)
  {}

  lemma {:induction false} SentOk(c: Config, buf: seq<Segment>, p: Pass)
    requires BufferOk(c, buf)
    ensures Good(c, CountAll(buf, p, c.deadLink).sent)
  {
    if buf != [] {
      var n := |buf| - 1;
      assert BufferOk(c, buf[..n]);
      SentOk(c, buf[..n], p);
      assert SegmentOk(c, buf[n]);
      TransmitFields(buf[n], p);
      GoodConcat(c, CountAll(buf[..n], p, c.deadLink).sent, [Transmit(buf[n], p)]);
    }
  }

  lemma ControlGood(k: Kcb)
    ensures Good(k.cfg, AckSegments(k)) && Good(k.cfg, ProbeSegments(k))
  {}

  lemma GoodSendable(k: Kcb, segs: seq<Segment>)
    requires EndpointOk(k) && Good(k.cfg, segs)
    ensures Fits(k.cfg.mtu, segs) && AllSendable(k.cfg.conv, segs)
  {}

  lemma FlushSendable(k: Kcb)
    requires EndpointOk(k)
    ensures Fits(k.cfg.mtu, FlushSegments(k)) && AllSendable(k.cfg.conv, FlushSegments(k))
  {
    hide Good, AckSegments, ProbeSegments, Fits, AllSendable, CountAll;
    UsedWindowSmall(k);
    AdmitOk(k.cfg, k.snd, UsedWindow(k), StampOf(k));
    SentOk(k.cfg, AdmitAll(k).buf, PassOf(k));
    ControlGood(k);
    GoodConcat(k.cfg, AckSegments(k), ProbeSegments(k));
    GoodConcat(k.cfg, AckSegments(k) + ProbeSegments(k), FlushTally(k).sent);
    GoodSendable(k, FlushSegments(k));
  }

  /** Every datagram of a flush has between 1 and `mtu` bytes, and a peer with
      the same conversation number decodes from them exactly the segments that
      the flush has put in, in order, and rejects nothing. */
  lemma FlushDatagrams(k: Kcb)
    requires EndpointOk(k) && k.updated
    ensures forall d :: d in Flush(k).1 ==> 1 <= |d| <= k.cfg.mtu && Unpack(k.cfg.conv, d).rc == 0
    ensures UnpackAll(k.cfg.conv, Flush(k).1) == OnWireAll(FlushSegments(k))
  {
    FlushSendable(k);
    PackUnpack(k.cfg.conv, k.cfg.mtu, FlushSegments(k));
    var groups := PackWhole(k.cfg.mtu, FlushSegments(k));
  }

  // ----- the newest acknowledgement of a datagram

  ghost predicate Newest(m: MaxAck, segs: seq<Segment>, base: u32) {
    && (m.None? ==> forall i :: 0 <= i < |segs| ==> segs[i].cmd != CMD_ACK)
    && (m.Some? ==>
          && (exists i :: 0 <= i < |segs| && segs[i].cmd == CMD_ACK && segs[i].sn == m.sn)
          && forall i :: 0 <= i < |segs| && segs[i].cmd == CMD_ACK ==> Offset(base, segs[i].sn) <= Offset(base, m.sn))
  }

  /** The numbers acknowledged lie within 2^31 above `base`; data may have any number. */
  ghost predicate AcksAhead(segs: seq<Segment>, base: u32) {
    forall i :: 0 <= i < |segs| && segs[i].cmd == CMD_ACK ==> Offset(base, segs[i].sn) < TWO31
  }

  lemma NewestStep(m: MaxAck, segs: seq<Segment>, base: u32, seg: Segment)
    requires Newest(m, segs, base) && AcksAhead(segs, base) && AcksAhead([seg], base)
    ensures Newest(NextMaxAck(m, seg), segs + [seg], base)
  {
    var all, m' := segs + [seg], NextMaxAck(m, seg);
    if m.Some? {
      var i :| 0 <= i < |segs| && segs[i].cmd == CMD_ACK && segs[i].sn == m.sn;
      if seg.cmd == CMD_ACK {
        assert [seg][0].cmd == CMD_ACK;
        WindowDiff(seg.sn, m.sn, base);
      }
      assert all[i] == segs[i];
    }
    assert all[|segs|] == seg;
  }

  /** `ikcp_input` hands to the fast-resend count the newest number that the datagram acknowledges. */
  lemma {:induction false} MaxAckMeans(seen: seq<Segment>, m: MaxAck, segs: seq<Segment>, base: u32)
    requires Newest(m, seen, base) && AcksAhead(seen, base) && AcksAhead(segs, base)
    ensures Newest(MaxAcks(m, segs), seen + segs, base)
    decreases |segs|
  {
    hide Newest, NextMaxAck, Offset;
    if segs == [] {
      assert seen + segs == seen;
    } else {
      assert AcksAhead(seen + [segs[0]], base) && AcksAhead([segs[0]], base) && AcksAhead(segs[1..], base);
      NewestStep(m, seen, base, segs[0]);
      assert seen + segs == (seen + [segs[0]]) + segs[1..];
      MaxAckMeans(seen + [segs[0]], NextMaxAck(m, segs[0]), segs[1..], base);
    }
  }

  // ----- window probes

  ghost predicate ProbeOk(p: Probe) {
    p.wait == 0 || PROBE_INIT <= p.wait <= PROBE_LIMIT
  }

  /** A sender asks for the window exactly when the peer has announced none and the waiting time,
      which grows up to its limit, is over; an open window cancels the waiting. */
  lemma ProbeStep(k: Kcb)
    requires ProbeOk(k.probe)
    ensures var p, q := k.probe, NextProbe(k);
      && ProbeOk(q) && (q.wait == 0 <==> k.rmtWnd != 0) && q.askTell == p.askTell
      && (q.askSend <==> p.askSend || (k.rmtWnd == 0 && p.wait != 0 && Diff32(k.current, p.ts) >= 0))
      && (k.rmtWnd == 0 && q != p ==>
            && q.ts == Add32(k.current, q.wait) && (q.wait > p.wait || q.wait == PROBE_LIMIT)
            && q.wait == if p.wait == 0 then 7000 else Min(p.wait + p.wait / 2, 120000))
      && (k.rmtWnd == 0 && (p.wait == 0 || Diff32(k.current, p.ts) >= 0) ==> q.ts == Add32(k.current, q.wait))
  {}

  lemma FlushProbe(k: Kcb)
    requires ProbeOk(k.probe) && !k.probe.askSend
    ensures ProbeOk(Flush(k).0.probe) && !Flush(k).0.probe.askSend
  {
    ProbeStep(k);
    hide AdmitAll, FlushTally, NextProbe, Pack, OnFlush, TransmitAll;
  }

  lemma {:induction false} SegmentsProbe(k: Kcb, segs: seq<Segment>)
    ensures var p := OnSegments(k, segs).probe;
      p.wait == k.probe.wait && p.ts == k.probe.ts && p.askSend == k.probe.askSend
    decreases |segs|
  {
    if segs != [] {
      SegmentsProbe(OnSegment(k, segs[0]), segs[1..]);
    }
  }

  lemma ApplyProbe(k: Kcb, call: Call)
    requires k.cfg.mss > 0 && ProbeOk(k.probe) && !k.probe.askSend
    ensures ProbeOk(Apply(k, call).probe) && !Apply(k, call).probe.askSend
  {
    hide Flush, OnSegments, Unpack, S.Send, Recv;
    match call
    case CallSend(msg) =>
    case CallRecv(len) =>
    case CallInput(data) => SegmentsProbe(k, Unpack(k.cfg.conv, data).segs);
    case CallUpdate(current) => FlushProbe(Tick(k, current));
    case CallFlush => FlushProbe(k);
  }

  /** In every run the waiting time of a probe is zero or between its two limits, and no request
      outlives the flush that sends it. */
  lemma {:induction false} ProbeRun(c: Config, rcvWnd: u32, cs: seq<Call>)
    requires ValidConfig(c)
    ensures var p := ApplyAll(Create(c, rcvWnd), cs).probe;
      ProbeOk(p) && !p.askSend
  {
    if cs != [] {
      ProbeRun(c, rcvWnd, cs[..|cs| - 1]);
      ApplyProbe(ApplyAll(Create(c, rcvWnd), cs[..|cs| - 1]), cs[|cs| - 1]);
    }
  }

  // ----- a segment that nobody acknowledges

  /** The one segment under way has been sent `n` times with a timer of 200 that doubled each time. */
  ghost predicate Unanswered(k: Kcb, n: nat) {
    && k.updated && k.cfg.nodelay == 0 && k.rtt.rto == 200
    && k.snd.queue == [] && |k.snd.buf| == 1
    && 1 <= n && k.snd.buf[0].xmit == n && k.snd.buf[0].rto == 200 * Pow2(n - 1)
  }

  lemma FlushOne(k: Kcb)
    requires k.updated && k.snd.queue == [] && |k.snd.buf| == 1
    ensures var k' := Flush(k).0;
      && k'.updated && k'.cfg == k.cfg && k'.rtt == k.rtt && k'.current == k.current
      && k'.snd.queue == [] && k'.snd.buf == [Transmit(k.snd.buf[0], PassOf(k))]
  {
    hide Transmit, CountAll, OnFlush, NextProbe, Pack;
    assert AdmitAll(k) == k.snd;
    assert TransmitAll(k.snd.buf, PassOf(k)) == [Transmit(k.snd.buf[0], PassOf(k))];
  }

  /** An update at the resend time of the segment doubles its timer. */
  lemma Retry(k: Kcb, n: nat)
    requires Unanswered(k, n) && 200 * Pow2(n - 1) < TWO31 && n < 100
    ensures var k' := Update(k, k.snd.buf[0].resendts).0;
      && Unanswered(k', n + 1) && k'.current == k.snd.buf[0].resendts
      && k'.snd.buf[0].resendts == Add32(k'.current, k'.snd.buf[0].rto)
  {
    var now := k.snd.buf[0].resendts;
    var k1 := Tick(k, now);
    FlushOne(k1);
    hide Flush;
    assert CauseOf(k.snd.buf[0], PassOf(k1)).Timeout?;
    assert Pow2(n) == 2 * Pow2(n - 1);
    Pow2Mono(0, n - 1);
  }

  lemma FlushNothing(k: Kcb)
    requires k.updated && k.snd.queue == [] && k.snd.buf == []
    ensures var k' := Flush(k).0;
      k'.updated && k'.cfg == k.cfg && k'.rtt == k.rtt && k'.rmtWnd == k.rmtWnd && k'.snd == k.snd && k'.cc.cwnd >= 1
  {
    hide CountAll, NextProbe, Pack;
    assert AdmitAll(k) == k.snd;
    assert TransmitAll([], PassOf(k)) == [];
  }

  lemma SendByte(k: Kcb)
    requires k.cfg.mss > 0 && k.snd.queue == []
    ensures var k' := SendMessage(k, [0]).0;
      k' == k.(snd := k'.snd) && k'.snd == k.snd.(queue := k'.snd.queue, nque := k'.snd.nque) && |k'.snd.queue| == 1
  {
    assert |Fragments([0], k.cfg.mss)| == 1;
  }

  lemma FlushByte(k: Kcb)
    requires k.updated && |k.snd.queue| == 1 && k.snd.buf == [] && k.snd.nxt == k.snd.una && 1 <= UsedWindow(k) <= 0xFFFF
    ensures var k' := Flush(k).0;
      && k'.updated && k'.cfg == k.cfg && k'.rtt == k.rtt
      && k'.snd.queue == [] && |k'.snd.buf| == 1 && k'.snd.buf[0].xmit == 1 && k'.snd.buf[0].rto == k.rtt.rto
  {
    hide CountAll, OnFlush, NextProbe, Pack;
    var s, w := S.AdmitOne(k.snd, StampOf(k)), UsedWindow(k);
    assert S.CanAdmit(k.snd, w) && s.queue == [] && !S.CanAdmit(s, w);
    assert S.Admit(s, w, StampOf(k)) == s;
    assert AdmitAll(k) == s;
    assert TransmitAll(s.buf, PassOf(k)) == [Transmit(s.buf[0], PassOf(k))];
  }

  lemma ApplyNext(k: Kcb, cs: seq<Call>, c: Call)
    requires k.cfg.mss > 0
    ensures ApplyAll(k, cs + [c]) == Apply(ApplyAll(k, cs), c)
  {
    assert (cs + [c])[..|cs|] == cs;
  }

  lemma FirstSending(c: Config) returns (cs: seq<Call>)
    requires ValidConfig(c) && c.nodelay == 0 && c.sndWnd > 0
    ensures Unanswered(ApplyAll(Create(c, 0), cs), 1)
  {
    hide Flush, SendMessage, ApplyAll;
    var k0, u, s := Create(c, 0), CallUpdate(0), CallSend([0]);
    FlushNothing(Tick(k0, 0));
    var k1 := Update(k0, 0).0;
    SendByte(k1);
    var k2 := SendMessage(k1, [0]).0;
    FlushByte(Tick(k2, 0));
    assert Pow2(0) == 1;
    cs := [] + [u] + [s] + [u];
    ApplyNone(k0);
    ApplyNext(k0, [], u);
    ApplyNext(k0, [] + [u], s);
    ApplyNext(k0, [] + [u] + [s], u);
  }

  lemma ApplyNone(k: Kcb)
    requires k.cfg.mss > 0
    ensures ApplyAll(k, []) == k
  {}

  lemma {:induction false} Retries(c: Config, n: nat) returns (cs: seq<Call>)
    requires ValidConfig(c) && c.nodelay == 0 && c.sndWnd > 0 && 1 <= n <= 25
    ensures var k := ApplyAll(Create(c, 0), cs);
      Unanswered(k, n) && (n > 1 ==> k.snd.buf[0].resendts == Add32(k.current, k.snd.buf[0].rto))
  {
    hide ApplyAll, Update;
    if n == 1 {
      cs := FirstSending(c);
    } else {
      var front := Retries(c, n - 1);
      var k := ApplyAll(Create(c, 0), front);
      Pow2Mono(n - 2, 23);
      Pow2At23();
      Retry(k, n - 1);
      var u := CallUpdate(k.snd.buf[0].resendts);
      ApplyNext(Create(c, 0), front, u);
      cs := front + [u];
    }
  }

  lemma Pow2At23()
    ensures Pow2(23) == 0x80_0000 && Pow2(24) == 0x100_0000
  {
    Pow2At14();
    assert Pow2(18) == 0x4_0000;
  }

  /** The doubling is not guarded.  With the default timer of 200, a segment that is never acknowledged
      has at its 25th sending a timer beyond 2^31: the update that sends it leaves it due again
      at once. */
  lemma DoublingFails(c: Config) returns (cs: seq<Call>)
    requires ValidConfig(c) && c.nodelay == 0 && c.sndWnd > 0
    ensures var k := ApplyAll(Create(c, 0), cs);
      |k.snd.buf| == 1 && k.snd.buf[0].xmit == 25 && k.snd.buf[0].rto == 200 * 0x100_0000 && Due(k.snd.buf[0], k.current)
  {
    cs := Retries(c, 25);
    Pow2At23();
  }
}
