/** One `ikcp_flush`, exactly: what it admits, what it sends and when it will send it again, and how the
    congestion window reacts. */
module KcpPass {
  import opened Serial
  import opened KcpWire
  import opened KcpMessages
  import S = KcpSender
  import opened KcpTiming
  import opened KcpCongestion
  import opened KcpControl
  import opened KcpInvariant
  import opened KcpRuns

  // ----- what is admitted

  /** The smallest of the windows that limit the sender. */
  predicate IsWindow(k: Kcb, w: u32) {
    && w <= k.cfg.sndWnd && w <= k.rmtWnd && (k.cfg.nocwnd || w <= k.cc.cwnd)
    && (w == k.cfg.sndWnd || w == k.rmtWnd || (!k.cfg.nocwnd && w == k.cc.cwnd))
  }

  lemma UsedIsWindow(k: Kcb)
    ensures IsWindow(k, UsedWindow(k))
  {}

  lemma FlushParts(k: Kcb)
    requires k.updated
    ensures var s, a := Flush(k).0.snd, AdmitAll(k);
      && s.una == a.una && s.nxt == a.nxt && s.queue == a.queue && |s.buf| == |a.buf|
      && forall i :: 0 <= i < |s.buf| ==> s.buf[i] == Transmit(a.buf[i], PassOf(k))
  {
    hide Transmit, AdmitAll, FlushTally, NextProbe;
  }

  /** A flush moves segments from the front of `snd_queue` to the end of `snd_buf` until the smallest of the
      windows is full or the queue is empty, and never more. */
  lemma FlushFills(k: Kcb, w: u32)
    requires EndpointOk(k) && k.updated && IsWindow(k, w)
    ensures var s, s' := k.snd, Flush(k).0.snd;
      var n := |s'.buf| - |s.buf|;
      && 0 <= n <= |s.queue| && s'.queue == s.queue[n..] && s'.una == s.una
      && S.Flight(s') == S.Flight(s) + n && S.Flight(s') <= Max(S.Flight(s), w)
      && (s'.queue == [] || S.Flight(s') >= w)
  {
    hide Transmit, S.Admit, Flush;
    UsedWindowSmall(k);
    UsedIsWindow(k);
    assert w == UsedWindow(k);
    S.AdmitFills(k.snd, w, StampOf(k));
    FlushParts(k);
    assert S.Flight(Flush(k).0.snd) == S.Flight(AdmitAll(k));
  }

  lemma AddWraps(a: u32, i: u32)
    ensures Add32(a, i) == Wrap(a + i)
  {}

  // ----- the segments that were under way

  /** How many acknowledgements must skip a segment; without fast resend no number will do. */
  function Threshold(c: Config): u32 {
    if c.fastresend > 0 then c.fastresend else 0xFFFF_FFFF
  }

  lemma AdmitKeepsFront(k: Kcb, i: nat)
    requires EndpointOk(k) && i < |k.snd.buf|
    ensures i < |AdmitAll(k).buf| && AdmitAll(k).buf[i] == k.snd.buf[i]
  {
    UsedWindowSmall(k);
    S.AdmitFills(k.snd, UsedWindow(k), StampOf(k));
    hide S.Admit;
  }

  lemma AdmittedIs(k: Kcb, i: nat)
    requires EndpointOk(k) && |k.snd.buf| <= i < |AdmitAll(k).buf|
    ensures var j := i - |k.snd.buf|;
      j < |k.snd.queue| && AdmitAll(k).buf[i] == S.Admitted(k.snd.queue[j], Wrap(k.snd.nxt + j), StampOf(k))
  {
    UsedWindowSmall(k);
    S.AdmitFills(k.snd, UsedWindow(k), StampOf(k));
    hide S.Admit;
    var j := i - |k.snd.buf|;
    assert AdmitAll(k).buf[|k.snd.buf| + j] == S.Admitted(k.snd.queue[j], Add32(k.snd.nxt, j), StampOf(k));
    AddWraps(k.snd.nxt, j);
  }

  /** The segment `r` has been sent by this flush. */
  predicate SentNow(k: Kcb, r: Segment) {
    r.ts == k.current && r.wnd == WndUnused(k.rcv) && r.una == k.rcv.nxt
  }

  /** A flush leaves a segment that was under way in its place.  It is sent again, with a longer timer, exactly
      when its timer has run out; with the same timer, when it has been skipped often enough; and
      otherwise it is not touched.  The time to the next resend is the timer. */
  lemma FlushResends(k: Kcb, i: nat)
    requires EndpointOk(k) && k.updated && i < |k.snd.buf| && k.snd.buf[i].xmit > 0
    ensures i < |Flush(k).0.snd.buf|
    ensures var seg, r := k.snd.buf[i], Flush(k).0.snd.buf[i];
      var wait, skipped := Sub32(r.resendts, k.current), Skipped(seg, k.current, Threshold(k.cfg), k.cfg.fastlimit);
      && r.sn == seg.sn && Content(r) == Content(seg)
      && (Expired(seg, k.current) ==>
            && SentNow(k, r) && r.xmit == Add32(seg.xmit, 1) && r.fastack == seg.fastack && wait == r.rto
            && (k.cfg.nodelay != 1 || seg.rto < TWO31 ==> r.rto == Wrap(seg.rto + Growth(seg.rto, k.rtt.rto, k.cfg.nodelay))))
      && (skipped ==>
            SentNow(k, r) && r.xmit == Add32(seg.xmit, 1) && r.fastack == 0 && r.rto == seg.rto && wait == seg.rto)
      && (!Expired(seg, k.current) && !skipped ==> r == seg)
  {
    hide Transmit, AdmitAll, Flush;
    AdmitKeepsFront(k, i);
    FlushParts(k);
    TransmitFields(k.snd.buf[i], PassOf(k));
    TransmitTimes(k.snd.buf[i], PassOf(k));
  }

  /** What is admitted is numbered in order, carries the fragments that were queued, and is sent at once.  Its
      timer is the current estimate, and without `nodelay` an eighth of it is added to the first wait. */
  lemma FlushFirst(k: Kcb, j: nat)
    requires EndpointOk(k) && k.updated && |k.snd.buf| + j < |Flush(k).0.snd.buf|
    ensures j < |k.snd.queue|
    ensures var r := Flush(k).0.snd.buf[|k.snd.buf| + j];
      && r.sn == Wrap(k.snd.nxt + j) && Content(r) == Content(k.snd.queue[j]) && r.cmd == CMD_PUSH && r.conv == k.cfg.conv
      && SentNow(k, r) && r.xmit == 1 && r.fastack == 0 && r.rto == k.rtt.rto
      && Sub32(r.resendts, k.current) == k.rtt.rto + if k.cfg.nodelay == 0 then k.rtt.rto / 8 else 0
  {
    hide Transmit, AdmitAll, Flush;
    FlushParts(k);
    AdmittedIs(k, |k.snd.buf| + j);
    var seg := AdmitAll(k).buf[|k.snd.buf| + j];
    TransmitFields(seg, PassOf(k));
    TransmitTimes(seg, PassOf(k));
  }

  // ----- what goes out, and what is counted

  /** The segments of a list for which a sending is due, as the pass leaves them. */
  function Outgoing(buf: seq<Segment>, p: Pass): seq<Segment> {
    if buf == [] then []
    else
      var seg := buf[|buf| - 1];
      Outgoing(buf[..|buf| - 1], p)
      + if seg.xmit == 0 || Expired(seg, p.current) || Skipped(seg, p.current, p.resent, p.fastlimit) then [Transmit(seg, p)]
        else []
  }

  function CountExpired(buf: seq<Segment>, current: u32): nat {
    if buf == [] then 0
    else CountExpired(buf[..|buf| - 1], current) + if Expired(buf[|buf| - 1], current) then 1 else 0
  }

  lemma CauseMeans(seg: Segment, p: Pass)
    ensures CauseOf(seg, p).First? <==> seg.xmit == 0
    ensures CauseOf(seg, p).Timeout? <==> Expired(seg, p.current)
    ensures CauseOf(seg, p).Fast? <==> Skipped(seg, p.current, p.resent, p.fastlimit)
  {}

  lemma {:induction false} TallyExact(buf: seq<Segment>, p: Pass, deadLink: u32)
    ensures var t := CountAll(buf, p, deadLink);
      && t.sent == Outgoing(buf, p)
      && t.timeouts == Wrap(CountExpired(buf, p.current))
      && (t.lost <==> AnyExpired(buf, p.current))
      && (t.fast <==> AnySkipped(buf, p.current, p.resent, p.fastlimit))
      && (t.dead <==> AnyDead(t.sent, deadLink))
  {
    hide CauseOf, Transmit, Expired, Skipped, AnyExpired, AnySkipped, AnyDead;
    if buf == [] {
      AnyNothing(p, deadLink);
    } else {
      var n := |buf| - 1;
      var front := buf[..n];
      TallyExact(front, p, deadLink);
      CauseMeans(buf[n], p);
      AddCount(CountExpired(front, p.current));
      AnyNext(front, buf[n], p);
      assert buf == front + [buf[n]];
      DeadNext(Outgoing(front, p), Transmit(buf[n], p), deadLink);
    }
  }

  /** Some timer in the list has run out. */
  ghost predicate AnyExpired(buf: seq<Segment>, current: u32) {
    exists i :: 0 <= i < |buf| && Expired(buf[i], current)
  }

  /** Some segment in the list has been skipped often enough. */
  ghost predicate AnySkipped(buf: seq<Segment>, current: u32, threshold: u32, fastlimit: int) {
    exists i :: 0 <= i < |buf| && Skipped(buf[i], current, threshold, fastlimit)
  }

  /** Some segment has been sent too often. */
  ghost predicate AnyDead(sent: seq<Segment>, deadLink: u32) {
    exists i :: 0 <= i < |sent| && sent[i].xmit >= deadLink
  }

  lemma AnyNothing(p: Pass, deadLink: u32)
    ensures !AnyExpired([], p.current) && !AnySkipped([], p.current, p.resent, p.fastlimit) && !AnyDead([], deadLink)
  {}

  lemma AnyNext(front: seq<Segment>, seg: Segment, p: Pass)
    ensures AnyExpired(front + [seg], p.current) <==> AnyExpired(front, p.current) || Expired(seg, p.current)
    ensures AnySkipped(front + [seg], p.current, p.resent, p.fastlimit)
      <==> AnySkipped(front, p.current, p.resent, p.fastlimit) || Skipped(seg, p.current, p.resent, p.fastlimit)
  {
    hide Expired, Skipped;
    var all := front + [seg];
    assert all[|front|] == seg;
    assert forall i :: 0 <= i < |front| ==> all[i] == front[i];
  }

  lemma DeadNext(sent: seq<Segment>, seg: Segment, deadLink: u32)
    ensures AnyDead(sent + [seg], deadLink) <==> AnyDead(sent, deadLink) || seg.xmit >= deadLink
  {
    var all := sent + [seg];
    assert all[|sent|] == seg;
    assert forall i :: 0 <= i < |sent| ==> all[i] == sent[i];
  }

  lemma AddCount(n: nat)
    ensures Add32(Wrap(n), 1) == Wrap(n + 1)
  {}

  /** The sending of this segment, which was in the buffer before the flush, is due. */
  predicate SendingDue(k: Kcb, seg: Segment) {
    seg.xmit == 0 || Expired(seg, k.current) || Skipped(seg, k.current, Threshold(k.cfg), k.cfg.fastlimit)
  }

  /** Of a buffer after the flush, what was not in it before or was due. */
  function Chosen(k: Kcb, before: seq<Segment>, after: seq<Segment>): seq<Segment>
    decreases |after|
  {
    if after == [] then []
    else
      var n := |after| - 1;
      Chosen(k, if n < |before| then before[..n] else before, after[..n])
      + if n >= |before| || SendingDue(k, before[n]) then [after[n]] else []
  }

  lemma {:induction false} OutgoingChosen(k: Kcb, before: seq<Segment>, buf: seq<Segment>)
    requires before <= buf && forall i :: |before| <= i < |buf| ==> buf[i].xmit == 0
    ensures Outgoing(buf, PassOf(k)) == Chosen(k, before, TransmitAll(buf, PassOf(k)))
    decreases |buf|
  {
    hide Transmit, Expired, Skipped;
    if buf != [] {
      var n := |buf| - 1;
      var front := if n < |before| then before[..n] else before;
      assert front <= buf[..n];
      OutgoingChosen(k, front, buf[..n]);
      var all := TransmitAll(buf, PassOf(k));
      assert all[..n] == TransmitAll(buf[..n], PassOf(k));
    }
  }

  /** The datagrams of a flush carry the pending acknowledgements, the window probes and, in the order of their
      numbers, exactly the segments that were admitted by it or were due. */
  lemma FlushSends(k: Kcb)
    requires EndpointOk(k) && k.updated
    ensures FlushSegments(k) == AckSegments(k) + ProbeSegments(k) + Chosen(k, k.snd.buf, Flush(k).0.snd.buf)
  {
    hide Transmit, S.Admit, NextProbe, Outgoing, Chosen, CountAll, ProbeSegments;
    UsedWindowSmall(k);
    S.AdmitFills(k.snd, UsedWindow(k), StampOf(k));
    var buf := AdmitAll(k).buf;
    forall i | |k.snd.buf| <= i < |buf| ensures buf[i].xmit == 0 {
      AdmittedIs(k, i);
    }
    OutgoingChosen(k, k.snd.buf, buf);
    TallyExact(buf, PassOf(k), k.cfg.deadLink);
  }

  lemma {:induction false} CountFront(before: seq<Segment>, buf: seq<Segment>, current: u32)
    requires before <= buf && forall i :: |before| <= i < |buf| ==> buf[i].xmit == 0
    ensures CountExpired(buf, current) == CountExpired(before, current)
    decreases |buf|
  {
    if |buf| > |before| {
      CountFront(before, buf[..|buf| - 1], current);
    } else {
      assert buf == before;
    }
  }

  /** A timer has run out. */
  ghost predicate SomeExpired(k: Kcb) {
    AnyExpired(k.snd.buf, k.current)
  }

  /** A segment has been skipped often enough. */
  ghost predicate SomeSkipped(k: Kcb) {
    AnySkipped(k.snd.buf, k.current, Threshold(k.cfg), k.cfg.fastlimit)
  }

  lemma TallyOf(k: Kcb)
    requires EndpointOk(k) && k.updated
    ensures var t := FlushTally(k);
      && (t.lost <==> SomeExpired(k)) && (t.fast <==> SomeSkipped(k))
      && t.timeouts == Wrap(CountExpired(k.snd.buf, k.current))
      && (t.dead <==> AnyDead(t.sent, k.cfg.deadLink))
      && t.sent == Chosen(k, k.snd.buf, Flush(k).0.snd.buf)
  {
    hide Transmit, S.Admit, NextProbe, Outgoing, Chosen, CountAll, CountExpired;
    UsedWindowSmall(k);
    S.AdmitFills(k.snd, UsedWindow(k), StampOf(k));
    var buf := AdmitAll(k).buf;
    forall i | |k.snd.buf| <= i < |buf| ensures buf[i].xmit == 0 {
      AdmittedIs(k, i);
    }
    assert forall i :: 0 <= i < |k.snd.buf| ==> buf[i] == k.snd.buf[i];
    CountFront(k.snd.buf, buf, k.current);
    TallyExact(buf, PassOf(k), k.cfg.deadLink);
    OutgoingChosen(k, k.snd.buf, buf);
  }

  /** The link is given up exactly when a segment that goes out has now been sent too often, and every timer
      that has run out is counted. */
  lemma FlushCounts(k: Kcb)
    requires EndpointOk(k) && k.updated
    ensures var k', sent := Flush(k).0, Chosen(k, k.snd.buf, Flush(k).0.snd.buf);
      && (k'.state == if AnyDead(sent, k.cfg.deadLink) then 0xFFFF_FFFF else k.state)
      && k'.xmit == Wrap(k.xmit + CountExpired(k.snd.buf, k.current))
  {
    hide Flush, FlushTally, Chosen, CountExpired, AnyDead, EndpointOk;
    TallyOf(k);
    FlushMarks(k);
    SumWraps(k.xmit, CountExpired(k.snd.buf, k.current));
  }

  lemma FlushMarks(k: Kcb)
    requires k.updated
    ensures var k', t := Flush(k).0, FlushTally(k);
      k'.state == (if t.dead then 0xFFFF_FFFF else k.state) && k'.xmit == Add32(k.xmit, t.timeouts)
  {
    hide FlushTally, AdmitAll, NextProbe, TransmitAll, OnFlush;
  }

  lemma SumWraps(a: u32, n: nat)
    ensures Add32(a, Wrap(n)) == Wrap(a + n)
  {}

  /** How the congestion window reacts.  A timer that has run out sets `ssthresh` to half the window that was
      used, two at least, and the window to one segment.  Otherwise a fast resend sets `ssthresh` to half of what is
      in flight, two at least, and the window to as many segments more as it took
      acknowledgements.  Otherwise the window stays, and is one segment at least. */
  lemma FlushReacts(k: Kcb, w: u32, limit: nat)
    requires EndpointOk(k) && k.updated && IsWindow(k, w) && WindowsFit(k.cfg, limit)
    ensures var c, c', mss := k.cc, Flush(k).0.cc, k.cfg.mss;
      && (SomeExpired(k) ==> c' == Cc(1, mss, Max(w / 2, 2)))
      && (!SomeExpired(k) && SomeSkipped(k) ==>
            && c'.ssthresh == Max(S.Flight(Flush(k).0.snd) / 2, 2) && c'.incr == c'.cwnd * mss
            && c'.cwnd == c'.ssthresh + (if k.cfg.fastresend > 0 then k.cfg.fastresend else -1))
      && (!SomeExpired(k) && !SomeSkipped(k) ==> c' == if c.cwnd >= 1 then c else Cc(1, mss, c.ssthresh))
  {
    TallyOf(k);
    UsedIsWindow(k);
    FlushFills(k, w);
    FlushFlight(k);
    hide CountAll, S.Admit, NextProbe, TransmitAll, OnFlush, Chosen, CountExpired, NoWrap, SomeExpired, SomeSkipped;
    var t := FlushTally(k);
    OnFlushExact(k.cc, t.fast, t.lost, S.Flight(Flush(k).0.snd), w, k.cfg.fastresend, k.cfg.mss, limit);
  }

  lemma FlushFlight(k: Kcb)
    requires EndpointOk(k) && k.updated
    ensures S.Flight(Flush(k).0.snd) == Sub32(AdmitAll(k).nxt, AdmitAll(k).una) <= S.MAX_FLIGHT
  {
    FlushParts(k);
    UsedWindowSmall(k);
    S.AdmitFills(k.snd, UsedWindow(k), StampOf(k));
    hide S.Admit, Flush;
  }

  // ----- window requests and answers

  ghost predicate Carries(segs: seq<Segment>, cmd: byte) {
    exists i :: 0 <= i < |segs| && segs[i].cmd == cmd
  }

  /** A request or an answer: an empty segment that announces the room in the receive queue and what is expected
      next, with the number and the stamp of the last acknowledgement of the same flush. */
  predicate IsProbe(k: Kcb, seg: Segment) {
    var last := if k.acks == [] then Ack(0, 0) else k.acks[|k.acks| - 1];
    && seg.conv == k.cfg.conv && seg.data == [] && seg.frg == 0
    && seg.wnd == (if k.rcv.nque < k.rcv.wnd then k.rcv.wnd - k.rcv.nque else 0) && seg.una == k.rcv.nxt
    && seg.sn == last.sn && seg.ts == last.ts
  }

  lemma {:induction false} ChosenArePushes(k: Kcb, before: seq<Segment>, after: seq<Segment>)
    requires forall i :: 0 <= i < |after| ==> after[i].cmd == CMD_PUSH
    ensures forall i :: 0 <= i < |Chosen(k, before, after)| ==> Chosen(k, before, after)[i].cmd == CMD_PUSH
    decreases |after|
  {
    if after != [] {
      var n := |after| - 1;
      ChosenArePushes(k, if n < |before| then before[..n] else before, after[..n]);
    }
  }

  /** A flush carries an answer exactly when the peer has asked or the window has opened, and a request exactly
      when the peer has announced no window and the waiting time is over; each only once. */
  lemma FlushProbes(k: Kcb)
    requires EndpointOk(k) && k.updated && ProbeOk(k.probe) && !k.probe.askSend
    ensures var segs := FlushSegments(k);
      && (Carries(segs, CMD_WINS) <==> k.probe.askTell)
      && (Carries(segs, CMD_WASK) <==> k.rmtWnd == 0 && k.probe.wait != 0 && Diff32(k.current, k.probe.ts) >= 0)
      && (forall i :: 0 <= i < |segs| && (segs[i].cmd == CMD_WINS || segs[i].cmd == CMD_WASK) ==> IsProbe(k, segs[i]))
      && !Flush(k).0.probe.askTell && !Flush(k).0.probe.askSend
  {
    ProbesDone(k);
    hide ProbeSegments, AckSegments, Chosen, EndpointOk, Flush, IsProbe, FlushSegments;
    FlushSends(k);
    ProbesAre(k);
    DataArePushes(k);
    var acks, probes, data := AckSegments(k), ProbeSegments(k), Chosen(k, k.snd.buf, Flush(k).0.snd.buf);
    CarriesMiddle(acks, probes, data, CMD_WINS);
    CarriesMiddle(acks, probes, data, CMD_WASK);
  }

  lemma ProbesDone(k: Kcb)
    requires k.updated
    ensures !Flush(k).0.probe.askTell && !Flush(k).0.probe.askSend
  {
    hide FlushTally, AdmitAll, NextProbe, TransmitAll, OnFlush;
  }

  lemma DataArePushes(k: Kcb)
    requires EndpointOk(k) && k.updated
    ensures var data := Chosen(k, k.snd.buf, Flush(k).0.snd.buf);
      forall i :: 0 <= i < |data| ==> data[i].cmd == CMD_PUSH
  {
    FlushOk(k);
    var buf := Flush(k).0.snd.buf;
    assert forall i :: 0 <= i < |buf| ==> SegmentOk(k.cfg, buf[i]);
    hide Flush, Chosen;
    ChosenArePushes(k, k.snd.buf, buf);
  }

  lemma ProbesAre(k: Kcb)
    requires ProbeOk(k.probe) && !k.probe.askSend
    ensures var probes := ProbeSegments(k);
      && (Carries(probes, CMD_WINS) <==> k.probe.askTell)
      && (Carries(probes, CMD_WASK) <==> k.rmtWnd == 0 && k.probe.wait != 0 && Diff32(k.current, k.probe.ts) >= 0)
      && forall i :: 0 <= i < |probes| ==> IsProbe(k, probes[i])
  {
    ProbeStep(k);
    var probes := ProbeSegments(k);
    hide NextProbe;
    if k.probe.askTell {
      assert probes[|probes| - 1].cmd == CMD_WINS;
    }
    if NextProbe(k).askSend {
      assert probes[0].cmd == CMD_WASK;
    }
  }

  lemma CarriesMiddle(acks: seq<Segment>, probes: seq<Segment>, data: seq<Segment>, cmd: byte)
    requires cmd != CMD_ACK && cmd != CMD_PUSH
    requires forall i :: 0 <= i < |acks| ==> acks[i].cmd == CMD_ACK
    requires forall i :: 0 <= i < |data| ==> data[i].cmd == CMD_PUSH
    ensures Carries(acks + probes + data, cmd) <==> Carries(probes, cmd)
    ensures forall i :: 0 <= i < |acks + probes + data| && (acks + probes + data)[i].cmd == cmd ==>
      0 <= i - |acks| < |probes| && (acks + probes + data)[i] == probes[i - |acks|]
  {
    var all := acks + probes + data;
    if Carries(probes, cmd) {
      var i :| 0 <= i < |probes| && probes[i].cmd == cmd;
      assert all[|acks| + i] == probes[i];
    }
  }

  /** A call of `ikcp_recv` that takes a message from a full queue, and leaves room, makes the next flush tell the
      peer how much; no other call does. */
  lemma Reopens(k: Kcb, len: int)
    requires EndpointOk(k) && k.updated && ProbeOk(k.probe) && !k.probe.askSend
    ensures var k' := ReceiveMessage(k, len).0;
      && EndpointOk(k')
      && (Carries(FlushSegments(k'), CMD_WINS) <==>
            k.probe.askTell || (k.rcv.nque >= k.rcv.wnd && k'.rcv.nque < k'.rcv.wnd))
  {
    var k' := ReceiveMessage(k, len).0;
    ApplyOk(k, CallRecv(len));
    RecvCodes(k.rcv, len);
    hide FlushSegments, EndpointOk, Carries;
    FlushProbes(k');
  }
}
