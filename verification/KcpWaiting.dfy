/** A segment that has been sent, until it is acknowledged: which calls touch it, and that it is not sent
    again before its time. */
module KcpWaiting {
  import opened Serial
  import opened KcpWire
  import opened KcpNumbering
  import opened KcpMessages
  import S = KcpSender
  import opened KcpTiming
  import opened KcpControl
  import opened KcpInvariant
  import opened KcpRuns
  import opened KcpPass

  // ----- what ikcp_input does to the segments under way

  lemma OnSegmentBuffer(k: Kcb, seg: Segment)
    ensures forall s :: s in OnSegment(k, seg).snd.buf ==> s in k.snd.buf
  {
    hide UpdateAck, S.InFlight, S.AckedPrefix, S.AckIndex;
  }

  lemma {:induction false} OnSegmentsBuffer(k: Kcb, segs: seq<Segment>)
    ensures forall s :: s in OnSegments(k, segs).snd.buf ==> s in k.snd.buf
    decreases |segs|
  {
    hide OnSegment;
    if segs != [] {
      OnSegmentBuffer(k, segs[0]);
      OnSegmentsBuffer(OnSegment(k, segs[0]), segs[1..]);
    }
  }

  /** The datagram was accepted, and the newest number that it acknowledges was in flight and newer than
      this one, which is still in flight. */
  predicate Skips(k: Kcb, data: Datagram, sn: u32)
    requires k.cfg.mss > 0
  {
    var m, s := MaxAcks(None, Unpack(k.cfg.conv, data).segs), Input(k, data).0.snd;
    && Input(k, data).1 == 0 && m.Some?
    && Offset(s.una, sn) < Offset(s.una, m.sn) < S.Flight(s)
  }

  /** `ikcp_input` leaves the segments that it does not remove as they are, but for the count of
      acknowledgements that have skipped them: it grows by one for each datagram whose newest
      acknowledgement is for a later number, and never else. */
  lemma InputSkips(k: Kcb, data: Datagram, i: nat)
    requires EndpointOk(k) && i < |Input(k, data).0.snd.buf|
    ensures var r := Input(k, data).0.snd.buf[i];
      exists s :: s in k.snd.buf && r == s.(fastack := if Skips(k, data, r.sn) then Add32(s.fastack, 1) else s.fastack)
  {
    var u := Unpack(k.cfg.conv, data);
    UnpackedWindows(k.cfg.conv, data);
    OnSegmentsOk(k, u.segs);
    OnSegmentsKeepsConfig(k, u.segs);
    OnSegmentsBuffer(k, u.segs);
    var k1, m, r := OnSegments(k, u.segs), MaxAcks(None, u.segs), Input(k, data).0.snd.buf[i];
    hide OnSegments, Unpack, MaxAcks;
    if Input(k, data).1 == 0 && m.Some? {
      FastackExact(k1.snd, m.sn, i);
      hide S.ParseFastack;
      var s := k1.snd.buf[i];
      assert s in k1.snd.buf;
    } else {
      assert r in k1.snd.buf || r in k.snd.buf;
    }
  }

  lemma FastackExact(s: S.Snd, sn: u32, i: nat)
    requires S.Valid(s) && i < |S.ParseFastack(s, sn).buf|
    ensures var s' := S.ParseFastack(s, sn);
      && s'.una == s.una && s'.nxt == s.nxt && |s'.buf| == |s.buf|
      && s'.buf[i] == s.buf[i].(fastack :=
           if Offset(s.una, s.buf[i].sn) < Offset(s.una, sn) < S.Flight(s) then Add32(s.buf[i].fastack, 1) else s.buf[i].fastack)
  {
    S.InFlightMeans(s, 0, sn);
    if S.InFlight(s, sn) {
      S.BumpMeans(s.buf, s.una, S.Flight(s), sn);
    } else {
      NotInFlight(s, sn);
    }
  }

  lemma NotInFlight(s: S.Snd, sn: u32)
    requires S.Valid(s) && !S.InFlight(s, sn)
    ensures Offset(s.una, sn) >= S.Flight(s)
  {}

  // ----- not before its time

  /** The segment is in the buffer as it was, but for the count of acknowledgements that have skipped it. */
  ghost predicate Holds(k: Kcb, seg: Segment) {
    exists i :: 0 <= i < |k.snd.buf| && k.snd.buf[i].(fastack := seg.fastack) == seg
  }

  /** It has been acknowledged. */
  ghost predicate Absent(k: Kcb, sn: u32) {
    forall s :: s in k.snd.buf ==> s.sn != sn
  }

  /** The clock is before its resend time, and too few acknowledgements have skipped it. */
  ghost predicate Early(k: Kcb, current: u32, seg: Segment) {
    && Diff32(current, seg.resendts) < 0
    && forall s :: s in k.snd.buf && s.sn == seg.sn ==> s.fastack < Threshold(k.cfg)
  }

  ghost predicate Unhurried(k: Kcb, call: Call, seg: Segment) {
    match call
    case CallUpdate(current) => Early(k, current, seg)
    case CallFlush => k.updated ==> Early(k, k.current, seg)
    case _ => true
  }

  ghost predicate UnhurriedRun(k: Kcb, cs: seq<Call>, seg: Segment)
    requires k.cfg.mss > 0
  {
    cs == [] || (UnhurriedRun(k, cs[..|cs| - 1], seg) && Unhurried(ApplyAll(k, cs[..|cs| - 1]), cs[|cs| - 1], seg))
  }

  lemma SameNumberSame(s: S.Snd, i: nat, j: nat)
    requires S.Valid(s) && i < |s.buf| && j < |s.buf| && s.buf[i].sn == s.buf[j].sn
    ensures i == j
  {
    var xs := Offsets(s.buf, s.una);
    assert xs[i] == xs[j];
  }

  lemma InputHolds(k: Kcb, data: Datagram, seg: Segment)
    requires EndpointOk(k) && Holds(k, seg)
    ensures Holds(Input(k, data).0, seg) || Absent(Input(k, data).0, seg.sn)
  {
    var k' := Input(k, data).0;
    var i :| 0 <= i < |k.snd.buf| && k.snd.buf[i].(fastack := seg.fastack) == seg;
    if !Absent(k', seg.sn) {
      var r :| r in k'.snd.buf && r.sn == seg.sn;
      var j :| 0 <= j < |k'.snd.buf| && k'.snd.buf[j] == r;
      InputSkips(k, data, j);
      hide Input, Skips;
      var s :| s in k.snd.buf && r == s.(fastack := if Skips(k, data, r.sn) then Add32(s.fastack, 1) else s.fastack);
      var l :| 0 <= l < |k.snd.buf| && k.snd.buf[l] == s;
      SameNumberSame(k.snd, i, l);
      assert k'.snd.buf[j].(fastack := seg.fastack) == seg;
    }
  }

  lemma FlushHolds(k: Kcb, seg: Segment)
    requires EndpointOk(k) && Holds(k, seg) && seg.xmit > 0 && (k.updated ==> Early(k, k.current, seg))
    ensures Holds(Flush(k).0, seg)
  {
    var i :| 0 <= i < |k.snd.buf| && k.snd.buf[i].(fastack := seg.fastack) == seg;
    assert k.snd.buf[i] in k.snd.buf;
    if k.updated {
      FlushResends(k, i);
      hide Flush;
      assert Flush(k).0.snd.buf[i] == k.snd.buf[i];
    }
  }

  lemma HeldStep(k: Kcb, call: Call, seg: Segment)
    requires EndpointOk(k) && Holds(k, seg) && seg.xmit > 0 && Unhurried(k, call, seg)
    ensures Holds(Apply(k, call), seg) || Absent(Apply(k, call), seg.sn)
  {
    SegmentsHaveRoom(k);
    hide EndpointOk, Flush, Input, Absent, Early;
    match call
    case CallSend(msg) => SendBuffer(k, msg);
    case CallRecv(len) => RecvBuffer(k, len);
    case CallInput(data) => InputHolds(k, data, seg);
    case CallUpdate(current) =>
      TickOk(k, current);
      TickBuffer(k, current, seg);
      FlushHolds(Tick(k, current), seg);
    case CallFlush => FlushHolds(k, seg);
  }

  lemma SendBuffer(k: Kcb, msg: Message)
    requires k.cfg.mss > 0
    ensures SendMessage(k, msg).0.snd.buf == k.snd.buf
  {}

  lemma RecvBuffer(k: Kcb, len: int)
    ensures ReceiveMessage(k, len).0.snd.buf == k.snd.buf
  {}

  lemma TickBuffer(k: Kcb, current: u32, seg: Segment)
    requires Early(k, current, seg)
    ensures Tick(k, current).snd == k.snd && Early(Tick(k, current), current, seg) && Tick(k, current).current == current
  {}

  /** In every run, a segment that has been sent stays as it is until it is acknowledged, not sent again and its
      timer untouched, as long as every update comes before its resend time and too few acknowledgements
      have skipped it. */
  lemma {:induction false} HeldRun(k: Kcb, cs: seq<Call>, seg: Segment)
    requires EndpointOk(k) && Holds(k, seg) && seg.xmit > 0 && UnhurriedRun(k, cs, seg)
    ensures EndpointOk(ApplyAll(k, cs))
    ensures Holds(ApplyAll(k, cs), seg) || exists m :: 0 <= m <= |cs| && Absent(ApplyAll(k, cs[..m]), seg.sn)
  {
    hide EndpointOk, Holds, Absent, Unhurried, Apply, ApplyAll, Early;
    SegmentsHaveRoom(k);
    if cs == [] {
      ApplyNone(k);
    } else {
      var n := |cs| - 1;
      HeldRun(k, cs[..n], seg);
      var k1 := ApplyAll(k, cs[..n]);
      ApplyOk(k1, cs[n]);
      assert cs == cs[..n] + [cs[n]];
      ApplyNext(k, cs[..n], cs[n]);
      if Holds(k1, seg) {
        HeldStep(k1, cs[n], seg);
        assert cs[..|cs|] == cs;
      } else {
        var m :| 0 <= m <= n && Absent(ApplyAll(k, cs[..n][..m]), seg.sn);
        assert cs[..n][..m] == cs[..m];
      }
    }
  }
}
