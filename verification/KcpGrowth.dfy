/** The congestion window over runs: what one `ikcp_input` adds to it, and that it opens fully where
    nothing is lost. */
module KcpGrowth {
  import opened Serial
  import opened KcpWire
  import S = KcpSender
  import opened KcpCongestion
  import opened KcpControl
  import opened KcpInvariant
  import opened KcpRuns
  import opened KcpPass

  /** The datagram was accepted and has moved `snd_una` forward. */
  predicate Acknowledges(k: Kcb, data: Datagram)
    requires k.cfg.mss > 0
  {
    Input(k, data).1 == 0 && Diff32(Input(k, data).0.snd.una, k.snd.una) > 0
  }

  /** One `ikcp_input` lets the window grow exactly once, towards the window announced last, if the
      datagram was accepted and has moved `snd_una`; otherwise the window stays as it is. */
  lemma InputGrows(k: Kcb, data: Datagram, limit: nat)
    requires EndpointOk(k) && WindowsFit(k.cfg, limit) && Coupled(k.cc, k.cfg.mss, limit)
    ensures var k' := Input(k, data).0;
      if Acknowledges(k, data) then Grows(k.cc, k'.cc, k'.rmtWnd, k.cfg.mss) else k'.cc == k.cc
  {
    var u := Unpack(k.cfg.conv, data);
    UnpackedWindows(k.cfg.conv, data);
    OnSegmentsOk(k, u.segs);
    OnSegmentsKeepsConfig(k, u.segs);
    OnSegmentsKeepsWindow(k, u.segs);
    var k1 := OnSegments(k, u.segs);
    FinishOk(k1, MaxAcks(None, u.segs), k.snd.una);
    hide OnSegments, Unpack, OnAdvance, Coupled, NoWrap, S.ParseFastack, MaxAcks, EndpointOk, Grows;
    RmtSmall(k1);
    OnAdvanceExact(k.cc, k1.rmtWnd, k.cfg.mss, limit);
  }

  lemma RmtSmall(k: Kcb)
    requires EndpointOk(k)
    ensures k.rmtWnd <= 0xFFFF
  {}

  // ----- a run without losses

  /** The call finds no loss; and where it lets the window grow, the peer announces a window of `w`. */
  ghost predicate Calm(k: Kcb, call: Call, w: u32)
    requires k.cfg.mss > 0
  {
    match call
    case CallInput(data) => Acknowledges(k, data) ==> Input(k, data).0.rmtWnd == w
    case CallUpdate(current) => !SomeExpired(Tick(k, current)) && !SomeSkipped(Tick(k, current))
    case CallFlush => !SomeExpired(k) && !SomeSkipped(k)
    case _ => true
  }

  ghost predicate CalmRun(k: Kcb, cs: seq<Call>, w: u32)
    requires k.cfg.mss > 0
  {
    cs == [] || (CalmRun(k, cs[..|cs| - 1], w) && Calm(ApplyAll(k, cs[..|cs| - 1]), cs[|cs| - 1], w))
  }

  /** How many of the calls are datagrams that acknowledge something. */
  function Acknowledged(k: Kcb, cs: seq<Call>): nat
    requires k.cfg.mss > 0
  {
    if cs == [] then 0 else Acknowledged(k, cs[..|cs| - 1]) + Counts(ApplyAll(k, cs[..|cs| - 1]), cs[|cs| - 1])
  }

  function Counts(k: Kcb, call: Call): nat
    requires k.cfg.mss > 0
  {
    if call.CallInput? && Acknowledges(k, call.data) then 1 else 0
  }

  /** What `n` datagrams add at least. */
  function Gained(n: nat, mss: u32): nat {
    n * (mss / 16)
  }

  lemma GainedSum(n: nat, m: nat, mss: u32)
    ensures Gained(n + m, mss) == Gained(n, mss) + Gained(m, mss)
    ensures Gained(0, mss) == 0 && Gained(1, mss) == mss / 16
  {
    assert (n + m) * (mss / 16) == n * (mss / 16) + m * (mss / 16);
  }

  /** The window has not shrunk, is at most `w`, and is `w` or has gained `n` times a sixteenth of a segment. */
  ghost predicate Opens(c: Cc, c': Cc, w: u32, mss: u32, n: nat) {
    c.cwnd <= c'.cwnd <= w && (c'.cwnd == w || c'.incr >= c.incr + Gained(n, mss))
  }

  lemma GrowsOpens(c: Cc, c': Cc, w: u32, mss: u32, limit: nat)
    requires NoWrap(mss, limit) && Coupled(c, mss, limit) && Grows(c, c', w, mss) && c.cwnd <= w
    ensures Opens(c, c', w, mss, 1)
  {
    hide Gained, NoWrap, Coupled;
    GainedSum(0, 1, mss);
    MssPositive(mss, limit);
    if c.ssthresh <= c.cwnd < w {
      AdditiveAtLeast(c.incr, mss);
      hide Additive;
      var incr := c.incr + Additive(c.incr, mss);
      if (c.cwnd + 1) * mss <= incr <= w * mss {
        SegmentsBetween(c.cwnd, c'.cwnd, w, incr, mss);
      }
    }
  }

  lemma MssPositive(mss: u32, limit: nat)
    requires NoWrap(mss, limit)
    ensures mss > 0
  {}

  lemma AdditiveAtLeast(incr: int, mss: int)
    requires incr > 0 && mss > 0
    ensures Additive(incr, mss) >= mss / 16
  {
    QuotientSign(mss * mss, incr);
  }

  lemma SegmentsBetween(cwnd: int, cwnd': int, w: int, incr: int, mss: int)
    requires mss > 0 && (cwnd + 1) * mss <= incr <= w * mss && Segments(cwnd', incr, mss)
    ensures cwnd < cwnd' <= w
  {
    MulCancel(cwnd' - 1, w, mss);
    MulCancel(cwnd + 1, cwnd', mss);
  }

  lemma FlushCalm(k: Kcb, w: u32, limit: nat)
    requires EndpointOk(k) && WindowsFit(k.cfg, limit) && Coupled(k.cc, k.cfg.mss, limit)
    requires !SomeExpired(k) && !SomeSkipped(k) && k.cc.cwnd <= w && w >= 1
    ensures Opens(k.cc, Flush(k).0.cc, w, k.cfg.mss, 0)
  {
    hide Flush, EndpointOk, SomeExpired, SomeSkipped, IsWindow, UsedWindow, NoWrap, Gained;
    GainedSum(0, 0, k.cfg.mss);
    MssPositive(k.cfg.mss, limit);
    if k.updated {
      UsedIsWindow(k);
      FlushReacts(k, UsedWindow(k), limit);
    } else {
      FlushIdle(k);
    }
  }

  lemma FlushIdle(k: Kcb)
    requires !k.updated
    ensures Flush(k).0 == k
  {}

  lemma CalmStep(k: Kcb, call: Call, w: u32, limit: nat)
    requires EndpointOk(k) && WindowsFit(k.cfg, limit) && Coupled(k.cc, k.cfg.mss, limit)
    requires Calm(k, call, w) && k.cc.cwnd <= w && w >= 1
    ensures Opens(k.cc, Apply(k, call).cc, w, k.cfg.mss, Counts(k, call))
  {
    SegmentsHaveRoom(k);
    GainedSum(0, 0, k.cfg.mss);
    hide Coupled, NoWrap, Gained, Input, Flush, EndpointOk, SendMessage, ReceiveMessage, Grows, SomeExpired, SomeSkipped, Tick;
    match call
    case CallSend(msg) => SendKeepsWindow(k, msg);
    case CallRecv(len) => RecvKeepsWindow(k, len);
    case CallInput(data) =>
      InputGrows(k, data, limit);
      if Acknowledges(k, data) {
        GrowsOpens(k.cc, Input(k, data).0.cc, w, k.cfg.mss, limit);
      }
    case CallUpdate(current) =>
      TickOk(k, current);
      FlushCalm(Tick(k, current), w, limit);
    case CallFlush => FlushCalm(k, w, limit);
  }

  lemma OpensNext(c: Cc, c1: Cc, c2: Cc, w: u32, mss: u32, n: nat, m: nat)
    requires Opens(c, c1, w, mss, n) && Opens(c1, c2, w, mss, m)
    ensures Opens(c, c2, w, mss, n + m)
  {
    hide Gained;
    GainedSum(n, m, mss);
  }

  lemma NothingYet(k: Kcb, w: u32)
    requires k.cfg.mss > 0
    ensures ApplyAll(k, []) == k && Acknowledged(k, []) == 0
  {}

  lemma OneMore(k: Kcb, cs: seq<Call>, w: u32)
    requires k.cfg.mss > 0 && cs != [] && CalmRun(k, cs, w)
    ensures var n := |cs| - 1;
      var k1 := ApplyAll(k, cs[..n]);
      && CalmRun(k, cs[..n], w) && Calm(k1, cs[n], w)
      && ApplyAll(k, cs) == Apply(k1, cs[n]) && Acknowledged(k, cs) == Acknowledged(k, cs[..n]) + Counts(k1, cs[n])
  {
    hide Apply, Calm, Counts;
  }

  lemma {:induction false} OpensRun(k: Kcb, cs: seq<Call>, w: u32, limit: nat)
    requires EndpointOk(k) && WindowsFit(k.cfg, limit) && Coupled(k.cc, k.cfg.mss, limit)
    requires CalmRun(k, cs, w) && k.cc.cwnd <= w && w >= 1 && (k.updated ==> k.cc.cwnd >= 1)
    ensures var k' := ApplyAll(k, cs);
      && EndpointOk(k') && Coupled(k'.cc, k.cfg.mss, limit) && (k'.updated ==> k'.cc.cwnd >= 1)
      && Opens(k.cc, k'.cc, w, k.cfg.mss, Acknowledged(k, cs))
  {
    hide *;
    SegmentsHaveRoom(k);
    if cs == [] {
      NothingYet(k, w);
      OpensNothing(k.cc, w, k.cfg.mss);
    } else {
      var n := |cs| - 1;
      OneMore(k, cs, w);
      OpensRun(k, cs[..n], w, limit);
      var k1 := ApplyAll(k, cs[..n]);
      OpensBound(k.cc, k1.cc, w, k.cfg.mss, Acknowledged(k, cs[..n]));
      ApplyOk(k1, cs[n]);
      WindowStep(k1, cs[n], limit);
      CalmStep(k1, cs[n], w, limit);
      OpensNext(k.cc, k1.cc, Apply(k1, cs[n]).cc, w, k.cfg.mss, Acknowledged(k, cs[..n]), Counts(k1, cs[n]));
    }
  }

  lemma OpensNothing(c: Cc, w: u32, mss: u32)
    requires c.cwnd <= w
    ensures Opens(c, c, w, mss, 0)
  {
    GainedSum(0, 0, mss);
  }

  lemma OpensBound(c: Cc, c': Cc, w: u32, mss: u32, n: nat)
    requires Opens(c, c', w, mss, n)
    ensures c'.cwnd <= w
  {}

  /** Enough gains fill the window. */
  lemma Filled(c: Cc, c': Cc, w: u32, mss: u32, n: nat, limit: nat)
    requires NoWrap(mss, limit) && Coupled(c', mss, limit) && Opens(c, c', w, mss, n) && mss >= 16 && n >= 32 * w
    ensures c'.cwnd == w
  {
    hide Gained, NoWrap;
    GainedMuch(n, mss, w);
    MulCancel(w, c'.cwnd + 1, mss);
  }

  lemma GainedMuch(n: nat, mss: u32, w: u32)
    requires mss >= 16 && n >= 32 * w
    ensures Gained(n, mss) >= w * mss
  {
    var q := mss / 16;
    Sixteenths(mss, q);
    MulLe(32 * w, n, q);
    MulLe(mss, 32 * q, w);
    Rearranged(w, q);
  }

  lemma Sixteenths(mss: int, q: int)
    requires mss >= 16 && q == mss / 16
    ensures mss <= 32 * q
  {}

  lemma Rearranged(w: int, q: int)
    ensures 32 * w * q == 32 * q * w
  {}

  /** Where nothing is lost the window opens fully: from every state of every run, as long as no timer runs out
      and no segment is skipped too often, 32 acknowledging datagrams for each segment of the window that the peer
      announces bring the congestion window to exactly that window.  (For segments of 16 bytes or more;
      `GrowthStops` says what happens to smaller ones.) */
  lemma WindowOpens(c: Config, rcvWnd: u32, cs: seq<Call>, more: seq<Call>, w: u32, limit: nat)
    requires ValidConfig(c) && rcvWnd < TWO31 && WindowsFit(c, limit) && c.mss >= 16
    requires var k := ApplyAll(Create(c, rcvWnd), cs);
      CalmRun(k, more, w) && k.cc.cwnd <= w && w >= 1 && Acknowledged(k, more) >= 32 * w
    ensures ApplyAll(ApplyAll(Create(c, rcvWnd), cs), more).cc.cwnd == w
  {
    hide ApplyAll, Coupled, NoWrap, Opens, EndpointOk, CalmRun, Acknowledged;
    var k := ApplyAll(Create(c, rcvWnd), cs);
    EveryRun(c, rcvWnd, cs);
    WindowRun(c, rcvWnd, cs, limit);
    OpensRun(k, more, w, limit);
    Filled(k.cc, ApplyAll(k, more).cc, w, c.mss, Acknowledged(k, more), limit);
  }
}
