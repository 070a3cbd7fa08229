/** The KCP control block as the object that the calls update in place.  Every
    method is proved against the function of `KcpControl` that says what it
    makes of the value of the object. */
module KcpEndpoint {
  import opened Serial
  import opened KcpWire
  import R = KcpReceiver
  import opened KcpMessages
  import S = KcpSender
  import opened KcpTiming
  import opened KcpCongestion
  import opened KcpPacking
  import opened KcpControl
  import opened KcpInvariant
  import opened KcpRuns

  // ----- the loops, unfolded from the other end

  lemma {:induction false} SpanSplit(q: seq<Segment>, i: nat)
    requires i <= |q| && forall j :: 0 <= j < i ==> q[j].frg != 0
    ensures Span(q) == i + Span(q[i..])
  {
    if i > 0 {
      SpanSplit(q[1..], i - 1);
      assert q[1..][i - 1..] == q[i..];
    } else {
      assert q[0..] == q;
    }
  }

  /** The merging loops stop behind the first segment with `frg == 0`, or at the end. */
  lemma SpanAt(q: seq<Segment>, i: nat)
    requires i <= |q| && forall j :: 0 <= j < i ==> q[j].frg != 0
    ensures i == |q| ==> Span(q) == i
    ensures i < |q| && q[i].frg == 0 ==> Span(q) == i + 1
  {
    SpanSplit(q, i);
  }

  lemma {:induction false} GatherAppend(q: seq<Segment>, seg: Segment)
    ensures Gather(q + [seg]) == Gather(q) + seg.data
  {
    if q == [] {
      assert Gather([seg]) == seg.data + Gather([]);
    } else {
      assert (q + [seg])[1..] == q[1..] + [seg];
      GatherAppend(q[1..], seg);
    }
  }

  lemma FragmentStep(fs: seq<KcpMessages.Fragment>, i: nat, rest: Message, mss: nat)
    requires mss > 0 && i < |fs| && fs[i..] == Fragments(rest, mss)
    ensures var size := if |rest| > mss then mss else |rest|;
      && fs[i] == KcpMessages.Fragment(|fs| - i - 1, rest[..size])
      && (i + 1 < |fs| ==> fs[i + 1..] == Fragments(rest[size..], mss))
  {
    assert fs[i] == fs[i..][0] && fs[i + 1..] == fs[i..][1..];
  }

  lemma NewSegmentAt(fs: seq<KcpMessages.Fragment>, i: nat)
    requires i < |fs| && forall j :: 0 <= j < |fs| ==> 0 <= fs[j].frg < 256
    ensures S.NewSegments(fs)[i] == S.NewSegment(fs[i])
  {}

  lemma QueueNext(queue: seq<Segment>, segs: seq<Segment>, i: nat)
    requires i < |segs|
    ensures queue + segs[..i] + [segs[i]] == queue + segs[..i + 1]
  {}

  lemma GatherNothing()
    ensures Gather([]) == []
  {}

  lemma BumpStep(buf: seq<Segment>, sn: u32, i: nat)
    requires i < |buf| && Diff32(sn, buf[i].sn) >= 0
    requires S.BumpFastack(buf, sn)[i..] == S.BumpFastack(buf[i..], sn)
    ensures S.BumpFastack(buf, sn)[i] ==
      if sn != buf[i].sn then buf[i].(fastack := Add32(buf[i].fastack, 1)) else buf[i]
    ensures S.BumpFastack(buf, sn)[i + 1..] == S.BumpFastack(buf[i + 1..], sn)
  {
    var goal := S.BumpFastack(buf, sn);
    assert buf[i..][1..] == buf[i + 1..];
    assert goal[i] == goal[i..][0] && goal[i + 1..] == goal[i..][1..];
  }

  lemma BumpStop(buf: seq<Segment>, sn: u32)
    requires buf != [] && Diff32(sn, buf[0].sn) < 0
    ensures S.BumpFastack(buf, sn) == buf
  {}

  class Kcp {
    const cfg: Config
    const buffer: array<byte>

    var snd: S.Snd
    var rcv: R.Rcv
    var rtt: Rtt
    var cc: Cc
    var acklist: seq<Ack>
    var probe: Probe
    var rmtWnd: u32
    var current: u32
    var tsFlush: u32
    var updated: bool
    var state: u32
    var xmit: u32

    // ----- the value of the object

    ghost function View(): Kcb
      reads this
    {
      Kcb(cfg, snd, rcv, rtt, cc, acklist, probe, rmtWnd, current, tsFlush, updated, state, xmit)
    }

    /** The object has the value `k`. */
    ghost predicate Is(k: Kcb)
      reads this
    {
      && cfg == k.cfg && snd == k.snd && rcv == k.rcv && rtt == k.rtt && cc == k.cc
      && acklist == k.acks && probe == k.probe && rmtWnd == k.rmtWnd && current == k.current
      && tsFlush == k.tsFlush && updated == k.updated && state == k.state && xmit == k.xmit
    }

    ghost predicate Valid()
      reads this
    {
      EndpointOk(View()) && buffer.Length == 3 * (cfg.mtu + OVERHEAD)
    }

    constructor (c: Config, wnd: u32)
      requires ValidConfig(c) && wnd < TWO31
      ensures Valid() && View() == Create(c, wnd) && fresh(buffer)
    {
      cfg := c;
      buffer := new byte[3 * (c.mtu + OVERHEAD)];
      snd := S.Snd(0, 0, [], [], 0, 0);
      rcv := R.Rcv(0, Max(wnd, R.WND_RCV), [], [], 0, 0);
      rtt := Rtt(0, 0, 200, if c.nodelay == 0 then RTO_MIN else RTO_NDL);
      cc := Cc(0, 0, THRESH_MIN);
      acklist, probe, rmtWnd := [], Probe(false, false, 0, 0), R.WND_RCV;
      current, tsFlush, updated, state, xmit := 0, c.interval, false, 0, 0;
      new;
      CreateOk(c, wnd);
    }

    // ----- ikcp_peeksize and ikcp_recv

    method Peek() returns (size: int)
      ensures size == PeekSize(rcv)
    {
      if rcv.queue == [] { return -1; }
      if rcv.queue[0].frg == 0 { return |rcv.queue[0].data|; }
      if rcv.nque < rcv.queue[0].frg + 1 { return -1; }
      size := 0;
      var i := 0;
      while i < |rcv.queue|
        invariant 0 <= i <= |rcv.queue|
        invariant forall j :: 0 <= j < i ==> rcv.queue[j].frg != 0
        invariant size == |Gather(rcv.queue[..i])|
      {
        assert rcv.queue[..i + 1] == rcv.queue[..i] + [rcv.queue[i]];
        GatherAppend(rcv.queue[..i], rcv.queue[i]);
        size := size + |rcv.queue[i].data|;
        if rcv.queue[i].frg == 0 {
          SpanSplit(rcv.queue, i);
          return;
        }
        i := i + 1;
      }
      SpanSplit(rcv.queue, i);
    }

    /** The loop that both `ikcp_parse_data` and `ikcp_recv` end with. */
    method MoveReady()
      modifies `rcv
      ensures rcv == R.Drain(old(rcv))
    {
      while rcv.buf != [] && rcv.buf[0].sn == rcv.nxt && rcv.nque < rcv.wnd
        invariant R.Drain(rcv) == R.Drain(old(rcv))
        decreases |rcv.buf|
      {
        var seg := rcv.buf[0];
        rcv := rcv.(buf := rcv.buf[1..], nbuf := Sub32(rcv.nbuf, 1));
        rcv := rcv.(queue := rcv.queue + [seg], nque := Add32(rcv.nque, 1));
        rcv := rcv.(nxt := Add32(rcv.nxt, 1));
      }
    }

    /** The merging loop of `ikcp_recv`, which removes what it merges unless it peeks. */
    method Merge(peek: bool) returns (data: Message)
      requires rcv.nque == |rcv.queue|
      modifies `rcv
      ensures data == Gather(old(rcv.queue)[..Span(old(rcv.queue))])
      ensures rcv == if peek then old(rcv) else Take(old(rcv), Span(old(rcv.queue)))
    {
      hide Span, Gather;
      ghost var q, r := rcv.queue, rcv;
      data := [];
      var i, n := 0, |rcv.queue|;
      GatherNothing();
      while i < n
        invariant 0 <= i <= n == |q|
        invariant forall j :: 0 <= j < i ==> q[j].frg != 0
        invariant data == Gather(q[..i])
        invariant rcv == if peek then r else r.(queue := q[i..], nque := n - i)
      {
        var seg := rcv.queue[if peek then i else 0];
        assert seg == q[i] && q[..i + 1] == q[..i] + [q[i]];
        GatherAppend(q[..i], q[i]);
        SpanAt(q, i);
        data := data + seg.data;
        if !peek {
          rcv := rcv.(queue := rcv.queue[1..], nque := Sub32(rcv.nque, 1));
        }
        i := i + 1;
        if seg.frg == 0 { return; }
      }
      SpanAt(q, i);
      assert q[..i] == q;
    }

    /** What `ikcp_recv` does once it knows that a message is complete and fits. */
    method Deliver(peek: bool) returns (data: Message)
      requires rcv.nque == |rcv.queue|
      modifies `rcv, `probe
      ensures data == Gather(old(rcv.queue)[..Span(old(rcv.queue))])
      ensures rcv == R.Drain(if peek then old(rcv) else Take(old(rcv), Span(old(rcv.queue))))
      ensures probe ==
        if old(rcv.nque) >= old(rcv.wnd) && rcv.nque < rcv.wnd then old(probe).(askTell := true) else old(probe)
    {
      hide Span, Gather, R.Drain;
      var recover := rcv.nque >= rcv.wnd;
      data := Merge(peek);
      MoveReady();
      if rcv.nque < rcv.wnd && recover {
        probe := probe.(askTell := true);
      }
    }

    method Receive(len: int) returns (rc: int, data: Message)
      requires Valid()
      modifies `rcv, `probe
      ensures Valid()
      ensures Is(ReceiveMessage(old(View()), len).0)
      ensures rc == ReceiveMessage(old(View()), len).1 && data == ReceiveMessage(old(View()), len).2
    {
      hide EndpointOk, Span, Gather, PeekSize, R.Drain;
      ghost var k := View();
      ReceiveOk(k, len);
      RecvLengthAll(k.rcv, len);
      data := [];
      var peeksize := Peek();
      if rcv.queue == [] {
        rc := -1;
      } else if peeksize < 0 {
        rc := -2;
      } else if peeksize > (if len < 0 then -len else len) {
        rc := -3;
      } else {
        data := Deliver(len < 0);
        rc := |data|;
        assert rc == peeksize;
      }
      ghost var r := Recv(k.rcv, len);
      assert rcv == r.r && rc == r.rc && data == r.data;
    }

    // ----- ikcp_send

    method Send(msg: Message) returns (rc: int)
      requires Valid()
      modifies `snd
      ensures Valid()
      ensures Is(SendMessage(old(View()), msg).0) && rc == SendMessage(old(View()), msg).1
    {
      SendOk(View(), msg);
      CountFragments(msg, cfg.mss);
      var count := if |msg| <= cfg.mss then 1 else (|msg| + cfg.mss - 1) / cfg.mss;
      if count >= S.MAX_COUNT { return -2; }
      S.AcceptedFragments(msg, cfg.mss);
      Fragment(msg, count);
      rc := 0;
    }

    /** The fragmenting loop of `ikcp_send`. */
    method Fragment(msg: Message, count: nat)
      requires cfg.mss > 0 && S.Accepts(msg, cfg.mss) && count == |Fragments(msg, cfg.mss)|
      modifies `snd
      ensures snd == S.Send(old(snd), msg, cfg.mss).0
    {
      S.AcceptedFragments(msg, cfg.mss);
      ghost var fs := Fragments(msg, cfg.mss);
      ghost var segs := S.NewSegments(fs);
      AddZero(snd.nque);
      hide S.Accepts, Fragments, S.NewSegments, S.NewSegment, Add32;
      var i, rest := 0, msg;
      assert fs[0..] == fs && segs[..0] == [];
      while i < count
        invariant 0 <= i <= count == |fs|
        invariant i < count ==> fs[i..] == Fragments(rest, cfg.mss)
        invariant snd == old(snd).(queue := old(snd.queue) + segs[..i], nque := Add32(old(snd.nque), i))
      {
        FragmentStep(fs, i, rest, cfg.mss);
        NewSegmentAt(fs, i);
        AddNext(old(snd.nque), i);
        var size := if |rest| > cfg.mss then cfg.mss else |rest|;
        var seg := S.NewSegment(KcpMessages.Fragment(count - i - 1, rest[..size]));
        QueueNext(old(snd.queue), segs, i);
        snd := snd.(queue := snd.queue + [seg], nque := Add32(snd.nque, 1));
        rest := rest[size..];
        i := i + 1;
      }
      assert segs[..count] == segs;
    }

    // ----- ikcp_shrink_buf, ikcp_parse_una, ikcp_parse_ack, ikcp_parse_fastack

    method ShrinkBuf()
      modifies `snd
      ensures snd == S.Shrink(old(snd))
    {
      if snd.buf != [] {
        snd := snd.(una := snd.buf[0].sn);
      } else {
        snd := snd.(una := snd.nxt);
      }
    }

    method ParseUna(una: u32)
      requires snd.nbuf == |snd.buf|
      modifies `snd
      ensures snd == S.ParseUna(old(snd), una)
    {
      ghost var buf, k := snd.buf, S.AckedPrefix(snd.buf, una);
      ghost var i := 0;
      while snd.buf != [] && Diff32(una, snd.buf[0].sn) > 0
        invariant 0 <= i <= |buf| && k == i + S.AckedPrefix(snd.buf, una)
        invariant snd == old(snd).(buf := buf[i..], nbuf := |buf| - i)
        decreases |snd.buf|
      {
        snd := snd.(buf := snd.buf[1..], nbuf := Sub32(snd.nbuf, 1));
        i := i + 1;
      }
    }

    method ParseAck(sn: u32)
      modifies `snd
      ensures snd == S.ParseAck(old(snd), sn)
    {
      if Diff32(sn, snd.una) < 0 || Diff32(sn, snd.nxt) >= 0 { return; }
      var i := 0;
      while i < |snd.buf|
        invariant 0 <= i <= |snd.buf|
        invariant snd == old(snd) && S.AckIndex(snd.buf, sn) == i + S.AckIndex(snd.buf[i..], sn)
      {
        if sn == snd.buf[i].sn {
          snd := snd.(buf := snd.buf[..i] + snd.buf[i + 1..], nbuf := Sub32(snd.nbuf, 1));
          return;
        }
        if Diff32(sn, snd.buf[i].sn) < 0 { return; }
        assert snd.buf[i..][1..] == snd.buf[i + 1..];
        i := i + 1;
      }
    }

    method ParseFastack(sn: u32)
      modifies `snd
      ensures snd == S.ParseFastack(old(snd), sn)
    {
      hide S.BumpFastack;
      if Diff32(sn, snd.una) < 0 || Diff32(sn, snd.nxt) >= 0 { return; }
      Bump(sn);
    }

    method Bump(sn: u32)
      modifies `snd
      ensures snd == old(snd).(buf := S.BumpFastack(old(snd.buf), sn))
    {
      hide *;
      ghost var buf, goal := snd.buf, S.BumpFastack(snd.buf, sn);
      var i := 0;
      while i < |snd.buf|
        invariant 0 <= i <= |snd.buf| == |buf|
        invariant snd == old(snd).(buf := goal[..i] + buf[i..]) && goal[i..] == S.BumpFastack(buf[i..], sn)
      {
        var seg := snd.buf[i];
        assert seg == buf[i];
        if Diff32(sn, seg.sn) < 0 {
          BumpStop(buf[i..], sn);
          return;
        }
        BumpStep(buf, sn, i);
        ReplaceNext(goal, buf, i);
        snd := snd.(buf := snd.buf[i := if sn != seg.sn then seg.(fastack := Add32(seg.fastack, 1)) else seg]);
        i := i + 1;
      }
    }

    // ----- ikcp_update_ack and ikcp_parse_data

    method UpdateRtt(sample: i32)
      modifies `rtt
      ensures rtt == UpdateAck(old(rtt), sample, cfg.interval)
    {
      if rtt.srtt == 0 {
        rtt := rtt.(srtt := sample, rttval := TruncDiv(sample, 2));
      } else {
        var delta := I32(sample - rtt.srtt);
        rtt := rtt.(rttval := I32(TruncDiv(I32(3 * rtt.rttval) + Abs(delta), 4)));
        rtt := rtt.(srtt := TruncDiv(I32(I32(7 * rtt.srtt) + sample), 8));
        if rtt.srtt < 1 { rtt := rtt.(srtt := 1); }
      }
      var rto := Add32(Wrap(rtt.srtt), Max(cfg.interval, Wrap(I32(4 * rtt.rttval))));
      rtt := rtt.(rto := Bound(rtt.minrto, rto, RTO_MAX));
    }

    method ParseData(seg: Segment)
      modifies `rcv
      ensures rcv == R.ParseData(old(rcv), seg)
    {
      var sn := seg.sn;
      if Diff32(sn, Add32(rcv.nxt, rcv.wnd)) >= 0 || Diff32(sn, rcv.nxt) < 0 { return; }
      var p, repeated := |rcv.buf|, false;
      assert rcv.buf[..p] == rcv.buf;
      while p > 0
        invariant 0 <= p <= |rcv.buf| && !repeated
        invariant R.Scan(rcv.buf, sn) == R.Scan(rcv.buf[..p], sn)
        decreases p
      {
        if rcv.buf[p - 1].sn == sn {
          repeated := true;
          break;
        }
        if Diff32(sn, rcv.buf[p - 1].sn) > 0 { break; }
        assert rcv.buf[..p][..p - 1] == rcv.buf[..p - 1];
        p := p - 1;
      }
      assert p == R.Scan(rcv.buf, sn) && repeated == R.Repeats(rcv.buf, sn);
      if !repeated {
        rcv := rcv.(buf := rcv.buf[..p] + [seg] + rcv.buf[p..], nbuf := Add32(rcv.nbuf, 1));
      }
      MoveReady();
    }

    // ----- ikcp_input

    method OnPushSegment(seg: Segment)
      modifies `acklist, `rcv
      ensures Is(OnPush(old(View()), seg))
    {
      hide R.ParseData;
      if Diff32(seg.sn, Add32(rcv.nxt, rcv.wnd)) < 0 {
        acklist := acklist + [Ack(seg.sn, seg.ts)];
        if Diff32(seg.sn, rcv.nxt) >= 0 {
          ParseData(seg);
        }
      }
    }

    method OnAckSegment(seg: Segment)
      modifies `rtt, `snd
      ensures Is(OnAck(old(View()), seg))
    {
      hide UpdateAck, S.ParseAck;
      if Diff32(current, seg.ts) >= 0 {
        UpdateRtt(Diff32(current, seg.ts));
      }
      ParseAck(seg.sn);
      ShrinkBuf();
    }

    /** One turn of the loop, after the header has been decoded. */
    method HandleSegment(seg: Segment)
      requires snd.nbuf == |snd.buf|
      modifies this
      ensures Is(OnSegment(old(View()), seg))
    {
      hide S.ParseUna, OnPush, OnAck;
      rmtWnd := seg.wnd;
      ParseUna(seg.una);
      ShrinkBuf();
      if seg.cmd == CMD_ACK {
        OnAckSegment(seg);
      } else if seg.cmd == CMD_PUSH {
        OnPushSegment(seg);
      } else if seg.cmd == CMD_WASK {
        probe := probe.(askTell := true);
      }
    }

    method GrowWindow()
      requires cfg.mss > 0
      modifies `cc
      ensures cc == OnAdvance(old(cc), rmtWnd, cfg.mss)
    {
      var mss := cfg.mss;
      hide Div32, Mul32;
      if cc.cwnd < rmtWnd {
        if cc.cwnd < cc.ssthresh {
          cc := cc.(cwnd := Add32(cc.cwnd, 1), incr := Add32(cc.incr, mss));
        } else {
          if cc.incr < mss { cc := cc.(incr := mss); }
          cc := cc.(incr := Add32(cc.incr, Add32(Div32(Mul32(mss, mss), cc.incr), mss / 16)));
          if Mul32(Add32(cc.cwnd, 1), mss) <= cc.incr {
            cc := cc.(cwnd := Div32(Sub32(Add32(cc.incr, mss), 1), mss));
          }
        }
        if cc.cwnd > rmtWnd {
          cc := cc.(cwnd := rmtWnd, incr := Mul32(rmtWnd, mss));
        }
      }
    }

    method FinishInput(maxack: MaxAck, prevUna: u32)
      requires cfg.mss > 0
      modifies `snd, `cc
      ensures Is(Finish(old(View()), maxack, prevUna))
    {
      hide S.ParseFastack, OnAdvance;
      if maxack.Some? {
        ParseFastack(maxack.sn);
      }
      if Diff32(snd.una, prevUna) > 0 {
        GrowWindow();
      }
    }

    /** The loop of `ikcp_input`. */
    method InputLoop(data: Datagram) returns (maxack: MaxAck, rc: int)
      requires EndpointOk(View())
      modifies this
      ensures EndpointOk(View()) && rc == Unpack(cfg.conv, data).rc
      ensures Is(OnSegments(old(View()), Unpack(cfg.conv, data).segs))
      ensures rc == 0 ==> maxack == MaxAcks(None, Unpack(cfg.conv, data).segs)
    {
      hide EndpointOk, OnSegment, Unpack, Parse;
      ghost var k0, u := View(), Unpack(cfg.conv, data);
      var pos := 0;
      maxack := MaxAck.None;
      assert data[0..] == data;
      while |data| - pos >= OVERHEAD
        invariant 0 <= pos <= |data| && EndpointOk(View())
        invariant OnSegments(View(), Unpack(cfg.conv, data[pos..]).segs) == OnSegments(k0, u.segs)
        invariant MaxAcks(maxack, Unpack(cfg.conv, data[pos..]).segs) == MaxAcks(None, u.segs)
        invariant Unpack(cfg.conv, data[pos..]).rc == u.rc
        decreases |data| - pos
      {
        var p := Parse(cfg.conv, data[pos..]);
        UnpackStep(cfg.conv, data[pos..]);
        if p.Bad? { return maxack, p.rc; }
        assert data[pos..][p.size..] == data[pos + p.size..];
        SegmentStep(View(), p.seg);
        HandleSegment(p.seg);
        maxack := NextMaxAck(maxack, p.seg);
        pos := pos + p.size;
      }
      UnpackStep(cfg.conv, data[pos..]);
      rc := 0;
    }

    method Input(data: Datagram) returns (rc: int)
      requires Valid()
      modifies this
      ensures Valid()
      ensures Is(KcpControl.Input(old(View()), data).0) && rc == KcpControl.Input(old(View()), data).1
    {
      hide EndpointOk, OnSegments, Unpack, Finish, MaxAcks;
      MssPositive(View());
      if Signed(Wrap(|data|)) < OVERHEAD { return -1; }
      InputOk(View(), data);
      var prevUna := snd.una;
      var maxack, code := InputLoop(data);
      if code == 0 {
        FinishInput(maxack, prevUna);
      }
      rc := code;
    }

    // ----- writing segments into the buffer

    /** `memcpy` into the buffer. */
    method Write(pos: nat, bytes: seq<byte>) returns (end: nat)
      requires pos + |bytes| <= buffer.Length
      modifies buffer
      ensures end == pos + |bytes| && buffer[..end] == old(buffer[..pos]) + bytes
    {
      var i := 0;
      while i < |bytes|
        invariant 0 <= i <= |bytes|
        invariant buffer[..pos + i] == old(buffer[..pos]) + bytes[..i]
      {
        buffer[pos + i] := bytes[i];
        i := i + 1;
      }
      end := pos + |bytes|;
    }

    /** `Write` behind what an encoder has already written. */
    method Append(pos: nat, bytes: seq<byte>, ghost base: seq<byte>, ghost done: seq<byte>) returns (end: nat)
      requires pos + |bytes| <= buffer.Length && buffer[..pos] == base + done
      modifies buffer
      ensures end == pos + |bytes| && buffer[..end] == base + (done + bytes)
    {
      end := Write(pos, bytes);
      assert base + done + bytes == base + (done + bytes);
    }

    method EncodeSegment(pos: nat, seg: Segment) returns (end: nat)
      requires pos + OVERHEAD + |seg.data| <= buffer.Length
      modifies buffer
      ensures end == pos + OVERHEAD + |seg.data| && buffer[..end] == old(buffer[..pos]) + Encode(seg)
    {
      hide Encode32, Encode16;
      ghost var base := buffer[..pos];
      var conv, wnd, ts, sn := Encode32(seg.conv), Encode16(seg.wnd), Encode32(seg.ts), Encode32(seg.sn);
      var una, len := Encode32(seg.una), Encode32(Wrap(|seg.data|));
      ghost var h1 := [] + conv + [seg.cmd, seg.frg];
      ghost var h2 := h1 + wnd + ts + sn;
      assert base + [] == base && [] + conv == conv;
      end := Append(pos, conv, base, []);
      end := Append(end, [seg.cmd, seg.frg], base, [] + conv);
      end := Append(end, wnd, base, h1);
      end := Append(end, ts, base, h1 + wnd);
      end := Append(end, sn, base, h1 + wnd + ts);
      end := Append(end, una, base, h2);
      end := Append(end, len, base, h2 + una);
      end := Append(end, seg.data, base, h2 + una + len);
    }

    /** Room for one more segment, and the segment. */
    method PutSegment(pos: nat, out: seq<Datagram>, seg: Segment) returns (end: nat, out': seq<Datagram>)
      requires pos <= cfg.mtu && OVERHEAD + |seg.data| <= cfg.mtu && buffer.Length == 3 * (cfg.mtu + OVERHEAD)
      modifies buffer
      ensures end <= cfg.mtu
      ensures Packer(out', buffer[..end]) == Put(Packer(out, old(buffer[..pos])), cfg.mtu, seg)
    {
      hide Encode;
      var start := pos;
      out' := out;
      if pos + OVERHEAD + |seg.data| > cfg.mtu {
        if pos > 0 { out' := out + [buffer[..pos]]; }
        start := 0;
      }
      end := EncodeSegment(start, seg);
    }

    // ----- ikcp_flush

    method FlushAcks() returns (pos: nat, out: seq<Datagram>)
      requires OVERHEAD <= cfg.mtu && buffer.Length == 3 * (cfg.mtu + OVERHEAD)
      modifies `acklist, buffer
      ensures pos <= cfg.mtu && acklist == []
      ensures Packer(out, buffer[..pos]) == PutAll(Packer([], []), cfg.mtu, AckSegments(old(View())))
    {
      hide Put;
      ghost var k, segs := View(), AckSegments(View());
      pos, out := 0, [];
      var i, wnd := 0, WndUnused(rcv);
      while i < |acklist|
        invariant 0 <= i <= |acklist| == |segs| && acklist == k.acks
        invariant pos <= cfg.mtu
        invariant Packer(out, buffer[..pos]) == PutAll(Packer([], []), cfg.mtu, segs[..i])
      {
        var seg := Segment(cfg.conv, CMD_ACK, 0, wnd, acklist[i].ts, acklist[i].sn, rcv.nxt, [], 0, 0, 0, 0);
        assert segs[..i + 1][..i] == segs[..i] && segs[i] == seg;
        pos, out := PutSegment(pos, out, seg);
        i := i + 1;
      }
      assert segs[..i] == segs;
      acklist := [];
    }

    /** `ikcp_flush` up to the probes. */
    method UpdateProbe()
      modifies `probe
      ensures probe == NextProbe(old(View()))
    {
      if rmtWnd == 0 {
        if probe.wait == 0 {
          probe := probe.(wait := PROBE_INIT, ts := Add32(current, PROBE_INIT));
        } else if Diff32(current, probe.ts) >= 0 {
          var wait := probe.wait;
          if wait < PROBE_INIT { wait := PROBE_INIT; }
          wait := Add32(wait, wait / 2);
          if wait > PROBE_LIMIT { wait := PROBE_LIMIT; }
          probe := probe.(wait := wait, ts := Add32(current, wait), askSend := true);
        }
      } else {
        probe := probe.(ts := 0, wait := 0);
      }
    }

    method AdmitSegments(window: u32, st: S.Stamp)
      modifies `snd
      ensures snd == S.Admit(old(snd), window, st)
    {
      while Diff32(snd.nxt, Add32(snd.una, window)) < 0
        invariant S.Admit(snd, window, st) == S.Admit(old(snd), window, st)
        decreases |snd.queue|
      {
        if snd.queue == [] { break; }
        var seg := snd.queue[0];
        snd := snd.(queue := snd.queue[1..], nque := Sub32(snd.nque, 1));
        seg := seg.(conv := st.conv, cmd := CMD_PUSH, wnd := st.wnd, ts := st.current, sn := snd.nxt,
                    una := st.una, resendts := st.current, rto := st.rto, fastack := 0, xmit := 0);
        snd := snd.(buf := snd.buf + [seg], nbuf := Add32(snd.nbuf, 1), nxt := Add32(snd.nxt, 1));
      }
    }

    /** What the pass over `snd_buf` does with one segment. */
    method TimeSegment(seg0: Segment, p: Pass) returns (seg: Segment, cause: Cause)
      ensures seg == Transmit(seg0, p) && cause == CauseOf(seg0, p)
    {
      seg, cause := seg0, Keep;
      var rtomin := if p.nodelay == 0 then p.rto / 8 else 0;
      if seg.xmit == 0 {
        cause := First;
        seg := seg.(xmit := Add32(seg.xmit, 1), rto := p.rto);
        seg := seg.(resendts := Add32(Add32(p.current, seg.rto), rtomin));
      } else if Diff32(p.current, seg.resendts) >= 0 {
        cause := Timeout;
        seg := seg.(xmit := Add32(seg.xmit, 1));
        if p.nodelay == 0 {
          seg := seg.(rto := Add32(seg.rto, Max(seg.rto, p.rto)));
        } else {
          var step := if p.nodelay < 2 then Signed(seg.rto) else Signed(p.rto);
          seg := seg.(rto := Add32(seg.rto, Wrap(TruncDiv(step, 2))));
        }
        seg := seg.(resendts := Add32(p.current, seg.rto));
      } else if seg.fastack >= p.resent {
        if Signed(seg.xmit) <= p.fastlimit || p.fastlimit <= 0 {
          cause := Fast;
          seg := seg.(xmit := Add32(seg.xmit, 1), fastack := 0, resendts := Add32(p.current, seg.rto));
        }
      }
      if cause != Keep {
        seg := seg.(ts := p.current, wnd := p.wnd, una := p.una);
      }
    }

    method TransmitSegment(seg0: Segment, p: Pass, pos0: nat, out0: seq<Datagram>, lost0: bool, fast0: bool,
                           ghost t: Tally, ghost start: Packer, ghost xmit0: u32, ghost state0: u32)
      returns (seg: Segment, pos: nat, out: seq<Datagram>, lost: bool, fast: bool)
      requires buffer.Length == 3 * (cfg.mtu + OVERHEAD) && OVERHEAD + |seg0.data| <= cfg.mtu
      requires pos0 <= cfg.mtu
      requires Tallied(t, cfg.mtu, start, xmit0, state0, Packer(out0, buffer[..pos0]), lost0, fast0, xmit, state)
      modifies `xmit, `state, buffer
      ensures seg == Transmit(seg0, p) && pos <= cfg.mtu
      ensures Tallied(Count(t, seg0, p, cfg.deadLink), cfg.mtu, start, xmit0, state0,
                      Packer(out, buffer[..pos]), lost, fast, xmit, state)
    {
      hide Transmit, CauseOf, Put, Add32;
      TransmitSize(seg0, p);
      AddOne(xmit0, t.timeouts);
      ghost var t' := Count(t, seg0, p, cfg.deadLink);
      var cause;
      seg, cause := TimeSegment(seg0, p);
      pos, out, lost, fast := pos0, out0, lost0 || cause == Timeout, fast0 || cause == Fast;
      if cause == Timeout { xmit := Add32(xmit, 1); }
      if cause != Keep {
        assert t'.sent[..|t'.sent| - 1] == t.sent;
        pos, out := PutSegment(pos, out, seg);
        if seg.xmit >= cfg.deadLink { state := DEAD; }
      }
    }

    method TransmitSegments(pos0: nat, out0: seq<Datagram>, p: Pass)
      returns (pos: nat, out: seq<Datagram>, lost: bool, fast: bool)
      requires pos0 <= cfg.mtu && buffer.Length == 3 * (cfg.mtu + OVERHEAD)
      requires forall i :: 0 <= i < |snd.buf| ==> OVERHEAD + |snd.buf[i].data| <= cfg.mtu
      modifies `snd, `xmit, `state, buffer
      ensures snd == old(snd).(buf := TransmitAll(old(snd.buf), p)) && pos <= cfg.mtu
      ensures Tallied(CountAll(old(snd.buf), p, cfg.deadLink), cfg.mtu, Packer(out0, old(buffer[..pos0])),
                      old(xmit), old(state), Packer(out, buffer[..pos]), lost, fast, xmit, state)
    {
      hide *;
      ghost var buf, done := snd.buf, TransmitAll(snd.buf, p);
      ghost var start := Packer(out0, buffer[..pos0]);
      pos, out, lost, fast := pos0, out0, false, false;
      TalliedNothing(cfg.mtu, p, cfg.deadLink, start, xmit, state);
      PartlyEnds(done, buf);
      var i := 0;
      while i < |snd.buf|
        invariant 0 <= i <= |buf| && snd == old(snd).(buf := Partly(done, buf, i)) && pos <= cfg.mtu
        invariant Tallied(CountAll(buf[..i], p, cfg.deadLink), cfg.mtu, start, old(xmit), old(state),
                          Packer(out, buffer[..pos]), lost, fast, xmit, state)
      {
        PartlyNext(done, buf, i);
        assert OVERHEAD + |buf[i].data| <= cfg.mtu;
        var seg;
        CountNext(buf, i, p, cfg.deadLink);
        seg, pos, out, lost, fast := TransmitSegment(snd.buf[i], p, pos, out, lost, fast,
                                                     CountAll(buf[..i], p, cfg.deadLink), start, old(xmit), old(state));
        snd := snd.(buf := snd.buf[i := seg]);
        i := i + 1;
      }
      assert buf[..i] == buf;
    }

    /** The end of `ikcp_flush`. */
    method AdjustWindow(lost: bool, fast: bool, window: u32)
      modifies `cc
      ensures cc == OnFlush(old(cc), fast, lost, Sub32(snd.nxt, snd.una), window, Resent(cfg.fastresend), cfg.mss)
    {
      hide Mul32;
      if fast {
        var flight := Sub32(snd.nxt, snd.una);
        cc := cc.(ssthresh := flight / 2);
        if cc.ssthresh < THRESH_MIN { cc := cc.(ssthresh := THRESH_MIN); }
        cc := cc.(cwnd := Add32(cc.ssthresh, Resent(cfg.fastresend)));
        cc := cc.(incr := Mul32(cc.cwnd, cfg.mss));
      }
      if lost {
        cc := cc.(ssthresh := window / 2);
        if cc.ssthresh < THRESH_MIN { cc := cc.(ssthresh := THRESH_MIN); }
        cc := cc.(cwnd := 1, incr := cfg.mss);
      }
      if cc.cwnd < 1 { cc := cc.(cwnd := 1, incr := cfg.mss); }
    }

    /** The two probes, in the header that the acknowledgements have left behind. */
    method FlushProbes(pos0: nat, out0: seq<Datagram>, last: Ack, ghost k: Kcb) returns (pos: nat, out: seq<Datagram>)
      requires pos0 <= cfg.mtu && OVERHEAD <= cfg.mtu && buffer.Length == 3 * (cfg.mtu + OVERHEAD)
      requires cfg == k.cfg && rcv == k.rcv && probe == NextProbe(k) && last == LastAck(k)
      modifies `probe, buffer
      ensures pos <= cfg.mtu && probe == NextProbe(k).(askSend := false, askTell := false)
      ensures Packer(out, buffer[..pos]) == PutAll(Packer(out0, old(buffer[..pos0])), cfg.mtu, ProbeSegments(k))
    {
      ghost var start := Packer(out0, buffer[..pos0]);
      ghost var wask, wins := Header(k, CMD_WASK, last), Header(k, CMD_WINS, last);
      PutTwo(start, cfg.mtu, wask, wins);
      pos, out := pos0, out0;
      var seg := Segment(cfg.conv, CMD_ACK, 0, WndUnused(rcv), last.ts, last.sn, rcv.nxt, [], 0, 0, 0, 0);
      hide Put, PutAll, NextProbe, LastAck;
      if probe.askSend {
        pos, out := PutSegment(pos, out, seg.(cmd := CMD_WASK));
      }
      if probe.askTell {
        pos, out := PutSegment(pos, out, seg.(cmd := CMD_WINS));
      }
      probe := probe.(askSend := false, askTell := false);
    }

    method Flush() returns (out: seq<Datagram>)
      requires Valid()
      modifies `acklist, `probe, `snd, `xmit, `state, `cc, buffer
      ensures Valid()
      ensures Is(KcpControl.Flush(old(View())).0) && out == KcpControl.Flush(old(View())).1
    {
      ghost var k := View();
      FlushOk(k);
      if !updated { return []; }
      FlushReady(k);
      out := FlushAll();
    }

    /** The acknowledgements and the probes. */
    method FlushControl() returns (pos: nat, out: seq<Datagram>)
      requires OVERHEAD <= cfg.mtu && buffer.Length == 3 * (cfg.mtu + OVERHEAD)
      modifies `acklist, `probe, buffer
      ensures pos <= cfg.mtu && acklist == [] && probe == NextProbe(old(View())).(askSend := false, askTell := false)
      ensures Packer(out, buffer[..pos]) ==
        PutAll(PutAll(Packer([], []), cfg.mtu, AckSegments(old(View()))), cfg.mtu, ProbeSegments(old(View())))
    {
      ghost var k := View();
      FlushTerms(k);
      hide AckSegments, ProbeSegments, NextProbe, LastAck, PutAll;
      var last := if acklist == [] then Ack(0, 0) else acklist[|acklist| - 1];
      pos, out := FlushAcks();
      UpdateProbe();
      pos, out := FlushProbes(pos, out, last, k);
    }

    method FlushAll() returns (out: seq<Datagram>)
      requires updated && OVERHEAD <= cfg.mtu && buffer.Length == 3 * (cfg.mtu + OVERHEAD)
      requires forall i :: 0 <= i < |AdmitAll(View()).buf| ==> OVERHEAD + |AdmitAll(View()).buf[i].data| <= cfg.mtu
      modifies `acklist, `probe, `snd, `xmit, `state, `cc, buffer
      ensures Is(KcpControl.Flush(old(View())).0) && out == KcpControl.Flush(old(View())).1
    {
      ghost var k := View();
      FlushTerms(k);
      hide S.Admit, AckSegments, ProbeSegments, NextProbe, WndUnused, Resent, UsedWindow, StampOf, PassOf,
           AdmitAll, FlushTally, CountAll, TransmitAll, Tallied, PutAll, OnFlush, KcpControl.Flush;
      var pos;
      pos, out := FlushControl();
      var window := if cfg.sndWnd <= rmtWnd then cfg.sndWnd else rmtWnd;
      if !cfg.nocwnd && cc.cwnd <= window { window := cc.cwnd; }
      assert window == UsedWindow(k);
      AdmitSegments(window, S.Stamp(cfg.conv, WndUnused(rcv), rcv.nxt, current, rtt.rto));
      assert snd == AdmitAll(k);
      var lost, fast;
      pos, out, lost, fast := TransmitSegments(pos, out,
        Pass(current, rtt.rto, Resent(cfg.fastresend), cfg.fastlimit, cfg.nodelay, WndUnused(rcv), rcv.nxt));
      AdjustWindow(lost, fast, window);
      FlushIs(k, Packer(out, buffer[..pos]), lost, fast, xmit, state, cc);
      if pos > 0 { out := out + [buffer[..pos]]; }
    }

    // ----- ikcp_update and ikcp_check

    method Update(now: u32) returns (out: seq<Datagram>)
      requires Valid()
      modifies this, buffer
      ensures Valid()
      ensures Is(KcpControl.Update(old(View()), now).0) && out == KcpControl.Update(old(View()), now).1
    {
      ghost var k := View();
      TickOk(k, now);
      hide EndpointOk, KcpControl.Flush;
      current := now;
      if !updated {
        updated := true;
        tsFlush := current;
      }
      var slap := Diff32(current, tsFlush);
      if slap >= 10000 || slap < 0 {
        tsFlush := current;
        slap := 0;
      }
      assert slap >= 0;  // whatever the clock says, an update flushes
      tsFlush := Add32(tsFlush, cfg.interval);
      if Diff32(current, tsFlush) >= 0 {
        tsFlush := Add32(current, cfg.interval);
      }
      assert View() == Tick(k, now);
      out := Flush();
    }

    method CheckTime(now: u32) returns (at: u32)
      requires Valid()
      ensures at == Check(View(), now)
    {
      hide EndpointOk;
      if !updated { return now; }
      var due := tsFlush;
      if Diff32(now, due) >= 10000 || Diff32(now, due) < -10000 { due := now; }
      if Diff32(now, due) >= 0 { return now; }
      var tmFlush, tmPacket := Diff32(due, now), 0x7FFF_FFFF;
      ghost var buf := snd.buf;
      var i := 0;
      while i < |snd.buf|
        invariant 0 <= i <= |buf| && 0 < tmPacket <= 0x7FFF_FFFF
        invariant tmPacket == Earliest(buf[..i], now, 0x7FFF_FFFF)
      {
        var diff := Diff32(snd.buf[i].resendts, now);
        assert buf[..i + 1][..i] == buf[..i];
        if diff <= 0 {
          EarliestMeans(buf, now, 0x7FFF_FFFF);
          return now;
        }
        if diff < tmPacket { tmPacket := diff; }
        i := i + 1;
      }
      assert buf[..i] == buf;
      var minimal := if tmPacket < tmFlush then tmPacket else tmFlush;
      if minimal >= cfg.interval { minimal := cfg.interval; }
      at := Add32(now, minimal);
    }
  }

  /** The quantities that a flush uses, written out. */
  lemma FlushTerms(k: Kcb)
    ensures LastAck(k) == if k.acks == [] then Ack(0, 0) else k.acks[|k.acks| - 1]
    ensures NextProbe(k.(acks := [])) == NextProbe(k)
    ensures var w := if k.cfg.sndWnd <= k.rmtWnd then k.cfg.sndWnd else k.rmtWnd;
      UsedWindow(k) == if !k.cfg.nocwnd && k.cc.cwnd <= w then k.cc.cwnd else w
    ensures StampOf(k) == S.Stamp(k.cfg.conv, WndUnused(k.rcv), k.rcv.nxt, k.current, k.rtt.rto)
    ensures PassOf(k) == Pass(k.current, k.rtt.rto, Resent(k.cfg.fastresend), k.cfg.fastlimit, k.cfg.nodelay,
                              WndUnused(k.rcv), k.rcv.nxt)
    ensures AdmitAll(k) == S.Admit(k.snd, UsedWindow(k), StampOf(k))
    ensures FlushTally(k) == CountAll(AdmitAll(k).buf, PassOf(k), k.cfg.deadLink)
  {}

  /** A flush, put together from its parts. */
  lemma FlushIs(k: Kcb, packer: Packer, lost: bool, fast: bool, xmit: u32, state: u32, cc: Cc)
    requires k.updated
    requires Tallied(FlushTally(k), k.cfg.mtu,
                     PutAll(PutAll(Packer([], []), k.cfg.mtu, AckSegments(k)), k.cfg.mtu, ProbeSegments(k)),
                     k.xmit, k.state, packer, lost, fast, xmit, state)
    requires cc == OnFlush(k.cc, fast, lost, Sub32(AdmitAll(k).nxt, AdmitAll(k).una), UsedWindow(k),
                           Resent(k.cfg.fastresend), k.cfg.mss)
    ensures KcpControl.Flush(k).0 ==
      k.(acks := [], probe := NextProbe(k).(askSend := false, askTell := false),
         snd := AdmitAll(k).(buf := TransmitAll(AdmitAll(k).buf, PassOf(k))), state := state, xmit := xmit, cc := cc)
    ensures KcpControl.Flush(k).1 == if packer.cur == [] then packer.out else packer.out + [packer.cur]
  {
    hide PutAll, AdmitAll, CountAll, TransmitAll, AckSegments, ProbeSegments, NextProbe, OnFlush, UsedWindow;
    PackThree(k.cfg.mtu, AckSegments(k), ProbeSegments(k), FlushTally(k).sent);
  }

  lemma PutTwo(start: Packer, mtu: nat, a: Segment, b: Segment)
    ensures PutAll(start, mtu, []) == start
    ensures PutAll(start, mtu, [a] + []) == Put(start, mtu, a)
    ensures PutAll(start, mtu, [] + [b]) == Put(start, mtu, b)
    ensures PutAll(start, mtu, [] + []) == start
    ensures PutAll(start, mtu, [a] + [b]) == Put(Put(start, mtu, a), mtu, b)
  {
    assert [a] + [] == [a] && [] + [b] == [b];
    assert ([a] + [b])[..1] == [a] && [a][..0] == [];
    assert PutAll(start, mtu, [a]) == Put(PutAll(start, mtu, []), mtu, a);
  }

  lemma PackThree(mtu: nat, xs: seq<Segment>, ys: seq<Segment>, zs: seq<Segment>)
    ensures Pack(mtu, xs + ys + zs) == Emit(PutAll(PutAll(PutAll(Packer([], []), mtu, xs), mtu, ys), mtu, zs)).out
  {
    PutAllConcat(Packer([], []), mtu, xs, ys);
    PutAllConcat(Packer([], []), mtu, xs + ys, zs);
  }

  lemma FlushReady(k: Kcb)
    requires EndpointOk(k)
    ensures OVERHEAD <= k.cfg.mtu
    ensures forall i :: 0 <= i < |AdmitAll(k).buf| ==> OVERHEAD + |AdmitAll(k).buf[i].data| <= k.cfg.mtu
  {
    UsedWindowSmall(k);
    AdmitOk(k.cfg, k.snd, UsedWindow(k), StampOf(k));
    forall i | 0 <= i < |AdmitAll(k).buf| ensures OVERHEAD + |AdmitAll(k).buf[i].data| <= k.cfg.mtu {
      assert SegmentOk(k.cfg, AdmitAll(k).buf[i]);
    }
  }

  /** The variables of the pass over `snd_buf` hold what the segments so far amount to. */
  ghost predicate Tallied(t: Tally, mtu: nat, start: Packer, xmit0: u32, state0: u32,
                          packer: Packer, lost: bool, fast: bool, xmit: u32, state: u32)
  {
    && packer == PutAll(start, mtu, t.sent)
    && lost == t.lost && fast == t.fast
    && xmit == Add32(xmit0, t.timeouts) && state == if t.dead then DEAD else state0
  }

  lemma AddOne(a: u32, b: u32)
    ensures Add32(Add32(a, b), 1) == Add32(a, Add32(b, 1))
  {}

  lemma AddZero(a: u32)
    ensures Add32(a, 0) == a
  {}

  lemma AddNext(a: u32, i: nat)
    requires i < TWO31
    ensures Add32(Add32(a, i), 1) == Add32(a, i + 1)
  {}

  lemma TalliedNothing(mtu: nat, p: Pass, deadLink: u32, start: Packer, xmit: u32, state: u32)
    ensures Tallied(CountAll([], p, deadLink), mtu, start, xmit, state, start, false, false, xmit, state)
  {}

  lemma CountNext(buf: seq<Segment>, i: nat, p: Pass, deadLink: u32)
    requires i < |buf|
    ensures CountAll(buf[..i + 1], p, deadLink) == Count(CountAll(buf[..i], p, deadLink), buf[i], p, deadLink)
  {
    assert buf[..i + 1][..i] == buf[..i];
  }

  lemma ReplaceNext(done: seq<Segment>, buf: seq<Segment>, i: nat)
    requires i < |buf| == |done|
    ensures (done[..i] + buf[i..])[i := done[i]] == done[..i + 1] + buf[i + 1..]
  {}

  /** A buffer of which the first `i` segments have been replaced. */
  function Partly(done: seq<Segment>, buf: seq<Segment>, i: nat): (r: seq<Segment>)
    requires i <= |buf| == |done|
    ensures |r| == |buf|
  {
    done[..i] + buf[i..]
  }

  lemma PartlyNext(done: seq<Segment>, buf: seq<Segment>, i: nat)
    requires i < |buf| == |done|
    ensures Partly(done, buf, i)[i] == buf[i]
    ensures Partly(done, buf, i)[i := done[i]] == Partly(done, buf, i + 1)
  {}

  lemma PartlyEnds(done: seq<Segment>, buf: seq<Segment>)
    requires |buf| == |done|
    ensures Partly(done, buf, 0) == buf && Partly(done, buf, |buf|) == done
  {}

  lemma TransmitSize(seg: Segment, p: Pass)
    ensures Transmit(seg, p).data == seg.data
    ensures CauseOf(seg, p).Keep? ==> Transmit(seg, p) == seg
  {}

  lemma MssPositive(k: Kcb)
    requires EndpointOk(k)
    ensures k.cfg.mss > 0
  {}

  /** The loop of `ikcp_input` decodes one segment, stops, or rejects. */
  lemma UnpackStep(conv: u32, b: seq<byte>)
    ensures |b| < OVERHEAD <==> Parse(conv, b).Done?
    ensures Parse(conv, b).Done? ==> Unpack(conv, b) == Unpacked([], 0)
    ensures Parse(conv, b).Bad? ==> Parse(conv, b).rc != 0 && Unpack(conv, b) == Unpacked([], Parse(conv, b).rc)
    ensures Parse(conv, b).Parsed? ==>
      && 0 < Parse(conv, b).size <= |b| && Parse(conv, b).seg.wnd <= 0xFFFF
      && Unpack(conv, b) == Unpacked([Parse(conv, b).seg] + Unpack(conv, b[Parse(conv, b).size..]).segs,
                                     Unpack(conv, b[Parse(conv, b).size..]).rc)
  {}

  lemma SegmentStep(k: Kcb, seg: Segment)
    requires EndpointOk(k) && seg.wnd <= 0xFFFF
    ensures EndpointOk(OnSegment(k, seg)) && k.snd.nbuf == |k.snd.buf|
  {
    OnSegmentOk(k, seg);
  }

  lemma ReceiveOk(k: Kcb, len: int)
    requires EndpointOk(k)
    ensures EndpointOk(ReceiveMessage(k, len).0) && k.rcv.nque == |k.rcv.queue|
  {
    RecvOk(k.rcv, len);
  }

  lemma RecvLengthAll(r: R.Rcv, len: int)
    ensures Recv(r, len).rc >= 0 ==> Recv(r, len).rc == PeekSize(r)
  {
    if Recv(r, len).rc >= 0 {
      RecvLength(r, len);
    }
  }
}
