/** Cutting messages into fragments and putting them together again. */
module KcpMessages {
  import opened Serial
  import opened KcpWire
  import opened KcpReceiver

  type Message = seq<byte>

  /** What of a segment belongs to a message. */
  datatype Fragment = Fragment(frg: int, data: seq<byte>)

  function Content(seg: Segment): Fragment {
    Fragment(seg.frg, seg.data)
  }

  function Contents(segs: seq<Segment>): (r: seq<Fragment>)
    ensures |r| == |segs|
    ensures forall i :: 0 <= i < |segs| ==> r[i] == Content(segs[i])
  {
    seq(|segs|, i requires 0 <= i < |segs| => Content(segs[i]))
  }

  // ----- ikcp_send

  /** The fragments of a message: all but the last have `mss` bytes, and `frg`
      counts how many are still to come. */
  function Fragments(msg: Message, mss: nat): (r: seq<Fragment>)
    requires mss > 0
    ensures r != [] && r[0].frg == |r| - 1
    decreases |msg|
  {
    if |msg| <= mss then [Fragment(0, msg)]
    else
      var rest := Fragments(msg[mss..], mss);
      [Fragment(|rest|, msg[..mss])] + rest
  }

  /** The number of fragments as `ikcp_send` computes it. */
  function FragmentCount(len: nat, mss: nat): nat
    requires mss > 0
  {
    if len <= mss then 1 else (len + mss - 1) / mss
  }

  lemma DivideStep(x: int, m: int)
    requires m > 0
    ensures (x + m) / m == x / m + 1
  {
    assert x + m == (x / m + 1) * m + x % m;
    Quotient(x + m, m, x / m + 1, x % m);
  }

  /** The count computed up front is the number of fragments made. */
  lemma {:induction false} CountFragments(msg: Message, mss: nat)
    requires mss > 0
    ensures |Fragments(msg, mss)| == FragmentCount(|msg|, mss)
    decreases |msg|
  {
    if |msg| > mss {
      CountFragments(msg[mss..], mss);
      DivideStep(|msg| - 1, mss);
      if |msg| - mss <= mss {
        Quotient(|msg| - 1, mss, 1, |msg| - 1 - mss);
      }
    }
  }

  /** Every fragment fits one segment and counts down to the end of its message. */
  lemma {:induction false} FragmentShape(msg: Message, mss: nat, i: nat)
    requires mss > 0 && i < |Fragments(msg, mss)|
    ensures var fs := Fragments(msg, mss); |fs[i].data| <= mss && fs[i].frg == |fs| - 1 - i
    decreases |msg|
  {
    if |msg| > mss && i > 0 {
      FragmentShape(msg[mss..], mss, i - 1);
    }
  }

  /** All fragments of a list of messages. */
  function Stream(msgs: seq<Message>, mss: nat): seq<Fragment>
    requires mss > 0
  {
    if msgs == [] then [] else Fragments(msgs[0], mss) + Stream(msgs[1..], mss)
  }

  lemma {:induction false} StreamConcat(xs: seq<Message>, ys: seq<Message>, mss: nat)
    requires mss > 0
    ensures Stream(xs + ys, mss) == Stream(xs, mss) + Stream(ys, mss)
  {
    if xs == [] {
      assert xs + ys == ys;
    } else {
      assert (xs + ys)[1..] == xs[1..] + ys;
      StreamConcat(xs[1..], ys, mss);
    }
  }

  lemma StreamAppend(msgs: seq<Message>, msg: Message, mss: nat)
    requires mss > 0
    ensures Stream(msgs + [msg], mss) == Stream(msgs, mss) + Fragments(msg, mss)
  {
    StreamConcat(msgs, [msg], mss);
    assert Stream([msg], mss) == Fragments(msg, mss) + Stream([], mss);
  }

  // ----- ikcp_peeksize and ikcp_recv

  /** How many segments the merging loop takes: up to the first with `frg == 0`. */
  function Span(q: seq<Segment>): (n: nat)
    ensures n <= |q| && (q != [] ==> n > 0)
  {
    if q == [] then 0 else if q[0].frg == 0 then 1 else 1 + Span(q[1..])
  }

  function Gather(q: seq<Segment>): (msg: Message) {
    if q == [] then [] else q[0].data + Gather(q[1..])
  }

  function Sizes(q: seq<Segment>): (n: nat)
    ensures n == |Gather(q)|
  {
    if q == [] then 0 else |q[0].data| + Sizes(q[1..])
  }

  function PeekSize(r: Rcv): int {
    if r.queue == [] then -1
    else if r.queue[0].frg == 0 then |r.queue[0].data|
    else if r.nque < r.queue[0].frg + 1 then -1
    else Sizes(r.queue[..Span(r.queue)])
  }

  /** `tell` is set when the caller must announce that the window has opened. */
  datatype Received = Received(r: Rcv, rc: int, data: Message, tell: bool)

  function Take(r: Rcv, n: nat): Rcv
    requires n <= |r.queue|
  {
    r.(queue := r.queue[n..], nque := Sub32(r.nque, Wrap(n)))
  }

  /** `ikcp_recv`; a negative `len` peeks. */
  function Recv(r: Rcv, len: int): Received {
    if r.queue == [] then Received(r, -1, [], false)
    else if PeekSize(r) < 0 then Received(r, -2, [], false)
    else if PeekSize(r) > (if len < 0 then -len else len) then Received(r, -3, [], false)
    else
      var n := Span(r.queue);
      var msg := Gather(r.queue[..n]);
      var r' := Drain(if len < 0 then r else Take(r, n));
      Received(r', |msg|, msg, r.nque >= r.wnd && r'.nque < r'.wnd)
  }

  /** The length that `ikcp_recv` merges is the length it peeked, whatever the
      peer has sent. */
  lemma RecvLength(r: Rcv, len: int)
    requires Recv(r, len).rc >= 0
    ensures Recv(r, len).rc == PeekSize(r) == |Recv(r, len).data|
  {
    var n := Span(r.queue);
    if r.queue[0].frg == 0 {
      assert r.queue[..1] == [r.queue[0]];
      assert Gather([r.queue[0]]) == r.queue[0].data + Gather([]);
    }
  }

  /** The return codes of `ikcp_recv`: nothing there, nothing complete, no room in the caller's buffer, or the length
      of the message.  A failure changes nothing. */
  lemma RecvCodes(r: Rcv, len: int)
    ensures var got := Recv(r, len);
      && (got.rc == -1 <==> r.queue == [])
      && (got.rc == -2 <==> r.queue != [] && PeekSize(r) < 0)
      && (got.rc == -3 <==> PeekSize(r) >= 0 && PeekSize(r) > (if len < 0 then -len else len))
      && (got.rc >= 0 <==> 0 <= PeekSize(r) <= (if len < 0 then -len else len))
      && (got.rc < 0 ==> -3 <= got.rc && got.r == r && got.data == [] && !got.tell)
  {
    if Recv(r, len).rc >= 0 {
      RecvLength(r, len);
    }
  }

  // ----- round trip

  /** Merging the fragments of a message, possibly followed by others, gives it back. */
  lemma {:induction false} MergeFragments(q: seq<Segment>, msg: Message, mss: nat, more: seq<Fragment>)
    requires mss > 0 && Contents(q) == Fragments(msg, mss) + more
    ensures Span(q) == |Fragments(msg, mss)|
    ensures Gather(q[..Span(q)]) == msg
    decreases |msg|
  {
    var fs := Fragments(msg, mss);
    assert Content(q[0]) == Contents(q)[0] == fs[0];
    if |msg| <= mss {
      assert q[..1] == [q[0]];
      assert Gather([q[0]]) == q[0].data + Gather([]);
    } else {
      assert Contents(q[1..]) == Contents(q)[1..] == fs[1..] + more;
      MergeFragments(q[1..], msg[mss..], mss, more);
      var n := Span(q);
      assert q[..n][1..] == q[1..][..n - 1];
      assert msg == msg[..mss] + msg[mss..];
    }
  }

  /** A receiver whose queue holds a part of a stream that starts at a message
      boundary can deliver if and only if the first message is complete. */
  lemma PeekMeans(r: Rcv, msg: Message, mss: nat, stream: seq<Fragment>)
    requires mss > 0 && r.queue != [] && r.nque == |r.queue|
    requires Fragments(msg, mss) <= stream && Contents(r.queue) <= stream
    ensures PeekSize(r) >= 0 <==> |r.queue| >= |Fragments(msg, mss)|
    ensures PeekSize(r) >= 0 ==> PeekSize(r) == |msg|
  {
    var fs := Fragments(msg, mss);
    assert Content(r.queue[0]) == Contents(r.queue)[0] == stream[0] == fs[0];
    if |r.queue| >= |fs| {
      MergeFragments(r.queue, msg, mss, Contents(r.queue)[|fs|..]);
      if r.queue[0].frg == 0 {
        assert r.queue[..1] == [r.queue[0]];
        assert Gather([r.queue[0]]) == r.queue[0].data + Gather([]);
      }
    }
  }

  /** The return codes and messages of one `ikcp_recv` after the other. */
  function RecvAll(r: Rcv, lens: seq<nat>): seq<(int, Message)>
    decreases |lens|
  {
    if lens == [] then [] else
    var got := Recv(r, lens[0]);
    [(got.rc, got.data)] + RecvAll(got.r, lens[1..])
  }

  function Results(msgs: seq<Message>): seq<(int, Message)> {
    if msgs == [] then [] else [(|msgs[0]|, msgs[0])] + Results(msgs[1..])
  }

  lemma RecvFirst(r: Rcv, msgs: seq<Message>, mss: nat, len: nat)
    requires mss > 0 && msgs != [] && r.buf == [] && r.nque == |r.queue| && Contents(r.queue) == Stream(msgs, mss)
    requires len >= |msgs[0]|
    ensures var got := Recv(r, len);
      && got.rc == |msgs[0]| && got.data == msgs[0]
      && got.r.buf == [] && got.r.nque == |got.r.queue| && Contents(got.r.queue) == Stream(msgs[1..], mss)
  {
    hide Fragments;
    var fs := Fragments(msgs[0], mss);
    PeekMeans(r, msgs[0], mss, Stream(msgs, mss));
    MergeFragments(r.queue, msgs[0], mss, Stream(msgs[1..], mss));
    var n := Span(r.queue);
    assert Contents(r.queue[n..]) == Contents(r.queue)[n..] == Stream(msgs[1..], mss);
  }

  /** Fragmentation round trip: from the fragments of any list of messages, in order, `ikcp_recv` returns
      these messages, one a call, each with its length. */
  lemma {:induction false} RecvStream(r: Rcv, msgs: seq<Message>, mss: nat, lens: seq<nat>)
    requires mss > 0 && r.buf == [] && r.nque == |r.queue| && Contents(r.queue) == Stream(msgs, mss)
    requires |lens| == |msgs| && forall i :: 0 <= i < |lens| ==> lens[i] >= |msgs[i]|
    ensures RecvAll(r, lens) == Results(msgs)
    decreases |msgs|
  {
    if msgs != [] {
      RecvFirst(r, msgs, mss, lens[0]);
      hide Recv, Stream;
      RecvStream(Recv(r, lens[0]).r, msgs[1..], mss, lens[1..]);
    }
  }
}
