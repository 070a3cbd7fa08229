# KCP transport, WebSocket, HTTP body and hash layers: a model and its properties

The project models four parts of the network framework and proves what they promise.

* **KCP** (`PSS_ASIO_CLIENT/kcp/ikcp.c`): an endpoint of the reliable transport as the object
  its calls update (`KcpEndpoint`), the value each call makes of it (`KcpControl` and the modules
  below it), the same machine over unbounded sequence numbers, and two endpoints on a network that
  loses, repeats, reorders and regroups what they send (`KcpLink`, `KcpNetwork`).  The theorems are
  in `KcpGuarantees` (safety over every run), `KcpDelivery` and `KcpStall` (every run can be continued
  until all is delivered, for exactly which receive windows), `KcpProgress` and `KcpDrain` (what one
  exchange without loss achieves), `KcpEcho` (what acknowledgements repeat), `KcpInvariant`, `KcpRuns`,
  `KcpPass`, `KcpGrowth`, `KcpSampling` and `KcpWaiting` (one endpoint against arbitrary bytes: what a flush
  sends, and the window, the estimates and the timers over runs) and `KcpArrival`.
* **SHA-1** (`PacketParse_Http/SHA1.hpp`): the streaming object (`Sha1`) against sections 4 to 6 of
  FIPS 180-4 (`Sha1Spec`).
* **The body phase of the HTTP parser** (`PacketParse_Http/http_parser.c`): a machine that takes one
  byte at a time (`HttpBody`), the loop that takes runs of bytes and reports them late
  (`HttpParser`), and what chunked and counted bodies come to over any sequence of calls
  (`HttpChunked`, `HttpReads`, `HttpFraming`, `HttpNumeral`), which texts complete a chunked message
  (`HttpGrammar`), and what follows a message on its connection (`HttpPersistence`).
* **WebSocket framing, the session buffer, the handshake and Base64** (`WebSocketFrame`,
  `WebSocketStream`, `SessionBuffer`, `WebSocketHandshake`, `Base64`).

`dafny verify dfyconfig.toml` checks all of it.

## How the model relates to the source

* Linked queues are sequences; the acknowledgement list, which the source grows by doubling, is a
  sequence as well.  The fields of `IKCPCB` are grouped into records for the sender, the receiver, the
  estimator and the congestion window.  Every 32-bit operation is written out with its wrap-around;
  `long` has 64 bits.
* The clock, the bytes of datagrams, the WebSocket mask and the answer of `on_headers_complete` are
  parameters.  The output callback is the list of datagrams a call returns; the HTTP callbacks
  return 0 and are recorded.
* Segments under way carry, for the proofs only, the unbounded numbers that their 32-bit fields stand
  for.  A delivery is *recent* when no number it carries lies more than 2^31 behind; runs of fewer than
  2^31 fragments a side need no such assumption (`KcpGuarantees.ShortRuns`).
* Octets are integers below 256, and masks and shifts on them are written as divisions and
  remainders; the words of SHA-1 are bit-vectors.

## What the source does that its comments do not say

* `ikcp_update` resets its flush time whenever the clock lies behind it (`ikcp.c:1159`), so every
  update flushes, not only one per interval.  `KcpControl.TickSchedules` is stated for that behaviour.
* A retransmission timer doubles without a limit.  Its resend time is in the future exactly while the new
  timer is below 2^31 (`KcpTiming.WaitsWhen`, `DoublingWaits`); `KcpRuns.DoublingFails` is a run in
  which it is not.
* A window is announced in 16 bits (`ikcp.c:911`), but `ikcp_wndsize` accepts larger ones.  Room that is a
  multiple of 2^16 is announced as none, and if the application cannot change it the sender waits
  for ever (`KcpStall`).
* Window requests and answers reuse the header of the last acknowledgement, with its number and time
  stamp (`ikcp.c:947-1012`).
* `http_message_needs_eof` and the parser disagree for a transfer coding other than chunked on a
  request or on a response that has no body (`HttpFraming.EofAgrees`, `EofDisagrees`).
* The test for HTTP/1.1 looks at the minor version alone once the major is not zero (`http_parser.c:2191`), so
  version 2.0 counts as old (`HttpPersistence.VersionTest`).  A bare line feed ends a chunked message
  as well (`HttpGrammar.ChunkedExactly`).
* The window of a sender with segments of fewer than 16 bytes stops growing (`KcpCongestion.GrowthStops`).
* A call without bytes is the end of the connection (`http_parser.c:665-684`): cutting a body into calls
  changes nothing as long as no piece is empty (`HttpReads.ReadsIndependent`).
* When a chunk is not followed by a line end, the parser stops without reporting the bytes of that
  chunk in the current buffer; so after this error, and only then, what was reported depends on the
  read boundaries (`HttpParser.Http.Execute`, `LossDependsOnReads`).
* The first fragment of a fragmented WebSocket message is forgotten, so such a message is delivered
  whole only if that fragment is empty (`WebSocketStream.FragmentedMessage`, `FragmentLost`).
* A WebSocket frame with a payload of 2^31 octets or more can be built but is not extracted as built: its
  length is cut to 32 bits (`WebSocketFrame.RoundTrip`).

## Model

| member | source | states |
|---|---|---|
| `KcpGuarantees.PrefixDelivery` | PSS_ASIO_CLIENT/kcp/ikcp.c:358-537 | In every run of two endpoints over a network that loses, repeats, reorders and regroups segments, what each side has delivered is a prefix of the messages the other side has accepted. |
| `KcpGuarantees.NoneForgotten` | PSS_ASIO_CLIENT/kcp/ikcp.c:560-607 | In every run each fragment that has been numbered is still in the sender's buffer, unaltered, or the receiver has it. |
| `KcpGuarantees.WindowNeverStuck` | PSS_ASIO_CLIENT/kcp/ikcp.c:358-463 | In every run a full receive queue holds a complete message, so `ikcp_peeksize` is not negative and the application can make room.  (That the room is then announced: `KcpDelivery.CanDeliverAll`; that it need not be: `KcpStall.NeverDelivered`.) |
| `KcpDelivery.CanDeliverAll` | PSS_ASIO_CLIENT/kcp/ikcp.c:358-1173 | No run gets stuck: whatever the network has done so far, the run can be continued until the receiver has delivered exactly the messages that were sent, in order, and all four queues between the applications are empty.  For every receive window below 2^16, and every larger one whose remainder modulo 2^16 leaves room for part of a message. |
| `KcpStall.NeverDelivered` | PSS_ASIO_CLIENT/kcp/ikcp.c:906-951 | For every other receive window: there are a run without loss and a further message that is accepted and in no continuation of the run delivered. |
| `KcpStall.StalledForever` | PSS_ASIO_CLIENT/kcp/ikcp.c:1016-1046 | Where all sent is acknowledged and the receiver, with no complete message in its queue, has room that is a multiple of 2^16, no continuation delivers anything: whatever is sent, probed, repeated or read. |
| `KcpStall.StallReached` | PSS_ASIO_CLIENT/kcp/ikcp.c:906-1046 | Such a state is reached from a new pair of endpoints by one flight that arrives before the receiver updates. |
| `KcpStall.InputShut` | PSS_ASIO_CLIENT/kcp/ikcp.c:788-790 | Datagrams that announce no room leave the sender without a window. |
| `KcpStall.FlushShut` | PSS_ASIO_CLIENT/kcp/ikcp.c:918-951 | Every segment of a flush announces a window of zero when the room is a multiple of 2^16. |
| `KcpDelivery.Announces` | PSS_ASIO_CLIENT/kcp/ikcp.c:906-925 | The window announced on the wire is the room modulo 2^16, so it is positive if and only if the room is no multiple of 2^16. |
| `KcpDelivery.RoomToAnnounce` | PSS_ASIO_CLIENT/kcp/ikcp.c:470-525 | Once the application has taken what is complete, fewer than 127 fragments are left, and for the windows of `CanDeliverAll` the room is announced as positive. |
| `KcpDelivery.OpenWindow` | PSS_ASIO_CLIENT/kcp/ikcp.c:970-1014 | A sender that has been told of no window can always be told of one: it waits, asks, and the answer arrives. |
| `KcpDelivery.ControlArrives` | PSS_ASIO_CLIENT/kcp/ikcp.c:759-870 | A segment without data announces the window of its sender and leaves the receive queue alone; a window request is noted for an answer. |
| `KcpDelivery.Round` | PSS_ASIO_CLIENT/kcp/ikcp.c:749-1173 | With a window open and all complete messages taken, one update and one exchange strictly reduce the number of fragments that are not acknowledged. |
| `KcpDelivery.TakeAll` | PSS_ASIO_CLIENT/kcp/ikcp.c:358-440 | A run can be continued by calls of `ikcp_recv` until no complete message is left; nothing held is given up. |
| `KcpDelivery.CaughtUp` | PSS_ASIO_CLIENT/kcp/ikcp.c:408-428 | A receiver from which all has been taken that is complete has every fragment the sender no longer keeps, in order and below its window. |
| `KcpDelivery.AllArrived` | PSS_ASIO_CLIENT/kcp/ikcp.c:358-440 | When every fragment has arrived and no complete message is left, both receive queues are empty and the messages delivered are the messages sent. |
| `KcpGuarantees.QuietMeansDelivered` | PSS_ASIO_CLIENT/kcp/ikcp.c:358-537 | In every run, once the sender has nothing left to send or resend and the receive queue is empty, exactly the messages accepted have been delivered. |
| `KcpGuarantees.ShortRuns` | PSS_ASIO_CLIENT/kcp/ikcp.c:136-139 | Runs of fewer than 2^31 fragments a side need no assumption on how late the network may deliver: they are runs of the model above. |
| `KcpGuarantees.DatagramIsDeliverable` | PSS_ASIO_CLIENT/kcp/ikcp.c:1083-1114 | Every datagram that a flush hands to the output callback is the encoding of segments the network of the model can deliver. |
| `KcpDrain.CanDrain` | PSS_ASIO_CLIENT/kcp/ikcp.c:749-1173 | Whatever the network has done, every run can be continued, at whatever time the sender updates next, so that the receiver has, and the sender has dropped, everything that is due at that time (lost segments whose timer has run out among it) and fits the receive window; if all timers are due and all of it fits, `snd_buf` is then empty. |
| `KcpDrain.SendHalf` | PSS_ASIO_CLIENT/kcp/ikcp.c:931-1173 | A run can be continued by an update of the sender, at any time, whose data all arrives. |
| `KcpDrain.AnswerHalf` | PSS_ASIO_CLIENT/kcp/ikcp.c:956-966 | And by an update of the receiver, at any time, whose acknowledgements of what is in flight all arrive. |
| `KcpDrain.Exchange` | PSS_ASIO_CLIENT/kcp/ikcp.c:749-1173 | Both halves together: what is due is exchanged, and nothing but the buffers and timers changes: not the messages, the configuration or the queue of what is to be sent. |
| `KcpProgress.GoodRound` | PSS_ASIO_CLIENT/kcp/ikcp.c:749-900 | From every state that keeps the invariant: a flush, its data delivered in any order and grouping, and the acknowledgements delivered back, leave the receiver with every fragment that was due and fits its window and the sender without it; if all were due and fit, `snd_buf` is empty. |
| `KcpProgress.DueGoesOut` | PSS_ASIO_CLIENT/kcp/ikcp.c:1048-1108 | A flush sends every number whose first sending, timer or fast resend is due. |
| `KcpProgress.AcksGoOut` | PSS_ASIO_CLIENT/kcp/ikcp.c:956-966 | A flush sends every pending acknowledgement. |
| `KcpProgress.SegmentTook` | PSS_ASIO_CLIENT/kcp/ikcp.c:788-866 | A segment in flight that fits the receive window is held and gets an acknowledgement; an acknowledged number is no longer live; nothing held is given up. |
| `KcpProgress.AllTook` | PSS_ASIO_CLIENT/kcp/ikcp.c:762-869 | The same over any list of datagrams, with the invariant of both endpoints kept. |
| `KcpProgress.JustSentIsFresh` | PSS_ASIO_CLIENT/kcp/ikcp.c:136-139 | Data and probes just sent are within 2^31 of every number their receiver compares them with, so the 32-bit comparisons are right for them. |
| `KcpNetwork.RunInv` | PSS_ASIO_CLIENT/kcp/ikcp.c:749-900 | The invariant of two endpoints and all segments under way holds in every state of every run. |
| `KcpNetwork.StepInv` | PSS_ASIO_CLIENT/kcp/ikcp.c:749-900 | Each step of an endpoint (send, receive, update, flush, delivery of any datagram) keeps it. |
| `KcpNetwork.DeliverInv` | PSS_ASIO_CLIENT/kcp/ikcp.c:749-869 | Delivering any list of segments that were ever sent, as often and in any order, keeps the invariant. |
| `KcpNetwork.SendInv` | PSS_ASIO_CLIENT/kcp/ikcp.c:469-537 | `ikcp_send` keeps it. |
| `KcpNetwork.RecvInv` | PSS_ASIO_CLIENT/kcp/ikcp.c:358-435 | `ikcp_recv` keeps it. |
| `KcpNetwork.FlushInv` | PSS_ASIO_CLIENT/kcp/ikcp.c:931-1138 | `ikcp_flush` keeps it: every acknowledgement, every `una` and every payload it emits is truthful. |
| `KcpLink.UnaLink` | PSS_ASIO_CLIENT/kcp/ikcp.c:593-607 | A cumulative acknowledgement that is truthful removes only what the receiver has. |
| `KcpLink.AckLink` | PSS_ASIO_CLIENT/kcp/ikcp.c:571-591 | A single acknowledgement that is truthful removes only what the receiver has. |
| `KcpLink.PushLink` | PSS_ASIO_CLIENT/kcp/ikcp.c:822-847 | Data that arrives is acknowledged truthfully and keeps the receiver on the stream that was sent. |
| `KcpLink.SendLink` | PSS_ASIO_CLIENT/kcp/ikcp.c:469-537 | What `ikcp_send` queues continues the stream of fragments. |
| `KcpLink.RecvNext` | PSS_ASIO_CLIENT/kcp/ikcp.c:358-411 | What `ikcp_recv` returns is the next message of the stream, whole. |
| `KcpLink.RecvLink` | PSS_ASIO_CLIENT/kcp/ikcp.c:358-435 | After it the queue starts at the next message boundary. |
| `KcpLink.FlushLink` | PSS_ASIO_CLIENT/kcp/ikcp.c:1016-1042 | Numbering and sending queued segments keeps the link invariant. |
| `KcpLink.AheadBound` | PSS_ASIO_CLIENT/kcp/ikcp.c:1016-1042 | The sender is never more than the receive window and 65535 numbers ahead of the receiver. |
| `KcpLink.NeverStuck` | PSS_ASIO_CLIENT/kcp/ikcp.c:441-463 | A queue as long as the window, starting at a message boundary, holds a whole message. |
| `KcpInvariant.EveryRun` | PSS_ASIO_CLIENT/kcp/ikcp.c:469-1138 | In every run of calls with any bytes as input: at most 65535 numbers in flight, `snd_buf` and `rcv_buf` strictly ascending inside their windows, every counter the length of its list, nothing deliverable left in `rcv_buf`, the timeout in its bounds. |
| `KcpInvariant.ApplyOk` | PSS_ASIO_CLIENT/kcp/ikcp.c:469-1138 | Each single call keeps that invariant and the configuration. |
| `KcpInvariant.InputOk` | PSS_ASIO_CLIENT/kcp/ikcp.c:749-900 | `ikcp_input` keeps it for arbitrary bytes, and `snd_una` only moves forward and never passes `snd_nxt`. |
| `KcpInvariant.OnSegmentOk` | PSS_ASIO_CLIENT/kcp/ikcp.c:788-866 | So does each turn of its loop, for a segment with arbitrary fields. |
| `KcpInvariant.UnaOk` | PSS_ASIO_CLIENT/kcp/ikcp.c:593-607 | `ikcp_parse_una` and `ikcp_shrink_buf` with any argument keep the sender valid and move `snd_una` forward only. |
| `KcpInvariant.AckOk` | PSS_ASIO_CLIENT/kcp/ikcp.c:571-591 | `ikcp_parse_ack` and `ikcp_shrink_buf` with any argument do too. |
| `KcpInvariant.FastackOk` | PSS_ASIO_CLIENT/kcp/ikcp.c:609-631 | `ikcp_parse_fastack` with any argument keeps the sender valid. |
| `KcpInvariant.FlushOk` | PSS_ASIO_CLIENT/kcp/ikcp.c:931-1138 | `ikcp_flush` keeps the invariant and leaves `snd_una` alone. |
| `KcpInvariant.SendOk` | PSS_ASIO_CLIENT/kcp/ikcp.c:469-537 | `ikcp_send` keeps the invariant. |
| `KcpInvariant.RecvOk` | PSS_ASIO_CLIENT/kcp/ikcp.c:358-435 | `ikcp_recv` keeps the receiver valid and leaves nothing deliverable in `rcv_buf`. |
| `KcpRuns.WindowRun` | PSS_ASIO_CLIENT/kcp/ikcp.c:875-897 | In every run with a fixed mtu and no 32-bit wrap, `(cwnd-1)*mss < incr < (cwnd+1)*mss`, `ssthresh >= 2`, and from the first update on `cwnd >= 1`. |
| `KcpRuns.InputWindow` | PSS_ASIO_CLIENT/kcp/ikcp.c:875-897 | One `ikcp_input` raises `cwnd` by at most two, never above the window announced last, and never lowers it. |
| `KcpRuns.FlushWindow` | PSS_ASIO_CLIENT/kcp/ikcp.c:1116-1137 | A flush keeps `cwnd` and `incr` coupled and leaves the window open. |
| `KcpGrowth.WindowOpens` | PSS_ASIO_CLIENT/kcp/ikcp.c:874-898 | From every state of every run: as long as no timer runs out and no segment is skipped too often, 32 acknowledging datagrams for each segment of the window that the peer announces bring `cwnd` to exactly that window (segments of 16 bytes or more; the source makes them 26 at least, ikcp.c:1225). |
| `KcpGrowth.InputGrows` | PSS_ASIO_CLIENT/kcp/ikcp.c:866-898 | One `ikcp_input` lets the window grow exactly once, towards the window announced last, if the datagram was accepted and has moved `snd_una`, and not at all otherwise. |
| `KcpCongestion.OnAdvanceExact` | PSS_ASIO_CLIENT/kcp/ikcp.c:874-898 | The growth in unbounded arithmetic: one segment and `mss` bytes below `ssthresh`; beyond it `mss*mss/incr + mss/16` bytes, and as many whole segments as they need once they reach `cwnd + 1`; never beyond the window of the peer, and nothing at it. |
| `KcpCongestion.GrowthStops` | PSS_ASIO_CLIENT/kcp/ikcp.c:882-893 | An advance changes nothing exactly at the window of the peer or, beyond `ssthresh`, for segments of fewer than 16 bytes once `incr` exceeds `mss*mss`. |
| `KcpPass.FlushReacts` | PSS_ASIO_CLIENT/kcp/ikcp.c:1116-1137 | A flush that finds a timer run out sets `ssthresh` to half the window used, two at least, and the window to one segment; otherwise, with a segment skipped often enough, `ssthresh` to half of what is in flight and the window to that and the number of acknowledgements it took; otherwise it leaves the window, one segment at least. |
| `KcpCongestion.OnFlushExact` | PSS_ASIO_CLIENT/kcp/ikcp.c:1116-1137 | The same for the three words of the window, in unbounded arithmetic. |
| `KcpRuns.FlushTimers` | PSS_ASIO_CLIENT/kcp/ikcp.c:1048-1081 | After a flush every segment in `snd_buf` has been sent, and its resend time lies in the future whenever its timer is below 2^31, which it is at least up to the fifteenth sending. |
| `KcpWaiting.HeldRun` | PSS_ASIO_CLIENT/kcp/ikcp.c:1048-1081 | In every run a segment that has been sent stays as it is, not sent again and its timer untouched, until it is acknowledged, as long as every update comes before its resend time and too few acknowledgements have skipped it. |
| `KcpPass.FlushResends` | PSS_ASIO_CLIENT/kcp/ikcp.c:1058-1091 | A flush sends a segment under way again exactly when its timer has run out (the timer grows by its size or the estimate, or by half of one of them under `nodelay`) or it was skipped often enough (the timer stays); the time to the next resend is then the timer; otherwise the segment is not touched. |
| `KcpPass.FlushFirst` | PSS_ASIO_CLIENT/kcp/ikcp.c:1020-1057 | What a flush admits is numbered in order, carries the fragments that were queued and is sent at once, with the estimate as timer; the first wait is the timer, and without `nodelay` an eighth of it more. |
| `KcpTiming.TransmitTimes` | PSS_ASIO_CLIENT/kcp/ikcp.c:1048-1087 | The same for one segment: what the pass does with it, and the exact time it then waits. |
| `KcpPass.FlushFills` | PSS_ASIO_CLIENT/kcp/ikcp.c:1016-1042 | A flush moves segments from the front of `snd_queue` until the smallest of the send window, the window of the peer and (unless switched off) the congestion window is full or the queue is empty, and never more. |
| `KcpPass.FlushSends` | PSS_ASIO_CLIENT/kcp/ikcp.c:944-1114 | The segments of a flush are the pending acknowledgements, the window probes and, in order, exactly the segments that it has admitted or that were due. |
| `KcpPass.FlushCounts` | PSS_ASIO_CLIENT/kcp/ikcp.c:1058-1105 | The link is given up exactly when a segment that goes out has been sent too often, and every timer that has run out is counted. |
| `KcpPass.TallyExact` | PSS_ASIO_CLIENT/kcp/ikcp.c:1048-1108 | The pass over `snd_buf` sends exactly what is due, in order, and records a loss exactly when a timer has run out, a fast resend exactly when a segment was skipped often enough, a dead link exactly when a segment goes out too often, and the number of timeouts. |
| `KcpWaiting.InputSkips` | PSS_ASIO_CLIENT/kcp/ikcp.c:609-632 | `ikcp_input` leaves the segments that it does not remove as they are, but for the count of acknowledgements that have skipped them: it grows by one for each datagram whose newest acknowledgement is for a later number, and never else. |
| `KcpRuns.DoublingFails` | PSS_ASIO_CLIENT/kcp/ikcp.c:1058-1071 | From a new endpoint, one byte sent and never acknowledged: a run of updates in which its timer doubles from 200 until, at the twenty-fifth sending, it exceeds 2^31 and the segment is due again at once. |
| `KcpRuns.EarliestMeans` | PSS_ASIO_CLIENT/kcp/ikcp.c:1206-1213 | The loop of `ikcp_check` finds the least time until a resend. |
| `KcpRuns.CheckMeans` | PSS_ASIO_CLIENT/kcp/ikcp.c:1183-1219 | `ikcp_check` returns the current time if and only if something is due; otherwise the first moment at which the interval, the flush or a resend is. |
| `KcpRuns.FlushDatagrams` | PSS_ASIO_CLIENT/kcp/ikcp.c:931-1114 | Every datagram of a flush has between 1 and mtu bytes, and a peer decodes from them exactly the segments of the flush, in order, and rejects nothing. |
| `KcpRuns.MaxAckMeans` | PSS_ASIO_CLIENT/kcp/ikcp.c:798-813 | The number handed to the fast-resend count is acknowledged by the datagram and no number it acknowledges is newer, whatever data the datagram carries besides. |
| `KcpRuns.ProbeStep` | PSS_ASIO_CLIENT/kcp/ikcp.c:970-990 | A window request is made exactly when the peer announces no window and the waiting time is over; the waiting time grows to its limit; an open window cancels it. |
| `KcpRuns.ProbeRun` | PSS_ASIO_CLIENT/kcp/ikcp.c:970-1014 | In every run the waiting time is zero or within its two limits, and no request outlives the flush that sends it. |
| `KcpPass.FlushProbes` | PSS_ASIO_CLIENT/kcp/ikcp.c:968-1012 | A flush carries an answer exactly when the peer has asked or the window has opened, and a request exactly when the peer has announced no window and the waiting time is over; both announce the room in the receive queue and repeat the number and the stamp of the last acknowledgement. |
| `KcpPass.Reopens` | PSS_ASIO_CLIENT/kcp/ikcp.c:427-432 | A call of `ikcp_recv` that takes a message from a full queue and leaves room makes the next flush tell the peer; no other call does. |
| `KcpControl.TickSchedules` | PSS_ASIO_CLIENT/kcp/ikcp.c:1146-1171 | After every `ikcp_update` the next flush is due in more than nothing and at most one interval. |
| `KcpControl.TickExact` | PSS_ASIO_CLIENT/kcp/ikcp.c:1146-1172 | An update less than an interval after the time set for it keeps the rhythm; the first one, an early one and a later one start it anew. |
| `KcpReceiver.ParseDataSimulates` | PSS_ASIO_CLIENT/kcp/ikcp.c:683-743 | `ikcp_parse_data` on 32-bit numbers does what insertion into a map over unbounded numbers does, and leaves nothing deliverable behind. |
| `KcpReceiver.DrainSimulates` | PSS_ASIO_CLIENT/kcp/ikcp.c:721-732 | Moving consecutive segments to the queue does too. |
| `KcpReceiver.WindowMeans` | PSS_ASIO_CLIENT/kcp/ikcp.c:689-693 | The 32-bit window test is the test on unbounded numbers. |
| `KcpReceiver.StoreSimulates` | PSS_ASIO_CLIENT/kcp/ikcp.c:695-713 | The backward walk inserts a new number in its place and drops a repeated one. |
| `KcpArrival.ArrivalOrder` | PSS_ASIO_CLIENT/kcp/ikcp.c:683-743 | Any two deliveries of the same numbers within the window, in any order and with any repetition, leave the same `rcv_queue`, `rcv_buf` and `rcv_nxt`. |
| `KcpSender.ParseUnaSimulates` | PSS_ASIO_CLIENT/kcp/ikcp.c:593-607 | `ikcp_parse_una` removes exactly the live numbers below the unbounded number that `una` stands for. |
| `KcpSender.ParseAckSimulates` | PSS_ASIO_CLIENT/kcp/ikcp.c:571-591 | `ikcp_parse_ack` removes exactly the one live number, or nothing. |
| `KcpSender.ShrinkSimulates` | PSS_ASIO_CLIENT/kcp/ikcp.c:560-569 | `ikcp_shrink_buf` sets `snd_una` to the least live number, or to `snd_nxt`. |
| `KcpSender.AdmitSimulates` | PSS_ASIO_CLIENT/kcp/ikcp.c:1021-1042 | Moving segments to `snd_buf` makes exactly the next numbers live, never more than 65535 in flight. |
| `KcpSender.AdmitFills` | PSS_ASIO_CLIENT/kcp/ikcp.c:1016-1042 | A flush admits from the front of the queue, numbered in order, until the window is full or the queue is empty; the flight never passes the window by admitting. |
| `KcpSender.BumpMeans` | PSS_ASIO_CLIENT/kcp/ikcp.c:609-631 | A fast acknowledgement counts exactly the segments in flight before the one acknowledged. |
| `KcpSender.AcceptedFragments` | PSS_ASIO_CLIENT/kcp/ikcp.c:507-510 | An accepted message has fewer than 128 fragments, each no longer than mss. |
| `KcpSender.SendCodes` | PSS_ASIO_CLIENT/kcp/ikcp.c:467-537 | A message is accepted exactly when 127 segments hold it, and is then queued whole; one that is refused changes nothing. |
| `KcpMessages.RecvStream` | PSS_ASIO_CLIENT/kcp/ikcp.c:358-411 | From the fragments of any list of messages, in order, `ikcp_recv` returns these messages, one a call, each with its length. |
| `KcpMessages.MergeFragments` | PSS_ASIO_CLIENT/kcp/ikcp.c:383-411 | Merging the fragments of a message, whatever follows them, gives it back. |
| `KcpMessages.PeekMeans` | PSS_ASIO_CLIENT/kcp/ikcp.c:441-463 | At a message boundary `ikcp_peeksize` is not negative exactly when the message is complete, and then is its length. |
| `KcpMessages.RecvLength` | PSS_ASIO_CLIENT/kcp/ikcp.c:383-411 | The merged length is the one that was peeked, whatever the peer has sent. |
| `KcpMessages.RecvCodes` | PSS_ASIO_CLIENT/kcp/ikcp.c:358-378 | The return codes of `ikcp_recv`: nothing there, nothing complete, no room for the message, or its length, each exactly then; a failure changes nothing. |
| `KcpMessages.CountFragments` | PSS_ASIO_CLIENT/kcp/ikcp.c:507-508 | The number of fragments is the rounded-up quotient. |
| `KcpMessages.FragmentShape` | PSS_ASIO_CLIENT/kcp/ikcp.c:515-534 | Fragments are no longer than mss and `frg` counts down to zero. |
| `KcpPacking.PackWhole` | PSS_ASIO_CLIENT/kcp/ikcp.c:956-1114 | Every datagram has between 1 and mtu bytes and is a whole number of segments; together they are the segments in order; and none has room for the segment that follows it. |
| `KcpPacking.PackMinimal` | PSS_ASIO_CLIENT/kcp/ikcp.c:944-1114 | No other way to share the segments of a flush out in order, within the mtu, needs fewer datagrams. |
| `KcpPacking.PackUnpack` | PSS_ASIO_CLIENT/kcp/ikcp.c:749-869 | Decoding the datagrams gives back the segments, in order. |
| `KcpWire.ParseEncode` | PSS_ASIO_CLIENT/kcp/ikcp.c:769-784 | Decoding an encoded segment, whatever follows it, gives its header fields, its data and its size; the window is cut to 16 bits. |
| `KcpWire.UnpackEncodeAll` | PSS_ASIO_CLIENT/kcp/ikcp.c:762-869 | The loop of `ikcp_input` decodes exactly the segments of a datagram and ends with 0. |
| `KcpWire.UnpackExact` | PSS_ASIO_CLIENT/kcp/ikcp.c:759-868 | A datagram is the encoding of the segments found in it and a rest in which none is found: fewer octets than a header if it is accepted, and otherwise a header that is refused with the code returned. |
| `KcpRuns.InputCodes` | PSS_ASIO_CLIENT/kcp/ikcp.c:754-872 | The return code of `ikcp_input`; a datagram that is refused has had the effect of the segments before the one refused and no other: the window does not grow and no segment is counted as skipped. |
| `KcpWire.EncodeParse` | PSS_ASIO_CLIENT/kcp/ikcp.c:767-786 | A segment that is accepted is the one its octets encode: encoding undoes parsing. |
| `KcpWire.ParseCodes` | PSS_ASIO_CLIENT/kcp/ikcp.c:767-786 | A header is refused for its conversation first, then for its length, then for its command, and in no other case. |
| `KcpWire.LittleEndian` | PSS_ASIO_CLIENT/kcp/ikcp.c:94-125 | Numbers on the wire have their least significant octet first. |
| `KcpWire.RoundTrip16` | PSS_ASIO_CLIENT/kcp/ikcp.c:68-91 | The 16-bit codec is the identity modulo 2^16. |
| `KcpWire.RoundTrip32` | PSS_ASIO_CLIENT/kcp/ikcp.c:94-120 | The 32-bit codec is the identity. |
| `KcpWire.Parse` | PSS_ASIO_CLIENT/kcp/ikcp.c:769-784 | A decoded segment lies within the bytes given, has the right conversation number and a known command. |
| `KcpTiming.UpdateAckExact` | PSS_ASIO_CLIENT/kcp/ikcp.c:543-558 | For samples below 2^28 the estimator computes, without overflow, the smoothed mean and deviation of section 2 of RFC 6298 in integers. |
| `KcpTiming.RtoBounded` | PSS_ASIO_CLIENT/kcp/ikcp.c:543-558 | Whatever the sample, the timeout stays between its minimum and 60000. |
| `KcpTiming.SamplesStay` | PSS_ASIO_CLIENT/kcp/ikcp.c:543-558 | Over any list of samples below 2^28 neither estimate ever overflows. |
| `KcpSampling.EstimatorRun` | PSS_ASIO_CLIENT/kcp/ikcp.c:543-558 | In every run of a new endpoint with samples below 2^28, the estimates are those of the samples received, from the initial ones on, and the timeout is within its bounds. |
| `KcpSampling.EstimatesRun` | PSS_ASIO_CLIENT/kcp/ikcp.c:749-870 | In every run the estimates are those of the samples received so far, in order: an acknowledgement whose stamp is not in the future is a sample, and nothing else changes them. |
| `KcpSampling.SegmentSamples` | PSS_ASIO_CLIENT/kcp/ikcp.c:792-797 | One segment: an acknowledgement gives the smoothed time, the deviation and the timeout of section 2 of RFC 6298 for the time since its stamp; one with a stamp in the future and every other segment leave them alone. |
| `KcpSampling.ApplySampled` | PSS_ASIO_CLIENT/kcp/ikcp.c:749-870 | One call: the acknowledgements of a datagram, up to the first segment that is refused, are samples; other calls take none. |
| `KcpSampling.SamplesStep` | PSS_ASIO_CLIENT/kcp/ikcp.c:543-558 | The estimates of a list of samples follow the recurrence of RFC 6298 step by step. |
| `KcpEcho.EchoRun` | PSS_ASIO_CLIENT/kcp/ikcp.c:637-668 | In every run of two endpoints, whatever the network does, each acknowledgement that is pending or under way repeats the number and the time stamp of a segment that the other side has sent. |
| `KcpEcho.SampleIsRoundTrip` | PSS_ASIO_CLIENT/kcp/ikcp.c:792-797 | So every sample is the time since a sending of the segment acknowledged. |
| `KcpEcho.WireStamped` | PSS_ASIO_CLIENT/kcp/ikcp.c:1083-1087 | Every segment of data is stamped with the clock at which it is put on the wire. |
| `KcpTiming.WaitsWhen` | PSS_ASIO_CLIENT/kcp/ikcp.c:1048-1081 | After the pass a segment's resend time is in the future if and only if the timer set or left is positive and below 2^31. |
| `KcpTiming.DoublingWaits` | PSS_ASIO_CLIENT/kcp/ikcp.c:1058-1071 | With plain doubling this holds exactly when the old timer is below 2^30 or its double wraps around. |
| `KcpTiming.TransmitKeepsTimers` | PSS_ASIO_CLIENT/kcp/ikcp.c:1051-1081 | The timer of a segment sent n times is at most 60000 * 2^(n-1), so up to 15 sendings it is below 2^31 and lies in the future. |
| `KcpTiming.TransmitWaits` | PSS_ASIO_CLIENT/kcp/ikcp.c:1048-1081 | Whatever the pass did to a segment, a timer below 2^31 means a resend time in the future. |
| `KcpTiming.TransmitFields` | PSS_ASIO_CLIENT/kcp/ikcp.c:1083-1107 | Resending changes no number, payload or fragment count. |
| `KcpCongestion.OnAdvanceCoupled` | PSS_ASIO_CLIENT/kcp/ikcp.c:875-897 | An acknowledgement raises `cwnd` by at most two, never above the peer's window, and keeps `incr` within one segment of it. |
| `KcpCongestion.AvoidanceCoupled` | PSS_ASIO_CLIENT/kcp/ikcp.c:881-891 | So does the increase by a part of a segment. |
| `KcpCongestion.OnFlushCoupled` | PSS_ASIO_CLIENT/kcp/ikcp.c:1116-1137 | Both reactions to loss restore the coupling and leave `cwnd >= 1`. |
| `Serial.WrapDiff` | PSS_ASIO_CLIENT/kcp/ikcp.c:136-139 | `_itimediff` of two 32-bit numbers is the difference of the unbounded ones when that is within 2^31. |
| `Serial.WindowDiff` | PSS_ASIO_CLIENT/kcp/ikcp.c:136-139 | Within 2^31 above a common base `_itimediff` orders by distance from the base. |
| `KcpEndpoint.Kcp.constructor` | PSS_ASIO_CLIENT/kcp/ikcp.c:234-295 | A new control block is the initial value with the configuration given. |
| `KcpEndpoint.Kcp.Peek` | PSS_ASIO_CLIENT/kcp/ikcp.c:441-463 | Returns the peek size of the current value. |
| `KcpEndpoint.Kcp.MoveReady` | PSS_ASIO_CLIENT/kcp/ikcp.c:413-425 | Moves consecutive segments to the queue. |
| `KcpEndpoint.Kcp.Merge` | PSS_ASIO_CLIENT/kcp/ikcp.c:383-411 | Returns the merged data and removes the fragments, or leaves them when peeking. |
| `KcpEndpoint.Kcp.Deliver` | PSS_ASIO_CLIENT/kcp/ikcp.c:383-425 | Merges, then moves. |
| `KcpEndpoint.Kcp.Receive` | PSS_ASIO_CLIENT/kcp/ikcp.c:358-435 | The new value, the return code and the data of `ikcp_recv`. |
| `KcpEndpoint.Kcp.Send` | PSS_ASIO_CLIENT/kcp/ikcp.c:469-537 | The new value and the return code of `ikcp_send`. |
| `KcpEndpoint.Kcp.Fragment` | PSS_ASIO_CLIENT/kcp/ikcp.c:515-534 | The fragmenting loop appends exactly the fragments of the message. |
| `KcpEndpoint.Kcp.ShrinkBuf` | PSS_ASIO_CLIENT/kcp/ikcp.c:560-569 | The new value of `ikcp_shrink_buf`. |
| `KcpEndpoint.Kcp.ParseUna` | PSS_ASIO_CLIENT/kcp/ikcp.c:593-607 | The loop removes exactly the acknowledged prefix. |
| `KcpEndpoint.Kcp.ParseAck` | PSS_ASIO_CLIENT/kcp/ikcp.c:571-591 | The loop removes exactly the acknowledged segment. |
| `KcpEndpoint.Kcp.ParseFastack` | PSS_ASIO_CLIENT/kcp/ikcp.c:609-631 | The new value of `ikcp_parse_fastack`. |
| `KcpEndpoint.Kcp.Bump` | PSS_ASIO_CLIENT/kcp/ikcp.c:616-630 | The loop counts up exactly the segments before the acknowledged one. |
| `KcpEndpoint.Kcp.UpdateRtt` | PSS_ASIO_CLIENT/kcp/ikcp.c:543-558 | The new estimates of `ikcp_update_ack`. |
| `KcpEndpoint.Kcp.ParseData` | PSS_ASIO_CLIENT/kcp/ikcp.c:683-743 | The backward walk and the moves of `ikcp_parse_data`. |
| `KcpEndpoint.Kcp.OnPushSegment` | PSS_ASIO_CLIENT/kcp/ikcp.c:822-847 | The effect of a data segment. |
| `KcpEndpoint.Kcp.OnAckSegment` | PSS_ASIO_CLIENT/kcp/ikcp.c:792-821 | The effect of an acknowledgement. |
| `KcpEndpoint.Kcp.HandleSegment` | PSS_ASIO_CLIENT/kcp/ikcp.c:788-866 | The effect of one decoded segment. |
| `KcpEndpoint.Kcp.GrowWindow` | PSS_ASIO_CLIENT/kcp/ikcp.c:875-897 | The new congestion window. |
| `KcpEndpoint.Kcp.FinishInput` | PSS_ASIO_CLIENT/kcp/ikcp.c:871-897 | What follows the loop of `ikcp_input`. |
| `KcpEndpoint.Kcp.InputLoop` | PSS_ASIO_CLIENT/kcp/ikcp.c:762-869 | The loop handles exactly the segments that the datagram decodes to, and returns its code. |
| `KcpEndpoint.Kcp.Input` | PSS_ASIO_CLIENT/kcp/ikcp.c:749-900 | The new value and the return code of `ikcp_input`, for any bytes. |
| `KcpEndpoint.Kcp.Write` | PSS_ASIO_CLIENT/kcp/ikcp.c:54-120 | Bytes are put into the buffer at a position and nothing before it changes. |
| `KcpEndpoint.Kcp.EncodeSegment` | PSS_ASIO_CLIENT/kcp/ikcp.c:906-917 | The buffer continues with the encoding of the segment. |
| `KcpEndpoint.Kcp.PutSegment` | PSS_ASIO_CLIENT/kcp/ikcp.c:1089-1102 | The buffer is handed out first if the segment does not fit; the write position never passes mtu. |
| `KcpEndpoint.Kcp.FlushAcks` | PSS_ASIO_CLIENT/kcp/ikcp.c:956-966 | Puts all pending acknowledgements. |
| `KcpEndpoint.Kcp.UpdateProbe` | PSS_ASIO_CLIENT/kcp/ikcp.c:970-990 | The new state of the window probe. |
| `KcpEndpoint.Kcp.AdmitSegments` | PSS_ASIO_CLIENT/kcp/ikcp.c:1021-1042 | Moves and numbers the segments that the window admits. |
| `KcpEndpoint.Kcp.TimeSegment` | PSS_ASIO_CLIENT/kcp/ikcp.c:1051-1087 | What the pass does to one segment, and why. |
| `KcpEndpoint.Kcp.TransmitSegments` | PSS_ASIO_CLIENT/kcp/ikcp.c:1048-1108 | The pass over `snd_buf`: every segment retimed, the due ones put, losses counted. |
| `KcpEndpoint.Kcp.TransmitSegment` | PSS_ASIO_CLIENT/kcp/ikcp.c:1051-1107 | One segment of the pass: retimed, put if due, and counted. |
| `KcpEndpoint.Kcp.FlushProbes` | PSS_ASIO_CLIENT/kcp/ikcp.c:992-1014 | Puts the window request and the window answer that are pending. |
| `KcpEndpoint.Kcp.FlushControl` | PSS_ASIO_CLIENT/kcp/ikcp.c:944-1014 | The acknowledgements and probes of a flush. |
| `KcpEndpoint.Kcp.FlushAll` | PSS_ASIO_CLIENT/kcp/ikcp.c:944-1138 | The body of `ikcp_flush` once an update has been made. |
| `KcpEndpoint.Kcp.AdjustWindow` | PSS_ASIO_CLIENT/kcp/ikcp.c:1116-1137 | The new congestion window after a flush. |
| `KcpEndpoint.Kcp.Flush` | PSS_ASIO_CLIENT/kcp/ikcp.c:931-1138 | The new value and the datagrams of `ikcp_flush`. |
| `KcpEndpoint.Kcp.Update` | PSS_ASIO_CLIENT/kcp/ikcp.c:1146-1171 | The new value and the datagrams of `ikcp_update`. |
| `KcpEndpoint.Kcp.CheckTime` | PSS_ASIO_CLIENT/kcp/ikcp.c:1183-1219 | The time that `ikcp_check` returns. |
| `Sha1.Sha.Transform` | PacketParse_Http/SHA1.hpp:443-477 | The in-place 16-word schedule and the rotating registers change the state as the 80-word schedule and loop of section 6.1.2 of FIPS 180-4 do, for every state and block. |
| `Sha1.Sha.Update` | PacketParse_Http/SHA1.hpp:295-320 | After it the object has absorbed the concatenation: the state is the fold over all whole blocks, the buffer holds the tail and the two count words the bit length modulo 2^64. |
| `Sha1.Sha.Final` | PacketParse_Http/SHA1.hpp:356-374 | It terminates and leaves in the digest the hash of FIPS 180-4 of everything absorbed. |
| `Sha1.Sha.PadAndAbsorb` | PacketParse_Http/SHA1.hpp:360-370 | What it absorbs is exactly the padding of section 5.1.1 of FIPS 180-4. |
| `Sha1.Sha.Rotate` | PacketParse_Http/SHA1.hpp:449-469 | Eighty rounds on five registers whose roles rotate give the working variables of the standard. |
| `Sha1.Sha.Expand` | PacketParse_Http/SHA1.hpp:234-241 | Each step yields the next schedule word and keeps the last sixteen. |
| `Sha1.Sha.Load` | PacketParse_Http/SHA1.hpp:447-447 | The workspace holds the words of the block as they lie in memory. |
| `Sha1.Sha.Blocks` | PacketParse_Http/SHA1.hpp:311-312 | The loop over whole blocks folds them in order. |
| `Sha1.Sha.FillAndCompress` | PacketParse_Http/SHA1.hpp:305-312 | Completing the buffer and compressing continues the fold. |
| `Sha1.Sha.Count` | PacketParse_Http/SHA1.hpp:299-302 | The two count words with their carry hold the bit length modulo 2^64. |
| `Sha1.Sha.CopyIn` | PacketParse_Http/SHA1.hpp:318-319 | The buffer continues with the bytes copied. |
| `Sha1.Sha.Wipe` | PacketParse_Http/SHA1.hpp:376-383 | After wiping the counts and the buffer are zero and the state is that of a zero block. |
| `Sha1.Sha.constructor` | PacketParse_Http/SHA1.hpp:265-272 | A new object has absorbed nothing. |
| `Sha1.Sha.Reset` | PacketParse_Http/SHA1.hpp:281-292 | So has one that is reset. |
| `Sha1.FastFAgrees` | PacketParse_Http/SHA1.hpp:244-248 | The cheaper round functions are those of section 4.1.1 of FIPS 180-4. |
| `Sha1Spec.ConstantsAreRoots` | PacketParse_Http/SHA1.hpp:244-248 | The four round constants are 2^30 times the square roots of 2, 3, 5 and 10, cut off. |
| `Sha1Spec.RotationsMean` | PacketParse_Http/SHA1.hpp:225-229 | The rotation by one moves every bit up and the top one to the bottom; the others are that one five times, and twice backwards. |
| `Sha1Spec.BigEndianMeans` | PacketParse_Http/SHA1.hpp:231-236 | The first octet of a word is the most significant, and taking a word apart undoes joining it. |
| `Sha1Spec.InitialValue` | PacketParse_Http/SHA1.hpp:281-288 | The octets of the initial value. |
| `Sha1Spec.PadMeans` | PacketParse_Http/SHA1.hpp:356-369 | The padding of section 5.1.1 of FIPS 180-4: the message, a bit that is one, as few zero bits as fill the last block up, and the length. |
| `Sha1Spec.DigestMeans` | PacketParse_Http/SHA1.hpp:370-376 | The digest is the five words in order, four octets each. |
| `Sha1.SwapIsBigEndian` | PacketParse_Http/SHA1.hpp:234-235 | The two rotations turn a little-endian word into the big-endian one. |
| `Sha1.RoundInPlaceAgrees` | PacketParse_Http/SHA1.hpp:244-248 | A round on registers in place is a round of the standard with the names moved on. |
| `Sha1.NextWordAgrees` | PacketParse_Http/SHA1.hpp:240-241 | The circular index yields the schedule word. |
| `Sha1.CountBytes` | PacketParse_Http/SHA1.hpp:361-363 | The eight octets taken from the count words are the length field of the padding. |
| `HttpReads.ChunkedDecoding` | PacketParse_Http/http_parser.c:1996-2116 | However the bytes of a chunked message are cut into calls: if a call without bytes comes before the last byte, the parser fails; otherwise `on_body` is given the data of the chunks in order and `on_message_complete` is called once, with the last byte and not before. |
| `HttpReads.LengthDecoding` | PacketParse_Http/http_parser.c:1944-1985 | A body of declared length n, or the start of one, cut in any way: a call without bytes before the end makes the parser fail; otherwise `on_body` is given exactly the bytes that have come, and the message completes with the n-th. |
| `HttpReads.ReadsIndependent` | PacketParse_Http/http_parser.c:660-2156 | Calls on any bytes, cut in any way, have the effect of one call on all of them if and only if every call without bytes finds the parser between messages or in error; in the body states the end of the connection is an error, or a completion. |
| `HttpGrammar.ChunkedExactly` | PacketParse_Http/http_parser.c:1996-2116 | The parser completes a chunked message with the last byte of a text if and only if the text is a message of the coding: chunks whose sizes are the lengths of their data, extensions that begin with a semicolon or a space, size lines within the limit, a last chunk of size zero and a line end. |
| `HttpGrammar.RunDraft` | PacketParse_Http/http_parser.c:1996-2116 | Whatever has been read without an error, before the end of the message, is the beginning of a message of the coding. |
| `HttpGrammar.RefusalCodes` | PacketParse_Http/http_parser.c:712-2116 | Every byte that is refused within a message, with its code and exactly for its reason. |
| `HttpPersistence.RunCompletes` | PacketParse_Http/http_parser.c:1795-2116 | Whatever bytes come after the header section: a message completes at most once, it has completed exactly when the parser is between messages, and the parser is then ready for another if and only if the head lets the connection persist (from version 1.1 on unless it said close, before only if it said keep-alive) and the message did not need its end. |
| `HttpPersistence.ChunkedThenMore` | PacketParse_Http/http_parser.c:721-729 | A whole chunked message and the first byte of another: it is left for the next message exactly when the head lets the connection persist, and is the error of a closed connection otherwise. |
| `HttpPersistence.LengthThenMore` | PacketParse_Http/http_parser.c:721-729 | So it is after a body of declared length. |
| `HttpPersistence.NothingThenMore` | PacketParse_Http/http_parser.c:721-729 | And after a message without a body. |
| `HttpPersistence.DeadRun` | PacketParse_Http/http_parser.c:721-729 | On a connection that does not persist line ends are skipped and any other byte is an error; only the limit on what counts as header can come before it. |
| `HttpPersistence.VersionTest` | PacketParse_Http/http_parser.c:2189-2205 | The test for the version differs from section 6.3 of RFC 7230 exactly for a version such as 2.0 whose head says both or neither of close and keep-alive. |
| `HttpBody.KeepAliveMeans` | PacketParse_Http/http_parser.c:2189-2205 | `http_should_keep_alive`: the head lets the connection persist, and the message is a request, has no body, is chunked, or has a length. |
| `HttpBody.NeedsEofMeans` | PacketParse_Http/http_parser.c:2160-2187 | `http_message_needs_eof`: a response that may have a body and has neither chunks nor a usable length. |
| `HttpFraming.HeadOutcome` | PacketParse_Http/http_parser.c:1795-1942 | What the last byte of the header section leads to, by section 3.3.3 of RFC 7230: each error, each kind of body and the end of the message for exactly the heads listed. |
| `HttpReads.ReadsDiffer` | PacketParse_Http/http_parser.c:665-684 | In the other case the calls end in the end-of-input error or have completed a message that the bytes have not. |
| `HttpReads.EarlyEof` | PacketParse_Http/http_parser.c:665-684 | Within a message a call without bytes before its last byte ends in that error, and nothing else about the cut matters. |
| `HttpReads.AllReported` | PacketParse_Http/http_parser.c:2118-2156 | Without an error the callbacks of all calls together are those of the bytes. |
| `HttpParser.LossDependsOnReads` | PacketParse_Http/http_parser.c:2101-2107 | A last byte of chunk data and a byte that is no line end: read in one call nothing is reported, in two calls the byte is. |
| `HttpReads.EventsGrow` | PacketParse_Http/http_parser.c:712-2156 | More bytes only add to what was delivered and completed. |
| `HttpReads.FinishRun` | PacketParse_Http/http_parser.c:1944-1994 | The last byte due completes the message. |
| `HttpReads.EofRun` | PacketParse_Http/http_parser.c:1980-1985 | Without a length every byte is body. |
| `HttpBody.StepSound` | PacketParse_Http/http_parser.c:1998-2108 | Whatever byte comes, the invariant behind the asserts of the body states (`nread == 1`, chunked, length neither zero nor unknown) is kept. |
| `HttpBody.RunConcat` | PacketParse_Http/http_parser.c:712-2156 | Some bytes and then others have the effect of both together. |
| `HttpFraming.RunBooked` | PacketParse_Http/http_parser.c:1996-2116 | Whatever bytes arrive in a chunked body, each `chunk_header` is followed by exactly the bytes it announced before `chunk_complete`, and the message completes only after the chunk that announced none. |
| `HttpFraming.EofAgrees` | PacketParse_Http/http_parser.c:2160-2187 | For every head: the parser reads to the end of the connection exactly when `http_message_needs_eof` says so or when a coding other than chunked is applied to a lenient request or to a response without a body; it refuses the head exactly for such a coding on a strict request. |
| `HttpFraming.EofDisagrees` | PacketParse_Http/http_parser.c:1899-1920 | A 204 response with a coding other than chunked: the parser reads to the end of the connection although `http_message_needs_eof` says that it need not. |
| `HttpChunked.MessageRun` | PacketParse_Http/http_parser.c:1795-1804 | The callbacks of a whole chunked message, one by one. |
| `HttpChunked.ChunkRun` | PacketParse_Http/http_parser.c:1996-2116 | The callbacks of one chunk; afterwards the parser is ready for the next. |
| `HttpChunked.SizeLineRun` | PacketParse_Http/http_parser.c:1996-2076 | A size line with any digits and extension gives the value of the digits. |
| `HttpChunked.DataRun` | PacketParse_Http/http_parser.c:2078-2099 | Chunk data comes out unaltered, up to the size announced. |
| `HttpNumeral.ParseExact` | PacketParse_Http/http_parser.c:2023-2046 | A numeral is accepted exactly when all its digits but the last are within the guard; then its value is exact and not the one that means unknown. |
| `HttpNumeral.PushExact` | PacketParse_Http/http_parser.c:2035-2045 | One more digit never wraps 64 bits where the guard lets it pass. |
| `HttpNumeral.ContentLength` | PacketParse_Http/http_parser.c:1436-1576 | The loop over a Content-Length value returns the declared length, or nothing if it is malformed or too large. |
| `HttpNumeral.DeclaredMeans` | PacketParse_Http/http_parser.c:1436-1576 | A field value of digits followed by spaces declares the number that the digits spell, if it fits. |
| `HttpNumeral.DeclaredElse` | PacketParse_Http/http_parser.c:1436-1576 | No other field value declares a length. |
| `HttpNumeral.DigitMeans` | PacketParse_Http/http_parser.c:224-241 | An octet has a value exactly when it is one of the sixteen digits, small or capital, and the value is its place among them. |
| `HttpParser.Http.Execute` | PacketParse_Http/http_parser.c:641-2156 | One call has the effect of its bytes one at a time, and its callbacks are exactly those of its bytes unless chunk data is not followed by a line end and this call has read bytes of that chunk; exactly those bytes are then not reported. |
| `HttpParser.Http.ExecuteAll` | PacketParse_Http/http_parser.c:641-2156 | Several calls: the object and what it has reported are those of the calls on values, empty ones included. |
| `HttpParser.Http.Loop` | PacketParse_Http/http_parser.c:712-2118 | The byte loop with its body mark does what the bytes do one at a time, the marked bytes still to be reported. |
| `HttpParser.Http.Turn` | PacketParse_Http/http_parser.c:712-2118 | One turn of the loop; at most the body mark is set, and only in a body state. |
| `HttpParser.Http.ReadBody` | PacketParse_Http/http_parser.c:2078-2099 | Taking a run of body bytes at once is taking them one by one. |
| `HttpParser.Http.ReadIdentity` | PacketParse_Http/http_parser.c:1944-1978 | So it is for a body of given length, where the last byte completes the message. |
| `HttpParser.Http.Branch` | PacketParse_Http/http_parser.c:1795-2116 | The branches that look at one byte. |
| `HttpParser.Http.HeadersAlmostDone` | PacketParse_Http/http_parser.c:1795-1822 | The end of a header section or of trailers. |
| `HttpParser.Http.HeadersDone` | PacketParse_Http/http_parser.c:1874-1942 | Which kind of body follows. |
| `HttpParser.Http.ChunkSizeByte` | PacketParse_Http/http_parser.c:2012-2047 | A byte of a chunk size. |
| `HttpParser.Http.SizeLineEnd` | PacketParse_Http/http_parser.c:2060-2076 | The end of a size line. |
| `HttpParser.Http.MessageDone` | PacketParse_Http/http_parser.c:1987-1994 | The end of a message. |
| `HttpParser.Http.AtEof` | PacketParse_Http/http_parser.c:665-684 | A call without bytes completes a body that has no length and is an error elsewhere. |
| `HttpParser.Http.constructor` | PacketParse_Http/http_parser.c:641-658 | A parser in the state given. |
| `WebSocketStream.StreamSplitting` | PacketParse_Http/PacketParse_Http.cpp:67-138 | For every list of unfragmented frames that each fit the buffer and every way the bytes were cut into reads: the messages are those of the complete frames in order, the buffer holds exactly the unfinished prefix, and it is never full. |
| `WebSocketStream.SplitIndependence` | PacketParse_Http/PacketParse_Http.cpp:67-138 | For every byte stream with unfragmented frames the messages and the bytes kept do not depend on the reads. |
| `WebSocketStream.TakeConcat` | PacketParse_Http/PacketParse_Http.cpp:73-92 | Frames taken off a stream do not depend on where it is cut, for any bytes. |
| `WebSocketStream.FragmentedMessage` | PacketParse_Http/PacketParse_Http.cpp:95-128 | A fragmented message that arrives in one read is delivered whole exactly when its first fragment is empty. |
| `WebSocketStream.AssembleMeans` | PacketParse_Http/PacketParse_Http.cpp:67-138 | Any frames of one read: every final frame yields a message, in order; one that is no continuation yields its payload, and a continuation what all continuations since the last first fragment carry together. |
| `WebSocketStream.FragmentLost` | PacketParse_Http/PacketParse_Http.cpp:95-107 | Two frames that should make one message lose the first. |
| `WebSocketStream.Dispose` | PacketParse_Http/PacketParse_Http.cpp:67-138 | The loop appends the messages of the frames taken and leaves the rest in the buffer, for any bytes and fragmentation. |
| `WebSocketStream.OnData` | Common/SessionBuffer.hpp:24-35 | One read into the free space followed by the loop. |
| `WebSocketFrame.RoundTrip` | PacketParse_Http/WebsocketFormat.hpp:41-107 | A built frame, whatever follows it, is extracted as it was built if and only if its payload is shorter than 2^31 octets. |
| `WebSocketFrame.ExtractWaits` | PacketParse_Http/WebsocketFormat.hpp:123-213 | No frame is extracted before all of it is there, for any bytes. |
| `WebSocketFrame.ExtractStable` | PacketParse_Http/WebsocketFormat.hpp:123-213 | What follows a frame does not matter, for any bytes. |
| `WebSocketFrame.ExtractMeans` | PacketParse_Http/WebsocketFormat.hpp:123-212 | By the octets of the buffer: a frame is found exactly when all of one is there and its length is below 2^31, with final bit, opcode, size, and each octet of the payload the exclusive or (on bit-vectors) of an octet of the frame and the octet of the key at its place modulo 4. |
| `WebSocketFrame.FrameMeans` | PacketParse_Http/WebsocketFormat.hpp:41-107 | By the octets of the result: final bit, opcode, length modulo 2^32, key and masked payload lie where section 5.2 of RFC 6455 has them. |
| `WebSocketFrame.MaskMeans` | PacketParse_Http/WebsocketFormat.hpp:96-99 | Octet i of a masked payload is the exclusive or of octet i and octet i modulo 4 of the key, in the order of the frame. |
| `WebSocketFrame.AnnouncedMeans` | PacketParse_Http/WebsocketFormat.hpp:134-174 | The length field is read in full, as one number, and refused exactly when it is incomplete or 2^31 and more. |
| `WebSocketFrame.Build` | PacketParse_Http/WebsocketFormat.hpp:41-107 | The pushes of `wsFrameBuild` make the frame of section 5.2 of RFC 6455. |
| `WebSocketFrame.ExtractBuffer` | PacketParse_Http/WebsocketFormat.hpp:123-213 | `wsFrameExtractBuffer` finds the frame at the front of the buffer, or refuses; the payload is appended to the string given. |
| `WebSocketFrame.ReadLength` | PacketParse_Http/WebsocketFormat.hpp:140-178 | The length field, in its three forms, or a refusal. |
| `WebSocketFrame.MaskTwice` | PacketParse_Http/WebsocketFormat.hpp:96-99 | Masking twice is the identity. |
| `WebSocketHandshake.Handshake` | PacketParse_Http/WebsocketFormat.hpp:27-39 | The accept key is the Base64 text of the SHA-1 hash of the key and the fixed identifier, 28 characters. |
| `SessionBuffer.Buffer.Move` | Common/SessionBuffer.hpp:57-69 | Drops bytes at the front and keeps the others in order. |
| `SessionBuffer.Buffer.SetWriteData` | Common/SessionBuffer.hpp:24-35 | Accepts a length exactly when the 64-bit sum of sizes is within the capacity; one that fits the free space is always accepted. |
| `SessionBuffer.Buffer.Fill` | Common/SessionBuffer.hpp:24-40 | Bytes put at the write position and announced are appended. |
| `SessionBuffer.Buffer.FreeSpace` | Common/SessionBuffer.hpp:42-45 | The free space and the contents make up the capacity. |
| `SessionBuffer.Buffer.constructor` | Common/SessionBuffer.hpp:12-22 | A new buffer is empty. |
| `Base64.RoundTrip` | PacketParse_Http/Base64.hpp:18-101 | Decoding undoes encoding, for every byte string. |
| `Base64.Encode` | PacketParse_Http/Base64.hpp:18-59 | The loop through two small buffers computes the encoding of section 4 of RFC 4648. |
| `Base64.Decode` | PacketParse_Http/Base64.hpp:61-101 | The loop decodes the digits a string starts with; an unfinished group is completed with zero bits. |
| `Base64.DecodeTail` | PacketParse_Http/Base64.hpp:86-98 | The missing positions of an unfinished group look up to 255 and reach only octets that are dropped. |
| `Base64.EncodeTail` | PacketParse_Http/Base64.hpp:40-56 | One or two remaining octets give two or three digits and the padding. |
| `Base64.EncodingLength` | PacketParse_Http/Base64.hpp:18-59 | The length is four for every three octets begun. |
| `Base64.EncodingMeans` | PacketParse_Http/Base64.hpp:18-59 | An encoding is digits, then at most two padding characters; the digits stand for the octets encoded. |
| `Base64.Regroup` | PacketParse_Http/Base64.hpp:29-32 | The masks and shifts cut the 24-bit group into its four digits. |
| `Base64.OctetsJoined` | PacketParse_Http/Base64.hpp:76-78 | The masks and shifts glue four digits to the three octets of the group. |
| `Base64.FindLetter` | PacketParse_Http/Base64.hpp:8-11 | A digit is found at its value. |

## Left out

- KCP stream mode, `ikcp_setmtu` during a run, allocation failure, `ikcp_release`, `ikcp_waitsnd`, the log and allocator hooks: not part of this model.
- KcpEndpoint.Kcp.Receive: sizes that `ikcp_recv` and `ikcp_peeksize` add up are unbounded, where the source uses `int`.
- KcpGuarantees.PrefixDelivery: receive windows are at most 0x7FFF0000 and deliveries are recent or the run is short, because 32-bit numbers cannot tell older ones apart.
- KcpDelivery.CanDeliverAll: says that delivery is possible, not that a network will allow it; a liveness property of the network is not part of the source.  The send window is positive, as `ikcp_create` and `ikcp_wndsize` (ikcp.c:1272-1283) make it.
- KcpStall.NeverDelivered: chooses the send window, and for windows with a remainder other than zero turns congestion control off; whether every configuration can stall is not claimed.
- KcpRuns.DoublingFails: the run has nodelay 0 and a peer that never answers; other growth modes are covered by `KcpTiming.WaitsWhen` for one segment.
- KcpRuns.WindowRun: assumes that the largest window times the segment size fits 32 bits; with larger products the source wraps around.
- KcpGrowth.InputGrows: like `KcpGrowth.WindowOpens`, `KcpCongestion.OnAdvanceExact` and `KcpPass.FlushReacts`, under the same assumption.
- KcpSampling.SegmentSamples: gives the recurrence for samples below 2^28, as the `int` products of the source need; that an acknowledgement is taken as a sample, and in which order, is stated for all.
- HttpGrammar.ChunkedExactly: texts without trailer fields, where the model stops.
- Sha1.Sha.Update: a single call takes fewer than 2^32 - 128 bytes, as the 32-bit sums of the source need.
- Hashing of files and the hexadecimal report of `SHA1.hpp`: file input and formatting.
- HTTP request lines, status lines, header names, URLs, trailers and upgrades: the model starts where the header section ends and stops at a trailer field or at the next message.
- HttpNumeral.ContentLength: a repeated Content-Length field and folded header lines are not modelled.
- HTTP callbacks that fail or pause the parser: they only add early returns.
- WebSocketStream.StreamSplitting: speaks of unfragmented frames; what the loop makes of fragmented ones is `WebSocketStream.FragmentedMessage`.
- Message records, connection maps, `CKcpServer`, sockets, timers, thread queues, plugin loading, logging and configuration: input and output or bookkeeping.
- The splitter for packets with a 40-byte header: its test for a whole packet looks at the body length only (PacketParse_Interface/PacketParse_Interface.cpp:100); neither that test nor a corrected one is modelled.
- The typed read and write buffers: each moves one cursor, and their round trip is a single line.
