/** How a message is framed: when a body runs to the end of the connection, and what the callbacks
    of a chunked body add up to, whatever bytes arrive. */
module HttpFraming {
  import opened Serial
  import opened HttpNumeral
  import opened HttpBody

  /** The last coding is not chunked, so nothing in the message says where it ends. */
  predicate Unframed(h: Head) {
    h.coded && !h.chunked && !h.skip
  }

  /** At the end of the header section: an unframed request is an error unless the parser is
      lenient.  The parser reads to the end of the connection exactly when `http_message_needs_eof` says so,
      except that it also does for an unframed request that it tolerates and for an unframed
      response that has no body. */
  lemma EofAgrees(h: Head, p: Parser)
    requires p.errno == Ok
    ensures var s := OnHeadersDone(h, p).parser;
      && (s.errno == (if Unframed(h) && h.request && !h.lenient then InvalidTransferEncoding else Ok))
      && (s.state.BodyIdentityEof? <==>
            NeedsEof(h, p.length) || (Unframed(h) && (if h.request then h.lenient else Bodiless(h))))
      && (s.state.BodyIdentityEof? && NeedsEof(h, p.length) ==> !h.request && !Bodiless(h))
  {
  }

  /** A response 204 with a coding other than chunked: the parser reads to the end of the
      connection although `http_message_needs_eof` says that it need not. */
  lemma EofDisagrees(p: Parser) returns (h: Head)
    requires p.errno == Ok
    ensures !h.request && h.status == 204 && h.coded && !h.chunked && !h.skip
    ensures OnHeadersDone(h, p).parser.state.BodyIdentityEof? && !NeedsEof(h, p.length)
  {
    h := Head(false, 204, 1, 1, false, false, true, false, false, false, false, false);
  }

  /** A head whose two ways of giving the length contradict each other. */
  predicate Contradictory(h: Head) {
    h.coded && h.sized && (if h.chunked then !h.allowBoth else !h.lenient)
  }

  /** A request whose last coding is not chunked. */
  predicate Endless(h: Head) {
    Unframed(h) && h.request && !h.lenient
  }

  /** The message length by section 3.3.3 of RFC 7230: what the last byte of the header section leads to, each
      outcome for exactly the heads listed, and no other outcome. */
  lemma HeadOutcome(h: Head, p: Parser)
    requires Sound(h, p) && p.errno == Ok && p.state.HeadersAlmostDone? && !p.trailing && p.nread < MAX_HEADER
    ensures var s := Step(h, p, LF);
      var q, framed := s.parser, !h.skip && !h.chunked && !h.coded;
      && (q.errno == UnexpectedContentLength <==> Contradictory(h))
      && (q.errno == InvalidTransferEncoding <==> !Contradictory(h) && Endless(h))
      && (q.errno == Ok <==> !Contradictory(h) && !Endless(h))
      && (q.errno == Ok ==>
            && (q.state.ChunkSizeStart? <==> !h.skip && h.chunked)
            && (q.state.BodyIdentity? <==> framed && p.length != 0 && p.length != UNKNOWN)
            && (q.state.BodyIdentityEof? <==>
                  Unframed(h) || (framed && p.length == UNKNOWN && !h.request && !Bodiless(h)))
            && (s.events == [MessageComplete] <==>
                  h.skip || (framed && (p.length == 0 || (p.length == UNKNOWN && (h.request || Bodiless(h))))))
            && (s.events == [] || s.events == [MessageComplete]) && q.length == p.length && q.nread == 0)
  {
    NeedsEofMeans(h, p.length);
    hide NeedsEof, NewMessage;
  }

  // ----- the account of a chunked body

  /** What is owed to the callbacks: `Owes(n, last)` after a chunk header, `n` bytes short of the end. */
  datatype Account = Idle | Owes(n: nat, last: bool) | Closing | Closed | Wrong

  function Book(a: Account, e: Event): Account {
    match e
    case ChunkHeader(n) => if a.Idle? then Owes(n, n == 0) else Wrong
    case Byte(_) => if a.Owes? && a.n > 0 then Owes(a.n - 1, a.last) else Wrong
    case ChunkComplete => if a.Owes? && a.n == 0 then (if a.last then Closing else Idle) else Wrong
    case MessageComplete => if a.Closing? then Closed else Wrong
  }

  function BookAll(a: Account, events: seq<Event>): Account
    decreases |events|
  {
    if events == [] then a else BookAll(Book(a, events[0]), events[1..])
  }

  lemma {:induction false} BookConcat(a: Account, x: seq<Event>, y: seq<Event>)
    ensures BookAll(a, x + y) == BookAll(BookAll(a, x), y)
    decreases |x|
  {
    if x == [] {
      assert x + y == y;
    } else {
      assert (x + y)[1..] == x[1..] + y;
      BookConcat(Book(a, x[0]), x[1..], y);
    }
  }

  /** The account each state of the parser stands for. */
  function Expected(p: Parser): Account {
    match p.state
    case ChunkSizeStart | ChunkSize | ChunkParameters | ChunkSizeAlmostDone => Idle
    case ChunkData => Owes(p.length, false)
    case ChunkDataAlmostDone | ChunkDataDone => Owes(0, false)
    case HeaderFieldStart | HeadersAlmostDone | Trailer => Owes(0, true)
    case Start | Dead => Closed
    case HeadersDone | BodyIdentity | BodyIdentityEof => Wrong
  }

  predicate InChunked(p: Parser) {
    InChunks(p.state) || (p.trailing && (p.state.HeaderFieldStart? || p.state.HeadersAlmostDone? || p.state.Trailer?))
    || p.state.Start? || p.state.Dead?
  }

  lemma BookOne(a: Account, e: Event)
    ensures BookAll(a, [e]) == Book(a, e) && BookAll(a, []) == a
  {
    assert BookAll(Book(a, e), [e][1..]) == Book(a, e);
  }

  lemma BookTwo(a: Account, e: Event, f: Event)
    ensures BookAll(a, [e] + [f]) == Book(Book(a, e), f)
  {
    BookConcat(a, [e], [f]);
    BookOne(a, e);
    BookOne(Book(a, e), f);
  }

  lemma StepBooked(h: Head, p: Parser, ch: byte)
    requires Live(p) && Sound(h, p) && InChunked(p)
    ensures var s := Step(h, p, ch);
      InChunked(s.parser) && BookAll(Expected(p), s.events) == Expected(s.parser)
  {
    hide NewMessage, Push, BookAll;
    BookTwo(Expected(p), ChunkComplete, MessageComplete);
    BookOne(Expected(p), ChunkHeader(p.length));
    BookOne(Expected(p), Byte(ch));
    BookOne(Expected(p), ChunkComplete);
  }

  /** Whatever bytes arrive in a chunked body, the callbacks balance: each `chunk_header` is
      followed by exactly as many body bytes as it announced before `chunk_complete` is
      called, and the message completes only after the chunk that announced none. */
  lemma {:induction false} RunBooked(h: Head, p: Parser, data: seq<byte>)
    requires Sound(h, p) && InChunked(p)
    ensures var r := Run(h, p, data);
      InChunked(r.parser) && BookAll(Expected(p), r.events) == Expected(r.parser) && !Expected(r.parser).Wrong?
    decreases |data|
  {
    hide Step, BookAll, Sound;
    BookOne(Expected(p), MessageComplete);
    if data != [] && Live(p) {
      StepBooked(h, p, data[0]);
      StepSound(h, p, data[0]);
      var s := Step(h, p, data[0]);
      if !Stuck(s.parser) {
        RunBooked(h, s.parser, data[1..]);
        BookConcat(Expected(p), s.events, Run(h, s.parser, data[1..]).events);
      }
    }
  }
}
