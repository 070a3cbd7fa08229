/** The body phase of the HTTP parser, one byte at a time.

    `Step` says what one byte does to the parser and which callbacks it causes.  The
    loop of the program handles a run of body bytes at once and reports them late; it
    is proved equal to this machine in module HttpParser. */
module HttpBody {
  import opened Serial
  import opened HttpNumeral

  const CR: byte := 13
  const LF: byte := 10
  const SPACE: byte := 32
  const SEMICOLON: byte := 59
  const MAX_HEADER: nat := 80 * 1024

  datatype State =
    | HeadersAlmostDone | HeadersDone | HeaderFieldStart
    | ChunkSizeStart | ChunkSize | ChunkParameters | ChunkSizeAlmostDone
    | ChunkData | ChunkDataAlmostDone | ChunkDataDone
    | BodyIdentity | BodyIdentityEof
    | Dead      // after the last message of a connection
    | Start     // the next message begins
    | Trailer   // a trailer field begins

  datatype Error =
    | Ok | Strict | UnexpectedContentLength | InvalidTransferEncoding | InvalidChunkSize
    | InvalidContentLength | HeaderOverflow | ClosedConnection | InvalidEofState

  /** What the header section said; `skip` is the answer of `on_headers_complete`. */
  datatype Head = Head(request: bool, status: nat, major: nat, minor: nat, close: bool, keepAlive: bool,
                       coded: bool, sized: bool, chunked: bool, skip: bool, lenient: bool, allowBoth: bool)

  datatype Parser = Parser(state: State, length: u64, nread: nat, trailing: bool, errno: Error)

  /** The callbacks; `on_body` counts byte by byte. */
  datatype Event = Byte(b: byte) | ChunkHeader(n: u64) | ChunkComplete | MessageComplete

  datatype Stepped = Stepped(parser: Parser, events: seq<Event>)

  /** `http_message_needs_eof`. */
  predicate NeedsEof(h: Head, length: u64) {
    if h.request then false
    else if h.status / 100 == 1 || h.status == 204 || h.status == 304 || h.skip then false
    else if h.coded && !h.chunked then true
    else !(h.chunked || length != UNKNOWN)
  }

  /** `http_should_keep_alive`. */
  predicate KeepAlive(h: Head, length: u64) {
    if h.major > 0 && h.minor > 0 then !h.close && !NeedsEof(h, length)
    else h.keepAlive && !NeedsEof(h, length)
  }

  // The same by what the standard says, section 6.3 of RFC 7230, with the test for the version that the program makes.

  /** A connection persists unless closed from version 1.1 on, and only if kept alive before. */
  predicate Persistent(h: Head) {
    if h.major > 0 && h.minor > 0 then !h.close else h.keepAlive
  }

  /** A response that has no body whatever its header fields say. */
  predicate Bodiless(h: Head) {
    h.status / 100 == 1 || h.status == 204 || h.status == 304
  }

  /** Something in the message says where it ends. */
  predicate SelfDelimited(h: Head, length: u64) {
    h.request || Bodiless(h) || h.skip || h.chunked || (!h.coded && length != UNKNOWN)
  }

  lemma NeedsEofMeans(h: Head, length: u64)
    ensures NeedsEof(h, length) <==> !SelfDelimited(h, length)
  {
  }

  lemma KeepAliveMeans(h: Head, length: u64)
    ensures KeepAlive(h, length) <==> Persistent(h) && SelfDelimited(h, length)
  {
  }

  function NewMessage(h: Head, length: u64): (s: State)
    ensures s.Start? || s.Dead?
  {
    if KeepAlive(h, length) then Start else Dead
  }

  function Fail(p: Parser, e: Error): Stepped {
    Stepped(p.(errno := e), [])
  }

  function MessageDone(h: Head, p: Parser, events: seq<Event>): Stepped {
    Stepped(p.(state := NewMessage(h, p.length)), events + [MessageComplete])
  }

  /** The end of the header section: what kind of body follows. */
  function OnHeadersDone(h: Head, p0: Parser): Stepped {
    var p := p0.(state := HeadersDone, nread := 0);
    if h.skip then MessageDone(h, p, [])
    else if h.chunked then Stepped(p.(state := ChunkSizeStart), [])
    else if h.coded then
      if h.request && !h.lenient then Fail(p, InvalidTransferEncoding)
      else Stepped(p.(state := BodyIdentityEof), [])
    else if p.length == 0 then MessageDone(h, p, [])
    else if p.length != UNKNOWN then Stepped(p.(state := BodyIdentity), [])
    else if !NeedsEof(h, p.length) then MessageDone(h, p, [])
    else Stepped(p.(state := BodyIdentityEof), [])
  }

  function OnHeadersAlmostDone(h: Head, p: Parser, ch: byte): Stepped {
    if ch != LF then Fail(p, Strict)
    else if p.trailing then MessageDone(h, p, [ChunkComplete])
    else if h.coded && h.sized && (if h.chunked then !h.allowBoth else !h.lenient) then Fail(p, UnexpectedContentLength)
    else OnHeadersDone(h, p)
  }

  function OnChunkSize(p: Parser, ch: byte): Stepped {
    if ch == CR then Stepped(p.(state := ChunkSizeAlmostDone), [])
    else if Unhex(ch) == -1 then
      if ch == SEMICOLON || ch == SPACE then Stepped(p.(state := ChunkParameters), [])
      else Fail(p, InvalidChunkSize)
    else
      var t := Push(16, p.length, Unhex(ch));
      if t.None? then Fail(p, InvalidContentLength) else Stepped(p.(length := t.value), [])
  }

  function OnSizeLineEnd(p: Parser, ch: byte): Stepped {
    if ch != LF then Fail(p, Strict)
    else if p.length == 0 then
      Stepped(p.(state := HeaderFieldStart, trailing := true, nread := 0), [ChunkHeader(0)])
    else Stepped(p.(state := ChunkData, nread := 0), [ChunkHeader(p.length)])
  }

  predicate CountsAsHeader(s: State) {
    !(s.ChunkData? || s.ChunkDataAlmostDone? || s.ChunkDataDone? || s.BodyIdentity? || s.BodyIdentityEof?)
  }

  predicate Live(p: Parser) {
    p.errno == Ok && !p.state.Start? && !p.state.Trailer? && !p.state.HeadersDone?
  }

  // ----- the asserts of the program

  predicate InChunks(s: State) {
    s.ChunkSizeStart? || s.ChunkSize? || s.ChunkParameters? || s.ChunkSizeAlmostDone?
    || s.ChunkData? || s.ChunkDataAlmostDone? || s.ChunkDataDone?
  }

  /** The asserts that stand in the branches of the program. */
  predicate Asserts(h: Head, p: Parser) {
    && (InChunks(p.state) ==> h.chunked)
    && (p.state.ChunkSizeStart? ==> p.nread == 1)
    && (p.state.ChunkData? || p.state.BodyIdentity? ==> p.length != 0 && p.length != UNKNOWN)
    && (p.state.ChunkDataAlmostDone? ==> p.length == 0)
  }

  /** The invariant between two bytes that makes them hold. */
  predicate Sound(h: Head, p: Parser) {
    && (p.errno == Ok ==> p.nread <= MAX_HEADER)
    && (p.state.ChunkSizeStart? && p.errno == Ok ==> p.nread == 0)
    && (InChunks(p.state) || p.trailing || p.state.HeaderFieldStart? ==> h.chunked)
    && (p.state.HeaderFieldStart? ==> p.trailing)
    && (p.state.HeadersDone? ==> p.errno != Ok)
    && (p.state.ChunkData? || p.state.BodyIdentity? ==> p.length != 0 && p.length != UNKNOWN)
    && (p.state.ChunkDataAlmostDone? ==> p.length == 0)
    && (p.state.ChunkSize? || p.state.ChunkParameters? || p.state.ChunkSizeAlmostDone? ==> p.length != UNKNOWN)
  }

  function Switch(h: Head, p: Parser, ch: byte): Stepped
    requires Live(p) && Asserts(h, p)
  {
    match p.state
    case HeadersAlmostDone => OnHeadersAlmostDone(h, p, ch)
    case HeaderFieldStart =>
      if ch == CR then Stepped(p.(state := HeadersAlmostDone), [])
      else if ch == LF then OnHeadersAlmostDone(h, p.(state := HeadersAlmostDone), ch)
      else Stepped(p.(state := Trailer), [])
    case ChunkSizeStart =>
      if Unhex(ch) == -1 then Fail(p, InvalidChunkSize)
      else Stepped(p.(state := ChunkSize, length := Unhex(ch)), [])
    case ChunkSize => OnChunkSize(p, ch)
    case ChunkParameters => Stepped(if ch == CR then p.(state := ChunkSizeAlmostDone) else p, [])
    case ChunkSizeAlmostDone => OnSizeLineEnd(p, ch)
    case ChunkData =>
      var n := p.length - 1;
      Stepped(p.(length := n, state := if n == 0 then ChunkDataAlmostDone else ChunkData), [Byte(ch)])
    case ChunkDataAlmostDone =>
      if ch != CR then Fail(p, Strict) else Stepped(p.(state := ChunkDataDone), [])
    case ChunkDataDone =>
      if ch != LF then Fail(p, Strict) else Stepped(p.(state := ChunkSizeStart, nread := 0), [ChunkComplete])
    case BodyIdentity =>
      var n := p.length - 1;
      if n == 0 then MessageDone(h, p.(length := 0), [Byte(ch)]) else Stepped(p.(length := n), [Byte(ch)])
    case BodyIdentityEof => Stepped(p, [Byte(ch)])
    case Dead => if ch == CR || ch == LF then Stepped(p, []) else Fail(p, ClosedConnection)
  }

  function Step(h: Head, p: Parser, ch: byte): Stepped
    requires Live(p) && Sound(h, p)
  {
    if !CountsAsHeader(p.state) then Switch(h, p, ch)
    else if p.nread + 1 > MAX_HEADER then Fail(p.(nread := p.nread + 1), HeaderOverflow)
    else Switch(h, p.(nread := p.nread + 1), ch)
  }

  /** A call without bytes: the end of the connection.  It completes a body that has no length, is
      ignored between messages, and is an error elsewhere. */
  function Eof(p: Parser): Stepped {
    if p.state.BodyIdentityEof? then Stepped(p, [MessageComplete])
    else if p.state.Dead? || p.state.Start? then Stepped(p, [])
    else Fail(p, InvalidEofState)
  }

  /** Whatever byte comes, the asserts hold again after it. */
  lemma StepSound(h: Head, p: Parser, ch: byte)
    requires Live(p) && Sound(h, p)
    ensures Sound(h, Step(h, p, ch).parser)
  {
    hide NewMessage, NeedsEof, Push;
    if p.state.ChunkSize? && Unhex(ch) >= 0 {
      PushExact(16, p.length, Unhex(ch));
    }
  }

  /** What one call makes of its bytes: it stops at an error and where the modelled phase ends. */
  datatype Ran = Ran(parser: Parser, events: seq<Event>, used: nat)

  predicate Stuck(p: Parser) {
    p.errno != Ok || p.state.Trailer?
  }

  function Run(h: Head, p: Parser, data: seq<byte>): (r: Ran)
    requires Sound(h, p)
    ensures Sound(h, r.parser) && r.used <= |data|
    decreases |data|
  {
    if data == [] || !Live(p) then Ran(p, [], 0) else
    var s := Step(h, p, data[0]);
    StepSound(h, p, data[0]);
    if Stuck(s.parser) then Ran(s.parser, s.events, 0) else
    var r := Run(h, s.parser, data[1..]);
    Ran(r.parser, s.events + r.events, r.used + 1)
  }

  lemma StuckIsOver(p: Parser)
    ensures Stuck(p) ==> !Live(p)
  {}

  lemma Associative(a: seq<Event>, b: seq<Event>, c: seq<Event>)
    ensures a + (b + c) == a + b + c
  {}

  /** Some bytes and then others have the effect of both together. */
  lemma {:induction false} RunConcat(h: Head, p: Parser, a: seq<byte>, b: seq<byte>)
    requires Sound(h, p)
    ensures var r := Run(h, p, a);
      var s := Run(h, r.parser, b);
      Run(h, p, a + b) == Ran(s.parser, r.events + s.events, r.used + s.used)
    decreases |a|
  {
    hide Step, Sound, Live, Stuck;
    if a == [] {
      assert a + b == b;
      assert [] + Run(h, p, b).events == Run(h, p, b).events;
    } else if Live(p) {
      StepSound(h, p, a[0]);
      var s := Step(h, p, a[0]);
      assert (a + b)[1..] == a[1..] + b && (a + b)[0] == a[0];
      if Stuck(s.parser) {
        StuckIsOver(s.parser);
      } else {
        RunConcat(h, s.parser, a[1..], b);
        var r := Run(h, s.parser, a[1..]);
        Associative(s.events, r.events, Run(h, r.parser, b).events);
      }
    }
  }
}
