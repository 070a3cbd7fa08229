/** What the parser makes of a chunked body (section 4.1 of RFC 7230) and of a body of
    a given length (section 3.3.3 of RFC 7230). */
module HttpChunked {
  import opened Serial
  import opened HttpNumeral
  import opened HttpBody

  // ----- the coding

  /** A chunk: its size in hexadecimal digits, an extension, and its data. */
  datatype Chunk = Chunk(digits: seq<byte>, extension: seq<byte>, data: seq<byte>)

  function HexDigits(b: seq<byte>): seq<nat>
    requires forall i :: 0 <= i < |b| ==> Unhex(b[i]) >= 0
  {
    seq(|b|, i requires 0 <= i < |b| => Unhex(b[i]))
  }

  predicate Extension(e: seq<byte>) {
    e == [] || ((e[0] == SEMICOLON || e[0] == SPACE) && CR !in e)
  }

  /** A chunk a sender may write: the digits say how long the data is, and the size
      line is no longer than the parser lets a header be. */
  ghost predicate WellFormed(c: Chunk) {
    && 0 < |c.digits| && (forall i :: 0 <= i < |c.digits| ==> Unhex(c.digits[i]) >= 0)
    && Value(16, HexDigits(c.digits)) == |c.data| < UNKNOWN - 15
    && Extension(c.extension)
    && |c.digits| + |c.extension| + 2 <= MAX_HEADER
  }

  function SizeLine(c: Chunk): seq<byte> {
    c.digits + c.extension + [CR, LF]
  }

  function Coded(c: Chunk): seq<byte> {
    SizeLine(c) + c.data + [CR, LF]
  }

  function Data(d: seq<byte>): seq<Event> {
    seq(|d|, i requires 0 <= i < |d| => Byte(d[i]))
  }

  // ----- the parts of a chunk

  predicate At(h: Head, p: Parser, s: State) {
    Sound(h, p) && p.errno == Ok && p.state == s && !p.trailing && h.chunked && !h.skip
  }

  lemma {:induction false} DigitsRun(h: Head, p: Parser, ds: seq<byte>)
    requires At(h, p, ChunkSize) && p.nread + |ds| <= MAX_HEADER
    requires forall i :: 0 <= i < |ds| ==> Unhex(ds[i]) >= 0
    requires Accumulate(16, p.length, HexDigits(ds)).Some?
    ensures var v := Accumulate(16, p.length, HexDigits(ds)).value;
      Run(h, p, ds) == Ran(p.(length := v, nread := p.nread + |ds|), [], |ds|)
    decreases |ds|
  {
    hide Push, Unhex;
    if ds != [] {
      var ns := HexDigits(ds);
      PushExact(16, p.length, Unhex(ds[0]));
      var q := p.(length := Push(16, p.length, ns[0]).value, nread := p.nread + 1);
      assert ns[1..] == HexDigits(ds[1..]);
      assert Step(h, p, ds[0]) == Stepped(q, []) by {
        DigitNotMark(ds[0]);
      }
      DigitsRun(h, q, ds[1..]);
    }
  }

  lemma DigitNotMark(ch: byte)
    requires Unhex(ch) >= 0
    ensures ch != CR && ch != LF && ch != SEMICOLON && ch != SPACE
  {
  }

  lemma {:induction false} ParametersRun(h: Head, p: Parser, e: seq<byte>)
    requires At(h, p, ChunkParameters) && p.nread + |e| <= MAX_HEADER && CR !in e
    ensures Run(h, p, e) == Ran(p.(nread := p.nread + |e|), [], |e|)
    decreases |e|
  {
    if e != [] {
      var q := p.(nread := p.nread + 1);
      assert Step(h, p, e[0]) == Stepped(q, []);
      ParametersRun(h, q, e[1..]);
    }
  }

  /** Body bytes, as many as the chunk has left or fewer. */
  lemma {:induction false} DataRun(h: Head, p: Parser, d: seq<byte>)
    requires Sound(h, p) && p.errno == Ok && p.state.ChunkData? && |d| <= p.length
    ensures var n := p.length - |d|;
      Run(h, p, d) == Ran(p.(length := n, state := if n == 0 then ChunkDataAlmostDone else ChunkData), Data(d), |d|)
    decreases |d|
  {
    if d != [] {
      var n := p.length - 1;
      var q := p.(length := n, state := if n == 0 then ChunkDataAlmostDone else ChunkData);
      assert Step(h, p, d[0]) == Stepped(q, [Byte(d[0])]);
      assert Data(d) == [Byte(d[0])] + Data(d[1..]);
      if n == 0 {
        assert d[1..] == [];
      } else {
        DataRun(h, q, d[1..]);
      }
    }
  }

  lemma One(h: Head, p: Parser, ch: byte)
    requires Sound(h, p) && Live(p) && !Stuck(Step(h, p, ch).parser)
    ensures Run(h, p, [ch]) == Ran(Step(h, p, ch).parser, Step(h, p, ch).events, 1)
  {
    hide Step;
    StepSound(h, p, ch);
    var s := Step(h, p, ch);
    assert Run(h, s.parser, [ch][1..]) == Ran(s.parser, [], 0);
  }

  lemma SizeAccepted(ds: seq<nat>)
    requires Numeral(16, ds) && Value(16, ds) < UNKNOWN - 15
    ensures Parse(16, ds) == Some(Value(16, ds))
  {
    ParseExact(16, ds);
    var front := ds[..|ds| - 1];
    assert Value(16, ds) == Value(16, front) * 16 + ds[|ds| - 1];
  }

  /** The digits of a size line. */
  lemma NumeralRun(h: Head, p: Parser, c: Chunk)
    requires At(h, p, ChunkSizeStart) && WellFormed(c)
    ensures Run(h, p, c.digits) == Ran(p.(state := ChunkSize, length := |c.data|, nread := |c.digits|), [], |c.digits|)
  {
    var ds := c.digits;
    var ns := HexDigits(ds);
    var q := p.(state := ChunkSize, length := ns[0], nread := 1);
    assert Step(h, p, ds[0]) == Stepped(q, []);
    assert At(h, q, ChunkSize);
    SizeAccepted(ns);
    assert HexDigits(ds[1..]) == ns[1..];
    DigitsRun(h, q, ds[1..]);
  }

  lemma SizeLineSteps(h: Head, p: Parser, ch: byte)
    requires (At(h, p, ChunkSize) || At(h, p, ChunkParameters)) && p.nread < MAX_HEADER
    ensures ch == CR ==> Step(h, p, ch) == Stepped(p.(state := ChunkSizeAlmostDone, nread := p.nread + 1), [])
    ensures ch == SEMICOLON || ch == SPACE ==> Step(h, p, ch) == Stepped(p.(state := ChunkParameters, nread := p.nread + 1), [])
  {
  }

  lemma ParametersEnd(h: Head, p: Parser, e: seq<byte>)
    requires At(h, p, ChunkParameters) && p.nread + |e| + 1 <= MAX_HEADER && CR !in e
    ensures Run(h, p, e + [CR]) == Ran(p.(state := ChunkSizeAlmostDone, nread := p.nread + |e| + 1), [], |e| + 1)
  {
    hide Run, Step;
    ParametersRun(h, p, e);
    var q := p.(nread := p.nread + |e|);
    SizeLineSteps(h, q, CR);
    One(h, q, CR);
    RunConcat(h, p, e, [CR]);
  }

  lemma ExtensionRun(h: Head, p: Parser, e: seq<byte>)
    requires At(h, p, ChunkSize) && Extension(e) && p.nread + |e| + 1 <= MAX_HEADER
    ensures Run(h, p, e + [CR]) == Ran(p.(state := ChunkSizeAlmostDone, nread := p.nread + |e| + 1), [], |e| + 1)
  {
    hide Run, Step;
    SizeLineSteps(h, p, if e == [] then CR else e[0]);
    if e == [] {
      One(h, p, CR);
      assert e + [CR] == [CR];
    } else {
      var q := p.(state := ChunkParameters, nread := p.nread + 1);
      One(h, p, e[0]);
      ParametersEnd(h, q, e[1..]);
      assert e + [CR] == [e[0]] + (e[1..] + [CR]);
      RunConcat(h, p, [e[0]], e[1..] + [CR]);
    }
  }

  function AfterSizeLine(p: Parser, c: Chunk): Parser
    requires |c.data| < UNKNOWN
  {
    if c.data == [] then p.(state := HeaderFieldStart, length := 0, trailing := true, nread := 0)
    else p.(state := ChunkData, length := |c.data|, nread := 0)
  }

  lemma SizeLineRun(h: Head, p: Parser, c: Chunk)
    requires At(h, p, ChunkSizeStart) && WellFormed(c)
    ensures Run(h, p, SizeLine(c)) == Ran(AfterSizeLine(p, c), [ChunkHeader(|c.data|)], |SizeLine(c)|)
  {
    hide Run;
    NumeralRun(h, p, c);
    var k := |c.digits|;
    var q := p.(state := ChunkSize, length := |c.data|, nread := k);
    ExtensionRun(h, q, c.extension);
    RunConcat(h, p, c.digits, c.extension + [CR]);
    var r := q.(state := ChunkSizeAlmostDone, nread := k + |c.extension| + 1);
    One(h, r, LF);
    var front := c.digits + (c.extension + [CR]);
    RunConcat(h, p, front, [LF]);
    assert SizeLine(c) == front + [LF];
  }

  function ChunkEvents(c: Chunk): seq<Event>
    requires |c.data| < UNKNOWN
  {
    [ChunkHeader(|c.data|)] + Data(c.data) + [ChunkComplete]
  }

  /** A whole chunk: its data comes out, and the parser is ready for the next. */
  lemma ChunkRun(h: Head, p: Parser, c: Chunk)
    requires At(h, p, ChunkSizeStart) && WellFormed(c) && c.data != []
    ensures Run(h, p, Coded(c)) == Ran(p.(length := 0, nread := 0), ChunkEvents(c), |Coded(c)|)
  {
    hide Run;
    SizeLineRun(h, p, c);
    var q := AfterSizeLine(p, c);
    DataRun(h, q, c.data);
    RunConcat(h, p, SizeLine(c), c.data);
    var r := q.(length := 0, state := ChunkDataAlmostDone);
    One(h, r, CR);
    var s := r.(state := ChunkDataDone);
    One(h, s, LF);
    RunConcat(h, r, [CR], [LF]);
    assert [CR] + [LF] == [CR, LF];
    RunConcat(h, p, SizeLine(c) + c.data, [CR, LF]);
  }

  // ----- a whole body

  function CodedAll(cs: seq<Chunk>): seq<byte> {
    if cs == [] then [] else Coded(cs[0]) + CodedAll(cs[1..])
  }

  ghost predicate AllWellFormed(cs: seq<Chunk>) {
    forall i :: 0 <= i < |cs| ==> WellFormed(cs[i]) && cs[i].data != []
  }

  function AllEvents(cs: seq<Chunk>): seq<Event>
    requires forall i :: 0 <= i < |cs| ==> |cs[i].data| < UNKNOWN
  {
    if cs == [] then [] else ChunkEvents(cs[0]) + AllEvents(cs[1..])
  }

  function AllData(cs: seq<Chunk>): seq<byte> {
    if cs == [] then [] else cs[0].data + AllData(cs[1..])
  }

  lemma {:induction false} ChunksRun(h: Head, p: Parser, cs: seq<Chunk>)
    requires At(h, p, ChunkSizeStart) && AllWellFormed(cs)
    ensures var n := if cs == [] then p.length else 0;
      Run(h, p, CodedAll(cs)) == Ran(p.(length := n), AllEvents(cs), |CodedAll(cs)|)
    decreases |cs|
  {
    hide WellFormed, Coded;
    if cs != [] {
      ChunkRun(h, p, cs[0]);
      var q := p.(length := 0, nread := 0);
      ChunksRun(h, q, cs[1..]);
      RunConcat(h, p, Coded(cs[0]), CodedAll(cs[1..]));
    }
  }

  /** The header section of a chunked message is about to end. */
  predicate ExpectsChunks(h: Head, p: Parser) {
    && Sound(h, p) && p.errno == Ok && p.state.HeadersAlmostDone? && !p.trailing && p.nread < MAX_HEADER
    && h.chunked && !h.skip && (h.coded && h.sized ==> h.allowBoth)
  }

  /** The bytes from the end of the header section to the last but one of the message. */
  function Unfinished(cs: seq<Chunk>, last: Chunk): seq<byte> {
    [LF] + CodedAll(cs) + SizeLine(last) + [CR]
  }

  function Message(cs: seq<Chunk>, last: Chunk): seq<byte> {
    Unfinished(cs, last) + [LF]
  }

  ghost predicate Body(cs: seq<Chunk>, last: Chunk) {
    AllWellFormed(cs) && WellFormed(last) && last.data == []
  }

  lemma FirstChunks(h: Head, p: Parser, cs: seq<Chunk>)
    requires ExpectsChunks(h, p) && AllWellFormed(cs)
    ensures var q := p.(state := ChunkSizeStart, nread := 0, length := if cs == [] then p.length else 0);
      Run(h, p, [LF] + CodedAll(cs)) == Ran(q, AllEvents(cs), |CodedAll(cs)| + 1)
  {
    hide Run, WellFormed, CodedAll, AllEvents;
    One(h, p, LF);
    ChunksRun(h, p.(state := ChunkSizeStart, nread := 0), cs);
    RunConcat(h, p, [LF], CodedAll(cs));
  }

  lemma LastLine(h: Head, p: Parser, last: Chunk)
    requires At(h, p, ChunkSizeStart) && WellFormed(last) && last.data == []
    ensures Run(h, p, SizeLine(last) + [CR]) == Ran(
        p.(state := HeadersAlmostDone, length := 0, trailing := true, nread := 1), [ChunkHeader(0)], |SizeLine(last)| + 1)
  {
    hide Run, WellFormed, SizeLine;
    SizeLineRun(h, p, last);
    var q := AfterSizeLine(p, last);
    One(h, q, CR);
    RunConcat(h, p, SizeLine(last), [CR]);
  }

  lemma UnfinishedRun(h: Head, p: Parser, cs: seq<Chunk>, last: Chunk)
    requires ExpectsChunks(h, p) && Body(cs, last)
    ensures Run(h, p, Unfinished(cs, last))
      == Ran(p.(length := 0, nread := 1, trailing := true), AllEvents(cs) + [ChunkHeader(0)], |Unfinished(cs, last)|)
  {
    hide Run, WellFormed, CodedAll, AllEvents, SizeLine;
    var q := p.(state := ChunkSizeStart, nread := 0, length := if cs == [] then p.length else 0);
    FirstChunks(h, p, cs);
    LastLine(h, q, last);
    RunConcat(h, p, [LF] + CodedAll(cs), SizeLine(last) + [CR]);
    assert Unfinished(cs, last) == [LF] + CodedAll(cs) + (SizeLine(last) + [CR]);
  }

  lemma MessageRun(h: Head, p: Parser, cs: seq<Chunk>, last: Chunk)
    requires ExpectsChunks(h, p) && Body(cs, last)
    ensures var r := Run(h, p, Message(cs, last));
      && r.events == AllEvents(cs) + [ChunkHeader(0), ChunkComplete, MessageComplete]
      && r.used == |Message(cs, last)|
      && r.parser.errno == Ok && r.parser.nread == 2 && r.parser.state == (if Persistent(h) then Start else Dead)
  {
    hide Run, WellFormed, Unfinished;
    UnfinishedRun(h, p, cs, last);
    var q := p.(length := 0, nread := 1, trailing := true);
    One(h, q, LF);
    RunConcat(h, p, Unfinished(cs, last), [LF]);
  }
}
