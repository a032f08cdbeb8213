/** The body part of the HTTP/1.x parser (sections 3.3.3 and 4.1 of RFC 7230), as a function of single bytes. */
module HttpSteps {
  const MAX_HEADER_SIZE: int := 80 * 1024
  /** The value of content_length that means there is none. */
  const ABSENT: int := 0xFFFF_FFFF_FFFF_FFFF
  const CR: char := '\r'
  const LF: char := '\n'

  /** What the header lines have settled, and the application's answer to on_headers_complete. */
  datatype Head = Head(isRequest: bool, statusCode: nat, isConnect: bool, upgrade: bool, chunked: bool,
                       usesTransferEncoding: bool, skipBody: bool, lenient: bool, http11: bool,
                       connectionClose: bool, connectionKeepAlive: bool)

  datatype State =
    | HeadersDone | ChunkSizeStart | ChunkSize | ChunkParameters | ChunkSizeAlmostDone
    | TrailerStart | TrailerAlmostDone
    | ChunkData | ChunkDataAlmostDone | ChunkDataDone
    | BodyIdentity | BodyIdentityEof
    | NextMessage | Dead      // where the model ends: the next message, or the connection is to be closed
    | TrailerField            // where the model ends: a trailer that is not empty

  datatype Error = NoError | HeaderOverflow | Strict | InvalidTransferEncoding | InvalidChunkSize | InvalidContentLength
                 | InvalidEofState

  /** What the callbacks report; a data callback counts as one mark for each byte. */
  datatype Mark = Body(b: char) | ChunkHeader | ChunkComplete | MessageComplete

  datatype Parser = Parser(state: State, error: Error, contentLength: nat, nread: nat, trailing: bool, log: seq<Mark>)

  function Unhex(ch: char): int {
    if '0' <= ch <= '9' then ch as int - '0' as int
    else if 'a' <= ch <= 'f' then ch as int - 'a' as int + 10
    else if 'A' <= ch <= 'F' then ch as int - 'A' as int + 10
    else -1
  }

  predicate MessageNeedsEof(h: Head, contentLength: nat)
    ensures MessageNeedsEof(h, contentLength) <==> !SelfDelimited(h, contentLength)
  {
    if h.isRequest then false
    else if h.statusCode / 100 == 1 || h.statusCode == 204 || h.statusCode == 304 || h.skipBody then false
    else if h.usesTransferEncoding && !h.chunked then true
    else if h.chunked || contentLength != ABSENT then false
    else true
  }

  /** Whether the connection stays open, which is what section 6.3 of RFC 7230 says, with one exception. */
  predicate ShouldKeepAlive(h: Head, contentLength: nat)
    ensures ShouldKeepAlive(h, contentLength)
            <==> (Rfc7230Persists(h, contentLength) || BothOptions(h, contentLength))
    ensures !(Rfc7230Persists(h, contentLength) && BothOptions(h, contentLength))
  {
    && (if h.http11 then !h.connectionClose else h.connectionKeepAlive)
    && !MessageNeedsEof(h, contentLength)
  }

  /** The states whose bytes count against the header size limit. */
  predicate ParsingHeader(s: State) {
    s.HeadersDone? || s.ChunkSizeStart? || s.ChunkSize? || s.ChunkParameters? || s.ChunkSizeAlmostDone?
    || s.TrailerStart? || s.TrailerAlmostDone?
  }

  function Finished(h: Head, p: Parser): Parser {
    p.(state := if ShouldKeepAlive(h, p.contentLength) then NextMessage else Dead, log := p.log + [MessageComplete])
  }

  function Fail(p: Parser, e: Error): Parser { p.(error := e) }

  /** What the parser keeps true between bytes. */
  predicate Ok(p: Parser) {
    && p.contentLength <= ABSENT && (p.error == NoError ==> p.nread <= MAX_HEADER_SIZE)
    && (p.state.ChunkData? || p.state.BodyIdentity? ==> 0 < p.contentLength < ABSENT)
    && (p.state.ChunkSize? || p.state.ChunkParameters? || p.state.ChunkSizeAlmostDone? ==> p.contentLength < ABSENT)
    && (p.state.ChunkDataAlmostDone? ==> p.contentLength == 0)
    && (p.state.TrailerStart? || p.state.TrailerAlmostDone? ==> p.trailing)
  }

  /** A size line is counted from its first byte, which the code asserts when it sees that byte. */
  predicate FreshLine(p: Parser) {
    p.state.ChunkSizeStart? ==> p.error != NoError || p.nread == 0
  }

  /** The byte that ends the header: how will the body be delimited? */
  function EndOfHeaders(h: Head, p: Parser, ch: char): (q: Parser)
    requires Ok(p) && p.state.HeadersDone?
    ensures Ok(q) && p.log <= q.log
  {
    var hasBody := h.chunked || (p.contentLength > 0 && p.contentLength != ABSENT);
    var q := p.(nread := 0);
    if ch != LF then Fail(p, Strict)
    else if h.upgrade && (h.isConnect || h.skipBody || !hasBody) then Finished(h, q)
    else if h.skipBody then Finished(h, q)
    else if h.chunked then q.(state := ChunkSizeStart)
    else if h.usesTransferEncoding then
      if h.isRequest && !h.lenient then Fail(q, InvalidTransferEncoding) else q.(state := BodyIdentityEof)
    else if q.contentLength == 0 then Finished(h, q)
    else if q.contentLength != ABSENT then q.(state := BodyIdentity)
    else if !MessageNeedsEof(h, q.contentLength) then Finished(h, q)
    else q.(state := BodyIdentityEof)
  }

  function SizeDigit(p: Parser, ch: char): (q: Parser)
    requires Ok(p) && p.state.ChunkSize?
    ensures Ok(q) && p.log <= q.log
  {
    if ch == CR then p.(state := ChunkSizeAlmostDone)
    else if Unhex(ch) == -1 then
      if ch == ';' || ch == ' ' then p.(state := ChunkParameters) else Fail(p, InvalidChunkSize)
    else if (ABSENT - 16) / 16 < p.contentLength then Fail(p, InvalidContentLength)
    else p.(contentLength := p.contentLength * 16 + Unhex(ch))
  }

  function EndOfSize(p: Parser, ch: char): (q: Parser)
    requires Ok(p) && p.state.ChunkSizeAlmostDone?
    ensures Ok(q) && p.log <= q.log
  {
    if ch != LF then Fail(p, Strict)
    else
      var q := p.(nread := 0, log := p.log + [ChunkHeader]);
      if p.contentLength == 0 then q.(trailing := true, state := TrailerStart) else q.(state := ChunkData)
  }

  /** The last line feed: a chunked message is complete. */
  function EndOfTrailer(h: Head, p: Parser, ch: char): (q: Parser)
    requires Ok(p)
    ensures Ok(q) && p.log <= q.log
  {
    if ch != LF then Fail(p, Strict) else Finished(h, p.(log := p.log + [ChunkComplete]))
  }

  function BodyByte(p: Parser, ch: char): Parser
    requires p.contentLength > 0
  {
    p.(contentLength := p.contentLength - 1, log := p.log + [Body(ch)])
  }

  /** A byte that counts as header, counted already. */
  function HeaderByte(h: Head, p: Parser, ch: char): (q: Parser)
    requires Ok(p)
    ensures Ok(q) && p.log <= q.log
  {
    match p.state
    case HeadersDone => EndOfHeaders(h, p, ch)
    case ChunkSizeStart =>
      if Unhex(ch) == -1 then Fail(p, InvalidChunkSize) else p.(contentLength := Unhex(ch), state := ChunkSize)
    case ChunkSize => SizeDigit(p, ch)
    case ChunkParameters => if ch == CR then p.(state := ChunkSizeAlmostDone) else p
    case ChunkSizeAlmostDone => EndOfSize(p, ch)
    case TrailerStart =>
      if ch == CR then p.(state := TrailerAlmostDone)
      else if ch == LF then EndOfTrailer(h, p, ch)
      else p.(state := TrailerField)
    case TrailerAlmostDone => EndOfTrailer(h, p, ch)
    case _ => p
  }

  function DataByte(h: Head, p: Parser, ch: char): (q: Parser)
    requires Ok(p)
    ensures Ok(q) && p.log <= q.log
  {
    match p.state
    case ChunkData =>
      var q := BodyByte(p, ch);
      if q.contentLength == 0 then q.(state := ChunkDataAlmostDone) else q
    case ChunkDataAlmostDone => if ch != CR then Fail(p, Strict) else p.(state := ChunkDataDone)
    case ChunkDataDone =>
      if ch != LF then Fail(p, Strict) else p.(nread := 0, state := ChunkSizeStart, log := p.log + [ChunkComplete])
    case BodyIdentity =>
      var q := BodyByte(p, ch);
      if q.contentLength == 0 then Finished(h, q) else q
    case BodyIdentityEof => p.(log := p.log + [Body(ch)])
    case _ => p
  }

  /** One byte. */
  function Step(h: Head, p: Parser, ch: char): (q: Parser)
    requires Ok(p) && p.error == NoError
    ensures Ok(q) && p.log <= q.log
  {
    if !ParsingHeader(p.state) then DataByte(h, p, ch)
    else if p.nread + 1 > MAX_HEADER_SIZE then Fail(p.(nread := p.nread + 1), HeaderOverflow)
    else HeaderByte(h, p.(nread := p.nread + 1), ch)
  }

  lemma LinesStartFresh(h: Head, p: Parser, ch: char)
    requires Ok(p) && p.error == NoError && FreshLine(p)
    ensures FreshLine(Step(h, p, ch))
  {
  }

  predicate Stopped(p: Parser) {
    p.error != NoError || p.state.NextMessage? || p.state.Dead? || p.state.TrailerField?
  }

  /** All bytes up to where the message ends or goes wrong; the rest is not consumed. */
  function Run(h: Head, p: Parser, data: string): (r: (Parser, string))
    requires Ok(p)
    ensures Ok(r.0) && |r.1| <= |data|
    decreases |data|
  {
    if data == [] || Stopped(p) then (p, data)
    else
      var q := Step(h, p, data[0]);
      if q.error != NoError then (q, data) else Run(h, q, data[1..])
  }

  /** Nothing is delivered twice or taken back. */
  lemma {:induction false} RunAppends(h: Head, p: Parser, data: string)
    requires Ok(p)
    ensures p.log <= Run(h, p, data).0.log
    decreases |data|
  {
    hide Step, Ok;
    if data != [] && !Stopped(p) {
      var q := Step(h, p, data[0]);
      if q.error == NoError {
        RunAppends(h, q, data[1..]);
      }
    }
  }

  /** Reading in two parts is reading in one go. */
  lemma {:induction false} RunSplits(h: Head, p: Parser, a: string, b: string)
    requires Ok(p)
    ensures var (q, rest) := Run(h, p, a);
            Run(h, p, a + b) == if rest == [] && !Stopped(q) then Run(h, q, b) else (q, rest + b)
    decreases |a|
  {
    hide Step, Ok;
    if a == [] {
      assert a + b == b;
    } else if !Stopped(p) {
      assert (a + b)[0] == a[0] && (a + b)[1..] == a[1..] + b;
      var q := Step(h, p, a[0]);
      if q.error == NoError {
        RunSplits(h, q, a[1..], b);
      }
    }
  }

  // ---------- how a message's body is delimited ----------

  datatype Delimiter = NoBody | Chunks | Length | UntilClose | Refused

  /** The rules of section 3.3.3 of RFC 7230, in their order, for messages that do not change protocol. */
  function Rfc7230Delimiter(h: Head, contentLength: nat): Delimiter {
    if h.skipBody
       || (!h.isRequest && (h.statusCode / 100 == 1 || h.statusCode == 204 || h.statusCode == 304)) then NoBody
    else if h.chunked then Chunks
    else if h.usesTransferEncoding then if h.isRequest then Refused else UntilClose
    else if contentLength != ABSENT then if contentLength == 0 then NoBody else Length
    else if h.isRequest then NoBody
    else UntilClose
  }

  /** Requests are never delimited by the end of the connection. */
  predicate SelfDelimited(h: Head, contentLength: nat) {
    h.isRequest || Rfc7230Delimiter(h, contentLength) != UntilClose
  }

  /**
   * Section 6.3 of RFC 7230: "close" ends the connection; without it HTTP/1.1 persists, and HTTP/1.0 with "keep-alive";
   * and the message must have a length of its own.
   */
  predicate Rfc7230Persists(h: Head, contentLength: nat) {
    SelfDelimited(h, contentLength)
    && if h.connectionClose then false else if h.http11 then true else h.connectionKeepAlive
  }

  /** An HTTP/1.0 message with both options, which the code takes to keep the connection. */
  predicate BothOptions(h: Head, contentLength: nat) {
    SelfDelimited(h, contentLength) && !h.http11 && h.connectionClose && h.connectionKeepAlive
  }

  function CodeDelimiter(q: Parser): Delimiter {
    if q.error == InvalidTransferEncoding then Refused
    else if q.state.ChunkSizeStart? then Chunks
    else if q.state.BodyIdentity? then Length
    else if q.state.BodyIdentityEof? then UntilClose
    else NoBody
  }

  /**
   * The code follows those rules except for responses without a body by status that nevertheless announce
   * one (unless the application asks to skip it), and for lenient requests with another transfer coding.
   */
  lemma DelimiterAgrees(h: Head, p: Parser)
    requires Ok(p) && p.state.HeadersDone? && p.error == NoError && p.nread < MAX_HEADER_SIZE && !h.upgrade
    requires h.chunked ==> h.usesTransferEncoding
    ensures CodeDelimiter(Step(h, p, LF)) == Rfc7230Delimiter(h, p.contentLength)
      <==> !(|| (!h.isRequest && !h.skipBody && (h.statusCode / 100 == 1 || h.statusCode == 204 || h.statusCode == 304)
                 && (h.usesTransferEncoding || (p.contentLength != ABSENT && p.contentLength != 0)))
             || (h.isRequest && h.usesTransferEncoding && !h.chunked && h.lenient && !h.skipBody))
    ensures Begun(p, Step(h, p, LF))
  {
  }

  /** Without a body the message is complete; otherwise nothing is reported and the length is as announced. */
  predicate Begun(p: Parser, q: Parser) {
    if CodeDelimiter(q) == NoBody then
      q.error == NoError && (q.state.NextMessage? || q.state.Dead?) && q.log == p.log + [MessageComplete]
    else
      && q.log == p.log && q.contentLength == p.contentLength && q.nread == 0
      && (CodeDelimiter(q) != Refused ==> q.error == NoError)
  }

  /**
   * Before a change of protocol a message is complete at the end of its header, and what follows is left for the new
   * protocol, unless it announces a body and is no CONNECT; then it is read as if the protocol stayed.
   */
  lemma UpgradeEnds(h: Head, p: Parser, tail: string)
    requires Ok(p) && p.state.HeadersDone? && p.error == NoError && p.nread < MAX_HEADER_SIZE && h.upgrade
    ensures if h.isConnect || h.skipBody || !AnnouncesBody(h, p.contentLength) then
              var (q, rest) := Run(h, p, [LF] + tail);
              && q.error == NoError && rest == tail && q.log == p.log + [MessageComplete]
              && (q.state.NextMessage? || q.state.Dead?)
            else Step(h, p, LF) == Step(h.(upgrade := false), p, LF)
  {
    hide Run, Step, Ok, ShouldKeepAlive;
    OneByte(h, p, LF, tail);
    UpgradeStep(h, p);
    if h.isConnect || h.skipBody || !AnnouncesBody(h, p.contentLength) {
      RunStops(h, Step(h, p, LF), tail);
    }
  }

  lemma UpgradeStep(h: Head, p: Parser)
    requires Ok(p) && p.state.HeadersDone? && p.error == NoError && p.nread < MAX_HEADER_SIZE && h.upgrade
    ensures if h.isConnect || h.skipBody || !AnnouncesBody(h, p.contentLength) then
              Step(h, p, LF) == Finished(h, p.(nread := 0))
            else Step(h, p, LF) == Step(h.(upgrade := false), p, LF)
  {
    hide ShouldKeepAlive, MessageNeedsEof;
    SameAnswer(h, p.contentLength);
  }

  lemma SameAnswer(h: Head, length: nat)
    ensures ShouldKeepAlive(h.(upgrade := false), length) == ShouldKeepAlive(h, length)
    ensures MessageNeedsEof(h.(upgrade := false), length) == MessageNeedsEof(h, length)
  {
  }

  /** The header has a length other than zero, or chunks. */
  predicate AnnouncesBody(h: Head, contentLength: nat) { h.chunked || (contentLength != ABSENT && contentLength != 0) }

  // ---------- bodies ----------

  function Marks(data: string): (r: seq<Mark>)
    ensures |r| == |data| && forall i :: 0 <= i < |r| ==> r[i] == Body(data[i])
  {
    seq(|data|, i requires 0 <= i < |data| => Body(data[i]))
  }

  /** The concatenated arguments of on_body. */
  function BodyOf(log: seq<Mark>): string {
    if log == [] then [] else (if log[0].Body? then [log[0].b] else []) + BodyOf(log[1..])
  }

  function Completions(log: seq<Mark>): nat {
    if log == [] then 0 else (if log[0].MessageComplete? then 1 else 0) + Completions(log[1..])
  }

  lemma {:induction false} BodiesJoin(a: seq<Mark>, b: seq<Mark>)
    ensures BodyOf(a + b) == BodyOf(a) + BodyOf(b)
  {
    hide Completions;
    if a == [] {
      assert a + b == b;
    } else {
      var s := a + b;
      assert s[0] == a[0] && s[1..] == a[1..] + b;
      BodiesJoin(a[1..], b);
    }
  }

  lemma {:induction false} CompletionsJoin(a: seq<Mark>, b: seq<Mark>)
    ensures Completions(a + b) == Completions(a) + Completions(b)
  {
    hide BodyOf;
    if a == [] {
      assert a + b == b;
    } else {
      var s := a + b;
      assert s[0] == a[0] && s[1..] == a[1..] + b;
      CompletionsJoin(a[1..], b);
    }
  }

  lemma BodyOfJoin(a: seq<Mark>, b: seq<Mark>)
    ensures BodyOf(a + b) == BodyOf(a) + BodyOf(b)
    ensures Completions(a + b) == Completions(a) + Completions(b)
  {
    hide BodyOf, Completions;
    BodiesJoin(a, b);
    CompletionsJoin(a, b);
  }

  lemma {:induction false} BodyOfMarks(data: string)
    ensures BodyOf(Marks(data)) == data && Completions(Marks(data)) == 0
  {
    if data != [] {
      assert Marks(data)[1..] == Marks(data[1..]);
      BodyOfMarks(data[1..]);
    }
  }

  /** A byte that is taken. */
  lemma OneByte(h: Head, p: Parser, ch: char, tail: string)
    requires Ok(p) && !Stopped(p)
    ensures var q := Step(h, p, ch);
            Run(h, p, [ch] + tail) == if q.error == NoError then Run(h, q, tail) else (q, [ch] + tail)
  {
    hide Step, Ok;
    assert ([ch] + tail)[0] == ch && ([ch] + tail)[1..] == tail;
  }

  lemma StepBody(h: Head, p: Parser, ch: char)
    requires Ok(p) && p.error == NoError && (p.state.ChunkData? || p.state.BodyIdentity?)
    ensures var q := p.(contentLength := p.contentLength - 1, log := p.log + [Body(ch)]);
            Step(h, p, ch) == if p.contentLength > 1 then q
                              else if p.state.ChunkData? then q.(state := ChunkDataAlmostDone) else Finished(h, q)
    ensures p.contentLength > 0
  {
  }

  lemma FirstMark(data: string, log: seq<Mark>)
    requires data != []
    ensures log + Marks(data) == log + [Body(data[0])] + Marks(data[1..])
  {
    assert Marks(data) == [Body(data[0])] + Marks(data[1..]);
  }

  /** As long as the body is longer than the data, every byte is body. */
  lemma {:induction false} BodyGoesOn(h: Head, p: Parser, data: string, tail: string)
    requires Ok(p) && p.error == NoError && (p.state.ChunkData? || p.state.BodyIdentity?) && |data| < p.contentLength
    ensures var q := p.(contentLength := p.contentLength - |data|, log := p.log + Marks(data));
            Ok(q) && Run(h, p, data + tail) == Run(h, q, tail)
    decreases |data|
  {
    hide Step, Run, Ok;
    if data == [] {
      assert data + tail == tail && p.log + Marks(data) == p.log;
    } else {
      assert data + tail == [data[0]] + (data[1..] + tail);
      OneByte(h, p, data[0], data[1..] + tail);
      StepBody(h, p, data[0]);
      FirstMark(data, p.log);
      BodyGoesOn(h, Step(h, p, data[0]), data[1..], tail);
    }
  }

  /** A body read until the connection closes. */
  lemma {:induction false} BodyUntilClose(h: Head, p: Parser, data: string)
    requires Ok(p) && p.error == NoError && p.state.BodyIdentityEof?
    ensures Run(h, p, data) == (p.(log := p.log + Marks(data)), [])
    decreases |data|
  {
    hide Step, Ok;
    if data == [] {
      assert p.log + Marks(data) == p.log;
    } else {
      FirstMark(data, p.log);
      StepUntilClose(h, p, data[0]);
      BodyUntilClose(h, Step(h, p, data[0]), data[1..]);
    }
  }

  lemma StepUntilClose(h: Head, p: Parser, ch: char)
    requires Ok(p) && p.error == NoError && p.state.BodyIdentityEof?
    ensures Step(h, p, ch) == p.(log := p.log + [Body(ch)])
  {
  }

  /** All of a body, up to and including its last byte. */
  lemma BodyEnds(h: Head, p: Parser, data: string, tail: string)
    requires Ok(p) && p.error == NoError && (p.state.ChunkData? || p.state.BodyIdentity?) && |data| == p.contentLength
    ensures var q := p.(contentLength := 0, log := p.log + Marks(data));
            var r := if p.state.ChunkData? then q.(state := ChunkDataAlmostDone) else Finished(h, q);
            Ok(r) && Run(h, p, data + tail) == Run(h, r, tail)
  {
    hide Step, Run, Ok;
    StepBody(h, p, CR);
    var n := |data| - 1;
    assert data + tail == data[..n] + ([data[n]] + tail);
    BodyGoesOn(h, p, data[..n], [data[n]] + tail);
    var p1 := p.(contentLength := 1, log := p.log + Marks(data[..n]));
    OneByte(h, p1, data[n], tail);
    StepBody(h, p1, data[n]);
    assert Marks(data) == Marks(data[..n]) + [Body(data[n])];
    assert p.log + Marks(data) == p1.log + [Body(data[n])];
  }

  /** A body with a length is delivered whole, completed once, and nothing after it is touched. */
  lemma LengthDelivered(h: Head, p: Parser, body: string, tail: string)
    requires Ok(p) && p.error == NoError && p.state.BodyIdentity? && p.contentLength == |body|
    ensures var (q, rest) := Run(h, p, body + tail);
            && rest == tail && q.error == NoError && q.log == p.log + Marks(body) + [MessageComplete]
            && q.state == (if ShouldKeepAlive(h, 0) then NextMessage else Dead)
  {
    hide Step, Ok;
    BodyEnds(h, p, body, tail);
  }

  // ---------- chunks ----------

  /** A chunk as it is sent: a spelling of the size, an extension or none, the data. */
  datatype Chunk = Chunk(size: string, extension: string, data: string)

  function HexVal(s: string): nat
    requires forall i :: 0 <= i < |s| ==> Unhex(s[i]) >= 0
  {
    if s == [] then 0 else HexVal(s[..|s| - 1]) * 16 + Unhex(s[|s| - 1])
  }

  predicate HexDigits(s: string) {
    |s| > 0 && forall i :: 0 <= i < |s| ==> Unhex(s[i]) >= 0
  }

  /** A size line of section 4.1 of RFC 7230, within the parser's limit for a line. */
  predicate GoodLine(c: Chunk) {
    && HexDigits(c.size)
    && (c.extension != [] ==> (c.extension[0] == ';' || c.extension[0] == ' ') && CR !in c.extension)
    && |c.size| + |c.extension| + 2 <= MAX_HEADER_SIZE
  }

  predicate WellFormed(c: Chunk) {
    GoodLine(c) && HexVal(c.size) == |c.data|
  }

  /** The longest data whose size the overflow guard lets through. */
  const LARGEST_SIZE: int := ABSENT - 16

  function SizeLine(c: Chunk): string { c.size + c.extension + [CR, LF] }

  function Encode(chunks: seq<Chunk>): string {
    if chunks == [] then [] else SizeLine(chunks[0]) + chunks[0].data + [CR, LF] + Encode(chunks[1..])
  }

  function ChunkMarks(chunks: seq<Chunk>): seq<Mark> {
    if chunks == [] then [] else [ChunkHeader] + Marks(chunks[0].data) + [ChunkComplete] + ChunkMarks(chunks[1..])
  }

  function Payload(chunks: seq<Chunk>): string {
    if chunks == [] then [] else chunks[0].data + Payload(chunks[1..])
  }

  lemma {:induction false} PayloadMarked(chunks: seq<Chunk>)
    ensures BodyOf(ChunkMarks(chunks)) == Payload(chunks) && Completions(ChunkMarks(chunks)) == 0
  {
    if chunks != [] {
      var a, b := [ChunkHeader] + Marks(chunks[0].data), [ChunkComplete];
      PayloadMarked(chunks[1..]);
      BodyOfMarks(chunks[0].data);
      BodyOfJoin([ChunkHeader], Marks(chunks[0].data));
      BodyOfJoin(a, b);
      BodyOfJoin(a + b, ChunkMarks(chunks[1..]));
      assert BodyOf([ChunkHeader]) == [] && BodyOf([ChunkComplete]) == [];
    }
  }

  lemma HexStep(s: string, n: nat)
    requires HexDigits(s) && n < |s|
    ensures HexVal(s[..n + 1]) == HexVal(s[..n]) * 16 + Unhex(s[n])
  {
    assert s[..n + 1][..n] == s[..n];
  }

  lemma {:induction false} HexMono(s: string, n: nat)
    requires HexDigits(s) && n <= |s|
    ensures HexVal(s[..n]) <= HexVal(s)
    ensures n < |s| ==> HexVal(s[..n]) * 16 <= HexVal(s)
    decreases |s| - n
  {
    if n < |s| {
      HexStep(s, n);
      HexMono(s, n + 1);
    } else {
      assert s[..n] == s;
    }
  }

  lemma StepDigit(h: Head, p: Parser, ch: char)
    requires Ok(p) && p.error == NoError && p.state.ChunkSize? && p.nread < MAX_HEADER_SIZE && Unhex(ch) >= 0
    ensures var q := p.(nread := p.nread + 1);
            Step(h, p, ch) == if p.contentLength * 16 + Unhex(ch) <= LARGEST_SIZE
                              then q.(contentLength := p.contentLength * 16 + Unhex(ch))
                              else q.(error := InvalidContentLength)
  {
  }

  /** The remaining digits of a size, n of them being read already. */
  lemma {:induction false} SizeRead(h: Head, p: Parser, s: string, n: nat, tail: string)
    requires HexDigits(s) && 0 < n <= |s| && HexVal(s) <= LARGEST_SIZE
    requires Ok(p) && p.error == NoError && p.state.ChunkSize? && p.contentLength == HexVal(s[..n])
    requires p.nread + |s| - n <= MAX_HEADER_SIZE
    ensures var q := p.(contentLength := HexVal(s), nread := p.nread + |s| - n);
            Ok(q) && Run(h, p, s[n..] + tail) == Run(h, q, tail)
    decreases |s| - n
  {
    hide Step, Run, Ok, HexVal;
    if n == |s| {
      assert s[..n] == s && s[n..] + tail == tail;
    } else {
      HexStep(s, n);
      HexMono(s, n + 1);
      assert s[n..] + tail == [s[n]] + (s[n + 1..] + tail);
      OneByte(h, p, s[n], s[n + 1..] + tail);
      StepDigit(h, p, s[n]);
      SizeRead(h, Step(h, p, s[n]), s, n + 1, tail);
    }
  }

  /** The guard refuses exactly the sizes from 2^64 - 16 on. */
  lemma {:induction false} SizeRefused(h: Head, p: Parser, s: string, n: nat, tail: string)
    requires HexDigits(s) && 0 < n < |s| && HexVal(s) > LARGEST_SIZE && HexVal(s[..n]) <= LARGEST_SIZE
    requires Ok(p) && p.error == NoError && p.state.ChunkSize? && p.contentLength == HexVal(s[..n])
    requires p.nread + |s| - n <= MAX_HEADER_SIZE
    ensures Run(h, p, s[n..] + tail).0.error == InvalidContentLength
    decreases |s| - n
  {
    hide Step, Run, Ok, HexVal;
    HexStep(s, n);
    assert s[n..] + tail == [s[n]] + (s[n + 1..] + tail);
    OneByte(h, p, s[n], s[n + 1..] + tail);
    StepDigit(h, p, s[n]);
    assert s[..|s|] == s;
    if n + 1 < |s| && HexVal(s[..n + 1]) <= LARGEST_SIZE {
      SizeRefused(h, Step(h, p, s[n]), s, n + 1, tail);
    }
  }

  lemma StepExtension(h: Head, p: Parser, ch: char)
    requires Ok(p) && p.error == NoError && p.nread < MAX_HEADER_SIZE
    requires p.state.ChunkParameters? || (p.state.ChunkSize? && (ch == ';' || ch == ' ' || ch == CR))
    ensures Step(h, p, ch)
            == p.(nread := p.nread + 1, state := if ch == CR then ChunkSizeAlmostDone else ChunkParameters)
  {
  }

  /** The rest of a chunk extension. */
  lemma {:induction false} ExtensionIgnored(h: Head, p: Parser, ext: string, tail: string)
    requires CR !in ext && Ok(p) && p.error == NoError && p.state.ChunkParameters? && p.nread + |ext| <= MAX_HEADER_SIZE
    ensures var q := p.(nread := p.nread + |ext|);
            Ok(q) && Run(h, p, ext + tail) == Run(h, q, tail)
    decreases |ext|
  {
    hide Step, Run, Ok;
    if ext == [] {
      assert ext + tail == tail;
    } else {
      assert ext + tail == [ext[0]] + (ext[1..] + tail);
      assert ext[0] in ext;
      OneByte(h, p, ext[0], ext[1..] + tail);
      StepExtension(h, p, ext[0]);
      ExtensionIgnored(h, Step(h, p, ext[0]), ext[1..], tail);
    }
  }

  /** After the size's digits: the extension, if any, and the carriage return. */
  lemma LineEnds(h: Head, p: Parser, ext: string, tail: string)
    requires ext != [] ==> (ext[0] == ';' || ext[0] == ' ') && CR !in ext
    requires Ok(p) && p.error == NoError && p.state.ChunkSize? && p.nread + |ext| < MAX_HEADER_SIZE
    ensures var q := p.(nread := p.nread + |ext| + 1, state := ChunkSizeAlmostDone);
            Ok(q) && Run(h, p, ext + ([CR] + tail)) == Run(h, q, tail)
  {
    hide Step, Run, Ok;
    var t1 := [CR] + tail;
    if ext == [] {
      assert ext + t1 == t1;
      OneByte(h, p, CR, tail);
      StepExtension(h, p, CR);
    } else {
      assert ext + t1 == [ext[0]] + (ext[1..] + t1);
      assert ext[0] in ext;
      OneByte(h, p, ext[0], ext[1..] + t1);
      StepExtension(h, p, ext[0]);
      ExtensionIgnored(h, Step(h, p, ext[0]), ext[1..], t1);
      var p1 := p.(nread := p.nread + |ext|, state := ChunkParameters);
      OneByte(h, p1, CR, tail);
      StepExtension(h, p1, CR);
    }
  }

  lemma StepFirstDigit(h: Head, p: Parser, ch: char)
    requires Ok(p) && p.error == NoError && p.state.ChunkSizeStart? && p.nread == 0 && Unhex(ch) >= 0
    ensures Step(h, p, ch) == p.(nread := 1, state := ChunkSize, contentLength := Unhex(ch))
  {
  }

  lemma StepLineFeed(h: Head, p: Parser)
    requires Ok(p) && p.error == NoError && p.state.ChunkSizeAlmostDone? && p.nread < MAX_HEADER_SIZE
    ensures Step(h, p, LF) == AfterSizeLine(p, p.contentLength)
  {
  }

  /** The state after a whole size line. */
  function AfterSizeLine(p: Parser, size: nat): Parser {
    p.(contentLength := size, nread := 0, log := p.log + [ChunkHeader], trailing := size == 0 || p.trailing,
       state := if size == 0 then TrailerStart else ChunkData)
  }

  /** The size line up to its line feed. */
  lemma SizeLineRead(h: Head, p: Parser, c: Chunk, tail: string)
    requires GoodLine(c) && HexVal(c.size) <= LARGEST_SIZE
    requires Ok(p) && p.error == NoError && p.state.ChunkSizeStart? && p.nread == 0
    ensures var q := AfterSizeLine(p, HexVal(c.size));
            Ok(q) && Run(h, p, SizeLine(c) + tail) == Run(h, q, tail)
  {
    hide Step, Run, Ok, HexVal;
    var s, e := c.size, c.extension;
    var t1 := [LF] + tail;
    var t2 := e + ([CR] + t1);
    assert SizeLine(c) + tail == [s[0]] + (s[1..] + t2);
    FirstDigit(s);
    OneByte(h, p, s[0], s[1..] + t2);
    StepFirstDigit(h, p, s[0]);
    SizeRead(h, Step(h, p, s[0]), s, 1, t2);
    var p2 := p.(contentLength := HexVal(s), nread := |s|, state := ChunkSize);
    LineEnds(h, p2, e, t1);
    var p3 := p2.(nread := |s| + |e| + 1, state := ChunkSizeAlmostDone);
    OneByte(h, p3, LF, tail);
    StepLineFeed(h, p3);
  }

  lemma FirstDigit(s: string)
    requires HexDigits(s)
    ensures HexVal(s[..1]) == Unhex(s[0])
  {
    assert s[..1][..0] == [];
  }

  /** A size line is accepted exactly when its number is at most 2^64 - 17, however it is spelled. */
  lemma SizeGuardExact(h: Head, p: Parser, c: Chunk)
    requires GoodLine(c) && Ok(p) && p.error == NoError && p.state.ChunkSizeStart? && p.nread == 0
    ensures Run(h, p, SizeLine(c)).0.error == (if HexVal(c.size) <= LARGEST_SIZE then NoError else InvalidContentLength)
  {
    hide Step, Run, Ok, HexVal;
    assert SizeLine(c) + [] == SizeLine(c);
    if HexVal(c.size) <= LARGEST_SIZE {
      SizeLineRead(h, p, c, []);
      NothingToRead(h, AfterSizeLine(p, HexVal(c.size)));
    } else {
      var s, t := c.size, c.extension + [CR, LF];
      assert SizeLine(c) == [s[0]] + (s[1..] + t);
      FirstDigit(s);
      assert s[..|s|] == s;
      OneByte(h, p, s[0], s[1..] + t);
      StepFirstDigit(h, p, s[0]);
      SizeRefused(h, Step(h, p, s[0]), s, 1, t);
    }
  }

  lemma NothingToRead(h: Head, p: Parser)
    requires Ok(p)
    ensures Run(h, p, []) == (p, [])
  {
  }

  lemma StepChunkEnds(h: Head, p: Parser)
    requires Ok(p) && p.error == NoError
    ensures p.state.ChunkDataAlmostDone? ==> Step(h, p, CR) == p.(state := ChunkDataDone)
    ensures p.state.ChunkDataDone?
            ==> Step(h, p, LF) == p.(nread := 0, state := ChunkSizeStart, log := p.log + [ChunkComplete])
  {
  }

  /** One chunk. */
  lemma ChunkRead(h: Head, p: Parser, c: Chunk, tail: string)
    requires WellFormed(c) && 0 < |c.data| <= LARGEST_SIZE
    requires Ok(p) && p.error == NoError && p.state.ChunkSizeStart? && p.nread == 0
    ensures var q := p.(contentLength := 0, log := p.log + ([ChunkHeader] + Marks(c.data) + [ChunkComplete]));
            Ok(q) && Run(h, p, SizeLine(c) + c.data + [CR, LF] + tail) == Run(h, q, tail)
  {
    hide Step, Run, Ok, HexVal;
    var t1 := [LF] + tail;
    var t2 := [CR] + t1;
    assert SizeLine(c) + c.data + [CR, LF] + tail == SizeLine(c) + (c.data + t2);
    SizeLineRead(h, p, c, c.data + t2);
    var p1 := AfterSizeLine(p, |c.data|);
    BodyEnds(h, p1, c.data, t2);
    var p2 := p1.(contentLength := 0, log := p1.log + Marks(c.data), state := ChunkDataAlmostDone);
    OneByte(h, p2, CR, t1);
    StepChunkEnds(h, p2);
    var p3 := p2.(state := ChunkDataDone);
    OneByte(h, p3, LF, tail);
    StepChunkEnds(h, p3);
    assert p2.log + [ChunkComplete] == p.log + ([ChunkHeader] + Marks(c.data) + [ChunkComplete]);
  }

  ghost predicate AllWellFormed(chunks: seq<Chunk>) {
    forall i :: 0 <= i < |chunks| ==> WellFormed(chunks[i]) && 0 < |chunks[i].data| <= LARGEST_SIZE
  }

  /** The state after some chunks. */
  ghost function AfterChunks(p: Parser, chunks: seq<Chunk>): Parser {
    if chunks == [] then p else p.(contentLength := 0, log := p.log + ChunkMarks(chunks))
  }

  lemma EncodeStep(chunks: seq<Chunk>, tail: string)
    requires chunks != []
    ensures Encode(chunks) + tail == SizeLine(chunks[0]) + chunks[0].data + [CR, LF] + (Encode(chunks[1..]) + tail)
  {
    hide SizeLine;
  }

  lemma AfterChunksStep(p: Parser, chunks: seq<Chunk>)
    requires chunks != []
    ensures AfterChunks(p, chunks)
         == AfterChunks(p.(contentLength := 0,
                           log := p.log + ([ChunkHeader] + Marks(chunks[0].data) + [ChunkComplete])), chunks[1..])
  {
    hide Marks;
    var here := [ChunkHeader] + Marks(chunks[0].data) + [ChunkComplete];
    assert p.log + here + ChunkMarks(chunks[1..]) == p.log + ChunkMarks(chunks);
    assert chunks[1..] == [] ==> p.log + here == p.log + ChunkMarks(chunks);
  }

  lemma {:induction false} ChunksRead(h: Head, p: Parser, chunks: seq<Chunk>, tail: string)
    requires AllWellFormed(chunks) && Ok(p) && p.error == NoError && p.state.ChunkSizeStart? && p.nread == 0
    ensures Ok(AfterChunks(p, chunks)) && Run(h, p, Encode(chunks) + tail) == Run(h, AfterChunks(p, chunks), tail)
    decreases |chunks|
  {
    hide Step, Run, Ok, WellFormed, SizeLine, Encode, Marks, ChunkMarks;
    if chunks == [] {
      NoMarks(chunks);
      assert [] + tail == tail;
    } else {
      var c := chunks[0];
      EncodeStep(chunks, tail);
      ChunkRead(h, p, c, Encode(chunks[1..]) + tail);
      AfterChunksStep(p, chunks);
      ChunksRead(h, p.(contentLength := 0, log := p.log + ([ChunkHeader] + Marks(c.data) + [ChunkComplete])),
                 chunks[1..], tail);
    }
  }

  lemma StepTrailerEnds(h: Head, p: Parser)
    requires Ok(p) && p.error == NoError && p.nread < MAX_HEADER_SIZE
    ensures p.state.TrailerStart? ==> Step(h, p, CR) == p.(nread := p.nread + 1, state := TrailerAlmostDone)
    ensures p.state.TrailerAlmostDone?
            ==> Step(h, p, LF) == Finished(h, p.(nread := p.nread + 1, log := p.log + [ChunkComplete]))
  {
  }

  /** The last chunk and an empty trailer. */
  lemma LastChunkRead(h: Head, p: Parser, last: Chunk, tail: string)
    requires WellFormed(last) && last.data == []
    requires Ok(p) && p.error == NoError && p.state.ChunkSizeStart? && p.nread == 0
    ensures var (q, rest) := Run(h, p, SizeLine(last) + ([CR] + ([LF] + tail)));
            && rest == tail && q.error == NoError
            && q.log == p.log + [ChunkHeader, ChunkComplete, MessageComplete]
            && q.state == (if ShouldKeepAlive(h, 0) then NextMessage else Dead)
  {
    hide Step, Ok, HexVal, Run;
    var t0 := [LF] + tail;
    var t1 := [CR] + t0;
    SizeLineRead(h, p, last, t1);
    var p1 := AfterSizeLine(p, 0);
    OneByte(h, p1, CR, t0);
    StepTrailerEnds(h, p1);
    var p2 := p1.(nread := 1, state := TrailerAlmostDone);
    OneByte(h, p2, LF, tail);
    StepTrailerEnds(h, p2);
    RunStops(h, Step(h, p2, LF), tail);
    assert p.log + [ChunkHeader] + [ChunkComplete] + [MessageComplete]
           == p.log + [ChunkHeader, ChunkComplete, MessageComplete];
  }

  lemma RunStops(h: Head, p: Parser, data: string)
    requires Ok(p) && Stopped(p)
    ensures Run(h, p, data) == (p, data)
  {
  }

  /**
   * Chunks, the last chunk in any spelling of zero and an empty trailer deliver exactly the payload, report
   * completion once, and leave what follows.
   */
  lemma ChunkedDelivered(h: Head, p: Parser, chunks: seq<Chunk>, last: Chunk, tail: string)
    requires AllWellFormed(chunks) && WellFormed(last) && last.data == []
    requires Ok(p) && p.error == NoError && p.state.ChunkSizeStart? && p.nread == 0
    ensures var (q, rest) := Run(h, p, Encode(chunks) + SizeLine(last) + [CR, LF] + tail);
            && rest == tail && q.error == NoError
            && q.log == p.log + ChunkMarks(chunks) + [ChunkHeader, ChunkComplete, MessageComplete]
            && q.state == (if ShouldKeepAlive(h, 0) then NextMessage else Dead)
  {
    hide Step, Ok, HexVal, ChunkMarks, Encode, Run, WellFormed;
    var t1 := [CR] + ([LF] + tail);
    assert Encode(chunks) + SizeLine(last) + [CR, LF] + tail == Encode(chunks) + (SizeLine(last) + t1);
    ChunksRead(h, p, chunks, SizeLine(last) + t1);
    NoMarks(chunks);
    assert chunks == [] ==> p.log + ChunkMarks(chunks) == p.log;
    LastChunkRead(h, AfterChunks(p, chunks), last, tail);
  }

  lemma NoMarks(chunks: seq<Chunk>)
    ensures chunks == [] ==> ChunkMarks(chunks) == [] && Encode(chunks) == []
  {
  }

  /** In terms of the payload alone: for a message that starts with an empty log. */
  lemma PayloadDelivered(h: Head, p: Parser, chunks: seq<Chunk>, last: Chunk, tail: string)
    requires AllWellFormed(chunks) && WellFormed(last) && last.data == [] && p.log == []
    requires Ok(p) && p.error == NoError && p.state.ChunkSizeStart? && p.nread == 0
    ensures var log := Run(h, p, Encode(chunks) + SizeLine(last) + [CR, LF] + tail).0.log;
            BodyOf(log) == Payload(chunks) && Completions(log) == 1
  {
    hide Step, Ok, HexVal, ChunkMarks, Encode, Run;
    ChunkedDelivered(h, p, chunks, last, tail);
    PayloadMarked(chunks);
    var end := [ChunkHeader, ChunkComplete, MessageComplete];
    assert p.log + ChunkMarks(chunks) == ChunkMarks(chunks);
    BodyOfJoin(ChunkMarks(chunks), end);
    assert end[1..] == [ChunkComplete, MessageComplete] && end[2..] == [MessageComplete] && end[1..][1..] == end[2..];
    assert BodyOf(end) == [] && Completions(end) == 1;
  }
}
