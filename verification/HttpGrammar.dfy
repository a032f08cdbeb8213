/** Which streams are chunked messages for the parser: section 4.1 of RFC 7230 with the liberties the code takes. */
module HttpGrammar {
  import opened HttpSteps

  // ---------- sizes ----------

  const LOWER := "0123456789abcdef"
  const UPPER := "0123456789ABCDEF"

  /** The value of a hexadecimal digit, and which characters are none. */
  lemma UnhexMeans(c: char, v: nat)
    requires v < 16
    ensures Unhex(c) == v <==> c == LOWER[v] || c == UPPER[v]
    ensures Unhex(c) == -1 || 0 <= Unhex(c) < 16
  {
    assert v < 10 ==> LOWER[v] == UPPER[v] == '0' + v as char;
    assert v >= 10 ==> LOWER[v] == 'a' + (v - 10) as char && UPPER[v] == 'A' + (v - 10) as char;
  }

  // ---------- the text of a message ----------

  /** The bytes are chunks, a last chunk in any spelling of zero, an empty line, and what follows. */
  ghost predicate IsMessage(data: string, chunks: seq<Chunk>, last: Chunk, end: string, tail: string) {
    && AllWellFormed(chunks) && WellFormed(last) && last.data == []
    && (end == [CR, LF] || end == [LF])  // the code does not insist on the carriage return here
    && data == Encode(chunks) + SizeLine(last) + end + tail
  }

  /** The message is complete, and nothing went wrong. */
  predicate Completed(p: Parser) { p.error == NoError && (p.state.NextMessage? || p.state.Dead?) }

  /** At the start of a size line. */
  predicate AtChunk(p: Parser) { Ok(p) && p.error == NoError && p.state.ChunkSizeStart? && p.nread == 0 }

  // ---------- every such text is accepted ----------

  lemma ShortEndRead(h: Head, p: Parser, last: Chunk, tail: string)
    requires WellFormed(last) && last.data == [] && AtChunk(p)
    ensures var (q, rest) := Run(h, p, SizeLine(last) + ([LF] + tail));
            && rest == tail && Completed(q) && q.log == p.log + [ChunkHeader, ChunkComplete, MessageComplete]
  {
    hide Step, Ok, HexVal, Run;
    SizeLineRead(h, p, last, [LF] + tail);
    var p1 := AfterSizeLine(p, 0);
    OneByte(h, p1, LF, tail);
    StepShortEnd(h, p1);
    RunStops(h, Step(h, p1, LF), tail);
    assert p.log + [ChunkHeader] + [ChunkComplete] + [MessageComplete]
           == p.log + [ChunkHeader, ChunkComplete, MessageComplete];
  }

  lemma StepShortEnd(h: Head, p: Parser)
    requires Ok(p) && p.error == NoError && p.nread < MAX_HEADER_SIZE && p.state.TrailerStart?
    ensures Step(h, p, LF) == Finished(h, p.(nread := p.nread + 1, log := p.log + [ChunkComplete]))
  {
  }

  lemma MessageRead(h: Head, p: Parser, data: string, chunks: seq<Chunk>, last: Chunk, end: string, tail: string)
    requires AtChunk(p) && IsMessage(data, chunks, last, end, tail)
    ensures var (q, rest) := Run(h, p, data);
            && Completed(q) && rest == tail
            && q.log == p.log + ChunkMarks(chunks) + [ChunkHeader, ChunkComplete, MessageComplete]
  {
    hide Step, Ok, HexVal, ChunkMarks, Encode, Run, WellFormed, ShouldKeepAlive;
    if end == [CR, LF] {
      ChunkedDelivered(h, p, chunks, last, tail);
    } else {
      assert data == Encode(chunks) + (SizeLine(last) + ([LF] + tail));
      ChunksRead(h, p, chunks, SizeLine(last) + ([LF] + tail));
      NoMarks(chunks);
      assert chunks == [] ==> p.log + ChunkMarks(chunks) == p.log;
      ShortEndRead(h, AfterChunks(p, chunks), last, tail);
    }
  }

  // ---------- and nothing else ----------

  /** A run that is to complete takes the next byte. */
  lemma Takes(h: Head, p: Parser, data: string)
    requires Ok(p) && !Stopped(p) && Completed(Run(h, p, data).0)
    ensures data != [] && Step(h, p, data[0]).error == NoError && data == [data[0]] + data[1..]
    ensures Run(h, Step(h, p, data[0]), data[1..]) == Run(h, p, data)
  {
    hide Step, Ok;
  }

  lemma DigitStep(h: Head, p: Parser, ch: char)
    requires Ok(p) && p.error == NoError && p.state.ChunkSize? && Step(h, p, ch).error == NoError
    ensures p.nread < MAX_HEADER_SIZE
    ensures Unhex(ch) < 0 ==> ch == CR || ch == ';' || ch == ' '
    ensures Unhex(ch) >= 0 ==>
              && p.contentLength * 16 + Unhex(ch) <= LARGEST_SIZE
              && Step(h, p, ch) == p.(nread := p.nread + 1, contentLength := p.contentLength * 16 + Unhex(ch))
  {
  }

  lemma HexMore(s: string, ch: char)
    requires HexDigits(s) && Unhex(ch) >= 0
    ensures HexDigits(s + [ch]) && HexVal(s + [ch]) == HexVal(s) * 16 + Unhex(ch)
  {
    assert (s + [ch])[..|s|] == s;
  }

  /** The digits of a size, of which s is read already. */
  lemma {:induction false} DigitsOf(h: Head, p: Parser, data: string, s: string) returns (all: string, rest: string)
    requires HexDigits(s) && HexVal(s) <= LARGEST_SIZE
    requires Ok(p) && p.error == NoError && p.state.ChunkSize? && p.contentLength == HexVal(s) && p.nread == |s|
    requires Completed(Run(h, p, data).0)
    ensures HexDigits(all) && HexVal(all) <= LARGEST_SIZE && s + data == all + rest
    ensures rest != [] && (rest[0] == CR || rest[0] == ';' || rest[0] == ' ') && |all| < MAX_HEADER_SIZE
    ensures var q := p.(contentLength := HexVal(all), nread := |all|);
            Ok(q) && Run(h, q, rest) == Run(h, p, data)
    decreases |data|
  {
    hide Step, Run, Ok, HexVal, HexDigits;
    Takes(h, p, data);
    DigitStep(h, p, data[0]);
    if Unhex(data[0]) < 0 {
      all, rest := s, data;
    } else {
      HexMore(s, data[0]);
      assert s + [data[0]] + data[1..] == s + data;
      all, rest := DigitsOf(h, Step(h, p, data[0]), data[1..], s + [data[0]]);
    }
  }

  lemma LineStep(h: Head, p: Parser, ch: char)
    requires Ok(p) && p.error == NoError && Step(h, p, ch).error == NoError
    requires p.state.ChunkParameters? || (p.state.ChunkSize? && (ch == CR || ch == ';' || ch == ' '))
    ensures p.nread < MAX_HEADER_SIZE
    ensures Step(h, p, ch)
            == p.(nread := p.nread + 1, state := if ch == CR then ChunkSizeAlmostDone else ChunkParameters)
  {
  }

  /** A chunk extension up to its carriage return. */
  lemma {:induction false} ExtensionOf(h: Head, p: Parser, data: string) returns (ext: string, rest: string)
    requires Ok(p) && p.error == NoError && p.state.ChunkParameters? && Completed(Run(h, p, data).0)
    ensures CR !in ext && data == ext + [CR] + rest && p.nread + |ext| + 1 <= MAX_HEADER_SIZE
    ensures var q := p.(nread := p.nread + |ext| + 1, state := ChunkSizeAlmostDone);
            Ok(q) && Run(h, q, rest) == Run(h, p, data)
    decreases |data|
  {
    hide Step, Run, Ok;
    Takes(h, p, data);
    LineStep(h, p, data[0]);
    if data[0] == CR {
      ext, rest := [], data[1..];
    } else {
      ext, rest := ExtensionOf(h, Step(h, p, data[0]), data[1..]);
      ext := [data[0]] + ext;
    }
  }

  lemma FirstDigitStep(h: Head, p: Parser, ch: char)
    requires AtChunk(p) && Step(h, p, ch).error == NoError
    ensures 0 <= Unhex(ch) <= LARGEST_SIZE
  {
  }

  lemma LineFeedStep(h: Head, p: Parser, ch: char)
    requires Ok(p) && p.error == NoError && p.state.ChunkSizeAlmostDone? && Step(h, p, ch).error == NoError
    ensures ch == LF && p.nread < MAX_HEADER_SIZE
  {
  }

  lemma OneDigit(c: char)
    requires Unhex(c) >= 0
    ensures HexDigits([c]) && HexVal([c]) == Unhex(c)
  {
    assert [c][..0] == [];
  }

  /** What stands between the size and the line feed. */
  lemma LineEndOf(h: Head, p: Parser, data: string) returns (ext: string, rest: string)
    requires Ok(p) && p.error == NoError && p.state.ChunkSize? && Completed(Run(h, p, data).0)
    requires data != [] && (data[0] == CR || data[0] == ';' || data[0] == ' ')
    ensures ext != [] ==> (ext[0] == ';' || ext[0] == ' ') && CR !in ext
    ensures data == ext + [CR, LF] + rest && p.nread + |ext| + 2 <= MAX_HEADER_SIZE
  {
    hide Step, Run, Ok;
    Takes(h, p, data);
    LineStep(h, p, data[0]);
    var q := Step(h, p, data[0]);
    if data[0] == CR {
      ext, rest := [], data[1..];
    } else {
      ext, rest := ExtensionOf(h, q, data[1..]);
      q := q.(nread := q.nread + |ext| + 1, state := ChunkSizeAlmostDone);
      ext := [data[0]] + ext;
    }
    Takes(h, q, rest);
    LineFeedStep(h, q, rest[0]);
    rest := rest[1..];
  }

  /** A size line, up to its line feed. */
  lemma SizeLineOf(h: Head, p: Parser, data: string) returns (c: Chunk, rest: string)
    requires AtChunk(p) && Completed(Run(h, p, data).0)
    ensures GoodLine(c) && HexVal(c.size) <= LARGEST_SIZE && c.data == [] && data == SizeLine(c) + rest
    ensures var q := AfterSizeLine(p, HexVal(c.size));
            Ok(q) && Run(h, q, rest) == Run(h, p, data)
  {
    hide Step, Run, Ok, HexVal;
    Takes(h, p, data);
    FirstDigitStep(h, p, data[0]);
    StepFirstDigit(h, p, data[0]);
    OneDigit(data[0]);
    var size, more := DigitsOf(h, Step(h, p, data[0]), data[1..], [data[0]]);
    var q := p.(nread := |size|, state := ChunkSize, contentLength := HexVal(size));
    var ext;
    ext, rest := LineEndOf(h, q, more);
    c := Chunk(size, ext, []);
    assert data == SizeLine(c) + rest;
    SizeLineRead(h, p, c, rest);
  }

  lemma ChunkEndSteps(h: Head, p: Parser, ch: char)
    requires Ok(p) && p.error == NoError && Step(h, p, ch).error == NoError
    ensures p.state.ChunkDataAlmostDone? ==> ch == CR
    ensures p.state.ChunkDataDone? ==> ch == LF
  {
  }

  lemma TooShort(h: Head, p: Parser, data: string)
    requires Ok(p) && p.error == NoError && p.state.ChunkData? && |data| < p.contentLength
    ensures !Completed(Run(h, p, data).0)
  {
    hide Step, Run, Ok;
    BodyGoesOn(h, p, data, []);
    assert data + [] == data;
    NothingToRead(h, p.(contentLength := p.contentLength - |data|, log := p.log + Marks(data)));
  }

  /** The data of a chunk and the line behind it. */
  lemma DataOf(h: Head, p: Parser, data: string) returns (body: string, rest: string)
    requires Ok(p) && p.error == NoError && p.state.ChunkData? && Completed(Run(h, p, data).0)
    ensures |body| == p.contentLength && data == body + [CR, LF] + rest
  {
    hide Step, Run, Ok;
    if |data| < p.contentLength {
      TooShort(h, p, data);
    }
    body := data[..p.contentLength];
    var t1 := data[p.contentLength..];
    assert data == body + t1;
    BodyEnds(h, p, body, t1);
    var p1 := p.(contentLength := 0, log := p.log + Marks(body), state := ChunkDataAlmostDone);
    Takes(h, p1, t1);
    ChunkEndSteps(h, p1, t1[0]);
    StepChunkEnds(h, p1);
    var p2 := Step(h, p1, CR);
    var t2 := t1[1..];
    Takes(h, p2, t2);
    ChunkEndSteps(h, p2, t2[0]);
    rest := t2[1..];
  }

  lemma TrailerSteps(h: Head, p: Parser, ch: char)
    requires Ok(p) && p.error == NoError && Step(h, p, ch).error == NoError && p.nread < MAX_HEADER_SIZE
    ensures p.state.TrailerStart? ==> ch == CR || ch == LF || Step(h, p, ch).state.TrailerField?
    ensures p.state.TrailerAlmostDone? ==> ch == LF
  {
  }

  /** The empty line at the end. */
  lemma EndOf(h: Head, p: Parser, data: string) returns (end: string, tail: string)
    requires Ok(p) && p.error == NoError && p.state.TrailerStart? && p.nread == 0 && Completed(Run(h, p, data).0)
    ensures (end == [CR, LF] || end == [LF]) && data == end + tail
  {
    hide Step, Run, Ok;
    Takes(h, p, data);
    TrailerSteps(h, p, data[0]);
    var q := Step(h, p, data[0]);
    if data[0] == LF {
      end, tail := [LF], data[1..];
    } else if data[0] == CR {
      StepTrailerEnds(h, p);
      Takes(h, q, data[1..]);
      TrailerSteps(h, q, data[1]);
      end, tail := [CR, LF], data[2..];
    } else {
      RunStops(h, q, data[1..]);
    }
  }

  /** A run that completes has read a message. */
  lemma {:induction false} MessageOf(h: Head, p: Parser, data: string)
    returns (chunks: seq<Chunk>, last: Chunk, end: string, tail: string)
    requires AtChunk(p) && Completed(Run(h, p, data).0)
    ensures IsMessage(data, chunks, last, end, tail)
    decreases |data|
  {
    hide Step, Run, Ok, HexVal, SizeLine, Encode;
    var line, rest := SizeLineOf(h, p, data);
    var q := AfterSizeLine(p, HexVal(line.size));
    LineIsLong(line);
    if HexVal(line.size) == 0 {
      chunks, last := [], line;
      end, tail := EndOf(h, q, rest);
      NoMarks(chunks);
      assert [] + SizeLine(last) == SizeLine(last);
    } else {
      var body, rest1 := DataOf(h, q, rest);
      var c := line.(data := body);
      SameLine(line, body);
      assert data == SizeLine(c) + c.data + [CR, LF] + rest1;
      ChunkRead(h, p, c, rest1);
      var p1 := p.(contentLength := 0, log := p.log + ([ChunkHeader] + Marks(c.data) + [ChunkComplete]));
      var more;
      more, last, end, tail := MessageOf(h, p1, rest1);
      chunks := [c] + more;
      assert chunks[1..] == more;
      EncodeStep(chunks, SizeLine(last) + end + tail);
      Regroup(Encode(chunks), Encode(more), SizeLine(last), end, tail);
    }
  }

  lemma LineIsLong(c: Chunk)
    ensures |SizeLine(c)| >= 2
  {
  }

  lemma SameLine(c: Chunk, body: string)
    requires GoodLine(c)
    ensures var d := c.(data := body);
            GoodLine(d) && SizeLine(d) == SizeLine(c)
  {
  }

  lemma Regroup(a: string, b: string, line: string, end: string, tail: string)
    ensures b + (line + end + tail) == b + line + end + tail
    ensures a + (line + end + tail) == a + line + end + tail
  {
  }

  /**
   * A message is accepted exactly if it is one of these texts, and exactly what stands behind it is left. What is
   * reported does not depend on how the text is taken apart.
   */
  lemma MessagesExactly(h: Head, p: Parser, data: string, tail: string)
    requires AtChunk(p)
    ensures Completed(Run(h, p, data).0) && Run(h, p, data).1 == tail <==>
            exists chunks, last, end :: IsMessage(data, chunks, last, end, tail)
    ensures forall chunks, last, end :: IsMessage(data, chunks, last, end, tail) ==>
              Run(h, p, data).0.log == p.log + ChunkMarks(chunks) + [ChunkHeader, ChunkComplete, MessageComplete]
  {
    hide Run, IsMessage, ChunkMarks, Completed, Ok;
    forall chunks, last, end | IsMessage(data, chunks, last, end, tail)
      ensures Completed(Run(h, p, data).0) && Run(h, p, data).1 == tail
      ensures Run(h, p, data).0.log == p.log + ChunkMarks(chunks) + [ChunkHeader, ChunkComplete, MessageComplete]
    {
      MessageRead(h, p, data, chunks, last, end, tail);
    }
    if Completed(Run(h, p, data).0) && Run(h, p, data).1 == tail {
      var chunks, last, end, left := MessageOf(h, p, data);
      MessageRead(h, p, data, chunks, last, end, left);
    }
  }
}
