/** What becomes of the connection: after a complete message, and when it ends too early. */
module HttpConnection {
  import opened HttpSteps
  import opened HttpParser

  /** Between the end of the header, where content_length was `length`, and the end of the message. */
  ghost predicate Coming(h: Head, length: nat, q: Parser) {
    && (q.state.HeadersDone? ==> q.contentLength == length)
    && (InChunks(q.state) ==> h.chunked)
    && (q.state.BodyIdentity? ==> length != ABSENT && !h.chunked && !h.usesTransferEncoding)
    && (q.state.NextMessage? || q.state.Dead? ==> (q.state.NextMessage? <==> ShouldKeepAlive(h, length)))
  }

  predicate InChunks(s: State) {
    s.ChunkSizeStart? || s.ChunkSize? || s.ChunkParameters? || s.ChunkSizeAlmostDone? || s.ChunkData?
    || s.ChunkDataAlmostDone? || s.ChunkDataDone? || s.TrailerStart? || s.TrailerAlmostDone? || s.TrailerField?
  }

  lemma StillComing(h: Head, length: nat, q: Parser, ch: char)
    requires Ok(q) && q.error == NoError && !Stopped(q) && Coming(h, length, q)
    ensures Coming(h, length, Step(h, q, ch))
  {
    hide ShouldKeepAlive;
    if h.chunked {
      LengthForgotten(h, q.contentLength, length);
    } else if q.state.BodyIdentity? {
      LengthForgotten(h, 0, length);
    }
  }

  lemma {:induction false} EndsAsItShould(h: Head, length: nat, q: Parser, data: string)
    requires Ok(q) && Coming(h, length, q)
    ensures Coming(h, length, Run(h, q, data).0)
    decreases |data|
  {
    hide Step, Ok, Coming;
    if data != [] && !Stopped(q) {
      StillComing(h, length, q, data[0]);
      if Step(h, q, data[0]).error == NoError {
        EndsAsItShould(h, length, Step(h, q, data[0]), data[1..]);
      }
    }
  }

  /**
   * After every complete message, without a body, with a length, in chunks, or before a change of protocol, the
   * connection goes on exactly if section 6.3 of RFC 7230 lets it, or an HTTP/1.0 message has both options.
   */
  lemma ConnectionPersists(h: Head, p: Parser, data: string)
    requires Ok(p) && p.state.HeadersDone?
    ensures var s := Run(h, p, data).0.state;
            s.NextMessage? || s.Dead? ==>
              (s.NextMessage? <==> Rfc7230Persists(h, p.contentLength) || BothOptions(h, p.contentLength))
  {
    hide Run, Ok, ShouldKeepAlive, Rfc7230Persists, BothOptions;
    EndsAsItShould(h, p.contentLength, p, data);
  }

  /** The same for every way of cutting the input. */
  lemma {:induction false} SlicedConnectionPersists(h: Head, p: Parser, slices: seq<string>)
    requires Ok(p) && p.state.HeadersDone? && Run(h, p, Joined(slices)).0.error == NoError
    ensures var s := ExecutedAll(h, p, slices).state;
            s.NextMessage? || s.Dead? ==>
              (s.NextMessage? <==> Rfc7230Persists(h, p.contentLength) || BothOptions(h, p.contentLength))
  {
    hide Run, Ok, ShouldKeepAlive, Rfc7230Persists, BothOptions, ExecutedAll, Joined;
    SlicingDoesNotMatter(h, p, slices);
    ConnectionPersists(h, p, Joined(slices));
  }

  // ---------- a connection that ends ----------

  /** A body without a length is complete when the connection ends. */
  lemma CloseCompletes(h: Head, p: Parser, data: string)
    requires Ok(p) && p.error == NoError && p.state.BodyIdentityEof? && p.log == []
    ensures var q := EndOfStream(Run(h, p, data).0);
            q.error == NoError && BodyOf(q.log) == data && Completions(q.log) == 1
  {
    BodyUntilClose(h, p, data);
    assert [] + Marks(data) == Marks(data);
    BodyOfMarks(data);
    BodyOfJoin(Marks(data), [MessageComplete]);
    assert [MessageComplete][1..] == [];
    assert BodyOf([MessageComplete]) == [] && Completions([MessageComplete]) == 1;
  }

  lemma StaysInChunks(h: Head, q: Parser, ch: char)
    requires Ok(q) && q.error == NoError && (InChunks(q.state) || q.state.NextMessage? || q.state.Dead?)
    ensures var s := Step(h, q, ch).state;
            InChunks(s) || s.NextMessage? || s.Dead?
  {
  }

  lemma {:induction false} RunInChunks(h: Head, q: Parser, data: string)
    requires Ok(q) && (InChunks(q.state) || q.state.NextMessage? || q.state.Dead?)
    ensures var s := Run(h, q, data).0.state;
            InChunks(s) || s.NextMessage? || s.Dead?
    decreases |data|
  {
    hide Step, Ok;
    if data != [] && !Stopped(q) {
      StaysInChunks(h, q, data[0]);
      if Step(h, q, data[0]).error == NoError {
        RunInChunks(h, Step(h, q, data[0]), data[1..]);
      }
    }
  }

  /** Of a chunked message nothing may be missing: wherever it is cut off, the end of the connection is an error. */
  lemma ChunksCutOff(h: Head, p: Parser, chunks: seq<Chunk>, last: Chunk, a: string, b: string)
    requires AllWellFormed(chunks) && WellFormed(last) && last.data == []
    requires Ok(p) && p.error == NoError && p.state.ChunkSizeStart? && p.nread == 0
    requires a + b == Encode(chunks) + SizeLine(last) + [CR, LF] && b != []
    ensures var q := Run(h, p, a).0;
            q.error == NoError && !Stopped(q) && EndOfStream(q).error == InvalidEofState
  {
    hide Run, Ok, Encode, SizeLine, WellFormed, AllWellFormed;
    ChunkedDelivered(h, p, chunks, last, []);
    assert a + b == a + b + [];
    RunSplits(h, p, a, b);
    RestMeansStopped(h, p, a);
    RunInChunks(h, p, a);
    assert |Run(h, p, a).1 + b| > 0;
  }

  /** The same for a body with a length. */
  lemma LengthCutOff(h: Head, p: Parser, body: string)
    requires Ok(p) && p.error == NoError && p.state.BodyIdentity? && |body| < p.contentLength
    ensures var q := Run(h, p, body).0;
            q.error == NoError && !Stopped(q) && EndOfStream(q).error == InvalidEofState
  {
    hide Ok;
    BodyGoesOn(h, p, body, []);
    assert body + [] == body;
    NothingToRead(h, p.(contentLength := p.contentLength - |body|, log := p.log + Marks(body)));
  }

  /** What is left of a length makes no difference, unless there was none. */
  lemma LengthForgotten(h: Head, a: nat, b: nat)
    requires h.chunked || (a < ABSENT && b != ABSENT)
    ensures ShouldKeepAlive(h, a) == ShouldKeepAlive(h, b)
  {
  }
}
