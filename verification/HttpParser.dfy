/** The body states of http_parser_execute: bulk copies and body marks over the data of one call. */
module HttpParser {
  import opened Words
  import opened HttpSteps

  /** What is marked in the current call but not yet handed to on_body. */
  function Marked(data: string, mark: int, p: int): (r: seq<Mark>)
    requires -1 <= mark <= p <= |data| && 0 <= p
  {
    if mark >= 0 then Marks(data[mark..p]) else []
  }

  predicate EndsInBody(s: seq<Mark>) {
    |s| > 0 && s[|s| - 1].Body?
  }

  function DropBody(s: seq<Mark>): seq<Mark> {
    if EndsInBody(s) then DropBody(s[..|s| - 1]) else s
  }

  /**
   * What one call leaves. Without an error this is the byte-by-byte meaning. When the carriage return after a
   * chunk is missing, the code returns before the data callback has run, so that the body bytes marked in this
   * call are lost.
   */
  function Executed(h: Head, p: Parser, data: string): Parser
    requires Ok(p)
  {
    RunAppends(h, p, data);
    var q := Run(h, p, data).0;
    if q.error != NoError && q.state.ChunkDataAlmostDone? then q.(log := p.log + DropBody(q.log[|p.log|..])) else q
  }

  lemma {:induction false} DropMarks(s: seq<Mark>, data: string)
    requires !EndsInBody(s)
    ensures DropBody(s + Marks(data)) == s
  {
    if data == [] {
      assert s + Marks(data) == s;
    } else {
      var n := |data| - 1;
      assert Marks(data)[..n] == Marks(data[..n]);
      assert (s + Marks(data))[..|s| + n] == s + Marks(data[..n]);
      DropMarks(s, data[..n]);
    }
  }

  /** Bytes of the same run of body are marked one after the other. */
  lemma MarkedGrows(data: string, mark: int, p: int, n: int)
    requires 0 <= mark <= p <= n <= |data|
    ensures Marked(data, mark, n) == Marked(data, mark, p) + Marks(data[p..n])
  {
  }

  class HttpParser {
    const head: Head
    var state: State
    var error: Error
    var contentLength: uint64
    var nread: uint32
    var trailing: bool
    var log: seq<Mark>

    ghost function Value(): Parser
      reads this
    {
      Parser(state, error, contentLength as nat, nread as nat, trailing, log)
    }

    /** A parser whose header lines have been read. */
    constructor (head: Head, contentLength: uint64, nread: uint32)
      requires nread as int <= MAX_HEADER_SIZE
      ensures Ok(Value()) && this.head == head
      ensures Value() == Parser(HeadersDone, NoError, contentLength as nat, nread as nat, false, [])
    {
      this.head := head;
      this.contentLength := contentLength;
      this.nread := nread;
      state, error, trailing, log := HeadersDone, NoError, false, [];
    }

    /** NEW_MESSAGE and the completion callback. */
    method Finish()
      requires Ok(Value())
      modifies this`state, this`log
      ensures Value() == Finished(head, old(Value()))
    {
      state := if ShouldKeepAlive(head, contentLength as nat) then NextMessage else Dead;
      log := log + [MessageComplete];
    }

    method HeadersEnd(ch: char)
      requires Ok(Value()) && state.HeadersDone?
      modifies this
      ensures Value() == EndOfHeaders(head, old(Value()), ch)
    {
      if ch != LF {
        error := Strict;
        return;
      }
      nread := 0;
      var hasBody := head.chunked || (contentLength > 0 && contentLength as int != ABSENT);
      if head.upgrade && (head.isConnect || head.skipBody || !hasBody) {
        Finish();
      } else if head.skipBody {
        Finish();
      } else if head.chunked {
        state := ChunkSizeStart;
      } else if head.usesTransferEncoding {
        if head.isRequest && !head.lenient {
          error := InvalidTransferEncoding;
        } else {
          state := BodyIdentityEof;
        }
      } else if contentLength == 0 {
        Finish();
      } else if contentLength as int != ABSENT {
        state := BodyIdentity;
      } else if !MessageNeedsEof(head, contentLength as nat) {
        Finish();
      } else {
        state := BodyIdentityEof;
      }
    }

    method ChunkSizeDigit(ch: char)
      requires Ok(Value()) && state.ChunkSize?
      modifies this
      ensures Value() == SizeDigit(old(Value()), ch)
    {
      if ch == CR {
        state := ChunkSizeAlmostDone;
        return;
      }
      if Unhex(ch) == -1 {
        if ch == ';' || ch == ' ' {
          state := ChunkParameters;
        } else {
          error := InvalidChunkSize;
        }
        return;
      }
      if (ABSENT - 16) / 16 < contentLength as int {
        error := InvalidContentLength;
        return;
      }
      contentLength := contentLength * 16 + Unhex(ch) as uint64;
    }

    method ChunkSizeEnds(ch: char)
      requires Ok(Value()) && state.ChunkSizeAlmostDone?
      modifies this
      ensures Value() == EndOfSize(old(Value()), ch)
    {
      if ch != LF {
        error := Strict;
        return;
      }
      nread := 0;
      if contentLength == 0 {
        trailing := true;
        state := TrailerStart;
      } else {
        state := ChunkData;
      }
      log := log + [ChunkHeader];
    }

    method TrailerEnds(ch: char)
      requires Ok(Value())
      modifies this
      ensures Value() == EndOfTrailer(head, old(Value()), ch)
    {
      if ch != LF {
        error := Strict;
        return;
      }
      log := log + [ChunkComplete];
      Finish();
    }

    /** The header states, once the byte is counted. */
    method Dispatch(ch: char)
      requires Ok(Value()) && error == NoError && ParsingHeader(state)
      modifies this
      ensures Value() == HeaderByte(head, old(Value()), ch)
    {
      hide EndOfHeaders, SizeDigit, EndOfSize, EndOfTrailer;
      match state
      case HeadersDone => HeadersEnd(ch);
      case ChunkSizeStart =>
        if Unhex(ch) == -1 {
          error := InvalidChunkSize;
        } else {
          contentLength := Unhex(ch) as uint64;
          state := ChunkSize;
        }
      case ChunkSize => ChunkSizeDigit(ch);
      case ChunkParameters =>
        if ch == CR {
          state := ChunkSizeAlmostDone;
        }
      case ChunkSizeAlmostDone => ChunkSizeEnds(ch);
      case TrailerStart =>
        if ch == CR {
          state := TrailerAlmostDone;
        } else if ch == LF {
          TrailerEnds(ch);
        } else {
          state := TrailerField;
        }
      case TrailerAlmostDone => TrailerEnds(ch);
    }

    /** A byte in one of the states that count as header. */
    method ReadHeaderByte(ch: char)
      requires Ok(Value()) && error == NoError && ParsingHeader(state)
      modifies this
      ensures Value() == Step(head, old(Value()), ch)
    {
      hide HeaderByte, DataByte;
      nread := nread + 1;
      if nread as int > MAX_HEADER_SIZE {
        error := HeaderOverflow;
        return;
      }
      Dispatch(ch);
    }

    // ---------- body bytes, marked first and reported later ----------

    /** The fields with what is marked counted as reported. */
    ghost function Seen(data: string, mark: int, p: int): Parser
      reads this
      requires -1 <= mark <= p <= |data| && 0 <= p
    {
      Value().(log := log + Marked(data, mark, p))
    }

    /** As much of a chunk as there is. */
    method ReadChunkData(data: string, p0: int, mark0: int) returns (p: int, mark: int)
      requires Ok(Value()) && error == NoError && state.ChunkData? && -1 <= mark0 <= p0 && 0 <= p0 < |data|
      modifies this`state, this`contentLength
      ensures Ok(Value()) && p0 < p <= |data| && 0 <= mark <= p && (state.ChunkData? || state.ChunkDataAlmostDone?)
      ensures Run(head, old(Seen(data, mark0, p0)), data[p0..]) == Run(head, Seen(data, mark, p), data[p..])
    {
      hide Run, Marked, Ok;
      var toRead := if contentLength as int < |data| - p0 then contentLength as int else |data| - p0;
      mark := if mark0 < 0 then p0 else mark0;
      p := p0 + toRead;
      BulkStep(head, Value(), data, mark0, p0, mark, p);
      contentLength := contentLength - toRead as uint64;
      if contentLength == 0 {
        state := ChunkDataAlmostDone;
      }
      SameOk(Seen(data, mark, p), Value());
    }

    /** As much of a body with a length as there is; its last byte also completes the message. */
    method ReadIdentity(data: string, p0: int, mark0: int) returns (p: int, mark: int)
      requires Ok(Value()) && error == NoError && state.BodyIdentity? && -1 <= mark0 <= p0 && 0 <= p0 < |data|
      modifies this`state, this`contentLength, this`log
      ensures Ok(Value()) && p0 < p <= |data| && -1 <= mark <= p
      ensures old(log) <= log
      ensures state.BodyIdentity? || ((state.NextMessage? || state.Dead?) && mark == -1)
      ensures Run(head, old(Seen(data, mark0, p0)), data[p0..]) == Run(head, Seen(data, mark, p), data[p..])
    {
      hide Run, Marked, Ok, ShouldKeepAlive;
      var toRead := if contentLength as int < |data| - p0 then contentLength as int else |data| - p0;
      mark := if mark0 < 0 then p0 else mark0;
      p := p0 + toRead;
      BulkStep(head, Value(), data, mark0, p0, mark, p);
      contentLength := contentLength - toRead as uint64;
      if contentLength == 0 {
        MarkedIs(data, mark, p);
        log := log + Marks(data[mark..p]);
        mark := -1;
        MarkedIs(data, -1, p);
        state := if ShouldKeepAlive(head, contentLength as nat) then NextMessage else Dead;
        log := log + [MessageComplete];
        assert log + [] == log;
      }
      SameOk(Seen(data, mark, p), Value());
    }

    /** Everything there is. */
    method ReadUntilClose(data: string, p0: int, mark0: int) returns (p: int, mark: int)
      requires Ok(Value()) && error == NoError && state.BodyIdentityEof? && -1 <= mark0 <= p0 && 0 <= p0 < |data|
      ensures p == |data| && 0 <= mark <= p
      ensures Run(head, Seen(data, mark0, p0), data[p0..]) == Run(head, Seen(data, mark, p), data[p..])
    {
      hide Run, Marked;
      mark := if mark0 < 0 then p0 else mark0;
      FirstMarked(data, mark0, mark, p0);
      p := |data|;
      MarkedGrows(data, mark, p0, p);
      BodyUntilClose(head, Seen(data, mark0, p0), data[p0..]);
      NothingToRead(head, Seen(data, mark, p));
      assert data[p0..p] == data[p0..];
      assert log + Marked(data, mark0, p0) + Marks(data[p0..]) == log + Marked(data, mark, p);
    }

    /** The carriage return after a chunk: now the data callback runs. */
    method ChunkDataEnds(data: string, p: int, mark: int)
      requires Ok(Value()) && error == NoError && state.ChunkDataAlmostDone? && -1 <= mark <= p && 0 <= p < |data|
      modifies this`state, this`log, this`error
      ensures data[p] == CR ==> Value() == Step(head, old(Seen(data, mark, p)), data[p]) && error == NoError
                                && state.ChunkDataDone? && log == old(log) + Marked(data, mark, p)
      ensures data[p] != CR ==> Value() == old(Value()).(error := Strict)
                                && Step(head, old(Seen(data, mark, p)), data[p])
                                   == old(Seen(data, mark, p)).(error := Strict)
    {
      if data[p] != CR {
        error := Strict;
        return;
      }
      state := ChunkDataDone;
      if mark >= 0 {
        log := log + Marks(data[mark..p]);
      }
    }

    method ChunkEnds(ch: char)
      requires Ok(Value()) && error == NoError && state.ChunkDataDone?
      modifies this
      ensures Value() == Step(head, old(Value()), ch)
    {
      if ch != LF {
        error := Strict;
        return;
      }
      nread := 0;
      state := ChunkSizeStart;
      log := log + [ChunkComplete];
    }

    // ---------- the loop ----------

    /** p bytes are read, and what is reported and marked accounts for them. */
    ghost predicate Inv(start: Parser, data: string, mark: int, p: int)
      reads this
      requires -1 <= mark <= p <= |data| && 0 <= p && Ok(start)
    {
      && Ok(Value()) && start.log <= log && Ok(Seen(data, mark, p))
      && Run(head, start, data) == Run(head, Seen(data, mark, p), data[p..])
      && (mark >= 0 ==> state.ChunkData? || state.ChunkDataAlmostDone? || state.BodyIdentity? || state.BodyIdentityEof?)
      && (state.ChunkData? || state.ChunkDataAlmostDone? ==> !EndsInBody(log[|start.log|..]))
    }

    /** A state that reads one byte at a time and has nothing marked. */
    method OneByteState(data: string, p: int, ghost start: Parser)
      requires Ok(start) && error == NoError && 0 <= p < |data| && Inv(start, data, -1, p)
      requires ParsingHeader(state) || state.ChunkDataDone?
      modifies this
      ensures error == NoError ==> Inv(start, data, -1, p + 1)
      ensures error != NoError ==> Value() == Executed(head, start, data) && Run(head, start, data).1 == data[p..]
    {
      hide Run, Step, Ok, Marked, Executed;
      MarkedIs(data, -1, p);
      MarkedIs(data, -1, p + 1);
      ghost var before := Value();
      assert Seen(data, -1, p) == before by { assert log + [] == log; }
      if state.ChunkDataDone? {
        ChunkEnds(data[p]);
      } else {
        ReadHeaderByte(data[p]);
      }
      assert Value().log + [] == Value().log;
      OneByteMore(head, start, before, Value(), data, p);
      SameOk(Value(), Seen(data, -1, p + 1));
    }

    /** One round of the loop. */
    method Turn(data: string, p0: int, mark0: int, ghost start: Parser) returns (p: int, mark: int)
      requires Ok(start) && error == NoError && !Stopped(Value())
      requires -1 <= mark0 <= p0 && 0 <= p0 < |data| && Inv(start, data, mark0, p0)
      modifies this
      ensures error == NoError ==> p0 < p <= |data| && -1 <= mark <= p && Inv(start, data, mark, p)
      ensures error != NoError ==> p == p0 && Value() == Executed(head, start, data)
                                   && Run(head, start, data).1 == data[p..]
    {
      hide Run, Step, Ok, Marked, Executed, EndsInBody;
      if state.ChunkData? {
        p, mark := ReadChunkData(data, p0, mark0);
        SameOk(Value(), Seen(data, mark, p));
      } else if state.ChunkDataAlmostDone? {
        ghost var before := Value();
        ChunkDataEnds(data, p0, mark0);
        if error != NoError {
          LostBytes(head, start, before, data, mark0, p0);
          return p0, mark0;
        }
        p, mark := p0 + 1, -1;
        MarkedIs(data, -1, p);
        assert Seen(data, -1, p) == Value() by { assert log + [] == log; }
        TakesByte(head, start, before.(log := before.log + Marked(data, mark0, p0)), data, p0);
      } else if state.BodyIdentity? {
        p, mark := ReadIdentity(data, p0, mark0);
        SameOk(Value(), Seen(data, mark, p));
      } else if state.BodyIdentityEof? {
        p, mark := ReadUntilClose(data, p0, mark0);
        SameOk(Value(), Seen(data, mark, p));
      } else {
        OneByteState(data, p0, start);
        p, mark := p0 + 1, -1;
        if error != NoError {
          p := p0;
        }
      }
    }

    /**
     * The bytes of one call. Returns how many of them belong to this message; an error is at the next byte.
     * No bytes at all announce the end of the connection.
     */
    method Execute(data: string) returns (n: nat)
      requires Ok(Value())
      modifies this
      ensures Ok(Value())
      ensures data != [] ==> Value() == Executed(head, old(Value()), data)
      ensures data != [] ==> n <= |data| && data[..n] + Run(head, old(Value()), data).1 == data
      ensures data == [] ==> Value() == EndOfStream(old(Value())) && n <= 1
      ensures data == [] && n == 1 ==> error == InvalidEofState
    {
      hide Run, Ok, Marked, Step;
      if error != NoError {
        Untouched(head, Value(), data);
        return 0;
      }
      if |data| == 0 {
        n := AtEndOfStream();
        return;
      }
      ghost var start := Value();
      var p, mark := 0, -1;
      MarkedIs(data, -1, 0);
      assert Seen(data, -1, 0) == start by { assert log + [] == log; }
      assert data[0..] == data;
      while p < |data| && !state.NextMessage? && !state.Dead? && !state.TrailerField?
        invariant 0 <= p <= |data| && -1 <= mark <= p && error == NoError && Inv(start, data, mark, p)
        decreases |data| - p
      {
        p, mark := Turn(data, p, mark, start);
        if error != NoError {
          Consumed(head, start, data, p);
          ExecutedOk(head, start, data);
          return p;
        }
      }
      ghost var seen := Seen(data, mark, p);
      MarkedIs(data, mark, p);
      if mark >= 0 {
        log := log + Marks(data[mark..p]);
      }
      assert Value() == seen by { assert log + [] == log; }
      Finally(head, start, seen, data, p);
      return p;
    }

    method AtEndOfStream() returns (n: nat)
      requires Ok(Value()) && error == NoError
      modifies this`log, this`error
      ensures Ok(Value()) && Value() == EndOfStream(old(Value()))
      ensures n == if error == InvalidEofState then 1 else 0
    {
      match state
      case BodyIdentityEof =>
        log := log + [MessageComplete];
        n := 0;
      case NextMessage => n := 0;
      case Dead => n := 0;
      case _ =>
        error := InvalidEofState;
        n := 1;
    }
  }

  /** The end of the connection completes only a body that is read until then. */
  function EndOfStream(p: Parser): Parser {
    if p.error != NoError then p
    else match p.state
      case BodyIdentityEof => p.(log := p.log + [MessageComplete])
      case NextMessage => p
      case Dead => p
      case _ => p.(error := InvalidEofState)
  }

  lemma Untouched(h: Head, p: Parser, data: string)
    requires Ok(p) && p.error != NoError
    ensures Run(h, p, data) == (p, data) && EndOfStream(p) == p
    ensures Executed(h, p, data) == p
    ensures data[..0] + data == data
  {
    assert p.log[|p.log|..] == [];
    assert p.log + [] == p.log;
  }

  lemma Consumed(h: Head, start: Parser, data: string, p: nat)
    requires Ok(start) && p <= |data| && Run(h, start, data).1 == data[p..]
    ensures data[..p] + Run(h, start, data).1 == data
  {
    hide Run;
  }

  lemma Finally(h: Head, start: Parser, seen: Parser, data: string, p: nat)
    requires Ok(start) && Ok(seen) && p <= |data| && Run(h, start, data) == Run(h, seen, data[p..])
             && seen.error == NoError
    requires p == |data| || Stopped(seen)
    ensures seen == Executed(h, start, data) && data[..p] + Run(h, start, data).1 == data
  {
    hide Ok;
    assert Run(h, seen, data[p..]) == (seen, data[p..]);
  }

  lemma FirstMarked(data: string, mark0: int, mark: int, p: int)
    requires -1 <= mark0 <= p <= |data| && 0 <= p && mark == if mark0 < 0 then p else mark0
    ensures Marked(data, mark, p) == Marked(data, mark0, p)
  {
  }

  lemma MarkedIs(data: string, mark: int, p: int)
    requires -1 <= mark <= p <= |data| && 0 <= p
    ensures Marked(data, mark, p) == if mark >= 0 then Marks(data[mark..p]) else []
  {
  }

  /** Whether the parser is in order does not depend on what it has reported. */
  lemma SameOk(p: Parser, q: Parser)
    requires Ok(p) && q == p.(log := q.log)
    ensures Ok(q)
  {
  }

  lemma IdentityLength(p: Parser)
    requires Ok(p) && (p.state.BodyIdentity? || p.state.ChunkData?)
    ensures p.contentLength > 0
  {
  }

  /** Reading body bytes in bulk, after what is marked already, is reading them one by one. */
  lemma BulkStep(h: Head, v: Parser, data: string, mark0: int, p0: int, mark: int, p: int)
    requires Ok(v) && v.error == NoError && (v.state.ChunkData? || v.state.BodyIdentity?)
    requires -1 <= mark0 <= p0 && 0 <= p0 < |data| && mark == if mark0 < 0 then p0 else mark0
    requires p - p0 == if v.contentLength < |data| - p0 then v.contentLength else |data| - p0
    ensures 0 <= mark <= p0 < p <= |data|
    ensures var q := v.(contentLength := v.contentLength - (p - p0), log := v.log + Marked(data, mark, p));
            var r := if q.contentLength > 0 then q
                     else if v.state.ChunkData? then q.(state := ChunkDataAlmostDone)
                     else Finished(h, q);
            Ok(r) && Run(h, v.(log := v.log + Marked(data, mark0, p0)), data[p0..]) == Run(h, r, data[p..])
  {
    hide Run, Marked, Ok, Finished;
    IdentityLength(v);
    FirstMarked(data, mark0, mark, p0);
    MarkedGrows(data, mark, p0, p);
    var seen := v.(log := v.log + Marked(data, mark0, p0));
    SameOk(v, seen);
    BulkRead(h, seen, data, p0, p);
    assert seen.log + Marks(data[p0..p]) == v.log + Marked(data, mark, p);
  }

  lemma TakesByte(h: Head, start: Parser, v: Parser, data: string, p: int)
    requires Ok(start) && Ok(v) && !Stopped(v) && 0 <= p < |data| && Run(h, start, data) == Run(h, v, data[p..])
    ensures var q := Step(h, v, data[p]);
            Run(h, start, data) == if q.error == NoError then Run(h, q, data[p + 1..]) else (q, data[p..])
  {
    hide Step, Ok, Run;
    assert data[p..] == [data[p]] + data[p + 1..];
    OneByte(h, v, data[p], data[p + 1..]);
  }

  /** A byte of a state without marks, in terms of the whole call. */
  lemma OneByteMore(h: Head, start: Parser, v: Parser, w: Parser, data: string, p: int)
    requires Ok(start) && Ok(v) && 0 <= p < |data| && Run(h, start, data) == Run(h, v, data[p..]) && start.log <= v.log
    requires v.error == NoError && (ParsingHeader(v.state) || v.state.ChunkDataDone?) && !v.state.TrailerField?
    requires w == Step(h, v, data[p])
    ensures w.error == NoError ==> start.log <= w.log && Run(h, start, data) == Run(h, w, data[p + 1..])
    ensures w.error == NoError && (w.state.ChunkData? || w.state.ChunkDataAlmostDone?)
            ==> !EndsInBody(w.log[|start.log|..])
    ensures w.error != NoError ==> w == Executed(h, start, data) && Run(h, start, data).1 == data[p..]
  {
    hide Step, Ok, Run;
    TakesByte(h, start, v, data, p);
    FailKeepsState(h, v, data[p]);
    RunAppends(h, start, data);
  }

  lemma FailKeepsState(h: Head, v: Parser, ch: char)
    requires Ok(v) && v.error == NoError && (ParsingHeader(v.state) || v.state.ChunkDataDone?)
    ensures Step(h, v, ch).error != NoError ==> !Step(h, v, ch).state.ChunkDataAlmostDone?
    ensures var w := Step(h, v, ch);
            w.state.ChunkData? || w.state.ChunkDataAlmostDone? ==> w.log == v.log + [ChunkHeader]
  {
  }

  /** The carriage return is missing: the call's marked bytes never reach the callback. */
  lemma LostBytes(h: Head, start: Parser, v: Parser, data: string, mark: int, p: int)
    requires Ok(start) && Ok(v) && v.error == NoError && v.state.ChunkDataAlmostDone?
    requires -1 <= mark <= p && 0 <= p < |data| && data[p] != CR
    requires start.log <= v.log && !EndsInBody(v.log[|start.log|..])
    requires var seen := v.(log := v.log + Marked(data, mark, p));
             Ok(seen) && Run(h, start, data) == Run(h, seen, data[p..])
    ensures v.(error := Strict) == Executed(h, start, data) && Run(h, start, data).1 == data[p..]
  {
    hide Ok, Run, EndsInBody;
    var seen := v.(log := v.log + Marked(data, mark, p));
    TakesByte(h, start, seen, data, p);
    RunAppends(h, start, data);
    var s := v.log[|start.log|..];
    assert seen.log[|start.log|..] == s + Marked(data, mark, p);
    if mark >= 0 {
      DropMarks(s, data[mark..p]);
    } else {
      DropMarks(s, []);
      assert Marks([]) == [];
    }
    assert start.log + s == v.log;
  }

  /** Reading body bytes in bulk is reading them one by one. */
  lemma BulkRead(h: Head, p: Parser, data: string, from: int, to: int)
    requires Ok(p) && p.error == NoError && (p.state.ChunkData? || p.state.BodyIdentity?)
    requires 0 <= from < to <= |data| && to - from <= p.contentLength
    ensures var q := p.(contentLength := p.contentLength - (to - from), log := p.log + Marks(data[from..to]));
            var r := if q.contentLength > 0 then q
                     else if p.state.ChunkData? then q.(state := ChunkDataAlmostDone)
                     else Finished(h, q);
            Ok(r) && Run(h, p, data[from..]) == Run(h, r, data[to..])
  {
    hide Run, Ok, Finished;
    assert data[from..] == data[from..to] + data[to..];
    if to - from < p.contentLength {
      BodyGoesOn(h, p, data[from..to], data[to..]);
    } else {
      BodyEnds(h, p, data[from..to], data[to..]);
    }
  }

  // ---------- slices ----------

  /** What is left after the calls for several slices in turn. */
  function ExecutedAll(h: Head, p: Parser, slices: seq<string>): Parser
    requires Ok(p)
    decreases |slices|
  {
    if slices == [] then p
    else
      ExecutedOk(h, p, slices[0]);
      ExecutedAll(h, Executed(h, p, slices[0]), slices[1..])
  }

  function Joined(slices: seq<string>): string {
    if slices == [] then [] else slices[0] + Joined(slices[1..])
  }

  lemma ExecutedOk(h: Head, p: Parser, data: string)
    requires Ok(p)
    ensures Ok(Executed(h, p, data))
    ensures Run(h, p, data).0.error == NoError ==> Executed(h, p, data) == Run(h, p, data).0
  {
    hide Run;
  }

  /** A data stream without errors leaves the same state and the same reports, however it is cut up. */
  lemma {:induction false} SlicingDoesNotMatter(h: Head, p: Parser, slices: seq<string>)
    requires Ok(p) && Run(h, p, Joined(slices)).0.error == NoError
    ensures ExecutedAll(h, p, slices) == Run(h, p, Joined(slices)).0
    decreases |slices|
  {
    hide Run, Ok, Executed;
    if slices == [] {
      NothingToRead(h, p);
    } else {
      var a, b := slices[0], Joined(slices[1..]);
      RunSplits(h, p, a, b);
      ExecutedOk(h, p, a);
      var (q, rest) := Run(h, p, a);
      RestMeansStopped(h, p, a);
      if Stopped(q) {
        StoppedStays(h, q, b);
      }
      SlicingDoesNotMatter(h, q, slices[1..]);
    }
  }

  lemma {:induction false} RestMeansStopped(h: Head, p: Parser, data: string)
    requires Ok(p)
    ensures Run(h, p, data).1 != [] ==> Stopped(Run(h, p, data).0)
    decreases |data|
  {
    hide Step, Ok;
    if data != [] && !Stopped(p) && Step(h, p, data[0]).error == NoError {
      RestMeansStopped(h, Step(h, p, data[0]), data[1..]);
    }
  }

  lemma StoppedStays(h: Head, p: Parser, data: string)
    requires Ok(p) && Stopped(p)
    ensures Run(h, p, data) == (p, data)
  {
  }

  /** A chunked message, cut up in any way, delivers its payload and completes once. */
  lemma SlicedPayloadDelivered(h: Head, p: Parser, chunks: seq<Chunk>, last: Chunk, slices: seq<string>)
    requires AllWellFormed(chunks) && WellFormed(last) && last.data == [] && p.log == []
    requires Ok(p) && p.error == NoError && p.state.ChunkSizeStart? && p.nread == 0
    requires Joined(slices) == Encode(chunks) + SizeLine(last) + [CR, LF]
    ensures var q := ExecutedAll(h, p, slices);
            && q.error == NoError && BodyOf(q.log) == Payload(chunks) && Completions(q.log) == 1
            && (q.state.NextMessage? || q.state.Dead?)
  {
    hide Run, Ok, Executed, Encode, SizeLine, WellFormed, ExecutedAll, BodyOf, Completions;
    ChunkedDelivered(h, p, chunks, last, []);
    PayloadDelivered(h, p, chunks, last, []);
    assert Joined(slices) + [] == Joined(slices);
    SlicingDoesNotMatter(h, p, slices);
  }

  /** The same for a body with a length. */
  lemma SlicedLengthDelivered(h: Head, p: Parser, body: string, slices: seq<string>)
    requires Ok(p) && p.error == NoError && p.state.BodyIdentity? && p.contentLength == |body| && p.log == []
    requires Joined(slices) == body
    ensures var q := ExecutedAll(h, p, slices);
            && q.error == NoError && BodyOf(q.log) == body && Completions(q.log) == 1
            && (q.state.NextMessage? || q.state.Dead?)
  {
    hide Run, Ok, Executed, ExecutedAll;
    LengthDelivered(h, p, body, []);
    assert body + [] == body;
    SlicingDoesNotMatter(h, p, slices);
    BodyOfMarks(body);
    BodyOfJoin(Marks(body), [MessageComplete]);
    assert p.log + Marks(body) == Marks(body);
    assert [MessageComplete][1..] == [];
    assert BodyOf([MessageComplete]) == [] && Completions([MessageComplete]) == 1;
  }

  // ---------- the count of a size line's bytes ----------

  lemma {:induction false} RunStaysFresh(h: Head, p: Parser, data: string)
    requires Ok(p) && FreshLine(p)
    ensures FreshLine(Run(h, p, data).0)
    decreases |data|
  {
    hide Step, Ok;
    if data != [] && !Stopped(p) {
      LinesStartFresh(h, p, data[0]);
      if Step(h, p, data[0]).error == NoError {
        RunStaysFresh(h, Step(h, p, data[0]), data[1..]);
      }
    }
  }

  lemma {:induction false} SlicesStayFresh(h: Head, p: Parser, slices: seq<string>)
    requires Ok(p) && FreshLine(p)
    ensures Ok(ExecutedAll(h, p, slices)) && FreshLine(ExecutedAll(h, p, slices))
    decreases |slices|
  {
    hide Run, Ok;
    if slices != [] {
      ExecutedOk(h, p, slices[0]);
      RunStaysFresh(h, p, slices[0]);
      SlicesStayFresh(h, Executed(h, p, slices[0]), slices[1..]);
    }
  }

  /**
   * However the input is cut, and after any number of chunks: a byte read where a size line starts is counted as
   * the first of its line. The code asserts that when it sees the byte.
   */
  lemma FirstByteIsCountedFirst(h: Head, p: Parser, slices: seq<string>, data: string, ch: char)
    requires Ok(p) && FreshLine(p)
    ensures Ok(ExecutedAll(h, p, slices))
    ensures var r := Run(h, ExecutedAll(h, p, slices), data).0;
            r.state.ChunkSizeStart? && !Stopped(r) ==> Step(h, r, ch).nread == 1
  {
    hide Run, ExecutedAll;
    SlicesStayFresh(h, p, slices);
    RunStaysFresh(h, ExecutedAll(h, p, slices), data);
  }

  // ---------- where a cut matters ----------

  /** A chunk's data ends in b, and what follows it there is no carriage return. */
  predicate ReturnMissing(q: Parser, b: string) {
    && (q.state.ChunkData? || q.state.ChunkDataAlmostDone?)
    && |b| > q.contentLength && b[q.contentLength] != CR
  }

  /**
   * The first slice ends in, or right behind, data of a chunk that it has reported, and the second one has no carriage
   * return behind the rest of that data: in a single call all of it would have been lost.
   */
  predicate ReportsEarly(h: Head, p: Parser, a: string, b: string)
    requires Ok(p)
  {
    RunAppends(h, p, a);
    var q := Run(h, p, a).0;
    EndsInBody(q.log[|p.log|..]) && ReturnMissing(q, b)
  }

  /** The call fails at a missing carriage return before it has reported anything but body. */
  ghost predicate FailsAtOnce(h: Head, q: Parser, b: string)
    requires Ok(q)
  {
    RunAppends(h, q, b);
    var r := Run(h, q, b).0;
    r.error != NoError && r.state.ChunkDataAlmostDone? && DropBody(r.log[|q.log|..]) == []
  }

  lemma {:induction false} OnlyBodyDropped(s: seq<Mark>)
    requires DropBody(s) == []
    ensures forall i :: 0 <= i < |s| ==> s[i].Body?
  {
    if s != [] {
      OnlyBodyDropped(s[..|s| - 1]);
    }
  }

  /** The way to a chunk's data leads over its header. */
  lemma StepToData(h: Head, q: Parser, ch: char)
    requires Ok(q) && q.error == NoError && !q.state.ChunkData? && !q.state.ChunkDataAlmostDone?
    ensures var r := Step(h, q, ch);
            && (r.error != NoError ==> r.state == q.state) && !r.state.ChunkDataAlmostDone?
            && (r.state.ChunkData? ==> r.log == q.log + [ChunkHeader])
  {
  }

  lemma {:induction false} HeaderComesFirst(h: Head, q: Parser, b: string)
    requires Ok(q) && !q.state.ChunkData? && !q.state.ChunkDataAlmostDone?
    ensures var r := Run(h, q, b).0;
            r.state.ChunkDataAlmostDone? ==> exists i :: |q.log| <= i < |r.log| && !r.log[i].Body?
    decreases |b|
  {
    hide Step, Ok;
    if b != [] && !Stopped(q) {
      var q' := Step(h, q, b[0]);
      StepToData(h, q, b[0]);
      if q'.error == NoError {
        RunAppends(h, q', b[1..]);
        if q'.state.ChunkData? {
          assert Run(h, q', b[1..]).0.log[|q.log|] == q'.log[|q.log|] == ChunkHeader;
        } else {
          HeaderComesFirst(h, q', b[1..]);
        }
      }
    }
  }

  /** What happens behind a chunk's data. */
  lemma BehindData(h: Head, q: Parser, b: string)
    requires Ok(q) && !Stopped(q) && q.state.ChunkDataAlmostDone?
    ensures FailsAtOnce(h, q, b) <==> b != [] && b[0] != CR
  {
    hide Run, Ok;
    NothingToRead(h, q);
    RunAppends(h, q, b);
    if b != [] {
      assert b == [b[0]] + b[1..];
      OneByte(h, q, b[0], b[1..]);
      if b[0] != CR {
        StepNoReturn(h, q, b[0]);
      } else {
        StepReturn(h, q);
        NeverAtOnce(h, Step(h, q, CR), b[1..]);
      }
    }
  }

  lemma StepReturn(h: Head, q: Parser)
    requires Ok(q) && q.error == NoError && q.state.ChunkDataAlmostDone?
    ensures Step(h, q, CR) == q.(state := ChunkDataDone)
  {
  }

  lemma NeverAtOnce(h: Head, q: Parser, b: string)
    requires Ok(q) && !q.state.ChunkData? && !q.state.ChunkDataAlmostDone?
    ensures !FailsAtOnce(h, q, b)
  {
    hide Run, Ok;
    HeaderComesFirst(h, q, b);
    RunAppends(h, q, b);
    var r := Run(h, q, b).0;
    if FailsAtOnce(h, q, b) {
      OnlyBodyDropped(r.log[|q.log|..]);
    }
  }

  /** The rest of a chunk's data makes no difference. */
  lemma AcrossData(h: Head, q: Parser, data: string, tail: string)
    requires Ok(q) && q.error == NoError && q.state.ChunkData? && |data| == q.contentLength
    ensures var q' := q.(contentLength := 0, log := q.log + Marks(data), state := ChunkDataAlmostDone);
            Ok(q') && (FailsAtOnce(h, q, data + tail) <==> FailsAtOnce(h, q', tail))
  {
    hide Run, Ok, DropBody;
    BodyEnds(h, q, data, tail);
    var q' := q.(contentLength := 0, log := q.log + Marks(data), state := ChunkDataAlmostDone);
    RunAppends(h, q, data + tail);
    RunAppends(h, q', tail);
    var log := Run(h, q', tail).0.log;
    assert log[|q.log|..] == Marks(data) + log[|q'.log|..];
    DropMarks([], data);
    assert [] + Marks(data) == Marks(data);
    DropJoin(Marks(data), log[|q'.log|..]);
  }

  lemma NotYet(h: Head, q: Parser, b: string)
    requires Ok(q) && q.error == NoError && q.state.ChunkData? && |b| < q.contentLength
    ensures !FailsAtOnce(h, q, b)
  {
    hide Run, Ok;
    BodyGoesOn(h, q, b, []);
    assert b + [] == b;
    NothingToRead(h, q.(contentLength := q.contentLength - |b|, log := q.log + Marks(b)));
  }

  /** Whether the next call fails in this way can be seen from the input. */
  lemma FailsAtOnceExactly(h: Head, q: Parser, b: string)
    requires Ok(q) && !Stopped(q)
    ensures FailsAtOnce(h, q, b) <==> ReturnMissing(q, b)
  {
    hide Ok, FailsAtOnce;
    if q.state.ChunkData? {
      var n := q.contentLength;
      if |b| < n {
        NotYet(h, q, b);
      } else {
        assert b == b[..n] + b[n..];
        AcrossData(h, q, b[..n], b[n..]);
        BehindData(h, q.(contentLength := 0, log := q.log + Marks(b[..n]), state := ChunkDataAlmostDone), b[n..]);
      }
    } else if q.state.ChunkDataAlmostDone? {
      AlmostDoneEmpty(q);
      BehindData(h, q, b);
    } else {
      NeverAtOnce(h, q, b);
    }
  }

  lemma AlmostDoneEmpty(q: Parser)
    requires Ok(q) && q.state.ChunkDataAlmostDone?
    ensures q.contentLength == 0
  {
  }

  /** Cutting after a successful call changes the outcome exactly in that case. */
  lemma CutMattersExactly(h: Head, p: Parser, a: string, b: string)
    requires Ok(p) && !Stopped(Run(h, p, a).0)
    ensures Ok(Executed(h, p, a))
    ensures (Executed(h, p, a + b) == Executed(h, Executed(h, p, a), b)) <==> !ReportsEarly(h, p, a, b)
  {
    hide Run, Ok, DropBody, ReturnMissing;
    RunSplits(h, p, a, b);
    ExecutedOk(h, p, a);
    RestMeansStopped(h, p, a);
    RunAppends(h, p, a);
    var q := Run(h, p, a).0;
    RunAppends(h, q, b);
    RunAppends(h, p, a + b);
    FailsAtOnceExactly(h, q, b);
    var r := Run(h, q, b).0;
    var s, t := q.log[|p.log|..], r.log[|q.log|..];
    assert r.log[|p.log|..] == s + t;
    DropJoin(s, t);
    assert p.log + s == q.log;
    if r.error != NoError && r.state.ChunkDataAlmostDone? {
      SameTail(p.log, DropBody(s + t), q.log, DropBody(t), s);
    }
  }

  /** After the size line "1" and one byte of data. */
  function AfterOneByte(p: Parser): Parser {
    p.(contentLength := 0, nread := 0, log := [ChunkHeader, Body('A')], state := ChunkDataAlmostDone)
  }

  lemma OneByteRead(h: Head, p: Parser)
    requires Ok(p) && p.error == NoError && p.state.ChunkSizeStart? && p.nread == 0 && p.log == []
    ensures var q := AfterOneByte(p);
            Ok(q) && Run(h, p, "1\r\nA") == (q, []) && Run(h, q, "X") == (q.(error := Strict), "X")
  {
    hide Run, Ok, Step;
    var c, q := Chunk("1", "", "A"), AfterOneByte(p);
    assert HexVal("1") == 1 by { assert "1"[..0] == []; }
    assert SizeLine(c) == "1\r\n" && SizeLine(c) + "A" == "1\r\nA";
    SizeLineRead(h, p, c, "A");
    var p1 := AfterSizeLine(p, 1);
    assert "A" + [] == "A" && Marks("A") == [Body('A')];
    BodyEnds(h, p1, "A", []);
    assert p1.log + Marks("A") == [ChunkHeader, Body('A')];
    NothingToRead(h, q);
    assert "X" == ['X'] + [];
    OneByte(h, q, 'X', []);
    StepNoReturn(h, q, 'X');
  }

  /** One byte of data, then no carriage return: in one call the byte is lost, in two it is reported. */
  lemma LostByte(h: Head, p: Parser)
    requires Ok(p) && p.error == NoError && p.state.ChunkSizeStart? && p.nread == 0 && p.log == []
    ensures Executed(h, p, "1\r\nA" + "X").log == [ChunkHeader]
    ensures Ok(Executed(h, p, "1\r\nA")) && Executed(h, Executed(h, p, "1\r\nA"), "X").log == [ChunkHeader, Body('A')]
  {
    hide Run, Ok;
    var q := AfterOneByte(p);
    OneByteRead(h, p);
    RunSplits(h, p, "1\r\nA", "X");
    RunAppends(h, p, "1\r\nA" + "X");
    RunAppends(h, q, "X");
    var log := [ChunkHeader, Body('A')];
    assert log[..1] == [ChunkHeader] && log[|log|..] == [] && log[0..] == log && log + [] == log;
    assert DropBody(log) == [ChunkHeader];
  }

  lemma StepNoReturn(h: Head, p: Parser, ch: char)
    requires Ok(p) && p.error == NoError && p.state.ChunkDataAlmostDone? && ch != CR
    ensures Step(h, p, ch) == p.(error := Strict)
  {
  }

  lemma SameTail(a: seq<Mark>, x: seq<Mark>, b: seq<Mark>, y: seq<Mark>, s: seq<Mark>)
    requires a + s == b
    ensures a + x == b + y <==> x == s + y
  {
    assert b + y == a + (s + y);
    assert (a + x)[|a|..] == x && (a + (s + y))[|a|..] == s + y;
  }

  lemma {:induction false} DropJoin(s: seq<Mark>, t: seq<Mark>)
    ensures DropBody(s + t) == if DropBody(t) == [] then DropBody(s) else s + DropBody(t)
    ensures DropBody(s) == s <==> !EndsInBody(s)
    decreases |t|
  {
    DropShrinks(s);
    if t == [] {
      assert s + t == s;
    } else if EndsInBody(t) {
      assert (s + t)[..|s + t| - 1] == s + t[..|t| - 1];
      DropJoin(s, t[..|t| - 1]);
    }
  }

  lemma {:induction false} DropShrinks(s: seq<Mark>)
    ensures |DropBody(s)| <= |s|
    ensures EndsInBody(s) ==> |DropBody(s)| < |s|
  {
    if EndsInBody(s) {
      DropShrinks(s[..|s| - 1]);
    }
  }
}
