/** The server's incremental WebSocket parser (sections 5.2 to 5.4 of RFC 6455), as a function of single bytes. */
module WebSocketSteps {
  newtype byte = x: int | 0 <= x < 256

  const LIMIT_PAYLOAD_LEN := 1024 * 1024

  /** Bits of the two header bytes. */
  predicate HighBit(b: byte) { b >= 128 }

  function Rsv(b: byte): byte { b / 16 % 8 }

  function Opcode(b: byte): byte { b % 16 }

  function Low7(b: byte): byte { b % 128 }

  /** Exclusive or of the lowest n bits. */
  function XorBits(a: nat, b: nat, n: nat): nat {
    if n == 0 then 0 else (a % 2 + b % 2) % 2 + 2 * XorBits(a / 2, b / 2, n - 1)
  }

  function Two(n: nat): nat { if n == 0 then 1 else 2 * Two(n - 1) }

  /** Bit i of x, counted from the lowest one. */
  predicate Bit(x: nat, i: nat) {
    if i == 0 then x % 2 == 1 else Bit(x / 2, i - 1)
  }

  /** Every bit of c is set if and only if exactly one of a and b has it. */
  ghost predicate IsXor(a: byte, b: byte, c: byte) {
    BitsDiffer(a as nat, b as nat, c as nat, 8)
  }

  ghost predicate BitsDiffer(a: nat, b: nat, c: nat, n: nat) {
    forall i :: 0 <= i < n ==> (Bit(c, i) <==> Bit(a, i) != Bit(b, i))
  }

  lemma {:induction false} XorBitsAre(a: nat, b: nat, n: nat, i: nat)
    requires i < n
    ensures Bit(XorBits(a, b, n), i) <==> Bit(a, i) != Bit(b, i)
  {
    HalfOf(XorBits(a, b, n), (a % 2 + b % 2) % 2, XorBits(a / 2, b / 2, n - 1));
    if i > 0 {
      XorBitsAre(a / 2, b / 2, n - 1, i - 1);
    }
  }

  lemma XorBitsAll(a: nat, b: nat, n: nat)
    ensures BitsDiffer(a, b, XorBits(a, b, n), n)
  {
    forall i | 0 <= i < n
      ensures Bit(XorBits(a, b, n), i) <==> Bit(a, i) != Bit(b, i)
    {
      XorBitsAre(a, b, n, i);
    }
  }

  lemma {:induction false} SameBits(c: nat, d: nat, n: nat)
    requires c < Two(n) && d < Two(n) && forall i :: 0 <= i < n ==> (Bit(c, i) <==> Bit(d, i))
    ensures c == d
  {
    if n > 0 {
      assert Bit(c, 0) <==> Bit(d, 0);
      forall i | 0 <= i < n - 1
        ensures Bit(c / 2, i) <==> Bit(d / 2, i)
      {
        assert Bit(c, i + 1) <==> Bit(d, i + 1);
      }
      SameBits(c / 2, d / 2, n - 1);
    }
  }

  /** There is only one exclusive or of two bytes. */
  lemma XorIsUnique(a: byte, b: byte, c: byte, d: byte)
    requires IsXor(a, b, c) && IsXor(a, b, d)
    ensures c == d
  {
    Eight();
    SameBits(c as nat, d as nat, 8);
  }

  lemma {:induction false} XorBitsBound(a: nat, b: nat, n: nat)
    ensures XorBits(a, b, n) < Two(n)
  {
    if n > 0 {
      XorBitsBound(a / 2, b / 2, n - 1);
    }
  }

  lemma {:induction false} XorBitsUndo(a: nat, b: nat, n: nat)
    requires a < Two(n)
    ensures XorBits(XorBits(a, b, n), b, n) == a
  {
    if n > 0 {
      XorBitsUndo(a / 2, b / 2, n - 1);
      HalfOf(XorBits(a, b, n), (a % 2 + b % 2) % 2, XorBits(a / 2, b / 2, n - 1));
      SameBit(a % 2, b % 2);
    }
  }

  lemma HalfOf(z: int, low: int, rest: int)
    requires z == low + 2 * rest && 0 <= low < 2
    ensures z % 2 == low && z / 2 == rest
  {
  }

  lemma SameBit(x: int, y: int)
    requires 0 <= x < 2 && 0 <= y < 2
    ensures ((x + y) % 2 + y) % 2 == x
  {
  }

  lemma Eight()
    ensures Two(8) == 256
  {
    assert Two(4) == 16;
  }

  /** The exclusive or, bit for bit. */
  function Xor(a: byte, b: byte): (c: byte)
    ensures IsXor(a, b, c)
  {
    XorBitsBound(a as nat, b as nat, 8);
    Eight();
    XorBitsAll(a as nat, b as nat, 8);
    XorBits(a as nat, b as nat, 8) as byte
  }

  lemma XorUndo(a: byte, k: byte)
    ensures Xor(Xor(a, k), k) == a
  {
    hide XorBits;
    Eight();
    XorBitsUndo(a as nat, k as nat, 8);
  }

  datatype Status = FinAndOpcode | PayloadLenAndMask | PayloadLen | MaskKey | Payload

  /** The frame record that the parser fills in. */
  datatype FrameValue = FrameValue(fin: bool, rsv: byte, opcode: byte, mask: bool, payloadLen: nat,
                                   maskKey: seq<byte>, payload: seq<byte>)

  /** The parser's fields, the frame being filled, and the frames delivered to the callback so far. */
  datatype Parser = Parser(status: Status, byteNeed: nat, isContinuation: bool, maskIndex: nat, frame: FrameValue,
                           delivered: seq<FrameValue>)

  datatype Outcome = Fine(p: Parser) | TooLong(p: Parser)

  /** After the length: on to the mask key or straight to the payload. */
  function SwitchToMask(p: Parser): Parser {
    if p.frame.mask then p.(status := MaskKey, byteNeed := 4, frame := p.frame.(maskKey := []))
    else p.(status := Payload, byteNeed := p.frame.payloadLen)
  }

  /** A frame is complete: the last one of a message goes to the callback. */
  function Complete(p: Parser): Parser {
    p.(maskIndex := 0, byteNeed := 0, status := FinAndOpcode, isContinuation := !p.frame.fin,
       delivered := if p.frame.fin then p.delivered + [p.frame] else p.delivered)
  }

  function FirstByte(p: Parser, b: byte): Parser {
    var f := p.frame.(fin := HighBit(b), rsv := Rsv(b));
    var f' := if !p.isContinuation && Opcode(b) != 0 then f.(opcode := Opcode(b), maskKey := [], payload := []) else f;
    p.(status := PayloadLenAndMask, frame := f')
  }

  function SecondByte(p: Parser, b: byte): Parser {
    var f := p.frame.(mask := HighBit(b), payloadLen := Low7(b) as nat);
    if Low7(b) <= 125 then SwitchToMask(p.(frame := f))
    else p.(status := PayloadLen, byteNeed := if Low7(b) == 126 then 2 else 8, frame := f.(payloadLen := 0))
  }

  /** The extended length is a 64-bit number. */
  function LengthByte(p: Parser, b: byte): Parser {
    var f := if p.byteNeed > 0
             then p.frame.(payloadLen := (p.frame.payloadLen * 256 + b as nat) % 0x1_0000_0000_0000_0000)
             else p.frame;
    var p' := p.(frame := f, byteNeed := if p.byteNeed > 0 then p.byteNeed - 1 else 0);
    if p'.byteNeed == 0 then SwitchToMask(p') else p'
  }

  function KeyByte(p: Parser, b: byte): Parser {
    var f := if p.byteNeed > 0 then p.frame.(maskKey := p.frame.maskKey + [b]) else p.frame;
    var p' := p.(frame := f, byteNeed := if p.byteNeed > 0 then p.byteNeed - 1 else 0);
    if p'.byteNeed == 0 then p'.(byteNeed := f.payloadLen, status := Payload) else p'
  }

  /** The byte as it goes to the payload. */
  function Unmasked(p: Parser, b: byte): byte
    requires p.frame.mask ==> p.maskIndex < |p.frame.maskKey|
  {
    if p.frame.mask then Xor(b, p.frame.maskKey[p.maskIndex]) else b
  }

  function PayloadByte(p: Parser, b: byte): Parser
    requires p.byteNeed > 0 && (p.frame.mask ==> p.maskIndex < |p.frame.maskKey|)
  {
    var p' := p.(frame := p.frame.(payload := p.frame.payload + [Unmasked(p, b)]), byteNeed := p.byteNeed - 1,
                 maskIndex := if p.frame.mask then (p.maskIndex + 1) % 4 else p.maskIndex);
    if p'.byteNeed == 0 then Complete(p') else p'
  }

  /** What the parser keeps true between bytes. */
  predicate Ok(p: Parser) {
    && p.maskIndex < 4
    && (p.status.MaskKey? ==> p.frame.mask && 0 < p.byteNeed <= 4 && |p.frame.maskKey| == 4 - p.byteNeed)
    && (p.status.Payload? && p.frame.mask ==> |p.frame.maskKey| == 4)
    && (p.status.PayloadLen? ==> 0 < p.byteNeed)
  }

  /** An empty payload is complete before any byte of it, and the byte at hand already belongs to the next frame. */
  predicate Empty(p: Parser) {
    p.status.Payload? && p.frame.payloadLen <= LIMIT_PAYLOAD_LEN && p.byteNeed == 0
  }

  function Flush(p: Parser): Parser {
    if Empty(p) then Complete(p) else p
  }

  /** One byte. */
  function Step(p0: Parser, b: byte): Outcome
    requires Ok(p0)
  {
    var p := Flush(p0);
    match p.status
    case FinAndOpcode => Fine(FirstByte(p, b))
    case PayloadLenAndMask => Fine(SecondByte(p, b))
    case PayloadLen => Fine(LengthByte(p, b))
    case MaskKey => Fine(KeyByte(p, b))
    case Payload =>
      if p.frame.payloadLen > LIMIT_PAYLOAD_LEN then TooLong(p.(status := FinAndOpcode, isContinuation := false))
      else Fine(PayloadByte(p, b))
  }

  lemma StepOk(p: Parser, b: byte)
    requires Ok(p)
    ensures Ok(Step(p, b).p)
  {
  }

  /** All bytes in turn, up to an error. */
  function Feed(p: Parser, bytes: seq<byte>): Outcome
    requires Ok(p)
    decreases |bytes|
  {
    if bytes == [] then Fine(p)
    else
      StepOk(p, bytes[0]);
      match Step(p, bytes[0])
      case TooLong(q) => TooLong(q)
      case Fine(q) => Feed(q, bytes[1..])
  }

  lemma {:induction false} FeedOk(p: Parser, bytes: seq<byte>)
    requires Ok(p)
    ensures Ok(Feed(p, bytes).p)
    decreases |bytes|
  {
    if bytes != [] {
      StepOk(p, bytes[0]);
      if Step(p, bytes[0]).Fine? {
        FeedOk(Step(p, bytes[0]).p, bytes[1..]);
      }
    }
  }

  /** Where the bytes are cut does not matter. */
  lemma {:induction false} FeedSplit(p: Parser, a: seq<byte>, b: seq<byte>)
    requires Ok(p)
    ensures Ok(Feed(p, a).p)
    ensures Feed(p, a).Fine? ==> Feed(p, a + b) == Feed(Feed(p, a).p, b)
    ensures Feed(p, a).TooLong? ==> Feed(p, a + b) == Feed(p, a)
    decreases |a|
  {
    FeedOk(p, a);
    if a == [] {
      assert a + b == b;
    } else {
      assert (a + b)[1..] == a[1..] + b;
      StepOk(p, a[0]);
      if Step(p, a[0]).Fine? {
        FeedSplit(Step(p, a[0]).p, a[1..], b);
      }
    }
  }
}

/** The parser as the server runs it: a loop over a received slice that copies payload in bulk. */
module WebSocketParser {
  import opened WebSocketSteps

  datatype ParseErr = Success | InvalidPayloadLen

  class WsFrame {
    var fin: bool
    var rsv: byte
    var opcode: byte
    var mask: bool
    var payloadLen: nat
    var maskKey: seq<byte>
    var payload: seq<byte>

    constructor ()
    {
      fin, rsv, opcode, mask, payloadLen, maskKey, payload := false, 0, 0, false, 0, [], [];
    }

    function Value(): FrameValue
      reads this
    {
      FrameValue(fin, rsv, opcode, mask, payloadLen, maskKey, payload)
    }
  }

  /** The payload state after some bytes of the payload, before it is looked at whether it is complete. */
  ghost function Copied(p: Parser, bytes: seq<byte>): (q: Parser)
    requires Ok(p) && p.status == Payload && |bytes| <= p.byteNeed
    ensures Ok(q) && q.status == Payload && q.byteNeed == p.byteNeed - |bytes|
            && q.frame == p.frame.(payload := q.frame.payload)
  {
    if bytes == [] then p
    else
      var q := Copied(p, bytes[..|bytes| - 1]);
      q.(frame := q.frame.(payload := q.frame.payload + [Unmasked(q, bytes[|bytes| - 1])]), byteNeed := q.byteNeed - 1,
         maskIndex := if q.frame.mask then (q.maskIndex + 1) % 4 else q.maskIndex)
  }

  lemma {:induction false} FeedCopied(p: Parser, bytes: seq<byte>)
    requires Ok(p) && p.status == Payload && p.frame.payloadLen <= LIMIT_PAYLOAD_LEN && |bytes| <= p.byteNeed
             && p.byteNeed > 0
    ensures Feed(p, bytes) == Fine(if |bytes| == p.byteNeed then Complete(Copied(p, bytes)) else Copied(p, bytes))
    decreases |bytes|
  {
    if bytes != [] {
      var init, last := bytes[..|bytes| - 1], bytes[|bytes| - 1];
      FeedCopied(p, init);
      FeedSplit(p, init, [last]);
      assert init + [last] == bytes;
      FeedOne(Copied(p, init), last);
    }
  }

  lemma FeedOne(p: Parser, b: byte)
    requires Ok(p)
    ensures Feed(p, [b]) == Step(p, b)
  {
    StepOk(p, b);
  }

  lemma CopiedNothing(p: Parser)
    requires Ok(p) && p.status == Payload
    ensures Copied(p, []) == p
  {
  }

  lemma CopiedStep(p: Parser, bytes: seq<byte>, b: byte)
    requires Ok(p) && p.status == Payload && |bytes| < p.byteNeed
    ensures var q := Copied(p, bytes);
            Copied(p, bytes + [b]) ==
            q.(frame := q.frame.(payload := q.frame.payload + [Unmasked(q, b)]), byteNeed := q.byteNeed - 1,
               maskIndex := if q.frame.mask then (q.maskIndex + 1) % 4 else q.maskIndex)
  {
    assert (bytes + [b])[..|bytes|] == bytes;
  }

  /** One byte taken off the input. */
  lemma FeedFirst(p: Parser, bytes: seq<byte>, i: nat)
    requires Ok(p) && i < |bytes|
    ensures Ok(Step(p, bytes[i]).p)
    ensures Feed(p, bytes[i..]) ==
            match Step(p, bytes[i]) { case TooLong(q) => TooLong(q) case Fine(q) => Feed(q, bytes[i + 1..]) }
  {
    StepOk(p, bytes[i]);
    assert bytes[i..][1..] == bytes[i + 1..];
  }

  /** Several payload bytes taken off the input. */
  lemma FeedBulk(p: Parser, bytes: seq<byte>, i: nat, n: nat)
    requires Ok(p) && p.status == Payload && p.frame.payloadLen <= LIMIT_PAYLOAD_LEN && 0 < n <= p.byteNeed
             && i + n <= |bytes|
    ensures var q := Copied(p, bytes[i..i + n]);
            var q' := if n == p.byteNeed then Complete(q) else q;
            Ok(q') && Feed(p, bytes[i..]) == Feed(q', bytes[i + n..])
  {
    FeedCopied(p, bytes[i..i + n]);
    FeedSplit(p, bytes[i..i + n], bytes[i + n..]);
    assert bytes[i..] == bytes[i..i + n] + bytes[i + n..];
  }

  /** Without a mask the payload is copied as it is. */
  lemma {:induction false} CopiedPlain(p: Parser, bytes: seq<byte>)
    requires Ok(p) && p.status == Payload && |bytes| <= p.byteNeed && !p.frame.mask
    ensures Copied(p, bytes) == p.(frame := p.frame.(payload := p.frame.payload + bytes),
                                   byteNeed := p.byteNeed - |bytes|)
    decreases |bytes|
  {
    if bytes != [] {
      CopiedPlain(p, bytes[..|bytes| - 1]);
      assert bytes[..|bytes| - 1] + [bytes[|bytes| - 1]] == bytes;
      assert p.frame.payload + bytes[..|bytes| - 1] + [bytes[|bytes| - 1]] == p.frame.payload + bytes;
    } else {
      assert p.frame.payload + [] == p.frame.payload;
    }
  }

  class WebsocketParser {
    var status: Status
    var byteNeed: nat
    var isContinuation: bool
    var maskIndex: nat
    var delivered: seq<FrameValue>  // the frame at each call of the completion callback

    constructor ()
      ensures status == FinAndOpcode && !isContinuation && byteNeed == 1 && maskIndex == 0 && delivered == []
    {
      status, isContinuation, byteNeed, maskIndex, delivered := FinAndOpcode, false, 1, 0, [];
    }

    function State(frame: WsFrame): Parser
      reads this, frame
    {
      Parser(status, byteNeed, isContinuation, maskIndex, frame.Value(), delivered)
    }

    method ToMask(frame: WsFrame)
      modifies this, frame
      ensures State(frame) == SwitchToMask(old(State(frame)))
    {
      if frame.mask {
        status := MaskKey;
        byteNeed := 4;
        frame.maskKey := [];
      } else {
        status := Payload;
        byteNeed := frame.payloadLen;
      }
    }

    method Finish(frame: WsFrame)
      modifies this
      ensures State(frame) == Complete(old(State(frame)))
    {
      maskIndex := 0;
      byteNeed := 0;
      status := FinAndOpcode;
      if frame.fin {
        isContinuation := false;
        delivered := delivered + [frame.Value()];
      } else {
        isContinuation := true;
      }
    }

    /** The states before the payload, one byte each. */
    method HeaderByte(c: byte, frame: WsFrame)
      requires status != Payload
      modifies this, frame
      ensures State(frame) == match old(status)
                              case FinAndOpcode => FirstByte(old(State(frame)), c)
                              case PayloadLenAndMask => SecondByte(old(State(frame)), c)
                              case PayloadLen => LengthByte(old(State(frame)), c)
                              case _ => KeyByte(old(State(frame)), c)
    {
      hide SwitchToMask;
      match status
      case FinAndOpcode =>
        frame.fin := HighBit(c);
        frame.rsv := Rsv(c);
        var opcode := Opcode(c);
        if !isContinuation && opcode != 0 {
          frame.opcode := opcode;
          frame.maskKey := [];
          frame.payload := [];
        }
        status := PayloadLenAndMask;
      case PayloadLenAndMask =>
        frame.mask := HighBit(c);
        frame.payloadLen := Low7(c) as nat;
        if frame.payloadLen <= 125 {
          ToMask(frame);
        } else if frame.payloadLen == 126 {
          frame.payloadLen := 0;
          status := PayloadLen;
          byteNeed := 2;
        } else {
          frame.payloadLen := 0;
          status := PayloadLen;
          byteNeed := 8;
        }
      case PayloadLen =>
        if byteNeed > 0 {
          frame.payloadLen := (frame.payloadLen * 256 + c as nat) % 0x1_0000_0000_0000_0000;
          byteNeed := byteNeed - 1;
        }
        if byteNeed == 0 {
          ToMask(frame);
        }
      case MaskKey =>
        if byteNeed > 0 {
          frame.maskKey := frame.maskKey + [c];
          byteNeed := byteNeed - 1;
        }
        if byteNeed == 0 {
          byteNeed := frame.payloadLen;
          status := Payload;
        }
    }

    /** Copies toRead bytes to the payload, unmasked; nothing else changes yet. */
    method CopyPayload(data: seq<byte>, ch: nat, toRead: nat, frame: WsFrame)
      requires Ok(State(frame)) && status == Payload && toRead <= byteNeed && ch + toRead <= |data|
      modifies this`maskIndex, frame`payload
      ensures State(frame) == Copied(old(State(frame)), data[ch..ch + toRead]).(byteNeed := byteNeed)
    {
      hide Copied, Xor;
      ghost var start := State(frame);
      if frame.mask {
        assert data[ch..ch] == [];
        CopiedNothing(start);
        for i := 0 to toRead
          invariant State(frame) == Copied(start, data[ch..ch + i]).(byteNeed := byteNeed)
        {
          assert data[ch..ch + i + 1] == data[ch..ch + i] + [data[ch + i]];
          CopiedStep(start, data[ch..ch + i], data[ch + i]);
          frame.payload := frame.payload + [Xor(data[ch + i], frame.maskKey[maskIndex])];
          maskIndex := (maskIndex + 1) % 4;
        }
      } else {
        CopiedPlain(start, data[ch..ch + toRead]);
        frame.payload := frame.payload + data[ch..ch + toRead];
      }
    }

    /** One turn of the loop at index ch; the index it leaves may be one less, so that a byte is seen again. */
    method Turn(data: seq<byte>, ch0: nat, frame: WsFrame) returns (ch: int, err: ParseErr)
      requires Ok(State(frame)) && ch0 < |data|
      modifies this, frame
      ensures Ok(State(frame))
      ensures err == Success ==>
        && ch0 - 1 <= ch < |data| && (ch == ch0 - 1 ==> Empty(old(State(frame))) && status == FinAndOpcode)
        && Feed(old(State(frame)), data[ch0..]) == Feed(State(frame), data[ch + 1..])
      ensures err != Success ==> Feed(old(State(frame)), data[ch0..]) == TooLong(State(frame))
    {
      hide Feed, Copied, Complete, FirstByte, SecondByte, LengthByte, KeyByte;
      ch, err := ch0, Success;
      ghost var p := State(frame);
      FeedFirst(p, data, ch0);
      if status != Payload {
        HeaderByte(data[ch0], frame);
        return;
      }
      if frame.payloadLen > LIMIT_PAYLOAD_LEN {
        status := FinAndOpcode;
        isContinuation := false;
        return ch, InvalidPayloadLen;
      }
      ch := PayloadTurn(data, ch0, frame);
    }

    /** The payload state: as much payload as there is, and completion if that was all of it. */
    method PayloadTurn(data: seq<byte>, ch0: nat, frame: WsFrame) returns (ch: int)
      requires Ok(State(frame)) && ch0 < |data| && status == Payload && frame.payloadLen <= LIMIT_PAYLOAD_LEN
      modifies this, frame
      ensures Ok(State(frame)) && ch0 - 1 <= ch < |data|
      ensures ch == ch0 - 1 ==> Empty(old(State(frame))) && status == FinAndOpcode
      ensures Feed(old(State(frame)), data[ch0..]) == Feed(State(frame), data[ch + 1..])
    {
      hide Feed, Copied;
      ghost var p := State(frame);
      var toRead := if |data| - ch0 < byteNeed then |data| - ch0 else byteNeed;
      if toRead > 0 {
        FeedBulk(p, data, ch0, toRead);
      } else {
        FeedEmpty(p, data, ch0);
      }
      CopyPayload(data, ch0, toRead, frame);
      byteNeed := byteNeed - toRead;
      ch := ch0 + toRead - 1;
      if byteNeed == 0 {
        Finish(frame);
      }
    }

    /** Parses one received slice. */
    method Parse(data: seq<byte>, frame: WsFrame) returns (err: ParseErr)
      requires Ok(State(frame))
      modifies this, frame
      ensures Ok(State(frame))
      ensures State(frame) == Feed(old(State(frame)), data).p
      ensures err == Success <==> Feed(old(State(frame)), data).Fine?
    {
      hide Feed;
      ghost var start := State(frame);
      if |data| == 0 {
        FeedNothing(start);
        return Success;
      }
      var ch := 0;
      assert data[0..] == data;
      while ch != |data|
        invariant 0 <= ch <= |data| && Ok(State(frame)) && Feed(start, data) == Feed(State(frame), data[ch..])
        decreases |data| - ch, if Empty(State(frame)) then 1 else 0
      {
        ch, err := Turn(data, ch, frame);
        if err != Success {
          return;
        }
        ch := ch + 1;
      }
      assert data[|data|..] == [];
      FeedNothing(State(frame));
      err := Success;
    }
  }

  lemma FeedNothing(p: Parser)
    requires Ok(p)
    ensures Feed(p, []) == Fine(p)
  {
  }

  /** Completing an empty payload takes no byte. */
  lemma FeedEmpty(p: Parser, bytes: seq<byte>, i: nat)
    requires Ok(p) && Empty(p) && i < |bytes|
    ensures Ok(Complete(p)) && Feed(p, bytes[i..]) == Feed(Complete(p), bytes[i..])
    ensures Copied(p, bytes[i..i]) == p
  {
    assert Flush(p) == Complete(p) && Flush(Complete(p)) == Complete(p);
  }
}
