/** Frames as section 5.2 of RFC 6455 lays them out, the header the server writes, and what the parser makes of them. */
module WebSocketFraming {
  import opened Powers
  import opened WebSocketSteps
  import opened WebSocketParser

  // ---------- slices ----------

  function Flatten(slices: seq<seq<byte>>): seq<byte> {
    if slices == [] then [] else slices[0] + Flatten(slices[1..])
  }

  /** One call of the parser per slice, up to an error. */
  function FeedSlices(p: Parser, slices: seq<seq<byte>>): Outcome
    requires Ok(p)
    decreases |slices|
  {
    if slices == [] then Fine(p)
    else
      FeedOk(p, slices[0]);
      match Feed(p, slices[0])
      case TooLong(q) => TooLong(q)
      case Fine(q) => FeedSlices(q, slices[1..])
  }

  /** However the stream is cut, callbacks, frame and parser state come out the same. */
  lemma {:induction false} SlicingDoesNotMatter(p: Parser, slices: seq<seq<byte>>)
    requires Ok(p)
    ensures FeedSlices(p, slices) == Feed(p, Flatten(slices))
    decreases |slices|
  {
    if slices != [] {
      FeedSplit(p, slices[0], Flatten(slices[1..]));
      if Feed(p, slices[0]).Fine? {
        SlicingDoesNotMatter(Feed(p, slices[0]).p, slices[1..]);
      }
    }
  }

  // ---------- the layout of a frame ----------

  datatype LengthForm = Seven | Sixteen | SixtyFour

  datatype Fragment = Fragment(fin: bool, rsv: byte, opcode: byte, mask: bool, key: seq<byte>, form: LengthForm,
                               payload: seq<byte>)

  function Two8(k: nat): (r: nat)
    ensures r >= 1
  {
    if k == 0 then 1 else 256 * Two8(k - 1)
  }

  ghost predicate HeaderOk(f: Fragment) {
    && f.rsv < 8 && f.opcode < 16 && (f.mask ==> |f.key| == 4) && |f.payload| < 0x1_0000_0000_0000_0000
    && (f.form.Seven? ==> |f.payload| <= 125) && (f.form.Sixteen? ==> |f.payload| < 0x1_0000)
  }

  ghost predicate FragmentOk(f: Fragment) {
    HeaderOk(f) && |f.payload| <= LIMIT_PAYLOAD_LEN
  }

  /** n in k bytes, most significant first. */
  function BigEndian(n: nat, k: nat): (r: seq<byte>)
    ensures |r| == k
  {
    if k == 0 then [] else BigEndian(n / 256, k - 1) + [(n % 256) as byte]
  }

  /** Section 5.3 of RFC 6455: octet k on the wire is octet k of the payload xor octet k mod 4 of the key. */
  ghost predicate MasksTo(payload: seq<byte>, key: seq<byte>, wire: seq<byte>)
    requires |key| == 4
  {
    |wire| == |payload| && forall k :: 0 <= k < |payload| ==> IsXor(payload[k], key[k % 4], wire[k])
  }

  function Masked(payload: seq<byte>, key: seq<byte>): (r: seq<byte>)
    requires |key| == 4
    ensures |r| == |payload| && MasksTo(payload, key, r)
  {
    if payload == [] then []
    else
      var n := |payload| - 1;
      Masked(payload[..n], key) + [Xor(payload[n], key[n % 4])]
  }

  /** The rule fixes the wire, and read backwards it fixes the payload. */
  lemma MaskingIsUnique(payload: seq<byte>, key: seq<byte>, wire: seq<byte>)
    requires |key| == 4 && MasksTo(payload, key, wire)
    ensures wire == Masked(payload, key) && MasksTo(wire, key, payload)
  {
    hide IsXor, Xor;
    forall k | 0 <= k < |payload|
      ensures wire[k] == Masked(payload, key)[k] && IsXor(wire[k], key[k % 4], payload[k])
    {
      XorIsUnique(payload[k], key[k % 4], wire[k], Masked(payload, key)[k]);
      XorTurns(payload[k], key[k % 4], wire[k]);
    }
  }

  lemma XorTurns(a: byte, b: byte, c: byte)
    requires IsXor(a, b, c)
    ensures IsXor(c, b, a)
  {
  }

  function LengthBytes(form: LengthForm, n: nat): seq<byte> {
    match form
    case Seven => []
    case Sixteen => BigEndian(n, 2)
    case SixtyFour => BigEndian(n, 8)
  }

  function LengthCode(form: LengthForm, n: nat): (c: byte)
    requires form.Seven? ==> n <= 125
    ensures c <= 127
  {
    match form
    case Seven => n as byte
    case Sixteen => 126
    case SixtyFour => 127
  }

  function First(f: Fragment): byte
    requires HeaderOk(f)
  {
    (if f.fin then 128 else 0) + f.rsv * 16 + f.opcode
  }

  function Second(f: Fragment): byte
    requires HeaderOk(f)
  {
    (if f.mask then 128 else 0) + LengthCode(f.form, |f.payload|)
  }

  function Bytes(f: Fragment): seq<byte>
    requires FragmentOk(f)
  {
    [First(f), Second(f)] + LengthBytes(f.form, |f.payload|) + (if f.mask then f.key else [])
    + if f.mask then Masked(f.payload, f.key) else f.payload
  }

  // ---------- the parser on one frame ----------

  /** The frame record after the frame f. */
  function Filled(p: Parser, f: Fragment): FrameValue {
    var start := !p.isContinuation && f.opcode != 0;
    FrameValue(f.fin, f.rsv, if start then f.opcode else p.frame.opcode, f.mask, |f.payload|,
               if f.mask then f.key else if start then [] else p.frame.maskKey,
               (if start then [] else p.frame.payload) + f.payload)
  }

  function AfterFrame(p: Parser, f: Fragment): Parser {
    Complete(p.(frame := Filled(p, f)))
  }

  lemma FirstBits(f: Fragment)
    requires HeaderOk(f)
    ensures HighBit(First(f)) == f.fin && Rsv(First(f)) == f.rsv && Opcode(First(f)) == f.opcode
    ensures HighBit(Second(f)) == f.mask && Low7(Second(f)) == LengthCode(f.form, |f.payload|)
  {
    var high := if f.fin then 8 else 0;
    DivModUnique(First(f) as int, 16, high + f.rsv as int, f.opcode as int);
    DivModUnique(high + f.rsv as int, 8, if f.fin then 1 else 0, f.rsv as int);
    DivModUnique(Second(f) as int, 128, if f.mask then 1 else 0, LengthCode(f.form, |f.payload|) as int);
  }

  /** The first two bytes. */
  lemma FeedStart(p: Parser, f: Fragment)
    requires Ok(p) && p.status == FinAndOpcode && HeaderOk(f)
    ensures Feed(p, [First(f), Second(f)]) == Fine(SecondByte(FirstByte(p, First(f)), Second(f)))
  {
    hide FirstByte, SecondByte, First, Second;
    var a, b := First(f), Second(f);
    FirstIsHeader(p, a);
    FeedOne(p, a);
    StepOk(p, a);
    FeedSplit(p, [a], [b]);
    FeedOne(FirstByte(p, a), b);
    assert [a, b] == [a] + [b];
  }

  lemma FirstIsHeader(p: Parser, a: byte)
    requires Ok(p) && p.status == FinAndOpcode
    ensures Step(p, a) == Fine(FirstByte(p, a)) && FirstByte(p, a).status == PayloadLenAndMask
  {
  }

  /** An extended length, with m >= k bytes still to come. */
  lemma {:induction false} FeedLength(p: Parser, n: nat, k: nat)
    requires Ok(p) && p.status == PayloadLen && p.frame.payloadLen == 0 && 0 < k <= p.byteNeed && k <= 8 && n < Two8(k)
    ensures var q := p.(frame := p.frame.(payloadLen := n), byteNeed := p.byteNeed - k);
            Feed(p, BigEndian(n, k)) == Fine(if q.byteNeed == 0 then SwitchToMask(q) else q)
    decreases k
  {
    hide SwitchToMask, Two8, Feed;
    var b := (n % 256) as byte;
    Two8Bound(k);
    LowByte(n, k);
    var q := p.(frame := p.frame.(payloadLen := n / 256), byteNeed := p.byteNeed - (k - 1));
    LengthStep(q, b, n);
    FeedOne(q, b);
    if k == 1 {
      assert BigEndian(n, 1) == [b];
    } else {
      FeedLength(p, n / 256, k - 1);
      FeedSplit(p, BigEndian(n / 256, k - 1), [b]);
    }
  }

  lemma LowByte(n: nat, k: nat)
    requires 0 < k && n < Two8(k)
    ensures n / 256 < Two8(k - 1) && n / 256 * 256 + n % 256 == n && (k == 1 ==> n / 256 == 0)
  {
  }

  lemma LengthStep(q: Parser, b: byte, n: nat)
    requires Ok(q) && q.status == PayloadLen && q.frame.payloadLen * 256 + b as nat == n < 0x1_0000_0000_0000_0000
    ensures var q' := q.(frame := q.frame.(payloadLen := n), byteNeed := q.byteNeed - 1);
            Step(q, b) == Fine(if q'.byteNeed == 0 then SwitchToMask(q') else q')
  {
  }

  lemma Two8Bound(k: nat)
    requires k <= 8
    ensures Two8(k) <= 0x1_0000_0000_0000_0000 == Two8(8)
  {
    assert Two8(4) == 0x1_0000_0000;
    assert Two8(8) == 0x1_0000_0000_0000_0000;
    if k < 8 {
      Two8Mono(k, 8);
    }
  }

  lemma {:induction false} Two8Mono(j: nat, k: nat)
    requires j <= k
    ensures 1 <= Two8(j) <= Two8(k)
    decreases k
  {
    if j < k {
      Two8Mono(j, k - 1);
    } else if k > 0 {
      Two8Mono(j - 1, k - 1);
    }
  }

  /** The four bytes of the mask key. */
  lemma {:induction false} FeedKey(p: Parser, key: seq<byte>)
    requires Ok(p) && p.status == MaskKey && |p.frame.maskKey| + |key| == 4 && p.byteNeed == |key| > 0
    ensures Feed(p, key) == Fine(p.(frame := p.frame.(maskKey := p.frame.maskKey + key),
                                    byteNeed := p.frame.payloadLen, status := Payload))
    decreases |key|
  {
    var q := KeyByte(p, key[0]);
    assert key == [key[0]] + key[1..];
    FeedOne(p, key[0]);
    FeedSplit(p, [key[0]], key[1..]);
    assert p.frame.maskKey + key == (p.frame.maskKey + [key[0]]) + key[1..];
    if |key| > 1 {
      FeedKey(q, key[1..]);
    } else {
      assert key[1..] == [];
    }
  }

  lemma NextIndex(n: nat)
    ensures (n % 4 + 1) % 4 == (n + 1) % 4 && 0 <= n % 4 < 4
  {
  }

  /** Copying masked payload unmasks it. */
  lemma {:induction false} CopiedMasked(p: Parser, payload: seq<byte>)
    requires Ok(p) && p.status == Payload && |payload| <= p.byteNeed && p.frame.mask && p.maskIndex == 0
    ensures Copied(p, Masked(payload, p.frame.maskKey)) ==
            p.(frame := p.frame.(payload := p.frame.payload + payload), byteNeed := p.byteNeed - |payload|,
               maskIndex := |payload| % 4)
    decreases |payload|
  {
    hide Copied, Xor, MasksTo;
    var key := p.frame.maskKey;
    if payload == [] {
      CopiedNothing(p);
      assert p.frame.payload + [] == p.frame.payload;
    } else {
      var n := |payload| - 1;
      CopiedMasked(p, payload[..n]);
      CopiedStep(p, Masked(payload[..n], key), Xor(payload[n], key[n % 4]));
      XorUndo(payload[n], key[n % 4]);
      NextIndex(n);
      assert payload[..n] + [payload[n]] == payload;
      assert p.frame.payload + payload[..n] + [payload[n]] == p.frame.payload + payload;
    }
  }

  /** The payload of a frame, masked or not; an empty one leaves the frame pending. */
  lemma FeedPayload(p: Parser, f: Fragment)
    requires Ok(p) && p.status == Payload && FragmentOk(f) && p.maskIndex == 0
    requires p.byteNeed == p.frame.payloadLen == |f.payload| && p.frame.mask == f.mask
             && (f.mask ==> p.frame.maskKey == f.key)
    ensures var r := Feed(p, if f.mask then Masked(f.payload, f.key) else f.payload);
            r.Fine? && Flush(r.p) == Complete(p.(frame := p.frame.(payload := p.frame.payload + f.payload)))
  {
    hide Copied, Feed, Masked;
    var bytes := if f.mask then Masked(f.payload, f.key) else f.payload;
    if f.payload == [] {
      FeedNothing(p);
      assert bytes == [];
      assert p.frame.payload + [] == p.frame.payload;
    } else {
      FeedCopied(p, bytes);
      if f.mask {
        CopiedMasked(p, f.payload);
      } else {
        CopiedPlain(p, f.payload);
      }
    }
  }

  /** The parser just before the payload of the frame f. */
  function BeforePayload(p: Parser, f: Fragment): Parser {
    var start := !p.isContinuation && f.opcode != 0;
    p.(status := Payload, byteNeed := |f.payload|,
       frame := FrameValue(f.fin, f.rsv, if start then f.opcode else p.frame.opcode, f.mask, |f.payload|,
                           if f.mask then f.key else if start then [] else p.frame.maskKey,
                           if start then [] else p.frame.payload))
  }

  /** The parser after the length of the frame f, before the key or the payload. */
  function AfterLength(p: Parser, f: Fragment): Parser {
    var start := !p.isContinuation && f.opcode != 0;
    SwitchToMask(p.(byteNeed := 0, status := PayloadLen,
       frame := FrameValue(f.fin, f.rsv, if start then f.opcode else p.frame.opcode, f.mask, |f.payload|,
                           if start then [] else p.frame.maskKey, if start then [] else p.frame.payload)))
  }

  lemma FeedHeader(p: Parser, f: Fragment)
    requires Ok(p) && p.status == FinAndOpcode && HeaderOk(f)
    ensures Feed(p, [First(f), Second(f)] + LengthBytes(f.form, |f.payload|)) == Fine(AfterLength(p, f))
  {
    hide First, Second, HighBit, Rsv, Opcode, Low7, Feed, BigEndian;
    FeedStart(p, f);
    FirstBits(f);
    var q := SecondByte(FirstByte(p, First(f)), Second(f));
    FeedOk(p, [First(f), Second(f)]);
    FeedSplit(p, [First(f), Second(f)], LengthBytes(f.form, |f.payload|));
    FeedNothing(q);
    if f.form.Sixteen? {
      assert Two8(2) == 0x1_0000;
      FeedLength(q, |f.payload|, 2);
    } else if f.form.SixtyFour? {
      Two8Bound(8);
      FeedLength(q, |f.payload|, 8);
    }
  }

  lemma FeedUpToPayload(p: Parser, f: Fragment)
    requires Ok(p) && p.status == FinAndOpcode && HeaderOk(f)
    ensures Feed(p, [First(f), Second(f)] + LengthBytes(f.form, |f.payload|) + (if f.mask then f.key else []))
            == Fine(BeforePayload(p, f))
  {
    hide First, Second, Feed, LengthBytes;
    FeedHeader(p, f);
    var head := [First(f), Second(f)] + LengthBytes(f.form, |f.payload|);
    FeedOk(p, head);
    if f.mask {
      FeedSplit(p, head, f.key);
      FeedKey(AfterLength(p, f), f.key);
      assert [] + f.key == f.key;
    } else {
      assert head + [] == head;
    }
  }

  /** One frame, whatever its length form and mask: the parser holds its payload, and delivered it if it was final. */
  lemma OneFrame(p: Parser, f: Fragment)
    requires Ok(p) && p.status == FinAndOpcode && p.maskIndex == 0 && FragmentOk(f)
    ensures Feed(p, Bytes(f)).Fine? && Flush(Feed(p, Bytes(f)).p) == AfterFrame(p, f)
  {
    hide First, Second, Feed, LengthBytes, Masked;
    var head := [First(f), Second(f)] + LengthBytes(f.form, |f.payload|) + (if f.mask then f.key else []);
    FeedUpToPayload(p, f);
    FeedOk(p, head);
    FeedPayload(BeforePayload(p, f), f);
    FeedSplit(p, head, if f.mask then Masked(f.payload, f.key) else f.payload);
  }

  /**
   * A masked frame as it is on the wire: whatever octets the masking rule makes of a payload, with any key and length
   * form, the parser makes that payload of them.
   */
  lemma WireIsUnmasked(p: Parser, f: Fragment, wire: seq<byte>)
    requires Ok(p) && p.status == FinAndOpcode && p.maskIndex == 0 && FragmentOk(f) && f.mask
    requires MasksTo(f.payload, f.key, wire)
    ensures var r := Feed(p, [First(f), Second(f)] + LengthBytes(f.form, |f.payload|) + f.key + wire);
            && r.Fine? && Flush(r.p) == AfterFrame(p, f)
            && Flush(r.p).frame.payload
               == (if !p.isContinuation && f.opcode != 0 then [] else p.frame.payload) + f.payload
  {
    hide First, Second, Feed, LengthBytes, Masked;
    MaskingIsUnique(f.payload, f.key, wire);
    OneFrame(p, f);
  }

  /** A frame that announces more than 2^20 bytes is refused as soon as a byte follows its header; no other frame is. */
  lemma LongFrameRefused(p: Parser, f: Fragment, b: byte)
    requires Ok(p) && p.status == FinAndOpcode && HeaderOk(f)
    ensures var head := [First(f), Second(f)] + LengthBytes(f.form, |f.payload|) + (if f.mask then f.key else []);
            && Feed(p, head).Fine?
            && (Feed(p, head + [b]).TooLong? <==> |f.payload| > 0x10_0000)
  {
    hide First, Second, Feed, LengthBytes;
    var head := [First(f), Second(f)] + LengthBytes(f.form, |f.payload|) + (if f.mask then f.key else []);
    FeedUpToPayload(p, f);
    FeedOk(p, head);
    FeedSplit(p, head, [b]);
    FeedOne(BeforePayload(p, f), b);
  }

  // ---------- streams of frames and messages ----------

  ghost predicate FragmentsOk(fs: seq<Fragment>) {
    forall i :: 0 <= i < |fs| ==> FragmentOk(fs[i])
  }

  function Stream(fs: seq<Fragment>): seq<byte>
    requires FragmentsOk(fs)
  {
    if fs == [] then [] else Bytes(fs[0]) + Stream(fs[1..])
  }

  function AfterFrames(p: Parser, fs: seq<Fragment>): Parser
    decreases |fs|
  {
    if fs == [] then p else AfterFrames(AfterFrame(p, fs[0]), fs[1..])
  }

  /** At the start of a frame, with no mask position left over. */
  predicate AtFrame(p: Parser) {
    p.status == FinAndOpcode && p.maskIndex == 0
  }

  /** The next byte finds the pending empty frame completed. */
  lemma FlushFirst(p: Parser, bytes: seq<byte>)
    requires Ok(p) && bytes != []
    ensures Ok(Flush(p)) && Feed(p, bytes) == Feed(Flush(p), bytes)
  {
    assert Flush(Flush(p)) == Flush(p);
  }

  lemma {:induction false} FramesInOrder(p: Parser, fs: seq<Fragment>)
    requires Ok(p) && AtFrame(p) && FragmentsOk(fs)
    ensures Feed(p, Stream(fs)).Fine? && Flush(Feed(p, Stream(fs)).p) == AfterFrames(p, fs)
    decreases |fs|
  {
    hide Feed, Flush, AfterFrame, Bytes;
    if fs == [] {
      FeedNothing(p);
      NotPending(p);
    } else {
      var q := Feed(p, Bytes(fs[0])).p;
      OneFrame(p, fs[0]);
      FeedSplit(p, Bytes(fs[0]), Stream(fs[1..]));
      AfterFrameRests(p, fs[0]);
      if fs[1..] == [] {
        FeedNothing(q);
      } else {
        StreamNonempty(fs[1..]);
        FlushFirst(q, Stream(fs[1..]));
        FramesInOrder(AfterFrame(p, fs[0]), fs[1..]);
      }
    }
  }

  lemma NotPending(p: Parser)
    requires AtFrame(p)
    ensures Flush(p) == p
  {
  }

  lemma AfterFrameRests(p: Parser, f: Fragment)
    ensures Ok(AfterFrame(p, f)) && AtFrame(AfterFrame(p, f))
  {
  }

  lemma StreamNonempty(fs: seq<Fragment>)
    requires fs != [] && FragmentsOk(fs)
    ensures Stream(fs) != []
  {
    assert |Bytes(fs[0])| >= 2;
  }

  /** A message in one or more fragments, with nothing in between. */
  datatype Message = Message(opcode: byte, parts: seq<Fragment>)

  ghost predicate MessageOk(m: Message) {
    && 0 < m.opcode < 16 && m.parts != [] && FragmentsOk(m.parts)
    && m.parts[0].opcode == m.opcode
    && (forall i :: 0 < i < |m.parts| ==> m.parts[i].opcode == 0)
    && (forall i :: 0 <= i < |m.parts| ==> (m.parts[i].fin <==> i == |m.parts| - 1))
  }

  function Join(parts: seq<Fragment>): seq<byte> {
    if parts == [] then [] else parts[0].payload + Join(parts[1..])
  }

  /** The rest of a message after its first fragment. */
  lemma {:induction false} RestOfMessage(p: Parser, parts: seq<Fragment>)
    requires p.isContinuation && parts != []
    requires forall i :: 0 <= i < |parts| ==> (parts[i].fin <==> i == |parts| - 1)
    ensures var q := AfterFrames(p, parts);
            && !q.isContinuation && AtFrame(q) && |q.delivered| == |p.delivered| + 1
            && q.delivered[..|p.delivered|] == p.delivered
            && q.delivered[|p.delivered|].opcode == p.frame.opcode
            && q.delivered[|p.delivered|].payload == p.frame.payload + Join(parts)
    decreases |parts|
  {
    var q := AfterFrame(p, parts[0]);
    if |parts| == 1 {
      assert AfterFrames(q, parts[1..]) == q;
      assert Join(parts) == parts[0].payload;
    } else {
      RestOfMessage(q, parts[1..]);
      assert p.frame.payload + Join(parts) == p.frame.payload + parts[0].payload + Join(parts[1..]);
    }
  }

  /** A whole message is delivered once, with the opcode of its first fragment and all its payload. */
  lemma MessageDelivered(p: Parser, m: Message)
    requires !p.isContinuation && MessageOk(m)
    ensures var q := AfterFrames(p, m.parts);
            && !q.isContinuation && AtFrame(q) && |q.delivered| == |p.delivered| + 1
            && q.delivered[..|p.delivered|] == p.delivered
            && q.delivered[|p.delivered|].opcode == m.opcode
            && q.delivered[|p.delivered|].payload == Join(m.parts)
  {
    var q := AfterFrame(p, m.parts[0]);
    assert q.frame.payload == m.parts[0].payload;
    if |m.parts| == 1 {
      assert AfterFrames(q, m.parts[1..]) == q;
      assert Join(m.parts) == m.parts[0].payload;
    } else {
      RestOfMessage(q, m.parts[1..]);
    }
  }

  function Fragments(ms: seq<Message>): seq<Fragment> {
    if ms == [] then [] else ms[0].parts + Fragments(ms[1..])
  }

  lemma {:induction false} AfterFramesSplit(p: Parser, a: seq<Fragment>, b: seq<Fragment>)
    ensures AfterFrames(p, a + b) == AfterFrames(AfterFrames(p, a), b)
    decreases |a|
  {
    if a == [] {
      assert a + b == b;
    } else {
      assert (a + b)[1..] == a[1..] + b;
      AfterFramesSplit(AfterFrame(p, a[0]), a[1..], b);
    }
  }

  ghost predicate MessagesOk(ms: seq<Message>) {
    forall i :: 0 <= i < |ms| ==> MessageOk(ms[i])
  }

  lemma {:induction false} FragmentsOfMessages(ms: seq<Message>)
    requires MessagesOk(ms)
    ensures FragmentsOk(Fragments(ms))
  {
    if ms != [] {
      assert MessageOk(ms[0]);
      FragmentsOfMessages(ms[1..]);
    }
  }

  /** Opcode and payload of the frames delivered from position n on are those of the messages, in order. */
  ghost predicate DeliveredFrom(d: seq<FrameValue>, n: nat, ms: seq<Message>) {
    && |d| == n + |ms|
    && forall i :: 0 <= i < |ms| ==> d[n + i].opcode == ms[i].opcode && d[n + i].payload == Join(ms[i].parts)
  }

  lemma {:induction false} MessagesAfter(p: Parser, ms: seq<Message>)
    requires !p.isContinuation && MessagesOk(ms)
    ensures var q := AfterFrames(p, Fragments(ms));
            && !q.isContinuation && (AtFrame(p) ==> AtFrame(q))
            && DeliveredFrom(q.delivered, |p.delivered|, ms) && q.delivered[..|p.delivered|] == p.delivered
    decreases |ms|
  {
    hide AfterFrames, Join, MessageOk;
    if ms == [] {
      NoFrames(p);
      assert p.delivered[..|p.delivered|] == p.delivered;
    } else {
      var m, n := ms[0], |p.delivered|;
      assert MessageOk(m);
      var q := AfterFrames(p, m.parts);
      MessageDelivered(p, m);
      AfterFramesSplit(p, m.parts, Fragments(ms[1..]));
      MessagesAfter(q, ms[1..]);
      var d := AfterFrames(q, Fragments(ms[1..])).delivered;
      assert d[..n + 1] == q.delivered;
      assert d[..n] == d[..n + 1][..n] && d[n] == d[..n + 1][n];
      forall i | 0 <= i < |ms|
        ensures d[n + i].opcode == ms[i].opcode && d[n + i].payload == Join(ms[i].parts)
      {
        if i > 0 {
          assert ms[1..][i - 1] == ms[i] && d[n + 1 + (i - 1)] == d[n + i];
        }
      }
    }
  }

  lemma NoFrames(p: Parser)
    ensures AfterFrames(p, []) == p
  {
  }

  /**
   * Parsing undoes framing: however the bytes of some messages are cut into slices, all frames are accepted and the
   * messages come out in order, with their opcodes and joined payloads. Only if the very last frame is empty is the
   * last message still pending; the next byte delivers it.
   */
  lemma RoundTrip(p: Parser, ms: seq<Message>, slices: seq<seq<byte>>)
    requires Ok(p) && AtFrame(p) && !p.isContinuation && MessagesOk(ms)
    requires FragmentsOk(Fragments(ms)) && Flatten(slices) == Stream(Fragments(ms))
    ensures var r := FeedSlices(p, slices);
            && r.Fine? && Flush(r.p) == AfterFrames(p, Fragments(ms)) && !Flush(r.p).isContinuation
            && DeliveredFrom(Flush(r.p).delivered, |p.delivered|, ms)
            && Flush(r.p).delivered[..|p.delivered|] == p.delivered
  {
    hide Feed, Flush, AfterFrames, Stream, FeedSlices;
    SlicingDoesNotMatter(p, slices);
    FramesInOrder(p, Fragments(ms));
    MessagesAfter(p, ms);
  }

  /** With one more byte nothing is pending any more. */
  lemma PendingDelivered(p: Parser, bytes: seq<byte>)
    requires Ok(p) && Empty(p) && p.frame.fin && bytes != []
    ensures Flush(p).delivered == p.delivered + [p.frame] && Feed(p, bytes) == Feed(Flush(p), bytes)
  {
    FlushFirst(p, bytes);
  }

  // ---------- control frames between the fragments of a message ----------

  /** What the application sees of a delivered frame. */
  datatype Delivery = Delivery(opcode: byte, payload: seq<byte>)

  predicate IsControl(f: Fragment) { f.opcode >= 8 }

  /** Whether a data message is unfinished after the frame. */
  predicate OpenAfter(f: Fragment, open: bool) {
    if IsControl(f) then open else !f.fin
  }

  /** Section 5.4 of RFC 6455: control frames are not fragmented and may stand anywhere, also inside a message. */
  ghost predicate Legal(fs: seq<Fragment>, open: bool)
    decreases |fs|
  {
    fs != [] ==>
      && fs[0].opcode < 16 && (if IsControl(fs[0]) then fs[0].fin else fs[0].opcode == 0 <==> open)
      && Legal(fs[1..], OpenAfter(fs[0], open))
  }

  /** What the frames mean by that section, after the beginning `so` of an unfinished message if one is open. */
  function Meaning(fs: seq<Fragment>, open: bool, so: Delivery): seq<Delivery>
    decreases |fs|
  {
    if fs == [] then []
    else if IsControl(fs[0]) then
      [Delivery(fs[0].opcode, fs[0].payload)] + Meaning(fs[1..], open, so)
    else
      var m := if open then Delivery(so.opcode, so.payload + fs[0].payload)
               else Delivery(fs[0].opcode, fs[0].payload);
      (if fs[0].fin then [m] else []) + Meaning(fs[1..], !fs[0].fin, m)
  }

  /** A control frame stands inside a message. */
  predicate Interleaved(fs: seq<Fragment>, open: bool)
    decreases |fs|
  {
    fs != [] && ((open && IsControl(fs[0])) || Interleaved(fs[1..], OpenAfter(fs[0], open)))
  }

  function Seen(d: seq<FrameValue>): (r: seq<Delivery>)
    ensures |r| == |d| && forall i :: 0 <= i < |r| ==> r[i] == Delivery(d[i].opcode, d[i].payload)
  {
    seq(|d|, i requires 0 <= i < |d| => Delivery(d[i].opcode, d[i].payload))
  }

  /** A frame is delivered if it is final, with everything collected so far. */
  lemma SeenMore(p: Parser, f: Fragment)
    ensures var v, q := Filled(p, f), AfterFrame(p, f);
            && Seen(q.delivered) == Seen(p.delivered) + (if f.fin then [Delivery(v.opcode, v.payload)] else [])
            && p.delivered <= q.delivered && q.frame == v && q.isContinuation == !f.fin
  {
  }

  /** Deliveries are never taken back. */
  lemma {:induction false} DeliveriesStay(p: Parser, fs: seq<Fragment>)
    ensures p.delivered <= AfterFrames(p, fs).delivered
    decreases |fs|
  {
    hide AfterFrame;
    if fs != [] {
      SeenMore(p, fs[0]);
      DeliveriesStay(AfterFrame(p, fs[0]), fs[1..]);
    }
  }

  /** Of the parser's state only an unfinished message matters. */
  predicate Holding(p: Parser, open: bool, so: Delivery) {
    p.isContinuation == open && (open ==> p.frame.opcode == so.opcode < 8 && p.frame.payload == so.payload)
  }

  lemma FilledIs(p: Parser, f: Fragment, open: bool, so: Delivery)
    requires Holding(p, open, so) && (!open ==> f.opcode != 0)
    ensures var v := Filled(p, f);
            && v.opcode == (if open then so.opcode else f.opcode)
            && v.payload == (if open then so.payload + f.payload else f.payload)
  {
  }

  /** The parser follows that section exactly as long as no control frame stands inside a message. */
  lemma {:induction false} MeaningAgrees(p: Parser, fs: seq<Fragment>, open: bool, so: Delivery)
    requires Legal(fs, open) && Holding(p, open, so)
    ensures Seen(AfterFrames(p, fs).delivered) == Seen(p.delivered) + Meaning(fs, open, so) <==> !Interleaved(fs, open)
    decreases |fs|
  {
    hide AfterFrame, Seen;
    if fs == [] {
      assert Seen(p.delivered) + [] == Seen(p.delivered);
    } else {
      var f, q := fs[0], AfterFrame(p, fs[0]);
      if open && IsControl(f) {
        SwallowedControl(p, fs, so);
      } else {
        var m := if open then Delivery(so.opcode, so.payload + f.payload) else Delivery(f.opcode, f.payload);
        var next := if IsControl(f) then so else m;
        var out := if f.fin then [m] else [];
        SeenMore(p, f);
        FilledIs(p, f, open, so);
        assert Meaning(fs, open, so) == out + Meaning(fs[1..], OpenAfter(f, open), next);
        assert Seen(p.delivered) + out + Meaning(fs[1..], OpenAfter(f, open), next)
            == Seen(p.delivered) + (out + Meaning(fs[1..], OpenAfter(f, open), next));
        MeaningAgrees(q, fs[1..], OpenAfter(f, open), next);
      }
    }
  }

  /** The control frame's payload goes to the open message, which is delivered in its place. */
  lemma SwallowedControl(p: Parser, fs: seq<Fragment>, so: Delivery)
    requires Legal(fs, true) && Holding(p, true, so) && fs != [] && IsControl(fs[0])
    ensures Seen(AfterFrames(p, fs).delivered) != Seen(p.delivered) + Meaning(fs, true, so)
  {
    var q, n := AfterFrame(p, fs[0]), |p.delivered|;
    DeliveriesStay(q, fs[1..]);
    assert q.delivered[n].opcode == so.opcode;
    assert AfterFrames(p, fs).delivered[n] == q.delivered[n];
    assert (Seen(p.delivered) + Meaning(fs, true, so))[n] == Meaning(fs, true, so)[0];
  }

  /** However a stream of frames is cut, it is delivered as the RFC says exactly if no message is interrupted. */
  lemma ControlFramesDelivered(p: Parser, fs: seq<Fragment>, slices: seq<seq<byte>>)
    requires Ok(p) && AtFrame(p) && !p.isContinuation && FragmentsOk(fs) && Legal(fs, false)
    requires Flatten(slices) == Stream(fs)
    ensures var r := FeedSlices(p, slices);
            && r.Fine?
            && (Seen(Flush(r.p).delivered) == Seen(p.delivered) + Meaning(fs, false, Delivery(0, []))
                <==> !Interleaved(fs, false))
  {
    hide Feed, Flush, AfterFrames, Stream, FeedSlices, Meaning, Interleaved;
    SlicingDoesNotMatter(p, slices);
    FramesInOrder(p, fs);
    MeaningAgrees(p, fs, false, Delivery(0, []));
  }

  /** A ping between two fragments: its payload is taken for text, and the text is delivered twice. */
  lemma PingInsideMessage(p: Parser, first: Fragment, ping: Fragment, last: Fragment)
    requires Ok(p) && AtFrame(p) && !p.isContinuation && FragmentsOk([first, ping, last])
    requires first.opcode == 1 && !first.fin && ping.opcode == 9 && ping.fin && last.opcode == 0 && last.fin
    ensures Legal([first, ping, last], false)
    ensures Meaning([first, ping, last], false, Delivery(0, []))
            == [Delivery(9, ping.payload), Delivery(1, first.payload + last.payload)]
    ensures Seen(Flush(Feed(p, Stream([first, ping, last])).p).delivered)
            == Seen(p.delivered) + [Delivery(1, first.payload + ping.payload),
                                    Delivery(1, first.payload + ping.payload + last.payload)]
  {
    hide Feed, Flush, Stream, AfterFrame, Seen;
    var fs := [first, ping, last];
    assert fs[1..] == [ping, last] && fs[1..][1..] == [last] && fs[1..][1..][1..] == [];
    FramesInOrder(p, fs);
    var p1 := AfterFrame(p, first);
    var p2 := AfterFrame(p1, ping);
    var p3 := AfterFrame(p2, last);
    SeenMore(p, first);
    SeenMore(p1, ping);
    SeenMore(p2, last);
    FilledIs(p, first, false, Delivery(0, []));
    FilledIs(p1, ping, true, Delivery(1, first.payload));
    assert Legal(fs[1..][1..], true) by { assert Legal([], false); }
    assert OpenAfter(ping, true) && Legal(fs[1..], true);
    assert AfterFrames(p, fs) == AfterFrames(p1, fs[1..]) == AfterFrames(p2, fs[1..][1..]) == AfterFrames(p3, []) == p3;
    assert Meaning([last], true, Delivery(1, first.payload)) == [Delivery(1, first.payload + last.payload)];
  }

  // ---------- the frame header the server writes ----------

  function Shortest(n: nat): LengthForm {
    if n < 126 then Seven else if n < 0x1_0000 then Sixteen else SixtyFour
  }

  /** The fragment the server sends: one final frame without a mask. */
  function Sent(opcode: byte, payload: seq<byte>): Fragment {
    Fragment(true, 0, opcode, false, [], Shortest(|payload|), payload)
  }

  /** n shifted right by k bytes. */
  function Shr(n: nat, k: nat): nat { if k == 0 then n else Shr(n, k - 1) / 256 }

  /** n shifted right by i bytes, cut to a byte. */
  function ByteAt(n: nat, i: nat): byte { (Shr(n, i) % 256) as byte }

  /** Builds the header in front of a payload of the given length. */
  method InterSend(payloadLen: nat, opcode: byte) returns (header: seq<byte>)
    requires opcode < 16 && payloadLen < 0x1_0000_0000_0000_0000
    ensures header == [128 + opcode, LengthCode(Shortest(payloadLen), payloadLen)]
                      + LengthBytes(Shortest(payloadLen), payloadLen)
  {
    header := [128 + opcode];
    if payloadLen < 126 {
      header := header + [payloadLen as byte];
    } else if payloadLen < 0x1_0000 {
      header := header + [126];
      header := header + [(payloadLen / 256 % 256) as byte];
      header := header + [(payloadLen % 256) as byte];
      TwoBytes(payloadLen);
    } else {
      header := header + [127];
      var i := 7;
      ghost var done := [];
      assert header + done == header;
      while i >= 0
        invariant -1 <= i <= 7 && header == [128 + opcode, 127] + done
        invariant done == BigEndian(Shr(payloadLen, i + 1), 7 - i)
      {
        header := header + [ByteAt(payloadLen, i)];
        done := done + [ByteAt(payloadLen, i)];
        i := i - 1;
      }
    }
  }

  lemma TwoBytes(n: nat)
    requires n < 0x1_0000
    ensures BigEndian(n, 2) == [(n / 256 % 256) as byte, (n % 256) as byte]
  {
    assert BigEndian(n / 256, 1) == BigEndian(n / 256 / 256, 0) + [(n / 256 % 256) as byte];
  }

  /** What the server sends is delivered by the parser as it was sent. */
  lemma ParserUndoesInterSend(p: Parser, opcode: byte, payload: seq<byte>)
    requires Ok(p) && AtFrame(p) && !p.isContinuation && 0 < opcode < 16 && |payload| <= LIMIT_PAYLOAD_LEN
    ensures FragmentOk(Sent(opcode, payload))
    ensures var r := Feed(p, [128 + opcode, LengthCode(Shortest(|payload|), |payload|)]
                             + LengthBytes(Shortest(|payload|), |payload|) + payload);
            r.Fine?
            && Flush(r.p).delivered == p.delivered + [FrameValue(true, 0, opcode, false, |payload|, [], payload)]
  {
    hide Feed, Flush, LengthBytes;
    var f := Sent(opcode, payload);
    OneFrame(p, f);
    assert [First(f), Second(f)] == [128 + opcode, LengthCode(Shortest(|payload|), |payload|)];
    assert Bytes(f) == [First(f), Second(f)] + LengthBytes(f.form, |payload|) + payload;
    assert [] + payload == payload;
  }
}
