/** The decoding half of Punycode, section 6.2 of RFC 3492: what an encoded label means. */
module PunycodeDecoder {
  import opened Powers

  datatype Option<T> = None | Some(value: T)

  const INITIAL_N := 128
  const INITIAL_BIAS := 72

  /** The digit threshold at position k. */
  function Threshold(k: nat, bias: nat): (t: nat)
    ensures 1 <= t <= 26
  {
    if k <= bias + 1 then 1 else if k >= bias + 26 then 26 else k - bias
  }

  /** Bias adaptation, section 6.1. */
  function Adapt(delta: nat, numPoints: nat, first: bool): nat
    requires numPoints > 0
  {
    var d := if first then delta / 700 else delta / 2;
    AdaptLoop(d + d / numPoints, 0)
  }

  function AdaptLoop(delta: nat, k: nat): nat {
    if delta > 455 then AdaptLoop(delta / 35, k + 36) else k + 36 * delta / (delta + 38)
  }

  function DigitOf(c: char): Option<nat> {
    if 'a' <= c <= 'z' then Some(c as int - 'a' as int)
    else if 'A' <= c <= 'Z' then Some(c as int - 'A' as int)
    else if '0' <= c <= '9' then Some(c as int - '0' as int + 26)
    else None
  }

  /** Reads one generalized variable-length integer: the new i and what is left of the input. */
  function ReadVar(input: seq<char>, i: int, w: int, k: nat, bias: nat): Option<(int, seq<char>)>
    decreases |input|
  {
    if input == [] || DigitOf(input[0]).None? then None
    else
      var digit, t := DigitOf(input[0]).value, Threshold(k, bias);
      if digit < t then Some((i + digit * w, input[1..]))
      else ReadVar(input[1..], i + digit * w, w * (36 - t), k + 36, bias)
  }

  lemma {:induction false} ReadVarShrinks(input: seq<char>, i: int, w: int, k: nat, bias: nat)
    requires w >= 0
    ensures var r := ReadVar(input, i, w, k, bias);
            r.Some? ==> r.value.0 >= i && |r.value.1| < |input|
    decreases |input|
  {
    hide Threshold;
    if input != [] && DigitOf(input[0]).Some? {
      var digit, t := DigitOf(input[0]).value, Threshold(k, bias);
      MulMono(0, digit, w);
      if digit >= t {
        MulMonoRight(w, 0, 36 - t);
        ReadVarShrinks(input[1..], i + digit * w, w * (36 - t), k + 36, bias);
      }
    }
  }

  /** The decoder's state between two insertions. */
  datatype Dec = Dec(n: nat, i: nat, bias: nat, out: seq<nat>)

  function Insert(d: Dec, i: nat): Dec {
    var len := |d.out| + 1;
    var pos := i % len;
    Dec(d.n + i / len, pos + 1, Adapt(if i >= d.i then i - d.i else 0, len, d.i == 0),
        d.out[..pos] + [d.n + i / len] + d.out[pos..])
  }

  function DecodeFrom(input: seq<char>, d: Dec): Option<seq<nat>>
    decreases |input|
  {
    if input == [] then Some(d.out)
    else
      ReadVarShrinks(input, d.i, 1, 36, d.bias);
      match ReadVar(input, d.i, 1, 36, d.bias)
      case None => None
      case Some((i, rest)) => DecodeFrom(rest, Insert(d, i))
  }

  /** The position of the last delimiter, or -1. */
  function LastDelimiter(input: seq<char>): int
    decreases |input|
  {
    if input == [] then -1
    else if input[|input| - 1] == '-' then |input| - 1
    else LastDelimiter(input[..|input| - 1])
  }

  function CodePoints(input: seq<char>): (r: seq<nat>) {
    if input == [] then [] else CodePoints(input[..|input| - 1]) + [input[|input| - 1] as int]
  }

  lemma LastDelimiterBound(input: seq<char>)
    ensures LastDelimiter(input) < |input|
  {
  }

  function Decode(input: seq<char>): Option<seq<nat>> {
    LastDelimiterBound(input);
    var b := LastDelimiter(input);
    var (basic, rest) := if b > 0 then (CodePoints(input[..b]), input[b + 1..]) else ([], input);
    if exists c :: c in basic && c >= 128 then None
    else DecodeFrom(rest, Dec(INITIAL_N, 0, INITIAL_BIAS, basic))
  }
}

/** The Punycode encoder of libuv's idna.c, over code points. */
module Punycode {
  import opened Powers
  import opened Words
  import opened PunycodeDecoder

  // ---------- variable-length integers ----------

  function Alphabet(v: nat): (c: char)
    requires v < 36
  {
    if v < 26 then 'a' + v as char else '0' + (v - 26) as char
  }

  /** The first digit of q at a threshold t that q reaches. */
  function FirstDigit(q: nat, t: nat): (r: nat)
    requires 1 <= t <= 26 && t <= q
    ensures t <= r < 36
  {
    RemainderBelow(q - t, 36 - t);
    t + (q - t) % (36 - t)
  }

  /** What is left of q after its first digit. */
  function NextQ(q: nat, t: nat): (r: nat)
    requires 1 <= t <= 26 && t <= q
    ensures r < q
  {
    DivShrinks(q - t, 36 - t);
    (q - t) / (36 - t)
  }

  /** The digits of q from position k on. */
  function Var(q: nat, k: nat, bias: nat): (r: seq<char>)
    decreases q
  {
    var t := Threshold(k, bias);
    if q < t then [Alphabet(q)] else [Alphabet(FirstDigit(q, t))] + Var(NextQ(q, t), k + 36, bias)
  }

  lemma RemainderBelow(x: nat, y: nat)
    requires y > 0
    ensures 0 <= x % y < y
  {
  }

  lemma DivShrinks(x: nat, y: nat)
    requires y >= 10
    ensures 10 * (x / y) <= x && x / y <= x
  {
    DivMod(x, y);
    MulMonoRight(x / y, 10, y);
  }

  /** Reading one digit in front of more text. */
  lemma ReadDigit(digit: nat, more: seq<char>, i: int, w: int, k: nat, bias: nat)
    requires digit < 36
    ensures var t := Threshold(k, bias);
            ReadVar([Alphabet(digit)] + more, i, w, k, bias)
            == if digit < t then Some((i + digit * w, more))
               else ReadVar(more, i + digit * w, w * (36 - t), k + 36, bias)
  {
    assert ([Alphabet(digit)] + more)[1..] == more;
  }

  lemma DigitAndNext(q: nat, t: nat, w: int)
    requires 1 <= t <= 26 && t <= q
    ensures FirstDigit(q, t) * w + NextQ(q, t) * (w * (36 - t)) == q * w
  {
    DigitAndQuotient(q, t, 36 - t, w);
  }

  lemma DigitAndQuotient(q: int, t: int, y: int, w: int)
    requires y > 0
    ensures (t + (q - t) % y) * w + (q - t) / y * (w * y) == q * w
  {
    var x := q - t;
    DivMod(x, y);
    MulAssoc(x / y, y, w);
    assert w * y == y * w;
    Distribute(t + x % y, x / y * y, w);
  }

  /** Reading what has been written gives the number back. */
  lemma {:induction false} VarRoundTrip(q: nat, k: nat, bias: nat, i: int, w: int, rest: seq<char>)
    ensures ReadVar(Var(q, k, bias) + rest, i, w, k, bias) == Some((i + q * w, rest))
    decreases q
  {
    hide ReadVar, Threshold, Alphabet, FirstDigit, NextQ;
    var t := Threshold(k, bias);
    if q < t {
      ReadDigit(q, rest, i, w, k, bias);
    } else {
      var digit, next := FirstDigit(q, t), NextQ(q, t);
      var tail := Var(next, k + 36, bias);
      assert Var(q, k, bias) + rest == [Alphabet(digit)] + (tail + rest);
      ReadDigit(digit, tail + rest, i, w, k, bias);
      VarRoundTrip(next, k + 36, bias, i + digit * w, w * (36 - t), rest);
      DigitAndNext(q, t, w);
    }
  }

  lemma {:induction false} VarHasNoDelimiter(q: nat, k: nat, bias: nat)
    ensures Var(q, k, bias) != [] && '-' !in Var(q, k, bias)
    decreases q
  {
    hide Threshold, Alphabet, FirstDigit, NextQ;
    var t := Threshold(k, bias);
    if q < t {
      NotDelimiter(q);
    } else {
      NotDelimiter(FirstDigit(q, t));
      VarHasNoDelimiter(NextQ(q, t), k + 36, bias);
    }
  }

  lemma NotDelimiter(v: nat)
    requires v < 36
    ensures Alphabet(v) != '-'
  {
  }

  // ---------- the decoder follows the encoder ----------

  /** Decoding `text` takes the decoder from the basic code points to the state d. */
  ghost predicate Reaches(text: seq<char>, basic: seq<nat>, d: Dec) {
    forall rest :: DecodeFrom(text + rest, Dec(INITIAL_N, 0, INITIAL_BIAS, basic)) == DecodeFrom(rest, d)
  }

  lemma {:induction false} ReachesStart(basic: seq<nat>)
    ensures Reaches([], basic, Dec(INITIAL_N, 0, INITIAL_BIAS, basic))
  {
    hide DecodeFrom;
    forall rest: seq<char>
      ensures DecodeFrom([] + rest, Dec(INITIAL_N, 0, INITIAL_BIAS, basic))
              == DecodeFrom(rest, Dec(INITIAL_N, 0, INITIAL_BIAS, basic))
    {
      assert [] + rest == rest;
    }
  }

  /** One more number in the text is one more insertion. */
  lemma {:induction false} ReachesOn(text: seq<char>, basic: seq<nat>, d: Dec, delta: nat)
    requires Reaches(text, basic, d)
    ensures Reaches(text + Var(delta, 36, d.bias), basic, Insert(d, d.i + delta))
  {
    hide DecodeFrom, Insert, Var;
    var v := Var(delta, 36, d.bias);
    forall rest
      ensures DecodeFrom((text + v) + rest, Dec(INITIAL_N, 0, INITIAL_BIAS, basic))
              == DecodeFrom(rest, Insert(d, d.i + delta))
    {
      assert (text + v) + rest == text + (v + rest);
      InsertOne(d, delta, rest);
    }
  }

  lemma {:induction false} InsertOne(d: Dec, delta: nat, rest: seq<char>)
    ensures DecodeFrom(Var(delta, 36, d.bias) + rest, d) == DecodeFrom(rest, Insert(d, d.i + delta))
  {
    VarRoundTrip(delta, 36, d.bias, d.i, 1, rest);
    VarHasNoDelimiter(delta, 36, d.bias);
  }

  // ---------- the code points already encoded ----------

  /** The code points among the first `len` that are below n, or equal to n and before position j. */
  ghost function Pick(s: seq<uint32>, n: nat, j: nat, len: nat): (r: seq<nat>)
    requires len <= |s|
    ensures |r| <= len
  {
    if len == 0 then []
    else
      var c, before := s[len - 1] as nat, Pick(s, n, j, len - 1);
      if c < n || (c == n && len - 1 < j) then before + [c] else before
  }

  /** The code points as numbers. */
  ghost function Numbers(s: seq<uint32>, len: nat): (r: seq<nat>)
    requires len <= |s|
  {
    if len == 0 then [] else Numbers(s, len - 1) + [s[len - 1] as nat]
  }

  lemma {:induction false} PickInsert(s: seq<uint32>, n: nat, j: nat, len: nat)
    requires j < len <= |s| && s[j] as nat == n
    ensures var p, before := |Pick(s, n, j, j)|, Pick(s, n, j, len);
            p <= |before| && Pick(s, n, j + 1, len) == before[..p] + [n] + before[p..]
  {
    var p := |Pick(s, n, j, j)|;
    if len - 1 == j {
      PickSame(s, n, j, j);
    } else {
      PickInsert(s, n, j, len - 1);
      var c, before := s[len - 1] as nat, Pick(s, n, j, len - 1);
      if c < n {
        assert (before + [c])[..p] == before[..p] && (before + [c])[p..] == before[p..] + [c];
      }
    }
  }

  /** Moving j past positions that do not matter. */
  lemma {:induction false} PickSame(s: seq<uint32>, n: nat, j: nat, len: nat)
    requires len <= |s| && j < |s| && (len <= j || s[j] as nat != n)
    ensures Pick(s, n, j + 1, len) == Pick(s, n, j, len)
  {
    if len > 0 {
      PickSame(s, n, j, len - 1);
    }
  }

  lemma {:induction false} PickNext(s: seq<uint32>, n: nat, len: nat)
    requires len <= |s|
    ensures Pick(s, n, |s|, len) == Pick(s, n + 1, 0, len)
  {
    if len > 0 {
      PickNext(s, n, len - 1);
    }
  }

  ghost predicate NoneBetween(s: seq<uint32>, n: nat, m: nat) {
    forall i :: 0 <= i < |s| && s[i] as nat >= n ==> s[i] as nat >= m
  }

  lemma {:induction false} PickJump(s: seq<uint32>, n: nat, m: nat, len: nat)
    requires len <= |s| && n <= m && NoneBetween(s, n, m)
    ensures Pick(s, n, 0, len) == Pick(s, m, 0, len)
  {
    if len > 0 {
      PickJump(s, n, m, len - 1);
    }
  }

  /** Nothing is missing once the count is right. */
  lemma {:induction false} PickAll(s: seq<uint32>, n: nat, j: nat, len: nat)
    requires len <= |s| && |Pick(s, n, j, len)| == len
    ensures Pick(s, n, j, len) == Numbers(s, len)
  {
    if len > 0 {
      PickAll(s, n, j, len - 1);
    }
  }

  lemma {:induction false} PickMissing(s: seq<uint32>, n: nat, len: nat)
    requires len <= |s| && forall i :: 0 <= i < len ==> s[i] as nat < n
    ensures |Pick(s, n, 0, len)| == len
  {
    if len > 0 {
      PickMissing(s, n, len - 1);
    }
  }

  /** One more position of the pass, when its code point is not n. */
  lemma PickStep(s: seq<uint32>, n: nat, j: nat)
    requires j < |s| && s[j] as nat != n
    ensures Pick(s, n, j + 1, |s|) == Pick(s, n, j, |s|)
    ensures |Pick(s, n, j + 1, j + 1)| == |Pick(s, n, j, j)| + if s[j] as nat < n then 1 else 0
  {
    PickSame(s, n, j, |s|);
    PickSame(s, n, j, j);
  }

  lemma {:induction false} PickMono(s: seq<uint32>, n: nat, j: nat, k: nat, len: nat)
    requires k <= len <= |s|
    ensures |Pick(s, n, j, k)| <= |Pick(s, n, j, len)|
    decreases len
  {
    if k < len {
      PickMono(s, n, j, k, len - 1);
    }
  }

  // ---------- the encoder in step with the decoder ----------

  /** delta is what the decoder must still count from its state d to the place (n, j). */
  ghost predicate InStep(s: seq<uint32>, n: nat, j: nat, delta: int, text: seq<char>, basic: seq<nat>, d: Dec) {
    && j <= |s| && Reaches(text, basic, d)
    && d.out == Pick(s, n, j, |s|) && d.n <= n
    && delta == (n - d.n) * (|d.out| + 1) + |Pick(s, n, j, j)| - d.i
  }

  lemma {:induction false} InStepStart(s: seq<uint32>)
    ensures var basic := Pick(s, 128, 0, |s|);
            InStep(s, 128, 0, 0, [], basic, Dec(INITIAL_N, 0, INITIAL_BIAS, basic))
  {
    ReachesStart(Pick(s, 128, 0, |s|));
  }

  lemma InStepJump(s: seq<uint32>, n: nat, m: nat, delta: int, text: seq<char>, basic: seq<nat>, d: Dec)
    requires InStep(s, n, 0, delta, text, basic, d) && n <= m && NoneBetween(s, n, m)
    ensures InStep(s, m, 0, delta + (m - n) * (|d.out| + 1), text, basic, d)
  {
    hide Reaches;
    PickJump(s, n, m, |s|);
    Distribute(n - d.n, m - n, |d.out| + 1);
  }

  lemma InStepPass(s: seq<uint32>, n: nat, j: nat, delta: int, text: seq<char>, basic: seq<nat>, d: Dec)
    requires InStep(s, n, j, delta, text, basic, d) && j < |s| && s[j] as nat != n
    ensures InStep(s, n, j + 1, if s[j] as nat < n then delta + 1 else delta, text, basic, d)
  {
    hide Reaches, Pick;
    PickStep(s, n, j);
  }

  lemma InStepEnd(s: seq<uint32>, n: nat, delta: int, text: seq<char>, basic: seq<nat>, d: Dec)
    requires InStep(s, n, |s|, delta, text, basic, d)
    ensures InStep(s, n + 1, 0, delta + 1, text, basic, d)
  {
    hide Reaches;
    PickNext(s, n, |s|);
    Distribute(n - d.n, 1, |d.out| + 1);
  }

  /** Emitting delta makes the decoder insert n where the encoder stands. */
  lemma {:induction false} InStepEmit(s: seq<uint32>, n: nat, j: nat, delta: nat, text: seq<char>, basic: seq<nat>,
                                      d: Dec)
    requires InStep(s, n, j, delta, text, basic, d) && j < |s| && s[j] as nat == n
    ensures var d' := Insert(d, d.i + delta);
            && InStep(s, n, j + 1, 0, text + Var(delta, 36, d.bias), basic, d')
            && d'.i > 0 && d'.bias == Adapt(delta, |d.out| + 1, d.i == 0) && |d'.out| == |d.out| + 1
  {
    hide Reaches, Adapt, Var;
    var len, p := |d.out| + 1, |Pick(s, n, j, j)|;
    PickInsert(s, n, j, |s|);
    PickSame(s, n, j, j);
    DivModUnique(d.i + delta, len, n - d.n, p);
    ReachesOn(text, basic, d, delta);
  }

  /** While a code point is missing, delta is below n times the length. */
  lemma {:induction false} InStepBound(s: seq<uint32>, n: nat, j: nat, delta: int, text: seq<char>, basic: seq<nat>,
                                       d: Dec, limit: nat)
    requires InStep(s, n, j, delta, text, basic, d) && n <= limit
    ensures delta <= limit * (|s| + 1) + |s|
  {
    hide Reaches, Pick;
    MulMono(n - d.n, limit, |d.out| + 1);
    MulMonoRight(limit, |d.out| + 1, |s| + 1);
  }

  /** In the end the decoder has the whole label. */
  lemma InStepDone(s: seq<uint32>, n: nat, j: nat, delta: int, text: seq<char>, basic: seq<nat>, d: Dec)
    requires InStep(s, n, j, delta, text, basic, d) && |d.out| == |s|
    ensures DecodeFrom(text, Dec(INITIAL_N, 0, INITIAL_BIAS, basic)) == Some(Numbers(s, |s|))
  {
    PickAll(s, n, j, |s|);
    assert text + [] == text;
  }

  // ---------- the text of a label ----------

  /** The ASCII characters among the first `len` code points. */
  ghost function Ascii(s: seq<uint32>, len: nat): (r: seq<char>)
    requires len <= |s|
    ensures |r| <= len
  {
    if len == 0 then []
    else if s[len - 1] < 128 then Ascii(s, len - 1) + [s[len - 1] as char] else Ascii(s, len - 1)
  }

  lemma {:induction false} AsciiIsBasic(s: seq<uint32>, len: nat)
    requires len <= |s|
    ensures CodePoints(Ascii(s, len)) == Pick(s, 128, 0, len) && |Ascii(s, len)| == |Pick(s, 128, 0, len)|
    ensures forall c :: c in Pick(s, 128, 0, len) ==> c < 128
  {
    if len > 0 {
      AsciiIsBasic(s, len - 1);
    }
  }

  lemma {:induction false} AsciiPrefix(s: seq<uint32>, k: nat, len: nat)
    requires k <= len <= |s|
    ensures |Ascii(s, k)| <= |Ascii(s, len)|
    ensures |Ascii(s, k)| == |Ascii(s, len)| ==> Ascii(s, k) == Ascii(s, len)
    decreases len
  {
    if k < len {
      AsciiPrefix(s, k, len - 1);
    }
  }

  lemma {:induction false} LastDelimiterOf(chars: seq<char>, tail: seq<char>)
    requires '-' !in tail
    ensures LastDelimiter(chars + ['-'] + tail) == |chars|
    decreases |tail|
  {
    var input := chars + ['-'] + tail;
    if tail != [] {
      assert input[..|input| - 1] == chars + ['-'] + tail[..|tail| - 1];
      LastDelimiterOf(chars, tail[..|tail| - 1]);
    }
  }

  lemma {:induction false} NoDelimiter(tail: seq<char>)
    requires '-' !in tail
    ensures LastDelimiter(tail) == -1
  {
    if tail != [] {
      NoDelimiter(tail[..|tail| - 1]);
    }
  }

  function Separated(chars: seq<char>): seq<char> {
    if chars == [] then [] else chars + ['-']
  }

  /** Decoding starts from the characters before the delimiter, if the encoder wrote one. */
  lemma {:induction false} DecodeAssembled(s: seq<uint32>, tail: seq<char>)
    requires '-' !in tail
    ensures Decode(Separated(Ascii(s, |s|)) + tail)
            == DecodeFrom(tail, Dec(INITIAL_N, 0, INITIAL_BIAS, Pick(s, 128, 0, |s|)))
  {
    hide DecodeFrom, CodePoints, Pick, LastDelimiter;
    var chars := Ascii(s, |s|);
    AsciiIsBasic(s, |s|);
    if chars == [] {
      NoDelimiter(tail);
      assert Separated(chars) + tail == tail;
    } else {
      LastDelimiterOf(chars, tail);
      var input := Separated(chars) + tail;
      assert input[..|chars|] == chars && input[|chars| + 1..] == tail;
    }
  }

  // ---------- the encoder ----------

  datatype Status = Done(count: nat) | Invalid | TooBig

  const UINT_MAX: uint32 := 0xFFFF_FFFF

  /** As much of the text as fits. */
  function Clip(text: seq<char>, capacity: nat): seq<char> {
    if |text| <= capacity then text else text[..capacity]
  }

  /** The buffer holds as much of the text as fits. */
  ghost predicate Written(a: array<char>, d: nat, text: seq<char>)
    reads a
  {
    d <= a.Length && a[..d] == Clip(text, a.Length)
  }

  method Emit(a: array<char>, d: nat, c: char, ghost text: seq<char>) returns (d': nat)
    requires Written(a, d, text)
    modifies a
    ensures Written(a, d', text + [c])
  {
    d' := d;
    if d < a.Length {
      a[d] := c;
      d' := d + 1;
      assert a[..d'] == old(a[..d]) + [c];
    }
  }

  /** Counts ASCII and other code points; stops at a decoding error. */
  method Count(s: seq<uint32>) returns (ok: bool, h: uint32, todo: uint32)
    requires |s| < 0xFFFF_FFFF
    ensures ok <==> UINT_MAX !in s
    ensures ok ==> h as int == |Pick(s, 128, 0, |s|)| && h as int + todo as int == |s|
  {
    h, todo := 0, 0;
    for i := 0 to |s|
      invariant UINT_MAX !in s[..i]
      invariant h as int == |Pick(s, 128, 0, i)| && h as int + todo as int == i
    {
      var c := s[i];
      assert s[..i + 1] == s[..i] + [c];
      if c == UINT_MAX {
        return false, h, todo;
      }
      if c < 128 {
        h := h + 1;
      } else {
        todo := todo + 1;
      }
    }
    assert s[..|s|] == s;
    ok := true;
  }

  /** Writes the ASCII characters, stopping at the last one. */
  method WriteAscii(s: seq<uint32>, h: uint32, a: array<char>, d0: nat, ghost text: seq<char>) returns (d: nat)
    requires h as int == |Ascii(s, |s|)| && Written(a, d0, text)
    modifies a
    ensures Written(a, d, text + Ascii(s, |s|))
  {
    var x: uint32 := 0;
    var i := 0;
    d := d0;
    assert text + Ascii(s, 0) == text;
    while i < |s|
      invariant i <= |s| && x as int == |Ascii(s, i)| && Written(a, d, text + Ascii(s, i))
    {
      var c := s[i];
      i := i + 1;
      AsciiPrefix(s, i, |s|);
      if c > 127 {
        continue;
      }
      d := Emit(a, d, c as char, text + Ascii(s, i - 1));
      assert text + Ascii(s, i) == (text + Ascii(s, i - 1)) + [c as char];
      x := x + 1;
      if x == h {
        break;
      }
    }
  }

  /** The smallest code point that is not below n. */
  method Smallest(s: seq<uint32>, n: uint32) returns (m: uint32)
    requires exists i :: 0 <= i < |s| && s[i] >= n
    requires UINT_MAX !in s
    ensures m >= n && NoneBetween(s, n as nat, m as nat) && m in s
  {
    m := UINT_MAX;
    for i := 0 to |s|
      invariant forall k :: 0 <= k < i && s[k] >= n ==> s[k] >= m
      invariant m == UINT_MAX || (m >= n && m in s)
    {
      var c := s[i];
      if c >= n {
        if c < m {
          m := c;
        }
      }
    }
    ghost var i :| 0 <= i < |s| && s[i] >= n;
    assert s[i] in s;
  }

  /** Writes delta as a variable-length integer; the position counter stays small. */
  method EmitVar(delta: uint32, bias: uint32, a: array<char>, d0: nat, ghost text: seq<char>) returns (d: nat)
    requires Written(a, d0, text) && bias < 0x8000_0000
    modifies a
    ensures Written(a, d, text + Var(delta as nat, 36, bias as nat))
  {
    hide Threshold, Alphabet, Pow, Written, FirstDigit, NextQ;
    var k: uint32, q: uint32 := 36, delta;
    d := d0;
    ghost var i, done := 0, [];
    PowZero(10);
    PowZero(35);
    assert text + done == text;
    assert done + Var(q as nat, 36, bias as nat) == Var(q as nat, 36, bias as nat);
    while true
      invariant Written(a, d, text + done)
      invariant Var(delta as nat, 36, bias as nat) == done + Var(q as nat, k as nat, bias as nat)
      invariant k as int == 36 * (i + 1) && q as int * Pow(10, i) < 0x1_0000_0000 && i <= 10
      decreases q
    {
      var t := ThresholdAt(k, bias);
      if q < t {
        break;
      }
      StepBound(q as nat, t as nat, i);
      var digit, next := Divide(q, t);
      d := Emit(a, d, Alphabet(digit as nat), text + done);
      var c := Alphabet(digit as nat);
      assert (text + done) + [c] == text + (done + [c]);
      ghost var more := Var(next as nat, k as nat + 36, bias as nat);
      assert done + ([c] + more) == (done + [c]) + more;
      done := done + [c];
      q, k, i := next, k + 36, i + 1;
    }
    d := Emit(a, d, Alphabet(q as nat), text + done);
    assert (text + done) + [Alphabet(q as nat)] == text + (done + [Alphabet(q as nat)]);
  }

  method Divide(q: uint32, t: uint32) returns (digit: uint32, next: uint32)
    requires 1 <= t <= 26 && t <= q
    ensures digit as nat == FirstDigit(q as nat, t as nat) && next as nat == NextQ(q as nat, t as nat)
  {
    next, digit := DivideWords(q - t, 36 - t);
    digit := t + digit;
  }

  method DivideWords(x: uint32, y: uint32) returns (quotient: uint32, remainder: uint32)
    requires y > 0
    ensures quotient as int == x as int / y as int && remainder as int == x as int % y as int && remainder < y
  {
    quotient := x / y;
    remainder := x % y;
  }

  method ThresholdAt(k: uint32, bias: uint32) returns (t: uint32)
    ensures t as int == Threshold(k as nat, bias as nat)
  {
    t := 1;
    if k > bias {
      t := k - bias;
    }
    if t > 26 {
      t := 26;
    }
  }

  /** Each digit divides what is left by ten at least, so ten digits are enough for 32 bits. */
  lemma {:induction false} StepBound(q: nat, t: nat, i: nat)
    requires 1 <= t <= 26 && q >= t && q * Pow(10, i) < 0x1_0000_0000 && i <= 10
    ensures NextQ(q, t) * Pow(10, i + 1) < 0x1_0000_0000 && i + 1 <= 10
  {
    hide Pow, NextQ;
    Pow10Step(i);
    NextAtMostTenth(q, t);
    TenthOf(q, NextQ(q, t), Pow(10, i), Pow(10, i + 1));
  }

  lemma NextAtMostTenth(q: nat, t: nat)
    requires 1 <= t <= 26 && t <= q
    ensures 10 * NextQ(q, t) <= q
  {
    DivShrinks(q - t, 36 - t);
  }

  lemma TenthOf(q: int, next: int, p: int, p': int)
    requires 10 * next <= q && 0 <= next && 1 <= q && 0 < p && p' == 10 * p
    ensures next * p' <= q * p && p <= q * p
  {
    MulMono(10 * next, q, p);
    MulMono(1, q, p);
    assert next * (10 * p) == 10 * next * p;
  }

  lemma Pow10Step(i: nat)
    requires i <= 10
    ensures Pow(10, i + 1) == 10 * Pow(10, i) && Pow(10, i) > 0
    ensures Pow(10, i) < 0x1_0000_0000 ==> i + 1 <= 10
  {
    Pow10Table();
  }

  /** The new bias after an insertion; `h` counts the new code point. */
  method AdaptBias(delta0: uint32, h: uint32, first: bool) returns (bias: uint32)
    requires h > 0
    ensures bias as nat == Adapt(delta0 as nat, h as nat, first) && bias < 0x1000_0000
  {
    hide AdaptLoop, Pow;
    PowZero(10);
    PowZero(35);
    var delta := delta0 / 2;
    if first {
      delta := delta / 350;
    }
    HalfThenSome(delta0 as int, h as int, first);
    delta := delta + delta / h;
    bias := 0;
    ghost var start := delta as nat;
    ghost var i := 0;
    while delta > 35 * 26 / 2
      invariant AdaptLoop(start, 0) == AdaptLoop(delta as nat, bias as nat)
      invariant bias as int == 36 * i && delta as int * Pow(35, i) < 0x1_0000_0000 && i <= 8
      decreases delta
    {
      AdaptStep(delta as nat, bias as nat);
      AdaptBound(delta as int, i);
      delta, bias, i := delta / 35, bias + 36, i + 1;
    }
    AdaptStep(delta as nat, bias as nat);
    AdaptLast(delta as int);
    bias := bias + 36 * delta / (delta + 38);
  }

  lemma AdaptStep(delta: nat, k: nat)
    ensures AdaptLoop(delta, k) == if delta > 455 then AdaptLoop(delta / 35, k + 36) else k + 36 * delta / (delta + 38)
  {
  }

  lemma AdaptLast(delta: int)
    requires 0 <= delta <= 455
    ensures 0 <= 36 * delta / (delta + 38) <= 36 * 455
  {
    DivMod(36 * delta, delta + 38);
    MulMonoRight(36 * delta / (delta + 38), 1, delta + 38);
  }

  lemma AdaptBound(delta: int, i: nat)
    requires delta > 455 && delta * Pow(35, i) < 0x1_0000_0000 && i <= 8
    ensures delta / 35 * Pow(35, i + 1) < 0x1_0000_0000 && i + 1 <= 8
  {
    Pow35Table();
    MulMono(35 * (delta / 35), delta, Pow(35, i));
    MulAssoc(delta / 35, 35, Pow(35, i));
    if i == 8 {
      MulMono(1, delta, Pow(35, i));
    }
  }

  lemma Pow35Table()
    ensures Pow(35, 0) == 1 && Pow(35, 8) > 0x1_0000_0000
  {
    assert Pow(35, 4) == 1500625;
    PowAdd(35, 4, 4);
  }

  lemma {:induction false} HalfThenSome(delta: int, h: int, first: bool)
    requires 0 <= delta < 0x1_0000_0000 && h > 0
    ensures delta / 2 / 350 == delta / 700
    ensures var e := if first then delta / 2 / 350 else delta / 2;
            0 <= e / h <= e && e + e / h < 0x1_0000_0000
  {
    var e := if first then delta / 2 / 350 else delta / 2;
    AtMostSelf(e, h);
  }

  lemma {:induction false} AtMostSelf(e: int, h: int)
    requires 0 <= e && 0 < h
    ensures 0 <= e / h <= e
  {
    DivMod(e, h);
    if e / h < 0 {
      MulMono(e / h, -1, h);
    } else {
      MulMonoRight(e / h, 1, h);
    }
  }

  /** The encoder's variables at place (n, j), in step with a decoder that has read `tail`. */
  ghost predicate Sync(s: seq<uint32>, n: nat, j: nat, delta: uint32, v: Vars, tail: seq<char>, basic: seq<nat>,
                       dec: Dec) {
    && InStep(s, n, j, delta as int, tail, basic, dec) && '-' !in tail
    && v.h as int == |dec.out| && v.bias as int == dec.bias && v.bias < 0x1000_0000
    && v.first == (dec.i == 0) && v.todo as int + v.h as int == |s|
  }

  /** The variables that change with every code point written. */
  datatype Vars = Vars(h: uint32, todo: uint32, bias: uint32, first: bool)

  /** Only a label this long, or with a number that is no code point, can make delta overflow. */
  ghost predicate Oversized(s: seq<uint32>) {
    0x11_0000 * (|s| + 1) + |s| >= 0xFFFF_FFFF || exists i :: 0 <= i < |s| && s[i] >= 0x11_0000
  }

  lemma {:induction false} Overflow(s: seq<uint32>, n: nat, j: nat, delta: int, tail: seq<char>, basic: seq<nat>,
                                    dec: Dec)
    requires InStep(s, n, j, delta, tail, basic, dec) && delta >= 0xFFFF_FFFF
    requires exists i :: 0 <= i < |s| && n <= s[i] as nat
    ensures Oversized(s)
  {
    hide InStep;
    if n <= 0x11_0000 {
      InStepBound(s, n, j, delta, tail, basic, dec, 0x11_0000);
    }
  }

  /** The guard is exact: it fires exactly if the product does not fit. */
  lemma {:induction false} GuardExact(delta: int, x: int, y: int)
    requires 0 <= delta <= 0xFFFF_FFFF && 0 <= x && 0 < y
    ensures x > (0xFFFF_FFFF - delta) / y <==> delta + x * y > 0xFFFF_FFFF
    ensures 0 <= x * y
  {
    var r := 0xFFFF_FFFF - delta;
    DivMod(r, y);
    MulMono(0, x, y);
    if x > r / y {
      MulMono(r / y + 1, x, y);
      Distribute(r / y, 1, y);
    } else {
      MulMono(x, r / y, y);
    }
  }

  /** Writes the code point at j, which equals n, and adapts. */
  method Write(s: seq<uint32>, n: uint32, j: nat, delta: uint32, v: Vars, a: array<char>, d0: nat,
               ghost text: seq<char>, ghost tail: seq<char>, ghost basic: seq<nat>, ghost dec: Dec)
    returns (v': Vars, d: nat, ghost tail': seq<char>, ghost dec': Dec)
    requires j < |s| < 0xFFFF_FFFF && s[j] == n && Sync(s, n as nat, j, delta, v, tail, basic, dec)
             && Written(a, d0, text + tail)
    modifies a
    ensures Sync(s, n as nat, j + 1, 0, v', tail', basic, dec') && Written(a, d, text + tail')
    ensures v'.todo as int == v.todo as int - 1 && dec'.n == n as nat
  {
    hide InStep, Var, Adapt, Written;
    StillToDo(s, n as nat, j, delta as int, tail, basic, dec);
    d := EmitVar(delta, v.bias, a, d0, text + tail);
    tail' := tail + Var(delta as nat, 36, dec.bias);
    assert (text + tail) + Var(delta as nat, 36, dec.bias) == text + tail';
    InStepEmit(s, n as nat, j, delta as nat, tail, basic, dec);
    VarHasNoDelimiter(delta as nat, 36, dec.bias);
    dec' := Insert(dec, dec.i + delta as nat);
    InsertN(s, n as nat, j, delta as nat, tail, basic, dec);
    var h := v.h + 1;
    var bias := AdaptBias(delta, h, v.first);
    v' := Vars(h, v.todo - 1, bias, false);
  }

  lemma {:induction false} InsertN(s: seq<uint32>, n: nat, j: nat, delta: nat, tail: seq<char>, basic: seq<nat>,
                                   dec: Dec)
    requires InStep(s, n, j, delta, tail, basic, dec) && j < |s| && s[j] as nat == n
    ensures Insert(dec, dec.i + delta).n == n
  {
    hide Reaches, Adapt;
    PickMono(s, n, j, j, |s|);
    DivModUnique(dec.i + delta, |dec.out| + 1, n - dec.n, |Pick(s, n, j, j)|);
  }

  /** The code point at j is still missing from what the decoder has. */
  lemma StillToDo(s: seq<uint32>, n: nat, j: nat, delta: int, tail: seq<char>, basic: seq<nat>, dec: Dec)
    requires InStep(s, n, j, delta, tail, basic, dec) && j < |s| && s[j] as nat == n
    ensures |dec.out| < |s|
  {
    hide Reaches;
    PickInsert(s, n, j, |s|);
    assert |Pick(s, n, j + 1, |s|)| == |dec.out| + 1;
  }

  /** One pass over the label for the code point n. */
  method Pass(s: seq<uint32>, n: uint32, delta0: uint32, v0: Vars, a: array<char>, d0: nat,
              ghost text: seq<char>, ghost tail0: seq<char>, ghost basic: seq<nat>, ghost dec0: Dec)
    returns (big: bool, delta: uint32, v: Vars, d: nat, ghost tail: seq<char>, ghost dec: Dec)
    requires |s| < 0xFFFF_FFFF && n in s && Sync(s, n as nat, 0, delta0, v0, tail0, basic, dec0)
             && Written(a, d0, text + tail0)
    modifies a
    ensures Written(a, d, text + tail) && '-' !in tail
    ensures big ==> Oversized(s)
    ensures !big ==> Sync(s, n as nat, |s|, delta, v, tail, basic, dec) && v.todo < v0.todo && dec.n == n as nat
  {
    hide InStep, Written, Oversized;
    delta, v, d, tail, dec := delta0, v0, d0, tail0, dec0;
    for j := 0 to |s|
      invariant Sync(s, n as nat, j, delta, v, tail, basic, dec) && Written(a, d, text + tail)
      invariant v.todo <= v0.todo && (n in s[..j] ==> v.todo < v0.todo && dec.n == n as nat)
    {
      var c := s[j];
      assert s[..j + 1] == s[..j] + [c];
      if c != n {
        InStepPass(s, n as nat, j, delta as int, tail, basic, dec);
      }
      if c < n {
        if delta == UINT_MAX {
          ghost var i :| 0 <= i < |s| && s[i] == n;
          Overflow(s, n as nat, j, delta as int, tail, basic, dec);
          return true, 0, v, d, tail, dec;
        }
        delta := delta + 1;
      }
      if c != n {
        continue;
      }
      v, d, tail, dec := Write(s, n, j, delta, v, a, d, text, tail, basic, dec);
      delta := 0;
    }
    assert s[..|s|] == s;
    big := false;
  }

  lemma SomethingLeft(s: seq<uint32>, n: nat, delta: int, tail: seq<char>, basic: seq<nat>, dec: Dec)
    requires InStep(s, n, 0, delta, tail, basic, dec) && |dec.out| < |s|
    ensures exists i :: 0 <= i < |s| && n <= s[i] as nat
  {
    hide Reaches;
    if forall i :: 0 <= i < |s| ==> (s[i] as nat) < n {
      PickMissing(s, n, |s|);
    }
  }

  lemma SmallDelta(s: seq<uint32>, n: nat, delta: int, tail: seq<char>, basic: seq<nat>, dec: Dec)
    requires InStep(s, n, |s|, delta, tail, basic, dec) && dec.n == n
    ensures delta <= |s|
  {
    hide Reaches, Pick;
  }

  /** One round: the next code point to encode, and the pass that writes it. */
  method Round(s: seq<uint32>, n0: uint32, delta0: uint32, v0: Vars, a: array<char>, d0: nat,
               ghost text: seq<char>, ghost tail0: seq<char>, ghost basic: seq<nat>, ghost dec0: Dec)
    returns (big: bool, n: uint32, delta: uint32, v: Vars, d: nat, ghost tail: seq<char>, ghost dec: Dec)
    requires |s| < 0xFFFF_FFFF && UINT_MAX !in s && v0.todo > 0
    requires Sync(s, n0 as nat, 0, delta0, v0, tail0, basic, dec0) && Written(a, d0, text + tail0)
    modifies a
    ensures Written(a, d, text + tail) && '-' !in tail
    ensures if big then Oversized(s) else Sync(s, n as nat, 0, delta, v, tail, basic, dec) && v.todo < v0.todo
  {
    hide InStep, Written, Oversized;
    delta, v, d, tail, dec := delta0, v0, d0, tail0, dec0;
    SomethingLeft(s, n0 as nat, delta as int, tail, basic, dec0);
    var m := Smallest(s, n0);
    n := m;
    var x, y := m - n0, v.h + 1;
    GuardExact(delta as int, x as int, y as int);
    InStepJump(s, n0 as nat, m as nat, delta as int, tail, basic, dec0);
    if x > (UINT_MAX - delta) / y {
      Overflow(s, m as nat, 0, delta as int + x as int * y as int, tail, basic, dec0);
      big := true;
      return;
    }
    delta := delta + x * y;
    big, delta, v, d, tail, dec := Pass(s, n, delta, v, a, d, text, tail, basic, dec0);
    if big {
      return;
    }
    SmallDelta(s, n as nat, delta as int, tail, basic, dec);
    InStepEnd(s, n as nat, delta as int, tail, basic, dec);
    delta := delta + 1;
    n := n + 1;
  }

  /** Writes everything that is not ASCII, in the order of code points. */
  method EncodeRest(s: seq<uint32>, h: uint32, todo: uint32, a: array<char>, d0: nat, ghost text: seq<char>)
    returns (big: bool, d: nat, ghost tail: seq<char>)
    requires |s| < 0xFFFF_FFFF && UINT_MAX !in s && Written(a, d0, text)
    requires h as int == |Pick(s, 128, 0, |s|)| && h as int + todo as int == |s|
    modifies a
    ensures Written(a, d, text + tail) && '-' !in tail
    ensures big ==> Oversized(s)
    ensures !big ==>
      DecodeFrom(tail, Dec(INITIAL_N, 0, INITIAL_BIAS, Pick(s, 128, 0, |s|))) == Some(Numbers(s, |s|))
  {
    hide InStep, Written, Oversized, DecodeFrom, Pick, Numbers;
    ghost var basic := Pick(s, 128, 0, |s|);
    ghost var dec := Dec(INITIAL_N, 0, INITIAL_BIAS, basic);
    var n: uint32, delta: uint32, v := 128, 0, Vars(h, todo, 72, true);
    d, tail := d0, [];
    assert text + tail == text;
    InStepStart(s);
    while v.todo > 0
      invariant Sync(s, n as nat, 0, delta, v, tail, basic, dec) && Written(a, d, text + tail)
      decreases v.todo
    {
      big, n, delta, v, d, tail, dec := Round(s, n, delta, v, a, d, text, tail, basic, dec);
      if big {
        return;
      }
    }
    big := false;
    InStepDone(s, n as nat, 0, delta as int, tail, basic, dec);
  }

  // ---------- one label ----------

  /** The text stands for the label: itself if it is ASCII, otherwise behind the prefix as section 6.2 reads it. */
  ghost predicate StandsFor(s: seq<uint32>, text: seq<char>) {
    if |Ascii(s, |s|)| == |s| then text == Ascii(s, |s|)
    else |text| >= 4 && text[..4] == "xn--" && Decode(text[4..]) == Some(Numbers(s, |s|))
  }

  /** Writes one label, given as the sequence of decoded code points, behind the text already in the buffer. */
  method ToAsciiLabel(s: seq<uint32>, a: array<char>, d0: nat, ghost text0: seq<char>)
    returns (rc: Status, d: nat, ghost text: seq<char>)
    requires |s| < 0xFFFF_FFFF && Written(a, d0, text0)
    modifies a
    ensures Written(a, d, text0 + text)
    ensures rc == Invalid <==> UINT_MAX in s
    ensures rc == Invalid ==> text == []
    ensures rc == TooBig ==> Oversized(s)
    ensures rc.Done? ==> StandsFor(s, text)
  {
    hide Written, Oversized, Decode, DecodeFrom, Pick, Numbers, Ascii;
    d, text := d0, [];
    assert text0 + text == text0;
    var ok, h, todo := Count(s);
    if !ok {
      return Invalid, d, text;
    }
    AsciiIsBasic(s, |s|);
    if todo > 0 {
      d := WritePrefix(a, d, text0);
      text := "xn--";
    }
    d := WriteAscii(s, h, a, d, text0 + text);
    assert (text0 + text) + Ascii(s, |s|) == text0 + (text + Ascii(s, |s|));
    if todo == 0 {
      text := Ascii(s, |s|);
      assert "" + Ascii(s, |s|) == text;
      return Done(h as nat), d, text;
    }
    text := text + Ascii(s, |s|);
    if h > 0 {
      d := Emit(a, d, '-', text0 + text);
      assert (text0 + text) + ['-'] == text0 + (text + ['-']);
      text := text + ['-'];
    }
    assert text == "xn--" + Separated(Ascii(s, |s|));
    var big;
    ghost var tail;
    big, d, tail := EncodeRest(s, h, todo, a, d, text0 + text);
    assert (text0 + text) + tail == text0 + (text + tail);
    text := text + tail;
    if big {
      return TooBig, d, text;
    }
    DecodeAssembled(s, tail);
    assert text == "xn--" + (Separated(Ascii(s, |s|)) + tail);
    rc := Done(0);
  }

  method WritePrefix(a: array<char>, d0: nat, ghost text: seq<char>) returns (d: nat)
    requires Written(a, d0, text)
    modifies a
    ensures Written(a, d, text + "xn--")
  {
    hide Written;
    d := Emit(a, d0, 'x', text);
    d := Emit(a, d, 'n', text + "x");
    assert (text + "x") + "n" == text + "xn";
    d := Emit(a, d, '-', text + "xn");
    assert (text + "xn") + "-" == text + "xn-";
    d := Emit(a, d, '-', text + "xn-");
    assert (text + "xn-") + "-" == text + "xn--";
    assert text + ['x'] == text + "x";
  }
}
