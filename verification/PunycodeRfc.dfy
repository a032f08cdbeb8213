/**
 * RFC 3492 in its own terms: the numerals of section 5, the variable-length integers of sections 3.3 and 3.4, and the
 * adaptation of section 6.1. The encoder and the decoder share their arithmetic; here it is checked against the text.
 */
module PunycodeRfc {
  import opened Powers
  import opened PunycodeDecoder
  import opened Punycode

  const BASE := 36
  const TMIN := 1
  const TMAX := 26
  const SKEW := 38
  const DAMP := 700

  // ---------- numerals ----------

  const NUMERALS := "abcdefghijklmnopqrstuvwxyz0123456789"
  const CAPITALS := "ABCDEFGHIJKLMNOPQRSTUVWXYZ"

  /** A digit is written as its numeral, and read from that or from a capital letter, and from nothing else. */
  lemma NumeralsMean(v: nat, c: char)
    requires v < 36
    ensures Alphabet(v) == NUMERALS[v]
    ensures DigitOf(c) == Some(v) <==> c == NUMERALS[v] || (v < 26 && c == CAPITALS[v])
  {
    LettersInOrder(v);
    if v >= 26 {
      DigitsInOrder(v);
    }
  }

  lemma LettersInOrder(v: nat)
    ensures v < 26 ==> NUMERALS[v] == 'a' + v as char && CAPITALS[v] == 'A' + v as char
  {
  }

  lemma DigitsInOrder(v: nat)
    requires 26 <= v < 36
    ensures NUMERALS[v] == '0' + (v - 26) as char
  {
  }

  // ---------- variable-length integers ----------

  /** Section 3.4: the threshold of the j-th digit. */
  function T(j: nat, bias: nat): (t: nat)
    ensures TMIN <= t <= TMAX
  {
    Min(Max(BASE * (j + 1) - bias, TMIN), TMAX)
  }

  function Min(a: int, b: int): int { if a < b then a else b }

  function Max(a: int, b: int): int { if a < b then b else a }

  lemma ThresholdMeans(j: nat, bias: nat)
    ensures Threshold(BASE * (j + 1), bias) == T(j, bias)
  {
  }

  /** Section 3.3: the weight of the j-th digit. */
  function Weight(j: nat, bias: nat): nat {
    if j == 0 then 1 else Weight(j - 1, bias) * (BASE - T(j - 1, bias))
  }

  /** The digits from the j-th one on, each times its weight. */
  function Total(digits: seq<nat>, j: nat, bias: nat): nat {
    if digits == [] then 0 else digits[0] * Weight(j, bias) + Total(digits[1..], j + 1, bias)
  }

  /** Only the last digit is below its threshold. */
  predicate Terminated(digits: seq<nat>, j: nat, bias: nat) {
    && digits != [] && (forall i :: 0 <= i < |digits| ==> digits[i] < BASE)
    && (forall i :: 0 <= i < |digits| - 1 ==> digits[i] >= T(j + i, bias))
    && digits[|digits| - 1] < T(j + |digits| - 1, bias)
  }

  function Spelled(digits: seq<nat>): seq<char>
    requires forall i :: 0 <= i < |digits| ==> digits[i] < BASE
  {
    seq(|digits|, i requires 0 <= i < |digits| => NUMERALS[digits[i]])
  }

  /** The digits that stand for q from the j-th position on, in units of that position's weight. */
  predicate StandsFor(digits: seq<nat>, j: nat, bias: nat, q: nat) {
    Terminated(digits, j, bias) && Total(digits, j, bias) == q * Weight(j, bias)
  }

  lemma {:induction false} WeightPositive(j: nat, bias: nat)
    ensures Weight(j, bias) > 0
  {
    if j > 0 {
      WeightPositive(j - 1, bias);
      MulMono(1, Weight(j - 1, bias), BASE - T(j - 1, bias));
    }
  }

  /** Taking the first digit off. */
  lemma FirstOff(digits: seq<nat>, j: nat, bias: nat)
    requires digits != []
    ensures |digits| > 1 ==>
              (Terminated(digits, j, bias) <==>
               T(j, bias) <= digits[0] < BASE && Terminated(digits[1..], j + 1, bias))
    ensures |digits| == 1 ==> (Terminated(digits, j, bias) <==> digits[0] < T(j, bias))
  {
    hide T;
    if |digits| > 1 {
      var rest := digits[1..];
      if T(j, bias) <= digits[0] < BASE && Terminated(rest, j + 1, bias) {
        forall i | 0 <= i < |digits|
          ensures digits[i] < BASE && (i < |digits| - 1 ==> digits[i] >= T(j + i, bias))
        {
          if i > 0 {
            assert digits[i] == rest[i - 1] && j + i == j + 1 + (i - 1);
          }
        }
        assert digits[|digits| - 1] == rest[|rest| - 1];
      }
      if Terminated(digits, j, bias) {
        forall i | 0 <= i < |rest|
          ensures rest[i] < BASE && (i < |rest| - 1 ==> rest[i] >= T(j + 1 + i, bias))
        {
          assert rest[i] == digits[i + 1] && j + 1 + i == j + (i + 1);
        }
      }
    }
  }

  /** Positions from the next one on weigh a multiple of its weight. */
  lemma {:induction false} TotalIsMultiple(digits: seq<nat>, j: nat, bias: nat) returns (m: nat)
    ensures Total(digits, j, bias) == m * Weight(j, bias)
  {
    if digits == [] {
      m := 0;
    } else {
      var n := TotalIsMultiple(digits[1..], j + 1, bias);
      m := digits[0] + n * (BASE - T(j, bias));
      OneMore(digits[0], n, Weight(j, bias), BASE - T(j, bias));
    }
  }

  lemma OneMore(d: int, n: int, w: int, b: int)
    ensures d * w + n * (w * b) == (d + n * b) * w
  {
    MulAssoc(n, b, w);
    assert w * b == b * w;
    Distribute(d, n * b, w);
  }

  /** The first digit and the rest are what division gives. */
  lemma FirstDigitOf(q: nat, d: nat, m: nat, t: nat)
    requires 1 <= t <= 26 && t <= d < 36 && q == d + m * (36 - t)
    ensures q >= t && FirstDigit(q, t) == d && NextQ(q, t) == m
  {
    MulMono(0, m, 36 - t);
    DivModUnique(q - t, 36 - t, m, d - t);
  }

  lemma SpelledFirst(digits: seq<nat>)
    requires digits != [] && forall i :: 0 <= i < |digits| ==> digits[i] < BASE
    ensures Spelled(digits) == [Alphabet(digits[0])] + Spelled(digits[1..])
  {
    hide Alphabet;
    NumeralsMean(digits[0], 'a');
  }

  /** What is written for q stands for q. */
  lemma {:induction false} VarStandsFor(q: nat, j: nat, bias: nat) returns (digits: seq<nat>)
    ensures StandsFor(digits, j, bias, q) && Var(q, BASE * (j + 1), bias) == Spelled(digits)
    decreases q
  {
    hide Alphabet, FirstDigit, NextQ, T, Threshold, Terminated, Spelled;
    var t, w := T(j, bias), Weight(j, bias);
    ThresholdMeans(j, bias);
    if q < t {
      digits := [q];
      assert digits[1..] == [] && Total([], j + 1, bias) == 0;
      assert Spelled([]) == [] by { NothingSpelled(); }
    } else {
      var rest := VarStandsFor(NextQ(q, t), j + 1, bias);
      digits := [FirstDigit(q, t)] + rest;
      assert digits[1..] == rest;
      NotEmpty(rest, j + 1, bias);
      DigitAndNext(q, t, w);
    }
    FirstOff(digits, j, bias);
    AllBelow(digits, j, bias);
    SpelledFirst(digits);
  }

  lemma NothingSpelled()
    ensures Spelled([]) == []
  {
  }

  lemma NotEmpty(digits: seq<nat>, j: nat, bias: nat)
    requires Terminated(digits, j, bias)
    ensures digits != []
  {
  }

  lemma AllBelow(digits: seq<nat>, j: nat, bias: nat)
    requires Terminated(digits, j, bias)
    ensures digits != [] && forall i :: 0 <= i < |digits| ==> digits[i] < BASE
  {
  }

  /** And nothing else does. */
  lemma {:induction false} OnlyVarStandsFor(digits: seq<nat>, j: nat, bias: nat, q: nat)
    requires StandsFor(digits, j, bias, q)
    ensures (forall i :: 0 <= i < |digits| ==> digits[i] < BASE) && Spelled(digits) == Var(q, BASE * (j + 1), bias)
    decreases |digits|
  {
    hide Alphabet, FirstDigit, NextQ, T, Threshold, Terminated, Spelled;
    var t, w := T(j, bias), Weight(j, bias);
    ThresholdMeans(j, bias);
    WeightPositive(j, bias);
    AllBelow(digits, j, bias);
    FirstOff(digits, j, bias);
    SpelledFirst(digits);
    if |digits| == 1 {
      assert digits[1..] == [] && Total([], j + 1, bias) == 0;
      NothingSpelled();
      MulCompare(digits[0], q, w);
    } else {
      var m := TotalIsMultiple(digits[1..], j + 1, bias);
      OneMore(digits[0], m, w, BASE - t);
      MulCompare(digits[0] + m * (BASE - t), q, w);
      FirstDigitOf(q, digits[0], m, t);
      OnlyVarStandsFor(digits[1..], j + 1, bias, m);
    }
  }

  /** Exactly one sequence of numerals stands for a number, the one that is written, and it is read as that number. */
  lemma WrittenExactly(digits: seq<nat>, bias: nat, q: nat)
    ensures Terminated(digits, 0, bias) && Total(digits, 0, bias) == q <==>
            (forall i :: 0 <= i < |digits| ==> digits[i] < BASE) && Spelled(digits) == Var(q, 36, bias)
    ensures Terminated(digits, 0, bias) && Total(digits, 0, bias) == q ==>
              forall i: int, rest :: ReadVar(Var(q, 36, bias) + rest, i, 1, 36, bias) == Some((i + q, rest))
  {
    hide Alphabet, T, Threshold, Terminated, Spelled, Var, ReadVar, Total;
    assert Weight(0, bias) == 1;
    if Terminated(digits, 0, bias) && Total(digits, 0, bias) == q {
      OnlyVarStandsFor(digits, 0, bias, q);
    } else if (forall i :: 0 <= i < |digits| ==> digits[i] < BASE) && Spelled(digits) == Var(q, 36, bias) {
      var others := VarStandsFor(q, 0, bias);
      AllBelow(others, 0, bias);
      SameSpelling(digits, others);
    }
    forall i: int, rest: seq<char>
      ensures ReadVar(Var(q, 36, bias) + rest, i, 1, 36, bias) == Some((i + q, rest))
    {
      VarRoundTrip(q, 36, bias, i, 1, rest);
    }
  }

  lemma {:induction false} SameSpelling(a: seq<nat>, b: seq<nat>)
    requires forall i :: 0 <= i < |a| ==> a[i] < BASE
    requires forall i :: 0 <= i < |b| ==> b[i] < BASE
    requires Spelled(a) == Spelled(b)
    ensures a == b
  {
    assert |a| == |Spelled(a)| == |Spelled(b)| == |b|;
    forall i | 0 <= i < |a|
      ensures a[i] == b[i]
    {
      assert NUMERALS[a[i]] == Spelled(a)[i] == Spelled(b)[i] == NUMERALS[b[i]];
      NumeralsMean(a[i], NUMERALS[a[i]]);
      NumeralsMean(b[i], NUMERALS[b[i]]);
    }
  }

  // ---------- adaptation ----------

  /** Section 6.1: what the deltas are scaled to before they are divided down. */
  function Scaled(delta: nat, numPoints: nat, first: bool): nat
    requires numPoints > 0
  {
    var d := if first then delta / DAMP else delta / 2;
    d + d / numPoints
  }

  /** e is the least number of divisions by BASE - TMIN that brings x down to the limit. */
  ghost predicate Divisions(x: nat, e: nat) {
    Down(x, e) <= (BASE - TMIN) * TMAX / 2 && forall i: nat :: i < e ==> Down(x, i) > (BASE - TMIN) * TMAX / 2
  }

  function Down(x: nat, e: nat): nat {
    hide Pow;
    PowPositive(e);
    x / Pow(BASE - TMIN, e)
  }

  lemma {:induction false} PowPositive(e: nat)
    ensures Pow(35, e) > 0
  {
    PowMono(35, 0, e);
  }

  /** The new bias is BASE for every division and a hyperbola of what is left. */
  lemma AdaptMeans(delta: nat, numPoints: nat, first: bool, e: nat)
    requires numPoints > 0 && Divisions(Scaled(delta, numPoints, first), e)
    ensures var y := Down(Scaled(delta, numPoints, first), e);
            Adapt(delta, numPoints, first) == BASE * e + (BASE - TMIN + 1) * y / (y + SKEW)
  {
    hide AdaptLoop, Divisions, Down;
    LoopMeans(Scaled(delta, numPoints, first), 0, e);
  }

  lemma {:induction false} LoopMeans(x: nat, k: nat, e: nat)
    requires Divisions(x, e)
    ensures AdaptLoop(x, k) == k + BASE * e + (BASE - TMIN + 1) * Down(x, e) / (Down(x, e) + SKEW)
    decreases e
  {
    hide Down;
    DownZero(x);
    if e > 0 {
      forall i: nat
        ensures Down(x / 35, i) == Down(x, i + 1)
      {
        DownNext(x, i);
      }
      LoopMeans(x / 35, k + 36, e - 1);
    }
  }

  lemma DownZero(x: nat)
    ensures Down(x, 0) == x
  {
    PowZero(35);
  }

  lemma DownNext(x: nat, i: nat)
    ensures Down(x / 35, i) == Down(x, i + 1)
  {
    PowPositive(i);
    DivDiv(x, 35, Pow(35, i));
  }

  /** There is such a number of divisions. */
  lemma {:induction false} DivisionsExist(x: nat) returns (e: nat)
    ensures Divisions(x, e)
  {
    hide Down;
    DownZero(x);
    e := 0;
    if x > 455 {
      var e' := DivisionsExist(x / 35);
      e := e' + 1;
      forall i: nat
        ensures Down(x / 35, i) == Down(x, i + 1)
      {
        DownNext(x, i);
      }
      forall i: nat | i < e
        ensures Down(x, i) > 455
      {
        if i > 0 {
          assert Down(x, i) == Down(x / 35, i - 1);
        }
      }
    }
  }

  // ---------- one label ----------

  /** The label of the repository's own test: with the first code point at 128 and the first bias 72. */
  lemma KnownLabel()
    ensures Decode("bcher-kva") == Some([0x62, 0xFC, 0x63, 0x68, 0x65, 0x72])
  {
    hide Insert, Decode;
    var input, basic := "bcher-kva", [0x62, 0x63, 0x68, 0x65, 0x72];
    BasicPart();
    var start := Dec(128, 0, 72, basic);
    KnownNumber();
    assert DecodeFrom("kva", start) == DecodeFrom("", Insert(start, 745));
    KnownInsertion(start);
    KnownSplit(input, basic);
  }

  lemma KnownSplit(input: string, basic: seq<nat>)
    requires LastDelimiter(input) == 5 && |input| == 9 && input[6..] == "kva" && CodePoints(input[..5]) == basic
    requires forall c :: c in basic ==> c < 128
    ensures Decode(input) == DecodeFrom("kva", Dec(128, 0, 72, basic))
  {
    hide DecodeFrom, CodePoints, LastDelimiter;
  }

  lemma BasicPart()
    ensures var s := "bcher-kva";
            LastDelimiter(s) == 5 && s[6..] == "kva" && CodePoints(s[..5]) == [0x62, 0x63, 0x68, 0x65, 0x72]
  {
    var s := "bcher-kva";
    assert s == "bcher" + ['-'] + "kva";
    LastDelimiterOf("bcher", "kva");
    assert s[..5] == "bcher";
    assert CodePoints("") == [];
    CodePointsStep("", 'b');
    assert "" + ['b'] == "b";
    CodePointsStep("b", 'c');
    assert "b" + ['c'] == "bc";
    CodePointsStep("bc", 'h');
    assert "bc" + ['h'] == "bch";
    CodePointsStep("bch", 'e');
    assert "bch" + ['e'] == "bche";
    CodePointsStep("bche", 'r');
    assert "bche" + ['r'] == "bcher";
  }

  lemma CodePointsStep(s: string, c: char)
    ensures CodePoints(s + [c]) == CodePoints(s) + [c as int]
  {
    assert (s + [c])[..|s|] == s;
  }

  lemma KnownNumber()
    ensures ReadVar("kva", 0, 1, 36, 72) == Some((745, ""))
  {
    assert "a"[1..] == "" && "va"[1..] == "a" && "kva"[1..] == "va";
    assert ReadVar("a", 745, 1225, 108, 72) == Some((745, ""));
    assert ReadVar("va", 10, 35, 72, 72) == Some((745, ""));
  }

  lemma KnownInsertion(start: Dec)
    requires start.n == 128 && start.i == 0 && start.out == [0x62, 0x63, 0x68, 0x65, 0x72]
    ensures Insert(start, 745).out == [0x62, 0xFC, 0x63, 0x68, 0x65, 0x72]
  {
    hide Adapt;
  }

  // ---------- a label with two insertions ----------

  /** Another one of those tests, in which the second number depends on the bias after the first. */
  lemma SnowmanLabel()
    ensures Decode("--dqo34k") == Some([0x2603, 0x2D, 0x2318])
  {
    hide Insert, Decode;
    SnowmanSplit();
    var start := Dec(128, 0, 72, [0x2D]);
    var second := Dec(0x2318, 2, 17, [0x2D, 0x2318]);
    SnowmanNumbers();
    SnowmanInsertions();
    assert DecodeFrom("dqo34k", start) == DecodeFrom("34k", second);
    assert DecodeFrom("34k", second) == DecodeFrom("", Insert(second, 2241));
  }

  lemma SnowmanSplit()
    ensures Decode("--dqo34k") == DecodeFrom("dqo34k", Dec(128, 0, 72, [0x2D]))
  {
    hide DecodeFrom;
    var s := "--dqo34k";
    assert s == "-" + ['-'] + "dqo34k";
    LastDelimiterOf("-", "dqo34k");
    assert s[..1] == "-" && s[2..] == "dqo34k";
    assert CodePoints("-") == [0x2D] by {
      assert CodePoints("") == [];
      CodePointsStep("", '-');
      assert "" + ['-'] == "-";
    }
  }

  lemma SnowmanNumbers()
    ensures ReadVar("dqo34k", 0, 1, 36, 72) == Some((17713, "34k"))
    ensures ReadVar("34k", 2, 1, 36, 17) == Some((2241, ""))
  {
    assert "dqo34k"[1..] == "qo34k" && "qo34k"[1..] == "o34k" && "o34k"[1..] == "34k";
    assert ReadVar("o34k", 563, 1225, 108, 72) == Some((17713, "34k"));
    assert ReadVar("qo34k", 3, 35, 72, 72) == Some((17713, "34k"));
    assert "34k"[1..] == "4k" && "4k"[1..] == "k" && "k"[1..] == "";
    assert ReadVar("k", 541, 170, 108, 17) == Some((2241, ""));
    assert ReadVar("4k", 31, 17, 72, 17) == Some((2241, ""));
  }

  lemma SnowmanInsertions()
    ensures Insert(Dec(128, 0, 72, [0x2D]), 17713) == Dec(0x2318, 2, 17, [0x2D, 0x2318])
    ensures Insert(Dec(0x2318, 2, 17, [0x2D, 0x2318]), 2241).out == [0x2603, 0x2D, 0x2318]
  {
    hide AdaptLoop;
    assert AdaptLoop(37, 0) == 17 by { AdaptStep(37, 0); }
  }
}
