/**
 * Which values survive printing and parsing. Keys are printed without escaping, so that a bad one can end early,
 * swallow text, or make new fields. That such accidents never add up to the same value is shown by weighing the text:
 * reading a value takes at least as much text as the value weighs, and more if a key was read from an escape that a
 * plain key cannot come from.
 */
module JsonKeys {
  import opened Json

  // ---------- weights ----------

  /** Where a scan of the text is: inside a \u escape, `left` hexadecimal digits are to come. */
  datatype Scan = Plain | Slash | InHex(left: nat, u: nat)

  /** A character outside ASCII; strings print it as \uFFFF. */
  predicate High(c: char) { c as int >= 128 }

  function Next(s: Scan, c: char): Scan {
    match s
    case Plain => if c == '\\' then Slash else Plain
    case Slash => if c == 'u' then InHex(4, 0) else Plain
    case InHex(left, u) =>
      if HexVal(c) < 0 then (if c == '\\' then Slash else Plain)
      else if left <= 1 then Plain
      else InHex(left - 1, ShiftOr(u, HexVal(c)))
  }

  function PlainCost(c: char): nat { if c == '-' || High(c) then 0 else 1 }

  /**
   * A minus sign weighs nothing, because cutting a number to 32 bits may add one; an escaped slash weighs no more than
   * a plain one, because the printer escapes slashes; and nothing outside ASCII has any weight, escaped or not,
   * because the printer makes more of it.
   */
  function Cost(s: Scan, c: char): nat {
    match s
    case Plain => if c == '\\' then 0 else PlainCost(c)
    case Slash => if c == 'u' then 0 else if c == '/' || c == '-' || High(c) then 1 else 2
    case InHex(left, u) =>
      if HexVal(c) < 0 then (if c == '\\' then 0 else PlainCost(c))
      else if left <= 1 && ShiftOr(u, HexVal(c)) <= 0x7F then 6
      else 0
  }

  function State(json: string, p: nat): Scan
    requires p <= |json|
  {
    if p == 0 then Plain else Next(State(json, p - 1), json[p - 1])
  }

  /** The weight of the text up to position p. */
  function Upto(json: string, p: nat): (w: nat)
    requires p <= |json|
  {
    if p == 0 then 0 else Upto(json, p - 1) + Cost(State(json, p - 1), json[p - 1])
  }

  function Weight(s: string): nat { Upto(s, |s|) }

  function End(s: string): Scan { State(s, |s|) }

  lemma {:induction false} UptoMono(json: string, p: nat, q: nat)
    requires p <= q <= |json|
    ensures Upto(json, p) <= Upto(json, q)
  {
    if p < q {
      UptoMono(json, p, q - 1);
    }
  }

  lemma NextWeight(json: string, p: nat)
    requires p < |json|
    ensures Upto(json, p + 1) == Upto(json, p) + Cost(State(json, p), json[p])
    ensures State(json, p + 1) == Next(State(json, p), json[p])
  {
  }

  lemma {:induction false} UptoPrefix(a: string, b: string, p: nat)
    requires p <= |a|
    ensures Upto(a + b, p) == Upto(a, p) && State(a + b, p) == State(a, p)
  {
    if p > 0 {
      UptoPrefix(a, b, p - 1);
    }
  }

  /** If nothing is open at the end of a, what follows weighs as much as on its own. */
  lemma {:induction false} Behind(a: string, b: string, i: nat)
    requires End(a).Plain? && i <= |b|
    ensures Upto(a + b, |a| + i) == Weight(a) + Upto(b, i)
    ensures State(a + b, |a| + i) == State(b, i)
  {
    if i == 0 {
      UptoPrefix(a, b, |a|);
    } else {
      Behind(a, b, i - 1);
      assert (a + b)[|a| + i - 1] == b[i - 1];
    }
  }

  lemma Weights(a: string, b: string)
    requires End(a).Plain?
    ensures Weight(a + b) == Weight(a) + Weight(b) && End(a + b) == End(b)
  {
    Behind(a, b, |b|);
  }

  lemma OneWeight(c: char)
    ensures Weight([c]) == Cost(Plain, c) && End([c]) == Next(Plain, c)
  {
    assert Upto([c], 0) == 0 && State([c], 0) == Plain;
  }

  lemma NoText()
    ensures Weight("") == 0 && PrintChars("") == "" && End("") == Plain
  {
  }

  /** Text without backslashes. */
  lemma {:induction false} NoBackslash(json: string, p: nat, q: nat)
    requires p <= q <= |json| && State(json, p).Plain? && forall i :: p <= i < q ==> json[i] != '\\'
    ensures State(json, q).Plain? && Upto(json, q) <= Upto(json, p) + (q - p)
  {
    if p < q {
      NoBackslash(json, p, q - 1);
    }
  }

  // ---------- strings ----------

  lemma {:induction false} HexWeight(json: string, p: nat, n: nat, u: nat)
    requires p <= |json| && n > 0 && HexDigits(json, p, n, u).HexOk? && State(json, p) == InHex(n, u)
    ensures p + n <= |json| && State(json, p + n) == Plain
    ensures Upto(json, p + n) == Upto(json, p) + (if HexDigits(json, p, n, u).u <= 0x7F then 6 else 0)
    decreases n
  {
    hide ShiftOr, Upto, State;
    NextWeight(json, p);
    if n > 1 {
      HexWeight(json, p + 1, n - 1, ShiftOr(u, HexVal(CharAt(json, p))));
    }
  }

  ghost predicate AllHigh(s: string) { forall i :: 0 <= i < |s| ==> High(s[i]) }

  /** What a character weighs in a key. */
  function KeySize(k: string): nat {
    if k == [] then 0 else KeySize(k[..|k| - 1]) + PlainCost(k[|k| - 1])
  }

  lemma {:induction false} KeySizes(a: string, b: string)
    ensures KeySize(a + b) == KeySize(a) + KeySize(b)
    decreases |b|
  {
    if b == [] {
      assert a + b == a;
    } else {
      assert (a + b)[..|a + b| - 1] == a + b[..|b| - 1];
      KeySizes(a, b[..|b| - 1]);
    }
  }

  /** Printed strings consist of whole escapes. */
  lemma {:induction false} PrintAligned(s: string)
    ensures End(PrintChars(s)).Plain?
  {
    hide PrintChar, Weight, End;
    if s == [] {
      NoText();
    } else {
      var init, c := s[..|s| - 1], s[|s| - 1];
      PrintAligned(init);
      PrintedWeight(c);
      Weights(PrintChars(init), PrintChar(c));
    }
  }

  lemma PrintMore(acc: string, c: char)
    ensures Weight(PrintChars(acc + [c])) == Weight(PrintChars(acc)) + Weight(PrintChar(c))
  {
    hide PrintChar, Weight, End;
    assert (acc + [c])[..|acc|] == acc;
    PrintAligned(acc);
    Weights(PrintChars(acc), PrintChar(c));
  }

  lemma {:induction false} PrintMoreAll(acc: string, s: string)
    ensures Weight(PrintChars(acc + s)) == Weight(PrintChars(acc)) + Weight(PrintChars(s))
    decreases |s|
  {
    hide PrintChar, Weight, End, PrintChars;
    if s == [] {
      NoText();
      assert acc + s == acc;
    } else {
      var init, c := s[..|s| - 1], s[|s| - 1];
      PrintMoreAll(acc, init);
      PrintMore(acc + init, c);
      PrintMore(init, c);
      assert acc + init + [c] == acc + s && init + [c] == s;
    }
  }

  lemma {:induction false} HighSize(s: string)
    requires AllHigh(s)
    ensures KeySize(s) == 0 && PlainKey(s) && Weight(PrintChars(s)) == 0
  {
    if s == [] {
      NoText();
    } else {
      var init, c := s[..|s| - 1], s[|s| - 1];
      HighSize(init);
      PrintedWeight(c);
      PrintMore(init, c);
      assert s == init + [c];
    }
  }

  lemma Utf8High(u: nat)
    ensures u <= 0x7F ==> Utf8(u) == [u as char]
    ensures u > 0x7F ==> AllHigh(Utf8(u))
  {
  }

  /** The escape whose backslash is at p: a slash, something outside ASCII, or more text than it stands for. */
  lemma EscapeWeight(json: string, p: nat)
    requires p < |json| && json[p] == '\\' && State(json, p).Plain? && ParseEscape(json, p + 1).EscOk?
    ensures var e := ParseEscape(json, p + 1);
            && p < e.next <= |json| && State(json, e.next).Plain?
            && var w := Upto(json, e.next) - Upto(json, p);
               || (e.chars == "/" && w == 1)
               || (AllHigh(e.chars) && w == 0)
               || (|e.chars| == 1 && w >= 2 && Weight(PrintChar(e.chars[0])) <= w)
  {
    hide HexDigits, Upto, Weight, State, PrintChar, Utf8;
    var e := ParseEscape(json, p + 1);
    NextWeight(json, p);
    NextWeight(json, p + 1);
    if json[p + 1] == 'u' {
      HexWeight(json, p + 2, 4, 0);
      var u := HexDigits(json, p + 2, 4, 0).u;
      if 0xD800 <= u <= 0xDBFF {
        NextWeight(json, p + 6);
        NextWeight(json, p + 7);
        HexWeight(json, p + 8, 4, 0);
        Utf8High((u - 0xD800) * 1024 + (HexDigits(json, p + 8, 4, 0).u - 0xDC00) + 0x10000);
      } else {
        Utf8High(u);
        if u <= 0x7F {
          PrintedWeight(u as char);
        }
      }
    } else {
      PrintedWeight(e.chars[0]);
    }
  }

  /** Escapes are printed as short as they can be read. */
  lemma PrintedWeight(c: char)
    ensures End(PrintChar(c)).Plain?
    ensures Weight(PrintChar(c)) <= (if c == '\"' || c == '\\' || 8 <= c as int <= 10 || 12 <= c as int <= 13 then 2
                                     else if c as int < 0x20 then 6 else PlainCost(c))
  {
    var s := PrintChar(c);
    if |s| == 1 {
      OneWeight(c);
    } else {
      assert State(s, 0) == Plain && State(s, 1) == Slash && Upto(s, 1) == 0;
      if |s| == 2 {
        assert State(s, 2) == Plain && Upto(s, 2) == Cost(Slash, s[1]);
      } else {
        HexPrinted(c);
        SixLong(s);
      }
    }
  }

  lemma HexPrinted(c: char)
    requires |PrintChar(c)| == 6
    ensures PrintChar(c)[0] == '\\' && PrintChar(c)[1] == 'u' && HexDigits(PrintChar(c), 2, 4, 0).HexOk?
    ensures High(c) ==> HexDigits(PrintChar(c), 2, 4, 0).u == 0xFFFF
    ensures !High(c) ==> c as int < 0x20
  {
    var s := PrintChar(c);
    if High(c) {
      FifteenIsDigit();
      FourFs();
      assert HexDigits(s, 6, 0, 0xFFFF) == HexOk(0xFFFF);
      assert HexDigits(s, 5, 1, 0xFFF) == HexOk(0xFFFF);
      assert HexDigits(s, 4, 2, 0xFF) == HexOk(0xFFFF);
      assert HexDigits(s, 3, 3, 0xF) == HexOk(0xFFFF);
    } else {
      assert s[0..0 + |s|] == s;
      ControlBack(s, 0, c);
    }
  }

  /** A \u escape. */
  lemma SixLong(s: string)
    requires |s| == 6 && s[0] == '\\' && s[1] == 'u' && HexDigits(s, 2, 4, 0).HexOk?
    ensures End(s).Plain? && Weight(s) == if HexDigits(s, 2, 4, 0).u <= 0x7F then 6 else 0
  {
    hide ShiftOr;
    assert State(s, 0) == Plain && Upto(s, 0) == 0;
    assert State(s, 1) == Slash && Upto(s, 1) == 0;
    assert State(s, 2) == InHex(4, 0) && Upto(s, 2) == 0;
    HexWeight(s, 2, 4, 0);
  }

  /** A key weighs no more than its text, and less if it is not plain. */
  lemma {:induction false} KeyWeight(json: string, p: nat, acc: string)
    requires p <= |json| && State(json, p).Plain?
    ensures var r := ParseChars(json, p, acc);
            r.CharsOk? ==>
              && State(json, r.next).Plain?
              && Upto(json, p) + 1 + KeySize(r.chars) <= Upto(json, r.next) + KeySize(acc)
              && (Upto(json, p) + 1 + KeySize(r.chars) == Upto(json, r.next) + KeySize(acc) && PlainKey(acc)
                  ==> PlainKey(r.chars))
    decreases |json| - p
  {
    hide ParseEscape, Upto, State, KeySize, PrintChar, Weight;
    var c := CharAt(json, p);
    if p < |json| {
      NextWeight(json, p);
    }
    if c == '\\' {
      EscapeStays(json, p + 1);
      var e := ParseEscape(json, p + 1);
      if e.EscOk? {
        EscapeWeight(json, p);
        KeyWeight(json, e.next, acc + e.chars);
        KeySizes(acc, e.chars);
        EscapeSize(e.chars);
      }
    } else if c != '\"' && c != '\0' && c as int >= 0x20 {
      KeyWeight(json, p + 1, acc + [c]);
      KeySizes(acc, [c]);
      OneSize(c);
    }
  }

  lemma OneSize(c: char)
    ensures KeySize([c]) == PlainCost(c)
  {
    assert [c][..0] == [] && KeySize([]) == 0;
  }

  lemma EscapeSize(chars: string)
    ensures |chars| == 1 ==> KeySize(chars) <= 1
    ensures AllHigh(chars) ==> KeySize(chars) == 0 && PlainKey(chars)
    ensures chars == "/" ==> KeySize(chars) == 1 && PlainKey(chars)
  {
    hide KeySize;
    if |chars| == 1 {
      assert chars == [chars[0]];
      OneSize(chars[0]);
    }
    if AllHigh(chars) {
      HighSize(chars);
    }
  }

  /** A string read as a value weighs, when it is printed, no more than its text. */
  lemma {:induction false} TextWeight(json: string, p: nat, acc: string)
    requires p <= |json| && State(json, p).Plain?
    ensures var r := ParseChars(json, p, acc);
            r.CharsOk? ==>
              && State(json, r.next).Plain?
              && Upto(json, p) + 1 + Weight(PrintChars(r.chars)) <= Upto(json, r.next) + Weight(PrintChars(acc))
    decreases |json| - p
  {
    hide ParseEscape, PrintChars, PrintChar, Upto, Weight, State;
    var c := CharAt(json, p);
    if p < |json| {
      NextWeight(json, p);
    }
    if c == '\\' {
      EscapeStays(json, p + 1);
      var e := ParseEscape(json, p + 1);
      if e.EscOk? {
        EscapeWeight(json, p);
        TextWeight(json, e.next, acc + e.chars);
        PrintMoreAll(acc, e.chars);
        EscapePrinted(e.chars);
      }
    } else if c != '\"' && c != '\0' && c as int >= 0x20 {
      TextWeight(json, p + 1, acc + [c]);
      PrintMore(acc, c);
      PrintedWeight(c);
    }
  }

  lemma EscapePrinted(chars: string)
    ensures |chars| == 1 ==> Weight(PrintChars(chars)) == Weight(PrintChar(chars[0]))
    ensures AllHigh(chars) ==> Weight(PrintChars(chars)) == 0
    ensures chars == "/" ==> Weight(PrintChars(chars)) <= 1
  {
    hide PrintChars, PrintChar, Weight;
    NoText();
    if |chars| == 1 {
      assert chars == [] + [chars[0]];
      PrintMore([], chars[0]);
      PrintedWeight(chars[0]);
    }
    if AllHigh(chars) {
      HighSize(chars);
    }
  }

  // ---------- numbers ----------

  lemma {:induction false} DigitsMono(x: nat, y: nat)
    requires x <= y
    ensures |Digits(x)| <= |Digits(y)|
  {
    if x >= 10 {
      DigitsMono(x / 10, y / 10);
    }
  }

  /** No number has more digits than its text. */
  lemma {:induction false} DigitsOfText(text: string)
    requires text != []
    ensures |Digits(NumberOf(text))| <= |text|
  {
    var init := text[..|text| - 1];
    if IsDigit(text[|text| - 1]) && init != [] {
      DigitsOfText(init);
    }
  }

  /** Cutting a number to 32 bits does not give it more digits. */
  lemma CutDigits(n: int)
    ensures var m := ToInt32(n);
            |Digits(if m < 0 then -m else m)| <= |Digits(if n < 0 then -n else n)|
  {
    hide Digits;
    var m := ToInt32(n);
    if -0x8000_0000 <= n < 0x8000_0000 {
      assert m == n;
    } else {
      DigitsMono(if m < 0 then -m else m, if n < 0 then -n else n);
    }
  }

  lemma DigitCost(c: char)
    requires IsDigit(c)
    ensures Cost(Plain, c) == 1 && Next(Plain, c) == Plain
  {
  }

  lemma {:induction false} SkippedWeight(json: string, p: nat)
    requires p <= |json| && State(json, p).Plain?
    ensures var q := SkipDigits(json, p);
            State(json, q).Plain? && Upto(json, q) == Upto(json, p) + (q - p)
    decreases |json| - p
  {
    hide Upto, State;
    if IsDigit(CharAt(json, p)) {
      NextWeight(json, p);
      DigitCost(json[p]);
      SkippedWeight(json, p + 1);
    }
  }

  /** The digits of an integer part all have weight, and there is one. */
  lemma IntegerWeight(json: string, p: nat)
    requires p <= |json| && State(json, p).Plain? && IntegerPart(json, p).0
    ensures var t, q := if CharAt(json, p) == '-' then p + 1 else p, IntegerPart(json, p).1;
            t < q <= |json| && State(json, q).Plain? && Upto(json, q) == Upto(json, p) + (q - t)
  {
    hide Upto, State, SkipDigits;
    var t := if CharAt(json, p) == '-' then p + 1 else p;
    NextWeight(json, p);
    NextWeight(json, t);
    DigitCost(json[t]);
    if CharAt(json, t) != '0' {
      SkippedWeight(json, t + 1);
    }
  }

  lemma PrintIntWeight(i: int)
    ensures Weight(PrintInt(i)) <= |Digits(if i < 0 then -i else i)| && End(PrintInt(i)).Plain?
  {
    hide Digits, Weight, End;
    var d := Digits(if i < 0 then -i else i);
    DigitsBack(if i < 0 then -i else i);
    DigitsOnly(d);
    OneWeight('-');
    if i < 0 {
      Weights("-", d);
    }
  }

  lemma DigitsOnly(d: string)
    requires forall i :: 0 <= i < |d| ==> IsDigit(d[i])
    ensures Weight(d) <= |d| && End(d).Plain?
  {
    NoBackslash(d, 0, |d|);
  }

  /** The rest of a number that is no integer. */
  lemma NumberText(json: string, p: nat)
    requires p <= |json| && State(json, p).Plain? && SomeDigits(json, p).0
    ensures State(json, SomeDigits(json, p).1).Plain?
  {
    hide Upto, State, SkipDigits;
    NextWeight(json, p);
    SkippedWeight(json, p + 1);
  }

  lemma PastPoint(json: string, p: nat)
    requires p <= |json| && State(json, p).Plain? && Fraction(json, p).0
    ensures State(json, Fraction(json, p).1).Plain?
  {
    hide Upto, State, SomeDigits;
    if CharAt(json, p) == '.' {
      NextWeight(json, p);
      NumberText(json, p + 1);
    }
  }

  lemma PastExponent(json: string, p: nat)
    requires p <= |json| && State(json, p).Plain? && Exponent(json, p).0
    ensures State(json, Exponent(json, p).1).Plain?
  {
    hide Upto, State, SomeDigits;
    if CharAt(json, p) == 'e' || CharAt(json, p) == 'E' {
      NextWeight(json, p);
      if CharAt(json, p + 1) == '+' || CharAt(json, p + 1) == '-' {
        NextWeight(json, p + 1);
        NumberText(json, p + 2);
      } else {
        NumberText(json, p + 1);
      }
    }
  }

  /** An integer weighs, when it is printed, no more than its text. */
  lemma NumberWeight(json: string, p: nat)
    requires p <= |json| && State(json, p).Plain?
    ensures var r := ParseNumber(json, p);
            r.Ok? ==>
              && State(json, r.next).Plain? && (r.v.Integer? || r.v.Number?)
              && (r.v.Integer? ==> Weight(Print(r.v)) <= Upto(json, r.next) - Upto(json, p))
  {
    hide Digits, NumberOf, ToInt32, IntegerPart, Fraction, Exponent, Upto, State, PrintInt, Weight;
    var r := ParseNumber(json, p);
    if r.Ok? {
      IntegerWeight(json, p);
      var t1 := IntegerPart(json, p).1;
      PastPoint(json, t1);
      PastExponent(json, Fraction(json, t1).1);
      if r.v.Integer? {
        var q := r.next;
        var t := if CharAt(json, p) == '-' then p + 1 else p;
        var text := json[p..q];
        DigitsOfText(json[t..q]);
        assert text[0] == '-' ==> text[1..] == json[t..q];
        assert text[0] != '-' ==> text == json[t..q];
        CutDigits(SignedOf(text));
        PrintIntWeight(ToInt32(SignedOf(text)));
      }
    }
  }

  // ---------- values ----------

  /** No text numbers. */
  ghost predicate Numberless(v: Value)
    decreases v
  {
    match v
    case Number(_) => false
    case Array(elems) => forall i :: 0 <= i < |elems| ==> Numberless(elems[i])
    case Object(fields) => forall i :: 0 <= i < |fields| ==> Numberless(fields[i].value)
    case _ => true
  }

  ghost predicate PlainKeys(v: Value)
    decreases v
  {
    match v
    case Array(elems) => forall i :: 0 <= i < |elems| ==> PlainKeys(elems[i])
    case Object(fields) => forall i :: 0 <= i < |fields| ==> PlainKey(fields[i].key) && PlainKeys(fields[i].value)
    case _ => true
  }

  /** What a value weighs. */
  function Size(v: Value): nat
    decreases v, 1
  {
    match v
    case Array(elems) => if elems == [] then 2 else 1 + ElemsSize(elems)
    case Object(fields) => if fields == [] then 2 else 1 + FieldsSize(fields)
    case _ => Weight(Print(v))
  }

  /** The elements with a separator each. */
  function ElemsSize(elems: seq<Value>): nat
    decreases elems, 0
  {
    if elems == [] then 0 else Size(elems[0]) + 1 + ElemsSize(elems[1..])
  }

  function FieldSize(f: Field): nat
    decreases f, 2
  {
    3 + KeySize(f.key) + Size(f.value)
  }

  function FieldsSize(fields: seq<Field>): nat
    decreases fields, 0
  {
    if fields == [] then 0 else FieldSize(fields[0]) + 1 + FieldsSize(fields[1..])
  }

  // ---------- printed values weigh no more than that ----------

  /** How much lighter an unfinished escape is than its characters. */
  function Credit(s: Scan): int {
    match s
    case Plain => 0
    case Slash => 1
    case InHex(left, _) => 6 - left
  }

  lemma CreditStep(s: Scan, c: char)
    requires s.InHex? ==> 1 <= s.left <= 4
    ensures var t := Next(s, c);
            && (t.InHex? ==> 1 <= t.left <= 4)
            && Cost(s, c) + Credit(t) <= PlainCost(c) + Credit(s)
  {
    hide ShiftOr;
  }

  /** However its characters look like escapes, a key in quotation marks weighs at most as much as they do plain. */
  lemma {:induction false} RawKey(k: string)
    ensures var s, e := "\"" + k, End("\"" + k);
            (e.InHex? ==> 1 <= e.left <= 4) && Weight(s) + Credit(e) <= 1 + KeySize(k)
    decreases |k|
  {
    hide Next, Cost, Credit;
    if k == [] {
      assert "\"" + k == "\"" == ['\"'];
      OneWeight('\"');
      QuoteScanned(Plain);
    } else {
      var init, c := k[..|k| - 1], k[|k| - 1];
      RawKey(init);
      var s := "\"" + init;
      assert "\"" + k == s + [c];
      UptoPrefix(s, [c], |s|);
      NextWeight(s + [c], |s|);
      CreditStep(End(s), c);
    }
  }

  lemma QuoteScanned(s: Scan)
    ensures Next(s, '\"').Plain? && Credit(Plain) == 0
    ensures Cost(s, '\"') <= 1 + (if s.Slash? then Credit(s) else 0) && (s.Plain? ==> Cost(s, '\"') == 1)
    ensures s.InHex? && s.left <= 4 ==> Credit(s) >= 2
    ensures s.Plain? ==> Credit(s) == 0
  {
  }

  lemma QuotedKey(k: string)
    ensures var s := "\"" + k + "\"";
            End(s).Plain? && Weight(s) <= 2 + KeySize(k)
  {
    hide Next, Cost, Credit;
    var s := "\"" + k;
    RawKey(k);
    QuoteScanned(End(s));
    UptoPrefix(s, "\"", |s|);
    NextWeight(s + "\"", |s|);
  }

  lemma StringPrinted(s: string)
    ensures End(PrintString(s)).Plain? && Weight(PrintString(s)) == 2 + Weight(PrintChars(s))
  {
    hide PrintChars, Weight, End;
    OneWeight('\"');
    PrintAligned(s);
    Weights("\"", PrintChars(s));
    Weights("\"" + PrintChars(s), "\"");
  }

  lemma Sign(c: char)
    requires c == ',' || c == ':' || c == '[' || c == ']' || c == '{' || c == '}' || c == '\"'
    ensures Cost(Plain, c) == 1 && Next(Plain, c) == Plain
    ensures Weight([c]) == 1 && End([c]).Plain?
  {
    OneWeight(c);
  }

  lemma Literals()
    ensures End("null").Plain? && End("true").Plain? && End("false").Plain?
  {
    NoBackslash("null", 0, 4);
    NoBackslash("true", 0, 4);
    NoBackslash("false", 0, 5);
  }

  lemma {:induction false} PrintedSize(v: Value)
    requires Numberless(v)
    ensures End(Print(v)).Plain? && Weight(Print(v)) <= Size(v)
    decreases v, 1
  {
    hide Weight, End, PrintChars, PrintInt, PrintElems, PrintFields, ElemsSize, FieldsSize;
    match v
    case Null => Literals();
    case Bool(_) => Literals();
    case Integer(i) => PrintIntWeight(i);
    case Str(s) => StringPrinted(s);
    case Array(elems) =>
      Sign('[');
      Sign(']');
      if elems == [] {
        NothingPrinted();
        NoText();
      } else {
        ElemsPrinted(elems);
      }
      Weights("[", PrintElems(elems));
      Weights("[" + PrintElems(elems), "]");
    case Object(fields) =>
      Sign('{');
      Sign('}');
      if fields == [] {
        NothingPrinted();
        NoText();
      } else {
        FieldsPrinted(fields);
      }
      Weights("{", PrintFields(fields));
      Weights("{" + PrintFields(fields), "}");
  }

  lemma {:induction false} ElemsPrinted(elems: seq<Value>)
    requires elems != [] && forall i :: 0 <= i < |elems| ==> Numberless(elems[i])
    ensures End(PrintElems(elems)).Plain? && Weight(PrintElems(elems)) + 1 <= ElemsSize(elems)
    decreases elems, 0
  {
    hide Weight, End, Print, Size;
    PrintedSize(elems[0]);
    if |elems| > 1 {
      Sign(',');
      ElemsPrinted(elems[1..]);
      Weights(Print(elems[0]), ",");
      Weights(Print(elems[0]) + ",", PrintElems(elems[1..]));
    }
  }

  lemma {:induction false} FieldPrinted(f: Field)
    requires Numberless(f.value)
    ensures End(PrintField(f)).Plain? && Weight(PrintField(f)) <= FieldSize(f)
    decreases f, 2
  {
    hide Weight, End, Print, Size, KeySize;
    var q := "\"" + f.key + "\"";
    QuotedKey(f.key);
    Sign(':');
    Weights(q, ":");
    PrintedSize(f.value);
    Weights(q + ":", Print(f.value));
    assert q + ":" == "\"" + f.key + "\":";
  }

  lemma {:induction false} FieldsPrinted(fields: seq<Field>)
    requires fields != [] && forall i :: 0 <= i < |fields| ==> Numberless(fields[i].value)
    ensures End(PrintFields(fields)).Plain? && Weight(PrintFields(fields)) + 1 <= FieldsSize(fields)
    decreases fields, 0
  {
    hide Weight, End, PrintField, FieldSize;
    FieldPrinted(fields[0]);
    if |fields| > 1 {
      Sign(',');
      FieldsPrinted(fields[1..]);
      Weights(PrintField(fields[0]), ",");
      Weights(PrintField(fields[0]) + ",", PrintFields(fields[1..]));
    }
  }

  lemma {:induction false} ElemAppended(elems: seq<Value>, v: Value)
    ensures ElemsSize(elems + [v]) == ElemsSize(elems) + Size(v) + 1
    decreases |elems|
  {
    hide Size;
    if elems != [] {
      assert (elems + [v])[1..] == elems[1..] + [v];
      ElemAppended(elems[1..], v);
    }
  }

  /** A field is either dropped or one more. */
  lemma {:induction false} FieldInserted(fields: seq<Field>, f: Field)
    ensures var r := InsertField(fields, f);
            && r != [] && (forall x :: x in fields ==> x in r)
            && (r == fields
                || (f in r && (forall x :: x in r ==> x in fields || x == f)
                    && FieldsSize(r) == FieldsSize(fields) + FieldSize(f) + 1))
    decreases |fields|
  {
    hide FieldSize, Less;
    if fields != [] && f.key != fields[0].key && !Less(f.key, fields[0].key) {
      FieldInserted(fields[1..], f);
      assert fields == [fields[0]] + fields[1..];
      assert InsertField(fields, f)[1..] == InsertField(fields[1..], f);
    } else if fields != [] && f.key != fields[0].key {
      assert ([f] + fields)[1..] == fields;
    } else if fields == [] {
      assert [f][1..] == [];
    }
  }

  lemma InsertedPlain(fields: seq<Field>, f: Field)
    requires PlainKeys(Object(fields)) && PlainKey(f.key) && PlainKeys(f.value)
    ensures PlainKeys(Object(InsertField(fields, f)))
  {
    FieldInserted(fields, f);
    var all := InsertField(fields, f);
    forall i | 0 <= i < |all|
      ensures PlainKey(all[i].key) && PlainKeys(all[i].value)
    {
      assert all[i] in all;
    }
  }

  // ---------- reading takes at least that much ----------

  lemma TextOf(json: string, p: nat, s: string)
    requires p <= |json| && Matches(json, p, s) && State(json, p).Plain?
    ensures Upto(json, p + |s|) == Upto(json, p) + Weight(s) && State(json, p + |s|) == End(s)
  {
    var q := p + |s|;
    assert json == json[..p] + json[p..] && json == json[..q] + json[q..];
    UptoPrefix(json[..p], json[p..], p);
    UptoPrefix(json[..q], json[q..], q);
    assert json[..q] == json[..p] + s;
    Weights(json[..p], s);
  }

  lemma {:induction false} WsWeight(json: string, p: nat)
    requires p <= |json| && State(json, p).Plain?
    ensures State(json, SkipWs(json, p)).Plain? && Upto(json, p) <= Upto(json, SkipWs(json, p))
    decreases |json| - p
  {
    hide Upto, State;
    if IsWs(CharAt(json, p)) {
      NextWeight(json, p);
      WsWeight(json, p + 1);
    }
  }

  lemma SignWeight(json: string, p: nat, c: char)
    requires CharAt(json, p) == c && State(json, if p < |json| then p else 0).Plain?
    requires c == ',' || c == ':' || c == '[' || c == ']' || c == '{' || c == '}' || c == '\"'
    ensures p < |json| && State(json, p + 1).Plain? && Upto(json, p + 1) == Upto(json, p) + 1
  {
    hide Upto, State;
    NextWeight(json, p);
    Sign(c);
  }

  /** The text from p to next weighs at least what v weighs, and more if a key in v is not plain. */
  ghost predicate Lighter(json: string, p: nat, v: Value, next: nat)
    requires p <= |json| && next <= |json|
  {
    && State(json, next).Plain?
    && (Numberless(v) ==>
          && Upto(json, p) + Size(v) <= Upto(json, next)
          && (Upto(json, p) + Size(v) == Upto(json, next) ==> PlainKeys(v)))
  }

  lemma StringLighter(json: string, p: nat)
    requires p < |json| && json[p] == '\"' && State(json, p).Plain?
    ensures var r := ParseString(json, p);
            r.Ok? ==> Lighter(json, p, r.v, r.next)
  {
    hide ParseChars, Upto, State, Weight, PrintString;
    var r := ParseString(json, p);
    if r.Ok? {
      SignWeight(json, p, '\"');
      TextWeight(json, p + 1, "");
      NoText();
      StringPrinted(r.v.s);
    }
  }

  lemma {:induction false} ValueLighter(json: string, p: nat)
    requires p <= |json| && State(json, p).Plain?
    ensures var r := ParseValue(json, p);
            r.Ok? ==> Lighter(json, p, r.v, r.next)
    decreases |json| - p, 3
  {
    hide ParseString, ParseArray, ParseObject, ParseNumber, Upto, State, Weight, End, Matches;
    var c, r := CharAt(json, p), ParseValue(json, p);
    if c == '\"' {
      StringLighter(json, p);
    } else if c == '[' {
      ArrayLighter(json, p);
    } else if c == '{' {
      ObjectLighter(json, p);
    } else if r.Ok? {
      if c == 't' || c == 'f' || c == 'n' {
        TextOf(json, p, Print(r.v));
        Literals();
      } else {
        NumberWeight(json, p);
      }
    }
  }

  lemma {:induction false} ArrayLighter(json: string, p: nat)
    requires p < |json| && json[p] == '[' && State(json, p).Plain?
    ensures var r := ParseArray(json, p);
            r.Ok? ==> Lighter(json, p, r.v, r.next)
    decreases |json| - p, 2
  {
    hide ParseElems, Upto, State, SkipWs, ElemsSize;
    var r := ParseArray(json, p);
    if r.Ok? {
      var q := SkipWs(json, p + 1);
      SignWeight(json, p, '[');
      WsWeight(json, p + 1);
      if CharAt(json, q) == ']' {
        SignWeight(json, q, ']');
      } else {
        ElemsLighter(json, q, []);
        NoElems();
      }
    }
  }

  lemma NoElems()
    ensures ElemsSize([]) == 0 && FieldsSize([]) == 0
  {
  }

  lemma {:induction false} ElemsLighter(json: string, p: nat, acc: seq<Value>)
    requires p <= |json| && State(json, p).Plain?
    ensures var r := ParseElems(json, p, acc);
            r.Ok? ==>
              && r.v.Array? && acc < r.v.elems && State(json, r.next).Plain?
              && (Numberless(r.v) ==>
                    && Upto(json, p) + ElemsSize(r.v.elems) <= Upto(json, r.next) + ElemsSize(acc)
                    && (Upto(json, p) + ElemsSize(r.v.elems) == Upto(json, r.next) + ElemsSize(acc) ==>
                          PlainKeys(Array(acc)) ==> PlainKeys(r.v)))
    decreases |json| - p, 4
  {
    hide ParseValue, Upto, State, SkipWs, ElemsSize, Size;
    var one, r := ParseValue(json, p), ParseElems(json, p, acc);
    if r.Ok? {
      ValueLighter(json, p);
      var q := SkipWs(json, one.next);
      WsWeight(json, one.next);
      SignWeight(json, q, CharAt(json, q));
      ElemAppended(acc, one.v);
      if CharAt(json, q) == ',' {
        var q' := SkipWs(json, q + 1);
        WsWeight(json, q + 1);
        ElemsLighter(json, q', acc + [one.v]);
      }
      assert r.v.elems[|acc|] == one.v;
    }
  }

  lemma {:induction false} ObjectLighter(json: string, p: nat)
    requires p < |json| && json[p] == '{' && State(json, p).Plain?
    ensures var r := ParseObject(json, p);
            r.Ok? ==> Lighter(json, p, r.v, r.next)
    decreases |json| - p, 2
  {
    hide ParseFields, Upto, State, SkipWs, FieldsSize;
    var r := ParseObject(json, p);
    if r.Ok? {
      var q := SkipWs(json, p + 1);
      SignWeight(json, p, '{');
      WsWeight(json, p + 1);
      if CharAt(json, q) == '}' {
        SignWeight(json, q, '}');
      } else {
        FieldsLighter(json, q, []);
        NoElems();
      }
    }
  }

  lemma {:induction false} FieldLighter(json: string, p: nat)
    requires p <= |json| && State(json, p).Plain?
    ensures var r := ParseField(json, p);
            r.FieldOk? ==>
              && State(json, r.next).Plain? && Upto(json, p) < Upto(json, r.next)
              && (Numberless(r.f.value) ==>
                    && Upto(json, p) + FieldSize(r.f) <= Upto(json, r.next)
                    && (Upto(json, p) + FieldSize(r.f) == Upto(json, r.next)
                        ==> PlainKey(r.f.key) && PlainKeys(r.f.value)))
    decreases |json| - p, 4
  {
    hide ParseValue, ParseChars, Upto, State, SkipWs, Numberless, PlainKeys, Size, KeySize;
    var r := ParseField(json, p);
    if r.FieldOk? {
      var k := ParseString(json, p);
      SignWeight(json, p, '\"');
      KeyWeight(json, p + 1, "");
      assert KeySize("") == 0 by { NoKey(); }
      var q := SkipWs(json, k.next);
      WsWeight(json, k.next);
      SignWeight(json, q, ':');
      var q' := SkipWs(json, q + 1);
      WsWeight(json, q + 1);
      ValueLighter(json, q');
      UptoMono(json, q', r.next);
    }
  }

  lemma NoKey()
    ensures KeySize("") == 0
  {
  }

  lemma {:induction false} FieldsLighter(json: string, p: nat, acc: seq<Field>)
    requires p <= |json| && State(json, p).Plain?
    ensures var r := ParseFields(json, p, acc);
            r.Ok? ==>
              && r.v.Object? && r.v.fields != [] && (forall x :: x in acc ==> x in r.v.fields)
              && State(json, r.next).Plain?
              && (Numberless(r.v) ==>
                    && Upto(json, p) + FieldsSize(r.v.fields) <= Upto(json, r.next) + FieldsSize(acc)
                    && (Upto(json, p) + FieldsSize(r.v.fields) == Upto(json, r.next) + FieldsSize(acc) ==>
                          PlainKeys(Object(acc)) ==> PlainKeys(r.v)))
    decreases |json| - p, 5
  {
    hide ParseField, Upto, State, SkipWs, FieldSize, FieldsSize, InsertField;
    var one, r := ParseField(json, p), ParseFields(json, p, acc);
    if r.Ok? {
      FieldLighter(json, p);
      var q := SkipWs(json, one.next);
      WsWeight(json, one.next);
      SignWeight(json, q, CharAt(json, q));
      var acc' := InsertField(acc, one.f);
      FieldInserted(acc, one.f);
      if PlainKeys(Object(acc)) && PlainKey(one.f.key) && PlainKeys(one.f.value) {
        InsertedPlain(acc, one.f);
      }
      if CharAt(json, q) == ',' {
        var q' := SkipWs(json, q + 1);
        WsWeight(json, q + 1);
        FieldsLighter(json, q', acc');
      }
    }
  }

  // ---------- exactly which values survive ----------

  /** Values the library can hold, without non-integer numbers; keys and strings are any bytes. */
  ghost predicate WellFormed(v: Value)
    decreases v
  {
    match v
    case Integer(i) => -0x8000_0000 <= i < 0x8000_0000
    case Number(_) => false
    case Str(s) => Bytes(s)
    case Array(elems) => forall i :: 0 <= i < |elems| ==> WellFormed(elems[i])
    case Object(fields) =>
      SortedFields(fields) && forall i :: 0 <= i < |fields| ==> Bytes(fields[i].key) && WellFormed(fields[i].value)
    case _ => true
  }

  lemma {:induction false} CleanWithPlainKeys(v: Value)
    requires WellFormed(v) && PlainKeys(v)
    ensures Clean(v)
    decreases v
  {
    match v
    case Array(elems) =>
      forall i | 0 <= i < |elems|
        ensures Clean(elems[i])
      {
        CleanWithPlainKeys(elems[i]);
      }
    case Object(fields) =>
      forall i | 0 <= i < |fields|
        ensures Clean(fields[i].value)
      {
        CleanWithPlainKeys(fields[i].value);
      }
    case _ =>
  }

  lemma {:induction false} WithoutNumbers(v: Value)
    requires WellFormed(v)
    ensures Numberless(v)
    decreases v
  {
    match v
    case Array(elems) =>
      forall i | 0 <= i < |elems|
        ensures Numberless(elems[i])
      {
        WithoutNumbers(elems[i]);
      }
    case Object(fields) =>
      forall i | 0 <= i < |fields|
        ensures Numberless(fields[i].value)
      {
        WithoutNumbers(fields[i].value);
      }
    case _ =>
  }

  /** Whatever its keys and strings are: a value that is read back has only plain keys. */
  lemma ReadBackMeansPlain(v: Value, n: nat)
    requires Numberless(v) && Parse(Print(v)) == Ok(v, n)
    ensures PlainKeys(v)
  {
    hide ParseValue, Print, SkipWs, Upto, State, Size;
    var json := Print(v);
    var p := SkipWs(json, 0);
    assert Upto(json, 0) == 0 && State(json, 0).Plain? by { AtStart(json); }
    WsWeight(json, 0);
    ValueLighter(json, p);
    UptoMono(json, n, |json|);
    PrintedSize(v);
  }

  lemma AtStart(json: string)
    ensures Upto(json, 0) == 0 && State(json, 0).Plain?
  {
  }

  /** A value is read back as it was printed if and only if all its keys are plain and all its strings are ASCII. */
  lemma ExactlyTheseSurvive(v: Value)
    requires WellFormed(v)
    ensures (exists n :: Parse(Print(v)) == Ok(v, n)) <==> PlainKeys(v) && AsciiStrings(v)
  {
    hide ParseValue, Print, SkipWs, Parse, WellFormed, Numberless, PlainKeys, Clean, AsciiStrings;
    WithoutNumbers(v);
    if n :| Parse(Print(v)) == Ok(v, n) {
      ReadBackMeansPlain(v, n);
    }
    if PlainKeys(v) {
      CleanWithPlainKeys(v);
      RoundTrip(v);
      AgainSame(v);
    }
  }
}
