/**
 * Which texts the JSON parser accepts, and what they mean: the grammar of RFC 8259 with all its white space, escapes
 * and numbers. The few liberties the code takes are part of the grammar here.
 */
module JsonTexts {
  import opened Json

  // ---------- strings ----------

  /** One character as it is written: plain, as a short escape, or as one or two groups of hexadecimal digits. */
  datatype Unit = Raw(c: char) | Short(e: char) | Hex4(digits: string) | Pair(high: string, low: string)

  /** Four digits, for which the code takes every letter. */
  predicate HexLike(s: string) {
    |s| == 4 && forall i :: 0 <= i < 4 ==> '0' <= s[i] <= '9' || 'A' <= s[i] <= 'Z' || 'a' <= s[i] <= 'z'
  }

  function HexCode(s: string): nat {
    match HexDigits(s, 0, 4, 0)
    case HexOk(u) => u
    case HexErr => 0
  }

  predicate GoodUnit(x: Unit) {
    match x
    case Raw(c) => c as int >= 0x20 && c != '\"' && c != '\\'
    case Short(e) => e in "\"\\/bfnrt"
    case Hex4(d) => HexLike(d) && !(0xD800 <= HexCode(d) <= 0xDBFF)
    case Pair(h, l) => HexLike(h) && HexLike(l) && 0xD800 <= HexCode(h) <= 0xDBFF && 0xDC00 <= HexCode(l) <= 0xDFFF
  }

  function UnitText(x: Unit): string {
    match x
    case Raw(c) => [c]
    case Short(e) => ['\\', e]
    case Hex4(d) => "\\u" + d
    case Pair(h, l) => "\\u" + h + ("\\u" + l)
  }

  function ShortMeaning(e: char): char {
    match e
    case 'b' => 8 as char
    case 't' => 9 as char
    case 'n' => 10 as char
    case 'f' => 12 as char
    case 'r' => 13 as char
    case _ => e
  }

  function UnitMeaning(x: Unit): string {
    match x
    case Raw(c) => [c]
    case Short(e) => [ShortMeaning(e)]
    case Hex4(d) => Utf8(HexCode(d))
    case Pair(h, l) =>
      if HexCode(h) < 0xD800 || HexCode(l) < 0xDC00 then []
      else Utf8(0x10000 + (HexCode(h) - 0xD800) * 0x400 + (HexCode(l) - 0xDC00))
  }

  function UnitsText(xs: seq<Unit>): string {
    if xs == [] then "" else UnitText(xs[0]) + UnitsText(xs[1..])
  }

  function UnitsMeaning(xs: seq<Unit>): string {
    if xs == [] then "" else UnitMeaning(xs[0]) + UnitsMeaning(xs[1..])
  }

  predicate GoodUnits(xs: seq<Unit>) { forall i :: 0 <= i < |xs| ==> GoodUnit(xs[i]) }

  function StringText(xs: seq<Unit>): string { "\"" + UnitsText(xs) + "\"" }

  lemma {:induction false} HexSame(json: string, p: nat, s: string, i: nat, n: nat, u: nat)
    requires Matches(json, p, s) && i + n <= |s|
    ensures HexDigits(json, p + i, n, u) == HexDigits(s, i, n, u)
    decreases n
  {
    hide ShiftOr;
    if n > 0 {
      MatchesAt(json, p, s, i);
      if HexVal(s[i]) >= 0 {
        HexSame(json, p, s, i + 1, n - 1, ShiftOr(u, HexVal(s[i])));
      }
    }
  }

  lemma LikeHex(s: string)
    requires |s| == 4
    ensures HexLike(s) <==> HexDigits(s, 0, 4, 0).HexOk?
  {
    hide ShiftOr;
    assert forall i :: 0 <= i < 4 ==>
             (HexVal(s[i]) >= 0 <==> '0' <= s[i] <= '9' || 'A' <= s[i] <= 'Z' || 'a' <= s[i] <= 'z');
    FourDigits(s);
  }

  lemma FourDigits(s: string)
    requires |s| == 4
    ensures HexDigits(s, 0, 4, 0).HexOk? <==> forall i :: 0 <= i < 4 ==> HexVal(s[i]) >= 0
  {
    hide ShiftOr, HexVal;
    forall u: nat
      ensures HexDigits(s, 4, 0, u).HexOk?
      ensures HexDigits(s, 3, 1, u).HexOk? <==> HexVal(s[3]) >= 0
    {
    }
    forall u: nat
      ensures HexDigits(s, 2, 2, u).HexOk? <==> HexVal(s[2]) >= 0 && HexVal(s[3]) >= 0
    {
    }
    forall u: nat
      ensures HexDigits(s, 1, 3, u).HexOk? <==> HexVal(s[1]) >= 0 && HexVal(s[2]) >= 0 && HexVal(s[3]) >= 0
    {
    }
  }

  lemma ShortRead(json: string, p: nat, e: char)
    requires GoodUnit(Short(e)) && Matches(json, p, ['\\', e])
    ensures ParseEscape(json, p + 1) == EscOk([ShortMeaning(e)], p + 2)
  {
    hide UnicodeEscape;
    MatchesAt(json, p, ['\\', e], 1);
  }

  lemma HexRead(json: string, p: nat, d: string)
    requires GoodUnit(Hex4(d)) && Matches(json, p, "\\u" + d)
    ensures |d| == 4 && ParseEscape(json, p + 1) == EscOk(UnitMeaning(Hex4(d)), p + 6)
  {
    hide HexDigits, HexLike, Utf8, HexCode, Matches;
    MatchesAt(json, p, "\\u" + d, 1);
    GroupRead(json, p, d);
  }

  lemma PairRead(json: string, p: nat, h: string, l: string)
    requires GoodUnit(Pair(h, l)) && Matches(json, p, "\\u" + h + ("\\u" + l))
    ensures |h| == |l| == 4 && ParseEscape(json, p + 1) == EscOk(UnitMeaning(Pair(h, l)), p + 12)
  {
    hide HexDigits, HexLike, Utf8, HexCode, Matches;
    HexLength(h);
    HexLength(l);
    MatchesSplit(json, p, "\\u" + h, "\\u" + l);
    MatchesAt(json, p, "\\u" + h, 1);
    MatchesAt(json, p + 6, "\\u" + l, 0);
    MatchesAt(json, p + 6, "\\u" + l, 1);
    GroupRead(json, p, h);
    GroupRead(json, p + 6, l);
  }

  /** A unit is read as what it means. */
  lemma UnitRead(json: string, p: nat, x: Unit, acc: string)
    requires GoodUnit(x) && p <= |json| && Matches(json, p, UnitText(x))
    ensures p + |UnitText(x)| <= |json|
    ensures ParseChars(json, p, acc) == ParseChars(json, p + |UnitText(x)|, acc + UnitMeaning(x))
  {
    hide ParseEscape, HexLike, Utf8, HexCode, UnitMeaning, ShortMeaning;
    UnitStarts(x);
    MatchesAt(json, p, UnitText(x), 0);
    match x
    case Raw(c) => assert UnitMeaning(x) == [c] by { RawMeans(c); }
    case Short(e) =>
      ShortRead(json, p, e);
      ShortMeans(e);
    case Hex4(d) => HexRead(json, p, d);
    case Pair(h, l) => PairRead(json, p, h, l);
  }

  lemma RawMeans(c: char)
    ensures UnitMeaning(Raw(c)) == [c]
  {
  }

  lemma ShortMeans(e: char)
    ensures UnitMeaning(Short(e)) == [ShortMeaning(e)]
  {
  }

  lemma UnitStarts(x: Unit)
    ensures UnitText(x) != "" && (!x.Raw? ==> UnitText(x)[0] == '\\')
  {
  }

  /** The four digits behind \u. */
  lemma GroupRead(json: string, p: nat, d: string)
    requires HexLike(d) && Matches(json, p, "\\u" + d)
    ensures |d| == 4 && HexDigits(json, p + 2, 4, 0) == HexOk(HexCode(d))
  {
    hide HexDigits, HexLike;
    MatchesSplit(json, p, "\\u", d);
    HexLength(d);
    LikeHex(d);
    HexSame(json, p + 2, d, 0, 4, 0);
  }

  lemma HexLength(d: string)
    requires HexLike(d)
    ensures |d| == 4
  {
  }

  /** And the other way round: an escape that is read was written as a unit. */
  lemma EscapeOf(json: string, p: nat) returns (x: Unit)
    requires CharAt(json, p) == '\\' && ParseEscape(json, p + 1).EscOk?
    ensures GoodUnit(x) && Matches(json, p, UnitText(x)) && !x.Raw?
  {
    hide HexDigits, HexLike, Utf8, HexCode, Matches;
    if CharAt(json, p + 1) != 'u' {
      x := Short(CharAt(json, p + 1));
      TwoChars(json, p);
    } else {
      var d := GroupOf(json, p);
      if 0xD800 <= HexCode(d) <= 0xDBFF {
        var l := GroupOf(json, p + 6);
        x := Pair(d, l);
        HexLength(d);
        MatchesSplit(json, p, "\\u" + d, "\\u" + l);
      } else {
        x := Hex4(d);
      }
    }
  }

  lemma TwoChars(json: string, p: nat)
    requires CharAt(json, p) == '\\' && CharAt(json, p + 1) != '\0'
    ensures Matches(json, p, ['\\', CharAt(json, p + 1)])
  {
    assert json[p..p + 2] == ['\\', json[p + 1]];
  }

  lemma UnitOf(json: string, p: nat, acc: string) returns (x: Unit)
    requires p <= |json| && ParseChars(json, p, acc).CharsOk? && CharAt(json, p) != '\"'
    ensures GoodUnit(x) && Matches(json, p, UnitText(x)) && UnitText(x) != ""
  {
    hide ParseEscape, HexLike, HexCode;
    if CharAt(json, p) == '\\' {
      x := EscapeOf(json, p);
    } else {
      x := Raw(CharAt(json, p));
      assert json[p..p + 1] == [json[p]];
    }
    UnitStarts(x);
  }

  lemma GroupOf(json: string, p: nat) returns (d: string)
    requires CharAt(json, p) == '\\' && CharAt(json, p + 1) == 'u' && HexDigits(json, p + 2, 4, 0).HexOk?
    ensures HexLike(d) && Matches(json, p, "\\u" + d) && HexDigits(json, p + 2, 4, 0) == HexOk(HexCode(d))
  {
    hide HexDigits, HexLike;
    HexStays(json, p + 2, 4, 0);
    d := json[p + 2..p + 6];
    assert json[p..p + 6] == "\\u" + d;
    MatchesSplit(json, p, "\\u", d);
    HexSame(json, p + 2, d, 0, 4, 0);
    LikeHex(d);
  }

  lemma {:induction false} UnitsRead(json: string, p: nat, xs: seq<Unit>, acc: string)
    requires GoodUnits(xs) && p <= |json| && Matches(json, p, UnitsText(xs))
    ensures ParseChars(json, p, acc) == ParseChars(json, p + |UnitsText(xs)|, acc + UnitsMeaning(xs))
    decreases |xs|
  {
    hide ParseChars, UnitText, UnitMeaning, GoodUnit, Matches;
    if xs == [] {
      assert acc + "" == acc;
    } else {
      var x := xs[0];
      MatchesSplit(json, p, UnitText(x), UnitsText(xs[1..]));
      UnitRead(json, p, x, acc);
      UnitsRead(json, p + |UnitText(x)|, xs[1..], acc + UnitMeaning(x));
      assert acc + (UnitMeaning(x) + UnitsMeaning(xs[1..])) == acc + UnitMeaning(x) + UnitsMeaning(xs[1..]);
    }
  }

  /** A string in quotation marks is read as what it means. */
  lemma StringRead(json: string, p: nat, xs: seq<Unit>)
    requires GoodUnits(xs) && Matches(json, p, StringText(xs))
    ensures p < |json| && json[p] == '\"'
    ensures ParseString(json, p) == Ok(Str(UnitsMeaning(xs)), p + |StringText(xs)|)
  {
    hide ParseChars, UnitsText, UnitsMeaning, GoodUnit;
    assert StringText(xs) == "\"" + (UnitsText(xs) + "\"");
    MatchesSplit(json, p, "\"", UnitsText(xs) + "\"");
    MatchesSplit(json, p + 1, UnitsText(xs), "\"");
    MatchesAt(json, p, StringText(xs), 0);
    UnitsRead(json, p + 1, xs, "");
    MatchesAt(json, p + 1 + |UnitsText(xs)|, "\"", 0);
    QuoteEnds(json, p + 1 + |UnitsText(xs)|, UnitsMeaning(xs));
    assert "" + UnitsMeaning(xs) == UnitsMeaning(xs);
  }

  lemma {:induction false} UnitsOf(json: string, p: nat, acc: string) returns (xs: seq<Unit>)
    requires p <= |json| && ParseChars(json, p, acc).CharsOk?
    ensures GoodUnits(xs) && Matches(json, p, UnitsText(xs) + "\"")
    ensures ParseChars(json, p, acc) == CharsOk(acc + UnitsMeaning(xs), p + |UnitsText(xs)| + 1)
    decreases |json| - p
  {
    hide ParseChars, UnitText, UnitMeaning, GoodUnit;
    if CharAt(json, p) == '\"' {
      xs := [];
      NoUnits();
      QuoteEnds(json, p, acc);
      assert json[p..p + 1] == "\"" && "" + "\"" == "\"" && acc + "" == acc;
    } else {
      var x := UnitOf(json, p, acc);
      UnitRead(json, p, x, acc);
      var rest := UnitsOf(json, p + |UnitText(x)|, acc + UnitMeaning(x));
      xs := [x] + rest;
      assert xs[1..] == rest;
      MatchesSplit(json, p, UnitText(x), UnitsText(rest) + "\"");
      assert UnitsText(xs) + "\"" == UnitText(x) + (UnitsText(rest) + "\"");
      assert acc + UnitMeaning(x) + UnitsMeaning(rest) == acc + UnitsMeaning(xs);
    }
  }

  lemma NoUnits()
    ensures UnitsText([]) == "" && UnitsMeaning([]) == ""
  {
  }

  lemma StringOf(json: string, p: nat) returns (xs: seq<Unit>)
    requires p < |json| && json[p] == '\"' && ParseString(json, p).Ok?
    ensures GoodUnits(xs) && Matches(json, p, StringText(xs))
    ensures ParseString(json, p) == Ok(Str(UnitsMeaning(xs)), p + |StringText(xs)|)
  {
    hide ParseChars, UnitsText, UnitsMeaning, GoodUnit;
    xs := UnitsOf(json, p + 1, "");
    assert json[p..p + 1] == "\"";
    assert StringText(xs) == "\"" + (UnitsText(xs) + "\"");
    MatchesSplit(json, p, "\"", UnitsText(xs) + "\"");
    assert "" + UnitsMeaning(xs) == UnitsMeaning(xs);
  }

  // ---------- what an escape stands for ----------

  /** The scalar value that section 3 of RFC 3629 gives to a whole sequence of octets. */
  function Utf8Value(s: string): nat {
    if |s| == 1 && s[0] as int < 0x80 then s[0] as int
    else if |s| == 2 && 0xC0 <= s[0] as int < 0xE0 && Tail(s[1]) then (s[0] as int - 0xC0) * 0x40 + Bits6(s[1])
    else if |s| == 3 && 0xE0 <= s[0] as int < 0xF0 && Tail(s[1]) && Tail(s[2]) then
      (s[0] as int - 0xE0) * 0x1000 + Bits6(s[1]) * 0x40 + Bits6(s[2])
    else if |s| == 4 && 0xF0 <= s[0] as int < 0xF8 && Tail(s[1]) && Tail(s[2]) && Tail(s[3]) then
      (s[0] as int - 0xF0) * 0x4_0000 + Bits6(s[1]) * 0x1000 + Bits6(s[2]) * 0x40 + Bits6(s[3])
    else 0x11_0000
  }

  predicate Tail(c: char) { 0x80 <= c as int < 0xC0 }

  function Bits6(c: char): nat
    requires Tail(c)
  {
    c as int - 0x80
  }

  /** The shortest form, as that section demands. */
  function Utf8Length(u: nat): nat {
    if u < 0x80 then 1 else if u < 0x800 then 2 else if u < 0x1_0000 then 3 else 4
  }

  lemma Utf8Decodes(u: nat)
    requires u <= 0x10_FFFF
    ensures Utf8Value(Utf8(u)) == u && |Utf8(u)| == Utf8Length(u)
  {
    hide Utf8, Utf8Value;
    if u < 0x800 {
      Utf8Short(u);
    } else if u < 0x1_0000 {
      Utf8Three(u);
    } else {
      Utf8Four(u);
    }
  }

  lemma Utf8Short(u: nat)
    requires u < 0x800
    ensures Utf8Value(Utf8(u)) == u && |Utf8(u)| == Utf8Length(u)
  {
  }

  lemma Utf8Three(u: nat)
    requires 0x800 <= u < 0x1_0000
    ensures Utf8Value(Utf8(u)) == u && |Utf8(u)| == 3
  {
    SixBits(u);
  }

  lemma Utf8Four(u: nat)
    requires 0x1_0000 <= u <= 0x10_FFFF
    ensures Utf8Value(Utf8(u)) == u && |Utf8(u)| == 4
  {
    SixBits(u);
  }

  lemma SixBits(u: nat)
    requires u <= 0x10_FFFF
    ensures u / 4096 == u / 64 / 64 && u / 262144 == u / 64 / 64 / 64
    ensures u == u / 64 * 64 + u % 64 && u / 64 == u / 4096 * 64 + u / 64 % 64
    ensures u / 4096 == u / 262144 * 64 + u / 4096 % 64 && u / 262144 < 8
  {
  }

  /** The digits of RFC 8259, and what four of them stand for. */
  function Sixteen(c: char): int {
    if '0' <= c <= '9' then c as int - 0x30
    else if 'A' <= c <= 'F' then c as int - 0x41 + 10
    else if 'a' <= c <= 'f' then c as int - 0x61 + 10
    else -1
  }

  predicate IsHex(s: string) {
    |s| == 4 && Sixteen(s[0]) >= 0 && Sixteen(s[1]) >= 0 && Sixteen(s[2]) >= 0 && Sixteen(s[3]) >= 0
  }

  function HexNumber(s: string): nat
    requires IsHex(s)
  {
    Sixteen(s[0]) * 0x1000 + Sixteen(s[1]) * 0x100 + Sixteen(s[2]) * 0x10 + Sixteen(s[3])
  }

  lemma HexMeans(s: string)
    requires IsHex(s)
    ensures HexLike(s) && HexCode(s) == HexNumber(s) < 0x1_0000
  {
    hide HexLike, HexVal, Sixteen, ShiftOr;
    DigitMeans(s[0]);
    DigitMeans(s[1]);
    DigitMeans(s[2]);
    DigitMeans(s[3]);
    var a, b, c, d := Sixteen(s[0]), Sixteen(s[1]), Sixteen(s[2]), Sixteen(s[3]);
    Shifted(0, a);
    Shifted(a, b);
    Shifted(16 * a + b, c);
    Shifted(16 * (16 * a + b) + c, d);
    var n := HexNumber(s);
    assert HexDigits(s, 4, 0, n) == HexOk(n);
    assert HexDigits(s, 3, 1, 16 * (16 * a + b) + c) == HexOk(n);
    assert HexDigits(s, 2, 2, 16 * a + b) == HexOk(n);
    assert HexDigits(s, 1, 3, a) == HexOk(n);
    LikeHex(s);
  }

  lemma DigitMeans(c: char)
    requires Sixteen(c) >= 0
    ensures HexVal(c) == Sixteen(c) < 16
  {
  }

  lemma Shifted(u: nat, d: nat)
    requires d < 16
    ensures ShiftOr(u, d) == 16 * u + d
  {
  }

  /**
   * Any scalar value, written as one group of hexadecimal digits or as the two groups of section 7 of RFC 8259, is read
   * as the octets that stand for it in UTF-8, in the shortest form.
   */
  lemma EscapedScalar(x: Unit, u: nat)
    requires u <= 0x10_FFFF && !(0xD800 <= u <= 0xDFFF)
    requires match x
             case Hex4(d) => IsHex(d) && HexNumber(d) == u
             case Pair(h, l) =>
               && IsHex(h) && IsHex(l) && 0xD800 <= HexNumber(h) <= 0xDBFF && 0xDC00 <= HexNumber(l) <= 0xDFFF
               && u == 0x1_0000 + (HexNumber(h) - 0xD800) * 0x400 + (HexNumber(l) - 0xDC00)
             case _ => false
    ensures GoodUnit(x) && Utf8Value(UnitMeaning(x)) == u && |UnitMeaning(x)| == Utf8Length(u)
  {
    hide Utf8, HexCode, HexNumber, Utf8Value, HexLike, IsHex;
    Utf8Decodes(u);
    match x
    case Hex4(d) => HexMeans(d);
    case Pair(h, l) =>
      HexMeans(h);
      HexMeans(l);
    case _ =>
  }

  /** Half of a pair: a low half alone is read as three octets that are no UTF-8, a high half alone is refused. */
  lemma HalfPair(json: string, d: string, acc: string)
    requires IsHex(d) && 0xD800 <= HexNumber(d) <= 0xDFFF && Matches(json, 0, "\\u" + d)
    ensures HexNumber(d) >= 0xDC00 ==>
              && ParseChars(json, 0, acc) == ParseChars(json, 6, acc + Utf8(HexNumber(d))) && 6 <= |json|
              && Utf8Value(Utf8(HexNumber(d))) == HexNumber(d)
    ensures HexNumber(d) < 0xDC00 && !(CharAt(json, 6) == '\\' && CharAt(json, 7) == 'u') ==>
              ParseChars(json, 0, acc) == CharsErr(InvalidUnicodeSurrogate)
  {
    hide Utf8, HexCode, HexDigits, HexNumber, Utf8Value, HexLike, IsHex, Matches;
    HexMeans(d);
    Utf8Decodes(HexNumber(d));
    HexLength(d);
    if HexNumber(d) >= 0xDC00 {
      UnitRead(json, 0, Hex4(d), acc);
    } else {
      GroupRead(json, 0, d);
      MatchesAt(json, 0, "\\u" + d, 0);
      MatchesAt(json, 0, "\\u" + d, 1);
    }
  }

  // ---------- numbers ----------

  /** The parts of a number: sign, integer part, fraction with its point, exponent with its letter. */
  datatype Num = Num(neg: bool, whole: string, frac: string, exp: string)

  predicate AllDigits(s: string) { forall i :: 0 <= i < |s| ==> '0' <= s[i] <= '9' }

  predicate GoodNum(n: Num) {
    && n.whole != "" && AllDigits(n.whole) && (n.whole[0] == '0' ==> n.whole == "0")
    && GoodFrac(n.frac) && GoodExp(n.exp)
  }

  predicate GoodFrac(s: string) { s == "" || (s[0] == '.' && |s| > 1 && AllDigits(s[1..])) }

  /** Where the digits of an exponent begin. */
  function PastSign(s: string): nat { if |s| > 1 && (s[1] == '+' || s[1] == '-') then 2 else 1 }

  predicate GoodExp(s: string) {
    s == "" || ((s[0] == 'e' || s[0] == 'E') && |s| > PastSign(s) && AllDigits(s[PastSign(s)..]))
  }

  function SignText(neg: bool): string { if neg then "-" else "" }

  function NumText(n: Num): string { SignText(n.neg) + (n.whole + (n.frac + n.exp)) }

  /** A character behind the number that is no part of it. */
  predicate NumStops(n: Num, c: char) {
    if n.exp != "" then !('0' <= c <= '9')
    else if n.frac != "" then !('0' <= c <= '9') && c != 'e' && c != 'E'
    else c != '.' && c != 'e' && c != 'E' && (n.whole == "0" || !('0' <= c <= '9'))
  }

  predicate IsInteger(n: Num) { n.frac == "" && n.exp == "" }

  function IntegerOfNum(n: Num): int { if n.neg then 0 - NumberOf(n.whole) else NumberOf(n.whole) }

  /** Integers of 64 bits are accepted, and cut to 32 bits. */
  predicate Fits(n: Num) {
    IsInteger(n) ==> -0x8000_0000_0000_0000 <= IntegerOfNum(n) < 0x8000_0000_0000_0000
  }

  function NumMeaning(n: Num): Value {
    if IsInteger(n) then Integer(ToInt32(IntegerOfNum(n))) else Number(NumText(n))
  }

  /** The only 32-bit number that differs from n by a multiple of 2^32. */
  lemma CutTo32(n: int, m: int)
    ensures m == ToInt32(n) <==> -0x8000_0000 <= m < 0x8000_0000 && (n - m) % 0x1_0000_0000 == 0
  {
  }

  lemma {:induction false} SkipDigitsAre(json: string, p: nat)
    requires p <= |json|
    ensures var q := SkipDigits(json, p);
            (forall i :: p <= i < q ==> '0' <= json[i] <= '9') && !('0' <= CharAt(json, q) <= '9')
    decreases |json| - p
  {
    if IsDigit(CharAt(json, p)) {
      SkipDigitsAre(json, p + 1);
    }
  }

  /** Digits, and then none. */
  lemma DigitsSkipped(json: string, p: nat, s: string)
    requires p <= |json| && Matches(json, p, s) && AllDigits(s) && !('0' <= CharAt(json, p + |s|) <= '9')
    ensures SkipDigits(json, p) == p + |s|
  {
    forall i | p <= i < p + |s|
      ensures IsDigit(json[i])
    {
      MatchesAt(json, p, s, i - p);
    }
    SkipsDigits(json, p, |s|);
  }

  /** One digit and more. */
  lemma SomeDigitsRead(json: string, p: nat, s: string)
    requires p <= |json| && s != "" && Matches(json, p, s) && AllDigits(s) && !('0' <= CharAt(json, p + |s|) <= '9')
    ensures SomeDigits(json, p) == (true, p + |s|)
  {
    hide SkipDigits, Matches;
    assert s == [s[0]] + s[1..];
    MatchesAt(json, p, s, 0);
    MatchesSplit(json, p, [s[0]], s[1..]);
    DigitsSkipped(json, p + 1, s[1..]);
  }

  lemma WholeRead(json: string, p: nat, neg: bool, s: string)
    requires p <= |json| && s != "" && AllDigits(s) && (s[0] == '0' ==> s == "0") && Matches(json, p, SignText(neg) + s)
    requires s == "0" || !('0' <= CharAt(json, p + |SignText(neg) + s|) <= '9')
    ensures IntegerPart(json, p) == (true, p + |SignText(neg) + s|)
  {
    hide SkipDigits, Matches;
    var t := p + |SignText(neg)|;
    MatchesSplit(json, p, SignText(neg), s);
    MatchesAt(json, t, s, 0);
    if neg {
      MatchesAt(json, p, SignText(neg), 0);
    }
    if s != "0" {
      assert s == [s[0]] + s[1..];
      MatchesSplit(json, t, [s[0]], s[1..]);
      DigitsSkipped(json, t + 1, s[1..]);
    }
  }

  lemma FracRead(json: string, p: nat, s: string)
    requires p <= |json| && GoodFrac(s) && Matches(json, p, s)
    requires if s == "" then CharAt(json, p) != '.' else !('0' <= CharAt(json, p + |s|) <= '9')
    ensures Fraction(json, p) == (true, p + |s|)
  {
    hide SomeDigits, Matches;
    if s != "" {
      assert s == "." + s[1..];
      MatchesAt(json, p, s, 0);
      MatchesSplit(json, p, ".", s[1..]);
      SomeDigitsRead(json, p + 1, s[1..]);
    }
  }

  lemma ExpRead(json: string, p: nat, s: string)
    requires p <= |json| && GoodExp(s) && Matches(json, p, s)
    requires s == "" ==> CharAt(json, p) != 'e' && CharAt(json, p) != 'E'
    requires s != "" ==> !('0' <= CharAt(json, p + |s|) <= '9')
    ensures Exponent(json, p) == (true, p + |s|)
  {
    hide SomeDigits, Matches;
    if s != "" {
      var k := PastSign(s);
      assert s == s[..k] + s[k..];
      MatchesAt(json, p, s, 0);
      MatchesAt(json, p, s, 1);
      MatchesSplit(json, p, s[..k], s[k..]);
      SomeDigitsRead(json, p + k, s[k..]);
    }
  }

  lemma NumTextParts(json: string, p: nat, n: Num)
    requires GoodNum(n) && p <= |json| && Matches(json, p, NumText(n))
    ensures var a := p + |SignText(n.neg) + n.whole|;
            && Matches(json, p, SignText(n.neg) + n.whole) && Matches(json, a, n.frac)
            && Matches(json, a + |n.frac|, n.exp) && a + |n.frac| + |n.exp| == p + |NumText(n)| <= |json|
            && (n.frac != "" ==> CharAt(json, a) == '.')
            && (n.exp != "" ==> CharAt(json, a + |n.frac|) == 'e' || CharAt(json, a + |n.frac|) == 'E')
  {
    hide Matches, SignText, GoodNum;
    var head := SignText(n.neg) + n.whole;
    assert NumText(n) == head + (n.frac + n.exp);
    MatchesSplit(json, p, head, n.frac + n.exp);
    MatchesSplit(json, p + |head|, n.frac, n.exp);
    MatchEnds(json, p, NumText(n));
    FirstChars(n);
    if n.frac != "" {
      MatchesAt(json, p + |head|, n.frac, 0);
    }
    if n.exp != "" {
      MatchesAt(json, p + |head| + |n.frac|, n.exp, 0);
    }
  }

  lemma MatchEnds(json: string, p: nat, t: string)
    requires Matches(json, p, t)
    ensures p + |t| <= |json|
  {
  }

  lemma OneMatches(json: string, p: nat, c: char)
    requires CharAt(json, p) == c != '\0'
    ensures p < |json| && Matches(json, p, [c])
  {
    assert json[p..p + 1] == [c];
  }

  lemma FirstChars(n: Num)
    requires GoodNum(n)
    ensures n.frac != "" ==> n.frac[0] == '.'
    ensures n.exp != "" ==> n.exp[0] == 'e' || n.exp[0] == 'E'
  {
  }

  /** A number is read as what it means, or refused as too big. */
  lemma NumRead(json: string, p: nat, n: Num)
    requires GoodNum(n) && p <= |json| && Matches(json, p, NumText(n)) && NumStops(n, CharAt(json, p + |NumText(n)|))
    ensures ParseNumber(json, p) == if Fits(n) then Ok(NumMeaning(n), p + |NumText(n)|) else Err(NumberTooBig, p)
  {
    hide IntegerPart, Fraction, Exponent, ToInt32, NumberOf, SignedOf, GoodFrac, GoodExp, AllDigits, SignText, Matches,
         NumText, IsInteger;
    NumTextParts(json, p, n);
    var a := p + |SignText(n.neg) + n.whole|;
    WholeRead(json, p, n.neg, n.whole);
    FracRead(json, a, n.frac);
    ExpRead(json, a + |n.frac|, n.exp);
    SignedText(n);
    WholeMatched(json, p, n, a);
  }

  /** The text itself, and when there is more than an integer part. */
  lemma WholeMatched(json: string, p: nat, n: Num, a: nat)
    requires Matches(json, p, NumText(n)) && Matches(json, p, SignText(n.neg) + n.whole)
    requires a == p + |SignText(n.neg) + n.whole|
    ensures a <= |json| && json[p..a] == SignText(n.neg) + n.whole
    ensures p + |NumText(n)| <= |json| && json[p..p + |NumText(n)|] == NumText(n)
    ensures IsInteger(n) <==> p + |NumText(n)| == a
    ensures p + |NumText(n)| == a + |n.frac| + |n.exp|
  {
    hide SignText;
  }

  lemma SignedText(n: Num)
    requires GoodNum(n)
    ensures SignedOf(SignText(n.neg) + n.whole) == IntegerOfNum(n)
  {
    hide NumberOf;
    if n.neg {
      assert (SignText(n.neg) + n.whole)[1..] == n.whole;
    } else {
      assert SignText(n.neg) + n.whole == n.whole;
    }
  }

  lemma SomeDigitsOf(json: string, p: nat) returns (s: string)
    requires p <= |json| && SomeDigits(json, p).0
    ensures s != "" && AllDigits(s) && Matches(json, p, s) && SomeDigits(json, p).1 == p + |s|
    ensures !('0' <= CharAt(json, p + |s|) <= '9')
  {
    SkipDigitsAre(json, p + 1);
    s := json[p..SkipDigits(json, p + 1)];
  }

  lemma WholeOf(json: string, p: nat) returns (neg: bool, s: string)
    requires p <= |json| && IntegerPart(json, p).0
    ensures s != "" && AllDigits(s) && (s[0] == '0' ==> s == "0") && Matches(json, p, SignText(neg) + s)
    ensures IntegerPart(json, p).1 == p + |SignText(neg) + s|
    ensures s == "0" || !('0' <= CharAt(json, p + |SignText(neg) + s|) <= '9')
  {
    neg := CharAt(json, p) == '-';
    var t := if neg then p + 1 else p;
    if CharAt(json, t) == '0' {
      s := "0";
      OneMatches(json, t, '0');
    } else {
      SkipDigitsAre(json, t + 1);
      s := json[t..SkipDigits(json, t + 1)];
    }
    if neg {
      OneMatches(json, p, '-');
    }
    MatchesSplit(json, p, SignText(neg), s);
  }

  lemma FracOf(json: string, p: nat) returns (s: string)
    requires p <= |json| && Fraction(json, p).0
    ensures GoodFrac(s) && Matches(json, p, s) && Fraction(json, p).1 == p + |s|
    ensures if s == "" then CharAt(json, p) != '.' else !('0' <= CharAt(json, p + |s|) <= '9')
  {
    hide SomeDigits;
    if CharAt(json, p) == '.' {
      var d := SomeDigitsOf(json, p + 1);
      s := "." + d;
      assert json[p..p + 1] == ".";
      MatchesSplit(json, p, ".", d);
      assert s[1..] == d;
    } else {
      s := "";
    }
  }

  lemma ExpOf(json: string, p: nat) returns (s: string)
    requires p <= |json| && Exponent(json, p).0
    ensures GoodExp(s) && Matches(json, p, s) && Exponent(json, p).1 == p + |s|
    ensures s == "" ==> CharAt(json, p) != 'e' && CharAt(json, p) != 'E'
    ensures s != "" ==> !('0' <= CharAt(json, p + |s|) <= '9')
  {
    hide SomeDigits;
    if CharAt(json, p) == 'e' || CharAt(json, p) == 'E' {
      var q := if CharAt(json, p + 1) == '+' || CharAt(json, p + 1) == '-' then p + 2 else p + 1;
      var d := SomeDigitsOf(json, q);
      var head := json[p..q];
      s := head + d;
      MatchesSplit(json, p, head, d);
      assert q == p + 1 ==> s[1] == d[0];
      assert s[PastSign(s)..] == d;
    } else {
      s := "";
    }
  }

  lemma NumOf(json: string, p: nat) returns (n: Num)
    requires p <= |json| && ParseNumber(json, p).Ok?
    ensures GoodNum(n) && Fits(n) && Matches(json, p, NumText(n)) && NumStops(n, CharAt(json, p + |NumText(n)|))
    ensures ParseNumber(json, p) == Ok(NumMeaning(n), p + |NumText(n)|)
  {
    hide IntegerPart, Fraction, Exponent, GoodFrac, GoodExp, ToInt32, NumberOf, Matches, SignText, NumStops, AllDigits,
         NumMeaning;
    var neg, whole := WholeOf(json, p);
    var a := p + |SignText(neg) + whole|;
    var frac := FracOf(json, a);
    var exp := ExpOf(json, a + |frac|);
    n := Num(neg, whole, frac, exp);
    assert NumText(n) == SignText(neg) + whole + (frac + exp);
    MatchesSplit(json, p, SignText(neg) + whole, frac + exp);
    MatchesSplit(json, a, frac, exp);
    StopsThere(json, a, n);
    NumRead(json, p, n);
    assert Fits(n);
  }

  lemma StopsThere(json: string, a: nat, n: Num)
    requires GoodNum(n) && Matches(json, a, n.frac) && Matches(json, a + |n.frac|, n.exp)
    requires n.whole == "0" || !('0' <= CharAt(json, a) <= '9')
    requires if n.frac == "" then CharAt(json, a) != '.' else !('0' <= CharAt(json, a + |n.frac|) <= '9')
    requires var c := CharAt(json, a + |n.frac|);
             if n.exp == "" then c != 'e' && c != 'E' else !('0' <= CharAt(json, a + |n.frac| + |n.exp|) <= '9')
    ensures NumStops(n, CharAt(json, a + |n.frac| + |n.exp|))
  {
  }

  // ---------- white space ----------

  /** Blanks, tabs, line feeds and carriage returns. */
  predicate IsBlank(s: string) {
    forall i :: 0 <= i < |s| ==> s[i] as int in {0x20, 0x09, 0x0A, 0x0D}
  }

  lemma {:induction false} Skipped(json: string, p: nat, g: string)
    requires p <= |json| && IsBlank(g) && Matches(json, p, g) && !IsBlank([CharAt(json, p + |g|)])
    ensures SkipWs(json, p) == p + |g|
    decreases |g|
  {
    if g == [] {
      assert !IsWs(CharAt(json, p)) by {
        assert [CharAt(json, p)][0] == CharAt(json, p);
      }
    } else {
      MatchesAt(json, p, g, 0);
      assert g == [g[0]] + g[1..];
      MatchesSplit(json, p, [g[0]], g[1..]);
      Skipped(json, p + 1, g[1..]);
    }
  }

  lemma {:induction false} GapOf(json: string, p: nat) returns (g: string)
    requires p <= |json|
    ensures IsBlank(g) && Matches(json, p, g) && SkipWs(json, p) == p + |g| && !IsBlank([CharAt(json, p + |g|)])
    decreases |json| - p
  {
    if IsWs(CharAt(json, p)) {
      var rest := GapOf(json, p + 1);
      g := [json[p]] + rest;
      OneMatches(json, p, json[p]);
      MatchesSplit(json, p, [json[p]], rest);
    } else {
      g := "";
      assert [CharAt(json, p)][0] == CharAt(json, p);
    }
  }

  // ---------- values ----------

  /** A value as it is written, with all white space: behind opening brackets, around commas and colons. */
  datatype Doc =
    | DNull
    | DBool(b: bool)
    | DNum(n: Num)
    | DStr(units: seq<Unit>)
    | DArr(open: string, elems: seq<Elem>)
    | DObj(open: string, members: seq<Member>)

  /** An element, what is between it and the comma or bracket, and what is behind the comma. */
  datatype Elem = Elem(doc: Doc, after: string, ahead: string)

  datatype Member = Member(key: seq<Unit>, before: string, behind: string, doc: Doc, after: string, ahead: string)

  function Text(d: Doc): string
    decreases d, 0
  {
    match d
    case DNull => "null"
    case DBool(b) => if b then "true" else "false"
    case DNum(n) => NumText(n)
    case DStr(units) => StringText(units)
    case DArr(open, elems) => "[" + (open + (ElemsText(elems) + "]"))
    case DObj(open, members) => "{" + (open + (MembersText(members) + "}"))
  }

  function ElemsText(es: seq<Elem>): string
    decreases es, 1
  {
    if es == [] then ""
    else Text(es[0].doc) + (es[0].after + if |es| == 1 then "" else "," + (es[0].ahead + ElemsText(es[1..])))
  }

  function MembersText(ms: seq<Member>): string
    decreases ms, 1
  {
    if ms == [] then ""
    else MemberText(ms[0]) + (ms[0].after + if |ms| == 1 then "" else "," + (ms[0].ahead + MembersText(ms[1..])))
  }

  function MemberText(m: Member): string
    decreases m, 1
  {
    StringText(m.key) + (m.before + (":" + (m.behind + Text(m.doc))))
  }

  predicate Good(d: Doc)
    decreases d, 0
  {
    match d
    case DNull => true
    case DBool(_) => true
    case DNum(n) => GoodNum(n) && Fits(n)
    case DStr(units) => GoodUnits(units)
    case DArr(open, elems) => IsBlank(open) && GoodElems(elems)
    case DObj(open, members) => IsBlank(open) && GoodMembers(members)
  }

  predicate GoodElems(es: seq<Elem>)
    decreases es, 1
  {
    es != [] ==> Good(es[0].doc) && IsBlank(es[0].after) && IsBlank(es[0].ahead) && GoodElems(es[1..])
  }

  predicate GoodMembers(ms: seq<Member>)
    decreases ms, 1
  {
    ms != [] ==> GoodMember(ms[0]) && GoodMembers(ms[1..])
  }

  predicate GoodMember(m: Member)
    decreases m, 1
  {
    && GoodUnits(m.key) && Good(m.doc)
    && IsBlank(m.before) && IsBlank(m.behind) && IsBlank(m.after) && IsBlank(m.ahead)
  }

  /** What the text means: of several members with the same key the first one counts. */
  function Meaning(d: Doc): Value
    decreases d, 0
  {
    match d
    case DNull => Null
    case DBool(b) => Bool(b)
    case DNum(n) => NumMeaning(n)
    case DStr(units) => Str(UnitsMeaning(units))
    case DArr(_, elems) => Array(ElemsMeaning(elems))
    case DObj(_, members) => Object(MembersMeaning([], members))
  }

  function ElemsMeaning(es: seq<Elem>): seq<Value>
    decreases es, 1
  {
    if es == [] then [] else [Meaning(es[0].doc)] + ElemsMeaning(es[1..])
  }

  function MembersMeaning(acc: seq<Field>, ms: seq<Member>): seq<Field>
    decreases ms, 1
  {
    if ms == [] then acc else MembersMeaning(InsertField(acc, MemberMeaning(ms[0])), ms[1..])
  }

  function MemberMeaning(m: Member): Field
    decreases m, 1
  {
    Field(UnitsMeaning(m.key), Meaning(m.doc))
  }

  /** A character behind the text that is no part of it. */
  predicate Stops(d: Doc, c: char) { d.DNum? ==> NumStops(d.n, c) }

  /** What stands behind a value in brackets stops it. */
  predicate Delimits(c: char) { c == ',' || c == ']' || c == '}' || c == ':' || IsBlank([c]) }

  lemma DelimiterStops(d: Doc, c: char)
    requires Delimits(c)
    ensures Stops(d, c)
  {
    assert [c][0] == c;
  }

  lemma SignIsNoBlank(c: char)
    requires c == ',' || c == ']' || c == '}' || c == ':' || c == '\"' || c == '-' || '0' <= c <= '9'
             || c == '[' || c == '{' || c == 'n' || c == 't' || c == 'f'
    ensures !IsBlank([c])
  {
    assert [c][0] == c;
  }

  lemma NumFirst(n: Num)
    requires GoodNum(n)
    ensures NumText(n) != "" && (NumText(n)[0] == '-' || '0' <= NumText(n)[0] <= '9')
  {
  }

  lemma DocFirst(d: Doc)
    requires Good(d)
    ensures Text(d) != "" && !IsBlank([Text(d)[0]]) && Text(d)[0] != ']' && Text(d)[0] != '}'
  {
    hide UnitsText, ElemsText, MembersText, NumText, IsBlank;
    if d.DNum? {
      NumFirst(d.n);
    }
    SignIsNoBlank(Text(d)[0]);
  }

  lemma DispatchDoc(json: string, p: nat, d: Doc)
    requires Good(d) && p <= |json| && Matches(json, p, Text(d))
    ensures p < |json|
    ensures d.DNum? ==> ParseValue(json, p) == ParseNumber(json, p)
    ensures d.DStr? ==> json[p] == '\"' && ParseValue(json, p) == ParseString(json, p)
    ensures d.DArr? ==> json[p] == '[' && ParseValue(json, p) == ParseArray(json, p)
    ensures d.DObj? ==> json[p] == '{' && ParseValue(json, p) == ParseObject(json, p)
    ensures d.DNull? || d.DBool? ==> ParseValue(json, p) == Ok(Meaning(d), p + |Text(d)|)
  {
    hide UnitsText, ElemsText, MembersText, NumText, ParseArray, ParseObject, ParseNumber, ParseString, Good, GoodNum;
    DocFirst(d);
    MatchesAt(json, p, Text(d), 0);
    if d.DNum? {
      GoodNumber(d);
      NumFirst(d.n);
    }
  }

  lemma GoodNumber(d: Doc)
    requires Good(d) && d.DNum?
    ensures GoodNum(d.n) && Fits(d.n)
  {
  }

  // ---------- every such text is read ----------

  /** White space, and then something else. */
  lemma GapThen(json: string, p: nat, g: string, rest: string)
    requires p <= |json| && IsBlank(g) && rest != "" && !IsBlank([rest[0]]) && Matches(json, p, g + rest)
    ensures p + |g| < |json| && SkipWs(json, p) == p + |g| && Matches(json, p + |g|, rest)
    ensures CharAt(json, p + |g|) == rest[0] && (IsBlank([CharAt(json, p)]) || CharAt(json, p) == rest[0])
  {
    hide SkipWs;
    MatchesSplit(json, p, g, rest);
    MatchesAt(json, p + |g|, rest, 0);
    Skipped(json, p, g);
    MatchesAt(json, p, g + rest, 0);
    if g != "" {
      assert [g[0]][0] == g[0];
    }
  }

  /** What stands behind an element or a member: white space and the closing bracket, or a comma and more. */
  function After(after: string, last: bool, ahead: string, more: string, close: string): string {
    after + if last then close else "," + (ahead + more)
  }

  lemma ChainRead(json: string, p: nat, head: string, after: string, last: bool, ahead: string, more: string,
                  close: string)
    requires p <= |json| && IsBlank(after) && IsBlank(ahead) && (close == "]" || close == "}")
    requires !last ==> more != "" && !IsBlank([more[0]])
    requires Matches(json, p, head + After(after, last, ahead, more, close))
    ensures Matches(json, p, head)
    ensures var next := p + |head|; var q := next + |after|;
            && next <= |json| && Delimits(CharAt(json, next)) && SkipWs(json, next) == q < |json|
            && CharAt(json, q) == (if last then close[0] else ',')
            && (!last ==> SkipWs(json, q + 1) == q + 1 + |ahead| <= |json| && Matches(json, q + 1 + |ahead|, more))
  {
    hide SkipWs, Matches, IsBlank;
    var next := p + |head|;
    var rest := if last then close else "," + (ahead + more);
    MatchesSplit(json, p, head, after + rest);
    MatchEnds(json, p, head);
    SignIsNoBlank(rest[0]);
    GapThen(json, next, after, rest);
    if !last {
      MatchesSplit(json, next + |after|, ",", ahead + more);
      GapThen(json, next + |after| + 1, ahead, more);
    }
  }

  /** And the other way round. */
  lemma ChainOf(json: string, p: nat, head: string, after: string, last: bool, ahead: string, more: string,
                close: string)
    requires (close == "]" || close == "}") && Matches(json, p, head) && Matches(json, p + |head|, after)
    requires CharAt(json, p + |head| + |after|) == if last then close[0] else ','
    requires !last ==> Matches(json, p + |head| + |after| + 1, ahead)
                       && Matches(json, p + |head| + |after| + 1 + |ahead|, more)
    ensures Matches(json, p, head + After(after, last, ahead, more, close))
  {
    hide Matches;
    var q := p + |head| + |after|;
    var rest := if last then close else "," + (ahead + more);
    if last {
      OneMatches(json, q, close[0]);
      assert close == [close[0]];
    } else {
      OneMatches(json, q, ',');
      MatchesSplit(json, q + 1, ahead, more);
      MatchesSplit(json, q, ",", ahead + more);
    }
    MatchesSplit(json, p + |head|, after, rest);
    MatchesSplit(json, p, head, after + rest);
  }

  function MoreElems(es: seq<Elem>): string { ElemsText(es) + "]" }

  /** The text of the first element and what follows it. */
  lemma FirstElem(es: seq<Elem>)
    requires es != []
    ensures MoreElems(es) == Text(es[0].doc) + After(es[0].after, |es| == 1, es[0].ahead, MoreElems(es[1..]), "]")
    ensures |MoreElems(es)| == |Text(es[0].doc)| + |es[0].after| + 1
                               + if |es| == 1 then 0 else |es[0].ahead| + |MoreElems(es[1..])|
    ensures |MoreElems(es)| == |ElemsText(es)| + 1
  {
    hide Text;
  }

  lemma OneElem(json: string, p: nat, acc: seq<Value>, v: Value, next: nat)
    requires p < next <= |json| && ParseValue(json, p) == Ok(v, next)
    ensures var q := SkipWs(json, next);
            ParseElems(json, p, acc) ==
            if CharAt(json, q) == ',' then ParseElems(json, SkipWs(json, q + 1), acc + [v])
            else if CharAt(json, q) == ']' then Ok(Array(acc + [v]), q + 1)
            else Err(MissCommaOrSquareBracket, q)
  {
    hide ParseValue, SkipWs;
  }

  lemma ElemsMean(acc: seq<Value>, es: seq<Elem>)
    requires es != []
    ensures acc + ElemsMeaning(es) == (acc + [Meaning(es[0].doc)]) + ElemsMeaning(es[1..])
    ensures |es| == 1 ==> acc + ElemsMeaning(es) == acc + [Meaning(es[0].doc)]
  {
    hide Meaning;
    assert acc + ([Meaning(es[0].doc)] + ElemsMeaning(es[1..])) == (acc + [Meaning(es[0].doc)]) + ElemsMeaning(es[1..]);
  }

  lemma FirstOfElems(es: seq<Elem>)
    requires es != [] && GoodElems(es)
    ensures MoreElems(es) != "" && !IsBlank([MoreElems(es)[0]]) && MoreElems(es)[0] != ']'
    ensures Good(es[0].doc) && IsBlank(es[0].after) && IsBlank(es[0].ahead) && GoodElems(es[1..])
  {
    hide Text, Good, IsBlank;
    DocFirst(es[0].doc);
  }

  /** A good text is read as what it means, wherever it stands. */
  lemma {:induction false} ValueRead(d: Doc, json: string, p: nat)
    requires Good(d) && p <= |json| && Matches(json, p, Text(d)) && Stops(d, CharAt(json, p + |Text(d)|))
    ensures p + |Text(d)| <= |json| && ParseValue(json, p) == Ok(Meaning(d), p + |Text(d)|)
    decreases d, 1
  {
    hide Matches, ParseValue, ParseArray, ParseObject, ParseNumber, ParseString, NumStops, GoodNum, Fits, NumText,
         NumMeaning, UnitsText, UnitsMeaning, ElemsText, MembersText, ElemsMeaning, MembersMeaning, GoodElems,
         GoodMembers, IsBlank, GoodUnits;
    MatchEnds(json, p, Text(d));
    DispatchDoc(json, p, d);
    match d
    case DNull =>
    case DBool(_) =>
    case DNum(n) => NumRead(json, p, n);
    case DStr(units) => StringRead(json, p, units);
    case DArr(_, _) => ArrayRead(d, json, p);
    case DObj(_, _) => ObjectRead(d, json, p);
  }

  lemma {:induction false} ArrayRead(d: Doc, json: string, p: nat)
    requires d.DArr? && Good(d) && p < |json| && Matches(json, p, Text(d))
    ensures ParseArray(json, p) == Ok(Meaning(d), p + |Text(d)|)
    decreases d, 0
  {
    hide Matches, SkipWs, ParseElems, ElemsText, ElemsMeaning, GoodElems, IsBlank;
    var es := d.elems;
    var rest := MoreElems(es);
    assert Text(d) == "[" + (d.open + rest);
    MatchesSplit(json, p, "[", d.open + rest);
    if es == [] {
      Nothing();
      assert rest == "]";
      SignIsNoBlank(']');
    } else {
      FirstOfElems(es);
    }
    GapThen(json, p + 1, d.open, rest);
    if es != [] {
      ElemsRead(es, json, p + 1 + |d.open|, []);
      assert [] + ElemsMeaning(es) == ElemsMeaning(es);
    }
  }

  lemma Nothing()
    ensures ElemsText([]) == MembersText([]) == "" && ElemsMeaning([]) == [] && MembersMeaning([], []) == []
  {
  }

  lemma {:induction false} ElemsRead(es: seq<Elem>, json: string, p: nat, acc: seq<Value>)
    requires es != [] && GoodElems(es) && p <= |json| && Matches(json, p, MoreElems(es))
    ensures ParseElems(json, p, acc) == Ok(Array(acc + ElemsMeaning(es)), p + |MoreElems(es)|)
    decreases es, 0
  {
    hide Matches, SkipWs, ParseElems, ParseValue, MoreElems, ElemsText, Text, Meaning, ElemsMeaning, Good, GoodElems,
         IsBlank, Stops, Delimits, After;
    var e := es[0];
    var next := p + |Text(e.doc)|;
    FirstOfElems(es);
    FirstElem(es);
    if |es| > 1 {
      FirstOfElems(es[1..]);
    }
    ChainRead(json, p, Text(e.doc), e.after, |es| == 1, e.ahead, MoreElems(es[1..]), "]");
    DelimiterStops(e.doc, CharAt(json, next));
    ValueRead(e.doc, json, p);
    OneElem(json, p, acc, Meaning(e.doc), next);
    ElemsMean(acc, es);
    if |es| > 1 {
      ElemsRead(es[1..], json, next + |e.after| + 1 + |e.ahead|, acc + [Meaning(e.doc)]);
    }
  }

  lemma {:induction false} ObjectRead(d: Doc, json: string, p: nat)
    requires d.DObj? && Good(d) && p < |json| && Matches(json, p, Text(d))
    ensures ParseObject(json, p) == Ok(Meaning(d), p + |Text(d)|)
    decreases d, 0
  {
    hide Matches, SkipWs, ParseFields, MembersText, MembersMeaning, GoodMembers, IsBlank;
    var ms := d.members;
    var rest := MoreMembers(ms);
    assert Text(d) == "{" + (d.open + rest);
    MatchesSplit(json, p, "{", d.open + rest);
    if ms == [] {
      Nothing();
      assert rest == "}";
      SignIsNoBlank('}');
    } else {
      FirstOfMembers(ms);
    }
    GapThen(json, p + 1, d.open, rest);
    if ms != [] {
      MembersRead(ms, json, p + 1 + |d.open|, []);
    }
  }

  lemma FirstOfMembers(ms: seq<Member>)
    requires ms != []
    ensures MoreMembers(ms) != "" && !IsBlank([MoreMembers(ms)[0]]) && MoreMembers(ms)[0] == '\"'
  {
    hide MemberText, IsBlank;
    SignIsNoBlank('\"');
    MemberStarts(ms[0]);
  }

  lemma MemberStarts(m: Member)
    ensures MemberText(m) != "" && MemberText(m)[0] == '\"'
  {
    hide Text, UnitsText;
  }

  function MoreMembers(ms: seq<Member>): string { MembersText(ms) + "}" }

  lemma FirstMember(ms: seq<Member>)
    requires ms != []
    ensures MoreMembers(ms) == MemberText(ms[0]) + After(ms[0].after, |ms| == 1, ms[0].ahead, MoreMembers(ms[1..]), "}")
    ensures |MoreMembers(ms)| == |MemberText(ms[0])| + |ms[0].after| + 1
                                 + if |ms| == 1 then 0 else |ms[0].ahead| + |MoreMembers(ms[1..])|
    ensures |MoreMembers(ms)| == |MembersText(ms)| + 1
  {
    hide MemberText;
  }

  lemma FirstIsGood(ms: seq<Member>)
    requires ms != [] && GoodMembers(ms)
    ensures GoodMember(ms[0]) && IsBlank(ms[0].after) && IsBlank(ms[0].ahead) && GoodMembers(ms[1..])
  {
    hide Good, IsBlank, GoodUnits;
  }

  lemma OneMember(json: string, p: nat, acc: seq<Field>, f: Field, next: nat)
    requires p < next <= |json| && ParseField(json, p) == FieldOk(f, next)
    ensures var q := SkipWs(json, next);
            ParseFields(json, p, acc) ==
            if CharAt(json, q) == '}' then Ok(Object(InsertField(acc, f)), q + 1)
            else if CharAt(json, q) == ',' then ParseFields(json, SkipWs(json, q + 1), InsertField(acc, f))
            else Err(MissCommaOrCurlyBracket, q)
  {
    hide ParseField, SkipWs, InsertField;
  }

  lemma {:induction false} MemberRead(m: Member, json: string, p: nat)
    requires GoodMember(m) && p <= |json| && Matches(json, p, MemberText(m))
    requires Stops(m.doc, CharAt(json, p + |MemberText(m)|))
    ensures p + |MemberText(m)| <= |json|
    ensures ParseField(json, p) == FieldOk(MemberMeaning(m), p + |MemberText(m)|)
    decreases m, 0
  {
    hide Matches, SkipWs, ParseString, ParseValue, Text, Meaning, StringText, UnitsMeaning, Good, IsBlank, Stops,
         GoodUnits;
    MatchEnds(json, p, MemberText(m));
    var rest := ":" + (m.behind + Text(m.doc));
    MatchesSplit(json, p, StringText(m.key), m.before + rest);
    StringRead(json, p, m.key);
    var next := p + |StringText(m.key)|;
    SignIsNoBlank(':');
    GapThen(json, next, m.before, rest);
    var q := next + |m.before|;
    MatchesSplit(json, q, ":", m.behind + Text(m.doc));
    DocFirst(m.doc);
    GapThen(json, q + 1, m.behind, Text(m.doc));
    ValueRead(m.doc, json, q + 1 + |m.behind|);
  }

  lemma {:induction false} MembersRead(ms: seq<Member>, json: string, p: nat, acc: seq<Field>)
    requires ms != [] && GoodMembers(ms) && p <= |json| && Matches(json, p, MoreMembers(ms))
    ensures ParseFields(json, p, acc) == Ok(Object(MembersMeaning(acc, ms)), p + |MoreMembers(ms)|)
    decreases ms, 0
  {
    hide Matches, SkipWs, ParseFields, ParseField, MoreMembers, MembersText, MemberText, MemberMeaning, InsertField,
         GoodMember, GoodMembers, IsBlank, Stops, Delimits, After, MembersMeaning;
    var m := ms[0];
    var next := p + |MemberText(m)|;
    FirstIsGood(ms);
    FirstMember(ms);
    if |ms| > 1 {
      FirstOfMembers(ms[1..]);
    }
    ChainRead(json, p, MemberText(m), m.after, |ms| == 1, m.ahead, MoreMembers(ms[1..]), "}");
    DelimiterStops(m.doc, CharAt(json, next));
    MemberRead(m, json, p);
    OneMember(json, p, acc, MemberMeaning(m), next);
    MembersMean(acc, ms);
    if |ms| > 1 {
      MembersRead(ms[1..], json, next + |m.after| + 1 + |m.ahead|, InsertField(acc, MemberMeaning(m)));
    }
  }

  lemma MembersMean(acc: seq<Field>, ms: seq<Member>)
    requires ms != []
    ensures var more := InsertField(acc, MemberMeaning(ms[0]));
            && MembersMeaning(acc, ms) == MembersMeaning(more, ms[1..])
            && (|ms| == 1 ==> MembersMeaning(acc, ms) == more)
  {
    hide InsertField, MemberMeaning;
    assert |ms| == 1 ==> ms[1..] == [];
  }

  // ---------- and nothing else ----------

  lemma NumFollows(json: string, p: nat)
    requires p <= |json| && ParseValue(json, p).Ok?
    ensures var c := CharAt(json, p);
            if c == '\"' then p < |json| && ParseValue(json, p) == ParseString(json, p)
            else if c == '[' then p < |json| && ParseValue(json, p) == ParseArray(json, p)
            else if c == '{' then p < |json| && ParseValue(json, p) == ParseObject(json, p)
            else if c == 't' then Matches(json, p, "true")
            else if c == 'f' then Matches(json, p, "false")
            else if c == 'n' then Matches(json, p, "null")
            else ParseValue(json, p) == ParseNumber(json, p)
  {
    hide ParseArray, ParseObject, ParseString, ParseNumber;
  }

  /** A value that is read was written as a good text. */
  lemma {:induction false} DocOf(json: string, p: nat) returns (d: Doc)
    requires p <= |json| && ParseValue(json, p).Ok?
    ensures Good(d) && Matches(json, p, Text(d)) && Stops(d, CharAt(json, p + |Text(d)|))
    decreases |json| - p, 1
  {
    hide Matches, ParseValue, ParseArray, ParseObject, ParseNumber, ParseString, NumStops, GoodNum, Fits, NumText,
         NumMeaning, UnitsText, UnitsMeaning, ElemsText, MembersText, ElemsMeaning, MembersMeaning, GoodElems,
         GoodMembers, IsBlank, GoodUnits, StringText;
    NumFollows(json, p);
    match CharAt(json, p)
    case '\"' =>
      var units := StringOf(json, p);
      d := DStr(units);
    case '[' => d := ArrayOf(json, p);
    case '{' => d := ObjectOf(json, p);
    case 't' => d := DBool(true);
    case 'f' => d := DBool(false);
    case 'n' => d := DNull;
    case _ =>
      var n := NumOf(json, p);
      d := DNum(n);
  }

  lemma {:induction false} ArrayOf(json: string, p: nat) returns (d: Doc)
    requires p < |json| && json[p] == '[' && ParseArray(json, p).Ok?
    ensures d.DArr? && Good(d) && Matches(json, p, Text(d))
    decreases |json| - p, 0
  {
    hide Matches, SkipWs, ParseElems, ElemsText, GoodElems, IsBlank;
    OneMatches(json, p, '[');
    var open := GapOf(json, p + 1);
    MatchEnds(json, p + 1, open);
    var q := p + 1 + |open|;
    if CharAt(json, q) == ']' {
      d := DArr(open, []);
      NoGood();
      OneMatches(json, q, ']');
      Nothing();
      assert ElemsText([]) + "]" == "]";
    } else {
      var es := ElemsOf(json, q, []);
      d := DArr(open, es);
    }
    var rest := MoreElems(d.elems);
    assert Text(d) == "[" + (open + rest);
    MatchesSplit(json, p + 1, open, rest);
    MatchesSplit(json, p, "[", open + rest);
  }

  lemma NoGood()
    ensures GoodElems([]) && GoodMembers([])
  {
  }

  lemma {:induction false} ElemsOf(json: string, p: nat, acc: seq<Value>) returns (es: seq<Elem>)
    requires p <= |json| && ParseElems(json, p, acc).Ok?
    ensures es != [] && GoodElems(es) && Matches(json, p, MoreElems(es))
    decreases |json| - p, 2
  {
    hide Matches, SkipWs, ParseElems, ParseValue, MoreElems, ElemsText, Text, Meaning, Good, GoodElems, IsBlank, Stops,
         After;
    ElemThere(json, p, acc);
    var d := DocOf(json, p);
    ValueRead(d, json, p);
    var next := p + |Text(d)|;
    OneElem(json, p, acc, Meaning(d), next);
    var after := GapOf(json, next);
    MatchEnds(json, next, after);
    var q := next + |after|;
    var ahead, rest := "", [];
    NothingBlank();
    NoGood();
    if CharAt(json, q) == ',' {
      CharInside(json, q);
      ahead := GapOf(json, q + 1);
      MatchEnds(json, q + 1, ahead);
      rest := ElemsOf(json, q + 1 + |ahead|, acc + [Meaning(d)]);
    }
    es := [Elem(d, after, ahead)] + rest;
    assert es[1..] == rest;
    FirstElem(es);
    GoodFirst(es);
    ChainOf(json, p, Text(d), after, |es| == 1, ahead, MoreElems(es[1..]), "]");
  }

  lemma CharInside(json: string, p: nat)
    requires CharAt(json, p) != '\0'
    ensures p < |json|
  {
  }

  lemma GoodFirst(es: seq<Elem>)
    requires es != [] && Good(es[0].doc) && IsBlank(es[0].after) && IsBlank(es[0].ahead) && GoodElems(es[1..])
    ensures GoodElems(es)
  {
    hide Good, IsBlank;
  }

  lemma NothingBlank()
    ensures IsBlank("")
  {
  }

  lemma ElemThere(json: string, p: nat, acc: seq<Value>)
    requires p <= |json| && ParseElems(json, p, acc).Ok?
    ensures ParseValue(json, p).Ok?
  {
    hide ParseValue, SkipWs;
  }

  lemma {:induction false} ObjectOf(json: string, p: nat) returns (d: Doc)
    requires p < |json| && json[p] == '{' && ParseObject(json, p).Ok?
    ensures d.DObj? && Good(d) && Matches(json, p, Text(d))
    decreases |json| - p, 0
  {
    hide Matches, SkipWs, ParseFields, MembersText, GoodMembers, IsBlank;
    OneMatches(json, p, '{');
    var open := GapOf(json, p + 1);
    MatchEnds(json, p + 1, open);
    var q := p + 1 + |open|;
    if CharAt(json, q) == '}' {
      d := DObj(open, []);
      NoGood();
      OneMatches(json, q, '}');
      Nothing();
      assert MembersText([]) + "}" == "}";
    } else {
      var ms := MembersOf(json, q, []);
      d := DObj(open, ms);
    }
    var rest := MoreMembers(d.members);
    assert Text(d) == "{" + (open + rest);
    MatchesSplit(json, p + 1, open, rest);
    MatchesSplit(json, p, "{", open + rest);
  }

  lemma FieldThere(json: string, p: nat)
    requires p <= |json| && ParseField(json, p).FieldOk?
    ensures p < |json| && json[p] == '\"' && ParseString(json, p).Ok?
    ensures var q := SkipWs(json, ParseString(json, p).next);
            CharAt(json, q) == ':' && ParseValue(json, SkipWs(json, q + 1)).Ok?
  {
    hide ParseValue, SkipWs, ParseString;
  }

  /** A key, a colon and a value; the white space behind it is still to come. */
  lemma {:induction false} MemberOf(json: string, p: nat) returns (m: Member)
    requires p <= |json| && ParseField(json, p).FieldOk?
    ensures m.after == m.ahead == "" && GoodMember(m) && Matches(json, p, MemberText(m))
    ensures Stops(m.doc, CharAt(json, p + |MemberText(m)|))
    decreases |json| - p, 2
  {
    hide Matches, SkipWs, ParseString, ParseValue, ParseField, Text, StringText, UnitsMeaning, Good, IsBlank, Stops,
         GoodUnits;
    FieldThere(json, p);
    var key := StringOf(json, p);
    var next := p + |StringText(key)|;
    var before := GapOf(json, next);
    MatchEnds(json, next, before);
    var q := next + |before|;
    OneMatches(json, q, ':');
    var behind := GapOf(json, q + 1);
    MatchEnds(json, q + 1, behind);
    var d := DocOf(json, q + 1 + |behind|);
    m := Member(key, before, behind, d, "", "");
    NothingBlank();
    MatchesSplit(json, q + 1, behind, Text(d));
    MatchesSplit(json, q, ":", behind + Text(d));
    MatchesSplit(json, next, before, ":" + (behind + Text(d)));
    MatchesSplit(json, p, StringText(key), before + (":" + (behind + Text(d))));
  }

  lemma SameMember(m: Member, after: string, ahead: string)
    requires GoodMember(m) && IsBlank(after) && IsBlank(ahead)
    ensures var n := m.(after := after, ahead := ahead);
            GoodMember(n) && MemberText(n) == MemberText(m) && MemberMeaning(n) == MemberMeaning(m)
  {
    hide IsBlank;
  }

  lemma MemberThere(json: string, p: nat, acc: seq<Field>)
    requires p <= |json| && ParseFields(json, p, acc).Ok?
    ensures ParseField(json, p).FieldOk?
  {
    hide ParseField, SkipWs, InsertField;
  }

  lemma {:induction false} MembersOf(json: string, p: nat, acc: seq<Field>) returns (ms: seq<Member>)
    requires p <= |json| && ParseFields(json, p, acc).Ok?
    ensures ms != [] && GoodMembers(ms) && Matches(json, p, MoreMembers(ms))
    decreases |json| - p, 3
  {
    hide Matches, SkipWs, ParseFields, ParseField, MoreMembers, MembersText, MemberText, MemberMeaning, InsertField,
         IsBlank, Stops, GoodMember, GoodMembers, After;
    MemberThere(json, p, acc);
    var m := MemberOf(json, p);
    MemberRead(m, json, p);
    var next := p + |MemberText(m)|;
    OneMember(json, p, acc, MemberMeaning(m), next);
    var after := GapOf(json, next);
    MatchEnds(json, next, after);
    var q := next + |after|;
    var ahead, rest := "", [];
    NothingBlank();
    NoGood();
    if CharAt(json, q) == ',' {
      CharInside(json, q);
      ahead := GapOf(json, q + 1);
      MatchEnds(json, q + 1, ahead);
      rest := MembersOf(json, q + 1 + |ahead|, InsertField(acc, MemberMeaning(m)));
    }
    SameMember(m, after, ahead);
    ms := [m.(after := after, ahead := ahead)] + rest;
    assert ms[1..] == rest;
    FirstMember(ms);
    GoodFirstMember(ms);
    ChainOf(json, p, MemberText(m), after, |ms| == 1, ahead, MoreMembers(ms[1..]), "}");
  }

  lemma GoodFirstMember(ms: seq<Member>)
    requires ms != [] && GoodMember(ms[0]) && GoodMembers(ms[1..])
    ensures GoodMembers(ms)
  {
    hide GoodMember;
  }

  /** White space, a good text, and behind it something that is no part of it. */
  predicate IsTextOf(json: string, lead: string, d: Doc) {
    IsBlank(lead) && Good(d) && Matches(json, 0, lead + Text(d)) && Stops(d, CharAt(json, |lead| + |Text(d)|))
  }

  lemma TextIsRead(json: string, lead: string, d: Doc)
    requires IsTextOf(json, lead, d)
    ensures Parse(json) == Ok(Meaning(d), |lead| + |Text(d)|)
  {
    hide Matches, SkipWs, ParseValue, Text, Good, IsBlank, Stops, Meaning;
    assert lead + Text(d) == lead + (Text(d) + "");
    DocFirst(d);
    GapThen(json, 0, lead, Text(d));
    ValueRead(d, json, |lead|);
  }

  lemma TextOf(json: string) returns (lead: string, d: Doc)
    requires Parse(json).Ok?
    ensures IsTextOf(json, lead, d)
  {
    hide Matches, ParseValue, Text, Good, IsBlank, Stops, SkipWs;
    lead := GapOf(json, 0);
    d := DocOf(json, SkipWs(json, 0));
    MatchesSplit(json, 0, lead, Text(d));
  }

  /** Exactly the good texts are accepted, with what they mean and where they end. */
  lemma AcceptsExactly(json: string, v: Value, n: nat)
    ensures Parse(json) == Ok(v, n) <==>
            exists lead, d :: IsTextOf(json, lead, d) && v == Meaning(d) && n == |lead| + |Text(d)|
  {
    hide IsTextOf, Parse, Meaning, Text;
    forall lead, d | IsTextOf(json, lead, d)
      ensures Parse(json) == Ok(Meaning(d), |lead| + |Text(d)|)
    {
      TextIsRead(json, lead, d);
    }
    if Parse(json) == Ok(v, n) {
      var lead, d := TextOf(json);
      assert IsTextOf(json, lead, d);
    }
  }

  // ---------- white space does not matter ----------

  /** The same text without any white space. */
  function Dense(d: Doc): Doc
    decreases d, 0
  {
    match d
    case DArr(_, elems) => DArr("", DenseElems(elems))
    case DObj(_, members) => DObj("", DenseMembers(members))
    case _ => d
  }

  function DenseElems(es: seq<Elem>): seq<Elem>
    decreases es, 1
  {
    if es == [] then [] else [Elem(Dense(es[0].doc), "", "")] + DenseElems(es[1..])
  }

  function DenseMembers(ms: seq<Member>): seq<Member>
    decreases ms, 1
  {
    if ms == [] then [] else [DenseMember(ms[0])] + DenseMembers(ms[1..])
  }

  function DenseMember(m: Member): Member
    decreases m, 1
  {
    Member(m.key, "", "", Dense(m.doc), "", "")
  }

  lemma {:induction false} DenseMeans(d: Doc)
    ensures Good(d) ==> Good(Dense(d))
    ensures Meaning(Dense(d)) == Meaning(d)
    decreases d, 0
  {
    hide GoodUnits, GoodNum, Fits, NumMeaning, UnitsMeaning, IsBlank, DenseElems, DenseMembers, GoodElems, GoodMembers,
         ElemsMeaning, MembersMeaning;
    NothingBlank();
    match d
    case DArr(_, elems) => DenseElemsMean(elems);
    case DObj(_, members) => DenseMembersMean(members, []);
    case _ =>
  }

  lemma {:induction false} DenseElemsMean(es: seq<Elem>)
    ensures GoodElems(es) ==> GoodElems(DenseElems(es))
    ensures ElemsMeaning(DenseElems(es)) == ElemsMeaning(es)
    decreases es, 1
  {
    hide Good, Dense, Meaning, IsBlank;
    NothingBlank();
    if es != [] {
      DenseMeans(es[0].doc);
      DenseElemsMean(es[1..]);
      assert DenseElems(es)[1..] == DenseElems(es[1..]);
    }
  }

  lemma {:induction false} DenseMembersMean(ms: seq<Member>, acc: seq<Field>)
    ensures GoodMembers(ms) ==> GoodMembers(DenseMembers(ms))
    ensures MembersMeaning(acc, DenseMembers(ms)) == MembersMeaning(acc, ms)
    decreases ms, 1
  {
    hide Good, Dense, Meaning, IsBlank, InsertField, GoodUnits, UnitsMeaning;
    NothingBlank();
    if ms != [] {
      DenseMeans(ms[0].doc);
      DenseMembersMean(ms[1..], InsertField(acc, MemberMeaning(ms[0])));
      DenseMemberGood(ms[0]);
      assert DenseMembers(ms)[1..] == DenseMembers(ms[1..]);
    }
  }

  lemma DenseMemberGood(m: Member)
    requires Good(m.doc) ==> Good(Dense(m.doc))
    ensures GoodMember(m) ==> GoodMember(DenseMember(m))
  {
    hide Good, Dense, IsBlank, GoodUnits;
    NothingBlank();
  }

  /** A text and the same text without white space are both accepted, and give the same value. */
  lemma SpacesDoNotMatter(lead: string, d: Doc)
    requires IsBlank(lead) && Good(d)
    ensures var tight := Text(Dense(d));
            && Parse(lead + Text(d)) == Ok(Meaning(d), |lead + Text(d)|)
            && Parse(tight) == Ok(Meaning(d), |tight|)
  {
    hide Parse, Text, Good, Dense, Meaning, IsBlank;
    DenseMeans(d);
    NothingBlank();
    WholeText(lead, d);
    WholeText("", Dense(d));
    assert "" + Text(Dense(d)) == Text(Dense(d));
  }

  lemma WholeText(lead: string, d: Doc)
    requires IsBlank(lead) && Good(d)
    ensures Parse(lead + Text(d)) == Ok(Meaning(d), |lead + Text(d)|)
  {
    hide Parse, Text, Good, Dense, Meaning, IsBlank, NumStops;
    var json := lead + Text(d);
    assert json[0..|json|] == json;
    assert Stops(d, '\0') by { NullStops(d); }
    TextIsRead(json, lead, d);
  }

  lemma NullStops(d: Doc)
    ensures Stops(d, '\0')
  {
  }

  /** A printed value with any white space between its parts is read as what the printed text itself gives. */
  lemma SpacedPrint(v: Value, lead: string, d: Doc)
    requires Clean(v) && IsBlank(lead) && Good(d) && Text(Dense(d)) == Print(v)
    ensures Parse(lead + Text(d)) == Ok(Again(v), |lead + Text(d)|)
  {
    hide Parse, Text, Good, Dense, Meaning, IsBlank, Clean, Again, Print, AsciiStrings;
    SpacesDoNotMatter(lead, d);
    RoundTrip(v);
  }

  /** Every printed value is such a text without white space. */
  lemma PrintedIsText(v: Value) returns (d: Doc)
    requires Clean(v)
    ensures Good(d) && Text(d) == Print(v) && Meaning(d) == Again(v)
  {
    hide Parse, Text, Good, Dense, Meaning, Clean, Again, Print, AsciiStrings, SkipWs, Stops;
    RoundTrip(v);
    var lead;
    lead, d := TextOf(Print(v));
    TextIsRead(Print(v), lead, d);
    FirstChar(v);
    if lead != "" {
      MatchesAt(Print(v), 0, lead + Text(d), 0);
    }
    assert lead + Text(d) == Text(d);
    assert Print(v)[0..|Print(v)|] == Print(v);
  }

  // ---------- objects ----------

  /** The order of byte strings: the first difference decides, and the end comes before any byte. */
  lemma {:induction false} LessMeans(a: string, b: string)
    ensures Less(a, b) <==> exists i: nat :: FirstDifference(a, b, i)
  {
    if a != [] && b != [] && a[0] == b[0] {
      LessMeans(a[1..], b[1..]);
      forall i: nat | FirstDifference(a[1..], b[1..], i)
        ensures FirstDifference(a, b, i + 1)
      {
        assert a[..i + 1] == [a[0]] + a[1..][..i] && b[..i + 1] == [b[0]] + b[1..][..i];
      }
      forall i: nat | FirstDifference(a, b, i)
        ensures i > 0 && FirstDifference(a[1..], b[1..], i - 1)
      {
        assert a[1..][..i - 1] == a[..i][1..] && b[1..][..i - 1] == b[..i][1..];
      }
    } else if Less(a, b) {
      assert FirstDifference(a, b, 0);
    } else {
      forall i: nat | FirstDifference(a, b, i)
        ensures false
      {
        SameStart(a, b, i);
      }
    }
  }

  lemma SameStart(a: string, b: string, i: nat)
    requires FirstDifference(a, b, i)
    ensures i > 0 ==> a != [] && b != [] && a[0] == b[0]
  {
    if i > 0 {
      assert a[0] == a[..i][0] && b[0] == b[..i][0];
    }
  }

  predicate FirstDifference(a: string, b: string, i: nat) {
    i <= |a| && i < |b| && a[..i] == b[..i] && (i == |a| || a[i] < b[i])
  }

  lemma {:induction false} LessTotal(a: string, b: string)
    ensures a == b || Less(a, b) || Less(b, a)
  {
    if a != [] && b != [] && a[0] == b[0] {
      LessTotal(a[1..], b[1..]);
      assert a == [a[0]] + a[1..] && b == [b[0]] + b[1..];
    }
  }

  lemma {:induction false} LessTransitive(a: string, b: string, c: string)
    requires Less(a, b) && Less(b, c)
    ensures Less(a, c)
  {
    if a != [] && a[0] == b[0] == c[0] {
      LessTransitive(a[1..], b[1..], c[1..]);
    }
  }

  /** A field is added if its key is new, at its place; otherwise nothing changes. */
  lemma {:induction false} Inserted(fields: seq<Field>, f: Field)
    requires SortedFields(fields)
    ensures SortedFields(InsertField(fields, f))
    ensures forall x :: x in InsertField(fields, f) <==> x in fields || (x == f && !HasKey(fields, f.key))
  {
    hide Less;
    if fields != [] {
      var first, rest := fields[0], fields[1..];
      assert fields == [first] + rest;
      LessTotal(f.key, first.key);
      if f.key != first.key && Less(f.key, first.key) {
        forall i | 0 <= i < |fields|
          ensures Less(f.key, fields[i].key) && fields[i].key != f.key
        {
          if i > 0 {
            LessTransitive(f.key, first.key, fields[i].key);
          }
          LessAsymmetric(f.key, fields[i].key);
        }
      } else if f.key != first.key {
        Inserted(rest, f);
        var more := InsertField(rest, f);
        assert HasKey(fields, f.key) <==> HasKey(rest, f.key) by {
          forall i | 0 <= i < |rest|
            ensures fields[i + 1] == rest[i]
          {
          }
        }
        forall i | 0 <= i < |more|
          ensures Less(first.key, more[i].key)
        {
          assert more[i] in more;
        }
      }
    }
  }

  /** The member at i is the first one with its key. */
  predicate FirstWithKey(ms: seq<Member>, i: nat) {
    i < |ms| && forall j :: 0 <= j < i ==> UnitsMeaning(ms[j].key) != UnitsMeaning(ms[i].key)
  }

  /** An object holds, sorted by key, the first member of every key and nothing else. */
  lemma FirstMembersCount(ms: seq<Member>, x: Field)
    ensures SortedFields(MembersMeaning([], ms))
    ensures x in MembersMeaning([], ms) <==> exists i: nat :: FirstWithKey(ms, i) && x == MemberMeaning(ms[i])
  {
    MembersHeld([], ms, x);
  }

  lemma {:induction false} MembersHeld(acc: seq<Field>, ms: seq<Member>, x: Field)
    requires SortedFields(acc)
    ensures SortedFields(MembersMeaning(acc, ms))
    ensures x in MembersMeaning(acc, ms) <==>
            x in acc || (!HasKey(acc, x.key) && exists i: nat :: FirstWithKey(ms, i) && x == MemberMeaning(ms[i]))
    decreases |ms|
  {
    hide InsertField, SortedFields, Meaning, UnitsMeaning;
    if ms != [] {
      var f := MemberMeaning(ms[0]);
      var more := InsertField(acc, f);
      Inserted(acc, f);
      MembersHeld(more, ms[1..], x);
      KeysNow(acc, f, x.key);
      if f.key == x.key {
        assert FirstWithKey(ms, 0);
        forall i: nat | FirstWithKey(ms, i) && x == MemberMeaning(ms[i])
          ensures i == 0
        {
        }
      } else {
        forall i: nat | FirstWithKey(ms[1..], i) && x.key == UnitsMeaning(ms[1..][i].key)
          ensures FirstWithKey(ms, i + 1)
        {
        }
      }
    }
  }

  lemma KeysNow(acc: seq<Field>, f: Field, k: string)
    requires SortedFields(acc)
    ensures HasKey(InsertField(acc, f), k) <==> HasKey(acc, k) || f.key == k
  {
    hide InsertField, SortedFields;
    Inserted(acc, f);
    var more := InsertField(acc, f);
    if HasKey(more, k) {
      var i :| 0 <= i < |more| && more[i].key == k;
      assert more[i] in more;
    }
    if HasKey(acc, k) || f.key == k {
      InsertKeeps(acc, f, k);
    }
  }

  // ---------- how the printer writes ----------

  predicate HasShort(c: char) { exists e :: GoodUnit(Short(e)) && ShortMeaning(e) == c }

  /**
   * A character is written with its short escape if there is one, a control character with four digits otherwise, and
   * any other ASCII character as it is. Bytes from 128 on all become the same escape.
   */
  lemma WrittenAs(c: char)
    requires c as int < 256
    ensures forall e :: GoodUnit(Short(e)) && ShortMeaning(e) == c ==> PrintChar(c) == UnitText(Short(e))
    ensures !HasShort(c) && c as int < 0x20 ==>
              |PrintChar(c)| == 6 && PrintChar(c)[..2] == "\\u" && IsHex(PrintChar(c)[2..])
              && HexNumber(PrintChar(c)[2..]) == c as int
    ensures !HasShort(c) && 0x20 <= c as int < 128 ==> PrintChar(c) == [c]
    ensures c as int >= 128 ==> PrintChar(c) == UnitText(Hex4("FFFF"))
  {
    hide HexNumber, HexChar, IsHex, HasShort;
    if c as int < 0x20 && !HasShort(c) {
      NoShort(c);
      ControlWritten(c);
      assert PrintChar(c)[2..] == "00" + [HexChar(c as int / 16), HexChar(c as int % 16)];
    } else if c as int < 128 && !HasShort(c) {
      NoShort(c);
    }
  }

  lemma NoShort(c: char)
    requires !HasShort(c)
    ensures c != '\"' && c != '/' && c != '\\' && c as int != 8 && c as int != 9 && c as int != 10 && c as int != 12
            && c as int != 13
  {
    NotShort(c, '\"');
    NotShort(c, '/');
    NotShort(c, '\\');
    NotShort(c, 'b');
    NotShort(c, 'f');
    NotShort(c, 'n');
    NotShort(c, 'r');
    NotShort(c, 't');
  }

  lemma NotShort(c: char, e: char)
    requires !HasShort(c) && e in "\"\\/bfnrt"
    ensures ShortMeaning(e) != c
  {
    assert GoodUnit(Short(e));
  }

  lemma ControlWritten(c: char)
    requires c as int < 0x20
    ensures var d := "00" + [HexChar(c as int / 16), HexChar(c as int % 16)];
            IsHex(d) && HexNumber(d) == c as int
  {
    CharMeans(c as int / 16);
    CharMeans(c as int % 16);
    CharMeans(0);
  }

  lemma CharMeans(d: nat)
    requires d < 16
    ensures Sixteen(HexChar(d)) == d
  {
  }
}
