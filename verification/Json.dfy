/** The JSON library's printer and parser. Strings are byte strings: characters with codes below 256. */
module Json {
  /** A JSON value. The fields of an object are those of a std::map: sorted by key. */
  datatype Value =
    | Null
    | Bool(b: bool)
    | Integer(i: int)
    | Number(text: string)  // a non-integer number, by the text it was written with
    | Str(s: string)
    | Array(elems: seq<Value>)
    | Object(fields: seq<Field>)

  datatype Field = Field(key: string, value: Value)

  datatype Code =
    | ExpectValue | InvalidValue | NumberTooBig | MissQuotationMark | InvalidStringChar | InvalidUnicodeHex
    | InvalidUnicodeSurrogate | MissCommaOrSquareBracket | MissKey | MissColon | MissCommaOrCurlyBracket
    | RootNotSingular

  // ---------- printing ----------

  function HexChar(d: nat): char
    requires d < 16
  {
    if d < 10 then '0' + d as char else 'A' + (d - 10) as char
  }

  /** One character of a string; bytes from 128 on are negative as (signed) chars, which cuts the escape short. */
  function PrintChar(c: char): string {
    if c == '\"' then "\\\""
    else if c == '/' then "\\/"
    else if c == '\\' then "\\\\"
    else if c == 8 as char then "\\b"
    else if c == '\t' then "\\t"
    else if c == '\r' then "\\r"
    else if c == 12 as char then "\\f"
    else if c == '\n' then "\\n"
    else if c as int >= 128 then "\\uFFFF"
    else if c as int < 0x20 then "\\u00" + [HexChar(c as int / 16), HexChar(c as int % 16)]
    else [c]
  }

  function PrintChars(s: string): string {
    if s == [] then [] else PrintChars(s[..|s| - 1]) + PrintChar(s[|s| - 1])
  }

  function PrintString(s: string): string { "\"" + PrintChars(s) + "\"" }

  function Digits(n: nat): (r: string)
    ensures |r| > 0
  {
    if n < 10 then ['0' + n as char] else Digits(n / 10) + ['0' + (n % 10) as char]
  }

  function PrintInt(i: int): string {
    if i < 0 then "-" + Digits(-i) else Digits(i)
  }

  function Print(v: Value): string
    decreases v
  {
    match v
    case Null => "null"
    case Bool(b) => if b then "true" else "false"
    case Integer(i) => PrintInt(i)
    case Number(text) => text
    case Str(s) => PrintString(s)
    case Array(elems) => "[" + PrintElems(elems) + "]"
    case Object(fields) => "{" + PrintFields(fields) + "}"
  }

  function PrintElems(elems: seq<Value>): string
    decreases elems
  {
    if elems == [] then ""
    else if |elems| == 1 then Print(elems[0])
    else Print(elems[0]) + "," + PrintElems(elems[1..])
  }

  function PrintField(f: Field): string
    decreases f, 1
  {
    "\"" + f.key + "\":" + Print(f.value)
  }

  function PrintFields(fields: seq<Field>): string
    decreases fields
  {
    if fields == [] then ""
    else if |fields| == 1 then PrintField(fields[0])
    else PrintField(fields[0]) + "," + PrintFields(fields[1..])
  }

  // ---------- parsing: the characters ----------

  /** The text ends with a null character. */
  function CharAt(json: string, p: nat): char {
    if p < |json| then json[p] else '\0'
  }

  predicate IsWs(c: char) { c == ' ' || c == '\t' || c == '\n' || c == '\r' }

  predicate IsDigit(c: char) { '0' <= c <= '9' }

  function SkipWs(json: string, p: nat): (q: nat)
    requires p <= |json|
    ensures p <= q <= |json|
    decreases |json| - p
  {
    if IsWs(CharAt(json, p)) then SkipWs(json, p + 1) else p
  }

  function SkipDigits(json: string, p: nat): (q: nat)
    requires p <= |json|
    ensures p <= q <= |json|
    decreases |json| - p
  {
    if IsDigit(CharAt(json, p)) then SkipDigits(json, p + 1) else p
  }

  /** On an error, `at` is where the cursor is left. */
  datatype Parsed = Ok(v: Value, next: nat) | Err(code: Code, at: nat)

  // ---------- parsing: numbers and literals ----------

  function Matches(json: string, p: nat, literal: string): bool {
    p + |literal| <= |json| && json[p..p + |literal|] == literal
  }

  function ParseLiteral(json: string, p: nat, literal: string, v: Value): Parsed {
    if Matches(json, p, literal) then Ok(v, p + |literal|) else Err(InvalidValue, p)
  }

  function NumberOf(digits: string): nat {
    if digits == [] || !IsDigit(digits[|digits| - 1]) then 0
    else NumberOf(digits[..|digits| - 1]) * 10 + (digits[|digits| - 1] as int - '0' as int)
  }

  /** The number a text stands for, with its sign. */
  function SignedOf(text: string): int {
    if text != [] && text[0] == '-' then 0 - NumberOf(text[1..]) else NumberOf(text)
  }

  /** A 64-bit number cut to a 32-bit int. */
  function ToInt32(n: int): int {
    var m := n % 0x1_0000_0000;
    if m >= 0x8000_0000 then m - 0x1_0000_0000 else m
  }

  /** The end of the integer part, if there is one. */
  function IntegerPart(json: string, p: nat): (r: (bool, nat))
    requires p <= |json|
    ensures r.0 ==> p < r.1 <= |json|
  {
    var t := if CharAt(json, p) == '-' then p + 1 else p;
    if CharAt(json, t) == '0' then (true, t + 1)
    else if '1' <= CharAt(json, t) <= '9' then (true, SkipDigits(json, t + 1))
    else (false, p)
  }

  /** One or more digits. */
  function SomeDigits(json: string, p: nat): (r: (bool, nat))
    requires p <= |json|
    ensures r.0 ==> p < r.1 <= |json|
  {
    if IsDigit(CharAt(json, p)) then (true, SkipDigits(json, p + 1)) else (false, p)
  }

  function Fraction(json: string, p: nat): (r: (bool, nat))
    requires p <= |json|
    ensures r.0 ==> p <= r.1 <= |json|
  {
    if CharAt(json, p) == '.' then SomeDigits(json, p + 1) else (true, p)
  }

  function Exponent(json: string, p: nat): (r: (bool, nat))
    requires p <= |json|
    ensures r.0 ==> p <= r.1 <= |json|
  {
    if CharAt(json, p) == 'e' || CharAt(json, p) == 'E' then
      var q := if CharAt(json, p + 1) == '+' || CharAt(json, p + 1) == '-' then p + 2 else p + 1;
      SomeDigits(json, q)
    else (true, p)
  }

  function ParseNumber(json: string, p: nat): (r: Parsed)
    requires p <= |json|
    ensures r.Ok? ==> p < r.next <= |json|
    ensures r.Err? ==> r.at == p
  {
    var (ok1, t1) := IntegerPart(json, p);
    if !ok1 then Err(InvalidValue, p)
    else
      var (ok2, t2) := Fraction(json, t1);
      if !ok2 then Err(InvalidValue, p)
      else
        var (ok3, t3) := Exponent(json, t2);
        if !ok3 then Err(InvalidValue, p)
        else if t3 > t1 then Ok(Number(json[p..t3]), t3)
        else
          var n := SignedOf(json[p..t1]);
          if -0x8000_0000_0000_0000 <= n < 0x8000_0000_0000_0000 then Ok(Integer(ToInt32(n)), t1)
          else Err(NumberTooBig, p)
  }

  // ---------- parsing: strings ----------

  /** The value of a hexadecimal digit; the code takes all letters. */
  function HexVal(c: char): int {
    if '0' <= c <= '9' then c as int - '0' as int
    else if 'A' <= c <= 'Z' then c as int - ('A' as int - 10)
    else if 'a' <= c <= 'z' then c as int - ('a' as int - 10)
    else -1
  }

  /** u shifted left by four bits, or-ed with a value below 36. */
  function ShiftOr(u: nat, d: nat): nat
    requires d < 36
  {
    var high := if d < 16 then u
                else if d < 32 then (if u % 2 == 1 then u else u + 1)
                else (if u / 2 % 2 == 1 then u else u + 2);
    16 * high + d % 16
  }

  datatype Hex = HexOk(u: nat) | HexErr

  /** n hexadecimal digits from position p on. */
  function HexDigits(json: string, p: nat, n: nat, u: nat): Hex
    decreases n
  {
    if n == 0 then HexOk(u)
    else if HexVal(CharAt(json, p)) < 0 then HexErr
    else HexDigits(json, p + 1, n - 1, ShiftOr(u, HexVal(CharAt(json, p))))
  }

  function Utf8(u: nat): string {
    if u <= 0x7F then [u as char]
    else if u <= 0x7FF then [(0xC0 + u / 64) as char, (0x80 + u % 64) as char]
    else if u <= 0xFFFF then [(0xE0 + u / 4096) as char, (0x80 + u / 64 % 64) as char, (0x80 + u % 64) as char]
    else [(0xF0 + u / 262144 % 8) as char, (0x80 + u / 4096 % 64) as char, (0x80 + u / 64 % 64) as char,
          (0x80 + u % 64) as char]
  }

  datatype Escape = EscOk(chars: string, next: nat) | EscErr(code: Code)

  /** The \u escape whose first digit is at p. */
  function UnicodeEscape(json: string, p: nat): Escape {
    match HexDigits(json, p, 4, 0)
    case HexErr => EscErr(InvalidUnicodeHex)
    case HexOk(u) =>
      if 0xD800 <= u <= 0xDBFF then
        if CharAt(json, p + 4) != '\\' || CharAt(json, p + 5) != 'u' then EscErr(InvalidUnicodeSurrogate)
        else match HexDigits(json, p + 6, 4, 0)
          case HexErr => EscErr(InvalidUnicodeHex)
          case HexOk(u2) =>
            if u2 < 0xDC00 || u2 > 0xDFFF then EscErr(InvalidUnicodeSurrogate)
            else EscOk(Utf8((u - 0xD800) * 1024 + (u2 - 0xDC00) + 0x10000), p + 10)
      else EscOk(Utf8(u), p + 4)
  }

  /** The escape whose second character is at p. */
  function ParseEscape(json: string, p: nat): Escape {
    match CharAt(json, p)
    case '\"' => EscOk("\"", p + 1)
    case '\\' => EscOk("\\", p + 1)
    case '/' => EscOk("/", p + 1)
    case 'b' => EscOk([8 as char], p + 1)
    case 't' => EscOk("\t", p + 1)
    case 'n' => EscOk("\n", p + 1)
    case 'r' => EscOk("\r", p + 1)
    case 'f' => EscOk([12 as char], p + 1)
    case 'u' => UnicodeEscape(json, p + 1)
    case _ => EscErr(InvalidStringChar)
  }

  lemma {:induction false} HexStays(json: string, p: nat, n: nat, u: nat)
    requires HexDigits(json, p, n, u).HexOk?
    ensures n > 0 ==> p + n <= |json|
    decreases n
  {
    if n > 1 {
      HexStays(json, p + 1, n - 1, ShiftOr(u, HexVal(CharAt(json, p))));
    }
  }

  lemma EscapeStays(json: string, p: nat)
    ensures ParseEscape(json, p).EscOk? ==> p < ParseEscape(json, p).next <= |json|
  {
    hide HexDigits, Utf8;
    if CharAt(json, p) == 'u' {
      if HexDigits(json, p + 1, 4, 0).HexOk? {
        HexStays(json, p + 1, 4, 0);
      }
      if HexDigits(json, p + 7, 4, 0).HexOk? {
        HexStays(json, p + 7, 4, 0);
      }
    }
  }

  /** The characters of a string, and where they end. */
  datatype Chars = CharsOk(chars: string, next: nat) | CharsErr(code: Code)

  /** The rest of a string from position p on; `acc` is what has been read of it. */
  function ParseChars(json: string, p: nat, acc: string): (r: Chars)
    requires p <= |json|
    ensures r.CharsOk? ==> p < r.next <= |json|
    decreases |json| - p
  {
    var c := CharAt(json, p);
    if c == '\"' then CharsOk(acc, p + 1)
    else if c == '\\' then
      EscapeStays(json, p + 1);
      match ParseEscape(json, p + 1)
      case EscErr(code) => CharsErr(code)
      case EscOk(chars, next) => ParseChars(json, next, acc + chars)
    else if c == '\0' then CharsErr(MissQuotationMark)
    else if c as int < 0x20 then CharsErr(InvalidStringChar)
    else ParseChars(json, p + 1, acc + [c])
  }

  /** A string; on an error the cursor stays at the opening quotation mark. */
  function ParseString(json: string, p: nat): (r: Parsed)
    requires p < |json|
    ensures r.Ok? ==> p < r.next <= |json| && r.v.Str?
    ensures r.Err? ==> r.at == p
  {
    match ParseChars(json, p + 1, "")
    case CharsOk(chars, next) => Ok(Str(chars), next)
    case CharsErr(code) => Err(code, p)
  }

  // ---------- parsing: values ----------

  /** Order of byte strings. */
  predicate Less(a: string, b: string) {
    b != [] && (a == [] || a[0] < b[0] || (a[0] == b[0] && Less(a[1..], b[1..])))
  }

  /** Insertion into a std::map: an existing key keeps its value. */
  function InsertField(fields: seq<Field>, f: Field): seq<Field> {
    if fields == [] then [f]
    else if f.key == fields[0].key then fields
    else if Less(f.key, fields[0].key) then [f] + fields
    else [fields[0]] + InsertField(fields[1..], f)
  }

  function ParseValue(json: string, p: nat): (r: Parsed)
    requires p <= |json|
    ensures r.Ok? ==> p < r.next <= |json|
    ensures r.Err? ==> p <= r.at <= |json|
    decreases |json| - p, 3
  {
    var c := CharAt(json, p);
    if c == 't' then ParseLiteral(json, p, "true", Bool(true))
    else if c == 'f' then ParseLiteral(json, p, "false", Bool(false))
    else if c == 'n' then ParseLiteral(json, p, "null", Null)
    else if c == '\0' then Err(ExpectValue, p)
    else if c == '\"' then ParseString(json, p)
    else if c == '[' then ParseArray(json, p)
    else if c == '{' then ParseObject(json, p)
    else ParseNumber(json, p)
  }

  function ParseArray(json: string, p: nat): (r: Parsed)
    requires p < |json|
    ensures r.Ok? ==> p < r.next <= |json|
    ensures r.Err? ==> p <= r.at <= |json|
    decreases |json| - p, 2
  {
    var q := SkipWs(json, p + 1);
    if CharAt(json, q) == ']' then Ok(Array([]), q + 1) else ParseElems(json, q, [])
  }

  function ParseElems(json: string, p: nat, acc: seq<Value>): (r: Parsed)
    requires p <= |json|
    ensures r.Ok? ==> p < r.next <= |json|
    ensures r.Err? ==> p <= r.at <= |json|
    decreases |json| - p, 4
  {
    match ParseValue(json, p)
    case Err(code, at) => Err(code, at)
    case Ok(v, next) =>
      var q := SkipWs(json, next);
      if CharAt(json, q) == ',' then ParseElems(json, SkipWs(json, q + 1), acc + [v])
      else if CharAt(json, q) == ']' then Ok(Array(acc + [v]), q + 1)
      else Err(MissCommaOrSquareBracket, q)
  }

  function ParseObject(json: string, p: nat): (r: Parsed)
    requires p < |json|
    ensures r.Ok? ==> p < r.next <= |json|
    ensures r.Err? ==> p <= r.at <= |json|
    decreases |json| - p, 2
  {
    var q := SkipWs(json, p + 1);
    if CharAt(json, q) == '}' then Ok(Object([]), q + 1) else ParseFields(json, q, [])
  }

  datatype OneField = FieldOk(f: Field, next: nat) | FieldErr(code: Code, at: nat)

  /** A key, a colon and a value. */
  function ParseField(json: string, p: nat): (r: OneField)
    requires p <= |json|
    ensures r.FieldOk? ==> p < r.next <= |json|
    ensures r.FieldErr? ==> p <= r.at <= |json|
    decreases |json| - p, 4
  {
    if CharAt(json, p) != '\"' then FieldErr(MissKey, p)
    else
      match ParseString(json, p)
      case Err(code, at) => FieldErr(code, at)
      case Ok(k, next) =>
        var q := SkipWs(json, next);
        if CharAt(json, q) != ':' then FieldErr(MissColon, q)
        else
          match ParseValue(json, SkipWs(json, q + 1))
          case Err(code, at) => FieldErr(code, at)
          case Ok(v, next1) => FieldOk(Field(k.s, v), next1)
  }

  function ParseFields(json: string, p: nat, acc: seq<Field>): (r: Parsed)
    requires p <= |json|
    ensures r.Ok? ==> p < r.next <= |json|
    ensures r.Err? ==> p <= r.at <= |json|
    decreases |json| - p, 5
  {
    match ParseField(json, p)
    case FieldErr(code, at) => Err(code, at)
    case FieldOk(f, next) =>
      var q := SkipWs(json, next);
      if CharAt(json, q) == '}' then Ok(Object(InsertField(acc, f)), q + 1)
      else if CharAt(json, q) == ',' then ParseFields(json, SkipWs(json, q + 1), InsertField(acc, f))
      else Err(MissCommaOrCurlyBracket, q)
  }

  // ---------- printing and parsing back: strings ----------

  ghost predicate Ascii(s: string) {
    forall i :: 0 <= i < |s| ==> s[i] as int < 128
  }

  lemma MatchesSplit(json: string, p: nat, a: string, b: string)
    ensures Matches(json, p, a + b) <==> Matches(json, p, a) && Matches(json, p + |a|, b)
  {
    var t := a + b;
    if Matches(json, p, t) {
      assert json[p..p + |t|][..|a|] == json[p..p + |a|] && t[..|a|] == a;
      assert json[p..p + |t|][|a|..] == json[p + |a|..p + |t|] && t[|a|..] == b;
    }
    if Matches(json, p, a) && Matches(json, p + |a|, b) {
      assert json[p..p + |t|] == json[p..p + |a|] + json[p + |a|..p + |t|];
    }
  }

  lemma MatchesAt(json: string, p: nat, t: string, i: nat)
    requires Matches(json, p, t) && i < |t|
    ensures CharAt(json, p + i) == t[i]
  {
    assert json[p..p + |t|][i] == json[p + i];
  }

  lemma HexBack(d: nat)
    requires d < 16
    ensures HexVal(HexChar(d)) == d
  {
  }

  /** A control character written with four hexadecimal digits. */
  lemma ControlBack(json: string, p: nat, c: char)
    requires c as int < 0x20 && Matches(json, p, "\\u00" + [HexChar(c as int / 16), HexChar(c as int % 16)])
    ensures ParseEscape(json, p + 1) == EscOk([c], p + 6)
  {
    hide HexChar, HexVal;
    var t := "\\u00" + [HexChar(c as int / 16), HexChar(c as int % 16)];
    MatchesAt(json, p, t, 1);
    MatchesAt(json, p, t, 2);
    MatchesAt(json, p, t, 3);
    MatchesAt(json, p, t, 4);
    MatchesAt(json, p, t, 5);
    HexBack(c as int / 16);
    HexBack(c as int % 16);
    ZeroIsDigit();
    assert HexDigits(json, p + 6, 0, c as int) == HexOk(c as int);
    assert HexDigits(json, p + 5, 1, c as int / 16) == HexOk(c as int);
    assert HexDigits(json, p + 4, 2, 0) == HexOk(c as int);
    assert HexDigits(json, p + 3, 3, 0) == HexOk(c as int);
    assert HexDigits(json, p + 2, 4, 0) == HexOk(c as int);
  }

  lemma ZeroIsDigit()
    ensures HexVal('0') == 0
  {
  }

  /** A printed character is read back. */
  lemma CharBack(json: string, p: nat, c: char, acc: string)
    requires c as int < 128 && p + |PrintChar(c)| <= |json| && Matches(json, p, PrintChar(c))
    ensures ParseChars(json, p, acc) == ParseChars(json, p + |PrintChar(c)|, acc + [c])
  {
    hide UnicodeEscape;
    MatchesAt(json, p, PrintChar(c), 0);
    if |PrintChar(c)| == 2 {
      MatchesAt(json, p, PrintChar(c), 1);
    } else if |PrintChar(c)| > 2 {
      ControlBack(json, p, c);
    }
  }

  /** A printed string is read back as far as its characters are ASCII. */
  lemma StringBack(json: string, p: nat, s: string)
    requires Bytes(s) && Matches(json, p, PrintString(s))
    ensures p < |json| && ParseString(json, p) == Ok(Str(RereadAll(s)), p + |PrintString(s)|)
  {
    hide PrintChars, RereadAll;
    assert PrintString(s) == "\"" + (PrintChars(s) + "\"");
    MatchesSplit(json, p, "\"", PrintChars(s) + "\"");
    MatchesSplit(json, p + 1, PrintChars(s), "\"");
    AnyCharsBack(json, p + 1, s, "");
    MatchesAt(json, p + 1 + |PrintChars(s)|, "\"", 0);
    QuoteEnds(json, p + 1 + |PrintChars(s)|, RereadAll(s));
    assert "" + RereadAll(s) == RereadAll(s);
  }

  /** A key that the printer may write as it is. */
  ghost predicate PlainKey(k: string) {
    forall i :: 0 <= i < |k| ==> k[i] as int >= 0x20 && k[i] != '\"' && k[i] != '\\'
  }

  lemma {:induction false} KeyCharsBack(json: string, p: nat, k: string, acc: string)
    requires PlainKey(k) && p <= |json| && Matches(json, p, k)
    ensures ParseChars(json, p, acc) == ParseChars(json, p + |k|, acc + k)
    decreases |k|
  {
    if k == [] {
      assert acc + k == acc;
    } else {
      var init, c := k[..|k| - 1], k[|k| - 1];
      assert k == init + [c];
      MatchesSplit(json, p, init, [c]);
      KeyCharsBack(json, p, init, acc);
      MatchesAt(json, p + |init|, [c], 0);
      assert (acc + init) + [c] == acc + k;
    }
  }

  lemma KeyBack(json: string, p: nat, k: string)
    requires PlainKey(k) && Matches(json, p, "\"" + k + "\"")
    ensures p < |json| && ParseString(json, p) == Ok(Str(k), p + |k| + 2)
  {
    hide ParseChars;
    assert "\"" + k + "\"" == "\"" + (k + "\"");
    MatchesSplit(json, p, "\"", k + "\"");
    MatchesSplit(json, p + 1, k, "\"");
    KeyCharsBack(json, p + 1, k, "");
    MatchesAt(json, p + 1 + |k|, "\"", 0);
    assert "" + k == k;
    QuoteEnds(json, p + 1 + |k|, k);
  }

  lemma QuoteEnds(json: string, p: nat, acc: string)
    requires p < |json| && json[p] == '\"'
    ensures ParseChars(json, p, acc) == CharsOk(acc, p + 1)
  {
  }

  // ---------- printing and parsing back: integers ----------

  lemma {:induction false} DigitsBack(n: nat)
    ensures NumberOf(Digits(n)) == n
    ensures forall i :: 0 <= i < |Digits(n)| ==> IsDigit(Digits(n)[i])
    ensures n > 0 ==> '1' <= Digits(n)[0] <= '9'
    ensures n == 0 ==> Digits(n) == "0"
  {
    if n >= 10 {
      DigitsBack(n / 10);
      var d := Digits(n);
      assert d[..|d| - 1] == Digits(n / 10);
    } else {
      var d := Digits(n);
      assert d[..0] == [] && NumberOf([]) == 0;
    }
  }

  lemma {:induction false} SkipsDigits(json: string, p: nat, n: nat)
    requires p + n <= |json| && forall i :: p <= i < p + n ==> IsDigit(json[i])
    ensures SkipDigits(json, p) == SkipDigits(json, p + n)
    decreases n
  {
    if n > 0 {
      SkipsDigits(json, p + 1, n - 1);
    }
  }

  /** Behind the printed integer i, this character goes on with a number; after a zero no digit does. */
  predicate GoesOn(i: int, c: char) {
    c == '.' || c == 'e' || c == 'E' || (IsDigit(c) && i != 0)
  }

  /** The printed value would read on into this character. */
  predicate Continues(v: Value, c: char) { v.Integer? && GoesOn(v.i, c) }

  lemma SignedBack(i: int)
    ensures SignedOf(PrintInt(i)) == i
    ensures forall k :: 0 < k < |PrintInt(i)| ==> IsDigit(PrintInt(i)[k])
  {
    DigitsBack(if i < 0 then -i else i);
    assert i < 0 ==> PrintInt(i)[1..] == Digits(-i);
  }

  /** The integer part of a printed integer is all of it, and digits behind it unless it is zero. */
  lemma IntegerPartBack(json: string, p: nat, i: int)
    requires Matches(json, p, PrintInt(i))
    ensures IntegerPart(json, p)
            == (true, if i == 0 then p + |PrintInt(i)| else SkipDigits(json, p + |PrintInt(i)|))
  {
    hide Digits;
    var t, n := PrintInt(i), if i < 0 then -i else i;
    DigitsBack(n);
    SignedBack(i);
    MatchesAt(json, p, t, 0);
    var d := if i < 0 then 1 else 0;
    MatchesAt(json, p, t, d);
    assert t[d] == Digits(n)[0];
    if n > 0 {
      forall k | p + d + 1 <= k < p + |t|
        ensures IsDigit(json[k])
      {
        MatchesAt(json, p, t, k - p);
      }
      SkipsDigits(json, p + d + 1, |t| - d - 1);
    }
  }

  lemma IntegerBack(json: string, p: nat, i: int)
    requires -0x8000_0000 <= i < 0x8000_0000 && Matches(json, p, PrintInt(i))
    ensures ParseNumber(json, p) == Ok(Integer(i), p + |PrintInt(i)|) <==> !GoesOn(i, CharAt(json, p + |PrintInt(i)|))
  {
    hide IntegerPart, Digits, NumberOf, SignedOf, PrintInt;
    IntegerPartBack(json, p, i);
    SignedBack(i);
  }

  // ---------- printing and parsing back: values ----------

  /** A std::map holds its fields sorted by key, without duplicates. */
  ghost predicate SortedFields(fields: seq<Field>) {
    forall i, j :: 0 <= i < j < |fields| ==> Less(fields[i].key, fields[j].key)
  }

  /**
   * Values the library can hold, without non-integer numbers, whose keys need no escaping. Strings are any
   * bytes, integers are 32 bits wide.
   */
  ghost predicate Clean(v: Value)
    decreases v
  {
    match v
    case Null => true
    case Bool(_) => true
    case Integer(i) => -0x8000_0000 <= i < 0x8000_0000
    case Number(_) => false
    case Str(s) => Bytes(s)
    case Array(elems) => forall i :: 0 <= i < |elems| ==> Clean(elems[i])
    case Object(fields) =>
      SortedFields(fields) && forall i :: 0 <= i < |fields| ==> PlainKey(fields[i].key) && Clean(fields[i].value)
  }

  ghost predicate AsciiStrings(v: Value)
    decreases v
  {
    match v
    case Str(s) => Ascii(s)
    case Array(elems) => forall i :: 0 <= i < |elems| ==> AsciiStrings(elems[i])
    case Object(fields) => forall i :: 0 <= i < |fields| ==> AsciiStrings(fields[i].value)
    case _ => true
  }

  /** What printing and parsing makes of a value. */
  function Again(v: Value): Value
    decreases v
  {
    match v
    case Str(s) => Str(RereadAll(s))
    case Array(elems) => Array(AgainElems(elems))
    case Object(fields) => Object(AgainFields(fields))
    case _ => v
  }

  function AgainElems(elems: seq<Value>): (r: seq<Value>)
    ensures |r| == |elems| && forall i :: 0 <= i < |r| ==> r[i] == Again(elems[i])
    decreases elems
  {
    if elems == [] then [] else [Again(elems[0])] + AgainElems(elems[1..])
  }

  function AgainFields(fields: seq<Field>): (r: seq<Field>)
    ensures |r| == |fields| && forall i :: 0 <= i < |r| ==> r[i] == Field(fields[i].key, Again(fields[i].value))
    decreases fields
  {
    if fields == [] then [] else [Field(fields[0].key, Again(fields[0].value))] + AgainFields(fields[1..])
  }

  /** Nothing is lost exactly when every string in the value is ASCII. */
  lemma {:induction false} AgainSame(v: Value)
    requires Clean(v)
    ensures Again(v) == v <==> AsciiStrings(v)
    decreases v
  {
    match v
    case Str(s) => RereadLength(s);
    case Array(elems) =>
      forall i | 0 <= i < |elems|
        ensures Again(elems[i]) == elems[i] <==> AsciiStrings(elems[i])
      {
        AgainSame(elems[i]);
      }
      assert AgainElems(elems) == elems <==> forall i :: 0 <= i < |elems| ==> Again(elems[i]) == elems[i];
    case Object(fields) =>
      forall i | 0 <= i < |fields|
        ensures Again(fields[i].value) == fields[i].value <==> AsciiStrings(fields[i].value)
      {
        AgainSame(fields[i].value);
      }
      assert AgainFields(fields) == fields <==> forall i :: 0 <= i < |fields| ==> AgainFields(fields)[i] == fields[i];
    case _ =>
  }

  lemma {:induction false} LessIrreflexive(a: string)
    ensures !Less(a, a)
  {
    if a != [] {
      LessIrreflexive(a[1..]);
    }
  }

  lemma {:induction false} LessAsymmetric(a: string, b: string)
    requires Less(a, b)
    ensures !Less(b, a) && a != b
  {
    LessIrreflexive(a);
    if a != [] && a[0] == b[0] {
      LessAsymmetric(a[1..], b[1..]);
    }
  }

  /** A key above all others goes to the end. */
  lemma {:induction false} InsertLast(fields: seq<Field>, f: Field)
    requires forall i :: 0 <= i < |fields| ==> Less(fields[i].key, f.key)
    ensures InsertField(fields, f) == fields + [f]
  {
    if fields != [] {
      LessAsymmetric(fields[0].key, f.key);
      InsertLast(fields[1..], f);
    }
  }

  /** No printed value starts like white space or the end of a list. */
  lemma FirstChar(v: Value)
    requires Clean(v)
    ensures Print(v) != "" && !IsWs(Print(v)[0]) && Print(v)[0] != ']' && Print(v)[0] != '}'
  {
    if v.Integer? {
      DigitsBack(if v.i < 0 then -v.i else v.i);
    }
  }

  /** Which parser the first character of a printed value leads to. */
  lemma Dispatch(v: Value, json: string, p: nat)
    requires Clean(v) && p <= |json| && Matches(json, p, Print(v))
    ensures p < |json|
    ensures v.Integer? ==> ParseValue(json, p) == ParseNumber(json, p)
    ensures v.Str? ==> ParseValue(json, p) == ParseString(json, p)
    ensures v.Array? ==> ParseValue(json, p) == ParseArray(json, p)
    ensures v.Object? ==> ParseValue(json, p) == ParseObject(json, p)
    ensures v.Null? || v.Bool? ==> ParseValue(json, p) == Ok(v, p + |Print(v)|)
  {
    hide PrintElems, PrintFields, PrintChars, ParseArray, ParseObject, ParseNumber, ParseString;
    FirstChar(v);
    MatchesAt(json, p, Print(v), 0);
    if v.Integer? {
      DigitsBack(if v.i < 0 then -v.i else v.i);
      IntegerFirst(v.i);
    }
  }

  lemma IntegerFirst(i: int)
    ensures IsDigit(PrintInt(i)[0]) || PrintInt(i)[0] == '-'
  {
    DigitsBack(if i < 0 then -i else i);
  }

  lemma NoWs(json: string, p: nat)
    requires p <= |json| && !IsWs(CharAt(json, p))
    ensures SkipWs(json, p) == p
  {
  }

  /** Parsing a printed value gives the value back, with the cursor right behind it, wherever it stands. */
  lemma {:induction false} ValueBack(v: Value, json: string, p: nat)
    requires Clean(v) && p <= |json| && Matches(json, p, Print(v)) && !Continues(v, CharAt(json, p + |Print(v)|))
    ensures ParseValue(json, p) == Ok(Again(v), p + |Print(v)|)
    decreases v, 1
  {
    hide ParseValue, ParseArray, ParseObject, ParseNumber, ParseString, PrintString, PrintInt;
    Dispatch(v, json, p);
    match v
    case Integer(i) => IntegerBack(json, p, i);
    case Str(s) => StringBack(json, p, s);
    case Array(elems) => ArrayBack(v, json, p);
    case Object(fields) => ObjectBack(v, json, p);
    case Null =>
    case Bool(_) =>
  }

  lemma {:induction false} ArrayBack(v: Value, json: string, p: nat)
    requires v.Array? && Clean(v) && p < |json| && Matches(json, p, Print(v))
    ensures ParseArray(json, p) == Ok(Again(v), p + |Print(v)|)
    decreases v, 0
  {
    hide ParseElems, PrintElems;
    var elems := v.elems;
    assert Print(v) == "[" + (PrintElems(elems) + "]");
    MatchesSplit(json, p, "[", PrintElems(elems) + "]");
    MatchesAt(json, p + 1, PrintElems(elems) + "]", 0);
    if elems == [] {
      NothingPrinted();
      NoWs(json, p + 1);
    } else {
      ElemsFirst(elems);
      NoWs(json, p + 1);
      ElemsBack(elems, json, p + 1, []);
      assert [] + AgainElems(elems) == AgainElems(elems);
    }
  }

  lemma NothingPrinted()
    ensures PrintElems([]) == "" && PrintFields([]) == ""
  {
  }

  lemma ElemsFirst(elems: seq<Value>)
    requires elems != [] && Clean(elems[0])
    ensures PrintElems(elems) != "" && !IsWs(PrintElems(elems)[0]) && PrintElems(elems)[0] != ']'
  {
    hide Print, Clean;
    FirstChar(elems[0]);
  }

  /** The text of the first element and what follows it. */
  lemma ElemsText(elems: seq<Value>)
    requires elems != []
    ensures PrintElems(elems) + "]" ==
            Print(elems[0]) + if |elems| == 1 then "]" else "," + (PrintElems(elems[1..]) + "]")
  {
    hide Print;
  }

  lemma {:induction false} AgainStep(acc: seq<Value>, elems: seq<Value>)
    requires elems != []
    ensures acc + AgainElems(elems) == (acc + [Again(elems[0])]) + AgainElems(elems[1..])
    ensures |elems| == 1 ==> acc + AgainElems(elems) == acc + [Again(elems[0])]
  {
    hide Again;
    var first, rest := [Again(elems[0])], AgainElems(elems[1..]);
    assert AgainElems(elems) == first + rest;
    assert acc + (first + rest) == (acc + first) + rest;
  }

  lemma {:induction false} ElemsBack(elems: seq<Value>, json: string, p: nat, acc: seq<Value>)
    requires elems != [] && (forall i :: 0 <= i < |elems| ==> Clean(elems[i]))
    requires p <= |json| && Matches(json, p, PrintElems(elems) + "]")
    ensures ParseElems(json, p, acc) == Ok(Array(acc + AgainElems(elems)), p + |PrintElems(elems)| + 1)
    decreases elems, 0
  {
    hide Print, PrintElems, Clean, ParseValue, ParseElems, SkipWs, Again, AgainElems, Matches;
    var text := Print(elems[0]);
    var rest := if |elems| == 1 then "]" else "," + (PrintElems(elems[1..]) + "]");
    ElemsText(elems);
    AgainStep(acc, elems);
    MatchesSplit(json, p, text, rest);
    MatchesAt(json, p + |text|, rest, 0);
    ValueBack(elems[0], json, p);
    NoWs(json, p + |text|);
    ParseOneElem(json, p, acc, Again(elems[0]), p + |text|);
    if |elems| > 1 {
      MatchesSplit(json, p + |text|, ",", PrintElems(elems[1..]) + "]");
      ElemsFirst(elems[1..]);
      MatchesAt(json, p + |text| + 1, PrintElems(elems[1..]) + "]", 0);
      NoWs(json, p + |text| + 1);
      ElemsBack(elems[1..], json, p + |text| + 1, acc + [Again(elems[0])]);
    }
  }

  /** What the parser does with an element once it has been read. */
  lemma ParseOneElem(json: string, p: nat, acc: seq<Value>, v: Value, next: nat)
    requires p < next <= |json| && ParseValue(json, p) == Ok(v, next) && SkipWs(json, next) == next
    ensures ParseElems(json, p, acc) ==
            if CharAt(json, next) == ',' then ParseElems(json, SkipWs(json, next + 1), acc + [v])
            else if CharAt(json, next) == ']' then Ok(Array(acc + [v]), next + 1)
            else Err(MissCommaOrSquareBracket, next)
  {
    hide ParseValue, SkipWs;
  }

  lemma {:induction false} ObjectBack(v: Value, json: string, p: nat)
    requires v.Object? && Clean(v) && p < |json| && Matches(json, p, Print(v))
    ensures ParseObject(json, p) == Ok(Again(v), p + |Print(v)|)
    decreases v, 0
  {
    hide ParseFields, PrintFields;
    var fields := v.fields;
    assert Print(v) == "{" + (PrintFields(fields) + "}");
    MatchesSplit(json, p, "{", PrintFields(fields) + "}");
    MatchesAt(json, p + 1, PrintFields(fields) + "}", 0);
    if fields == [] {
      NothingPrinted();
      NoWs(json, p + 1);
    } else {
      FieldsFirst(fields);
      NoWs(json, p + 1);
      FieldsBack(fields, json, p + 1, []);
      assert [] + AgainFields(fields) == AgainFields(fields);
      SameSorted(fields);
    }
  }

  lemma FieldsText(fields: seq<Field>)
    requires fields != []
    ensures PrintFields(fields) + "}" ==
            PrintField(fields[0]) + if |fields| == 1 then "}" else "," + (PrintFields(fields[1..]) + "}")
  {
    hide PrintField;
  }

  lemma FieldsFirst(fields: seq<Field>)
    requires fields != []
    ensures PrintFields(fields) != "" && PrintFields(fields)[0] == '\"'
  {
  }

  /** Only values change, so the order of the keys stays. */
  lemma SameSorted(fields: seq<Field>)
    ensures SortedFields(fields) <==> SortedFields(AgainFields(fields))
  {
  }

  lemma {:induction false} AgainFieldStep(acc: seq<Field>, fields: seq<Field>)
    requires fields != []
    ensures acc + AgainFields(fields)
            == (acc + [Field(fields[0].key, Again(fields[0].value))]) + AgainFields(fields[1..])
    ensures |fields| == 1 ==> acc + AgainFields(fields) == acc + [Field(fields[0].key, Again(fields[0].value))]
  {
    hide Again;
    var first, rest := [Field(fields[0].key, Again(fields[0].value))], AgainFields(fields[1..]);
    assert AgainFields(fields) == first + rest;
    assert acc + (first + rest) == (acc + first) + rest;
  }

  lemma {:induction false} FieldsBack(fields: seq<Field>, json: string, p: nat, acc: seq<Field>)
    requires fields != [] && SortedFields(acc + AgainFields(fields))
    requires forall i :: 0 <= i < |fields| ==> PlainKey(fields[i].key) && Clean(fields[i].value)
    requires p <= |json| && Matches(json, p, PrintFields(fields) + "}")
    ensures ParseFields(json, p, acc) == Ok(Object(acc + AgainFields(fields)), p + |PrintFields(fields)| + 1)
    decreases fields, 0
  {
    hide Clean, ParseValue, ParseString, InsertField, SkipWs, ParseFields, PrintField, PrintFields, Matches, Again,
         AgainFields;
    var f := fields[0];
    var g := Field(f.key, Again(f.value));
    var text := PrintField(f);
    var rest := if |fields| == 1 then "}" else "," + (PrintFields(fields[1..]) + "}");
    FieldsText(fields);
    AgainFieldStep(acc, fields);
    MatchesSplit(json, p, text, rest);
    MatchesAt(json, p + |text|, rest, 0);
    FieldBack(f, json, p);
    NoWs(json, p + |text|);
    LastOf(acc, AgainFields(fields));
    InsertLast(acc, g);
    ParseOneField(json, p, acc, g, p + |text|);
    if |fields| > 1 {
      MatchesSplit(json, p + |text|, ",", PrintFields(fields[1..]) + "}");
      FieldsFirst(fields[1..]);
      MatchesAt(json, p + |text| + 1, PrintFields(fields[1..]) + "}", 0);
      NoWs(json, p + |text| + 1);
      FieldsBack(fields[1..], json, p + |text| + 1, acc + [g]);
    }
  }

  lemma LastOf(acc: seq<Field>, fields: seq<Field>)
    requires fields != [] && SortedFields(acc + fields)
    ensures forall i :: 0 <= i < |acc| ==> Less(acc[i].key, fields[0].key)
  {
    var all := acc + fields;
    forall i | 0 <= i < |acc|
      ensures Less(acc[i].key, fields[0].key)
    {
      assert all[i] == acc[i] && all[|acc|] == fields[0];
    }
  }

  /** What the parser does with a field once key and value have been read. */
  lemma ParseOneField(json: string, p: nat, acc: seq<Field>, f: Field, next: nat)
    requires p < |json| && json[p] == '\"' && p + |f.key| + 3 <= next <= |json|
    requires ParseString(json, p) == Ok(Str(f.key), p + |f.key| + 2)
    requires SkipWs(json, p + |f.key| + 2) == p + |f.key| + 2 && CharAt(json, p + |f.key| + 2) == ':'
    requires SkipWs(json, p + |f.key| + 3) == p + |f.key| + 3
    requires ParseValue(json, p + |f.key| + 3) == Ok(f.value, next) && SkipWs(json, next) == next
    ensures ParseFields(json, p, acc) ==
            if CharAt(json, next) == '}' then Ok(Object(InsertField(acc, f)), next + 1)
            else if CharAt(json, next) == ',' then ParseFields(json, SkipWs(json, next + 1), InsertField(acc, f))
            else Err(MissCommaOrCurlyBracket, next)
  {
    hide ParseString, ParseValue, InsertField, SkipWs;
  }

  /** The parts of a printed field. */
  lemma FieldParts(f: Field, json: string, p: nat)
    requires Matches(json, p, PrintField(f))
    ensures Matches(json, p, "\"" + f.key + "\"")
    ensures var q := p + |f.key| + 2;
            && CharAt(json, q) == ':' && Matches(json, q + 1, Print(f.value))
            && q + 1 + |Print(f.value)| == p + |PrintField(f)| <= |json|
    ensures p < |json| && json[p] == '\"'
  {
    hide Print;
    var q := p + |f.key| + 2;
    assert PrintField(f) == ("\"" + f.key + "\"") + (":" + Print(f.value));
    MatchesSplit(json, p, "\"" + f.key + "\"", ":" + Print(f.value));
    MatchesSplit(json, q, ":", Print(f.value));
    MatchesAt(json, p, "\"" + f.key + "\"", 0);
    MatchesAt(json, q, ":", 0);
  }

  /** A printed field: its key, the colon, and its value. */
  lemma {:induction false} FieldBack(f: Field, json: string, p: nat)
    requires PlainKey(f.key) && Clean(f.value) && p <= |json| && Matches(json, p, PrintField(f))
    requires !Continues(f.value, CharAt(json, p + |PrintField(f)|))
    ensures p < |json| && json[p] == '\"' && ParseString(json, p) == Ok(Str(f.key), p + |f.key| + 2)
    ensures var q := p + |f.key| + 2;
            && q + 1 <= p + |PrintField(f)| <= |json|
            && SkipWs(json, q) == q && CharAt(json, q) == ':' && SkipWs(json, q + 1) == q + 1
            && ParseValue(json, q + 1) == Ok(Again(f.value), p + |PrintField(f)|)
    decreases f, 0
  {
    hide Print, Clean, PrintField, Matches, ParseValue, ParseString, SkipWs, PlainKey;
    var q := p + |f.key| + 2;
    FieldParts(f, json, p);
    KeyBack(json, p, f.key);
    NoWs(json, q);
    FirstChar(f.value);
    MatchesAt(json, q + 1, Print(f.value), 0);
    NoWs(json, q + 1);
    ValueBack(f.value, json, q + 1);
  }

  // ---------- the whole text ----------

  /** A whole text. Only after an error does the parser look at what is left of it, and then another code wins. */
  function Parse(json: string): Parsed {
    match ParseValue(json, SkipWs(json, 0))
    case Ok(v, next) => Ok(v, next)
    case Err(code, at) =>
      var q := SkipWs(json, at);
      Err(if q != |json| then RootNotSingular else code, q)
  }

  /**
   * Printing and parsing a value with plain keys always succeeds, with the cursor at the end of the text, and
   * gives the value back exactly when its strings are ASCII.
   */
  lemma RoundTrip(v: Value)
    requires Clean(v)
    ensures Parse(Print(v)) == Ok(Again(v), |Print(v)|)
    ensures Parse(Print(v)) == Ok(v, |Print(v)|) <==> AsciiStrings(v)
  {
    hide ParseValue, Print, Clean, Again, AsciiStrings;
    assert Print(v) + "" == Print(v);
    TrailingTextIsIgnored(v, "");
    AgainSame(v);
  }

  /** Text behind a value is accepted whatever it is, unless the value is an integer that the text goes on with. */
  lemma TrailingTextIsIgnored(v: Value, junk: string)
    requires Clean(v)
    ensures Parse(Print(v) + junk) == Ok(Again(v), |Print(v)|) <==> !Continues(v, CharAt(junk, 0))
  {
    hide ParseValue, Print, Clean, Again, ParseNumber, GoesOn;
    var json := Print(v) + junk;
    FirstChar(v);
    NoWs(json, 0);
    assert json[0..0 + |Print(v)|] == Print(v);
    assert CharAt(json, |Print(v)|) == CharAt(junk, 0);
    if Continues(v, CharAt(junk, 0)) {
      Dispatch(v, json, 0);
      IntegerOf(v);
      IntegerBack(json, 0, v.i);
    } else {
      ValueBack(v, json, 0);
    }
  }

  lemma IntegerOf(v: Value)
    requires Clean(v) && v.Integer?
    ensures -0x8000_0000 <= v.i < 0x8000_0000 && Print(v) == PrintInt(v.i) && Again(v) == v
  {
  }

  // ---------- exactly which strings and keys survive ----------

  ghost predicate Bytes(s: string) {
    forall i :: 0 <= i < |s| ==> s[i] as int < 256
  }

  /** An escape is longer than what it stands for. */
  lemma EscapeShrinks(json: string, p: nat)
    ensures var e := ParseEscape(json, p);
            e.EscOk? ==> |e.chars| < e.next - p + 1
  {
    hide HexDigits;
  }

  /** Reading never gives more characters than it takes, and fewer if the first one is an escape. */
  lemma {:induction false} ReadLength(json: string, p: nat, acc: string)
    requires p <= |json|
    ensures var r := ParseChars(json, p, acc);
            r.CharsOk? ==> |acc| <= |r.chars|
                           && |r.chars| - |acc| <= r.next - 1 - p - (if CharAt(json, p) == '\\' then 1 else 0)
    decreases |json| - p
  {
    var c := CharAt(json, p);
    if c == '\\' {
      EscapeStays(json, p + 1);
      EscapeShrinks(json, p + 1);
      var e := ParseEscape(json, p + 1);
      if e.EscOk? {
        ReadLength(json, e.next, acc + e.chars);
      }
    } else if c != '\"' && c != '\0' && c as int >= 0x20 {
      ReadLength(json, p + 1, acc + [c]);
    }
  }

  predicate PlainChar(c: char) { c as int >= 0x20 && c != '\"' && c != '\\' }

  lemma {:induction false} FirstBadChar(k: string) returns (i: nat)
    requires !PlainKey(k)
    ensures i < |k| && PlainKey(k[..i]) && !PlainChar(k[i])
  {
    if !PlainChar(k[0]) {
      i := 0;
    } else {
      assert k == [k[0]] + k[1..];
      var j := FirstBadChar(k[1..]);
      i := j + 1;
      assert k[..i] == [k[0]] + k[1..][..i - 1];
    }
  }

  /** Keys are printed without escaping; exactly the plain ones are read back. */
  lemma KeySurvives(k: string)
    requires Bytes(k)
    ensures ParseString("\"" + k + "\"", 0) == Ok(Str(k), |k| + 2) <==> PlainKey(k)
  {
    var json := "\"" + k + "\"";
    if PlainKey(k) {
      assert json[0..0 + |json|] == json;
      KeyBack(json, 0, k);
    } else {
      var i := FirstBadChar(k);
      assert json[1..1 + i] == k[..i];
      KeyCharsBack(json, 1, k[..i], "");
      assert "" + k[..i] == k[..i];
      assert json[1 + i] == k[i];
      ReadLength(json, 1 + i, k[..i]);
    }
  }

  lemma ShortKeyRead(json: string)
    requires json == "{\"\"\":null}"
    ensures ParseFields(json, 1, []) == Err(MissColon, 3)
  {
    assert ParseChars(json, 2, "") == CharsOk("", 3);
  }

  /** An object with a quotation mark as a key is not read back. */
  lemma QuoteInKeyFails()
    ensures var v := Object([Field("\"", Null)]);
            && Print(v) == "{\"\"\":null}" && ParseValue(Print(v), 0) == Err(MissColon, 3)
            && Parse(Print(v)) == Err(RootNotSingular, 3)
  {
    hide ParseFields;
    var json := "{\"\"\":null}";
    assert PrintField(Field("\"", Null)) == "\"\"\":null";
    ShortKeyRead(json);
    assert ParseValue(json, 0) == ParseObject(json, 0);
  }

  ghost predicate HasKey(fields: seq<Field>, k: string) {
    exists i :: 0 <= i < |fields| && fields[i].key == k
  }

  lemma {:induction false} InsertKeeps(fields: seq<Field>, f: Field, k: string)
    requires HasKey(fields, k) || f.key == k
    ensures HasKey(InsertField(fields, f), k)
  {
    if fields == [] {
      assert [f][0].key == k;
    } else if f.key == fields[0].key {
      if f.key == k {
        assert fields[0].key == k;
      }
    } else if Less(f.key, fields[0].key) {
      var r := [f] + fields;
      if f.key == k {
        assert r[0].key == k;
      } else {
        var i :| 0 <= i < |fields| && fields[i].key == k;
        assert r[i + 1].key == k;
      }
    } else {
      var r := [fields[0]] + InsertField(fields[1..], f);
      if fields[0].key == k {
        assert r[0].key == k;
      } else {
        if f.key != k {
          var i :| 0 <= i < |fields| && fields[i].key == k;
          assert fields[1..][i - 1].key == k;
        }
        InsertKeeps(fields[1..], f, k);
        var i :| 0 <= i < |r| - 1 && r[1..][i].key == k;
        assert r[i + 1].key == k;
      }
    }
  }

  /** A key that has been read stays. */
  lemma {:induction false} FieldsKeep(json: string, p: nat, acc: seq<Field>, k: string)
    requires p <= |json| && HasKey(acc, k)
    ensures var r := ParseFields(json, p, acc);
            r.Ok? ==> r.v.Object? && HasKey(r.v.fields, k)
    decreases |json| - p
  {
    hide ParseField, InsertField, HasKey, SkipWs;
    var r := ParseField(json, p);
    if r.FieldOk? {
      var q := SkipWs(json, r.next);
      InsertKeeps(acc, r.f, k);
      if CharAt(json, q) == ',' {
        FieldsKeep(json, SkipWs(json, q + 1), InsertField(acc, r.f), k);
      }
    }
  }

  lemma {:induction false} PrefixLess(k: string, i: nat)
    requires i < |k|
    ensures Less(k[..i], k)
  {
    if i > 0 {
      assert k[..i][1..] == k[1..][..i - 1];
      PrefixLess(k[1..], i - 1);
    }
  }

  /** What the reader makes of a printed key up to its first character that would have to be escaped. */
  lemma BadKeyRead(json: string, p: nat, k: string, i: nat)
    requires i < |k| && PlainKey(k[..i]) && !PlainChar(k[i]) && k[i] != '\\'
    requires p <= |json| && Matches(json, p, "\"" + k)
    ensures ParseString(json, p) == if k[i] == '\"' then Ok(Str(k[..i]), p + i + 2)
                                   else Err(if k[i] == '\0' then MissQuotationMark else InvalidStringChar, p)
  {
    assert "\"" + k == "\"" + (k[..i] + k[i..]);
    MatchesSplit(json, p, "\"", k[..i] + k[i..]);
    MatchesSplit(json, p + 1, k[..i], k[i..]);
    KeyCharsBack(json, p + 1, k[..i], "");
    assert "" + k[..i] == k[..i];
    MatchesAt(json, p + 1 + i, k[i..], 0);
  }

  /**
   * An object is never read back if the first character to be escaped in its smallest key is a quotation mark
   * or a control character: the reader takes a smaller key, and keeps it.
   */
  lemma BadKeyFails(fields: seq<Field>, i: nat)
    requires fields != [] && SortedFields(fields)
    requires var k := fields[0].key;
             i < |k| && PlainKey(k[..i]) && !PlainChar(k[i]) && k[i] != '\\'
    ensures var v := Object(fields);
            forall n :: Parse(Print(v)) != Ok(v, n)
  {
    hide ParseString, ParseFields, PlainChar, PrintFields;
    var v, k := Object(fields), fields[0].key;
    var json := Print(v);
    FieldsFirst(fields);
    ObjectText(fields);
    assert json[1..1 + |k| + 1] == "\"" + k;
    BadKeyRead(json, 1, k, i);
    assert !IsWs(json[1]) && !IsWs(json[0]);
    NoWs(json, 0);
    NoWs(json, 1);
    assert ParseValue(json, 0) == ParseFields(json, 1, []);
    if k[i] != '\"' {
      NoKeyNoFields(json, 1);
    } else if Parse(json).Ok? && Parse(json).v == v {
      FirstFieldKept(json, 1, k[..i]);
      var j :| 0 <= j < |fields| && fields[j].key == k[..i];
      PrefixLess(k, i);
      LessIrreflexive(k);
      if j > 0 {
        LessAsymmetric(k, k[..i]);
      }
    }
  }

  lemma ObjectText(fields: seq<Field>)
    requires fields != []
    ensures var json := Print(Object(fields));
            |json| >= |fields[0].key| + 2 && json[0] == '{' && json[1..2 + |fields[0].key|] == "\"" + fields[0].key
  {
    hide PrintFields, PrintField;
    var f := fields[0];
    FieldsText(fields);
    var rest := if |fields| == 1 then "}" else "," + (PrintFields(fields[1..]) + "}");
    assert Print(Object(fields)) == "{" + (PrintField(f) + rest);
    FieldStart(f);
  }

  lemma FieldStart(f: Field)
    ensures |PrintField(f)| >= 1 + |f.key| && PrintField(f)[..1 + |f.key|] == "\"" + f.key
  {
    hide Print;
  }

  lemma NoKeyNoFields(json: string, p: nat)
    requires p < |json| && ParseString(json, p).Err?
    ensures ParseFields(json, p, []).Err?
  {
    hide ParseString;
  }

  lemma FirstFieldKept(json: string, p: nat, k: string)
    requires p < |json| && ParseString(json, p).Ok? && ParseString(json, p).v == Str(k)
    ensures var r := ParseFields(json, p, []);
            r.Ok? ==> r.v.Object? && HasKey(r.v.fields, k)
  {
    hide ParseString, ParseValue, SkipWs, InsertField;
    var r := ParseField(json, p);
    if r.FieldOk? {
      var q := SkipWs(json, r.next);
      InsertKeeps([], r.f, k);
      if CharAt(json, q) == ',' {
        FieldsKeep(json, SkipWs(json, q + 1), InsertField([], r.f), k);
      }
    }
  }

  /** What printing and reading makes of a character. */
  function Reread(c: char): string {
    if c as int < 128 then [c] else [0xEF as char, 0xBF as char, 0xBF as char]
  }

  function RereadAll(s: string): string {
    if s == [] then [] else RereadAll(s[..|s| - 1]) + Reread(s[|s| - 1])
  }

  lemma {:induction false} HighCharBack(json: string, p: nat, c: char, acc: string)
    requires 128 <= c as int && p + 6 <= |json| && Matches(json, p, "\\uFFFF")
    ensures ParseChars(json, p, acc) == ParseChars(json, p + 6, acc + Reread(c))
  {
    MatchesAt(json, p, "\\uFFFF", 0);
    MatchesAt(json, p, "\\uFFFF", 1);
    MatchesAt(json, p, "\\uFFFF", 2);
    MatchesAt(json, p, "\\uFFFF", 3);
    MatchesAt(json, p, "\\uFFFF", 4);
    MatchesAt(json, p, "\\uFFFF", 5);
    FifteenIsDigit();
    hide ShiftOr, HexVal;
    FourFs();
    assert HexDigits(json, p + 6, 0, 0xFFFF) == HexOk(0xFFFF);
    assert HexDigits(json, p + 5, 1, 0xFFF) == HexOk(0xFFFF);
    assert HexDigits(json, p + 4, 2, 0xFF) == HexOk(0xFFFF);
    assert HexDigits(json, p + 3, 3, 0xF) == HexOk(0xFFFF);
    assert HexDigits(json, p + 2, 4, 0) == HexOk(0xFFFF);
    assert Utf8(0xFFFF) == Reread(c);
  }

  lemma FifteenIsDigit()
    ensures HexVal('F') == 15
  {
  }

  lemma FourFs()
    ensures ShiftOr(0, 15) == 0xF && ShiftOr(0xF, 15) == 0xFF && ShiftOr(0xFF, 15) == 0xFFF
            && ShiftOr(0xFFF, 15) == 0xFFFF
  {
  }

  lemma {:induction false} AnyCharsBack(json: string, p: nat, s: string, acc: string)
    requires Bytes(s) && p <= |json| && Matches(json, p, PrintChars(s))
    ensures ParseChars(json, p, acc) == ParseChars(json, p + |PrintChars(s)|, acc + RereadAll(s))
    decreases |s|
  {
    hide ParseChars, PrintChar, Reread;
    if s == [] {
      assert acc + RereadAll(s) == acc;
    } else {
      var init, c := s[..|s| - 1], s[|s| - 1];
      MatchesSplit(json, p, PrintChars(init), PrintChar(c));
      AnyCharsBack(json, p, init, acc);
      if c as int < 128 {
        CharBack(json, p + |PrintChars(init)|, c, acc + RereadAll(init));
      } else {
        HighPrint(c);
        HighCharBack(json, p + |PrintChars(init)|, c, acc + RereadAll(init));
      }
      LowReread(c);
      assert (acc + RereadAll(init)) + Reread(c) == acc + RereadAll(s);
    }
  }

  lemma HighPrint(c: char)
    requires c as int >= 128
    ensures PrintChar(c) == "\\uFFFF"
  {
  }

  lemma LowReread(c: char)
    ensures c as int < 128 ==> Reread(c) == [c]
  {
  }

  lemma {:induction false} RereadLength(s: string)
    ensures |RereadAll(s)| >= |s|
    ensures Ascii(s) <==> |RereadAll(s)| == |s|
    ensures Ascii(s) ==> RereadAll(s) == s
  {
    if s != [] {
      var init := s[..|s| - 1];
      RereadLength(init);
      assert s == init + [s[|s| - 1]];
      assert Ascii(s) <==> Ascii(init) && s[|s| - 1] as int < 128;
    }
  }

  /** Exactly the ASCII strings survive printing and parsing, because bytes from 128 on are negative chars. */
  lemma StringSurvives(s: string)
    requires Bytes(s)
    ensures ParseString(PrintString(s), 0) == Ok(Str(s), |PrintString(s)|) <==> Ascii(s)
  {
    hide PrintString, RereadAll, ParseString;
    var json := PrintString(s);
    assert json[0..0 + |json|] == json;
    StringBack(json, 0, s);
    RereadLength(s);
  }
}
