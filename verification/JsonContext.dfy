/** The JSON library as it runs: a parser that moves a cursor and collects characters, and a printer that appends. */
module JsonContext {
  import opened Json

  datatype Result = Success(v: Value) | Failure(code: Code)

  /** The outcome of a parsing method is that of the specification, and the cursor stands where it says. */
  predicate Agrees(spec: Parsed, r: Result, ptr: nat) {
    match spec
    case Ok(v, next) => r == Success(v) && ptr == next
    case Err(code, at) => r == Failure(code) && ptr == at
  }

  lemma HexStep(json: string, p: nat, n: nat, u: nat)
    requires n > 0
    ensures HexDigits(json, p, n, u)
         == if HexVal(CharAt(json, p)) < 0 then HexErr
            else HexDigits(json, p + 1, n - 1, ShiftOr(u, HexVal(CharAt(json, p))))
  {
  }

  lemma HexDone(json: string, p: nat, u: nat)
    ensures HexDigits(json, p, 0, u) == HexOk(u)
  {
  }

  class LeptContext {
    const json: string  // followed by a null character
    var ptr: nat
    var stk: string     // the characters of the string being parsed

    constructor (json: string)
      ensures this.json == json && ptr == 0 && stk == ""
    {
      this.json := json;
      ptr, stk := 0, "";
    }

    method PushChar(c: char)
      modifies this`stk
      ensures stk == old(stk) + [c]
    {
      stk := stk + [c];
    }

    method ParseWhitespace()
      requires ptr <= |json|
      modifies this`ptr
      ensures ptr == SkipWs(json, old(ptr))
    {
      var tmp := ptr;
      while CharAt(json, tmp) == ' ' || CharAt(json, tmp) == '\t' || CharAt(json, tmp) == '\n'
            || CharAt(json, tmp) == '\r'
        invariant tmp <= |json| && SkipWs(json, tmp) == SkipWs(json, ptr)
        decreases |json| - tmp
      {
        tmp := tmp + 1;
      }
      ptr := tmp;
    }

    method ParseLiteralText(literal: string, v: Value) returns (r: Result)
      requires ptr <= |json| && literal != "" && '\0' !in literal
      modifies this`ptr
      ensures Agrees(ParseLiteral(json, old(ptr), literal, v), r, ptr)
    {
      for i := 0 to |literal|
        invariant ptr + i <= |json| && json[ptr..ptr + i] == literal[..i]
      {
        if CharAt(json, i + ptr) != literal[i] {
          if ptr + |literal| <= |json| {
            assert json[ptr..ptr + |literal|][i] == json[ptr + i];
          }
          return Failure(InvalidValue);
        }
        assert json[ptr..ptr + i + 1] == json[ptr..ptr + i] + [json[ptr + i]];
      }
      ptr := ptr + |literal|;
      r := Success(v);
    }

    /** Reads digits from tmp on. */
    method Run(tmp0: nat) returns (tmp: nat)
      requires tmp0 <= |json|
      ensures tmp == SkipDigits(json, tmp0) && tmp <= |json|
    {
      tmp := tmp0;
      while IsDigit(CharAt(json, tmp))
        invariant tmp <= |json| && SkipDigits(json, tmp) == SkipDigits(json, tmp0)
        decreases |json| - tmp
      {
        tmp := tmp + 1;
      }
    }

    /** An optional sign, then a zero or a number without leading zeros. */
    method IntegerPartText(tmp0: nat) returns (ok: bool, tmp: nat)
      requires tmp0 <= |json|
      ensures ok == IntegerPart(json, tmp0).0 && (ok ==> tmp == IntegerPart(json, tmp0).1)
    {
      hide SkipDigits;
      tmp := tmp0;
      if CharAt(json, tmp) == '-' {
        tmp := tmp + 1;
      }
      if CharAt(json, tmp) == '0' {
        tmp := tmp + 1;
      } else {
        if !('1' <= CharAt(json, tmp) <= '9') {
          return false, tmp;
        }
        tmp := Run(tmp + 1);
      }
      ok := true;
    }

    method FractionText(tmp0: nat) returns (ok: bool, tmp: nat)
      requires tmp0 <= |json|
      ensures ok == Fraction(json, tmp0).0 && (ok ==> tmp == Fraction(json, tmp0).1)
    {
      hide SkipDigits;
      tmp := tmp0;
      if CharAt(json, tmp) == '.' {
        tmp := tmp + 1;
        if !IsDigit(CharAt(json, tmp)) {
          return false, tmp;
        }
        tmp := Run(tmp + 1);
      }
      ok := true;
    }

    method ExponentText(tmp0: nat) returns (ok: bool, tmp: nat)
      requires tmp0 <= |json|
      ensures ok == Exponent(json, tmp0).0 && (ok ==> tmp == Exponent(json, tmp0).1)
    {
      hide SkipDigits;
      tmp := tmp0;
      if CharAt(json, tmp) == 'e' || CharAt(json, tmp) == 'E' {
        tmp := tmp + 1;
        if CharAt(json, tmp) == '+' || CharAt(json, tmp) == '-' {
          tmp := tmp + 1;
        }
        if !IsDigit(CharAt(json, tmp)) {
          return false, tmp;
        }
        tmp := Run(tmp + 1);
      }
      ok := true;
    }

    method ParseNumberText() returns (r: Result)
      requires ptr <= |json|
      modifies this`ptr
      ensures Agrees(ParseNumber(json, old(ptr)), r, ptr)
    {
      hide IntegerPart, Fraction, Exponent, SignedOf;
      var ok, end := IntegerPartText(ptr);
      if !ok {
        return Failure(InvalidValue);
      }
      var tmp;
      ok, tmp := FractionText(end);
      if !ok {
        return Failure(InvalidValue);
      }
      ok, tmp := ExponentText(tmp);
      if !ok {
        return Failure(InvalidValue);
      }
      if tmp == end {
        var n := SignedOf(json[ptr..tmp]);
        if n < -0x8000_0000_0000_0000 || n >= 0x8000_0000_0000_0000 {
          return Failure(NumberTooBig);
        }
        r := Success(Integer(ToInt32(n)));
      } else {
        r := Success(Number(json[ptr..tmp]));
      }
      ptr := tmp;
    }

    /** Four hexadecimal digits from p on. */
    method ParseHex4(p: nat) returns (ok: bool, u: nat)
      ensures HexDigits(json, p, 4, 0) == if ok then HexOk(u) else HexErr
    {
      hide HexDigits, ShiftOr;
      u := 0;
      for i := 0 to 4
        invariant HexDigits(json, p, 4, 0) == HexDigits(json, p + i, 4 - i, u)
      {
        HexStep(json, p + i, 4 - i, u);
        var ch := CharAt(json, p + i);
        if '0' <= ch <= '9' {
          u := ShiftOr(u, ch as int - '0' as int);
        } else if 'A' <= ch <= 'Z' {
          u := ShiftOr(u, ch as int - ('A' as int - 10));
        } else if 'a' <= ch <= 'z' {
          u := ShiftOr(u, ch as int - ('a' as int - 10));
        } else {
          return false, u;
        }
      }
      HexDone(json, p + 4, u);
      ok := true;
    }

    method EncodeUtf8(u: nat)
      modifies this`stk
      ensures stk == old(stk) + Utf8(u)
    {
      if u <= 0x7F {
        PushChar(u as char);
      } else if u <= 0x7FF {
        PushChar((0xC0 + u / 64) as char);
        PushChar((0x80 + u % 64) as char);
      } else if u <= 0xFFFF {
        PushChar((0xE0 + u / 4096) as char);
        PushChar((0x80 + u / 64 % 64) as char);
        PushChar((0x80 + u % 64) as char);
      } else {
        PushChar((0xF0 + u / 262144 % 8) as char);
        PushChar((0x80 + u / 4096 % 64) as char);
        PushChar((0x80 + u / 64 % 64) as char);
        PushChar((0x80 + u % 64) as char);
      }
    }

    /** The escape whose second character is at tmp; its characters go to the stack. */
    method Unescape(tmp: nat) returns (ok: bool, next: nat, code: Code)
      modifies this`stk
      ensures match ParseEscape(json, tmp)
              case EscOk(chars, n) => ok && next == n && stk == old(stk) + chars
              case EscErr(c) => !ok && code == c
    {
      hide UnicodeEscape;
      ok, next, code := true, tmp + 1, InvalidStringChar;
      match CharAt(json, tmp)
      case '\"' => PushChar('\"');
      case '\\' => PushChar('\\');
      case '/' => PushChar('/');
      case 'b' => PushChar(8 as char);
      case 't' => PushChar('\t');
      case 'n' => PushChar('\n');
      case 'r' => PushChar('\r');
      case 'f' => PushChar(12 as char);
      case 'u' => ok, next, code := UnescapeUnicode(tmp + 1);
      case _ => ok := false;
    }

    /** One code point from one or two groups of four digits. */
    method UnescapeUnicode(p: nat) returns (ok: bool, next: nat, code: Code)
      modifies this`stk
      ensures match UnicodeEscape(json, p)
              case EscOk(chars, n) => ok && next == n && stk == old(stk) + chars
              case EscErr(c) => !ok && code == c
    {
      hide HexDigits, Utf8;
      var hexOk, u := ParseHex4(p);
      next, code := p + 4, InvalidUnicodeHex;
      if !hexOk {
        return false, next, code;
      }
      if 0xD800 <= u <= 0xDBFF {
        if CharAt(json, next) != '\\' || CharAt(json, next + 1) != 'u' {
          return false, next, InvalidUnicodeSurrogate;
        }
        var u2;
        hexOk, u2 := ParseHex4(next + 2);
        if !hexOk {
          return false, next, InvalidUnicodeHex;
        }
        if u2 < 0xDC00 || u2 > 0xDFFF {
          return false, next, InvalidUnicodeSurrogate;
        }
        next := next + 6;
        u := (u - 0xD800) * 1024 + (u2 - 0xDC00) + 0x10000;
      }
      EncodeUtf8(u);
      ok := true;
    }

    method ParseStringText() returns (r: Result)
      requires ptr < |json| && json[ptr] == '\"' && stk == ""
      modifies this
      ensures Agrees(ParseString(json, old(ptr)), r, ptr)
      ensures r.Success? ==> stk == ""
    {
      hide ParseEscape;
      var tmp := ptr + 1;
      while true
        invariant tmp <= |json| && ptr == old(ptr) && ParseChars(json, ptr + 1, "") == ParseChars(json, tmp, stk)
        decreases |json| - tmp
      {
        var ch := CharAt(json, tmp);
        if ch == '\"' {
          var str := stk;
          ptr := tmp + 1;
          stk := "";
          return Success(Str(str));
        } else if ch == '\\' {
          EscapeStays(json, tmp + 1);
          var ok, next, code := Unescape(tmp + 1);
          if !ok {
            return Failure(code);
          }
          tmp := next;
        } else if ch == '\0' {
          stk := "";
          return Failure(MissQuotationMark);
        } else {
          if ch as int < 0x20 {
            stk := "";
            return Failure(InvalidStringChar);
          }
          PushChar(ch);
          tmp := tmp + 1;
        }
      }
    }

    method ParseValueText() returns (r: Result)
      requires ptr <= |json| && stk == ""
      modifies this
      ensures Agrees(ParseValue(json, old(ptr)), r, ptr)
      ensures r.Success? ==> stk == ""
      decreases |json| - ptr, 1
    {
      match CharAt(json, ptr)
      case 't' => r := ParseLiteralText("true", Bool(true));
      case 'f' => r := ParseLiteralText("false", Bool(false));
      case 'n' => r := ParseLiteralText("null", Null);
      case '\0' => r := Failure(ExpectValue);
      case '\"' => r := ParseStringText();
      case '[' => r := ParseArrayText();
      case '{' => r := ParseObjectText();
      case _ => r := ParseNumberText();
    }

    method ParseArrayText() returns (r: Result)
      requires ptr < |json| && stk == ""
      modifies this
      ensures Agrees(ParseArray(json, old(ptr)), r, ptr)
      ensures r.Success? ==> stk == ""
      decreases |json| - ptr, 0
    {
      hide ParseValue, SkipWs;
      ptr := ptr + 1;
      var arr: seq<Value> := [];
      ParseWhitespace();
      if CharAt(json, ptr) == ']' {
        ptr := ptr + 1;
        return Success(Array(arr));
      }
      while true
        invariant old(ptr) < ptr <= |json| && stk == "" && ParseArray(json, old(ptr)) == ParseElems(json, ptr, arr)
        decreases |json| - ptr
      {
        var e := ParseValueText();
        if e.Failure? {
          return e;
        }
        arr := arr + [e.v];
        ParseWhitespace();
        if CharAt(json, ptr) == ',' {
          ptr := ptr + 1;
          ParseWhitespace();
        } else if CharAt(json, ptr) == ']' {
          ptr := ptr + 1;
          return Success(Array(arr));
        } else {
          return Failure(MissCommaOrSquareBracket);
        }
      }
    }

    /** A key, a colon and a value. */
    method ParseFieldText() returns (r: Result, key: string)
      requires ptr <= |json| && stk == ""
      modifies this
      ensures match ParseField(json, old(ptr))
              case FieldOk(f, next) => r == Success(f.value) && key == f.key && ptr == next && stk == ""
              case FieldErr(code, at) => r == Failure(code) && ptr == at
      decreases |json| - ptr, 2
    {
      hide ParseValue, ParseString, SkipWs;
      key := "";
      if CharAt(json, ptr) != '\"' {
        return Failure(MissKey), key;
      }
      var str := ParseStringText();
      if str.Failure? {
        return str, key;
      }
      ParseWhitespace();
      if CharAt(json, ptr) != ':' {
        return Failure(MissColon), key;
      }
      ptr := ptr + 1;
      ParseWhitespace();
      key := str.v.s;
      r := ParseValueText();
    }

    method ParseObjectText() returns (r: Result)
      requires ptr < |json| && stk == ""
      modifies this
      ensures Agrees(ParseObject(json, old(ptr)), r, ptr)
      ensures r.Success? ==> stk == ""
      decreases |json| - ptr, 0
    {
      hide ParseField, SkipWs, InsertField;
      ptr := ptr + 1;
      var mp: seq<Field> := [];
      ParseWhitespace();
      if CharAt(json, ptr) == '}' {
        ptr := ptr + 1;
        return Success(Object(mp));
      }
      while true
        invariant old(ptr) < ptr <= |json| && stk == "" && ParseObject(json, old(ptr)) == ParseFields(json, ptr, mp)
        decreases |json| - ptr
      {
        var e, key := ParseFieldText();
        if e.Failure? {
          return e;
        }
        mp := InsertField(mp, Field(key, e.v));
        ParseWhitespace();
        if CharAt(json, ptr) == '}' {
          ptr := ptr + 1;
          return Success(Object(mp));
        } else if CharAt(json, ptr) == ',' {
          ptr := ptr + 1;
          ParseWhitespace();
        } else {
          return Failure(MissCommaOrCurlyBracket);
        }
      }
    }
  }

  /** A whole text: an error is reported as such only if nothing is left behind it. */
  method ParseText(json: string) returns (r: Result)
    ensures match Parse(json)
            case Ok(v, _) => r == Success(v)
            case Err(code, _) => r == Failure(code)
  {
    hide ParseValue;
    var c := new LeptContext(json);
    c.ParseWhitespace();
    r := c.ParseValueText();
    if r.Failure? {
      c.ParseWhitespace();
      if c.ptr != |json| {
        r := Failure(RootNotSingular);
      }
    }
  }

  // ---------- the printer ----------

  method StringifyString(s: string, stk0: string) returns (stk: string)
    ensures stk == stk0 + PrintString(s)
  {
    hide PrintChars, PrintChar;
    stk := stk0 + "\"";
    ghost var start := stk;
    NoChars();
    assert start + "" == start;
    for i := 0 to |s|
      invariant stk == start + PrintChars(s[..i])
    {
      NextChar(s, i);
      assert (start + PrintChars(s[..i])) + PrintChar(s[i]) == start + (PrintChars(s[..i]) + PrintChar(s[i]));
      stk := stk + PrintChar(s[i]);
    }
    assert s[..|s|] == s;
    stk := stk + "\"";
    assert stk0 + PrintString(s) == stk0 + "\"" + PrintChars(s) + "\"";
  }

  lemma NoChars()
    ensures PrintChars("") == ""
  {
  }

  lemma NextChar(s: string, i: nat)
    requires i < |s|
    ensures PrintChars(s[..i + 1]) == PrintChars(s[..i]) + PrintChar(s[i])
  {
    assert s[..i + 1][..i] == s[..i];
  }

  /** What is still to be printed of a list from position i on. */
  ghost function RestOfElems(elems: seq<Value>, i: nat): string
    requires i <= |elems|
  {
    if i == |elems| then "" else (if i > 0 then "," else "") + PrintElems(elems[i..])
  }

  ghost function RestOfFields(fields: seq<Field>, i: nat): string
    requires i <= |fields|
  {
    if i == |fields| then "" else (if i > 0 then "," else "") + PrintFields(fields[i..])
  }

  lemma NextElem(elems: seq<Value>, i: nat)
    requires i < |elems|
    ensures RestOfElems(elems, i) == (if i > 0 then "," else "") + Print(elems[i]) + RestOfElems(elems, i + 1)
  {
    hide Print;
    var r := elems[i..];
    assert r[1..] == elems[i + 1..] && r[0] == elems[i];
    if |r| > 1 {
      assert PrintElems(r) == Print(r[0]) + ("," + PrintElems(r[1..]));
    }
  }

  lemma NextField(fields: seq<Field>, i: nat)
    requires i < |fields|
    ensures RestOfFields(fields, i) == (if i > 0 then "," else "") + PrintField(fields[i]) + RestOfFields(fields, i + 1)
  {
    hide PrintField;
    var r := fields[i..];
    assert r[1..] == fields[i + 1..] && r[0] == fields[i];
    if |r| > 1 {
      assert PrintFields(r) == PrintField(r[0]) + ("," + PrintFields(r[1..]));
    }
  }

  /** Appends the text of a value. */
  method StringifyValue(v: Value, stk0: string) returns (stk: string)
    ensures stk == stk0 + Print(v)
    decreases v, 1
  {
    hide PrintElems, PrintFields, PrintInt, PrintString;
    match v
    case Null => stk := stk0 + "null";
    case Bool(b) => stk := stk0 + (if b then "true" else "false");
    case Integer(i) => stk := stk0 + PrintInt(i);
    case Number(text) => stk := stk0 + text;
    case Str(s) => stk := StringifyString(s, stk0);
    case Array(elems) =>
      stk := StringifyElems(elems, stk0 + "[");
      stk := stk + "]";
      assert stk == stk0 + ("[" + PrintElems(elems) + "]");
    case Object(fields) =>
      stk := StringifyFields(fields, stk0 + "{");
      stk := stk + "}";
      assert stk == stk0 + ("{" + PrintFields(fields) + "}");
  }

  method StringifyElems(elems: seq<Value>, stk0: string) returns (stk: string)
    ensures stk == stk0 + PrintElems(elems)
    decreases elems, 0
  {
    hide PrintElems, Print, RestOfElems;
    stk := stk0;
    ElemsWhole(elems);
    ghost var all := stk0 + PrintElems(elems);
    var flag := false;
    for i := 0 to |elems|
      invariant stk + RestOfElems(elems, i) == all && flag == (i > 0)
    {
      NextElem(elems, i);
      ghost var before, rest := stk, RestOfElems(elems, i + 1);
      if flag {
        stk := stk + ",";
      } else {
        flag := true;
        assert stk == stk + "";
      }
      stk := StringifyValue(elems[i], stk);
      ghost var comma := if i > 0 then "," else "";
      assert stk + rest == before + (comma + Print(elems[i]) + rest);
    }
    assert stk + "" == stk;
  }

  method StringifyFields(fields: seq<Field>, stk0: string) returns (stk: string)
    ensures stk == stk0 + PrintFields(fields)
    decreases fields, 0
  {
    hide PrintFields, Print, RestOfFields;
    stk := stk0;
    FieldsWhole(fields);
    ghost var all := stk0 + PrintFields(fields);
    var flag := false;
    for i := 0 to |fields|
      invariant stk + RestOfFields(fields, i) == all && flag == (i > 0)
    {
      NextField(fields, i);
      ghost var before, rest := stk, RestOfFields(fields, i + 1);
      if flag {
        stk := stk + ",";
      } else {
        flag := true;
        assert stk == stk + "";
      }
      stk := StringifyField(fields[i], stk);
      ghost var comma := if i > 0 then "," else "";
      assert stk + rest == before + (comma + PrintField(fields[i]) + rest);
    }
    assert stk + "" == stk;
  }

  method StringifyField(f: Field, stk0: string) returns (stk: string)
    ensures stk == stk0 + PrintField(f)
    decreases f, 0
  {
    hide Print;
    stk := stk0 + "\"";
    stk := stk + f.key;
    stk := stk + "\"";
    stk := stk + ":";
    assert stk == stk0 + ("\"" + f.key + "\":");
    stk := StringifyValue(f.value, stk);
    assert stk == stk0 + ("\"" + f.key + "\":" + Print(f.value));
  }

  lemma {:induction false} ElemsWhole(elems: seq<Value>)
    ensures RestOfElems(elems, 0) == PrintElems(elems) && RestOfElems(elems, |elems|) == ""
  {
    hide Print, PrintField;
    assert elems[0..] == elems;
    NothingPrinted();
    assert "" + PrintElems(elems) == PrintElems(elems);
  }

  lemma {:induction false} FieldsWhole(fields: seq<Field>)
    ensures RestOfFields(fields, 0) == PrintFields(fields) && RestOfFields(fields, |fields|) == ""
  {
    hide Print, PrintField;
    assert fields[0..] == fields;
    NothingPrinted();
    assert "" + PrintFields(fields) == PrintFields(fields);
  }
}
